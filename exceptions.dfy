/** The exceptions the order and user services throw, each with the message the
    services give it. */
module Exceptions {

  datatype Error =
    | ResourceNotFound(message: string)   // services.exceptions.ResourceNotFoundException
    | Forbidden(message: string)          // services.exceptions.ForbiddenException
    | UsernameNotFound(message: string)   // Spring Security's UsernameNotFoundException
    | EntityNotFound(id: int)             // JPA's EntityNotFoundException from a lazy product reference

  /** OrderService.findById on an absent id. */
  const OrderNotFoundMessage := "Recurso não encontrado"
  /** AuthService.validateSelfOrAdmin when the caller is neither owner nor admin. */
  const AccessDeniedMessage := "Access denied"
  /** UserService.loadUserByUsername when no projection row matches. */
  const UserNotFoundMessage := "User not found"
  /** UserService.authenticated, whatever went wrong. */
  const EmailNotFoundMessage := "Email not found"
}
