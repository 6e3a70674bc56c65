/** AuthService: the owner-or-admin access guard. */
module AuthService {
  import opened Results
  import opened Exceptions
  import opened Entities
  import opened UserService

  const AdminRole := "ROLE_ADMIN"

  /** AuthService.validateSelfOrAdmin: resolve the caller (its failure comes
      first and unchanged), then let it through when it is an administrator or
      is the user `userId` itself; anyone else gets Forbidden. */
  function ValidateSelfOrAdmin(users: map<string, User>, auth: Authentication, userId: int): (r: Outcome)
    requires UsersKeyedByEmail(users)
    ensures var caller := Authenticated(users, auth);
      caller.Failure? ==> r == Fail(caller.error)
    ensures var caller := Authenticated(users, auth);
      caller.Success? && HasRole(caller.value, AdminRole) ==> r == Pass
    ensures var caller := Authenticated(users, auth);
      caller.Success? && caller.value.id == userId ==> r == Pass
    ensures var caller := Authenticated(users, auth);
      (caller.Success? && !HasRole(caller.value, AdminRole) && caller.value.id != userId)
      ==> r == Fail(Forbidden(AccessDeniedMessage))
  {
    match Authenticated(users, auth)
    case Failure(e) => Fail(e)
    case Success(user) =>
      if !HasRole(user, AdminRole) && user.id != userId then Fail(Forbidden(AccessDeniedMessage)) else Pass
  }
}
