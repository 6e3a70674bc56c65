# Order placement and owner-or-admin access control, modelled in Dafny

This project models the order and user services of a small shop backend:

- **Placing an order** (`OrderService.insert`): the caller is resolved from
  the request's credential. The order is created with status `WAITNG_PAYMENT`
  (the source's spelling) and the caller as its client. Each requested line
  becomes an order item that keeps the product's catalog price at that moment
  and the requested quantity. Only after every line is built is the order
  saved, and then its items.
- **Reading an order** (`OrderService.findById`): an unknown id is "not found"
  whoever asks. A known order is returned only if the access guard lets the
  caller through for the order's client.
- **The access guard** (`AuthService.validateSelfOrAdmin`): it resolves the
  caller and lets it through if it has the authority `ROLE_ADMIN` or its id is
  the target user id. Anyone else gets `Forbidden("Access denied")`.
- **The user services** (`UserService`): `loadUserByUsername` builds a user
  from the rows of the user-and-roles query. `authenticated` turns every
  failure to resolve the caller into `UsernameNotFound("Email not found")`.
  `findMe` returns the caller's own profile.
- **The order view** (`OrderDTO(Order)`): a field copy with a null payment kept
  null, and one item view per order item, in order.

Layout, one module per source file or component:

| file | module | source |
|---|---|---|
| `results.dfy` | `Results` | `Option`, `Result` (a call that returns or throws), `Outcome` (a `void` call) |
| `exceptions.dfy` | `Exceptions` | the exception kinds and the services' messages |
| `entities.dfy` | `Entities` | `User` with its roles, `Role`, `Product`, `Payment`, `OrderStatus`, the `Order` class, `OrderItem` |
| `order_dto.dfy` | `OrderDtos` | `OrderDTO` and the DTOs it is built from |
| `user_service.dfy` | `UserService` | `UserService`, `UserDTO` |
| `auth_service.dfy` | `AuthService` | `AuthService` |
| `order_service.dfy` | `OrderService` | `OrderService` and its repositories (class `Shop`) |

The repositories are fields of the class `Shop`. Users are a map from email to
user, products a map from id to product, orders a map from id to `Order`
object, and order items the sequence of rows written. Order ids come from a
counter, as an identity column hands them out. The request's security context
is the explicit parameter `auth`, and the clock reading is the parameter `now`.

An order is a class because its items point back at it and saving it gives it
an id. The item rows then refer to the order through that id. The object
invariant `Shop.Valid` says users and products are stored under their own
email and id, every stored order carries its own key, every item row points
at a stored order, and the rows of each stored order are exactly its items,
in order. Between the two saves of `Insert` only the weaker `Shop.Stored`
holds: the new order is stored but its items are not rows yet. `SaveAllItems` requires that each item's
order is already stored, as the item table's foreign key does. So `Insert`
verifies only because it saves the order before its items.

Behaviour of the code that the model keeps as it is:

- The administrator authority is `ROLE_ADMIN`, and the new status is spelled
  `WAITNG_PAYMENT`.
- A caller that cannot be resolved gets `UsernameNotFound("Email not found")`;
  there is no separate "unauthenticated" error.
- An unknown product in a requested line is the persistence layer's
  entity-not-found error, not the services' `ResourceNotFoundException`. It is
  raised when the lazy product reference is asked for its price.
- Quantities are copied without any check: the code validates none.

The user entity as shipped (`entities/User.java`) has no role set, no
`hasRole` and no `addRole`, yet `UserService` and `AuthService` call them. Its
`getId()` returns a primitive `long`, on which `AuthService` calls `.equals`.
The model gives a user a set of roles, `HasRole` holds when some role has the
authority, and ids are compared by value.

## Model

| member | source | states |
|---|---|---|
| `OrderDtos.NewOrderDto` | src/main/java/com/devmarrima/dscommerce_list/dto/OrderDTO.java:28-38 | the view has the entity's id, moment and status, the entity's client, a payment exactly when the entity has one (built from it), and as many items as the entity, the i-th built from the i-th entity item |
| `OrderDtos.IsDtoOfDeterministic` | src/main/java/com/devmarrima/dscommerce_list/dto/OrderDTO.java:28-38 | two views of the same order are equal: the view is a function of the order |
| `OrderDtos.NoItemsNoItemViews` | src/main/java/com/devmarrima/dscommerce_list/dto/OrderDTO.java:35-37 | an order with no items has a view with an empty item list |
| `UserService.RolesOfExactly` | src/main/java/com/devmarrima/dscommerce_list/services/UserService.java:36-38 | the roles gathered from the rows are exactly the (roleId, authority) roles of the rows |
| `UserService.LoadUserByUsername` | src/main/java/com/devmarrima/dscommerce_list/services/UserService.java:28-41 | fails with UsernameNotFound("User not found") iff there are no rows; otherwise the user's email is the username, its password the first row's, and its roles those of the rows |
| `UserService.LoadedUserHasRoleIff` | src/main/java/com/devmarrima/dscommerce_list/services/UserService.java:33-38 | a user assembled from the rows has an authority iff some row names it |
| `UserService.Authenticated` | src/main/java/com/devmarrima/dscommerce_list/services/UserService.java:43-53 | over a user repository keyed by email: on success it returns a stored user whose email is the JWT's `username` claim; whenever a stored user has that email it returns that user; every failure (no authentication, a non-JWT principal, no claim, no user) is UsernameNotFound("Email not found") |
| `UserService.UserDtoOf` | src/main/java/com/devmarrima/dscommerce_list/dto/UserDTO.java:30-40 | the profile has the user's id, name and email, and lists an authority iff the user has that role |
| `UserService.FindMe` | src/main/java/com/devmarrima/dscommerce_list/services/UserService.java:55-59 | the profile of exactly the user `authenticated` yields, and `authenticated`'s error when it fails |
| `AuthService.ValidateSelfOrAdmin` | src/main/java/com/devmarrima/dscommerce_list/services/AuthService.java:15-20 | a caller that cannot be resolved fails with that error before any check; an admin passes for every target; a caller passes for its own id whatever its roles; any other caller fails with Forbidden("Access denied") |
| `OrderService.Shop.RowsAreOrderItems` | src/main/java/com/devmarrima/dscommerce_list/services/OrderService.java:62-63 | between requests, an item of a stored order is a saved row pointing at that order, and every saved row pointing at an order is one of its items |
| `OrderService.Shop.SaveOrder` | src/main/java/com/devmarrima/dscommerce_list/services/OrderService.java:62 | a new order gets the next id and is stored under it, with no item rows yet; the other orders keep their rows; nothing else changes |
| `OrderService.Shop.SaveAllItems` | src/main/java/com/devmarrima/dscommerce_list/services/OrderService.java:63 | the items are appended to the item rows; it may only be called when every item's order is already stored |
| `OrderService.Shop.Insert` | src/main/java/com/devmarrima/dscommerce_list/services/OrderService.java:47-65 | an unresolvable caller fails with its error; otherwise it fails iff some requested product is unknown, with the error of the first unknown one; on any failure no order, item or id is used up; on success a fresh order is stored under the next id with moment `now`, status WAITNG_PAYMENT, the caller as client and no payment, with one item per requested line in order, each pointing at the order and the product with the requested quantity and the catalog price; exactly those items are appended to the item rows, and the result is the order's view, whose i-th line shows the i-th requested product id |
| `OrderService.Shop.FindById` | src/main/java/com/devmarrima/dscommerce_list/services/OrderService.java:39-45 | an absent id fails with ResourceNotFound whoever calls; for a stored order the guard's error is returned if it fails, and otherwise the order's view, whose lines are the order's saved item rows in the order they were written |
| `OrderService.Shop.PlaceAndReadBack` | src/main/java/com/devmarrima/dscommerce_list/services/OrderService.java:40-64 | the caller who placed an order can read it back and gets the same view that placing it returned; nothing is read when placing failed |

## Left out

- The clock: `Instant.now()` is the parameter `now` of `Insert`.
- The security context and JWT handling. The request's authentication is the parameter `auth`. A JWT is a map of string claims, so a non-string `username` claim (a cast failure in the source) is not represented.
- The user-and-roles query: `LoadUserByUsername` takes the rows the query returned for the username. Its SQL is not part of this model.
- UserService.LoadUserByUsername: a new user's unset id is 0, as for a Java `long`; its unset name is the empty string instead of Java's null.
- Transactions are not modelled as such. Atomicity is stated as "nothing is saved unless every line was built" in `Insert`'s contract.
- The lazy product reference: looking up a product id is a map lookup that fails with `EntityNotFound` when the id is absent.
- OrderService.Shop.SaveOrder: only the save of a new order (null id) is modelled, the only save the services perform; merging an existing order is not.
- The item table is the sequence of rows written. Rows with the same (order, product) key are not merged.
- `OrderDTO.getTotal` and the subtotals: they are floating-point sums. Prices are copied values and never added or multiplied.
- Fields that are only copied and take part in no rule: a user's phone and birth date, and a product's description and image URL.
- Ids and quantities are unbounded integers; the 64-bit `Long` and 32-bit `Integer` limits are not modelled.
- A null client on an order, and null fields in a query row, are not represented.
- OrderService.Shop.Insert: a requested line with a null product id, which makes `getReferenceById` throw, is not represented: a requested product id is always an integer.
- UserService.UserDtoOf: the profile's authorities are a set, not the source's list with one entry per role in iteration order; two roles with the same authority show it once, and the order is not kept.
- Reading an order shows the items kept on the stored order object. The invariant `Shop.Valid` proves these are exactly the order's saved rows, but a fresh reload from the tables is not modelled.
- Spring wiring, the repository interfaces, `ProductService`, `ControllerExceptionHandler` and `ValidationError` are plumbing with no rule to state.
