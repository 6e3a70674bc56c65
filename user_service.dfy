/** UserService: assembling a user from the credential query's rows, resolving
    the caller of a request, and the caller's own profile. */
module UserService {
  import opened Results
  import opened Exceptions
  import opened Entities

  /** One row of the user-and-roles query for an email: the user's password and one of its roles. */
  datatype UserDetailsProjection = UserDetailsProjection(username: string, password: string, roleId: int, authority: string)

  function RoleOf(row: UserDetailsProjection): Role
  {
    Role(row.roleId, row.authority)
  }

  /** The roles named by a sequence of rows, gathered from first to last. */
  function RolesOf(rows: seq<UserDetailsProjection>): set<Role>
  {
    if rows == [] then {} else RolesOf(rows[..|rows| - 1]) + {RoleOf(rows[|rows| - 1])}
  }

  /** RolesOf holds the role of every row and nothing else. */
  lemma {:induction false} RolesOfExactly(rows: seq<UserDetailsProjection>, role: Role)
    ensures role in RolesOf(rows) <==> exists i :: 0 <= i < |rows| && RoleOf(rows[i]) == role
  {
    if rows != [] {
      var init := rows[..|rows| - 1];
      RolesOfExactly(init, role);
      if role in RolesOf(init) {
        var i :| 0 <= i < |init| && RoleOf(init[i]) == role;
        assert RoleOf(rows[i]) == role;
      }
      if exists i :: 0 <= i < |rows| && RoleOf(rows[i]) == role {
        var i :| 0 <= i < |rows| && RoleOf(rows[i]) == role;
        if i < |init| {
          assert RoleOf(init[i]) == role;
        }
      }
    }
  }

  /** UserService.loadUserByUsername over the rows the query returned for
      `username`: no rows is UsernameNotFound; otherwise a new user with that
      email, the first row's password and one role per row. */
  method LoadUserByUsername(username: string, rows: seq<UserDetailsProjection>) returns (r: Result<User>)
    ensures r.Failure? <==> rows == []
    ensures r.Failure? ==> r.error == UsernameNotFound(UserNotFoundMessage)
    ensures r.Success? ==> r.value.email == username && r.value.password == rows[0].password
    ensures r.Success? ==> r.value.roles == RolesOf(rows)
    ensures r.Success? ==> r.value.id == 0 && r.value.name == ""
  {
    if |rows| == 0 {
      return Failure(UsernameNotFound(UserNotFoundMessage));
    }
    var user := User(0, "", username, rows[0].password, {});
    for i := 0 to |rows|
      invariant user.email == username && user.password == rows[0].password
      invariant user.id == 0 && user.name == ""
      invariant user.roles == RolesOf(rows[..i])
    {
      assert rows[..i + 1][..i] == rows[..i];
      user := user.(roles := user.roles + {RoleOf(rows[i])});
    }
    assert rows[..|rows|] == rows;
    r := Success(user);
  }

  /** A user assembled from `rows` has an authority exactly when some row names it. */
  lemma LoadedUserHasRoleIff(user: User, rows: seq<UserDetailsProjection>, authority: string)
    requires user.roles == RolesOf(rows)
    ensures HasRole(user, authority) <==> exists i :: 0 <= i < |rows| && rows[i].authority == authority
  {
    if HasRole(user, authority) {
      var role :| role in user.roles && role.authority == authority;
      RolesOfExactly(rows, role);
    }
    if exists i :: 0 <= i < |rows| && rows[i].authority == authority {
      var i :| 0 <= i < |rows| && rows[i].authority == authority;
      RolesOfExactly(rows, RoleOf(rows[i]));
    }
  }

  /** The principal of an authenticated request. */
  datatype Principal = Jwt(claims: map<string, string>) | OtherPrincipal

  /** The request's security context: no authentication at all, or one with a principal. */
  datatype Authentication = NoAuthentication | Authentication(principal: Principal)

  /** The `username` claim of a JWT principal, if there is one. */
  function UsernameClaim(auth: Authentication): Option<string>
  {
    match auth
    case Authentication(Jwt(claims)) => if "username" in claims then Some(claims["username"]) else None
    case _ => None
  }

  /** The user repository is keyed by the unique email column: every user is
      stored under its own email. */
  predicate UsersKeyedByEmail(users: map<string, User>)
  {
    forall e :: e in users ==> users[e].email == e
  }

  /** In a repository keyed by email, a stored user is found under its own email. */
  lemma StoredUnderOwnEmail(users: map<string, User>, user: User)
    requires UsersKeyedByEmail(users)
    requires user in users.Values
    ensures user.email in users && users[user.email] == user
  {
  }

  /** UserService.authenticated over the user repository: the stored user whose
      email is the JWT's `username` claim; any failure on the way (no
      authentication, a principal that is not a JWT, no such claim, no such
      user) is the one UsernameNotFound error. */
  function Authenticated(users: map<string, User>, auth: Authentication): (r: Result<User>)
    requires UsersKeyedByEmail(users)
    ensures r.Success? ==> UsernameClaim(auth).Some? && r.value in users.Values && r.value.email == UsernameClaim(auth).value
    ensures forall user :: user in users.Values && UsernameClaim(auth) == Some(user.email) ==> r == Success(user)
    ensures r.Failure? ==> r.error == UsernameNotFound(EmailNotFoundMessage)
    ensures auth.NoAuthentication? || auth.principal.OtherPrincipal? ==> r.Failure?
  {
    forall user | user in users.Values && UsernameClaim(auth) == Some(user.email)
      ensures user.email in users && users[user.email] == user
    {
      StoredUnderOwnEmail(users, user);
    }
    match UsernameClaim(auth)
    case Some(email) =>
      if email in users then Success(users[email]) else Failure(UsernameNotFound(EmailNotFoundMessage))
    case None => Failure(UsernameNotFound(EmailNotFoundMessage))
  }

  /** The client-facing view of a user: its authorities as plain strings. */
  datatype UserDto = UserDto(id: int, name: string, email: string, roles: set<string>)

  /** The UserDTO(User) constructor: copy the fields, list each role's authority. */
  function UserDtoOf(user: User): (dto: UserDto)
    ensures dto.id == user.id && dto.name == user.name && dto.email == user.email
    ensures forall a :: a in dto.roles <==> HasRole(user, a)
  {
    UserDto(user.id, user.name, user.email, set role | role in user.roles :: role.authority)
  }

  /** UserService.findMe: the view of exactly the user `authenticated` yields,
      and its error whenever it fails. */
  function FindMe(users: map<string, User>, auth: Authentication): (r: Result<UserDto>)
    requires UsersKeyedByEmail(users)
    ensures Authenticated(users, auth).Success? ==> r == Success(UserDtoOf(Authenticated(users, auth).value))
    ensures Authenticated(users, auth).Failure? ==> r == Failure(Authenticated(users, auth).error)
  {
    var user :- Authenticated(users, auth);
    Success(UserDtoOf(user))
  }
}
