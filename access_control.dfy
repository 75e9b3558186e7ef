/**
 * The authorisation chain `requirePermission` → `requireActivatedUser` →
 * `requireAuthenticatedUser` (cmd/api/middleware.go:171-230). Each middleware
 * wraps the handler it is given, so the check written in the outermost
 * wrapper runs first: anonymous, then not activated, then the permission.
 */
module AccessControl {
  import opened Wrappers
  import Authentication
  import Permissions

  datatype Rejection = AuthenticationRequired | InactiveAccount | ServerError | NotPermitted

  /** Either the wrapped handler runs, or the chain answers with a rejection. */
  datatype Outcome = CallNext | Reject(reason: Rejection)

  function IsAnonymous(user: Authentication.User): (b: bool)
  {
    user.AnonymousUser?
  }

  /** `User.Activated`; the anonymous user is the zero `User`, so it is not activated. */
  function Activated(user: Authentication.User): (b: bool)
  {
    user.Account? && user.activated
  }

  /**
   * `requireAuthenticatedUser(next)`: `inner` is what the wrapped handler
   * `next` does. The anonymous user is turned away before `next` runs; any
   * other user gets exactly what `next` does.
   */
  function RequireAuthenticatedUser(user: Authentication.User, inner: Outcome): (r: Outcome)
    ensures IsAnonymous(user) ==> r == Reject(AuthenticationRequired)
    ensures !IsAnonymous(user) ==> r == inner
  {
    if IsAnonymous(user) then Reject(AuthenticationRequired) else inner
  }

  /**
   * `requireActivatedUser(next)`: the activation check, wrapped by
   * `requireAuthenticatedUser`. The anonymous user gets the authentication
   * rejection, not the activation one; `next` runs only for an activated
   * account, which gets exactly what `next` does.
   */
  function RequireActivatedUser(user: Authentication.User, inner: Outcome): (r: Outcome)
    ensures IsAnonymous(user) ==> r == Reject(AuthenticationRequired)
    ensures !IsAnonymous(user) && !Activated(user) ==> r == Reject(InactiveAccount)
    ensures Activated(user) ==> r == inner
  {
    RequireAuthenticatedUser(user, if !Activated(user) then Reject(InactiveAccount) else inner)
  }

  /**
   * `requirePermission(code, next)`, where `permissions` is what
   * `GetAllForUser` returns for the user; it is consulted only once the user
   * has passed the first two checks. `next` runs exactly when all three pass,
   * and every failing case maps to the first check that fails.
   */
  function RequirePermission(code: string, user: Authentication.User, permissions: Result<Permissions.Permissions, string>): (r: Outcome)
    ensures r == CallNext <==>
      !IsAnonymous(user) && Activated(user) && permissions.Success? && code in permissions.value
    ensures IsAnonymous(user) ==> r == Reject(AuthenticationRequired)
    ensures !IsAnonymous(user) && !Activated(user) ==> r == Reject(InactiveAccount)
    ensures !IsAnonymous(user) && Activated(user) && permissions.Failure? ==> r == Reject(ServerError)
    ensures !IsAnonymous(user) && Activated(user) && permissions.Success? && code !in permissions.value ==>
      r == Reject(NotPermitted)
  {
    var inner :=
      match permissions
      case Failure(_) => Reject(ServerError)
      case Success(p) => if !Permissions.Include(p, code) then Reject(NotPermitted) else CallNext;
    RequireActivatedUser(user, inner)
  }
}
