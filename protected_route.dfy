/**
 * The route guard of client/src/components/ProtectedRoute.tsx: from the
 * route's flags and the signed-in user (if any), either redirect or render
 * the route's element. A flag left out of the props is `undefined`, which
 * counts as false; a `requiredRole` counts only when it is a non-empty
 * string, as JavaScript's truthiness has it.
 */
module ProtectedRoute {
  import opened Wrappers

  /** The signed-in user as the auth context holds it; only the role is read. */
  datatype SessionUser = SessionUser(role: string)

  datatype Outcome = Redirect(to: string) | Render

  /** A `requiredRole` prop that is present and truthy. */
  predicate RoleRequired(requiredRole: Option<string>)
  {
    requiredRole.Some? && requiredRole.value != ""
  }

  /** The guard, checks in the component's order. */
  function Guard(requireLogin: bool, preventForLoggedIn: bool, requiredRole: Option<string>,
                 user: Option<SessionUser>): (r: Outcome)
    ensures requireLogin && user.None? ==> r == Redirect("/login")
    ensures preventForLoggedIn && user.Some? ==> r == Redirect("/os")
    ensures requireLogin && RoleRequired(requiredRole) && user.Some? && user.value.role != requiredRole.value
            ==> r == Redirect("/os")
    ensures r == Render <==>
              && !(requireLogin && user.None?)
              && !(preventForLoggedIn && user.Some?)
              && !(requireLogin && RoleRequired(requiredRole) && user.Some? && user.value.role != requiredRole.value)
    ensures r.Redirect? ==> r.to in {"/login", "/os"}
  {
    if requireLogin && user.None? then Redirect("/login")
    else if preventForLoggedIn && user.Some? then Redirect("/os")
    else if requireLogin && RoleRequired(requiredRole) && user.Some? && user.value.role != requiredRole.value then Redirect("/os")
    else Render
  }

  /** Without `requireLogin` the required role is never looked at. */
  lemma RoleIgnoredWithoutLogin(preventForLoggedIn: bool, roleA: Option<string>, roleB: Option<string>,
                                user: Option<SessionUser>)
    ensures Guard(false, preventForLoggedIn, roleA, user) == Guard(false, preventForLoggedIn, roleB, user)
  {
  }

  /** A route that sets none of the flags renders for everybody, signed in or not. */
  lemma UnflaggedRouteRenders(user: Option<SessionUser>)
    ensures Guard(false, false, None, user) == Render
  {
  }

  /** A login-gated route with a role renders exactly for a signed-in user holding that role. */
  lemma RoleGateExact(role: string, user: Option<SessionUser>)
    requires role != ""
    ensures Guard(true, false, Some(role), user) == Render <==> user.Some? && user.value.role == role
  {
  }
}
