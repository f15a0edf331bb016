/**
 * The older route guard of client/src/components/ProtectedRoute.js, which
 * decides from the current path instead of per-route flags.
 */
module ProtectedRouteJs {
  import opened Wrappers
  import opened ProtectedRoute

  /** The guard: the login page sends a signed-in user home, the admin page sends a signed-in non-admin home. */
  function PathGuard(path: string, user: Option<SessionUser>): (r: Outcome)
    ensures path == "/login" && user.Some? ==> r == Redirect("/")
    ensures path == "/admin" && user.Some? && user.value.role != "admin" ==> r == Redirect("/")
    ensures path == "/admin" && user.None? ==> r == Render
    ensures path != "/login" && path != "/admin" ==> r == Render
    ensures r.Redirect? ==> r.to == "/"
  {
    if path == "/login" && user.Some? then Redirect("/")
    else if path == "/admin" && user.Some? && user.value.role != "admin" then Redirect("/")
    else Render
  }

  /**
   * The two guards disagree on the admin page for a visitor who is not
   * signed in: the path guard renders it, while the flag guard with
   * `requireLogin` and role "admin" sends the visitor to the login page.
   */
  lemma AdminPageForVisitors()
    ensures PathGuard("/admin", None) == Render
    ensures Guard(true, false, Some("admin"), None) == Redirect("/login")
  {
  }

  /** On the admin page both guards agree for a signed-in user. */
  lemma AdminPageForSignedIn(u: SessionUser)
    ensures (PathGuard("/admin", Some(u)) == Render) <==> (Guard(true, false, Some("admin"), Some(u)) == Render)
  {
  }
}
