/**
  The page guards of the front end. Each reads the user the login page stored under
  `cp_user` and either leaves the page alone, sends the browser elsewhere, or reveals the
  admin link. The navigation or DOM change is returned as an action.
 */
module ClientAuth {
  import opened Results

  /** What `getUser()` yields. Every falsy parse result (`null`, also from a missing item,
      `false`, `0`, `""`) is NoUser; any other value is a User whose `role` is Some(s)
      exactly when the value has a string property `role` equal to s. */
  datatype StoredUser = NoUser | User(role: Option<string>)

  datatype Action = Stay | Redirect(page: string) | RevealAdminLink

  const LoginPage := "index.html"
  const HomePage := "home.html"
  const AdminRole := "admin"

  /** The user exists and its role is exactly "admin". */
  predicate IsAdmin(u: StoredUser)
  {
    u.User? && u.role == Some(AdminRole)
  }

  /** `requireAuth`: pages that need a signed-in user send everyone else to the login page. */
  function RequireAuth(u: StoredUser): (a: Action)
    ensures a.Redirect? <==> u.NoUser?
    ensures a.Redirect? ==> a.page == LoginPage
    ensures !a.Redirect? ==> a == Stay
  {
    if u.NoUser? then Redirect(LoginPage) else Stay
  }

  /** `requireAdmin`: the admin page sends anyone but an admin to the home page. */
  function RequireAdmin(u: StoredUser): (a: Action)
    ensures u.NoUser? ==> a == Redirect(HomePage)
    ensures a == Stay <==> IsAdmin(u)
    ensures a != Stay ==> a == Redirect(HomePage)
  {
    if u.NoUser? || u.role != Some(AdminRole) then Redirect(HomePage) else Stay
  }

  /** `showAdminLink`: the admin link is revealed for an admin, when the page has one. */
  function ShowAdminLink(u: StoredUser, linkPresent: bool): (a: Action)
    ensures a == RevealAdminLink <==> IsAdmin(u) && linkPresent
    ensures a != RevealAdminLink ==> a == Stay
  {
    if IsAdmin(u) && linkPresent then RevealAdminLink else Stay
  }

  /** A page with the admin link reveals it exactly to the users the admin page lets in. */
  lemma AdminLinkMatchesAdminGuard(u: StoredUser)
    ensures ShowAdminLink(u, true) == RevealAdminLink <==> RequireAdmin(u) == Stay
  {
  }

  /** A role that differs from "admin" in any way, case included, gets no admin access. */
  lemma OnlyExactAdminRole(u: StoredUser, role: string)
    requires u == User(Some(role)) && role != AdminRole
    ensures RequireAdmin(u) == Redirect(HomePage)
    ensures ShowAdminLink(u, true) == Stay
  {
  }

  /** Every admin passes requireAuth too, so the admin guard is the stricter one. */
  lemma AdminGuardStricter(u: StoredUser)
    ensures RequireAdmin(u) == Stay ==> RequireAuth(u) == Stay
  {
  }
}
