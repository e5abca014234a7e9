/**
  The route guard of admin-dashboard/src/components/ProtectedRoute.tsx:
  from the authentication state, the route's allowed roles and the current
  location it decides what the route renders.
*/
module ProtectedRoute {
  import opened Wrappers

  /** The signed-in user; only its presence matters here. */
  datatype User = User(uid: string)

  /** What the route renders. */
  datatype Gate =
    | Spinner                    // the loading screen
    | RedirectLogin(from: string) // to /login, remembering where the user was going
    | RedirectUnauthorized       // to /unauthorized
    | Children                   // the protected content

  /** `userRole || ''`. */
  function RoleOrEmpty(role: Option<string>): string
  {
    if role.Some? then role.value else ""
  }

  /**
    The guard's decision, made in the order loading, sign-in, role: while
    loading the spinner; with no user the login redirect; with a non-empty
    role list that does not hold the user's role the unauthorized redirect;
    otherwise the content.
  */
  function Decide(loading: bool, user: Option<User>, userRole: Option<string>, allowedRoles: seq<string>, location: string): (r: Gate)
    ensures r == Spinner <==> loading
    ensures r.RedirectLogin? <==> !loading && user.None?
    ensures r.RedirectLogin? ==> r.from == location
    ensures r == RedirectUnauthorized <==>
      !loading && user.Some? && |allowedRoles| > 0 && RoleOrEmpty(userRole) !in allowedRoles
    ensures r == Children <==>
      !loading && user.Some? && (|allowedRoles| == 0 || RoleOrEmpty(userRole) in allowedRoles)
  {
    if loading then Spinner
    else if user.None? then RedirectLogin(location)
    else if |allowedRoles| > 0 && RoleOrEmpty(userRole) !in allowedRoles then RedirectUnauthorized
    else Children
  }

  /** With the default empty role list every signed-in user gets the content, whatever the role. */
  lemma DefaultAdmitsAnyUser(user: User, userRole: Option<string>, location: string)
    ensures Decide(false, Some(user), userRole, [], location) == Children
  {
  }

  /** A missing role is the empty role: it passes only a list that names ''. */
  lemma MissingRoleIsEmpty(user: Option<User>, allowedRoles: seq<string>, location: string)
    ensures Decide(false, user, None, allowedRoles, location) == Decide(false, user, Some(""), allowedRoles, location)
    ensures user.Some? && |allowedRoles| > 0 && "" !in allowedRoles ==>
      Decide(false, user, None, allowedRoles, location) == RedirectUnauthorized
  {
  }
}
