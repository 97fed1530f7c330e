/** The navigation hook: the fixed `navigateTo*` routes and `handleAuthRedirect`. */
module Navigation {
  import opened Wrappers
  import Auth

  /** The pages the `navigateTo*` helpers push. */
  datatype Destination = Login | Signup | Home | Dashboard | Onboarding | ConsultancyOnboarding

  /** The fixed path each helper pushes. */
  function Path(d: Destination): string {
    match d
    case Login => "/login"
    case Signup => "/signup"
    case Home => "/"
    case Dashboard => "/dashboard"
    case Onboarding => "/onboarding"
    case ConsultancyOnboarding => "/consultancy-onboarding"
  }

  /** The page a path names, if it is one of the fixed routes. */
  function RouteOf(path: string): (d: Option<Destination>)
    ensures d.Some? ==> Path(d.value) == path
  {
    if path == "/login" then Some(Login)
    else if path == "/signup" then Some(Signup)
    else if path == "/" then Some(Home)
    else if path == "/dashboard" then Some(Dashboard)
    else if path == "/onboarding" then Some(Onboarding)
    else if path == "/consultancy-onboarding" then Some(ConsultancyOnboarding)
    else None
  }

  /** Every helper pushes its own path: paths are absolute and name their page back. */
  lemma PathsNameTheirPage(d: Destination)
    ensures |Path(d)| >= 1 && Path(d)[0] == '/'
    ensures RouteOf(Path(d)) == Some(d)
  {
  }

  /** `user?.userType === t && !user.isOnboarded`. */
  predicate AwaitsOnboarding(user: Option<Auth.User>, t: Auth.UserType) {
    user.Some? && user.value.userType == Some(t) && !user.value.isOnboarded
  }

  /** `handleAuthRedirect`: the one page it pushes. */
  function HandleAuthRedirect(isAuthenticated: bool, user: Option<Auth.User>): (d: Destination)
    ensures !isAuthenticated ==> d == Login
    ensures isAuthenticated && AwaitsOnboarding(user, Auth.Student) ==> d == Onboarding
    ensures isAuthenticated && AwaitsOnboarding(user, Auth.Consultancy) ==> d == ConsultancyOnboarding
    ensures isAuthenticated && !AwaitsOnboarding(user, Auth.Student) && !AwaitsOnboarding(user, Auth.Consultancy) ==> d == Dashboard
  {
    if !isAuthenticated then Login
    else if AwaitsOnboarding(user, Auth.Student) then Onboarding
    else if AwaitsOnboarding(user, Auth.Consultancy) then ConsultancyOnboarding
    else Dashboard
  }

  /** The redirect for an authentication state, with `isAuthenticated` taken from it. */
  function RedirectFor(s: Auth.AuthState): Destination {
    HandleAuthRedirect(Auth.IsAuthenticated(s), s.user)
  }

  /** Only an unauthenticated caller is sent to the login page, and an onboarded user
      always lands on the dashboard, whatever the user type. */
  lemma RedirectTargets(isAuthenticated: bool, user: Option<Auth.User>)
    ensures HandleAuthRedirect(isAuthenticated, user) == Login <==> !isAuthenticated
    ensures isAuthenticated && user.Some? && user.value.isOnboarded ==> HandleAuthRedirect(isAuthenticated, user) == Dashboard
    ensures HandleAuthRedirect(isAuthenticated, user) in {Login, Onboarding, ConsultancyOnboarding, Dashboard}
  {
  }

  /** After the context's intended logout every redirect goes to the login page. */
  lemma LogoutRedirectsToLogin(s: Auth.AuthState)
    ensures RedirectFor(Auth.ContextLogout(s)) == Login
  {
  }
}
