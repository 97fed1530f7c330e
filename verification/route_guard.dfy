/** The route guard component: which redirect its effect performs and whether it
    renders its children. */
module RouteGuard {
  import opened Wrappers
  import Auth
  import Navigation

  /** The effect's navigation (if any) and whether the children are rendered. */
  datatype Decision = Decision(redirect: Option<Navigation.Destination>, renders: bool)

  function Guard(requireAuth: bool, requireOnboarding: bool, isAuthenticated: bool, user: Option<Auth.User>): (g: Decision)
    ensures requireAuth && !isAuthenticated ==> g == Decision(Some(Navigation.Login), false)
    ensures g.redirect == Some(Navigation.Login) <==> requireAuth && !isAuthenticated
    ensures g.redirect == Some(Navigation.Onboarding) <==>
      !(requireAuth && !isAuthenticated) && requireOnboarding && Navigation.AwaitsOnboarding(user, Auth.Student)
    ensures g.renders <==> g.redirect.None?
    ensures g.redirect.Some? ==> g.redirect.value == Navigation.Login || g.redirect.value == Navigation.Onboarding
  {
    if requireAuth && !isAuthenticated then Decision(Some(Navigation.Login), false)
    else if requireOnboarding && Navigation.AwaitsOnboarding(user, Auth.Student) then Decision(Some(Navigation.Onboarding), false)
    else Decision(None, true)
  }

  /** With the default props (`requireAuth = false`, `requireOnboarding = false`) the
      children always render. */
  lemma DefaultsAlwaysRender(isAuthenticated: bool, user: Option<Auth.User>)
    ensures Guard(false, false, isAuthenticated, user) == Decision(None, true)
  {
  }

  /** A consultancy user is never sent to onboarding by the guard. */
  lemma ConsultancyNeverOnboarded(requireAuth: bool, requireOnboarding: bool, isAuthenticated: bool, u: Auth.User)
    requires u.userType == Some(Auth.Consultancy)
    ensures Guard(requireAuth, requireOnboarding, isAuthenticated, Some(u)).redirect != Some(Navigation.Onboarding)
  {
  }

  /** Where `handleAuthRedirect` sends a signed-in user, the strictest guard lets the
      user in when that is the dashboard, and sends a student to the same onboarding page. */
  lemma GuardAgreesWithRedirect(s: Auth.AuthState)
    requires Auth.IsAuthenticated(s)
    ensures Navigation.RedirectFor(s) == Navigation.Dashboard ==> Guard(true, true, true, s.user).renders
    ensures Navigation.RedirectFor(s) == Navigation.Onboarding <==> Guard(true, true, true, s.user).redirect == Some(Navigation.Onboarding)
  {
  }

  /** After the context's intended logout a page that requires authentication renders
      nothing and redirects to the login page. */
  lemma LogoutLocksProtectedPages(s: Auth.AuthState, requireOnboarding: bool)
    ensures var s' := Auth.ContextLogout(s);
      Guard(true, requireOnboarding, Auth.IsAuthenticated(s'), s'.user) == Decision(Some(Navigation.Login), false)
  {
  }
}
