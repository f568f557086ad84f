/** The navigation guard of the family-photos front end: the login page and
    the protected home page, and the rule that sends a navigation to one or
    the other depending on whether someone is logged in. */
module Router {
  import opened Common
  import Auth

  /** A navigation target: its path, its name, and whether its meta marks it
      as protected. A path no route matches has no name and no meta. */
  datatype Route = Route(path: string, name: string, requiresAuth: bool)

  const LoginRoute := Route("/", "login", false)
  const HomeRoute := Route("/home", "home", true)
  const Routes: seq<Route> := [LoginRoute, HomeRoute]

  /** The route declared under a name, for `next({ name })`. */
  function Named(name: string): (r: Option<Route>)
    ensures r.Some? <==> exists k :: 0 <= k < |Routes| && Routes[k].name == name
    ensures r.Some? ==> r.value in Routes && r.value.name == name
  {
    if name == "login" then assert Routes[0].name == name; Some(LoginRoute)
    else if name == "home" then assert Routes[1].name == name; Some(HomeRoute)
    else None
  }

  /** What the guard tells the router to do. */
  datatype Decision = Pass | Redirect(name: string)

  /** `beforeEach`: protected while logged out goes to login, login while
      logged in goes home, anything else goes where it was headed. */
  function BeforeEach(to: Route, user: Option<Auth.Record>): (d: Decision)
    ensures d == Redirect("login") <==> to.requiresAuth && user.None?
    ensures d == Redirect("home") <==> to.name == "login" && user.Some?
    ensures d == Pass <==> (!to.requiresAuth || user.Some?) && (to.name != "login" || user.None?)
    ensures d.Redirect? ==> Named(d.name).Some?
  {
    if to.requiresAuth && user.None? then Redirect("login")
    else if to.name == "login" && user.Some? then Redirect("home")
    else Pass
  }

  /** Where a navigation ends up after one round of the guard. */
  function Destination(to: Route, user: Option<Auth.Record>): Route
  {
    match BeforeEach(to, user)
    case Pass => to
    case Redirect(name) => Named(name).value
  }

  /** With no one logged in, no navigation ends on a protected page. */
  lemma NeverProtectedLoggedOut(to: Route)
    ensures !Destination(to, None).requiresAuth
  {
  }

  /** A logged-in user never stays on the login page: every navigation
      ends somewhere other than login. */
  lemma NeverLoginLoggedIn(to: Route, u: Auth.Record)
    ensures Destination(to, Some(u)).name != "login"
  {
  }

  /** The router runs the guard again on a redirect's target; that second
      run lets it through, so a navigation settles after one redirect. */
  lemma RedirectSettles(to: Route, user: Option<Auth.Record>)
    ensures BeforeEach(Destination(to, user), user) == Pass
  {
    match BeforeEach(to, user)
    case Pass =>
    case Redirect(name) =>
      assert name == "login" ==> user.None?;
      assert name == "home" ==> user.Some?;
  }
}
