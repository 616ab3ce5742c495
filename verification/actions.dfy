/**
 * The navigation routes and the two navigation helpers. A helper does not
 * call the navigation controller here: it returns the decision it would
 * make, as a `NavAction`.
 */
module Actions {
  import opened Wrappers
  import opened Text
  import opened Utils

  // ---------------------------------------------------------------------------
  // Screens
  // ---------------------------------------------------------------------------

  /** The three destinations of the application. The icons are left out. */
  datatype Screen = AuthScreen | HomeScreen | ProfileScreen {
    function Route(): string {
      match this
      case AuthScreen => "auth_screen"
      case HomeScreen => "home_screen"
      case ProfileScreen => "profile_screen"
    }

    function Title(): string {
      match this
      case AuthScreen => "Auth"
      case HomeScreen => "Home"
      case ProfileScreen => "Profile"
    }
  }

  /** `Screens.all`, in its declared order. */
  const AllScreens: seq<Screen> := [HomeScreen, ProfileScreen, AuthScreen]

  /** The screen whose route is `route`, if any. */
  function ScreenOfRoute(route: string): (r: Option<Screen>)
    ensures r.Some? ==> r.value.Route() == route
  {
    if route == "auth_screen" then Some(AuthScreen)
    else if route == "home_screen" then Some(HomeScreen)
    else if route == "profile_screen" then Some(ProfileScreen)
    else None
  }

  /** No two screens share a route, and every route is found again from its text. */
  lemma RoutesDistinct(a: Screen, b: Screen)
    ensures a.Route() == b.Route() <==> a == b
    ensures ScreenOfRoute(a.Route()) == Some(a)
  {
  }

  /** The list of all screens holds every screen exactly once. */
  lemma AllScreensOnce(x: Screen)
    ensures multiset(AllScreens)[x] == 1
    ensures |AllScreens| == 3
  {
    assert multiset(AllScreens) == multiset{HomeScreen} + multiset{ProfileScreen} + multiset{AuthScreen};
  }

  /** The routes hold no '/', so a route followed by a path splits cleanly. */
  lemma RouteHasNoSlash(x: Screen)
    ensures '/' !in x.Route()
  {
  }

  // ---------------------------------------------------------------------------
  // Navigation decisions
  // ---------------------------------------------------------------------------

  /** The builder options set on a navigation: `popUpTo(0) { inclusive }` and `launchSingleTop`. */
  datatype NavOptions = NavOptions(popUpToRoot: bool, inclusive: bool, launchSingleTop: bool)

  const PlainNavigation := NavOptions(false, false, false)
  const ClearStack := NavOptions(true, true, true)

  /** What a navigation helper asks of the controller. */
  datatype NavAction =
    | PopBackStack
    | Navigate(uri: string, options: NavOptions)
    | Stay

  /**
   * The URI both helpers build, `route + params.toNavigationPath()`: the
   * route followed by each parameter behind its own '/'. A '/'-free route
   * with '/'-free parameters splits back into the route and the parameters.
   */
  function Uri(route: string, params: seq<string>): (r: string)
    ensures r == route + Segments(params)
    ensures '/' !in route && SepFree(params, '/') ==> Split(r, '/') == [route] + params
  {
    NavigationPathIsSegments(params);
    assert '/' !in route && SepFree(params, '/') ==>
      Split(route + ToNavigationPath(params), '/') == [route] + params by {
      if '/' !in route && SepFree(params, '/') {
        UriSplits(route, params);
      }
    }
    route + ToNavigationPath(params)
  }

  /**
   * `navigateTo`: an empty route or "back" pops the back stack; any other
   * route navigates, without options, to the route and its parameter path.
   */
  function NavigateTo(route: string, params: seq<string>): (r: NavAction)
    ensures r.PopBackStack? <==> route == "" || route == "back"
    ensures r.Navigate? ==> r.options == PlainNavigation && r.uri == route + Segments(params)
    ensures r.Navigate? && '/' !in route && SepFree(params, '/') ==> Split(r.uri, '/') == [route] + params
    ensures !r.Stay?
  {
    if route == "" || route == "back" then PopBackStack
    else Navigate(Uri(route, params), PlainNavigation)
  }

  /**
   * `navigateAndClearStack`: an empty route does nothing; any other route,
   * "back" included, navigates to the route and its parameter path, clearing
   * the whole back stack and launching single-top.
   */
  function NavigateAndClearStack(route: string, params: seq<string>): (r: NavAction)
    ensures r.Stay? <==> route == ""
    ensures r.Navigate? ==> r.options == ClearStack && r.uri == route + Segments(params)
    ensures r.Navigate? && '/' !in route && SepFree(params, '/') ==> Split(r.uri, '/') == [route] + params
    ensures !r.PopBackStack?
  {
    if route != "" then Navigate(Uri(route, params), ClearStack) else Stay
  }

  /** A pop does not depend on the parameters. */
  lemma PopIgnoresParams(route: string, p: seq<string>, q: seq<string>)
    requires route == "" || route == "back"
    ensures NavigateTo(route, p) == NavigateTo(route, q) == PopBackStack
  {
  }

  /** Without parameters the URI is the route itself. */
  lemma NoParamsNoPath(route: string)
    requires route != ""
    ensures NavigateAndClearStack(route, []) == Navigate(route, ClearStack)
    ensures route != "back" ==> NavigateTo(route, []) == Navigate(route, PlainNavigation)
  {
    assert route + "" == route;
  }

  /** The two helpers agree on the URI wherever both navigate; they differ only in the options. */
  lemma HelpersAgreeOnUri(route: string, params: seq<string>)
    requires route != "" && route != "back"
    ensures NavigateTo(route, params).uri == NavigateAndClearStack(route, params).uri
    ensures NavigateTo(route, params).options != NavigateAndClearStack(route, params).options
  {
  }

  /**
   * The URI of a '/'-free route and '/'-free parameters splits at '/' back
   * into the route followed by the parameters, so the destination reads
   * the parameters it was given.
   */
  lemma UriSplits(route: string, params: seq<string>)
    requires '/' !in route && SepFree(params, '/')
    ensures Split(route + ToNavigationPath(params), '/') == [route] + params
  {
    if |params| == 0 {
      SplitSepFree(route, '/');
      assert route + ToNavigationPath(params) == route;
    } else {
      PathSplits(route, params);
    }
  }

  lemma PathSplits(route: string, params: seq<string>)
    requires '/' !in route && |params| > 0 && SepFree(params, '/')
    ensures Split(route + ToNavigationPath(params), '/') == [route] + params
  {
    var tail := Join(params, '/');
    var uri := route + ToNavigationPath(params);
    assert uri == route + ['/'] + tail;
    SplitJoin(params, '/');
    SplitAfterPiece(route, tail, '/');
  }

  /** A screen reached with parameters is recognised from the first piece of its URI. */
  lemma ScreenFromUri(x: Screen, params: seq<string>)
    requires SepFree(params, '/')
    ensures var pieces := Split(NavigateAndClearStack(x.Route(), params).uri, '/');
      ScreenOfRoute(pieces[0]) == Some(x) && pieces[1..] == params
  {
    RouteHasNoSlash(x);
  }
}
