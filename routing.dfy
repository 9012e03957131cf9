/**
 * The access gate of the web client: `PrivateRoute` and the route table of
 * `App` that uses it, with the client's `isLoggedIn` flag as input.
 *
 * React Router v6 compiles a route path such as `/devices` to a regular
 * expression that accepts the path followed by any number of slashes, with
 * the `i` flag (no `caseSensitive` prop is set), so a location matches a
 * route when it equals the route path once its trailing slashes are dropped
 * and its ASCII letters are lower-cased.
 */
module Routing {
  import opened Wrappers
  import opened JsStrings

  /** The pages of the web client. */
  datatype View = Home | LoginForm | LogoutPage | Devices | WiFiSettings | AccountSettings

  /** What a route renders: a page, or a `<Navigate to=...>` redirect. */
  datatype Element = Show(view: View) | Navigate(to: string)

  const LoginPath: string := "/login"
  const HomePath: string := "/"

  predicate IsPrivate(v: View) {
    v == Devices || v == WiFiSettings || v == AccountSettings
  }

  /** `PrivateRoute`: the children when logged in, otherwise a redirect to the login page. */
  function PrivateRoute(isLoggedIn: bool, children: View): (e: Element)
    ensures e == Show(children) <==> isLoggedIn
    ensures !isLoggedIn ==> e == Navigate(LoginPath)
  {
    if isLoggedIn then Show(children) else Navigate(LoginPath)
  }

  /** `s` without the slashes at its end. */
  function DropTrailingSlashes(s: string): (r: string)
    ensures r <= s && (r == [] || r[|r| - 1] != '/')
    ensures forall i :: |r| <= i < |s| ==> s[i] == '/'
  {
    if s != [] && s[|s| - 1] == '/' then DropTrailingSlashes(s[..|s| - 1]) else s
  }

  /**
   * The route path a location matches: trailing slashes dropped (the
   * compiled pattern accepts any number of them), ASCII letters lower-cased
   * (the `i` flag), and the empty remainder read as the root `/`.
   */
  function RoutePath(pathname: string): (p: string)
    ensures p != [] && (p == HomePath || p[|p| - 1] != '/')
    ensures forall i :: 0 <= i < |p| ==> !('A' <= p[i] <= 'Z')
  {
    var t := ToLower(DropTrailingSlashes(pathname));
    if t == [] then HomePath else t
  }

  /** The `<Routes>` table of `App`; `None` when no route matches the location. */
  function RouteElement(pathname: string, isLoggedIn: bool): (e: Option<Element>)
    ensures e.Some? <==> RoutePath(pathname) in {"/", "/login", "/logout", "/devices", "/wifi", "/account"}
  {
    var path := RoutePath(pathname);
    if path == HomePath then Some(Show(Home))
    else if path == LoginPath then Some(if isLoggedIn then Navigate(HomePath) else Show(LoginForm))
    else if path == "/logout" then Some(Show(LogoutPage))
    else if path == "/devices" then Some(PrivateRoute(isLoggedIn, Devices))
    else if path == "/wifi" then Some(PrivateRoute(isLoggedIn, WiFiSettings))
    else if path == "/account" then Some(PrivateRoute(isLoggedIn, AccountSettings))
    else None
  }

  /** A trailing slash does not change the route a location matches. */
  lemma TrailingSlashIgnored(pathname: string, isLoggedIn: bool)
    ensures RouteElement(pathname + "/", isLoggedIn) == RouteElement(pathname, isLoggedIn)
  {
    assert (pathname + "/")[..|pathname|] == pathname;
    assert DropTrailingSlashes(pathname + "/") == DropTrailingSlashes(pathname);
  }

  /** Dropping trailing slashes and lower-casing can be done in either order. */
  lemma {:induction false} DropTrailingSlashesOfLower(s: string)
    ensures DropTrailingSlashes(ToLower(s)) == ToLower(DropTrailingSlashes(s))
    decreases |s|
  {
    if s != [] {
      var last := |s| - 1;
      if s[last] == '/' {
        assert ToLower(s)[..last] == ToLower(s[..last]);
        DropTrailingSlashesOfLower(s[..last]);
      } else {
        assert ToLower(s)[last] != '/';
      }
    }
  }

  /** Lower-casing twice is lower-casing once. */
  lemma ToLowerTwice(s: string)
    ensures ToLower(ToLower(s)) == ToLower(s)
  {
    assert forall i :: 0 <= i < |s| ==> ToLower(ToLower(s))[i] == ToLower(s)[i];
  }

  /** The case of the ASCII letters of a location does not change the route it matches. */
  lemma AsciiCaseIgnored(pathname: string, isLoggedIn: bool)
    ensures RouteElement(ToLower(pathname), isLoggedIn) == RouteElement(pathname, isLoggedIn)
  {
    DropTrailingSlashesOfLower(pathname);
    ToLowerTwice(DropTrailingSlashes(pathname));
  }

  /** A private page is shown only to a logged-in client, and always to one. */
  lemma PrivatePagesNeedLogin(path: string, isLoggedIn: bool)
    requires RoutePath(path) in {"/devices", "/wifi", "/account"}
    ensures RouteElement(path, isLoggedIn).value.Show? <==> isLoggedIn
    ensures RouteElement(path, isLoggedIn).value.Show? ==> IsPrivate(RouteElement(path, isLoggedIn).value.view)
  {
  }

  /** Redirects settle after one step: the target of any redirect shows a page. */
  lemma RedirectsSettle(path: string, isLoggedIn: bool)
    requires RouteElement(path, isLoggedIn).Some? && RouteElement(path, isLoggedIn).value.Navigate?
    ensures var target := RouteElement(path, isLoggedIn).value.to;
            RouteElement(target, isLoggedIn).Some? && RouteElement(target, isLoggedIn).value.Show?
  {
    LiteralRoutePath(HomePath);
    LiteralRoutePath(LoginPath);
  }

  /** A route path as written in the table is matched by itself. */
  lemma LiteralRoutePath(p: string)
    requires p == HomePath || p == LoginPath
    ensures RoutePath(p) == p
  {
    if p == HomePath {
      assert DropTrailingSlashes(p) == DropTrailingSlashes([]);
    } else {
      assert DropTrailingSlashes(p) == p;
      assert ToLower(p) == p by {
        assert forall i :: 0 <= i < |p| ==> !('A' <= p[i] <= 'Z');
      }
    }
  }
}
