/**
 * The request interceptor of middleware.ts: a pure decision over the request
 * path and whether a session token came with the request.
 *
 * Matching is by string prefix, not by path segment, exactly as
 * `startsWith` does it: "/blogsX" is protected and "/loginfoo" is public-only.
 */
module RouteGuard {
  import opened Wrappers

  datatype Decision = Pass | Redirect(target: string)

  const LoginPage: string := "/login"
  const LandingPage: string := "/blogs"
  const ProtectedRoutes: seq<string> := ["/blogs"]
  const PublicRoutes: seq<string> := ["/login", "/register"]

  /** `s.startsWith(prefix)` */
  predicate StartsWith(s: string, prefix: string)
  {
    |prefix| <= |s| && s[..|prefix|] == prefix
  }

  /** `s.includes(c)` for a one-character needle */
  predicate Contains(s: string, c: char)
  {
    c in s
  }

  /** `routes.some((route) => s.startsWith(route))` */
  function AnyStartsWith(s: string, routes: seq<string>): (b: bool)
    ensures b <==> exists i :: 0 <= i < |routes| && StartsWith(s, routes[i])
  {
    if routes == [] then false
    else StartsWith(s, routes[0]) || AnyStartsWith(s, routes[1..])
  }

  /** Framework assets, API routes and anything that looks like a file. */
  predicate IsPassThrough(pathname: string)
  {
    || StartsWith(pathname, "/_next/")
    || StartsWith(pathname, "/api/")
    || StartsWith(pathname, "/static/")
    || Contains(pathname, '.')
  }

  predicate IsProtected(pathname: string)
  {
    AnyStartsWith(pathname, ProtectedRoutes)
  }

  predicate IsPublicOnly(pathname: string)
  {
    AnyStartsWith(pathname, PublicRoutes)
  }

  /** The first-match chain of checks run on every request. */
  function Decide(pathname: string, hasToken: bool): Decision
  {
    if IsPassThrough(pathname) then Pass
    else if IsProtected(pathname) && !hasToken then Redirect(LoginPage)
    else if IsPublicOnly(pathname) && hasToken then Redirect(LandingPage)
    else Pass
  }

  /**
   * The interceptor itself: the token's content plays no part, only its presence.
   * Each outcome holds exactly when its condition in the first-match chain does.
   */
  function Middleware<Token>(pathname: string, token: Option<Token>): (d: Decision)
    ensures d == Decide(pathname, token.Some?)
    ensures d == Redirect("/login") <==>
      !IsPassThrough(pathname) && StartsWith(pathname, "/blogs") && token.None?
    ensures d == Redirect("/blogs") <==>
      && !IsPassThrough(pathname)
      && (StartsWith(pathname, "/login") || StartsWith(pathname, "/register"))
      && token.Some?
    ensures d == Pass <==>
      || IsPassThrough(pathname)
      || (!StartsWith(pathname, "/blogs") && token.None?)
      || (!StartsWith(pathname, "/login") && !StartsWith(pathname, "/register") && token.Some?)
  {
    DecisionTable(pathname, token.Some?);
    Decide(pathname, token != None)
  }

  // ---------------------------------------------------------------------------
  // The decision table

  lemma PassThroughAlwaysPasses(pathname: string, hasToken: bool)
    requires IsPassThrough(pathname)
    ensures Decide(pathname, hasToken) == Pass
  {
  }

  lemma ProtectedWithoutTokenGoesToLogin(pathname: string)
    requires !IsPassThrough(pathname) && StartsWith(pathname, "/blogs")
    ensures Decide(pathname, false) == Redirect("/login")
  {
    assert StartsWith(pathname, ProtectedRoutes[0]);
  }

  lemma PublicOnlyWithTokenGoesToLanding(pathname: string)
    requires !IsPassThrough(pathname)
    requires StartsWith(pathname, "/login") || StartsWith(pathname, "/register")
    ensures Decide(pathname, true) == Redirect("/blogs")
  {
    if StartsWith(pathname, "/login") {
      assert StartsWith(pathname, PublicRoutes[0]);
    } else {
      assert StartsWith(pathname, PublicRoutes[1]);
    }
  }

  /** The complete table: each outcome with the exact condition that yields it. */
  lemma DecisionTable(pathname: string, hasToken: bool)
    ensures Decide(pathname, hasToken) == Redirect("/login") <==>
      !IsPassThrough(pathname) && StartsWith(pathname, "/blogs") && !hasToken
    ensures Decide(pathname, hasToken) == Redirect("/blogs") <==>
      && !IsPassThrough(pathname)
      && (StartsWith(pathname, "/login") || StartsWith(pathname, "/register"))
      && hasToken
    ensures Decide(pathname, hasToken) == Pass <==>
      || IsPassThrough(pathname)
      || (!StartsWith(pathname, "/blogs") && !hasToken)
      || (!StartsWith(pathname, "/login") && !StartsWith(pathname, "/register") && hasToken)
    ensures Decide(pathname, hasToken).Redirect? ==>
      Decide(pathname, hasToken).target in {"/login", "/blogs"}
  {
    assert IsProtected(pathname) <==> StartsWith(pathname, "/blogs") by {
      assert ProtectedRoutes[0] == "/blogs";
    }
    assert IsPublicOnly(pathname) <==>
      StartsWith(pathname, "/login") || StartsWith(pathname, "/register") by {
      assert PublicRoutes[0] == "/login" && PublicRoutes[1] == "/register";
    }
  }

  /** Without a token the guard never sends to the landing page; with one, never to login. */
  lemma NoRedirectAgainstSessionState(pathname: string, hasToken: bool)
    ensures !hasToken ==> Decide(pathname, hasToken) != Redirect(LandingPage)
    ensures hasToken ==> Decide(pathname, hasToken) != Redirect(LoginPage)
  {
  }

  /** The two redirect targets themselves pass under the session state that leads to them. */
  lemma TargetsPass()
    ensures Decide(LoginPage, false) == Pass
    ensures Decide(LandingPage, true) == Pass
  {
    NotPassThrough(LoginPage);
    DiffersAt(LoginPage, ProtectedRoutes[0], 1);
    NotPassThrough(LandingPage);
    DiffersAt(LandingPage, PublicRoutes[0], 1);
    DiffersAt(LandingPage, PublicRoutes[1], 1);
  }

  /** No redirect loop: following a redirect with the same session state ends in Pass. */
  lemma NoRedirectLoop(pathname: string, hasToken: bool)
    requires Decide(pathname, hasToken).Redirect?
    ensures Decide(Decide(pathname, hasToken).target, hasToken) == Pass
  {
    TargetsPass();
  }

  /** A path that differs from a prefix at some position does not start with it. */
  lemma DiffersAt(s: string, prefix: string, k: nat)
    requires k < |s| && k < |prefix| && s[k] != prefix[k]
    ensures !StartsWith(s, prefix)
  {
    if |prefix| <= |s| {
      assert s[..|prefix|][k] == s[k];
    }
  }

  /** A path whose second character is a letter other than those opening the framework prefixes. */
  lemma NotPassThrough(s: string)
    requires 2 <= |s| && s[1] !in "_as" && '.' !in s
    ensures !IsPassThrough(s)
  {
    DiffersAt(s, "/_next/", 1);
    DiffersAt(s, "/api/", 1);
    DiffersAt(s, "/static/", 1);
  }

  /** Prefix matching, not segment matching. */
  lemma PrefixNotSegment()
    ensures Decide("/blogsX", false) == Redirect(LoginPage)
    ensures Decide("/loginfoo", true) == Redirect(LandingPage)
  {
    NotPassThrough("/blogsX");
    assert StartsWith("/blogsX", ProtectedRoutes[0]);
    NotPassThrough("/loginfoo");
    DiffersAt("/loginfoo", ProtectedRoutes[0], 1);
    assert StartsWith("/loginfoo", PublicRoutes[0]);
  }

  /** Two requests on the same path that both carry some token get the same decision. */
  lemma OnlyTokenPresenceMatters<Token>(pathname: string, a: Token, b: Token)
    ensures Middleware(pathname, Some(a)) == Middleware(pathname, Some(b))
    ensures Middleware(pathname, Some(a)) == Decide(pathname, true)
    ensures Middleware<Token>(pathname, None) == Decide(pathname, false)
  {
  }
}
