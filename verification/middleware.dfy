/** The request gate of `src/middleware.ts`: a request without a session cookie is sent to
    the login page unless its path is public; everything else passes through. */
module Middleware {
  import opened Wrappers
  import opened Text

  const PublicPaths: seq<string> := ["/", "/login", "/signup", "/api/auth"]

  /** `path` is one of the public paths or lies below one of them. */
  predicate IsPublicPath(pathname: string) {
    exists k :: 0 <= k < |PublicPaths| && (pathname == PublicPaths[k] || StartsWith(pathname, PublicPaths[k] + "/"))
  }

  /** The session cookie's value as read from the request, `None` when absent; an empty
      value counts as no session, as `!sessionCookie` does. */
  predicate HasSession(sessionCookie: Option<string>) {
    sessionCookie.Some? && sessionCookie.value != ""
  }

  /** Where the middleware sends the request: to `/login` on the same origin, or on. */
  datatype Decision = RedirectTo(path: string) | Next

  function Route(sessionCookie: Option<string>, pathname: string): (r: Decision)
    ensures r.RedirectTo? ==> r.path == "/login"
  {
    var isPublicPath := IsPublicPath(pathname);
    if !HasSession(sessionCookie) && !isPublicPath then RedirectTo("/login")
    else
      // Admin routes are passed on too: their role check belongs to the admin layout.
      var isAdminRoute := StartsWith(pathname, "/admin");
      if HasSession(sessionCookie) && !isPublicPath then
        if isAdminRoute then Next else Next
      else Next
  }

  /** A request is redirected exactly when it has no session and its path is not public;
      the cookie's value beyond being present and non-empty does not matter. */
  lemma RouteDecision(sessionCookie: Option<string>, pathname: string)
    ensures Route(sessionCookie, pathname) == (if !HasSession(sessionCookie) && !IsPublicPath(pathname) then RedirectTo("/login") else Next)
    ensures forall other: string :: other != "" && HasSession(sessionCookie) ==>
      Route(Some(other), pathname) == Route(sessionCookie, pathname)
    ensures Route(Some(""), pathname) == Route(None, pathname)
  {
  }

  /** Public paths always pass, with or without a session, and so does every path for a
      signed-in user, admin routes included. */
  lemma PassesThrough(sessionCookie: Option<string>, pathname: string)
    ensures IsPublicPath(pathname) ==> Route(sessionCookie, pathname) == Next
    ensures HasSession(sessionCookie) ==> Route(sessionCookie, pathname) == Next
  {
  }

  /** Below a public path means after a `/`: `/api/auth/x` is public, `/api/authx` and
      `/dashboard` are not, and every path starting `//` is public through `/`. */
  lemma PublicPathExamples()
    ensures IsPublicPath("/api/auth/x")
    ensures !IsPublicPath("/api/authx")
    ensures !IsPublicPath("/dashboard")
    ensures IsPublicPath("//x")
    ensures Route(None, "/dashboard") == RedirectTo("/login")
    ensures Route(None, "/login") == Next
  {
    assert StartsWith("/api/auth/x", PublicPaths[3] + "/") by {
      assert "/api/auth/x"[..10] == "/api/auth/";
    }
    assert StartsWith("//x", PublicPaths[0] + "/") by {
      assert "//x"[..2] == "//";
    }
    assert "/login" == PublicPaths[1];
    var a, d := "/api/authx", "/dashboard";
    assert a[..6] == "/api/a" && a[..7] == "/api/au" && a[..10] == a && a[9] == 'x';
    assert d[..6] == "/dashb" && d[..7] == "/dashbo" && d[..10] == d && d[1] == 'd';
    NotPublic(a);
    NotPublic(d);
  }

  /** A path of more than one character whose second character is not `/` and that does
      not start `/login`, `/signup` or `/api/auth/` is not public. */
  lemma NotPublic(pathname: string)
    requires |pathname| >= 2 && pathname[0] == '/' && pathname[1] != '/'
    requires !StartsWith(pathname, "/login") && !StartsWith(pathname, "/signup")
    requires pathname != "/api/auth" && !StartsWith(pathname, "/api/auth/")
    ensures !IsPublicPath(pathname)
  {
    forall k | 0 <= k < |PublicPaths|
      ensures pathname != PublicPaths[k] && !StartsWith(pathname, PublicPaths[k] + "/")
    {
      if k == 0 {
        assert (PublicPaths[k] + "/")[1] == '/';
      } else if k < 3 {
        if StartsWith(pathname, PublicPaths[k] + "/") {
          StartsWithLonger(pathname, PublicPaths[k], "/");
        }
      }
    }
  }

  /** A string that starts with `p + q` starts with `p`. */
  lemma StartsWithLonger(s: string, p: string, q: string)
    requires StartsWith(s, p + q)
    ensures StartsWith(s, p)
  {
    assert s[..|p|] == (p + q)[..|p|];
  }
}
