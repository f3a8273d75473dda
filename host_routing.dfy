/** The request middleware that splits the site between the main domain
    (public pages) and the `app.` subdomain (the dashboard): from the Host
    header and the request path it either lets the request through or
    redirects it to the other host, keeping the path. */
module HostRouting {
  import opened Options
  import opened Text

  const AppHostPrefix: string := "app."

  /** Pages that belong to the dashboard, matched by raw prefix. */
  const AppPaths: seq<string> := ["/dashboard", "/classes", "/invitations", "/settings", "/onboarding"]

  /** Marketing pages, matched exactly or as a `/`-separated parent. */
  const PublicPaths: seq<string> := ["/", "/about", "/pricing", "/contact", "/features"]

  /** Login and signup, served on both hosts, matched by raw prefix. */
  const AuthPaths: seq<string> := ["/login", "/signup"]

  datatype Decision =
    | Next                                 // let the request through
    | Redirect(host: string, path: string) // redirect to `path` on `https://host`

  /** A missing Host header reads as the empty host name. */
  function Hostname(hostHeader: Option<string>): string
  {
    match hostHeader
    case None => ""
    case Some(h) => h
  }

  predicate IsAppHost(hostname: string)
  {
    StartsWith(hostname, AppHostPrefix)
  }

  predicate IsAppPath(path: string)
  {
    exists i :: 0 <= i < |AppPaths| && StartsWith(path, AppPaths[i])
  }

  predicate IsPublicPath(path: string)
  {
    exists i :: 0 <= i < |PublicPaths| && (path == PublicPaths[i] || StartsWith(path, PublicPaths[i] + "/"))
  }

  predicate IsAuthPath(path: string)
  {
    exists i :: 0 <= i < |AuthPaths| && StartsWith(path, AuthPaths[i])
  }

  /** The middleware's decision for one request. A redirect keeps the path
      and always changes the host, so no request is sent back to itself. */
  function Route(hostHeader: Option<string>, path: string): (d: Decision)
    ensures d.Redirect? ==> d.path == path && d.host != Hostname(hostHeader)
  {
    var hostname := Hostname(hostHeader);
    if IsAppHost(hostname) then
      if IsPublicPath(path) && !IsAuthPath(path) then
        ReplaceLeading(hostname, AppHostPrefix, "");
        Redirect(ReplaceFirst(hostname, AppHostPrefix, ""), path)
      else Next
    else if IsAppPath(path) then
      Redirect(AppHostPrefix + hostname, path)
    else Next
  }

  /** `https://` + host parses as a base URL only when the host name in front
      of any `:port` is non-empty; otherwise `new URL` throws. */
  predicate HasHostName(host: string)
  {
    host != [] && host[0] != ':'
  }

  /** For an `https:` URL the parser reads `\` as it reads `/`. */
  predicate IsSlash(c: char)
  {
    c == '/' || c == '\\'
  }

  /** The characters that end the authority of an `https:` URL. */
  predicate EndsAuthority(c: char)
  {
    IsSlash(c) || c == '?' || c == '#'
  }

  /** A network-path reference: two slashes, so the authority comes from
      the reference rather than from the base. */
  predicate IsNetworkPath(path: string)
  {
    |path| >= 2 && IsSlash(path[0]) && IsSlash(path[1])
  }

  /** After the two slashes of a network-path reference the parser skips
      any further slashes before the authority starts. */
  function SkipSlashes(s: string): (r: string)
    ensures |r| <= |s| && r == s[|s| - |r|..]
    ensures r == [] || !IsSlash(r[0])
    ensures forall k :: 0 <= k < |s| - |r| ==> IsSlash(s[k])
  {
    if s != [] && IsSlash(s[0]) then SkipSlashes(s[1..]) else s
  }

  /** The authority: the longest prefix free of `/`, `\`, `?` and `#`. */
  function Authority(s: string): (a: string)
    ensures |a| <= |s| && a == s[..|a|]
    ensures forall k :: 0 <= k < |a| ==> !EndsAuthority(a[k])
    ensures |a| < |s| ==> EndsAuthority(s[|a|])
  {
    if s == [] || EndsAuthority(s[0]) then [] else [s[0]] + Authority(s[1..])
  }

  /** The authority a network-path reference `//` + `rest` names. */
  function NetworkAuthority(rest: string): string
  {
    Authority(SkipSlashes(rest))
  }

  /** The address `new URL(path, "https://" + host)` resolves to, None when
      it throws for want of a host name, in the base or, for a
      network-path reference, in the reference itself. For the three
      shapes a path can take: after two slashes (and any more) the next
      segment becomes the host, a path starting with one slash replaces
      the base path, anything else is appended to the base's root. */
  function Location(host: string, path: string): (r: Option<string>)
    ensures r.Some? <==>
      HasHostName(host) && (IsNetworkPath(path) ==> HasHostName(NetworkAuthority(path[2..])))
    ensures r.Some? ==> StartsWith(r.value, "https://")
    ensures r.Some? && IsNetworkPath(path) ==>
      StartsWith(r.value, "https://" + NetworkAuthority(path[2..]))
    ensures r.Some? && !IsNetworkPath(path) ==>
      StartsWith(r.value, "https://" + host) && |r.value| >= |path| && r.value[|r.value| - |path|..] == path
  {
    if !HasHostName(host) then None
    else if IsNetworkPath(path) then
      var rest := SkipSlashes(path[2..]);
      if HasHostName(Authority(rest)) then
        PrependKeepsPrefix("https://", rest, Authority(rest));
        Some("https://" + rest)
      else None
    else if path != [] && IsSlash(path[0]) then
      Joined("https://" + host, path);
      Some("https://" + host + path)
    else
      Joined("https://" + host, "/" + path);
      Joined("/", path);
      Some("https://" + host + ("/" + path))
  }

  lemma PrependKeepsPrefix(p: string, s: string, q: string)
    requires StartsWith(s, q)
    ensures StartsWith(p + s, p + q)
  {
    assert (p + s)[..|p + q|] == p + s[..|q|];
  }

  /** `a + b` starts with `a` and ends with `b`. */
  lemma Joined(a: string, b: string)
    ensures StartsWith(a + b, a)
    ensures (a + b)[|a|..] == b
  {
    assert (a + b)[..|a|] == a;
  }

  // ---------------------------------------------------------------------
  // Path classes

  lemma AppPathShape(path: string)
    requires IsAppPath(path)
    ensures |path| >= 3
    ensures (path[1], path[2]) in {('d', 'a'), ('c', 'l'), ('i', 'n'), ('s', 'e'), ('o', 'n')}
  {
    var i :| 0 <= i < |AppPaths| && StartsWith(path, AppPaths[i]);
    StartsWithAt(path, AppPaths[i], 1);
    StartsWithAt(path, AppPaths[i], 2);
  }

  lemma AuthPathShape(path: string)
    requires IsAuthPath(path)
    ensures |path| >= 3
    ensures (path[1], path[2]) in {('l', 'o'), ('s', 'i')}
  {
    var i :| 0 <= i < |AuthPaths| && StartsWith(path, AuthPaths[i]);
    StartsWithAt(path, AuthPaths[i], 1);
    StartsWithAt(path, AuthPaths[i], 2);
  }

  lemma PublicPathShape(path: string)
    requires IsPublicPath(path)
    ensures || path == "/"
            || (|path| >= 2 && path[1] == '/')
            || (|path| >= 3 && (path[1], path[2]) in {('a', 'b'), ('p', 'r'), ('c', 'o'), ('f', 'e')})
  {
    var i :| 0 <= i < |PublicPaths| && (path == PublicPaths[i] || StartsWith(path, PublicPaths[i] + "/"));
    var q := PublicPaths[i];
    if path != q {
      StartsWithAt(path, q + "/", 1);
      if i > 0 {
        StartsWithAt(path, q + "/", 2);
      }
    }
  }

  /** The three path classes are pairwise disjoint: no public path is an
      app path or an auth path, and no auth path is an app path. */
  lemma PathClassesDisjoint(path: string)
    ensures !(IsPublicPath(path) && IsAppPath(path))
    ensures !(IsPublicPath(path) && IsAuthPath(path))
    ensures !(IsAuthPath(path) && IsAppPath(path))
  {
    if IsAppPath(path) { AppPathShape(path); }
    if IsAuthPath(path) { AuthPathShape(path); }
    if IsPublicPath(path) { PublicPathShape(path); }
  }

  /** Public paths match exactly or below a `/`; `/` itself is public only
      as `/` or `//...`; app paths match by raw prefix. */
  lemma PathMatchingExamples()
    ensures IsPublicPath("/about/x") && !IsPublicPath("/aboutus")
    ensures IsPublicPath("/") && IsPublicPath("//x") && !IsPublicPath("/x")
    ensures IsAppPath("/dashboardX") && IsAuthPath("/login/reset")
  {
    assert StartsWith("/about/x", PublicPaths[1] + "/");
    assert StartsWith("//x", PublicPaths[0] + "/");
    assert StartsWith("/dashboardX", AppPaths[0]);
    assert StartsWith("/login/reset", AuthPaths[0]);
    assert !IsPublicPath("/aboutus") by {
      forall i | 0 <= i < |PublicPaths|
        ensures !("/aboutus" == PublicPaths[i] || StartsWith("/aboutus", PublicPaths[i] + "/"))
      {
        var q := PublicPaths[i] + "/";
        if StartsWith("/aboutus", q) {
          StartsWithAt("/aboutus", q, 1);
          if i == 1 {
            assert q == "/about/";
            StartsWithAt("/aboutus", q, 6);
          }
        }
      }
    }
    assert !IsPublicPath("/x") by {
      forall i | 0 <= i < |PublicPaths|
        ensures !("/x" == PublicPaths[i] || StartsWith("/x", PublicPaths[i] + "/"))
      {
      }
    }
  }

  // ---------------------------------------------------------------------
  // Redirect rules

  /** A request is redirected exactly when a public path is asked for on the
      app host or an app path on the main host; the redirect keeps the path
      and swaps the host: the app host loses its leading `app.`, the main
      host gains one. */
  lemma RedirectCases(hostHeader: Option<string>, path: string)
    ensures var h := Hostname(hostHeader);
      Route(hostHeader, path).Redirect? <==>
        (IsAppHost(h) && IsPublicPath(path)) || (!IsAppHost(h) && IsAppPath(path))
    ensures var h := Hostname(hostHeader);
      match Route(hostHeader, path)
      case Next => true
      case Redirect(target, p) =>
        && p == path
        && (IsAppHost(h) ==> target == h[|AppHostPrefix|..])
        && (!IsAppHost(h) ==> target == AppHostPrefix + h)
  {
    var h := Hostname(hostHeader);
    PathClassesDisjoint(path);
    if IsAppHost(h) {
      ReplaceLeading(h, AppHostPrefix, "");
    }
  }

  /** Login and signup are never redirected, whichever host serves them. */
  lemma AuthNeverRedirected(hostHeader: Option<string>, path: string)
    requires IsAuthPath(path)
    ensures Route(hostHeader, path) == Next
  {
    PathClassesDisjoint(path);
  }

  /** The redirect address is `https://` + the new host + the original path
      and nothing else (no query string), for a path of the usual
      `/segment...` shape, whenever the new host has a host name. */
  lemma RedirectLocation(hostHeader: Option<string>, path: string)
    requires StartsWith(path, "/") && !IsNetworkPath(path)
    ensures match Route(hostHeader, path)
      case Next => true
      case Redirect(target, p) =>
        Location(target, p) == if HasHostName(target) then Some("https://" + target + path) else None
  {
  }

  /** A path starting with `//` is public, so on the app host it is
      redirected, and the URL constructor then takes the host of the
      address from the path itself, after any further slashes, rather than
      from the main domain; it throws when that host is empty. */
  lemma NetworkPathRedirect(mainHost: string, rest: string)
    requires HasHostName(mainHost)
    ensures var path := "//" + rest;
      && Route(Some(AppHostPrefix + mainHost), path) == Redirect(mainHost, path)
      && Location(mainHost, path) ==
           if HasHostName(NetworkAuthority(rest)) then Some("https://" + SkipSlashes(rest)) else None
  {
    var path := "//" + rest;
    var h := AppHostPrefix + mainHost;
    StartsWithConcat("//", rest);
    StartsWithConcat(AppHostPrefix, mainHost);
    assert StartsWith(path, PublicPaths[0] + "/");
    PathClassesDisjoint(path);
    ReplaceLeading(h, AppHostPrefix, "");
    assert h[|AppHostPrefix|..] == mainHost;
    assert IsAppHost(h) && IsPublicPath(path) && !IsAuthPath(path);
    assert IsNetworkPath(path) && path[2..] == rest;
  }

  /** A network-path reference with no host name, `//` alone or `//:port`,
      makes the URL constructor throw, whatever the main domain. */
  lemma EmptyNetworkHostThrows(host: string, port: string)
    requires port == [] || port[0] == ':'
    ensures Location(host, "//" + port).None?
  {
    var path := "//" + port;
    assert IsNetworkPath(path) && path[2..] == port;
    if port != [] {
      assert SkipSlashes(port) == port;
      assert Authority(port) != [] ==> Authority(port)[0] == port[0];
    }
  }

  /** Slashes after the first two are skipped before the host: one more
      leading slash on a network-path reference changes nothing. */
  lemma ExtraSlashesSkipped(host: string, path: string)
    requires IsNetworkPath(path)
    ensures Location(host, "/" + path) == Location(host, path)
  {
    var longer := "/" + path;
    assert IsNetworkPath(longer);
    assert longer[2..] == path[1..];
    assert SkipSlashes(longer[2..]) == SkipSlashes(path[2..]) by {
      assert IsSlash(path[1..][0]) && path[1..][1..] == path[2..];
    }
  }

  /** A network-path reference reaches the host it names, whatever the
      main domain is. */
  lemma NetworkHostTaken(host: string, name: string, tail: string)
    requires HasHostName(host) && HasHostName(name)
    requires forall k :: 0 <= k < |name| ==> !EndsAuthority(name[k])
    requires tail == [] || IsSlash(tail[0])
    ensures Location(host, "//" + name + tail) == Some("https://" + name + tail)
  {
    var path := "//" + name + tail;
    var rest := name + tail;
    assert IsNetworkPath(path) && path[2..] == rest;
    assert rest[0] == name[0] && !IsSlash(rest[0]);
    assert SkipSlashes(rest) == rest;
    AuthorityOfName(name, tail);
    assert "https://" + rest == "https://" + name + tail;
  }

  lemma {:induction false} AuthorityOfName(name: string, tail: string)
    requires forall k :: 0 <= k < |name| ==> !EndsAuthority(name[k])
    requires tail == [] || IsSlash(tail[0])
    ensures Authority(name + tail) == name
  {
    if name == [] {
      assert name + tail == tail;
    } else {
      assert (name + tail)[0] == name[0] && !EndsAuthority(name[0]);
      assert (name + tail)[1..] == name[1..] + tail;
      AuthorityOfName(name[1..], tail);
      assert name == [name[0]] + name[1..];
    }
  }

  /** On the bare host `app.` (or `app.:port`) a public page is redirected
      to a host with no host name, so building the address throws and no
      redirect is sent. */
  lemma BareAppHostThrows(port: string, path: string)
    requires port == [] || port[0] == ':'
    requires IsPublicPath(path)
    ensures Route(Some(AppHostPrefix + port), path) == Redirect(port, path)
    ensures Location(port, path).None?
  {
    var h := AppHostPrefix + port;
    StartsWithConcat(AppHostPrefix, port);
    PathClassesDisjoint(path);
    ReplaceLeading(h, AppHostPrefix, "");
    assert h[|AppHostPrefix|..] == port;
  }

  /** A missing Host header is the empty host name, i.e. the main domain,
      so an app path is sent to the bare `app.` host. */
  lemma MissingHostIsMainDomain(path: string)
    ensures Route(None, path) == Route(Some(""), path)
    ensures !IsAppHost(Hostname(None))
    ensures IsAppPath(path) ==> Route(None, path) == Redirect(AppHostPrefix, path)
  {
    assert AppHostPrefix + "" == AppHostPrefix;
  }

  /** Following a redirect from the main host to the app host ends there:
      the new host starts with `app.`, so its address always builds, and
      the same path passes through. */
  lemma MainToAppNoLoop(hostHeader: Option<string>, path: string)
    requires !IsAppHost(Hostname(hostHeader))
    requires Route(hostHeader, path).Redirect?
    ensures var target := Route(hostHeader, path).host;
      IsAppHost(target) && Location(target, path).Some? && Route(Some(target), path) == Next
  {
    var target := Route(hostHeader, path).host;
    StartsWithConcat(AppHostPrefix, Hostname(hostHeader));
    PathClassesDisjoint(path);
    AppPathShape(path);
  }

  /** A redirect from the app host strips only its leading `app.`, so the
      target is strictly shorter, and its address builds only when it keeps
      a host name. The same path then passes through unless the stripped
      host still starts with `app.`, in which case the next redirect strips
      one more label. Chains of redirects are therefore
      finite. */
  lemma AppToMainStripsOneLabel(hostHeader: Option<string>, path: string)
    requires IsAppHost(Hostname(hostHeader))
    requires Route(hostHeader, path).Redirect?
    ensures var h := Hostname(hostHeader);
      var target := Route(hostHeader, path).host;
      && target == h[|AppHostPrefix|..]
      && |target| < |h|
      && (Location(target, path).None? <==>
            || target == [] || target[0] == ':'
            || (IsNetworkPath(path) && !HasHostName(NetworkAuthority(path[2..]))))
      && (Route(Some(target), path) == Next <==> !IsAppHost(target))
      && (IsAppHost(target) ==> Route(Some(target), path) == Redirect(target[|AppHostPrefix|..], path))
  {
    var h := Hostname(hostHeader);
    var target := Route(hostHeader, path).host;
    RedirectCases(hostHeader, path);
    RedirectCases(Some(target), path);
    PathClassesDisjoint(path);
  }
}
