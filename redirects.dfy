/** The trailing-slash redirects of the middleware: every GET pattern of the
    manifest's modules that looks like a page gets a permanent redirect
    (status 308, section 15.4.9 of RFC 9110) from the same path with the
    trailing slash toggled, unless that path is a page itself. */
module Redirects {
  import opened Text
  import opened Routing
  import opened ManifestGen

  /** The patterns never redirected. */
  predicate Ignored(p: string) {
    p == "/" || p == "/_404" || p == "/_500"
  }

  /** A route that may get a redirect: a GET route whose pattern is not
      ignored and does not look like a file or a wildcard. */
  predicate Redirectable(r: Route) {
    r.verb == "GET" && !Ignored(r.pattern) && !FileLike(r.pattern)
  }

  /** The `redirects` Set after adding the patterns of `rs` in order: an
      insertion-ordered list without repeats. */
  function Added(set0: seq<string>, rs: seq<Route>): seq<string>
    decreases |rs|
  {
    if rs == [] then set0
    else
      var s := Added(set0, rs[..|rs| - 1]);
      var r := rs[|rs| - 1];
      if Redirectable(r) && r.pattern !in s then s + [r.pattern] else s
  }

  /** The candidates of a manifest: its module routes in module order. */
  function Candidates(mods: seq<ModuleEntry>): seq<string> {
    Added([], AllRoutes(mods))
  }

  predicate Distinct(s: seq<string>) {
    forall i, j :: 0 <= i < j < |s| ==> s[i] != s[j]
  }

  /** Adding two runs of routes is adding their concatenation. */
  lemma {:induction false} AddedConcat(set0: seq<string>, a: seq<Route>, b: seq<Route>)
    ensures Added(set0, a + b) == Added(Added(set0, a), b)
    decreases |b|
  {
    if b == [] {
      assert a + b == a;
    } else {
      assert (a + b)[..|a + b| - 1] == a + b[..|b| - 1];
      AddedConcat(set0, a, b[..|b| - 1]);
    }
  }

  /** A pattern is in the set exactly when it was there or some added route
      is redirectable with that pattern; the set never holds a pattern
      twice. */
  lemma {:induction false} AddedMeaning(set0: seq<string>, rs: seq<Route>, p: string)
    requires Distinct(set0)
    ensures Distinct(Added(set0, rs))
    ensures p in Added(set0, rs) <==> p in set0 || exists k :: 0 <= k < |rs| && Redirectable(rs[k]) && rs[k].pattern == p
    decreases |rs|
  {
    if rs != [] {
      var init := rs[..|rs| - 1];
      AddedMeaning(set0, init, p);
      var s := Added(set0, init);
      if exists k :: 0 <= k < |init| && Redirectable(init[k]) && init[k].pattern == p {
        var k :| 0 <= k < |init| && Redirectable(init[k]) && init[k].pattern == p;
        assert rs[k] == init[k];
      }
      if exists k :: 0 <= k < |rs| && Redirectable(rs[k]) && rs[k].pattern == p {
        var k :| 0 <= k < |rs| && Redirectable(rs[k]) && rs[k].pattern == p;
        if k < |init| {
          assert init[k] == rs[k];
        }
      }
    }
  }

  /** The nested loops over `manifest.modules` and their routes. */
  method CollectRedirects(mods: seq<ModuleEntry>) returns (redirects: seq<string>)
    ensures redirects == Candidates(mods)
  {
    redirects := [];
    for i := 0 to |mods|
      invariant redirects == Added([], AllRoutes(mods[..i]))
    {
      var routes := mods[i].routes;
      for j := 0 to |routes|
        invariant redirects == Added(Added([], AllRoutes(mods[..i])), routes[..j])
      {
        var route := routes[j];
        assert routes[..j + 1] == routes[..j] + [route];
        AddedConcat(Added([], AllRoutes(mods[..i])), routes[..j], [route]);
        if route.verb != "GET" {
          continue;
        }
        if Ignored(route.pattern) {
          continue;
        }
        if !FileLike(route.pattern) && route.pattern !in redirects {
          redirects := redirects + [route.pattern];
        }
      }
      assert routes[..|routes|] == routes;
      AddedConcat([], AllRoutes(mods[..i]), routes);
      assert mods[..i + 1][..i] == mods[..i];
    }
    assert mods[..|mods|] == mods;
  }

  /** The loop over `redirects` that registers a GET handler at each
      alternative path. */
  method RegisterRedirects(cands: seq<string>) returns (regs: seq<(string, string)>)
    ensures regs == RegistrationsIn(cands, cands)
  {
    regs := [];
    for i := 0 to |cands|
      invariant regs == RegistrationsIn(cands[..i], cands)
    {
      var pattern := cands[i];
      var alt := pattern;
      if |pattern| > 0 && pattern[|pattern| - 1] == '/' {
        alt := pattern[..|pattern| - 1];
      } else {
        alt := alt + "/";
      }
      assert cands[..i + 1][..i] == cands[..i];
      if alt in cands {
        continue;
      }
      regs := regs + [(alt, pattern)];
    }
    assert cands[..|cands|] == cands;
  }

  /** The `(alt, pattern)` handlers registered for the candidates `ps`, in
      their order, checking conflicts against the whole set `all`. */
  function RegistrationsIn(ps: seq<string>, all: seq<string>): seq<(string, string)>
    decreases |ps|
  {
    if ps == [] then []
    else
      var rest := RegistrationsIn(ps[..|ps| - 1], all);
      var p := ps[|ps| - 1];
      if Toggle(p) in all then rest else rest + [(Toggle(p), p)]
  }

  /** A handler is registered at `alt` for `p` exactly when `p` is a
      candidate, `alt` its toggled path, and `alt` not a candidate. */
  lemma {:induction false} RegistrationsMeaning(ps: seq<string>, all: seq<string>, alt: string, p: string)
    ensures (alt, p) in RegistrationsIn(ps, all) <==> p in ps && alt == Toggle(p) && alt !in all
    decreases |ps|
  {
    if ps != [] {
      var init := ps[..|ps| - 1];
      RegistrationsMeaning(init, all, alt, p);
      assert ps == init + [ps[|ps| - 1]];
    }
  }

  /** No redirect is registered at a path that is itself a candidate. */
  lemma NoAltIsCandidate(cands: seq<string>, alt: string, p: string)
    requires (alt, p) in RegistrationsIn(cands, cands)
    ensures alt !in cands && p in cands && alt == Toggle(p)
  {
    RegistrationsMeaning(cands, cands, alt, p);
  }

  /** Two candidates share a redirect path only when one of them ends with
      two slashes. */
  lemma ToggleInjective(p: string, q: string)
    requires Toggle(p) == Toggle(q) && p != q
    ensures EndsWith(p, "//") || EndsWith(q, "//")
  {
    ToggleTwice(p);
    ToggleTwice(q);
  }

  /** The registered handler: an ignored request is passed on, anything
      else answered with 308 and the same URL whose path has its trailing
      slash toggled. */
  function Handle(ignore: bool, u: Url): (a: Answer)
    ensures ignore <==> a.PassThrough?
    ensures a.Redirect? ==> a.status == PermanentRedirect
  {
    if ignore then PassThrough
    else
      Redirect(PermanentRedirect, Href(Url(u.origin, Toggle(u.pathname), u.tail)))
  }

  /** Following a redirect registered at a literal path leads back to the
      candidate it was registered for, unless that candidate ends with two
      slashes. */
  lemma RedirectLeadsHome(cands: seq<string>, alt: string, p: string, origin: string, tail: string)
    requires (alt, p) in RegistrationsIn(cands, cands) && !EndsWith(p, "//")
    ensures Handle(false, Url(origin, alt, tail)) == Redirect(PermanentRedirect, origin + p + tail)
  {
    RegistrationsMeaning(cands, cands, alt, p);
    ToggleTwice(p);
    assert Handle(false, Url(origin, alt, tail)).location == Href(Url(origin, Toggle(alt), tail));
  }

  /** The candidates of a manifest are its redirectable GET patterns, each
      once. */
  lemma CandidatesMeaning(mods: seq<ModuleEntry>, p: string)
    ensures Distinct(Candidates(mods))
    ensures p in Candidates(mods) <==> exists k :: 0 <= k < |AllRoutes(mods)| && Redirectable(AllRoutes(mods)[k]) && AllRoutes(mods)[k].pattern == p
  {
    var none: seq<string> := [];
    AddedMeaning(none, AllRoutes(mods), p);
    assert Candidates(mods) == Added(none, AllRoutes(mods));
  }

  /** The whole middleware: the handlers it registers for a manifest. */
  method RedirectMiddleware(mods: seq<ModuleEntry>) returns (regs: seq<(string, string)>)
    ensures regs == RegistrationsIn(Candidates(mods), Candidates(mods))
  {
    var redirects := CollectRedirects(mods);
    regs := RegisterRedirects(redirects);
  }
}
