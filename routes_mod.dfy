/** The file-based router of `routes/mod.ts`: `generate` walks the routes
    folder, derives each route file's pattern and lets each route of the
    module override it for itself and the routes after it; `addRoutes`
    sorts the routes by `order`, sends `/_500` and `/_404` to the error
    and no-match handlers, registers the rest and then adds the
    trailing-slash redirects. `path.relative` and `importModule` are
    inputs. */
module RoutesMod {
  import opened Text
  import Paths
  import opened Routing

  // ---------------------------------------------------------------------
  // generate

  /** The pattern in force after the routes `rs` of one module: the last
      non-empty pattern among them, or the derived `base`. */
  function Latest(base: string, rs: seq<Route>): string
    decreases |rs|
  {
    if rs == [] then base
    else if rs[|rs| - 1].pattern != "" then rs[|rs| - 1].pattern
    else Latest(base, rs[..|rs| - 1])
  }

  /** The routes of one module as pushed: each carries the pattern in force
      once it has been seen. */
  function Overridden(base: string, rs: seq<Route>): (out: seq<Route>)
    ensures |out| == |rs|
    decreases |rs|
  {
    if rs == [] then [] else Overridden(base, rs[..|rs| - 1]) + [rs[|rs| - 1].(pattern := Latest(base, rs))]
  }

  /** The pattern in force is the derived one while no route has brought
      its own. */
  lemma {:induction false} LatestNone(base: string, rs: seq<Route>)
    requires forall i | 0 <= i < |rs| :: rs[i].pattern == ""
    ensures Latest(base, rs) == base
    decreases |rs|
  {
    if rs != [] {
      var init := rs[..|rs| - 1];
      forall i | 0 <= i < |init| ensures init[i].pattern == "" {
        assert init[i] == rs[i];
      }
      LatestNone(base, init);
    }
  }

  /** Otherwise it is the most recent pattern a route brought. */
  lemma {:induction false} LatestLast(base: string, rs: seq<Route>, j: nat)
    requires j < |rs| && rs[j].pattern != ""
    requires forall i | j < i < |rs| :: rs[i].pattern == ""
    ensures Latest(base, rs) == rs[j].pattern
    decreases |rs|
  {
    if j < |rs| - 1 {
      var init := rs[..|rs| - 1];
      forall i | j < i < |init| ensures init[i].pattern == "" {
        assert init[i] == rs[i];
      }
      LatestLast(base, init, j);
    }
  }

  /** The `k`-th pushed route is the `k`-th route of the module with the
      pattern in force after it. */
  lemma {:induction false} OverriddenAt(base: string, rs: seq<Route>, k: nat)
    requires k < |rs|
    ensures Overridden(base, rs)[k] == rs[k].(pattern := Latest(base, rs[..k + 1]))
    decreases |rs|
  {
    if k < |rs| - 1 {
      var init := rs[..|rs| - 1];
      OverriddenAt(base, init, k);
      assert init[..k + 1] == rs[..k + 1];
    } else {
      assert rs[..k + 1] == rs;
    }
  }

  /** What `generate` pushes for one route file at `rel`. */
  function ModuleRoutes(rel: string, entry: string, importModule: (string, string) -> seq<Route>): seq<Route> {
    var pattern := FilePattern(rel, entry);
    Overridden(pattern, importModule(entry, pattern))
  }

  function AllModuleRoutes(dir: string, relative: (string, string) -> string,
                           importModule: (string, string) -> seq<Route>, paths: seq<string>): seq<Route>
  {
    Concat(paths, p => ModuleRoutes(relative(dir, p), p, importModule))
  }

  /** `generate(dir)` over the listing of `dir`. */
  function Generated(dir: string, tree: seq<Entry>, relative: (string, string) -> string,
                     importModule: (string, string) -> seq<Route>): Result<seq<Route>, TraverseError>
  {
    var paths := Collect(dir, tree, 0, RouteFile);
    if paths.Err? then Err(paths.error) else Ok(AllModuleRoutes(dir, relative, importModule, paths.value))
  }

  /** `generate`: traverse, then for each route file push its routes, the
      pattern reassigned by every route that brings one. */
  method Generate(dir: string, tree: seq<Entry>, relative: (string, string) -> string,
                  importModule: (string, string) -> seq<Route>) returns (r: Result<seq<Route>, TraverseError>)
    ensures r == Generated(dir, tree, relative, importModule)
  {
    var walked := CollectFiles(dir, tree, 0, RouteFile);
    if walked.Err? {
      return Err(walked.error);
    }
    var paths := walked.value;
    var routes: seq<Route> := [];
    for i := 0 to |paths|
      invariant routes == AllModuleRoutes(dir, relative, importModule, paths[..i])
    {
      AllModuleRoutesNext(dir, relative, importModule, paths, i);
      var entry := paths[i];
      var derived := DerivePattern(relative(dir, entry), entry);
      var pushed := OverrideRoutes(derived, importModule(entry, derived));
      routes := routes + pushed;
    }
    assert paths[..|paths|] == paths;
    return Ok(routes);
  }

  /** One more route file appends its module's routes. */
  lemma AllModuleRoutesNext(dir: string, relative: (string, string) -> string,
                            importModule: (string, string) -> seq<Route>, paths: seq<string>, i: nat)
    requires i < |paths|
    ensures AllModuleRoutes(dir, relative, importModule, paths[..i + 1])
      == AllModuleRoutes(dir, relative, importModule, paths[..i]) + ModuleRoutes(relative(dir, paths[i]), paths[i], importModule)
  {
    assert paths[..i + 1][..i] == paths[..i];
  }

  /** The inner loop of `generate`: `pattern` starts as the derived one
      and each route that brings a pattern reassigns it. */
  method OverrideRoutes(derived: string, mod: seq<Route>) returns (pushed: seq<Route>)
    ensures pushed == Overridden(derived, mod)
  {
    pushed := [];
    var pattern := derived;
    for j := 0 to |mod|
      invariant pushed == Overridden(derived, mod[..j])
      invariant pattern == Latest(derived, mod[..j])
    {
      OverriddenNext(derived, mod, j);
      var route := mod[j];
      if route.pattern != "" {
        pattern := route.pattern;
      }
      pushed := pushed + [route.(pattern := pattern)];
    }
    assert mod[..|mod|] == mod;
  }

  /** One more route of a module. */
  lemma OverriddenNext(base: string, rs: seq<Route>, j: nat)
    requires j < |rs|
    ensures Latest(base, rs[..j + 1]) == (if rs[j].pattern != "" then rs[j].pattern else Latest(base, rs[..j]))
    ensures Overridden(base, rs[..j + 1]) == Overridden(base, rs[..j]) + [rs[j].(pattern := Latest(base, rs[..j + 1]))]
  {
    assert rs[..j + 1][..j] == rs[..j];
  }

  /** Every generated route comes from a route file of the listing, and
      every route of such a file is generated. */
  lemma GeneratedMember(dir: string, tree: seq<Entry>, relative: (string, string) -> string,
                        importModule: (string, string) -> seq<Route>, r: Route)
    requires Generated(dir, tree, relative, importModule).Ok?
    ensures r in Generated(dir, tree, relative, importModule).value <==>
      exists p :: Listed(dir, tree, p, RouteFile) && r in ModuleRoutes(relative(dir, p), p, importModule)
  {
    var paths := Collect(dir, tree, 0, RouteFile).value;
    ConcatMember(paths, p => ModuleRoutes(relative(dir, p), p, importModule), r);
    forall p ensures p in paths <==> Listed(dir, tree, p, RouteFile) {
      CollectListed(dir, tree, 0, RouteFile, p);
    }
  }

  // ---------------------------------------------------------------------
  // addRoutes

  predicate IsErrorRoute(r: Route) {
    r.pattern == "/_500"
  }

  predicate IsNoMatchRoute(r: Route) {
    r.pattern == "/_404"
  }

  predicate IsHandlerRoute(r: Route) {
    !IsErrorRoute(r) && !IsNoMatchRoute(r)
  }

  /** The routes of `rs` that `f` accepts, in order. */
  function Keep(rs: seq<Route>, f: Route -> bool): seq<Route>
    decreases |rs|
  {
    if rs == [] then []
    else Keep(rs[..|rs| - 1], f) + (if f(rs[|rs| - 1]) then [rs[|rs| - 1]] else [])
  }

  lemma {:induction false} KeepMember(rs: seq<Route>, f: Route -> bool, x: Route)
    ensures x in Keep(rs, f) <==> x in rs && f(x)
    decreases |rs|
  {
    if rs != [] {
      var init := rs[..|rs| - 1];
      KeepMember(init, f, x);
      assert rs == init + [rs[|rs| - 1]];
    }
  }

  /** Keeping some routes of a sorted list leaves it sorted. */
  lemma {:induction false} KeepSorted(rs: seq<Route>, f: Route -> bool)
    requires SortedByOrder(rs)
    ensures SortedByOrder(Keep(rs, f))
    decreases |rs|
  {
    if rs != [] {
      var init := rs[..|rs| - 1];
      var last := rs[|rs| - 1];
      assert SortedByOrder(init);
      KeepSorted(init, f);
      if f(last) {
        var t := Keep(init, f) + [last];
        forall i, j | 0 <= i < j < |t| ensures OrderOf(t[i]) <= OrderOf(t[j]) {
          if j == |t| - 1 {
            KeepMember(init, f, t[i]);
            var k :| 0 <= k < |init| && init[k] == t[i];
            assert rs[k] == t[i];
          }
        }
      }
    }
  }

  /** The error, no-match and ordinary routes together are the routes. */
  lemma {:induction false} DispatchPartition(rs: seq<Route>)
    ensures multiset(Keep(rs, IsErrorRoute)) + multiset(Keep(rs, IsNoMatchRoute)) + multiset(Keep(rs, IsHandlerRoute))
      == multiset(rs)
    decreases |rs|
  {
    if rs != [] {
      var init := rs[..|rs| - 1];
      DispatchPartition(init);
      assert rs == init + [rs[|rs| - 1]];
    }
  }

  /** The `redirects` Set after the registered routes `hs`: the GET
      patterns that do not look like files or wildcards, each once. */
  function Candidates(hs: seq<Route>): seq<string>
    decreases |hs|
  {
    if hs == [] then []
    else
      var s := Candidates(hs[..|hs| - 1]);
      var r := hs[|hs| - 1];
      if r.verb == "GET" && !FileLike(r.pattern) && r.pattern !in s then s + [r.pattern] else s
  }

  predicate Distinct(s: seq<string>) {
    forall i, j :: 0 <= i < j < |s| ==> s[i] != s[j]
  }

  lemma {:induction false} CandidatesMeaning(hs: seq<Route>, p: string)
    ensures Distinct(Candidates(hs))
    ensures p in Candidates(hs) <==> exists k :: 0 <= k < |hs| && hs[k].verb == "GET" && !FileLike(hs[k].pattern) && hs[k].pattern == p
    decreases |hs|
  {
    if hs != [] {
      var init := hs[..|hs| - 1];
      CandidatesMeaning(init, p);
      if exists k :: 0 <= k < |init| && init[k].verb == "GET" && !FileLike(init[k].pattern) && init[k].pattern == p {
        var k :| 0 <= k < |init| && init[k].verb == "GET" && !FileLike(init[k].pattern) && init[k].pattern == p;
        assert hs[k] == init[k];
      }
      if exists k :: 0 <= k < |hs| && hs[k].verb == "GET" && !FileLike(hs[k].pattern) && hs[k].pattern == p {
        var k :| 0 <= k < |hs| && hs[k].verb == "GET" && !FileLike(hs[k].pattern) && hs[k].pattern == p;
        if k < |init| {
          assert init[k] == hs[k];
        }
      }
    }
  }

  /** The redirects registered for the candidates `ps` in order, against
      the whole set `all`: none for `/` nor where the toggled path is a
      candidate. */
  function Redirects(ps: seq<string>, all: seq<string>): seq<(string, string)>
    decreases |ps|
  {
    if ps == [] then []
    else
      var rest := Redirects(ps[..|ps| - 1], all);
      var p := ps[|ps| - 1];
      if p == "/" || Toggle(p) in all then rest else rest + [(Toggle(p), p)]
  }

  lemma {:induction false} RedirectsMeaning(ps: seq<string>, all: seq<string>, alt: string, p: string)
    ensures (alt, p) in Redirects(ps, all) <==> p in ps && p != "/" && alt == Toggle(p) && alt !in all
    decreases |ps|
  {
    if ps != [] {
      var init := ps[..|ps| - 1];
      RedirectsMeaning(init, all, alt, p);
      assert ps == init + [ps[|ps| - 1]];
    }
  }

  /** What `addRoutes` hands to the router: the error and no-match routes,
      the routes registered in order, and the `(alt, pattern)` redirects. */
  datatype Registration = Registration(errors: seq<Route>, noMatch: seq<Route>, handlers: seq<Route>,
                                       redirects: seq<(string, string)>)

  function Registered(sorted: seq<Route>): Registration {
    var hs := Keep(sorted, IsHandlerRoute);
    var cands := Candidates(hs);
    Registration(Keep(sorted, IsErrorRoute), Keep(sorted, IsNoMatchRoute), hs, Redirects(cands, cands))
  }

  /** `addRoutes` over the routes folder's listing (`None` when it does not
      exist, and nothing is registered). */
  function AddedRoutes(dir: string, tree: Option<seq<Entry>>, relative: (string, string) -> string,
                       importModule: (string, string) -> seq<Route>): Result<Registration, TraverseError>
  {
    if tree.None? then Ok(Registration([], [], [], []))
    else
      var g := Generated(dir, tree.value, relative, importModule);
      if g.Err? then Err(g.error) else Ok(Registered(SortByOrder(g.value)))
  }

  /** The loop over the sorted routes. */
  method Dispatch(sorted: seq<Route>) returns (reg: Registration)
    ensures reg == Registered(sorted)
  {
    var errors, noMatch, handlers, redirects := Classify(sorted);
    var alts := AltRoutes(redirects);
    return Registration(errors, noMatch, handlers, alts);
  }

  /** The first loop of `addRoutes`: each route goes to the error handler,
      the no-match handler or the router, and a registered `GET` route
      that does not look like a file becomes a redirect candidate. */
  method Classify(sorted: seq<Route>) returns (errors: seq<Route>, noMatch: seq<Route>, handlers: seq<Route>,
                                               redirects: seq<string>)
    ensures errors == Keep(sorted, IsErrorRoute)
    ensures noMatch == Keep(sorted, IsNoMatchRoute)
    ensures handlers == Keep(sorted, IsHandlerRoute)
    ensures redirects == Candidates(handlers)
  {
    errors, noMatch, handlers, redirects := [], [], [], [];
    for i := 0 to |sorted|
      invariant errors == Keep(sorted[..i], IsErrorRoute)
      invariant noMatch == Keep(sorted[..i], IsNoMatchRoute)
      invariant handlers == Keep(sorted[..i], IsHandlerRoute)
      invariant redirects == Candidates(handlers)
    {
      KeepNext(sorted, IsErrorRoute, i);
      KeepNext(sorted, IsNoMatchRoute, i);
      KeepNext(sorted, IsHandlerRoute, i);
      var route := sorted[i];
      if route.pattern == "/_500" {
        errors := errors + [route];
        continue;
      }
      if route.pattern == "/_404" {
        noMatch := noMatch + [route];
        continue;
      }
      CandidatesNext(handlers, route);
      handlers := handlers + [route];
      if route.verb == "GET" && !FileLike(route.pattern) && route.pattern !in redirects {
        redirects := redirects + [route.pattern];
      }
    }
    assert sorted[..|sorted|] == sorted;
  }

  /** One more route for a filter. */
  lemma KeepNext(rs: seq<Route>, f: Route -> bool, i: nat)
    requires i < |rs|
    ensures Keep(rs[..i + 1], f) == Keep(rs[..i], f) + (if f(rs[i]) then [rs[i]] else [])
  {
    assert rs[..i + 1][..i] == rs[..i];
  }

  /** One more registered route. */
  lemma CandidatesNext(hs: seq<Route>, r: Route)
    ensures Candidates(hs + [r])
      == if r.verb == "GET" && !FileLike(r.pattern) && r.pattern !in Candidates(hs)
         then Candidates(hs) + [r.pattern] else Candidates(hs)
  {
    assert (hs + [r])[..|hs|] == hs;
  }

  /** The second loop of `addRoutes`: every candidate but `/` whose
      toggled form is not itself a candidate. */
  method AltRoutes(redirects: seq<string>) returns (alts: seq<(string, string)>)
    ensures alts == Redirects(redirects, redirects)
  {
    alts := [];
    for i := 0 to |redirects|
      invariant alts == Redirects(redirects[..i], redirects)
    {
      assert redirects[..i + 1][..i] == redirects[..i];
      var pattern := redirects[i];
      if pattern == "/" {
        continue;
      }
      var alt := pattern;
      if |pattern| > 0 && pattern[|pattern| - 1] == '/' {
        alt := pattern[..|pattern| - 1];
      } else {
        alt := alt + "/";
      }
      if alt in redirects {
        continue;
      }
      alts := alts + [(alt, pattern)];
    }
    assert redirects[..|redirects|] == redirects;
  }

  /** `addRoutes(dinossr)`. */
  method AddRoutes(dir: string, tree: Option<seq<Entry>>, relative: (string, string) -> string,
                   importModule: (string, string) -> seq<Route>) returns (r: Result<Registration, TraverseError>)
    ensures r == AddedRoutes(dir, tree, relative, importModule)
  {
    if tree.None? {
      return Ok(Registration([], [], [], []));
    }
    var g := Generate(dir, tree.value, relative, importModule);
    if g.Err? {
      return Err(g.error);
    }
    var sorted := SortByOrder(g.value);
    var reg := Dispatch(sorted);
    return Ok(reg);
  }

  /** What is registered for a generated route list: every route lands in
      exactly one of the three lists; the registered routes are sorted by
      `order`, none is `/_500` or `/_404`; a redirect `(alt, p)` exists
      exactly for a registered GET pattern `p` other than `/` that does not
      look like a file, whose toggle `alt` is no such pattern. */
  lemma RegisteredShape(routes: seq<Route>, alt: string, p: string)
    ensures var reg := Registered(SortByOrder(routes));
      && multiset(reg.errors) + multiset(reg.noMatch) + multiset(reg.handlers) == multiset(routes)
      && SortedByOrder(reg.handlers)
      && (forall k | 0 <= k < |reg.handlers| :: reg.handlers[k].pattern != "/_500" && reg.handlers[k].pattern != "/_404")
      && ((alt, p) in reg.redirects <==>
           p != "/" && alt == Toggle(p) && p in Candidates(reg.handlers) && alt !in Candidates(reg.handlers))
  {
    var sorted := SortByOrder(routes);
    SortByOrderMeaning(routes);
    DispatchPartition(sorted);
    KeepSorted(sorted, IsHandlerRoute);
    var hs := Keep(sorted, IsHandlerRoute);
    forall k | 0 <= k < |hs| ensures hs[k].pattern != "/_500" && hs[k].pattern != "/_404" {
      KeepMember(sorted, IsHandlerRoute, hs[k]);
    }
    RedirectsMeaning(Candidates(hs), Candidates(hs), alt, p);
  }

  /** The registered redirect handler: the same URL with the trailing
      slash of its path toggled, answered with 308. */
  function Answer(u: Url): (a: Answer)
    ensures a.Redirect? && a.status == PermanentRedirect
  {
    Redirect(PermanentRedirect, Href(Url(u.origin, Toggle(u.pathname), u.tail)))
  }

  /** A request at a registered redirect path, taken literally, is sent to
      the pattern the redirect was made for, unless that ends with two
      slashes. */
  lemma RedirectReturns(ps: seq<string>, all: seq<string>, alt: string, p: string, origin: string, tail: string)
    requires (alt, p) in Redirects(ps, all) && !EndsWith(p, "//")
    ensures Answer(Url(origin, alt, tail)) == Redirect(PermanentRedirect, origin + p + tail)
  {
    RedirectsMeaning(ps, all, alt, p);
    ToggleTwice(p);
  }
}
