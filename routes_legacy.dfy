/** The older file router: every `mod.js`, `mod.ts` or `mod.svelte` below
    the routes folder becomes the handlers `importModule` gives it, each
    at the folder's pattern joined with the handler's own pattern; a GET
    pattern with a trailing slash also gets a 308 redirect from the path
    without it; GET responses that want a template are put into
    `app.html`. `path.relative`, `importModule` and the existence of files
    are inputs. */
module RoutesLegacy {
  import opened Text
  import Paths
  import opened Routing
  import opened Render
  import Utils
  import Template

  /** The test `/mod\.(js|ts|svelte)$/` on a file name. */
  predicate ModFile(name: string) {
    EndsWith(name, "mod.js") || EndsWith(name, "mod.ts") || EndsWith(name, "mod.svelte")
  }

  /** The folder part of a route file's path: groups removed, parameters
      converted, the directory part taken, with no trailing `/` added. */
  function BasePattern(rel: string): string {
    Paths.Dirname(NamedParams(RemoveGroups("/" + rel)))
  }

  /** One handler's step: its own pattern, when it has one, path-joined
      onto `pattern`, then a trailing `/` ensured. */
  function Step(pattern: string, h: Handler): (r: string)
    ensures EndsWith(r, "/")
  {
    EnsureSlash(if h.pattern != "" then Paths.Join(pattern, h.pattern) else pattern)
  }

  // ---------------------------------------------------------------------
  // The loop over one module's handlers, as written: `pattern` is carried
  // from one handler to the next

  /** The running pattern after the handlers `hs`. */
  function Running(base: string, hs: seq<Handler>): string
    decreases |hs|
  {
    if hs == [] then base else Step(Running(base, hs[..|hs| - 1]), hs[|hs| - 1])
  }

  /** The handlers as pushed by the loop as written: each at the running
      pattern after it. */
  function Stacked(base: string, hs: seq<Handler>): (out: seq<Handler>)
    ensures |out| == |hs|
    decreases |hs|
  {
    if hs == [] then []
    else Stacked(base, hs[..|hs| - 1]) + [hs[|hs| - 1].(pattern := Running(base, hs))]
  }

  /** Two steps with the same plain pattern `g` from a folder `base`
      without a trailing `/`: `base/g/`, then `base/g/g/`. */
  lemma StepTwice(base: string, first: Handler, second: Handler)
    requires base != "" && base != "/" && base[|base| - 1] != '/'
    requires first.pattern == second.pattern
    requires var g := first.pattern; g != "" && g[0] != '/' && g[|g| - 1] != '/'
    ensures Step(base, first) == base + "/" + first.pattern + "/"
    ensures Step(base, second) == base + "/" + first.pattern + "/"
    ensures Step(Step(base, first), second) == base + "/" + first.pattern + "/" + first.pattern + "/"
  {
    var g := first.pattern;
    var once := base + "/" + g + "/";
    StepSegment(base, first);
    StepSegment(base, second);
    assert once[|once| - 2] == g[|g| - 1];
    StepAfterSlash(once, second);
  }

  /** Two handlers, as written and corrected. */
  lemma PairShape(base: string, first: Handler, second: Handler)
    ensures Stacked(base, [first, second])
         == [first.(pattern := Step(base, first)), second.(pattern := Step(Step(base, first), second))]
    ensures Placed(base, [first, second])
         == [first.(pattern := Step(base, first)), second.(pattern := Step(base, second))]
  {
    var hs := [first, second];
    var s1 := Step(base, first);
    assert hs[..1] == [first] && hs[..1][..0] == [];
    assert Running(base, hs[..1]) == s1;
    assert Running(base, hs) == Step(s1, second);
    assert Stacked(base, hs[..1]) == [first.(pattern := s1)];
  }

  /** Two handlers whose steps are known. */
  lemma StackedPair(base: string, first: Handler, second: Handler, once: string, twice: string)
    requires Step(base, first) == once && Step(base, second) == once && Step(once, second) == twice
    ensures Stacked(base, [first, second]) == [first.(pattern := once), second.(pattern := twice)]
    ensures Placed(base, [first, second]) == [first.(pattern := once), second.(pattern := once)]
  {
    PairShape(base, first, second);
  }

  /** Two handlers with the same plain pattern `g` in a folder `base`: the
      loop as written serves the first at `base/g/` and the second at
      `base/g/g/`; placed on their own both are at `base/g/`. */
  lemma StackedTwice(base: string, first: Handler, second: Handler)
    requires base != "" && base != "/" && base[|base| - 1] != '/'
    requires first.pattern == second.pattern
    requires var g := first.pattern; g != "" && g[0] != '/' && g[|g| - 1] != '/'
    ensures var once := base + "/" + first.pattern + "/";
      && Stacked(base, [first, second]) == [first.(pattern := once), second.(pattern := once + first.pattern + "/")]
      && Placed(base, [first, second]) == [first.(pattern := once), second.(pattern := once)]
  {
    StepTwice(base, first, second);
    var once := base + "/" + first.pattern + "/";
    StackedPair(base, first, second, once, once + first.pattern + "/");
  }

  /** A module in `routes/blog/` that exports `get`, `post` and
      `pattern = 'x'`: `importModule` gives both handlers the pattern `x`,
      so by `StackedTwice` the loop as written serves its GET at
      `/blog/x/` and its POST at `/blog/x/x/`. */
  lemma BlogHandlers()
    ensures Handlers("/app/routes/blog/mod.ts", RenderModule(NoDefault, true, true, Some("x"), false, false), "")
         == [Handler("x", "GET", CallGet), Handler("x", "POST", CallPost)]
  {
  }

  // ---------------------------------------------------------------------
  // The loop over one module's handlers, corrected: every handler is
  // placed at the folder's pattern

  /** Each handler at its own step from the folder's pattern. */
  function Placed(base: string, hs: seq<Handler>): (out: seq<Handler>)
    ensures |out| == |hs|
    decreases |hs|
  {
    if hs == [] then []
    else Placed(base, hs[..|hs| - 1]) + [hs[|hs| - 1].(pattern := Step(base, hs[|hs| - 1]))]
  }

  /** The `k`-th placed handler is the `k`-th handler, unchanged but for
      its pattern, which ends with `/`. */
  lemma {:induction false} PlacedAt(base: string, hs: seq<Handler>, k: nat)
    requires k < |hs|
    ensures Placed(base, hs)[k] == hs[k].(pattern := Step(base, hs[k]))
    ensures EndsWith(Placed(base, hs)[k].pattern, "/")
    decreases |hs|
  {
    if k < |hs| - 1 {
      PlacedAt(base, hs[..|hs| - 1], k);
    }
  }

  /** Handlers that share a pattern, as `importModule` gives them, are
      placed at one pattern. */
  lemma PlacedShared(base: string, hs: seq<Handler>, i: nat, j: nat)
    requires i < |hs| && j < |hs| && hs[i].pattern == hs[j].pattern
    ensures Placed(base, hs)[i].pattern == Placed(base, hs)[j].pattern
  {
    PlacedAt(base, hs, i);
    PlacedAt(base, hs, j);
  }

  /** Every handler of a module from `importModule` ends up at the same
      pattern. */
  lemma ModulePlacedTogether(base: string, abspath: string, mod: RenderModule, bundleDom: string, i: nat, j: nat)
    requires i < |Handlers(abspath, mod, bundleDom)| && j < |Handlers(abspath, mod, bundleDom)|
    ensures Placed(base, Handlers(abspath, mod, bundleDom))[i].pattern
         == Placed(base, Handlers(abspath, mod, bundleDom))[j].pattern
  {
    HandlersMeaning(abspath, mod, bundleDom);
    PlacedShared(base, Handlers(abspath, mod, bundleDom), i, j);
  }

  /** A placed handler is a handler of the module, at its step. */
  lemma {:induction false} PlacedMember(base: string, hs: seq<Handler>, x: Handler)
    ensures x in Placed(base, hs) <==> exists h :: h in hs && x == h.(pattern := Step(base, h))
    decreases |hs|
  {
    if hs != [] {
      var init := hs[..|hs| - 1];
      PlacedMember(base, init, x);
      assert hs == init + [hs[|hs| - 1]];
    }
  }

  /** Ensuring a trailing `/` twice is ensuring it once. */
  lemma EnsureSlashTwice(p: string)
    ensures EnsureSlash(EnsureSlash(p)) == EnsureSlash(p)
  {
    var q := EnsureSlash(p);
    assert q[|q| - 1..] == "/";
  }

  /** Without handler patterns the running pattern stays the folder's, so
      the loop as written agrees with the corrected one. */
  lemma {:induction false} StackedAgrees(base: string, hs: seq<Handler>)
    requires forall k | 0 <= k < |hs| :: hs[k].pattern == ""
    ensures Stacked(base, hs) == Placed(base, hs)
    ensures hs != [] ==> Running(base, hs) == EnsureSlash(base)
    decreases |hs|
  {
    if hs != [] {
      var init, h := hs[..|hs| - 1], hs[|hs| - 1];
      StackedAgrees(base, init);
      assert h.pattern == "";
      assert Step(base, h) == EnsureSlash(base);
      if init != [] {
        EnsureSlashTwice(base);
        assert Step(Running(base, init), h) == EnsureSlash(base);
      }
      assert Running(base, hs) == EnsureSlash(base);
      assert Stacked(base, hs) == Stacked(base, init) + [h.(pattern := Running(base, hs))];
      assert Placed(base, hs) == Placed(base, init) + [h.(pattern := Step(base, h))];
    }
  }

  /** The step of a plain handler pattern from a folder pattern without a
      trailing `/`: one separator between them and one after. */
  lemma StepSegment(a: string, h: Handler)
    requires a != "" && (a == "/" || a[|a| - 1] != '/')
    requires h.pattern != "" && h.pattern[0] != '/' && h.pattern[|h.pattern| - 1] != '/'
    ensures Step(a, h) == (if a == "/" then "" else a) + "/" + h.pattern + "/"
  {
    assert Paths.TrimTrailingSlashes(a) == a;
    assert Paths.TrimLeadingSlashes(h.pattern) == h.pattern;
    var j := (if a == "/" then "" else a) + "/" + h.pattern;
    assert j[|j| - 1] == h.pattern[|h.pattern| - 1];
  }

  /** The step of a plain handler pattern from a pattern that ends with one
      `/`: the handler's pattern and a `/` appended. */
  lemma StepAfterSlash(a: string, h: Handler)
    requires |a| >= 2 && a[|a| - 1] == '/' && a[|a| - 2] != '/'
    requires h.pattern != "" && h.pattern[0] != '/' && h.pattern[|h.pattern| - 1] != '/'
    ensures Step(a, h) == a + h.pattern + "/"
  {
    var d := a[..|a| - 1];
    assert Paths.TrimTrailingSlashes(d) == d;
    assert Paths.TrimTrailingSlashes(a) == d;
    assert d != "/";
    assert Paths.TrimLeadingSlashes(h.pattern) == h.pattern;
    assert d + "/" == a;
    var j := a + h.pattern;
    assert j[|j| - 1] == h.pattern[|h.pattern| - 1];
  }

  /** The folder pattern of a route file under well-formed folders: a `/`,
      then the folders with groups dropped and `[p]` written `:p`, without
      the last `/`. */
  lemma BaseOfFolders(segs: seq<Segment>, name: string)
    requires ValidSegments(segs)
    requires name != "" && NoChar(name, '/') && NoChar(name, '(')
    ensures var f := "/" + FolderPattern(segs);
      BasePattern(RelPath(segs, name)) == if f == "/" then "/" else f[..|f| - 1]
  {
    RewriteFolders(segs, name);
    RootedFolders(segs);
    NamedParamsName(name);
    Paths.DirnameOf("/" + FolderPattern(segs), NamedParams(name));
  }

  /** The step of a handler from a folder pattern `f` (a `/`, or a rooted
      path ending with exactly one `/`) given without its last `/`. */
  lemma StepFromFolder(f: string, h: Handler)
    requires f == "/" || (|f| >= 2 && f[|f| - 1] == '/' && f[|f| - 2] != '/')
    requires h.pattern == "" || (h.pattern[0] != '/' && h.pattern[|h.pattern| - 1] != '/')
    ensures Step(if f == "/" then "/" else f[..|f| - 1], h) == f + (if h.pattern == "" then "" else h.pattern + "/")
  {
    var base := if f == "/" then "/" else f[..|f| - 1];
    if f != "/" {
      assert base + "/" == f;
      assert base[|base| - 1] == f[|f| - 2];
    }
    if h.pattern == "" {
      assert f + "" == f;
    } else {
      StepSegment(base, h);
    }
  }

  /** The pattern a handler of a route file gets: the folder pattern as the
      newer generators derive it, then the handler's own plain pattern and
      a `/` when it has one. */
  lemma PatternOfFolders(segs: seq<Segment>, name: string, h: Handler)
    requires ValidSegments(segs)
    requires name != "" && NoChar(name, '/') && NoChar(name, '(')
    requires h.pattern == "" || (h.pattern[0] != '/' && h.pattern[|h.pattern| - 1] != '/')
    ensures Step(BasePattern(RelPath(segs, name)), h) == "/" + FolderPattern(segs) + (if h.pattern == "" then "" else h.pattern + "/")
  {
    BaseOfFolders(segs, name);
    RootedFolders(segs);
    StepFromFolder("/" + FolderPattern(segs), h);
  }

  // ---------------------------------------------------------------------
  // generate

  /** The handlers of the route files `paths`, corrected. */
  function AllPlaced(dir: string, relative: (string, string) -> string, importModule: string -> seq<Handler>,
                     paths: seq<string>): seq<Handler>
  {
    Concat(paths, p => Placed(BasePattern(relative(dir, p)), importModule(p)))
  }

  /** The handlers of the route files `paths`, as written. */
  function AllStacked(dir: string, relative: (string, string) -> string, importModule: string -> seq<Handler>,
                      paths: seq<string>): seq<Handler>
  {
    Concat(paths, p => Stacked(BasePattern(relative(dir, p)), importModule(p)))
  }

  /** One more route file appends its handlers, placed at its folder. */
  lemma AllPlacedNext(dir: string, relative: (string, string) -> string, importModule: string -> seq<Handler>,
                      paths: seq<string>, i: nat)
    requires i < |paths|
    ensures AllPlaced(dir, relative, importModule, paths[..i + 1])
      == AllPlaced(dir, relative, importModule, paths[..i]) + Placed(BasePattern(relative(dir, paths[i])), importModule(paths[i]))
  {
    assert paths[..i + 1][..i] == paths[..i];
  }

  /** One more route file appends its handlers, stacked from its folder. */
  lemma AllStackedNext(dir: string, relative: (string, string) -> string, importModule: string -> seq<Handler>,
                       paths: seq<string>, i: nat)
    requires i < |paths|
    ensures AllStacked(dir, relative, importModule, paths[..i + 1])
      == AllStacked(dir, relative, importModule, paths[..i]) + Stacked(BasePattern(relative(dir, paths[i])), importModule(paths[i]))
  {
    assert paths[..i + 1][..i] == paths[..i];
  }

  /** The folder pattern of a route file, step by step as `generate`
      reassigns it. */
  method DeriveBase(rel: string) returns (base: string)
    ensures base == BasePattern(rel)
  {
    base := "/" + rel;
    base := RemoveGroups(base);
    base := NamedParams(base);
    base := Paths.Dirname(base);
  }

  /** `generate(dir)`, corrected. */
  function Generated(dir: string, tree: seq<Entry>, relative: (string, string) -> string,
                     importModule: string -> seq<Handler>): Result<seq<Handler>, TraverseError>
  {
    var paths := Collect(dir, tree, 0, ModFile);
    if paths.Err? then Err(paths.error) else Ok(AllPlaced(dir, relative, importModule, paths.value))
  }

  /** `generate(dir)`, as written. */
  function GeneratedAsWritten(dir: string, tree: seq<Entry>, relative: (string, string) -> string,
                              importModule: string -> seq<Handler>): Result<seq<Handler>, TraverseError>
  {
    var paths := Collect(dir, tree, 0, ModFile);
    if paths.Err? then Err(paths.error) else Ok(AllStacked(dir, relative, importModule, paths.value))
  }

  /** While no handler brings its own pattern, the route files' handlers
      as written are the corrected ones. */
  lemma {:induction false} AllStackedAgrees(dir: string, relative: (string, string) -> string,
                                            importModule: string -> seq<Handler>, paths: seq<string>)
    requires forall p, k | p in paths && 0 <= k < |importModule(p)| :: importModule(p)[k].pattern == ""
    ensures AllStacked(dir, relative, importModule, paths) == AllPlaced(dir, relative, importModule, paths)
    decreases |paths|
  {
    if paths != [] {
      var init := paths[..|paths| - 1];
      var last := paths[|paths| - 1];
      AllStackedAgrees(dir, relative, importModule, init);
      StackedAgrees(BasePattern(relative(dir, last)), importModule(last));
    }
  }

  /** So `generate` as written differs from the corrected one only for
      modules whose handlers bring a pattern. */
  lemma GeneratedAgrees(dir: string, tree: seq<Entry>, relative: (string, string) -> string,
                        importModule: string -> seq<Handler>)
    requires forall p, k | 0 <= k < |importModule(p)| :: importModule(p)[k].pattern == ""
    ensures GeneratedAsWritten(dir, tree, relative, importModule) == Generated(dir, tree, relative, importModule)
  {
    var paths := Collect(dir, tree, 0, ModFile);
    if paths.Ok? {
      AllStackedAgrees(dir, relative, importModule, paths.value);
    }
  }

  /** The inner loop of `generate` as written: `pattern` is carried from
      one handler to the next. */
  method StackHandlers(base: string, newHandlers: seq<Handler>) returns (handlers: seq<Handler>)
    ensures handlers == Stacked(base, newHandlers)
  {
    var pattern := base;
    handlers := [];
    for j := 0 to |newHandlers|
      invariant handlers == Stacked(base, newHandlers[..j])
      invariant pattern == Running(base, newHandlers[..j])
    {
      StackedNext(base, newHandlers, j);
      pattern := NextPattern(pattern, newHandlers[j]);
      handlers := handlers + [newHandlers[j].(pattern := pattern)];
    }
    assert newHandlers[..|newHandlers|] == newHandlers;
  }

  /** One more handler of the loop as written. */
  lemma StackedNext(base: string, hs: seq<Handler>, j: nat)
    requires j < |hs|
    ensures Running(base, hs[..j + 1]) == Step(Running(base, hs[..j]), hs[j])
    ensures Stacked(base, hs[..j + 1]) == Stacked(base, hs[..j]) + [hs[j].(pattern := Running(base, hs[..j + 1]))]
  {
    assert hs[..j + 1][..j] == hs[..j];
  }

  /** One more handler of the corrected loop. */
  lemma PlacedNext(base: string, hs: seq<Handler>, j: nat)
    requires j < |hs|
    ensures Placed(base, hs[..j + 1]) == Placed(base, hs[..j]) + [hs[j].(pattern := Step(base, hs[j]))]
  {
    assert hs[..j + 1][..j] == hs[..j];
  }

  /** The loop body's pattern update: the handler's own pattern joined on
      when it has one, then a trailing `/` ensured. */
  method NextPattern(pattern: string, handler: Handler) returns (next: string)
    ensures next == Step(pattern, handler)
  {
    next := pattern;
    if |handler.pattern| > 0 {
      next := Paths.Join(pattern, handler.pattern);
    }
    if next == "" || next[|next| - 1] != '/' {
      next := next + "/";
    }
  }

  /** The inner loop of `generate`, corrected: every handler starts from
      the folder's pattern. */
  method PlaceHandlers(base: string, newHandlers: seq<Handler>) returns (handlers: seq<Handler>)
    ensures handlers == Placed(base, newHandlers)
  {
    handlers := [];
    for j := 0 to |newHandlers|
      invariant handlers == Placed(base, newHandlers[..j])
    {
      PlacedNext(base, newHandlers, j);
      var pattern := NextPattern(base, newHandlers[j]);
      handlers := handlers + [newHandlers[j].(pattern := pattern)];
    }
    assert newHandlers[..|newHandlers|] == newHandlers;
  }

  /** The loop of `generate` as written, `pattern` carried across the
      handlers of a module. */
  method GenerateAsWritten(dir: string, tree: seq<Entry>, relative: (string, string) -> string,
                           importModule: string -> seq<Handler>) returns (r: Result<seq<Handler>, TraverseError>)
    ensures r == GeneratedAsWritten(dir, tree, relative, importModule)
  {
    var walked := CollectFiles(dir, tree, 0, ModFile);
    if walked.Err? {
      return Err(walked.error);
    }
    var paths := walked.value;
    var handlers: seq<Handler> := [];
    for i := 0 to |paths|
      invariant handlers == AllStacked(dir, relative, importModule, paths[..i])
    {
      AllStackedNext(dir, relative, importModule, paths, i);
      var abspath := paths[i];
      var base := DeriveBase(relative(dir, abspath));
      var newHandlers := importModule(abspath);
      if |newHandlers| == 0 {
        continue;
      }
      var stacked := StackHandlers(base, newHandlers);
      handlers := handlers + stacked;
    }
    assert paths[..|paths|] == paths;
    return Ok(handlers);
  }

  /** The loop of `generate`, each handler placed at the folder's
      pattern. */
  method Generate(dir: string, tree: seq<Entry>, relative: (string, string) -> string,
                  importModule: string -> seq<Handler>) returns (r: Result<seq<Handler>, TraverseError>)
    ensures r == Generated(dir, tree, relative, importModule)
  {
    var walked := CollectFiles(dir, tree, 0, ModFile);
    if walked.Err? {
      return Err(walked.error);
    }
    var paths := walked.value;
    var handlers: seq<Handler> := [];
    for i := 0 to |paths|
      invariant handlers == AllPlaced(dir, relative, importModule, paths[..i])
    {
      AllPlacedNext(dir, relative, importModule, paths, i);
      var abspath := paths[i];
      var base := DeriveBase(relative(dir, abspath));
      var newHandlers := importModule(abspath);
      if |newHandlers| == 0 {
        continue;
      }
      var placed := PlaceHandlers(base, newHandlers);
      handlers := handlers + placed;
    }
    assert paths[..|paths|] == paths;
    return Ok(handlers);
  }

  /** Every generated handler is a handler of a `mod` file of the listing,
      placed at its step from that file's folder pattern, and every such
      handler is generated; every generated pattern ends with `/`. */
  lemma GeneratedMember(dir: string, tree: seq<Entry>, relative: (string, string) -> string,
                        importModule: string -> seq<Handler>, x: Handler)
    requires Generated(dir, tree, relative, importModule).Ok?
    ensures x in Generated(dir, tree, relative, importModule).value <==>
      exists p, h :: Listed(dir, tree, p, ModFile) && h in importModule(p)
        && x == h.(pattern := Step(BasePattern(relative(dir, p)), h))
    ensures x in Generated(dir, tree, relative, importModule).value ==> EndsWith(x.pattern, "/")
  {
    var paths := Collect(dir, tree, 0, ModFile).value;
    var mk := p => Placed(BasePattern(relative(dir, p)), importModule(p));
    ConcatMember(paths, mk, x);
    forall p ensures p in paths <==> Listed(dir, tree, p, ModFile) {
      CollectListed(dir, tree, 0, ModFile, p);
    }
    forall p ensures x in mk(p) <==> exists h :: h in importModule(p) && x == h.(pattern := Step(BasePattern(relative(dir, p)), h)) {
      PlacedMember(BasePattern(relative(dir, p)), importModule(p), x);
    }
  }

  // ---------------------------------------------------------------------
  // addRoutes

  /** What `addRoutes` registers on the router, in order: each handler with
      the template, and the redirects `redirect` adds after GET handlers. */
  datatype Registered = Handle(handler: Handler, template: string) | SlashRedirect(from: string, to: string)

  /** `redirect(router, handler)`: nothing for `/` or a pattern without a
      trailing `/`; otherwise a redirect from the pattern without it. */
  predicate GetsRedirect(h: Handler) {
    h.verb == "GET" && h.pattern != "/" && EndsWith(h.pattern, "/")
  }

  function Registrations(hs: seq<Handler>, template: string): seq<Registered>
    decreases |hs|
  {
    if hs == [] then []
    else
      var h := hs[|hs| - 1];
      Registrations(hs[..|hs| - 1], template) + [Handle(h, template)]
        + (if GetsRedirect(h) then [SlashRedirect(h.pattern[..|h.pattern| - 1], h.pattern)] else [])
  }

  /** Every handler is registered with the template, and a redirect is
      registered exactly for a GET handler whose pattern ends with `/` and
      is not `/`, from that pattern without its last `/`. */
  lemma {:induction false} RegistrationsMeaning(hs: seq<Handler>, template: string, r: Registered)
    ensures r in Registrations(hs, template) <==>
      exists h :: h in hs &&
        (r == Handle(h, template) || (GetsRedirect(h) && r == SlashRedirect(h.pattern[..|h.pattern| - 1], h.pattern)))
    decreases |hs|
  {
    if hs != [] {
      var init := hs[..|hs| - 1];
      RegistrationsMeaning(init, template, r);
      assert hs == init + [hs[|hs| - 1]];
    }
  }

  /** The answer of the redirect handler: 308 to the same URL with `/`
      appended to its path. */
  function AppendSlash(u: Url): (a: Answer)
    ensures a.Redirect? && a.status == PermanentRedirect
  {
    Redirect(PermanentRedirect, Href(Url(u.origin, u.pathname + "/", u.tail)))
  }

  /** Following a registered redirect leads to the pattern it was
      registered for. */
  lemma RedirectLeadsHome(hs: seq<Handler>, template: string, from: string, to: string, origin: string, tail: string)
    requires SlashRedirect(from, to) in Registrations(hs, template)
    ensures to != "/" && from + "/" == to
    ensures AppendSlash(Url(origin, from, tail)) == Redirect(PermanentRedirect, origin + to + tail)
  {
    RegistrationsMeaning(hs, template, SlashRedirect(from, to));
    assert to[..|to| - 1] + "/" == to;
  }

  /** A custom error page: no `_500.svelte`/`_404.svelte` file, its first
      handler, or a file with no handler (whose `handler[0]` is undefined,
      so the page fails when used). */
  datatype CustomPage = NoPage | PageOf(handler: Handler) | NoHandler

  function PageFor(present: bool, hs: seq<Handler>): (p: CustomPage)
    ensures p.NoPage? <==> !present
    ensures p.PageOf? <==> present && hs != []
    ensures p.PageOf? ==> p.handler == hs[0]
  {
    if !present then NoPage else if hs == [] then NoHandler else PageOf(hs[0])
  }

  /** The routes of a folder: the registrations and the two pages. */
  datatype Routes = Routes(registered: seq<Registered>, error: CustomPage, noMatch: CustomPage)

  /** `addRoutes` for the routes folder `routesDir`, whose listing is
      `tree` when it exists; `present` tells which files exist. */
  function AddedRoutes(routesDir: string, tree: Option<seq<Entry>>, present: string -> bool,
                       relative: (string, string) -> string, importModule: string -> seq<Handler>,
                       template: string): Result<Routes, TraverseError>
  {
    if tree.None? then Ok(Routes([], NoPage, NoPage))
    else
      var g := Generated(routesDir, tree.value, relative, importModule);
      if g.Err? then Err(g.error)
      else
        var errorPath := Paths.Join(routesDir, "_500.svelte");
        var nomatchPath := Paths.Join(routesDir, "_404.svelte");
        Ok(Routes(Registrations(g.value, template),
                  PageFor(present(errorPath), importModule(errorPath)),
                  PageFor(present(nomatchPath), importModule(nomatchPath))))
  }

  /** The registration loop of `addRoutes`. */
  method RegisterAll(hs: seq<Handler>, template: string) returns (regs: seq<Registered>)
    ensures regs == Registrations(hs, template)
  {
    regs := [];
    for i := 0 to |hs|
      invariant regs == Registrations(hs[..i], template)
    {
      assert hs[..i + 1][..i] == hs[..i];
      var handler := hs[i];
      regs := regs + [Handle(handler, template)];
      if handler.verb == "GET" {
        if handler.pattern == "/" {
          continue;
        }
        if handler.pattern == "" || handler.pattern[|handler.pattern| - 1] != '/' {
          continue;
        }
        regs := regs + [SlashRedirect(handler.pattern[..|handler.pattern| - 1], handler.pattern)];
      }
    }
    assert hs[..|hs|] == hs;
  }

  /** `addRoutes`: nothing without a routes folder; otherwise the generated
      handlers registered in order, then the two custom pages. */
  method AddRoutes(routesDir: string, tree: Option<seq<Entry>>, present: string -> bool,
                   relative: (string, string) -> string, importModule: string -> seq<Handler>,
                   template: string) returns (r: Result<Routes, TraverseError>)
    ensures r == AddedRoutes(routesDir, tree, present, relative, importModule, template)
  {
    if tree.None? {
      return Ok(Routes([], NoPage, NoPage));
    }
    var g := Generate(routesDir, tree.value, relative, importModule);
    if g.Err? {
      return Err(g.error);
    }
    var regs := RegisterAll(g.value, template);
    var error := NoPage;
    var errorPath := Paths.Join(routesDir, "_500.svelte");
    if present(errorPath) {
      var handler := importModule(errorPath);
      error := if handler == [] then NoHandler else PageOf(handler[0]);
    }
    var noMatch := NoPage;
    var nomatchPath := Paths.Join(routesDir, "_404.svelte");
    if present(nomatchPath) {
      var handler := importModule(nomatchPath);
      noMatch := if handler == [] then NoHandler else PageOf(handler[0]);
    }
    return Ok(Routes(regs, error, noMatch));
  }

  /** Registered handlers keep their patterns, and every redirect is from
      a pattern without its last `/`. */
  lemma RegisteredShape(hs: seq<Handler>, template: string, x: Registered)
    requires x in Registrations(hs, template)
    requires forall h | h in hs :: EndsWith(h.pattern, "/")
    ensures x.Handle? ==> EndsWith(x.handler.pattern, "/") && x.template == template
    ensures x.SlashRedirect? ==> x.to != "/" && x.from + "/" == x.to
  {
    RegistrationsMeaning(hs, template, x);
    var h :| h in hs && (x == Handle(h, template) || (GetsRedirect(h) && x == SlashRedirect(h.pattern[..|h.pattern| - 1], h.pattern)));
    if x.SlashRedirect? {
      assert x.to[..|x.to| - 1] + "/" == x.to;
    }
  }

  /** Every registered handler is served at a pattern ending with `/`, and
      every redirect is from that pattern without it. */
  lemma AddedRoutesShape(routesDir: string, tree: Option<seq<Entry>>, present: string -> bool,
                         relative: (string, string) -> string, importModule: string -> seq<Handler>,
                         template: string, x: Registered)
    requires AddedRoutes(routesDir, tree, present, relative, importModule, template).Ok?
    requires x in AddedRoutes(routesDir, tree, present, relative, importModule, template).value.registered
    ensures x.Handle? ==> EndsWith(x.handler.pattern, "/") && x.template == template
    ensures x.SlashRedirect? ==> x.to != "/" && x.from + "/" == x.to
  {
    var g := Generated(routesDir, tree.value, relative, importModule).value;
    assert x in Registrations(g, template);
    forall h | h in g
      ensures EndsWith(h.pattern, "/")
    {
      GeneratedMember(routesDir, tree.value, relative, importModule, h);
    }
    RegisteredShape(g, template, x);
  }

  // ---------------------------------------------------------------------
  // createHandle and the custom pages

  const BodyMarker := "%BODY%"
  const HeadMarker := "%HEAD%"

  /** `render.head || ''`. */
  function HeadText(head: Option<string>): string {
    if head.Some? then head.value else ""
  }

  /** The ECMAScript `GetSubstitution` of a string replacement for a search
      string (no capture groups): `$$` is `$`, `$&` the match, `` $` `` the
      text before it, `$'` the text after it; any other `$` stays. */
  function Substitution(rep: string, matched: string, before: string, after: string): string
    decreases |rep|
  {
    if |rep| < 2 || rep[0] != '$' then
      if rep == [] then [] else [rep[0]] + Substitution(rep[1..], matched, before, after)
    else if rep[1] == '$' then "$" + Substitution(rep[2..], matched, before, after)
    else if rep[1] == '&' then matched + Substitution(rep[2..], matched, before, after)
    else if rep[1] == '`' then before + Substitution(rep[2..], matched, before, after)
    else if rep[1] == '\'' then after + Substitution(rep[2..], matched, before, after)
    else "$" + Substitution(rep[1..], matched, before, after)
  }

  /** The native `s.replace(p, rep)` with a string `p`. */
  function NativeReplace(s: string, p: string, rep: string): string
    requires p != ""
  {
    var i := IndexOf(s, p, 0);
    if i < 0 then s else s[..i] + Substitution(rep, p, s[..i], s[i + |p|..]) + s[i + |p|..]
  }

  /** A replacement without `$` goes in literally. */
  lemma {:induction false} SubstitutionPlain(rep: string, matched: string, before: string, after: string)
    requires NoChar(rep, '$')
    ensures Substitution(rep, matched, before, after) == rep
    decreases |rep|
  {
    if rep != [] {
      assert rep[0] != '$';
      SubstitutionPlain(rep[1..], matched, before, after);
      assert rep == [rep[0]] + rep[1..];
    }
  }

  /** So without `$` the native replacement is the literal one. */
  lemma NativeReplacePlain(s: string, p: string, rep: string)
    requires p != "" && NoChar(rep, '$')
    ensures NativeReplace(s, p, rep) == ReplaceFirst(s, p, rep)
  {
    var i := IndexOf(s, p, 0);
    if i >= 0 {
      SubstitutionPlain(rep, p, s[..i], s[i + |p|..]);
    }
  }

  /** The page body as `createHandle` writes it: the native `replace` of
      `%BODY%` by the rendered text, then of `%HEAD%`. */
  function WrapAsWritten(template: string, text: string, head: Option<string>): string {
    NativeReplace(NativeReplace(template, BodyMarker, text), HeadMarker, HeadText(head))
  }

  /** The page body with both texts inserted literally, as the `replace`
      helper of `src/utils.ts` does. */
  function Wrap(template: string, text: string, head: Option<string>): string {
    Utils.Replace(Utils.Replace(template, BodyMarker, text, false), HeadMarker, HeadText(head), false)
  }

  /** A rendered page whose text is `$&` comes out as the marker itself
      when written with the native `replace`. */
  lemma WrapAsWrittenExpands()
    ensures WrapAsWritten("%BODY%", "$&", None) == "%BODY%"
    ensures Wrap("%BODY%", "$&", None) == "$&"
  {
    assert OccursAt("%BODY%", BodyMarker, 0);
    assert IndexOf("%BODY%", BodyMarker, 0) == 0;
    assert Substitution("$&", BodyMarker, "", "") == "%BODY%";
    assert IndexOf("%BODY%", HeadMarker, 0) == -1;
    Utils.ReplaceOnce("%BODY%", BodyMarker, "$&");
    assert IndexOf("$&", HeadMarker, 0) == -1;
    Utils.ReplaceOnce("$&", HeadMarker, "");
  }

  /** The first occurrence of a marker, found by what precedes it. */
  lemma FirstAt(s: string, p: string, k: nat)
    requires p != "" && OccursAt(s, p, k)
    requires forall j: nat | j < k :: !OccursAt(s, p, j)
    ensures IndexOf(s, p, 0) == k
  {
  }

  /** A text does not occur where one of its characters differs. */
  lemma NotOccurs(s: string, p: string, j: nat, n: nat)
    requires n < |p| && j + n < |s| && s[j + n] != p[n]
    ensures !OccursAt(s, p, j)
  {
    if j + |p| <= |s| {
      assert s[j..j + |p|][n] == s[j + n];
    }
  }

  /** The first `%BODY%` of such a template is the one after `b`. */
  lemma BodyFirst(a: string, b: string, c: string)
    requires NoChar(a, '%') && NoChar(b, '%') && !StartsWith(b, "B")
    ensures IndexOf(a + HeadMarker + b + BodyMarker + c, BodyMarker, 0) == |a| + 6 + |b|
  {
    var t := a + HeadMarker + b + BodyMarker + c;
    var k := |a| + 6 + |b|;
    assert t[k..k + 6] == BodyMarker;
    forall j: nat | j < k
      ensures !OccursAt(t, BodyMarker, j)
    {
      if j < |a| {
        assert t[j] == a[j];
        NotOccurs(t, BodyMarker, j, 0);
      } else if j < |a| + 5 {
        assert t[j + 1] == HeadMarker[j + 1 - |a|];
        NotOccurs(t, BodyMarker, j, 1);
      } else if j == |a| + 5 {
        if b == "" {
          assert t[j + 1] == '%';
        } else {
          assert t[j + 1] == b[0];
          assert b[..1] != "B";
        }
        NotOccurs(t, BodyMarker, j, 1);
      } else {
        assert t[j] == b[j - |a| - 6];
        NotOccurs(t, BodyMarker, j, 0);
      }
    }
    FirstAt(t, BodyMarker, k);
  }

  /** The first `%HEAD%` after a text without `%` is right after it. */
  lemma HeadFirst(a: string, rest: string)
    requires NoChar(a, '%')
    ensures IndexOf(a + HeadMarker + rest, HeadMarker, 0) == |a|
  {
    var u := a + HeadMarker + rest;
    assert u[|a|..|a| + 6] == HeadMarker;
    forall j: nat | j < |a|
      ensures !OccursAt(u, HeadMarker, j)
    {
      assert u[j] == a[j];
      NotOccurs(u, HeadMarker, j, 0);
    }
    FirstAt(u, HeadMarker, |a|);
  }

  /** A template with `%HEAD%` and then `%BODY%`, with no `%` before the
      latter and nothing that reads `BODY` right after the former, becomes
      the template with the head text and the rendered text in their
      places, both as they are, whatever they hold. */
  lemma WrapPage(a: string, b: string, c: string, text: string, head: Option<string>)
    requires NoChar(a, '%') && NoChar(b, '%') && !StartsWith(b, "B")
    ensures Wrap(a + HeadMarker + b + BodyMarker + c, text, head) == a + HeadText(head) + b + text + c
  {
    var t := a + HeadMarker + b + BodyMarker + c;
    var k := |a| + 6 + |b|;
    BodyFirst(a, b, c);
    Utils.ReplaceOnce(t, BodyMarker, text);
    var rest := b + text + c;
    var ah := a + HeadMarker;
    var u := ah + rest;
    assert ReplaceFirst(t, BodyMarker, text) == u by {
      SplitAround(ah + b, BodyMarker, c);
      assert ReplaceFirst(t, BodyMarker, text) == (ah + b) + text + c;
      Assoc(ah, b, text);
      Assoc(ah, b + text, c);
    }
    HeadFirst(a, rest);
    Utils.ReplaceOnce(u, HeadMarker, HeadText(head));
    var at := a + HeadText(head);
    assert ReplaceFirst(u, HeadMarker, HeadText(head)) == at + rest by {
      SplitAround(a, HeadMarker, rest);
    }
    Assoc(at, b + text, c);
    Assoc(at, b, text);
  }

  /** `createHandle(handler, template)` on a rendered response with text
      `text`: a GET response that wants a template (`wrap`) becomes the
      wrapped page, served as HTML; any other response is passed on
      unchanged, shown as `None`. */
  function Respond(h: Handler, template: string, wrap: bool, text: string, head: Option<string>): (r: Option<string>)
    ensures r.Some? <==> h.verb == "GET" && wrap
    ensures h.verb != "GET" ==> r.None?
  {
    if h.verb == "GET" && wrap then Some(Wrap(template, text, head)) else None
  }

  /** `createHandle` as written, with the native `replace`. */
  function RespondAsWritten(h: Handler, template: string, wrap: bool, text: string, head: Option<string>): (r: Option<string>)
    ensures r.Some? <==> h.verb == "GET" && wrap
  {
    if h.verb == "GET" && wrap then Some(WrapAsWritten(template, text, head)) else None
  }

  /** Both give the same page when neither the rendered text nor the head
      holds a `$`. */
  lemma RespondAgrees(h: Handler, template: string, wrap: bool, text: string, head: Option<string>)
    requires NoChar(text, '$') && NoChar(HeadText(head), '$')
    ensures RespondAsWritten(h, template, wrap, text, head) == Respond(h, template, wrap, text, head)
  {
    var body := NativeReplace(template, BodyMarker, text);
    NativeReplacePlain(template, BodyMarker, text);
    Utils.ReplaceOnce(template, BodyMarker, text);
    NativeReplacePlain(body, HeadMarker, HeadText(head));
    Utils.ReplaceOnce(body, HeadMarker, HeadText(head));
  }

  /** A GET page whose text is `$&` is answered with the marker itself as
      written, and with `$&` when the text goes in literally. */
  lemma RespondAsWrittenDiffers(h: Handler)
    requires h.verb == "GET"
    ensures RespondAsWritten(h, "%BODY%", true, "$&", None) == Some("%BODY%")
    ensures Respond(h, "%BODY%", true, "$&", None) == Some("$&")
  {
    WrapAsWrittenExpands();
  }

  /** What `hasTemplate` reads: the response's `server` and `content-type`
      headers and the request's path. */
  datatype Served = Served(server: Option<string>, contentType: Option<string>, pathname: string)

  /** The error reading a header of the undefined `response` throws. */
  const UndefinedHeaders := "TypeError: response is undefined"

  /** `createHandle` as written: `hasTemplate(response)` binds the response
      to the parameter `request` and leaves `response` undefined, so a GET
      handler's answer throws when `hasTemplate` reads `response.headers`;
      other methods do not call it and pass their response on. */
  function CreateHandleAsWritten(h: Handler): (r: Result<Option<string>, string>)
    ensures r.Err? <==> h.verb == "GET"
    ensures r.Ok? ==> r.value.None?
  {
    if h.verb == "GET" then Err(UndefinedHeaders) else Ok(None)
  }

  /** `createHandle` with `hasTemplate(request, response)` called as
      `src/template.ts` declares it, and the rendered text inserted
      literally. */
  function CreateHandle(h: Handler, template: string, served: Served, text: string, head: Option<string>): (r: Option<string>)
    ensures h.verb != "GET" ==> r.None?
  {
    Respond(h, template, Template.HasTemplate(served.server, served.contentType, served.pathname), text, head)
  }

  /** As written, no handler ever answers with a page: every GET handler
      throws, whatever its response. */
  lemma CreateHandleAsWrittenNoPage(h: Handler, template: string, served: Served, text: string, head: Option<string>)
    ensures !(CreateHandleAsWritten(h).Ok? && CreateHandleAsWritten(h).value.Some?)
    ensures h.verb == "GET" ==> CreateHandleAsWritten(h) == Err(UndefinedHeaders)
    ensures h.verb == "GET" && Template.HasTemplate(served.server, served.contentType, served.pathname) ==>
      CreateHandleAsWritten(h).Err? && CreateHandle(h, template, served, text, head).Some?
  {
  }

  /** Corrected, a GET response is put into the template exactly when it is
      not served by Deno itself and is HTML, or plain text away from a
      `.txt` path; the page is the template with the head and the text in
      the markers' places. */
  lemma CreateHandleWraps(h: Handler, template: string, served: Served, text: string, head: Option<string>)
    ensures CreateHandle(h, template, served, text, head).Some? <==>
      h.verb == "GET" && served.server != Some("deno") && served.contentType.Some?
      && (StartsWith(served.contentType.value, "text/html")
          || (StartsWith(served.contentType.value, "text/plain") && !EndsWith(served.pathname, ".txt")))
    ensures CreateHandle(h, template, served, text, head).Some? ==>
      CreateHandle(h, template, served, text, head).value == Wrap(template, text, head)
  {
    Template.HasTemplateMeaning(served.server, served.contentType, served.pathname);
  }

  /** `sendBody`: a GET request that accepts HTML. */
  predicate SendBody(verb: string, accept: Option<string>) {
    verb == "GET" && accept.Some? && Contains(accept.value, "text/html")
  }

  /** The answer of `onError` (500) or `onNoMatch` (404). */
  datatype Fallback = RouterDefault | Empty(status: int) | HtmlPage(status: int, body: string) | Fails

  /** With no page the router keeps its own answer; a request that does
      not want a body gets the bare status; otherwise the page's rendered
      text (`rendered`) with the status, which fails for a page without a
      handler. */
  function FallbackFor(status: int, page: CustomPage, verb: string, accept: Option<string>, rendered: string): (f: Fallback)
    ensures page.NoPage? <==> f.RouterDefault?
    ensures f.Empty? ==> f.status == status && !SendBody(verb, accept)
    ensures f.HtmlPage? ==> f.status == status && f.body == rendered && SendBody(verb, accept) && page.PageOf?
    ensures f.Fails? <==> page.NoHandler? && SendBody(verb, accept)
  {
    if page.NoPage? then RouterDefault
    else if !SendBody(verb, accept) then Empty(status)
    else if page.NoHandler? then Fails
    else HtmlPage(status, rendered)
  }
}
