/** The manifest builder of the middleware router: `generate` walks the
    routes folder, derives each route file's URL pattern, bundles it and
    discovers the islands it imports; `generateManifest` appends the
    modules to the server's manifest, keeps one island per hash, sorts the
    module routes by `order` and puts one GET route per island in front.
    The bundler, the hash, `path.relative` and `importRoutes` are inputs. */
module ManifestGen {
  import opened Text
  import opened Tables
  import Paths
  import opened Routing
  import opened Utils
  import opened EsbuildUtils

  /** A client bundle to serve: the component, its hash and its URL. */
  datatype Island = Island(entry: string, hash: string, pattern: string)

  /** An entry of `manifest.modules`. */
  datatype ModuleEntry = ModuleEntry(entry: string, hash: string, pattern: string, routes: seq<Route>, islands: seq<Island>)

  datatype GenError = NoRoutesDirectory | TooDeepDirectory

  /** What `generate` takes from the server and the outside world:
      `hash(value, salt)` is `server.hash`, `deployed` is whether
      `DENO_DEPLOYMENT_ID` is set, `relative(from, to)` is `path.relative`,
      `metafile(entry)` is the metafile `bumbleSSR` reports for the entry,
      and `importRoutes(entry, pattern)` the routes `importRoutes` reads
      from the module bundled from `entry` with that pattern. */
  datatype Server = Server(dir: string, hash: (string, string) -> string, deployed: bool,
                           relative: (string, string) -> string, metafile: string -> Metafile,
                           importRoutes: (string, string) -> seq<Route>)

  /** `path.join(server.dir, './routes')`. */
  function RoutesDir(s: Server): string {
    Paths.Join(s.dir, "routes")
  }

  // ---------------------------------------------------------------------
  // generate

  /** The paths the `traverse` callback pushes: route files only. */
  function RoutePaths(calls: seq<(string, string)>): seq<string>
    decreases |calls|
  {
    if calls == [] then []
    else
      var c := calls[|calls| - 1];
      RoutePaths(calls[..|calls| - 1]) + (if RouteFile(c.1) then [Paths.Join(c.0, c.1)] else [])
  }

  const IslandSpecifier := "@dinossr/island"

  /** Some import of the input was written `@dinossr/island`. */
  predicate ImportsIsland(input: Input) {
    exists i | 0 <= i < |input.imports| :: input.imports[i].original == Some(IslandSpecifier)
  }

  function IslandOf(s: Server, key: string): Island {
    var entry := Paths.Join(s.dir, key);
    var h := s.hash(entry, "dom");
    Island(entry, h, "/_/immutable/" + h + ".js")
  }

  /** One island per metafile input that imports the island wrapper, in
      input order. */
  function IslandsIn(s: Server, inputs: Table<string, Input>): seq<Island>
    decreases |inputs|
  {
    if inputs == [] then []
    else
      var last := inputs[|inputs| - 1];
      IslandsIn(s, inputs[..|inputs| - 1]) + (if ImportsIsland(last.1) then [IslandOf(s, last.0)] else [])
  }

  /** Without a deployment id, `.js` and `.ts` routes are imported as they
      are, without the bundler. */
  predicate Direct(s: Server, entry: string) {
    !s.deployed && (EndsWith(entry, ".js") || EndsWith(entry, ".ts"))
  }

  /** The islands of a route: only a bundled Svelte component has any. */
  function BundleIslands(s: Server, entry: string): seq<Island> {
    if Direct(s, entry) || !EndsWith(entry, ".svelte") then [] else IslandsIn(s, s.metafile(entry).inputs)
  }

  /** What `generate` yields for a route file, routes or not. */
  function ModuleOf(s: Server, entry: string): ModuleEntry {
    var pattern := FilePattern(s.relative(RoutesDir(s), entry), entry);
    ModuleEntry(entry, s.hash(entry, "ssr"), pattern, s.importRoutes(entry, pattern), BundleIslands(s, entry))
  }

  /** The modules yielded, in path order, when `mk` makes the module of a
      path; those without routes are skipped. */
  function Kept(paths: seq<string>, mk: string -> ModuleEntry): seq<ModuleEntry>
    decreases |paths|
  {
    if paths == [] then []
    else
      var m := mk(paths[|paths| - 1]);
      Kept(paths[..|paths| - 1], mk) + (if m.routes != [] then [m] else [])
  }

  function Modules(s: Server, paths: seq<string>): seq<ModuleEntry> {
    Kept(paths, p => ModuleOf(s, p))
  }

  /** `generate(server)` over the routes folder's listing (`None` when the
      folder does not exist). */
  function Generated(s: Server, tree: Option<seq<Entry>>): Result<seq<ModuleEntry>, GenError> {
    if tree.None? then Err(NoRoutesDirectory)
    else
      var walked := Walk(RoutesDir(s), tree.value, 0);
      if walked.Err? then Err(TooDeepDirectory)
      else Ok(Modules(s, RoutePaths(walked.value)))
  }

  /** The metafile loop: for each input, look for the wrapper import. */
  method FindIslands(s: Server, inputs: Table<string, Input>) returns (islands: seq<Island>)
    ensures islands == IslandsIn(s, inputs)
  {
    islands := [];
    for i := 0 to |inputs|
      invariant islands == IslandsIn(s, inputs[..i])
    {
      assert inputs[..i + 1][..i] == inputs[..i];
      var (key, input) := inputs[i];
      if ImportsIsland(input) {
        var entry := Paths.Join(s.dir, key);
        var h := s.hash(entry, "dom");
        islands := islands + [Island(entry, h, "/_/immutable/" + h + ".js")];
      }
    }
    assert inputs[..|inputs|] == inputs;
  }

  /** `generate(server)`: traverse, collect the route files, then yield a
      module per file that has routes. */
  method Generate(s: Server, tree: Option<seq<Entry>>) returns (r: Result<seq<ModuleEntry>, GenError>)
    ensures r == Generated(s, tree)
  {
    if tree.None? {
      return Err(NoRoutesDirectory);
    }
    var walked := Traverse(RoutesDir(s), tree.value, 0);
    if walked.Err? {
      return Err(TooDeepDirectory);
    }
    var paths := CollectPaths(walked.value);
    var mods := BuildModules(s, paths);
    return Ok(mods);
  }

  /** The `routeFile` filter over the traversal's calls. */
  method CollectPaths(calls: seq<(string, string)>) returns (paths: seq<string>)
    ensures paths == RoutePaths(calls)
  {
    paths := [];
    for i := 0 to |calls|
      invariant paths == RoutePaths(calls[..i])
    {
      assert calls[..i + 1][..i] == calls[..i];
      var (d, n) := calls[i];
      if RouteFile(n) {
        paths := paths + [Paths.Join(d, n)];
      }
    }
    assert calls[..|calls|] == calls;
  }

  /** The module loop: one entry per route file that has routes. */
  method BuildModules(s: Server, paths: seq<string>) returns (mods: seq<ModuleEntry>)
    ensures mods == Modules(s, paths)
  {
    mods := [];
    for i := 0 to |paths|
      invariant mods == Modules(s, paths[..i])
    {
      ModulesNext(s, paths, i);
      var m := ModuleFor(s, paths[i]);
      if m.routes != [] {
        mods := mods + [m];
      }
    }
    assert paths[..|paths|] == paths;
  }

  /** One step of the module loop. */
  lemma ModulesNext(s: Server, paths: seq<string>, i: nat)
    requires i < |paths|
    ensures Modules(s, paths[..i + 1]) == Modules(s, paths[..i])
      + (if ModuleOf(s, paths[i]).routes != [] then [ModuleOf(s, paths[i])] else [])
  {
    assert paths[..i + 1][..i] == paths[..i];
  }

  /** The body of the module loop: the pattern, the hash, the islands of a
      bundled Svelte route and the module's routes. */
  method ModuleFor(s: Server, entry: string) returns (m: ModuleEntry)
    ensures m == ModuleOf(s, entry)
  {
    var pattern := DerivePattern(s.relative(RoutesDir(s), entry), entry);
    var hash := s.hash(entry, "ssr");
    var islands: seq<Island> := [];
    if !Direct(s, entry) && EndsWith(entry, ".svelte") {
      islands := FindIslands(s, s.metafile(entry).inputs);
    }
    var routes := s.importRoutes(entry, pattern);
    m := ModuleEntry(entry, hash, pattern, routes, islands);
  }

  /** `generate` fails exactly when the routes folder is missing or a
      visible folder lies ten levels deep. */
  lemma GeneratedFails(s: Server, tree: Option<seq<Entry>>)
    ensures Generated(s, tree) == Err(NoRoutesDirectory) <==> tree.None?
    ensures Generated(s, tree) == Err(TooDeepDirectory) <==> tree.Some? && Height(Prune(tree.value)) >= MaxDepth
    ensures Generated(s, tree).Err? ==> Generated(s, tree) == Err(NoRoutesDirectory) || Generated(s, tree) == Err(TooDeepDirectory)
  {
    if tree.Some? {
      WalkTooDeep(RoutesDir(s), tree.value, 0);
    }
  }

  /** The collected paths are those of the route files among the calls. */
  lemma {:induction false} RoutePathsMember(calls: seq<(string, string)>, p: string)
    ensures p in RoutePaths(calls) <==>
      exists k :: 0 <= k < |calls| && RouteFile(calls[k].1) && p == Paths.Join(calls[k].0, calls[k].1)
    decreases |calls|
  {
    if calls != [] {
      var init := calls[..|calls| - 1];
      RoutePathsMember(init, p);
      if exists k :: 0 <= k < |calls| && RouteFile(calls[k].1) && p == Paths.Join(calls[k].0, calls[k].1) {
        var k :| 0 <= k < |calls| && RouteFile(calls[k].1) && p == Paths.Join(calls[k].0, calls[k].1);
        if k < |init| {
          assert init[k] == calls[k];
        }
      }
    }
  }

  /** A module is yielded exactly for a path with routes, and is what
      `mk` makes of it. */
  lemma {:induction false} KeptMember(paths: seq<string>, mk: string -> ModuleEntry, m: ModuleEntry)
    ensures m in Kept(paths, mk) <==> exists p :: p in paths && m == mk(p) && m.routes != []
    decreases |paths|
  {
    if paths != [] {
      var init := paths[..|paths| - 1];
      KeptMember(init, mk, m);
      assert paths == init + [paths[|paths| - 1]];
    }
  }

  /** Over a successful walk, `mk` keeps a module exactly for a route file
      in a visible folder that has routes. */
  lemma KeptReported(dir: string, es: seq<Entry>, mk: string -> ModuleEntry, m: ModuleEntry)
    requires WalkEntries(dir, es, 0).Ok?
    ensures m in Kept(RoutePaths(WalkEntries(dir, es, 0).value), mk) <==>
      exists d, n :: Reported(dir, es, d, n) && RouteFile(n) && m == mk(Paths.Join(d, n)) && m.routes != []
  {
    var calls := WalkEntries(dir, es, 0).value;
    var paths := RoutePaths(calls);
    KeptMember(paths, mk, m);
    if m in Kept(paths, mk) {
      var p :| p in paths && m == mk(p) && m.routes != [];
      RoutePathsMember(calls, p);
      var k :| 0 <= k < |calls| && RouteFile(calls[k].1) && p == Paths.Join(calls[k].0, calls[k].1);
      WalkReported(dir, es, 0, calls[k].0, calls[k].1);
    }
    if exists d, n :: Reported(dir, es, d, n) && RouteFile(n) && m == mk(Paths.Join(d, n)) && m.routes != [] {
      var d, n :| Reported(dir, es, d, n) && RouteFile(n) && m == mk(Paths.Join(d, n)) && m.routes != [];
      WalkReported(dir, es, 0, d, n);
      var k :| 0 <= k < |calls| && calls[k] == (d, n);
      RoutePathsMember(calls, Paths.Join(d, n));
    }
  }

  /** Every yielded module has routes and is the module of a route file
      that the walk reported in a visible folder; each such file with
      routes is yielded. */
  lemma GeneratedModules(s: Server, es: seq<Entry>, m: ModuleEntry)
    requires Generated(s, Some(es)).Ok?
    ensures m in Generated(s, Some(es)).value <==>
      exists d, n :: Reported(RoutesDir(s), es, d, n) && RouteFile(n)
        && m == ModuleOf(s, Paths.Join(d, n)) && m.routes != []
  {
    KeptReported(RoutesDir(s), es, p => ModuleOf(s, p), m);
  }

  /** The pattern of a module at well-formed folders: a `/`, the folders
      with groups dropped and `[p]` written `:p`, each followed by `/`, then
      the raw file name without its extension unless it holds `index.`. */
  lemma ModulePattern(s: Server, entry: string, segs: seq<Segment>, name: string)
    requires s.relative(RoutesDir(s), entry) == RelPath(segs, name)
    requires ValidSegments(segs) && name != "" && NoChar(name, '/') && NoChar(name, '(')
    ensures ModuleOf(s, entry).pattern == "/" + FolderPattern(segs)
      + (if Contains(Paths.Basename(entry), "index.") then "" else Paths.BasenameWithout(entry, Paths.Extname(entry)))
  {
    PatternOfFolders(segs, name, entry);
  }

  /** An island is found for exactly the inputs that import the wrapper;
      its entry lies in the server folder, its hash is the `dom` hash of
      that entry and it is served at `/_/immutable/<hash>.js`. */
  lemma {:induction false} IslandsInMember(s: Server, inputs: Table<string, Input>, isl: Island)
    ensures isl in IslandsIn(s, inputs) <==>
      exists k :: 0 <= k < |inputs| && ImportsIsland(inputs[k].1) && isl == IslandOf(s, inputs[k].0)
    ensures isl in IslandsIn(s, inputs) ==>
      isl.hash == s.hash(isl.entry, "dom") && isl.pattern == "/_/immutable/" + isl.hash + ".js"
  {
    IslandsFrom(s, inputs, isl);
  }

  lemma {:induction false} IslandsFrom(s: Server, inputs: Table<string, Input>, isl: Island)
    ensures isl in IslandsIn(s, inputs) <==>
      exists k :: 0 <= k < |inputs| && ImportsIsland(inputs[k].1) && isl == IslandOf(s, inputs[k].0)
    decreases |inputs|
  {
    if inputs != [] {
      var init, last := inputs[..|inputs| - 1], inputs[|inputs| - 1];
      var more := if ImportsIsland(last.1) then [IslandOf(s, last.0)] else [];
      assert IslandsIn(s, inputs) == IslandsIn(s, init) + more;
      IslandsFrom(s, init, isl);
      if isl in IslandsIn(s, init) {
        var k :| 0 <= k < |init| && ImportsIsland(init[k].1) && isl == IslandOf(s, init[k].0);
        assert inputs[k] == init[k];
      } else if isl in more {
        assert inputs[|init|] == last;
      }
      if exists k :: 0 <= k < |inputs| && ImportsIsland(inputs[k].1) && isl == IslandOf(s, inputs[k].0) {
        var k :| 0 <= k < |inputs| && ImportsIsland(inputs[k].1) && isl == IslandOf(s, inputs[k].0);
        if k < |init| {
          assert init[k] == inputs[k];
        } else {
          assert isl in more;
        }
      }
    }
  }

  /** Routes imported directly, and anything but a Svelte component, bring
      no island. */
  lemma DirectHasNoIslands(s: Server, entry: string)
    requires Direct(s, entry) || !EndsWith(entry, ".svelte")
    ensures ModuleOf(s, entry).islands == []
  {
  }

  // ---------------------------------------------------------------------
  // generateManifest

  /** The `islands.set(meta.hash, meta)` calls, module by module. */
  function IslandPairs(mods: seq<ModuleEntry>): seq<(string, Island)>
    decreases |mods|
  {
    if mods == [] then [] else IslandPairs(mods[..|mods| - 1]) + PairsOf(mods[|mods| - 1].islands)
  }

  function PairsOf(islands: seq<Island>): (ps: seq<(string, Island)>)
    ensures |ps| == |islands|
    decreases |islands|
  {
    if islands == [] then []
    else var last := islands[|islands| - 1]; PairsOf(islands[..|islands| - 1]) + [(last.hash, last)]
  }

  function HashOf(i: Island): string {
    i.hash
  }

  /** The `islands` Map once every module is in. */
  function IslandTable(mods: seq<ModuleEntry>): Table<string, Island> {
    SetAll([], IslandPairs(mods))
  }

  function Reversed<T>(s: seq<T>): (r: seq<T>)
    ensures |r| == |s|
    decreases |s|
  {
    if s == [] then [] else [s[|s| - 1]] + Reversed(s[..|s| - 1])
  }

  /** The islands unshifted onto `manifest.islands`, in the order they end
      up in. */
  function NewIslands(mods: seq<ModuleEntry>): seq<Island> {
    Reversed(Values(IslandTable(mods)))
  }

  /** The route serving an island's client bundle. */
  function IslandRoute(i: Island): Route {
    Route("GET", i.pattern, i.hash, None)
  }

  function IslandRoutes(islands: seq<Island>): (rs: seq<Route>)
    ensures |rs| == |islands|
    decreases |islands|
  {
    if islands == [] then [] else [IslandRoute(islands[0])] + IslandRoutes(islands[1..])
  }

  /** Every module route, in module order. */
  function AllRoutes(mods: seq<ModuleEntry>): seq<Route>
    decreases |mods|
  {
    if mods == [] then [] else AllRoutes(mods[..|mods| - 1]) + mods[|mods| - 1].routes
  }

  /** The routes handed to the router, in order. */
  function ManifestRoutes(mods: seq<ModuleEntry>): seq<Route> {
    IslandRoutes(NewIslands(mods)) + SortByOrder(AllRoutes(mods))
  }

  /** The server's manifest, which `generateManifest` extends. */
  class ServerManifest {
    var deployHash: string
    var modules: seq<ModuleEntry>
    var islands: seq<Island>

    constructor(deployHash: string, modules: seq<ModuleEntry>, islands: seq<Island>)
      ensures this.deployHash == deployHash && this.modules == modules && this.islands == islands
    {
      this.deployHash := deployHash;
      this.modules := modules;
      this.islands := islands;
    }

    /** `generateManifest(server)`: the routes it registers, in order. A
        failure of `generate` happens before anything is yielded, so it
        leaves the manifest as it was. */
    method GenerateManifest(s: Server, tree: Option<seq<Entry>>) returns (r: Result<seq<Route>, GenError>)
      modifies this
      ensures deployHash == old(deployHash)
      ensures var g := Generated(s, tree);
        if g.Err? then r == Err(g.error) && modules == old(modules) && islands == old(islands)
        else (r == Ok(ManifestRoutes(g.value)) && modules == old(modules) + g.value
              && islands == NewIslands(g.value) + old(islands))
    {
      var gen := Generate(s, tree);
      if gen.Err? {
        return Err(gen.error);
      }
      var routes := AddModules(gen.value);
      return Ok(routes);
    }

    /** The body of `generateManifest` once `generate` has yielded `mods`:
        push each module, its routes and its islands; sort; then unshift
        each distinct island and its route. */
    method AddModules(mods: seq<ModuleEntry>) returns (routes: seq<Route>)
      modifies this
      ensures deployHash == old(deployHash)
      ensures routes == ManifestRoutes(mods)
      ensures modules == old(modules) + mods
      ensures islands == NewIslands(mods) + old(islands)
    {
      var all, table := PushModules(mods);
      var sorted := SortByOrder(all);
      routes := UnshiftIslands(Values(table), sorted);
    }

    /** The `for await` loop over the yielded modules. */
    method PushModules(mods: seq<ModuleEntry>) returns (routes: seq<Route>, table: Table<string, Island>)
      modifies this
      ensures deployHash == old(deployHash) && islands == old(islands)
      ensures modules == old(modules) + mods
      ensures routes == AllRoutes(mods) && table == IslandTable(mods)
    {
      routes := [];
      table := [];
      for i := 0 to |mods|
        invariant deployHash == old(deployHash) && islands == old(islands)
        invariant modules == old(modules) + mods[..i]
        invariant routes == AllRoutes(mods[..i])
        invariant table == IslandTable(mods[..i])
      {
        PrefixStep(mods, i);
        var m := mods[i];
        modules := modules + [m];
        routes := routes + m.routes;
        SetAllAppend([], IslandPairs(mods[..i]), PairsOf(m.islands));
        table := SetIslands(table, m.islands);
      }
      assert mods[..|mods|] == mods;
    }

    /** `manifest.islands.unshift(island)` and `routes.unshift(...)` for
        each island of the map, in the map's order. */
    method UnshiftIslands(values: seq<Island>, sorted: seq<Route>) returns (routes: seq<Route>)
      modifies this
      ensures deployHash == old(deployHash) && modules == old(modules)
      ensures islands == Reversed(values) + old(islands)
      ensures routes == IslandRoutes(Reversed(values)) + sorted
    {
      routes := sorted;
      var added: seq<Island> := [];
      for i := 0 to |values|
        invariant deployHash == old(deployHash) && modules == old(modules)
        invariant added == Reversed(values[..i])
        invariant islands == added + old(islands)
        invariant routes == IslandRoutes(added) + sorted
      {
        UnshiftStep(values, i, added);
        added := [values[i]] + added;
        islands := [values[i]] + islands;
        routes := [IslandRoute(values[i])] + routes;
      }
      assert values[..|values|] == values;
    }
  }

  lemma UnshiftStep(values: seq<Island>, i: nat, added: seq<Island>)
    requires i < |values| && added == Reversed(values[..i])
    ensures [values[i]] + added == Reversed(values[..i + 1])
    ensures IslandRoutes([values[i]] + added) == [IslandRoute(values[i])] + IslandRoutes(added)
  {
    assert values[..i + 1][..i] == values[..i];
    assert ([values[i]] + added)[1..] == added;
  }

  /** `mod.islands.map((meta) => islands.set(meta.hash, meta))`. */
  method SetIslands(table: Table<string, Island>, islands: seq<Island>) returns (t: Table<string, Island>)
    ensures t == SetAll(table, PairsOf(islands))
  {
    t := table;
    for j := 0 to |islands|
      invariant t == SetAll(table, PairsOf(islands[..j]))
    {
      assert islands[..j + 1][..j] == islands[..j];
      t := Set(t, islands[j].hash, islands[j]);
    }
    assert islands[..|islands|] == islands;
  }

  lemma PrefixStep(mods: seq<ModuleEntry>, i: nat)
    requires i < |mods|
    ensures AllRoutes(mods[..i + 1]) == AllRoutes(mods[..i]) + mods[i].routes
    ensures IslandPairs(mods[..i + 1]) == IslandPairs(mods[..i]) + PairsOf(mods[i].islands)
    ensures mods[..i] + [mods[i]] == mods[..i + 1]
  {
    assert mods[..i + 1][..i] == mods[..i];
  }

  lemma {:induction false} PairsOfKeyed(islands: seq<Island>)
    ensures KeyedBy(PairsOf(islands), HashOf)
    ensures forall k :: 0 <= k < |islands| ==> PairsOf(islands)[k] == (islands[k].hash, islands[k])
    decreases |islands|
  {
    if islands != [] {
      PairsOfKeyed(islands[..|islands| - 1]);
    }
  }

  lemma {:induction false} IslandPairsKeyed(mods: seq<ModuleEntry>)
    ensures KeyedBy(IslandPairs(mods), HashOf)
    decreases |mods|
  {
    if mods != [] {
      var a: seq<(string, Island)> := IslandPairs(mods[..|mods| - 1]);
      var b: seq<(string, Island)> := PairsOf(mods[|mods| - 1].islands);
      IslandPairsKeyed(mods[..|mods| - 1]);
      PairsOfKeyed(mods[|mods| - 1].islands);
      forall i | 0 <= i < |a + b| ensures (a + b)[i].0 == HashOf((a + b)[i].1) {
        if i >= |a| { assert (a + b)[i] == b[i - |a|]; } else { assert (a + b)[i] == a[i]; }
      }
    }
  }

  lemma {:induction false} ReversedIndex<T>(s: seq<T>, k: nat)
    requires k < |s|
    ensures Reversed(s)[k] == s[|s| - 1 - k]
    decreases |s|
  {
    if k > 0 {
      var init := s[..|s| - 1];
      ReversedIndex(init, k - 1);
      assert Reversed(s)[k] == Reversed(init)[k - 1];
    }
  }

  lemma ReversedAt<T>(s: seq<T>)
    ensures forall k :: 0 <= k < |s| ==> Reversed(s)[k] == s[|s| - 1 - k]
  {
    forall k | 0 <= k < |s| ensures Reversed(s)[k] == s[|s| - 1 - k] {
      ReversedIndex(s, k);
    }
  }

  /** The islands added to the manifest have pairwise different hashes:
      each island is kept once however many modules import it. */
  lemma NewIslandsDistinct(mods: seq<ModuleEntry>)
    ensures forall a, b :: 0 <= a < b < |NewIslands(mods)| ==> NewIslands(mods)[a].hash != NewIslands(mods)[b].hash
  {
    var t := IslandTable(mods);
    SetAllUnique([], IslandPairs(mods));
    UniqueKeysDistinct(t);
    IslandPairsKeyed(mods);
    SetAllKeyedBy([], IslandPairs(mods), HashOf);
    ReversedAt(Values(t));
  }

  /** Every island discovered is represented: for each hash found, the
      manifest gains exactly the island set last under that hash. */
  lemma NewIslandsComplete(mods: seq<ModuleEntry>, h: string)
    ensures (exists k :: 0 <= k < |NewIslands(mods)| && NewIslands(mods)[k].hash == h) <==> LastValue(IslandPairs(mods), h).Some?
    ensures forall k :: 0 <= k < |NewIslands(mods)| && NewIslands(mods)[k].hash == h ==>
      LastValue(IslandPairs(mods), h) == Some(NewIslands(mods)[k])
  {
    var t := IslandTable(mods);
    var ps := IslandPairs(mods);
    SetAllLookup([], ps, h);
    LookupMeaning(t, h);
    HasKeyAt(t, h);
    SetAllUnique([], ps);
    UniqueKeysDistinct(t);
    IslandPairsKeyed(mods);
    SetAllKeyedBy([], ps, HashOf);
    ReversedAt(Values(t));
    var n := NewIslands(mods);
    forall k | 0 <= k < |n| && n[k].hash == h ensures LastValue(ps, h) == Some(n[k]) {
      var j := |t| - 1 - k;
      assert n[k] == t[j].1 && t[j].0 == h;
      var i :| 0 <= i < |t| && t[i] == (h, Lookup(t, h).value);
      assert i == j;
    }
    if LastValue(ps, h).Some? {
      var i :| 0 <= i < |t| && t[i].0 == h;
      assert n[|t| - 1 - i] == t[i].1;
    }
  }

  /** Routes for `isl` followed by `rest` sorted: one GET route per island
      in order, then `rest` sorted stably by `order`. */
  lemma RoutesShape(isl: seq<Island>, rest: seq<Route>)
    ensures var rs := IslandRoutes(isl) + SortByOrder(rest);
      |rs| == |isl| + |rest|
      && (forall k :: 0 <= k < |isl| ==> rs[k] == Route("GET", isl[k].pattern, isl[k].hash, None))
      && rs[|isl|..] == SortByOrder(rest)
      && SortedByOrder(rs[|isl|..])
      && multiset(rs[|isl|..]) == multiset(rest)
  {
    var a := IslandRoutes(isl);
    var b := SortByOrder(rest);
    SortByOrderMeaning(rest);
    assert |b| == |rest| by {
      assert |multiset(b)| == |multiset(rest)|;
    }
    assert (a + b)[|isl|..] == b;
    forall k | 0 <= k < |isl| ensures (a + b)[k] == Route("GET", isl[k].pattern, isl[k].hash, None) {
      IslandRouteAt(isl, k);
      assert (a + b)[k] == a[k];
    }
  }

  lemma {:induction false} IslandRouteAt(islands: seq<Island>, k: nat)
    requires k < |islands|
    ensures IslandRoutes(islands)[k] == IslandRoute(islands[k])
    decreases |islands|
  {
    if k > 0 {
      IslandRouteAt(islands[1..], k - 1);
    }
  }

  /** The registered routes: first one GET route per island added, at the
      island's URL and hash and in the same order as the islands, then every
      module route sorted by `order` (ties in module order). */
  lemma ManifestRoutesShape(mods: seq<ModuleEntry>)
    ensures var n := |NewIslands(mods)|; var rs := ManifestRoutes(mods);
      |rs| == n + |AllRoutes(mods)|
      && (forall k :: 0 <= k < n ==>
            rs[k] == Route("GET", NewIslands(mods)[k].pattern, NewIslands(mods)[k].hash, None))
      && rs[n..] == SortByOrder(AllRoutes(mods))
      && SortedByOrder(rs[n..])
      && multiset(rs[n..]) == multiset(AllRoutes(mods))
  {
    RoutesShape(NewIslands(mods), AllRoutes(mods));
  }
}
