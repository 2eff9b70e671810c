/** The stored build manifest: `getManifest` chooses between a fresh
    manifest and the one saved by an earlier build, and `setManifest`
    writes the importable manifest module, one line of JavaScript at a
    time. The environment, the clock, the hash and the file system are
    inputs. */
module ManifestFile {
  import opened Text
  import opened ManifestGen

  /** The `deployHash` field: a hash string, or a promise of the hash of
      `source` that nobody awaited. */
  datatype DeployHash = Hashed(value: string) | Pending(source: string)

  /** The field as text, as a template literal or `+` renders it: a
      promise becomes `[object Promise]`. */
  function DeployText(d: DeployHash): string {
    match d
    case Hashed(v) => v
    case Pending(_) => "[object Promise]"
  }

  /** `DinoManifest` as far as these two functions use it. */
  datatype Manifest = Manifest(deployHash: DeployHash, modules: seq<ModuleEntry>, islands: seq<Island>)

  const BuildVariable := "DINOSSR_BUILD"
  const DeployVariable := "DINOSSR_DEPLOY_ID"
  const DeploymentVariable := "DENO_DEPLOYMENT_ID"

  /** JavaScript truthiness of an environment value: set and not empty. */
  predicate Truthy(v: Option<string>) {
    v.Some? && v.value != ""
  }

  /** The value the deploy hash is made from: the `??` chain of the
      argument, the two environment variables and the start time. */
  function DeploySource(deployHash: Option<string>, env: string -> Option<string>, now: string): string {
    if deployHash.Some? then deployHash.value
    else if env(DeployVariable).Some? then env(DeployVariable).value
    else if env(DeploymentVariable).Some? then env(DeploymentVariable).value
    else now
  }

  /** Each source is used exactly when every source before it is absent;
      `??` skips only absent values, so an empty string still wins. */
  lemma DeploySourcePriority(deployHash: Option<string>, env: string -> Option<string>, now: string)
    ensures deployHash.Some? ==> DeploySource(deployHash, env, now) == deployHash.value
    ensures deployHash.None? && env(DeployVariable).Some? ==>
      DeploySource(deployHash, env, now) == env(DeployVariable).value
    ensures deployHash.None? && env(DeployVariable).None? && env(DeploymentVariable).Some? ==>
      DeploySource(deployHash, env, now) == env(DeploymentVariable).value
    ensures DeploySource(deployHash, env, now) == now <==>
      (deployHash.None? && env(DeployVariable).None? && env(DeploymentVariable).None?)
      || (deployHash == Some(now))
      || (deployHash.None? && env(DeployVariable) == Some(now))
      || (deployHash.None? && env(DeployVariable).None? && env(DeploymentVariable) == Some(now))
  {
  }

  /** `getManifest(deployHash)` as written: `stored` is the parsed
      `manifest.json`, `None` when the file does not exist; `hash` is
      `encodeHash`, which returns a promise that is stored without `await`. */
  function GetManifestAsWritten(deployHash: Option<string>, env: string -> Option<string>, stored: Option<Manifest>,
                                now: string): (m: Manifest)
    ensures Truthy(env(BuildVariable)) || stored.None? ==>
      m.modules == [] && m.islands == [] && m.deployHash == Pending(DeploySource(deployHash, env, now))
    ensures !Truthy(env(BuildVariable)) && stored.Some? ==> m == stored.value
  {
    if Truthy(env(BuildVariable)) || stored.None? then
      Manifest(Pending(DeploySource(deployHash, env, now)), [], [])
    else stored.value
  }

  /** As written, a fresh manifest holds no hash, and its deploy hash reads
      the same whatever the deploy id, so it cannot tell deployments apart. */
  lemma FreshHashIgnoresSource(a: Option<string>, b: Option<string>, env: string -> Option<string>,
                               env': string -> Option<string>, now: string, now': string)
    requires Truthy(env(BuildVariable)) && Truthy(env'(BuildVariable))
    ensures !GetManifestAsWritten(a, env, None, now).deployHash.Hashed?
    ensures DeployText(GetManifestAsWritten(a, env, None, now).deployHash)
      == DeployText(GetManifestAsWritten(b, env', None, now').deployHash)
  {
  }

  /** `getManifest` with the hash awaited: the fresh manifest carries the
      hash of the chosen source. */
  function GetManifest(deployHash: Option<string>, env: string -> Option<string>, stored: Option<Manifest>,
                       now: string, hash: string -> string): (m: Manifest)
    ensures Truthy(env(BuildVariable)) || stored.None? ==>
      m.modules == [] && m.islands == [] && m.deployHash == Hashed(hash(DeploySource(deployHash, env, now)))
    ensures !Truthy(env(BuildVariable)) && stored.Some? ==> m == stored.value
  {
    if Truthy(env(BuildVariable)) || stored.None? then
      Manifest(Hashed(hash(DeploySource(deployHash, env, now))), [], [])
    else stored.value
  }

  /** Awaited, two fresh manifests read differently whenever the hashes
      of their sources differ. */
  lemma FreshHashFollowsSource(a: Option<string>, b: Option<string>, env: string -> Option<string>,
                               now: string, hash: string -> string)
    requires Truthy(env(BuildVariable))
    requires hash(DeploySource(a, env, now)) != hash(DeploySource(b, env, now))
    ensures DeployText(GetManifest(a, env, None, now, hash).deployHash)
      != DeployText(GetManifest(b, env, None, now, hash).deployHash)
  {
  }

  /** A stored manifest is returned untouched unless a build is running,
      whatever the argument; a new manifest depends on nothing stored. */
  lemma StoredIgnoresArgument(a: Option<string>, b: Option<string>, env: string -> Option<string>,
                              stored: Option<Manifest>, other: Option<Manifest>, now: string, hash: string -> string)
    ensures !Truthy(env(BuildVariable)) && stored.Some? ==>
      GetManifest(a, env, stored, now, hash) == GetManifest(b, env, stored, now, hash)
    ensures Truthy(env(BuildVariable)) ==>
      GetManifest(a, env, stored, now, hash) == GetManifest(a, env, other, now, hash)
  {
  }

  // ---------------------------------------------------------------------
  // setManifest

  const DirLine := "const dir = new URL(import.meta.resolve('./')).pathname;"
  const ModulesLine := "const MODULES = [];"
  const IslandsLine := "const ISLANDS = [];"
  const ExportLine := "export {MODULES, ISLANDS};"
  const ModuleOpen := "MODULES.push({"
  const IslandOpen := "ISLANDS.push({"
  const BlockClose := "});"
  const MetafileOpen := "metafile: JSON.parse(Deno.readTextFileSync(`${dir}"
  const MetafileClose := ".json`)),"
  const CodeOpen := "code: Deno.readTextFileSync(`${dir}"
  const CodeClose := ".js`),"

  /** `name: "value",` with the value spliced in as it is. */
  function Field(name: string, value: string): string {
    name + ": \"" + value + "\","
  }

  /** The eight lines of one module: its import, then the push of entry,
      hash, pattern, module and metafile. */
  function ModuleBlock(m: ModuleEntry): (ls: seq<string>)
    ensures |ls| == 8 && ls[1] == ModuleOpen && ls[7] == BlockClose
  {
    ["import * as mod_" + m.hash + " from './" + m.hash + ".js';",
     ModuleOpen,
     Field("entry", m.entry),
     Field("hash", m.hash),
     Field("pattern", m.pattern),
     "mod: mod_" + m.hash + ",",
     MetafileOpen + m.hash + MetafileClose,
     BlockClose]
  }

  /** The seven lines of one island: the push of entry, hash, pattern,
      code and metafile. */
  function IslandBlock(i: Island): (ls: seq<string>)
    ensures |ls| == 7 && ls[0] == IslandOpen && ls[6] == BlockClose
  {
    [IslandOpen,
     Field("entry", i.entry),
     Field("hash", i.hash),
     Field("pattern", i.pattern),
     CodeOpen + i.hash + CodeClose,
     MetafileOpen + i.hash + MetafileClose,
     BlockClose]
  }

  /** Lines of blocks, one block after the other. */
  function Flatten(bs: seq<seq<string>>): seq<string>
    decreases |bs|
  {
    if bs == [] then [] else Flatten(bs[..|bs| - 1]) + bs[|bs| - 1]
  }

  function ModuleBlocks(ms: seq<ModuleEntry>): (bs: seq<seq<string>>)
    ensures |bs| == |ms| && forall k | 0 <= k < |ms| :: bs[k] == ModuleBlock(ms[k])
  {
    seq(|ms|, k requires 0 <= k < |ms| => ModuleBlock(ms[k]))
  }

  function IslandBlocks(isl: seq<Island>): (bs: seq<seq<string>>)
    ensures |bs| == |isl| && forall k | 0 <= k < |isl| :: bs[k] == IslandBlock(isl[k])
  {
    seq(|isl|, k requires 0 <= k < |isl| => IslandBlock(isl[k]))
  }

  const Header := [DirLine, ModulesLine, IslandsLine]

  /** The lines of `manifest.js`, in the order `setManifest` pushes them. */
  function ManifestLines(m: Manifest): seq<string> {
    Header + Flatten(ModuleBlocks(m.modules)) + Flatten(IslandBlocks(m.islands)) + [ExportLine]
  }

  /** The text of `manifest.js`. */
  function ManifestModule(m: Manifest): string {
    Join(ManifestLines(m), "\n")
  }

  /** Blocks of `n` lines each: block `k` fills lines `n*k` to `n*k+n`. */
  lemma {:induction false} FlattenAt(bs: seq<seq<string>>, n: nat, k: nat)
    requires forall i | 0 <= i < |bs| :: |bs[i]| == n
    requires k < |bs|
    ensures |Flatten(bs)| == n * |bs|
    ensures n * k + n <= |Flatten(bs)| && Flatten(bs)[n * k..n * k + n] == bs[k]
    decreases |bs|
  {
    var front := bs[..|bs| - 1];
    FlattenLength(front, n);
    assert n * |bs| == n * |front| + n;
    if k < |front| {
      FlattenAt(front, n, k);
      assert n * k + n <= n * |front| by {
        MulMonotone(n, k + 1, |front|);
      }
      assert Flatten(bs)[n * k..n * k + n] == Flatten(front)[n * k..n * k + n];
    } else {
      assert k == |front|;
      assert Flatten(bs)[n * k..n * k + n] == bs[k];
    }
  }

  lemma {:induction false} FlattenLength(bs: seq<seq<string>>, n: nat)
    requires forall i | 0 <= i < |bs| :: |bs[i]| == n
    ensures |Flatten(bs)| == n * |bs|
    decreases |bs|
  {
    if bs != [] {
      FlattenLength(bs[..|bs| - 1], n);
      assert n * |bs| == n * (|bs| - 1) + n;
    }
  }

  lemma MulMonotone(n: nat, a: nat, b: nat)
    requires a <= b
    ensures n * a <= n * b
  {
  }

  /** Module `k` fills the eight lines from `3 + 8k`. */
  lemma ModulesAt(m: Manifest, k: nat)
    requires k < |m.modules|
    ensures 3 + 8 * k + 8 <= |ManifestLines(m)|
    ensures ManifestLines(m)[3 + 8 * k..3 + 8 * k + 8] == ModuleBlock(m.modules[k])
  {
    var mb := Flatten(ModuleBlocks(m.modules));
    var rest := Flatten(IslandBlocks(m.islands)) + [ExportLine];
    FlattenAt(ModuleBlocks(m.modules), 8, k);
    assert ManifestLines(m) == Header + mb + rest;
    assert (Header + mb + rest)[3 + 8 * k..3 + 8 * k + 8] == mb[8 * k..8 * k + 8];
  }

  /** Island `j` fills the seven lines from `3 + 8M + 7j`, `M` the number
      of modules. */
  lemma IslandsAt(m: Manifest, j: nat)
    requires j < |m.islands|
    ensures 3 + 8 * |m.modules| + 7 * j + 7 <= |ManifestLines(m)|
    ensures ManifestLines(m)[3 + 8 * |m.modules| + 7 * j..3 + 8 * |m.modules| + 7 * j + 7] == IslandBlock(m.islands[j])
  {
    var front := Header + Flatten(ModuleBlocks(m.modules));
    var ib := Flatten(IslandBlocks(m.islands));
    FlattenLength(ModuleBlocks(m.modules), 8);
    FlattenAt(IslandBlocks(m.islands), 7, j);
    assert |front| == 3 + 8 * |m.modules|;
    assert ManifestLines(m) == front + ib + [ExportLine];
    assert (front + ib + [ExportLine])[|front| + 7 * j..|front| + 7 * j + 7] == ib[7 * j..7 * j + 7];
  }

  /** `manifest.js` has three header lines, eight lines per module, seven
      per island and the export line last; with `ModulesAt` and
      `IslandsAt`, every module comes before every island and both lists
      keep their order. */
  lemma ManifestLayout(m: Manifest)
    ensures var ls := ManifestLines(m);
      && |ls| == 4 + 8 * |m.modules| + 7 * |m.islands|
      && ls[..3] == Header
      && ls[|ls| - 1] == ExportLine
  {
    FlattenLength(ModuleBlocks(m.modules), 8);
    FlattenLength(IslandBlocks(m.islands), 7);
  }

  /** The text starts with the `dir` line and ends with the export line. */
  lemma ManifestModuleEnds(m: Manifest)
    ensures StartsWith(ManifestModule(m), DirLine + "\n")
    ensures EndsWith(ManifestModule(m), "\n" + ExportLine)
  {
    var ls := ManifestLines(m);
    ManifestLayout(m);
    JoinFirst(ls, "\n");
    JoinLast(ls, "\n");
  }

  /** A join of two or more parts starts with the first and the separator. */
  lemma JoinFirst(parts: seq<string>, sep: string)
    requires |parts| >= 2
    ensures StartsWith(Join(parts, sep), parts[0] + sep)
  {
    var j := Join(parts, sep);
    assert j == parts[0] + sep + Join(parts[1..], sep);
    assert j[..|parts[0] + sep|] == parts[0] + sep;
  }

  /** A join of two or more parts ends with the separator and the last. */
  lemma {:induction false} JoinLast(parts: seq<string>, sep: string)
    requires |parts| >= 2
    ensures EndsWith(Join(parts, sep), sep + parts[|parts| - 1])
    decreases |parts|
  {
    var j := Join(parts, sep);
    var rest := Join(parts[1..], sep);
    var tail := sep + parts[|parts| - 1];
    assert j == parts[0] + sep + rest;
    if |parts| == 2 {
      assert j == parts[0] + tail;
    } else {
      JoinLast(parts[1..], sep);
      assert parts[1..][|parts[1..]| - 1] == parts[|parts| - 1];
      assert j == (parts[0] + sep) + rest;
    }
    assert j[|j| - |tail|..] == tail;
  }

  /** One module's block pushed line by line. */
  method PushModule(code: seq<string>, m: ModuleEntry) returns (out: seq<string>)
    ensures out == code + ModuleBlock(m)
  {
    out := code;
    out := out + ["import * as mod_" + m.hash + " from './" + m.hash + ".js';"];
    out := out + [ModuleOpen];
    out := out + [Field("entry", m.entry)];
    out := out + [Field("hash", m.hash)];
    out := out + [Field("pattern", m.pattern)];
    out := out + ["mod: mod_" + m.hash + ","];
    out := out + [MetafileOpen + m.hash + MetafileClose];
    out := out + [BlockClose];
  }

  /** One island's block pushed line by line. */
  method PushIsland(code: seq<string>, i: Island) returns (out: seq<string>)
    ensures out == code + IslandBlock(i)
  {
    out := code;
    out := out + [IslandOpen];
    out := out + [Field("entry", i.entry)];
    out := out + [Field("hash", i.hash)];
    out := out + [Field("pattern", i.pattern)];
    out := out + [CodeOpen + i.hash + CodeClose];
    out := out + [MetafileOpen + i.hash + MetafileClose];
    out := out + [BlockClose];
  }

  lemma ModulesNext(ms: seq<ModuleEntry>, k: nat)
    requires k < |ms|
    ensures Flatten(ModuleBlocks(ms[..k + 1])) == Flatten(ModuleBlocks(ms[..k])) + ModuleBlock(ms[k])
  {
    assert ModuleBlocks(ms[..k + 1])[..k] == ModuleBlocks(ms[..k]);
  }

  lemma IslandsNext(isl: seq<Island>, j: nat)
    requires j < |isl|
    ensures Flatten(IslandBlocks(isl[..j + 1])) == Flatten(IslandBlocks(isl[..j])) + IslandBlock(isl[j])
  {
    assert IslandBlocks(isl[..j + 1])[..j] == IslandBlocks(isl[..j]);
  }

  /** `manifest.modules.forEach(...)`. */
  method PushModules(code: seq<string>, ms: seq<ModuleEntry>) returns (out: seq<string>)
    ensures out == code + Flatten(ModuleBlocks(ms))
  {
    out := code;
    for k := 0 to |ms|
      invariant out == code + Flatten(ModuleBlocks(ms[..k]))
    {
      ModulesNext(ms, k);
      out := PushModule(out, ms[k]);
    }
    assert ms[..|ms|] == ms;
  }

  /** `manifest.islands.forEach(...)`. */
  method PushIslands(code: seq<string>, isl: seq<Island>) returns (out: seq<string>)
    ensures out == code + Flatten(IslandBlocks(isl))
  {
    out := code;
    for j := 0 to |isl|
      invariant out == code + Flatten(IslandBlocks(isl[..j]))
    {
      IslandsNext(isl, j);
      out := PushIsland(out, isl[j]);
    }
    assert isl[..|isl|] == isl;
  }

  /** `setManifest(manifest)`: the text written to `manifest.js`. */
  method SetManifest(m: Manifest) returns (text: string)
    ensures text == ManifestModule(m)
  {
    var code := Header;
    code := PushModules(code, m.modules);
    code := PushIslands(code, m.islands);
    code := code + [ExportLine];
    text := Join(code, "\n");
  }
}
