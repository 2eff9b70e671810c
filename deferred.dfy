/** The bundler plugin's cache of deferred results (`deferredCode`), keyed
    by strings that name the kind of load, the output flavour and the path,
    with eviction when a file's modification time changes; and the three
    load hooks that use it. Promises are modelled sequentially: a deferred
    records which callback call created it and the value that call resolved
    it with, or `None` when the callback failed and the promise stays
    pending for ever. */
module DeferredCode {
  import opened Text
  import Paths

  datatype Deferred = Deferred(id: nat, value: Option<string>)

  /** `deferredMap`, `mtimeMap`, and the number of callbacks started. */
  datatype CacheState = CacheState(deferreds: map<string, Deferred>, mtimes: map<string, int>, invocations: nat)

  /** `entry` is a non-empty path, as `if (entry)` tests. */
  predicate Truthy(entry: Option<string>) {
    entry.Some? && entry.value != ""
  }

  /** The modification time `mtime` of the entry differs from the one
      recorded for `key` (an unrecorded key counts as different). */
  predicate Stale(s: CacheState, key: string, entry: Option<string>, mtime: Option<int>) {
    Truthy(entry) && mtime.Some? && (key !in s.mtimes || s.mtimes[key] != mtime.value)
  }

  /** One call `deferredCode(key, entry, callback)`, where `mtime` is the
      entry's modification time and `outcome` what the callback would
      resolve with: the new state and the deferred returned. */
  function Step(s: CacheState, key: string, entry: Option<string>, mtime: Option<int>,
                outcome: Option<string>): (CacheState, Deferred)
  {
    var stale := Stale(s, key, entry, mtime);
    var mtimes := if stale then s.mtimes[key := mtime.value] else s.mtimes;
    var kept := if stale then s.deferreds - {key} else s.deferreds;
    if key in kept then (CacheState(kept, mtimes, s.invocations), kept[key])
    else
      var d := Deferred(s.invocations, outcome);
      (CacheState(kept[key := d], mtimes, s.invocations + 1), d)
  }

  /** The callback runs exactly when the key has no entry after eviction;
      then the deferred returned is the new one, otherwise the stored one.
      Other keys are untouched. */
  lemma StepMeaning(s: CacheState, key: string, entry: Option<string>, mtime: Option<int>, outcome: Option<string>)
    ensures var (s', d) := Step(s, key, entry, mtime, outcome);
      var present := key in s.deferreds && !Stale(s, key, entry, mtime);
      && s'.invocations == (if present then s.invocations else s.invocations + 1)
      && d == (if present then s.deferreds[key] else Deferred(s.invocations, outcome))
      && key in s'.deferreds && s'.deferreds[key] == d
      && (forall k :: k != key ==> (k in s'.deferreds <==> k in s.deferreds))
      && (forall k :: k != key && k in s.deferreds ==> s'.deferreds[k] == s.deferreds[k])
      && (forall k :: k != key ==> (k in s'.mtimes <==> k in s.mtimes))
      && (forall k :: k != key && k in s.mtimes ==> s'.mtimes[k] == s.mtimes[k])
  {
  }

  /** A new modification time is recorded and evicts the key's deferred, so
      the callback runs again. */
  lemma StaleRecompiles(s: CacheState, key: string, entry: Option<string>, mtime: Option<int>, outcome: Option<string>)
    requires Stale(s, key, entry, mtime)
    ensures var (s', d) := Step(s, key, entry, mtime, outcome);
      s'.mtimes == s.mtimes[key := mtime.value] && d == Deferred(s.invocations, outcome)
      && s'.invocations == s.invocations + 1
  {
  }

  /** Without an entry path nothing is ever evicted or recorded. */
  lemma NullEntryNeverEvicts(s: CacheState, key: string, mtime: Option<int>, outcome: Option<string>)
    ensures var (s', d) := Step(s, key, None, mtime, outcome);
      s'.mtimes == s.mtimes && (key in s.deferreds ==> d == s.deferreds[key] && s' == s)
  {
  }

  /** Asking again with the same entry and modification time returns the
      same deferred and runs nothing, whatever the second callback would
      do: one invocation, one shared promise. A deferred left pending by a
      failing callback stays the answer. */
  lemma RepeatShares(s: CacheState, key: string, entry: Option<string>, mtime: Option<int>,
                     outcome1: Option<string>, outcome2: Option<string>)
    ensures var (s1, d1) := Step(s, key, entry, mtime, outcome1);
      Step(s1, key, entry, mtime, outcome2) == (s1, d1)
  {
    var (s1, d1) := Step(s, key, entry, mtime, outcome1);
    assert !Stale(s1, key, entry, mtime);
  }

  /** The mutable cache, as the module-level maps of the plugin. */
  class DeferredCache {
    var deferreds: map<string, Deferred>
    var mtimes: map<string, int>
    var invocations: nat

    function State(): CacheState
      reads this
    {
      CacheState(deferreds, mtimes, invocations)
    }

    constructor()
      ensures State() == CacheState(map[], map[], 0)
    {
      deferreds, mtimes, invocations := map[], map[], 0;
    }

    /** `deferredCode(key, entry, callback)`. */
    method Get(key: string, entry: Option<string>, mtime: Option<int>, outcome: Option<string>)
      returns (d: Deferred)
      modifies this
      ensures (State(), d) == Step(old(State()), key, entry, mtime, outcome)
    {
      if Truthy(entry) {
        if mtime.Some? && (key !in mtimes || mtimes[key] != mtime.value) {
          mtimes := mtimes[key := mtime.value];
          deferreds := deferreds - {key};
        }
      }
      if key !in deferreds {
        var created := Deferred(invocations, outcome);
        deferreds := deferreds[key := created];
        invocations := invocations + 1;
      }
      d := deferreds[key];
    }
  }

  // ---------------------------------------------------------------------
  // Keys

  datatype Generate = Dom | Ssr

  function GenerateName(g: Generate): string {
    if g == Dom then "dom" else "ssr"
  }

  function CompileKey(g: Generate, path: string): string {
    "compile:" + GenerateName(g) + ":" + path
  }

  function FileKey(g: Generate, path: string): string {
    "file:" + GenerateName(g) + ":" + path
  }

  /** Fetched text does not depend on the flavour, so its key has none. */
  function FetchKey(path: string): string {
    "fetch:" + path
  }

  /** Compile and file keys embed the flavour: dom and ssr results never
      share an entry, and keys of different kinds never collide. */
  lemma KeysSeparate(g: Generate, h: Generate, p: string, q: string)
    ensures g != h ==> CompileKey(g, p) != CompileKey(h, q)
    ensures g != h ==> FileKey(g, p) != FileKey(h, q)
    ensures CompileKey(g, p) != FileKey(h, q)
    ensures CompileKey(g, p) != FetchKey(q) && FileKey(g, p) != FetchKey(q)
  {
    assert CompileKey(g, p)[0] == 'c' && FileKey(h, q)[0] == 'f' && FetchKey(q)[0] == 'f';
    assert FileKey(g, p)[1] == 'i' && FetchKey(q)[1] == 'e';
    if g != h {
      assert CompileKey(g, p)[8] == GenerateName(g)[0];
      assert CompileKey(h, q)[8] == GenerateName(h)[0];
      assert FileKey(g, p)[5] == GenerateName(g)[0];
      assert FileKey(h, q)[5] == GenerateName(h)[0];
    }
  }

  /** Within one kind and flavour, different paths get different keys. */
  lemma KeysInjective(g: Generate, p: string, q: string)
    requires p != q
    ensures CompileKey(g, p) != CompileKey(g, q)
    ensures FileKey(g, p) != FileKey(g, q)
    ensures FetchKey(p) != FetchKey(q)
  {
    var c := "compile:" + GenerateName(g) + ":";
    var f := "file:" + GenerateName(g) + ":";
    assert CompileKey(g, p) == c + p && CompileKey(g, q) == c + q;
    assert FileKey(g, p) == f + p && FileKey(g, q) == f + q;
    assert (c + p)[|c|..] == p && (c + q)[|c|..] == q;
    assert (f + p)[|f|..] == p && (f + q)[|f|..] == q;
    assert FetchKey(p)[6..] == p && FetchKey(q)[6..] == q;
  }

  // ---------------------------------------------------------------------
  // Load hooks

  /** The loader of a fetched non-Svelte module: its extension when that is
      `js`, `ts` or `json`, else `js`. */
  function FetchLoader(path: string): (r: string)
    ensures r == "js" || r == "ts" || r == "json"
    ensures var ext := Paths.Extname(path);
      ext != "" && (ext[1..] == "ts" || ext[1..] == "json") ==> r == ext[1..]
  {
    var e := Paths.Extname(path);
    var ext := if e == "" then "" else e[1..];
    if ext == "js" || ext == "ts" || ext == "json" then ext else "js"
  }

  /** The hook for remote (`file:`/`https:`) modules: fetch under a key
      shared by both flavours, and for a `.svelte` module compile the
      fetched text under a compile key for the URL's `pathname`. `None`
      stands for a hook that never answers because a promise it awaits
      stays pending. */
  method LoadRemote(cache: DeferredCache, g: Generate, path: string, pathname: string,
                    fetched: Option<string>, compile: string -> Option<string>)
    returns (r: Option<(string, string)>)
    modifies cache
    ensures var (s1, d1) := Step(old(cache.State()), FetchKey(path), None, None, fetched);
      if d1.value.None? then r.None? && cache.State() == s1
      else if EndsWith(path, ".svelte") then
        var (s2, d2) := Step(s1, CompileKey(g, pathname), None, None, compile(d1.value.value));
        cache.State() == s2 && r == (if d2.value.Some? then Some((d2.value.value, "js")) else None)
      else cache.State() == s1 && r == Some((d1.value.value, FetchLoader(path)))
  {
    var d := cache.Get(FetchKey(path), None, None, fetched);
    if d.value.None? {
      return None;
    }
    var contents := d.value.value;
    if EndsWith(path, ".svelte") {
      var c := cache.Get(CompileKey(g, pathname), None, None, compile(contents));
      if c.value.None? {
        return None;
      }
      return Some((c.value.value, "js"));
    }
    return Some((contents, FetchLoader(path)));
  }

  /** The hook for local `.svelte` files: compile under a key naming the
      flavour and the path, evicted when the file changes. */
  method LoadSvelte(cache: DeferredCache, g: Generate, path: string, mtime: Option<int>, compiled: Option<string>)
    returns (r: Option<string>)
    modifies cache
    ensures var (s1, d1) := Step(old(cache.State()), CompileKey(g, path), Some(path), mtime, compiled);
      cache.State() == s1 && r == d1.value
  {
    var d := cache.Get(CompileKey(g, path), Some(path), mtime, compiled);
    r := d.value;
  }

  /** The hook for local `.js`/`.ts`/`.json` files: read under a file key,
      evicted when the file changes; the loader is the extension. */
  method LoadFile(cache: DeferredCache, g: Generate, path: string, mtime: Option<int>, text: Option<string>)
    returns (r: Option<(string, string)>)
    modifies cache
    ensures var (s1, d1) := Step(old(cache.State()), FileKey(g, path), Some(path), mtime, text);
      var e := Paths.Extname(path);
      cache.State() == s1
      && r == (if d1.value.Some? then Some((d1.value.value, if e == "" then "" else e[1..])) else None)
  {
    var d := cache.Get(FileKey(g, path), Some(path), mtime, text);
    var e := Paths.Extname(path);
    r := if d.value.Some? then Some((d.value.value, if e == "" then "" else e[1..])) else None;
  }
}
