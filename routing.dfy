/** What the route generators share: the directory listing they walk, the
    route record, the rewriting of a route file's path into a URL pattern,
    the ordering of routes by `order`, and the trailing-slash toggle of the
    redirect helpers. */
module Routing {
  import opened Text
  import Paths

  // ---------------------------------------------------------------------
  // Directory listings

  /** An entry of `Deno.readDir`: a file, a directory with its own entries
      in listing order, or something that is neither (a symbolic link). */
  datatype Entry = File(name: string) | Dir(name: string, entries: seq<Entry>) | Other(name: string)

  datatype TraverseError = TooDeep

  /** The recursion depth at which the traversals give up. */
  const MaxDepth: nat := 10

  /** Names as a directory listing gives them: non-empty, no separator. */
  predicate ValidNames(es: seq<Entry>)
    decreases es
  {
    forall i | 0 <= i < |es| ::
      es[i].name != "" && NoChar(es[i].name, '/')
      && (es[i].Dir? ==> ValidNames(es[i].entries))
  }

  function Max(a: nat, b: nat): nat {
    if a < b then b else a
  }

  /** How many directory levels the listing holds below its own level. */
  function Height(es: seq<Entry>): nat
    decreases es
  {
    if es == [] then 0
    else Max(if es[0].Dir? then 1 + Height(es[0].entries) else 0, Height(es[1..]))
  }

  /** `prefix` followed by what `r` collects, or `r`'s error. */
  function Then<T>(prefix: seq<T>, r: Result<seq<T>, TraverseError>): Result<seq<T>, TraverseError> {
    if r.Ok? then Ok(prefix + r.value) else r
  }

  lemma ThenEmpty<T>(r: Result<seq<T>, TraverseError>)
    ensures Then([], r) == r
  {
    if r.Ok? {
      assert [] + r.value == r.value;
    }
  }

  lemma ThenThen<T>(a: seq<T>, b: seq<T>, r: Result<seq<T>, TraverseError>)
    ensures Then(a, Then(b, r)) == Then(a + b, r)
  {
    if r.Ok? {
      assert a + (b + r.value) == (a + b) + r.value;
    }
  }

  /** The recursive `traverse(dir, depth)` of the route generators: give up
      at `MaxDepth`, descend into directories in listing order, and collect
      `path.join(dir, name)` for every file whose name `keep` accepts. */
  function Collect(dir: string, es: seq<Entry>, depth: nat, keep: string -> bool): Result<seq<string>, TraverseError>
    decreases es, 1
  {
    if depth >= MaxDepth then Err(TooDeep) else CollectEntries(dir, es, depth, keep)
  }

  function CollectEntries(dir: string, es: seq<Entry>, depth: nat, keep: string -> bool): Result<seq<string>, TraverseError>
    decreases es, 0
  {
    if es == [] then Ok([])
    else
      var head := match es[0]
        case Dir(n, cs) => Collect(Paths.Join(dir, n), cs, depth + 1, keep)
        case File(n) => Ok(if keep(n) then [Paths.Join(dir, n)] else [])
        case Other(_) => Ok([]);
      if head.Err? then head else Then(head.value, CollectEntries(dir, es[1..], depth, keep))
  }

  /** The traversal loop: directories first recurse, other entries that are
      not files are skipped, kept files are pushed. */
  method CollectFiles(dir: string, es: seq<Entry>, depth: nat, keep: string -> bool)
    returns (r: Result<seq<string>, TraverseError>)
    ensures r == Collect(dir, es, depth, keep)
    decreases es, 1
  {
    if depth >= MaxDepth {
      return Err(TooDeep);
    }
    var paths: seq<string> := [];
    var i := 0;
    assert es[0..] == es;
    ThenEmpty(CollectEntries(dir, es, depth, keep));
    while i < |es|
      invariant 0 <= i <= |es|
      invariant CollectEntries(dir, es, depth, keep) == Then(paths, CollectEntries(dir, es[i..], depth, keep))
      decreases |es| - i
    {
      var e := es[i];
      assert es[i..][0] == e && es[i..][1..] == es[i + 1..];
      var found: seq<string> := [];
      if e.Dir? {
        var sub := CollectFiles(Paths.Join(dir, e.name), e.entries, depth + 1, keep);
        if sub.Err? {
          return sub;
        }
        found := sub.value;
      } else if e.File? && keep(e.name) {
        found := [Paths.Join(dir, e.name)];
      }
      ThenThen(paths, found, CollectEntries(dir, es[i + 1..], depth, keep));
      paths := paths + found;
      i := i + 1;
    }
    assert paths + [] == paths;
    return Ok(paths);
  }

  /** The traversal fails exactly when a directory is nested `MaxDepth`
      levels below the starting depth's folder (an empty one counts). */
  lemma {:induction false} CollectTooDeep(dir: string, es: seq<Entry>, depth: nat, keep: string -> bool)
    ensures Collect(dir, es, depth, keep).Err? <==> depth + Height(es) >= MaxDepth
    decreases es, 1
  {
    if depth < MaxDepth {
      CollectEntriesTooDeep(dir, es, depth, keep);
    }
  }

  lemma {:induction false} CollectEntriesTooDeep(dir: string, es: seq<Entry>, depth: nat, keep: string -> bool)
    ensures CollectEntries(dir, es, depth, keep).Err? <==> Height(es) > 0 && depth + Height(es) >= MaxDepth
    decreases es, 0
  {
    if es != [] {
      CollectEntriesTooDeep(dir, es[1..], depth, keep);
      if es[0].Dir? {
        CollectTooDeep(Paths.Join(dir, es[0].name), es[0].entries, depth + 1, keep);
      }
    }
  }

  /** What the generators make of the collected files `paths` in order,
      `mk` making the items of one file. */
  function Concat<T>(paths: seq<string>, mk: string -> seq<T>): seq<T>
    decreases |paths|
  {
    if paths == [] then [] else Concat(paths[..|paths| - 1], mk) + mk(paths[|paths| - 1])
  }

  /** An item is made exactly when it is one that `mk` makes of some
      file. */
  lemma {:induction false} ConcatMember<T>(paths: seq<string>, mk: string -> seq<T>, x: T)
    ensures x in Concat(paths, mk) <==> exists p :: p in paths && x in mk(p)
    decreases |paths|
  {
    if paths != [] {
      var init := paths[..|paths| - 1];
      ConcatMember(init, mk, x);
      assert paths == init + [paths[|paths| - 1]];
    }
  }

  /** The test `/\.(js|ts|svelte)$/` on a file name. */
  predicate RouteFile(name: string) {
    EndsWith(name, ".js") || EndsWith(name, ".ts") || EndsWith(name, ".svelte")
  }

  /** A path is the path of a kept file somewhere in the listing. */
  predicate Listed(dir: string, es: seq<Entry>, p: string, keep: string -> bool)
    decreases es
  {
    es != [] &&
    ((match es[0]
      case Dir(n, cs) => Listed(Paths.Join(dir, n), cs, p, keep)
      case File(n) => keep(n) && p == Paths.Join(dir, n)
      case Other(_) => false)
     || Listed(dir, es[1..], p, keep))
  }

  /** When the traversal succeeds it collects exactly the listed paths. */
  lemma {:induction false} CollectListed(dir: string, es: seq<Entry>, depth: nat, keep: string -> bool, p: string)
    requires CollectEntries(dir, es, depth, keep).Ok?
    ensures p in CollectEntries(dir, es, depth, keep).value <==> Listed(dir, es, p, keep)
    decreases es
  {
    if es != [] {
      CollectListed(dir, es[1..], depth, keep, p);
      if es[0].Dir? && depth + 1 < MaxDepth {
        CollectListed(Paths.Join(dir, es[0].name), es[0].entries, depth + 1, keep, p);
      }
    }
  }

  /** Every listed path names a file that the filter accepts. */
  lemma {:induction false} ListedKept(dir: string, es: seq<Entry>, p: string, keep: string -> bool)
    requires ValidNames(es) && Listed(dir, es, p, keep)
    ensures keep(Paths.Basename(p))
    decreases es
  {
    if Listed(dir, es[1..], p, keep) {
      ListedKept(dir, es[1..], p, keep);
    } else {
      match es[0]
      case Dir(n, cs) =>
        ListedKept(Paths.Join(dir, n), cs, p, keep);
      case File(n) =>
        Paths.BasenameJoin(dir, n);
      case Other(_) =>
    }
  }

  // ---------------------------------------------------------------------
  // Path to pattern

  /** The regular expression replacement `/\([^\)]+?\)\/?/g` to nothing:
      a `(`, at least one character up to the next `)`, that `)` and an
      optional `/` are dropped; scanning resumes after the removed text. */
  function RemoveGroups(s: string): string
    decreases |s|
  {
    if s == [] then []
    else
      var j := if s[0] == '(' then IndexOfChar(s, ')', 1) else -1;
      if j >= 2 then RemoveGroups(s[if j + 1 < |s| && s[j + 1] == '/' then j + 2 else j + 1..])
      else [s[0]] + RemoveGroups(s[1..])
  }

  /** The regular expression replacement `/\[([^\]]+?)\]/g` to `:$1`. */
  function NamedParams(s: string): string
    decreases |s|
  {
    if s == [] then []
    else
      var j := if s[0] == '[' then IndexOfChar(s, ']', 1) else -1;
      if j >= 2 then [':'] + s[1..j] + NamedParams(s[j + 1..])
      else [s[0]] + NamedParams(s[1..])
  }

  /** Append `/` unless the text already ends with one. */
  function EnsureSlash(p: string): (r: string)
    ensures EndsWith(r, "/")
  {
    if p != "" && p[|p| - 1] == '/' then p else p + "/"
  }

  /** The folder part of a route: the groups removed, the parameters
      converted, the directory part taken, a trailing `/` ensured. */
  function DirPattern(rel: string): string {
    EnsureSlash(Paths.Dirname(NamedParams(RemoveGroups("/" + rel))))
  }

  /** The pattern of a route file at `rel` below the routes folder; its own
      basename, without extension and not rewritten, is appended unless it
      contains `index.`. */
  function FilePattern(rel: string, entry: string): string {
    var base := Paths.Basename(entry);
    if Contains(base, "index.") then DirPattern(rel)
    else DirPattern(rel) + Paths.BasenameWithout(entry, Paths.Extname(entry))
  }

  /** The pattern of the route file `entry` at `rel`, built by
      reassignment as the generators do. */
  method DerivePattern(rel: string, entry: string) returns (pattern: string)
    ensures pattern == FilePattern(rel, entry)
  {
    pattern := "/" + rel;
    pattern := RemoveGroups(pattern);
    pattern := NamedParams(pattern);
    pattern := Paths.Dirname(pattern);
    if pattern == "" || pattern[|pattern| - 1] != '/' {
      pattern := pattern + "/";
    }
    if !Contains(Paths.Basename(entry), "index.") {
      pattern := pattern + Paths.BasenameWithout(entry, Paths.Extname(entry));
    }
  }

  /** A folder on a route file's path: a plain name, a `[param]` folder or a
      `(group)` folder. */
  datatype Segment = Plain(text: string) | Param(param: string) | Group(group: string)

  predicate PlainText(s: string) {
    s != "" && NoChar(s, '/') && NoChar(s, '(') && NoChar(s, ')') && NoChar(s, '[') && NoChar(s, ']')
  }

  predicate ValidSegment(g: Segment) {
    match g
    case Plain(t) => PlainText(t)
    case Param(p) => PlainText(p)
    case Group(n) => PlainText(n)
  }

  predicate ValidSegments(segs: seq<Segment>) {
    forall i | 0 <= i < |segs| :: ValidSegment(segs[i])
  }

  /** A folder as it is named on disk, with its separator. */
  function FolderEntry(g: Segment): string {
    match g
    case Plain(t) => t + "/"
    case Param(p) => "[" + p + "]/"
    case Group(n) => "(" + n + ")/"
  }

  /** The path of file `name` below the folders, relative to the routes
      folder. */
  function RelPath(segs: seq<Segment>, name: string): string
    decreases |segs|
  {
    if segs == [] then name else FolderEntry(segs[0]) + RelPath(segs[1..], name)
  }

  /** A folder as it appears in a URL pattern: a plain name kept, `[p]` as
      `:p`, a group gone. */
  function PatternEntry(g: Segment): string {
    match g
    case Plain(t) => t + "/"
    case Param(p) => ":" + p + "/"
    case Group(_) => ""
  }

  function FolderPattern(segs: seq<Segment>): string
    decreases |segs|
  {
    if segs == [] then "" else PatternEntry(segs[0]) + FolderPattern(segs[1..])
  }

  /** The folders without groups. */
  function Ungrouped(segs: seq<Segment>): (r: seq<Segment>)
    ensures forall i | 0 <= i < |r| :: !r[i].Group?
    decreases |segs|
  {
    if segs == [] then []
    else if segs[0].Group? then Ungrouped(segs[1..])
    else [segs[0]] + Ungrouped(segs[1..])
  }

  lemma {:induction false} UngroupedValid(segs: seq<Segment>)
    requires ValidSegments(segs)
    ensures ValidSegments(Ungrouped(segs))
    decreases |segs|
  {
    if segs != [] {
      UngroupedValid(segs[1..]);
    }
  }

  /** Well-formed folders give a pattern that is empty or ends with one
      `/` after a name. */
  lemma {:induction false} FolderPatternShape(segs: seq<Segment>)
    requires ValidSegments(segs)
    ensures var r := FolderPattern(segs); r == "" || (|r| >= 2 && r[|r| - 1] == '/' && r[|r| - 2] != '/')
    decreases |segs|
  {
    if segs != [] {
      FolderPatternShape(segs[1..]);
      var e := PatternEntry(segs[0]);
      var r := FolderPattern(segs[1..]);
      if r == "" {
        assert e + r == e;
      } else {
        assert (e + r)[|e + r| - 1] == r[|r| - 1] && (e + r)[|e + r| - 2] == r[|r| - 2];
      }
    }
  }

  lemma {:induction false} RemoveGroupsPlain(a: string, b: string)
    requires NoChar(a, '(')
    ensures RemoveGroups(a + b) == a + RemoveGroups(b)
    decreases |a|
  {
    if a != [] {
      var s := a + b;
      assert s[0] == a[0] && s[1..] == a[1..] + b;
      RemoveGroupsPlain(a[1..], b);
      assert RemoveGroups(s) == [s[0]] + RemoveGroups(s[1..]);
      assert a == [a[0]] + a[1..];
    } else {
      assert a + b == b;
    }
  }

  lemma {:induction false} NamedParamsPlain(a: string, b: string)
    requires NoChar(a, '[')
    ensures NamedParams(a + b) == a + NamedParams(b)
    decreases |a|
  {
    if a != [] {
      var s := a + b;
      assert s[0] == a[0] && s[1..] == a[1..] + b;
      NamedParamsPlain(a[1..], b);
      assert NamedParams(s) == [s[0]] + NamedParams(s[1..]);
      assert a == [a[0]] + a[1..];
    } else {
      assert a + b == b;
    }
  }

  /** A `(n)/` folder is dropped. */
  lemma DropGroup(n: string, rest: string)
    requires PlainText(n)
    ensures RemoveGroups(FolderEntry(Group(n)) + rest) == RemoveGroups(rest)
  {
    var s := FolderEntry(Group(n)) + rest;
    assert s[0] == '(' && s[1 + |n|] == ')' && s[2 + |n|] == '/';
    assert forall k :: 1 <= k < 1 + |n| ==> s[k] == n[k - 1];
    assert IndexOfChar(s, ')', 1) == 1 + |n|;
    assert s[3 + |n|..] == rest;
  }

  /** A `[p]/` folder becomes `:p/`. */
  lemma ConvertParam(p: string, rest: string)
    requires PlainText(p)
    ensures NamedParams(FolderEntry(Param(p)) + rest) == PatternEntry(Param(p)) + NamedParams(rest)
  {
    var tail := "/" + rest;
    ParamAt(p, tail);
    NamedParamsPlain("/", rest);
    assert FolderEntry(Param(p)) + rest == ['['] + p + [']'] + tail;
    assert PatternEntry(Param(p)) + NamedParams(rest) == ":" + p + ("/" + NamedParams(rest));
  }

  /** `[p]` followed by `tail` becomes `:p`. */
  lemma ParamAt(p: string, tail: string)
    requires PlainText(p)
    ensures NamedParams(['['] + p + [']'] + tail) == ":" + p + NamedParams(tail)
  {
    var s := ['['] + p + [']'] + tail;
    Bracketed(s, p, tail, '[', ']');
    FirstIndex(s, ']', 1, 1 + |p|);
    ParamStep(s, p, tail);
  }

  /** The parts of `open`, `p`, `close` and `tail` in a row. */
  lemma Bracketed(s: string, p: string, tail: string, open: char, close: char)
    requires s == [open] + p + [close] + tail
    ensures |s| > 1 + |p| && s[0] == open && s[1 + |p|] == close
    ensures s[1..1 + |p|] == p && s[2 + |p|..] == tail
    ensures forall k :: 1 <= k < 1 + |p| ==> s[k] == p[k - 1]
  {
  }

  lemma FirstIndex(s: string, c: char, from: nat, r: nat)
    requires from <= r < |s| && s[r] == c && forall k :: from <= k < r ==> s[k] != c
    ensures IndexOfChar(s, c, from) == r
  {
  }

  /** A `[p]` at the head of `s` is written `:p`. */
  lemma ParamStep(s: string, p: string, tail: string)
    requires |p| >= 1 && |s| > 1 + |p| && s[0] == '[' && IndexOfChar(s, ']', 1) == 1 + |p|
    requires s[1..1 + |p|] == p && s[2 + |p|..] == tail
    ensures NamedParams(s) == ":" + p + NamedParams(tail)
  {
  }

  /** Groups vanish from the path, separator included. */
  lemma {:induction false} RemoveGroupsFolders(segs: seq<Segment>, name: string)
    requires ValidSegments(segs) && NoChar(name, '(')
    ensures RemoveGroups(RelPath(segs, name)) == RelPath(Ungrouped(segs), name)
    decreases |segs|
  {
    if segs == [] {
      RemoveGroupsPlain(name, "");
      assert name + "" == name;
    } else {
      var g := segs[0];
      var rest := RelPath(segs[1..], name);
      RemoveGroupsFolders(segs[1..], name);
      if g.Group? {
        DropGroup(g.group, rest);
      } else {
        assert NoChar(FolderEntry(g), '(');
        RemoveGroupsPlain(FolderEntry(g), rest);
        var u := Ungrouped(segs[1..]);
        assert ([g] + u)[0] == g && ([g] + u)[1..] == u;
      }
    }
  }

  /** One folder that is not a group, with parameters converted. */
  lemma NamedParamsEntry(g: Segment, rest: string)
    requires ValidSegment(g) && !g.Group?
    ensures NamedParams(FolderEntry(g) + rest) == PatternEntry(g) + NamedParams(rest)
  {
    if g.Param? {
      ConvertParam(g.param, rest);
    } else {
      assert NoChar(FolderEntry(g), '[');
      NamedParamsPlain(FolderEntry(g), rest);
    }
  }

  /** `[p]/` becomes `:p/` along the path. */
  lemma {:induction false} NamedParamsFolders(segs: seq<Segment>, name: string)
    requires ValidSegments(segs) && forall i | 0 <= i < |segs| :: !segs[i].Group?
    ensures NamedParams(RelPath(segs, name)) == FolderPattern(segs) + NamedParams(name)
    decreases |segs|
  {
    if segs != [] {
      NamedParamsFolders(segs[1..], name);
      NamedParamsEntry(segs[0], RelPath(segs[1..], name));
      Assoc(PatternEntry(segs[0]), FolderPattern(segs[1..]), NamedParams(name));
    }
  }

  /** Grouped folders leave the same pattern as the folders without them. */
  lemma {:induction false} FolderPatternUngrouped(segs: seq<Segment>)
    ensures FolderPattern(Ungrouped(segs)) == FolderPattern(segs)
    decreases |segs|
  {
    if segs != [] {
      FolderPatternUngrouped(segs[1..]);
      if segs[0].Group? {
        assert FolderPattern(segs) == "" + FolderPattern(segs[1..]);
      } else {
        var u := Ungrouped(segs[1..]);
        assert ([segs[0]] + u)[0] == segs[0] && ([segs[0]] + u)[1..] == u;
      }
    }
  }

  /** Replacing parameters keeps a non-empty name non-empty and adds no
      separator. */
  lemma {:induction false} NamedParamsName(s: string)
    requires s != "" && NoChar(s, '/')
    ensures NamedParams(s) != "" && NoChar(NamedParams(s), '/')
    decreases |s|
  {
    var j := if s[0] == '[' then IndexOfChar(s, ']', 1) else -1;
    var rest := if j >= 2 then s[j + 1..] else s[1..];
    NoCharDrop(s, if j >= 2 then j + 1 else 1, '/');
    if rest != "" { NamedParamsName(rest); }
    if j >= 2 {
      ParamCase(s, j, NamedParams(rest));
    } else {
      PlainCase(s, NamedParams(rest));
    }
  }

  lemma ParamCase(s: string, j: int, tail: string)
    requires s != "" && NoChar(s, '/') && s[0] == '[' && j == IndexOfChar(s, ']', 1) && j >= 2
    requires tail == NamedParams(s[j + 1..]) && NoChar(tail, '/')
    ensures NamedParams(s) != "" && NoChar(NamedParams(s), '/')
  {
    ParamHead(s, j);
    NoCharSlice(s, 1, j, '/');
    NoCharJoin([':'], s[1..j], [':'] + s[1..j], '/');
    NoCharJoin([':'] + s[1..j], tail, NamedParams(s), '/');
  }

  lemma PlainCase(s: string, tail: string)
    requires s != "" && NoChar(s, '/') && !(s[0] == '[' && IndexOfChar(s, ']', 1) >= 2)
    requires tail == NamedParams(s[1..]) && NoChar(tail, '/')
    ensures NamedParams(s) != "" && NoChar(NamedParams(s), '/')
  {
    PlainHead(s);
    NoCharJoin([s[0]], tail, NamedParams(s), '/');
  }

  lemma NoCharDrop(s: string, i: nat, c: char)
    requires i <= |s| && NoChar(s, c)
    ensures NoChar(s[i..], c)
  {
    forall k | 0 <= k < |s| - i ensures s[i..][k] != c {
      assert s[i..][k] == s[i + k];
    }
  }

  lemma ParamHead(s: string, j: int)
    requires s != "" && s[0] == '[' && j == IndexOfChar(s, ']', 1) && j >= 2
    ensures NamedParams(s) == [':'] + s[1..j] + NamedParams(s[j + 1..])
  {
  }

  lemma PlainHead(s: string)
    requires s != "" && !(s[0] == '[' && IndexOfChar(s, ']', 1) >= 2)
    ensures NamedParams(s) == [s[0]] + NamedParams(s[1..])
  {
  }

  lemma NoCharSlice(s: string, i: nat, j: nat, c: char)
    requires i <= j <= |s| && NoChar(s, c)
    ensures NoChar(s[i..j], c)
  {
    forall k | 0 <= k < j - i ensures s[i..j][k] != c {
      assert s[i..j][k] == s[i + k];
    }
  }

  lemma NoCharJoin(a: string, b: string, ab: string, c: char)
    requires ab == a + b && NoChar(a, c) && NoChar(b, c)
    ensures NoChar(ab, c) && (a != "" ==> ab != "")
  {
    forall k | 0 <= k < |ab| ensures ab[k] != c {
      if k >= |a| { assert ab[k] == b[k - |a|]; }
    }
  }

  /** Both rewrites along a well-formed path: groups gone and parameters
      converted, folder by folder, then the converted file name. */
  lemma RewriteFolders(segs: seq<Segment>, name: string)
    requires ValidSegments(segs) && NoChar(name, '(')
    ensures NamedParams(RemoveGroups("/" + RelPath(segs, name))) == ("/" + FolderPattern(segs)) + NamedParams(name)
  {
    var plain := Ungrouped(segs);
    UngroupedValid(segs);
    RemoveGroupsPlain("/", RelPath(segs, name));
    RemoveGroupsFolders(segs, name);
    NamedParamsPlain("/", RelPath(plain, name));
    NamedParamsFolders(plain, name);
    FolderPatternUngrouped(segs);
  }

  /** The folder part of a rooted folder path followed by a name, with the
      trailing `/` put back, is that folder path. */
  lemma EnsureSlashDirname(a: string, n: string)
    requires |a| >= 1 && a[0] == '/' && a[|a| - 1] == '/'
    requires |a| == 1 || a[|a| - 2] != '/'
    requires n != "" && NoChar(n, '/')
    ensures EnsureSlash(Paths.Dirname(a + n)) == a
  {
    Paths.DirnameOf(a, n);
    if |a| > 1 {
      assert a[..|a| - 1] + "/" == a;
    }
  }

  /** The folder part of the pattern of a well-formed path. */
  lemma DirPatternOfFolders(segs: seq<Segment>, name: string)
    requires ValidSegments(segs)
    requires name != "" && NoChar(name, '/') && NoChar(name, '(')
    ensures DirPattern(RelPath(segs, name)) == "/" + FolderPattern(segs)
  {
    RewriteFolders(segs, name);
    RootedFolders(segs);
    NamedParamsName(name);
    EnsureSlashDirname("/" + FolderPattern(segs), NamedParams(name));
  }

  /** The folder pattern with its leading `/`: a `/`, or a rooted path
      ending with one `/` after a name. */
  lemma RootedFolders(segs: seq<Segment>)
    requires ValidSegments(segs)
    ensures var a := "/" + FolderPattern(segs);
      |a| >= 1 && a[0] == '/' && a[|a| - 1] == '/' && (|a| == 1 || a[|a| - 2] != '/')
  {
    var folders := FolderPattern(segs);
    FolderPatternShape(segs);
    var a := "/" + folders;
    if folders != "" {
      assert a[|a| - 1] == folders[|folders| - 1] && a[|a| - 2] == folders[|folders| - 2];
    }
  }

  /** The pattern of a route file under well-formed folders: a `/`, then
      each folder in order with groups dropped and `[p]` written `:p`, each
      followed by `/`; then the file's own name without its extension,
      exactly as on disk, unless that name contains `index.`. */
  lemma PatternOfFolders(segs: seq<Segment>, name: string, entry: string)
    requires ValidSegments(segs)
    requires name != "" && NoChar(name, '/') && NoChar(name, '(')
    ensures FilePattern(RelPath(segs, name), entry) == "/" + FolderPattern(segs)
      + (if Contains(Paths.Basename(entry), "index.") then "" else Paths.BasenameWithout(entry, Paths.Extname(entry)))
  {
    DirPatternOfFolders(segs, name);
    var d := "/" + FolderPattern(segs);
    assert d + "" == d;
  }

  /** A group folder changes nothing in the pattern. */
  lemma GroupTransparent(g: string, segs: seq<Segment>, name: string)
    requires PlainText(g) && ValidSegments(segs)
    requires name != "" && NoChar(name, '/') && NoChar(name, '(')
    ensures DirPattern(RelPath([Group(g)] + segs, name)) == DirPattern(RelPath(segs, name))
  {
    GroupPrefix(g, segs);
    DirPatternOfFolders([Group(g)] + segs, name);
    DirPatternOfFolders(segs, name);
  }

  lemma GroupPrefix(g: string, segs: seq<Segment>)
    requires PlainText(g) && ValidSegments(segs)
    ensures ValidSegments([Group(g)] + segs)
    ensures FolderPattern([Group(g)] + segs) == FolderPattern(segs)
  {
    var all := [Group(g)] + segs;
    assert all[0] == Group(g) && all[1..] == segs;
    forall i | 0 <= i < |all| ensures ValidSegment(all[i]) {
      if i > 0 { assert all[i] == segs[i - 1]; }
    }
    assert FolderPattern(all) == "" + FolderPattern(segs);
  }

  // ---------------------------------------------------------------------
  // Routes and their order

  /** A route as the generators hand it on: HTTP method, pattern, the module
      hash, and its optional `order`. */
  datatype Route = Route(verb: string, pattern: string, hash: string, order: Option<int>)

  /** `route.order ?? 0`. */
  function OrderOf(r: Route): int {
    if r.order.Some? then r.order.value else 0
  }

  predicate SortedByOrder(s: seq<Route>) {
    forall i, j :: 0 <= i < j < |s| ==> OrderOf(s[i]) <= OrderOf(s[j])
  }

  /** `x` placed after every route whose order is not greater. */
  function InsertByOrder(s: seq<Route>, x: Route): (r: seq<Route>)
    ensures multiset(r) == multiset(s) + multiset{x}
    decreases |s|
  {
    if s == [] || OrderOf(s[|s| - 1]) <= OrderOf(x) then s + [x]
    else
      assert s == s[..|s| - 1] + [s[|s| - 1]];
      InsertByOrder(s[..|s| - 1], x) + [s[|s| - 1]]
  }

  /** `routes.sort((a, b) => (a.order ?? 0) - (b.order ?? 0))`, which is a
      stable sort. */
  function SortByOrder(s: seq<Route>): seq<Route>
    decreases |s|
  {
    if s == [] then [] else InsertByOrder(SortByOrder(s[..|s| - 1]), s[|s| - 1])
  }

  /** The routes of one order, in their relative order. */
  function WithOrder(s: seq<Route>, k: int): seq<Route>
    decreases |s|
  {
    if s == [] then []
    else WithOrder(s[..|s| - 1], k) + (if OrderOf(s[|s| - 1]) == k then [s[|s| - 1]] else [])
  }

  lemma {:induction false} InsertSorted(s: seq<Route>, x: Route)
    requires SortedByOrder(s)
    ensures SortedByOrder(InsertByOrder(s, x))
    decreases |s|
  {
    if s == [] {
      assert InsertByOrder(s, x) == [x];
    } else if OrderOf(s[|s| - 1]) > OrderOf(x) {
      var init, last := s[..|s| - 1], s[|s| - 1];
      assert SortedByOrder(init);
      InsertSorted(init, x);
      var r := InsertByOrder(init, x);
      forall i | 0 <= i < |init| ensures OrderOf(init[i]) <= OrderOf(last) {
        assert init[i] == s[i];
      }
      BoundedBy(init, x, r, OrderOf(last));
      SortedSnoc(r, last);
      assert InsertByOrder(s, x) == r + [last];
    } else {
      forall i | 0 <= i < |s| ensures OrderOf(s[i]) <= OrderOf(x) {
        if i < |s| - 1 { assert OrderOf(s[i]) <= OrderOf(s[|s| - 1]); }
      }
      SortedSnoc(s, x);
    }
  }

  /** Everything in `r`, made of `s` and `x`, is bounded when they are. */
  lemma BoundedBy(s: seq<Route>, x: Route, r: seq<Route>, bound: int)
    requires multiset(r) == multiset(s) + multiset{x} && OrderOf(x) <= bound
    requires forall i :: 0 <= i < |s| ==> OrderOf(s[i]) <= bound
    ensures forall i :: 0 <= i < |r| ==> OrderOf(r[i]) <= bound
  {
    forall i | 0 <= i < |r| ensures OrderOf(r[i]) <= bound {
      var y := r[i];
      assert y in multiset(r);
      if y != x {
        assert y in multiset(s);
        var k :| 0 <= k < |s| && s[k] == y;
      }
    }
  }

  lemma SortedSnoc(r: seq<Route>, last: Route)
    requires SortedByOrder(r) && forall i :: 0 <= i < |r| ==> OrderOf(r[i]) <= OrderOf(last)
    ensures SortedByOrder(r + [last])
  {
    var t := r + [last];
    forall i, j | 0 <= i < j < |t| ensures OrderOf(t[i]) <= OrderOf(t[j]) {
      if j == |r| {
        assert t[i] == r[i];
      } else {
        assert t[i] == r[i] && t[j] == r[j];
      }
    }
  }

  lemma {:induction false} InsertWithOrder(s: seq<Route>, x: Route, k: int)
    ensures WithOrder(InsertByOrder(s, x), k) == WithOrder(s, k) + (if OrderOf(x) == k then [x] else [])
    decreases |s|
  {
    if s == [] || OrderOf(s[|s| - 1]) <= OrderOf(x) {
      assert (s + [x])[..|s|] == s;
    } else {
      var init := s[..|s| - 1];
      var last := s[|s| - 1];
      InsertWithOrder(init, x, k);
      var r := InsertByOrder(init, x);
      assert (r + [last])[..|r|] == r;
    }
  }

  /** Sorting by `order` orders the routes, keeps every route, and keeps the
      routes of each order in their original relative order. */
  lemma SortByOrderMeaning(s: seq<Route>)
    ensures SortedByOrder(SortByOrder(s))
    ensures multiset(SortByOrder(s)) == multiset(s)
    ensures forall k :: WithOrder(SortByOrder(s), k) == WithOrder(s, k)
  {
    SortSorted(s);
    SortPermutes(s);
    forall k ensures WithOrder(SortByOrder(s), k) == WithOrder(s, k) {
      SortStable(s, k);
    }
  }

  lemma {:induction false} SortSorted(s: seq<Route>)
    ensures SortedByOrder(SortByOrder(s))
    decreases |s|
  {
    if s != [] {
      var init, x := s[..|s| - 1], s[|s| - 1];
      SortSorted(init);
      InsertSorted(SortByOrder(init), x);
    }
  }

  lemma {:induction false} SortPermutes(s: seq<Route>)
    ensures multiset(SortByOrder(s)) == multiset(s)
    decreases |s|
  {
    if s != [] {
      var init, x := s[..|s| - 1], s[|s| - 1];
      SortPermutes(init);
      assert s == init + [x];
    }
  }

  lemma {:induction false} SortStable(s: seq<Route>, k: int)
    ensures WithOrder(SortByOrder(s), k) == WithOrder(s, k)
    decreases |s|
  {
    if s != [] {
      var init, x := s[..|s| - 1], s[|s| - 1];
      SortStable(init, k);
      InsertWithOrder(SortByOrder(init), x, k);
    }
  }

  // ---------------------------------------------------------------------
  // Redirect helpers

  /** Drop a trailing `/` if there is one, else append one. */
  function Toggle(p: string): (r: string)
    ensures r != p
  {
    if p != "" && p[|p| - 1] == '/' then p[..|p| - 1] else p + "/"
  }

  /** Toggling twice gives the pattern back unless it ends with two
      slashes, and toggling always flips whether it ends with one. */
  lemma ToggleTwice(p: string)
    ensures !EndsWith(p, "//") ==> Toggle(Toggle(p)) == p
    ensures !EndsWith(p, "//") ==> (EndsWith(Toggle(p), "/") <==> !EndsWith(p, "/"))
  {
    if p != "" && p[|p| - 1] == '/' {
      var q := p[..|p| - 1];
      if !EndsWith(p, "//") && q != "" {
        assert p[|p| - 2..] == [q[|q| - 1], '/'];
      }
      assert q + "/" == p;
    } else {
      assert (p + "/")[..|p|] == p;
    }
  }

  /** The regular expression `\.[\w]+$|\*`: a `.` then word characters up to the
      end, or a `*` anywhere. */
  predicate FileLike(p: string) {
    (exists i | 0 <= i < |p| - 1 :: p[i] == '.' && forall j | i < j < |p| :: IsWordChar(p[j]))
    || (exists i | 0 <= i < |p| :: p[i] == '*')
  }

  /** RFC 9110, section 15.4.9: 308 Permanent Redirect. */
  const PermanentRedirect := 308

  /** A request URL: `href` is `origin + pathname + tail`. */
  datatype Url = Url(origin: string, pathname: string, tail: string)

  function Href(u: Url): string {
    u.origin + u.pathname + u.tail
  }

  /** What a redirect handler answers. */
  datatype Answer = PassThrough | Redirect(status: int, location: string)
}
