/** The framework's general helpers: `replace`, a text replacement without
    the `$` patterns of the native `String.replace`, and `traverse`, the
    directory walk that skips hidden entries and reports each file to a
    callback. */
module Utils {
  import opened Text
  import Paths
  import opened Routing

  // ---------------------------------------------------------------------
  // replace

  /** `replace(subject, search, replace, all)`: split on `search`, keep one
      split after the first when only the first occurrence is wanted, and
      join with the replacement. An empty `search` splits into characters,
      as JavaScript does; `parts.shift()` of no parts is `undefined`, which
      `join` prints as nothing. */
  function Replace(subject: string, search: string, replacement: string, all: bool): string {
    var parts := Split(subject, search);
    if |parts| == 1 then subject
    else if all then Join(parts, replacement)
    else if parts == [] then replacement
    else Join([parts[0], Join(parts[1..], search)], replacement)
  }

  /** Every occurrence of `p`, leftmost first and not overlapping, replaced by
      `r` as it stands. */
  function ReplaceAll(s: string, p: string, r: string): (t: string)
    requires p != ""
    decreases |s|
  {
    var i := IndexOf(s, p, 0);
    if i < 0 then s else s[..i] + r + ReplaceAll(s[i + |p|..], p, r)
  }

  /** A search text that does not occur leaves the subject unchanged. */
  lemma ReplaceAbsent(subject: string, search: string, replacement: string, all: bool)
    requires search != "" && IndexOf(subject, search, 0) < 0
    ensures Replace(subject, search, replacement, all) == subject
  {
    SplitAbsent(subject, search);
  }

  /** With `all` false only the first occurrence is replaced, and the
      replacement goes in literally. */
  lemma ReplaceOnce(subject: string, search: string, replacement: string)
    requires search != ""
    ensures Replace(subject, search, replacement, false) == ReplaceFirst(subject, search, replacement)
  {
    var i := IndexOf(subject, search, 0);
    if i < 0 {
      SplitAbsent(subject, search);
    } else {
      SplitFirst(subject, search);
      var rest := subject[i + |search|..];
      JoinSplit(rest, search);
      var parts := Split(subject, search);
      assert Join(parts[1..], search) == rest;
      var two := [parts[0], rest];
      assert two[1..] == [rest];
      assert Join(two, replacement) == parts[0] + replacement + rest;
      assert Replace(subject, search, replacement, false) == Join(two, replacement);
    }
  }

  /** Joining the parts of a split with `r` replaces every occurrence. */
  lemma {:induction false} JoinSplitReplaces(s: string, p: string, r: string)
    requires p != ""
    ensures Join(Split(s, p), r) == ReplaceAll(s, p, r)
    decreases |s|
  {
    var i := IndexOf(s, p, 0);
    if i >= 0 {
      var rest := s[i + |p|..];
      JoinSplitReplaces(rest, p, r);
      SplitFirst(s, p);
      var tail := Split(rest, p);
      assert Split(s, p) == [s[..i]] + tail;
      assert |tail| >= 1;
    }
  }

  /** With `all` true every non-overlapping occurrence is replaced. */
  lemma ReplaceEvery(subject: string, search: string, replacement: string)
    requires search != ""
    ensures Replace(subject, search, replacement, true) == ReplaceAll(subject, search, replacement)
  {
    JoinSplitReplaces(subject, search, replacement);
    if |Split(subject, search)| == 1 {
      assert IndexOf(subject, search, 0) < 0;
    }
  }

  /** Replacing a text by itself changes nothing. */
  lemma {:induction false} ReplaceAllSelf(s: string, p: string)
    requires p != ""
    ensures ReplaceAll(s, p, p) == s
    decreases |s|
  {
    var i := IndexOf(s, p, 0);
    if i >= 0 {
      ReplaceAllSelf(s[i + |p|..], p);
      assert s[..i] + p + s[i + |p|..] == s by {
        assert s[i..i + |p|] == p;
        assert s == s[..i] + s[i..i + |p|] + s[i + |p|..];
      }
    }
  }

  // ---------------------------------------------------------------------
  // traverse

  /** Names starting with `.` or `_` are hidden. */
  predicate Hidden(name: string) {
    name != "" && (name[0] == '.' || name[0] == '_')
  }

  /** The callback calls of `traverse(dir, callback, depth)`, as pairs of
      the directory and the file name, in order; or its error. The depth
      test comes before the directory is read. */
  function Walk(dir: string, es: seq<Entry>, depth: nat): Result<seq<(string, string)>, TraverseError>
    decreases es, 1
  {
    if depth >= MaxDepth then Err(TooDeep) else WalkEntries(dir, es, depth)
  }

  function WalkEntries(dir: string, es: seq<Entry>, depth: nat): Result<seq<(string, string)>, TraverseError>
    decreases es, 0
  {
    if es == [] then Ok([])
    else if Hidden(es[0].name) then WalkEntries(dir, es[1..], depth)
    else
      var head := match es[0]
        case Dir(n, cs) => Walk(Paths.Join(dir, n), cs, depth + 1)
        case File(n) => Ok([(dir, n)])
        case Other(_) => Ok([]);
      if head.Err? then head else Then(head.value, WalkEntries(dir, es[1..], depth))
  }

  /** The `for await` loop over the listing, with the recursive call for
      directories. */
  method Traverse(dir: string, es: seq<Entry>, depth: nat) returns (r: Result<seq<(string, string)>, TraverseError>)
    ensures r == Walk(dir, es, depth)
    decreases es, 1
  {
    if depth >= MaxDepth {
      return Err(TooDeep);
    }
    var calls: seq<(string, string)> := [];
    var i := 0;
    assert es[0..] == es;
    ThenEmpty(WalkEntries(dir, es, depth));
    while i < |es|
      invariant 0 <= i <= |es|
      invariant WalkEntries(dir, es, depth) == Then(calls, WalkEntries(dir, es[i..], depth))
      decreases |es| - i
    {
      var e := es[i];
      assert es[i..][0] == e && es[i..][1..] == es[i + 1..];
      if !Hidden(e.name) {
        var found: seq<(string, string)> := [];
        if e.Dir? {
          var sub := Traverse(Paths.Join(dir, e.name), e.entries, depth + 1);
          if sub.Err? {
            return sub;
          }
          found := sub.value;
        } else if e.File? {
          found := [(dir, e.name)];
        }
        ThenThen(calls, found, WalkEntries(dir, es[i + 1..], depth));
        calls := calls + found;
      }
      i := i + 1;
    }
    assert calls + [] == calls;
    return Ok(calls);
  }

  /** The listing without its hidden entries, at every level. */
  function Prune(es: seq<Entry>): (r: seq<Entry>)
    ensures |r| <= |es|
    decreases es
  {
    if es == [] then []
    else if Hidden(es[0].name) then Prune(es[1..])
    else
      var e := match es[0]
        case Dir(n, cs) => Dir(n, Prune(cs))
        case File(n) => File(n)
        case Other(n) => Other(n);
      [e] + Prune(es[1..])
  }

  /** Hidden entries, and everything beneath a hidden directory however
      deep, make no difference to the walk. */
  lemma {:induction false} WalkPrune(dir: string, es: seq<Entry>, depth: nat)
    ensures Walk(dir, es, depth) == Walk(dir, Prune(es), depth)
    decreases es, 1
  {
    if depth < MaxDepth {
      WalkEntriesPrune(dir, es, depth);
    }
  }

  lemma {:induction false} WalkEntriesPrune(dir: string, es: seq<Entry>, depth: nat)
    ensures WalkEntries(dir, es, depth) == WalkEntries(dir, Prune(es), depth)
    decreases es, 0
  {
    if es != [] {
      WalkEntriesPrune(dir, es[1..], depth);
      if !Hidden(es[0].name) {
        var p := Prune(es);
        assert p[0].name == es[0].name && p[1..] == Prune(es[1..]);
        if es[0].Dir? {
          WalkPrune(Paths.Join(dir, es[0].name), es[0].entries, depth + 1);
        }
      }
    }
  }

  /** How many levels of visible directories the listing holds below its
      own level. */
  function VisibleHeight(es: seq<Entry>): nat
    decreases es
  {
    if es == [] then 0
    else if Hidden(es[0].name) then VisibleHeight(es[1..])
    else Max(if es[0].Dir? then 1 + VisibleHeight(es[0].entries) else 0, VisibleHeight(es[1..]))
  }

  /** The walk fails exactly when a visible directory lies `MaxDepth` levels
      below the starting depth's folder. */
  lemma WalkTooDeep(dir: string, es: seq<Entry>, depth: nat)
    ensures Walk(dir, es, depth).Err? <==> depth + Height(Prune(es)) >= MaxDepth
  {
    WalkVisibleTooDeep(dir, es, depth);
    VisibleHeightPrune(es);
  }

  lemma {:induction false} WalkVisibleTooDeep(dir: string, es: seq<Entry>, depth: nat)
    ensures Walk(dir, es, depth).Err? <==> depth + VisibleHeight(es) >= MaxDepth
    decreases es, 1
  {
    if depth < MaxDepth {
      WalkEntriesTooDeep(dir, es, depth);
    }
  }

  lemma {:induction false} WalkEntriesTooDeep(dir: string, es: seq<Entry>, depth: nat)
    ensures WalkEntries(dir, es, depth).Err? <==> VisibleHeight(es) > 0 && depth + VisibleHeight(es) >= MaxDepth
    decreases es, 0
  {
    if es != [] {
      WalkEntriesTooDeep(dir, es[1..], depth);
      if !Hidden(es[0].name) && es[0].Dir? {
        WalkVisibleTooDeep(Paths.Join(dir, es[0].name), es[0].entries, depth + 1);
      }
    }
  }

  /** Counting only visible directories is measuring the pruned listing. */
  lemma {:induction false} VisibleHeightPrune(es: seq<Entry>)
    ensures VisibleHeight(es) == Height(Prune(es))
    decreases es
  {
    if es != [] {
      VisibleHeightPrune(es[1..]);
      if !Hidden(es[0].name) {
        PruneHeight(es);
        if es[0].Dir? {
          VisibleHeightPrune(es[0].entries);
        }
      }
    }
  }

  /** The height of a pruned listing whose first entry is visible. */
  lemma PruneHeight(es: seq<Entry>)
    requires es != [] && !Hidden(es[0].name)
    ensures Height(Prune(es))
      == Max(if es[0].Dir? then 1 + Height(Prune(es[0].entries)) else 0, Height(Prune(es[1..])))
  {
    var tail := Prune(es[1..]);
    var e := match es[0]
      case Dir(n, cs) => Dir(n, Prune(cs))
      case File(n) => File(n)
      case Other(n) => Other(n);
    var p := Prune(es);
    assert p == [e] + tail;
    var own := if e.Dir? then 1 + Height(e.entries) else 0;
    HeightCons(e, tail);
    assert Height(p) == Max(own, Height(tail));
    assert own == if es[0].Dir? then 1 + Height(Prune(es[0].entries)) else 0;
  }

  /** The height of a listing with one more entry in front. */
  lemma HeightCons(e: Entry, rest: seq<Entry>)
    ensures Height([e] + rest) == Max(if e.Dir? then 1 + Height(e.entries) else 0, Height(rest))
  {
    assert ([e] + rest)[0] == e && ([e] + rest)[1..] == rest;
  }

  /** A file `name` in folder `d` that the listing shows with no hidden
      entry on the way. */
  predicate Reported(dir: string, es: seq<Entry>, d: string, name: string)
    decreases es
  {
    es != [] &&
    ((!Hidden(es[0].name) &&
      match es[0]
      case Dir(n, cs) => Reported(Paths.Join(dir, n), cs, d, name)
      case File(n) => d == dir && name == n
      case Other(_) => false)
     || Reported(dir, es[1..], d, name))
  }

  /** A successful walk calls back exactly for the reported files. */
  lemma {:induction false} WalkReported(dir: string, es: seq<Entry>, depth: nat, d: string, name: string)
    requires WalkEntries(dir, es, depth).Ok?
    ensures (d, name) in WalkEntries(dir, es, depth).value <==> Reported(dir, es, d, name)
    decreases es
  {
    if es != [] {
      WalkReported(dir, es[1..], depth, d, name);
      if !Hidden(es[0].name) && es[0].Dir? && depth + 1 < MaxDepth {
        WalkReported(Paths.Join(dir, es[0].name), es[0].entries, depth + 1, d, name);
      }
    }
  }

  /** No reported name is hidden. */
  lemma {:induction false} ReportedVisible(dir: string, es: seq<Entry>, d: string, name: string)
    requires Reported(dir, es, d, name)
    ensures !Hidden(name)
    decreases es
  {
    if Reported(dir, es[1..], d, name) {
      ReportedVisible(dir, es[1..], d, name);
    } else if es[0].Dir? {
      ReportedVisible(Paths.Join(dir, es[0].name), es[0].entries, d, name);
    }
  }
}
