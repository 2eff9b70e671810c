/** A minimal model of the POSIX path helpers (`basename`, `extname`,
    `dirname`, `join`) over `/`-separated text. `.` and `..` segments and
    repeated separators inside a path are not normalised. */
module Paths {
  import opened Text

  function TrimTrailingSlashes(p: string): (r: string)
    ensures |r| <= |p| && r == p[..|r|]
    ensures p != "" ==> r != ""
    decreases |p|
  {
    if |p| > 1 && p[|p| - 1] == '/' then TrimTrailingSlashes(p[..|p| - 1]) else p
  }

  function TrimLeadingSlashes(p: string): (r: string)
    ensures |r| <= |p| && r == p[|p| - |r|..]
    decreases |p|
  {
    if p != [] && p[0] == '/' then TrimLeadingSlashes(p[1..]) else p
  }

  /** `path.basename(p)`: the last segment. */
  function Basename(p: string): (r: string)
    ensures forall i :: 0 <= i < |r| ==> r[i] != '/' || r == "/"
  {
    var q := TrimTrailingSlashes(p);
    if q == "/" then "" else
    var i := LastIndexOfChar(q, '/', |q| - 1);
    q[i + 1..]
  }

  /** Index of the last `.` in `b`, or -1. */
  function LastDot(b: string): (r: int)
    ensures r == -1 || (0 <= r < |b| && b[r] == '.')
    ensures forall i :: 0 <= i < |b| && r < i ==> b[i] != '.'
  {
    LastIndexOfChar(b, '.', |b| - 1)
  }

  /** `path.extname(p)`: the basename from its last `.`, when something
      other than dots precedes that dot; otherwise empty. */
  function Extname(p: string): (r: string)
    ensures r == "" || r[0] == '.'
    ensures EndsWith(Basename(p), r)
  {
    var b := Basename(p);
    var d := LastDot(b);
    if d > 0 && exists i :: 0 <= i < d && b[i] != '.' then b[d..] else ""
  }

  /** `path.basename(p, ext)`: the basename with the suffix `ext` removed
      when it ends with it and is longer than it. */
  function BasenameWithout(p: string, ext: string): (r: string)
    ensures StartsWith(Basename(p), r)
  {
    var b := Basename(p);
    if ext != "" && |ext| < |b| && EndsWith(b, ext) then b[..|b| - |ext|] else b
  }

  /** `path.dirname(p)`: everything before the last segment. */
  function Dirname(p: string): (r: string)
    ensures r != ""
  {
    var q := TrimTrailingSlashes(p);
    var i := LastIndexOfChar(q, '/', |q| - 1);
    if i < 0 then "."
    else if i == 0 then "/"
    else
      var d := TrimTrailingSlashes(q[..i]);
      if d == "" then "/" else d
  }

  /** `path.join(a, b)`: the two parts with one separator between them. */
  function Join(a: string, b: string): (r: string)
    ensures a == "" ==> r == b
    ensures b == "" ==> r == a
  {
    if a == "" then b
    else if b == "" then a
    else
      var head := TrimTrailingSlashes(a);
      (if head == "/" then "" else head) + "/" + TrimLeadingSlashes(b)
  }

  /** A file name `stem + ext` without directories, where `ext` is a dot and
      then at least one character other than a dot, and the stem holds
      something other than dots. */
  predicate SimpleName(stem: string, ext: string) {
    && |ext| >= 2 && ext[0] == '.'
    && (forall i :: 1 <= i < |ext| ==> ext[i] != '.' && ext[i] != '/')
    && (forall i :: 0 <= i < |stem| ==> stem[i] != '/')
    && (exists i :: 0 <= i < |stem| && stem[i] != '.')
  }

  /** Such a name is its own basename, and its extension is `ext`. */
  lemma ExtnameSimple(stem: string, ext: string)
    requires SimpleName(stem, ext)
    ensures Basename(stem + ext) == stem + ext
    ensures Extname(stem + ext) == ext
  {
    var p := stem + ext;
    assert p[|p| - 1] == ext[|ext| - 1];
    assert TrimTrailingSlashes(p) == p;
    assert forall i :: 0 <= i < |p| ==> p[i] != '/' by {
      forall i | 0 <= i < |p| ensures p[i] != '/' {
        if i >= |stem| { assert p[i] == ext[i - |stem|]; }
      }
    }
    assert p[0..] == p;
    var d := LastDot(p);
    assert p[|stem|] == '.';
    assert forall i :: |stem| < i < |p| ==> p[i] != '.' by {
      forall i | |stem| < i < |p| ensures p[i] != '.' { assert p[i] == ext[i - |stem|]; }
    }
    assert d == |stem|;
    var k :| 0 <= k < |stem| && stem[k] != '.';
    assert p[k] != '.';
    assert p[d..] == ext;
  }

  /** The last `c` of `a + b` is the last one of `b` when `b` has one, and
      otherwise the last one of `a`. */
  lemma LastIndexConcat(a: string, b: string, c: char)
    ensures LastIndexOfChar(a + b, c, |a + b| - 1)
      == if LastIndexOfChar(b, c, |b| - 1) >= 0 then |a| + LastIndexOfChar(b, c, |b| - 1)
         else LastIndexOfChar(a, c, |a| - 1)
  {
    var s := a + b;
    assert forall i :: 0 <= i < |a| ==> s[i] == a[i];
    assert forall i :: |a| <= i < |s| ==> s[i] == b[i - |a|];
    var r := LastIndexOfChar(s, c, |s| - 1);
    var rb := LastIndexOfChar(b, c, |b| - 1);
    var ra := LastIndexOfChar(a, c, |a| - 1);
    if rb >= 0 {
      assert s[|a| + rb] == c;
      assert r <= |a| + rb;
    } else if ra >= 0 {
      assert s[ra] == c;
      assert r <= ra;
    } else {
      assert r < 0;
    }
  }

  /** A name without separators joined onto a directory is the basename of
      the result. */
  lemma BasenameJoin(dir: string, name: string)
    requires name != "" && NoChar(name, '/')
    ensures Basename(Join(dir, name)) == name
  {
    BasenamePlain(name);
    if dir != "" {
      var head := TrimTrailingSlashes(dir);
      var a := (if head == "/" then "" else head) + "/";
      assert TrimLeadingSlashes(name) == name;
      assert Join(dir, name) == a + name;
      BasenameAfterSlash(a, name);
    }
  }

  /** A name without separators is its own basename. */
  lemma BasenamePlain(name: string)
    requires name != "" && NoChar(name, '/')
    ensures Basename(name) == name
  {
    assert name[|name| - 1] != '/';
    BasenameUntrimmed(name);
    var i := LastIndexOfChar(name, '/', |name| - 1);
    assert i == -1;
    assert name[0..] == name;
  }

  /** After a separator, the basename is the one of what follows. */
  lemma BasenameAfterSlash(a: string, b: string)
    requires a != "" && a[|a| - 1] == '/'
    requires b != "" && b[|b| - 1] != '/'
    ensures Basename(a + b) == Basename(b)
  {
    var s := a + b;
    assert s[|s| - 1] == b[|b| - 1];
    BasenameUntrimmed(s);
    BasenameUntrimmed(b);
    LastIndexConcat(a, b, '/');
    var rb := LastIndexOfChar(b, '/', |b| - 1);
    if rb < 0 {
      assert LastIndexOfChar(a, '/', |a| - 1) == |a| - 1;
      assert s[|a|..] == b && b[0..] == b;
    } else {
      assert s[|a| + rb + 1..] == b[rb + 1..];
    }
  }

  /** The basename of a path that does not end with `/`: what follows its
      last `/`. */
  lemma BasenameUntrimmed(p: string)
    requires p != "" && p[|p| - 1] != '/'
    ensures Basename(p) == p[LastIndexOfChar(p, '/', |p| - 1) + 1..]
  {
    assert TrimTrailingSlashes(p) == p;
  }

  /** A rooted path has a rooted directory part. */
  lemma DirnameRooted(p: string)
    requires p != "" && p[0] == '/'
    ensures Dirname(p) != "" && Dirname(p)[0] == '/'
  {
    var q := TrimTrailingSlashes(p);
    assert q[0] == '/';
    var i := LastIndexOfChar(q, '/', |q| - 1);
    assert i >= 0;
    if i > 0 {
      var d := TrimTrailingSlashes(q[..i]);
      assert d[0] == q[..i][0];
    }
  }

  /** The directory part of `a + n`, where `a` is rooted and ends with one
      separator and `n` is a name: `a` without that separator, or the root. */
  lemma DirnameOf(a: string, n: string)
    requires |a| >= 1 && a[0] == '/' && a[|a| - 1] == '/'
    requires |a| == 1 || a[|a| - 2] != '/'
    requires n != "" && NoChar(n, '/')
    ensures Dirname(a + n) == if |a| == 1 then "/" else a[..|a| - 1]
  {
    var s := a + n;
    assert s[|s| - 1] == n[|n| - 1];
    assert TrimTrailingSlashes(s) == s;
    LastIndexConcat(a, n, '/');
    assert LastIndexOfChar(n, '/', |n| - 1) == -1;
    assert LastIndexOfChar(a, '/', |a| - 1) == |a| - 1;
    if |a| > 1 {
      assert s[..|a| - 1] == a[..|a| - 1];
      assert TrimTrailingSlashes(a[..|a| - 1]) == a[..|a| - 1];
    }
  }
}
