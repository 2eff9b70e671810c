/** String helpers with the semantics of the JavaScript built-ins the
    framework uses: prefix and suffix tests, `indexOf`/`lastIndexOf`,
    `split`/`join` with a string separator, `trim`, and ASCII case mapping. */
module Text {

  datatype Option<+T> = None | Some(value: T)

  datatype Result<+T, +E> = Ok(value: T) | Err(error: E)

  predicate StartsWith(s: string, p: string) {
    |p| <= |s| && s[..|p|] == p
  }

  predicate EndsWith(s: string, p: string) {
    |p| <= |s| && s[|s| - |p|..] == p
  }

  /** `p` occurs in `s` at index `i`. */
  predicate OccursAt(s: string, p: string, i: nat) {
    i + |p| <= |s| && s[i..i + |p|] == p
  }

  predicate Contains(s: string, p: string) {
    exists i: nat | i <= |s| :: OccursAt(s, p, i)
  }

  /** The character `c` does not occur in `s`. */
  predicate NoChar(s: string, c: char) {
    forall i :: 0 <= i < |s| ==> s[i] != c
  }

  /** `s.indexOf(p, from)` for a non-empty `p`: the first occurrence at or
      after `from`, or -1. */
  function IndexOf(s: string, p: string, from: nat): (r: int)
    requires p != ""
    ensures r == -1 || (from <= r && OccursAt(s, p, r))
    ensures forall i: nat :: from <= i && (r == -1 || i < r) ==> !OccursAt(s, p, i)
    decreases |s| - from
  {
    if from + |p| > |s| then -1
    else if OccursAt(s, p, from) then from
    else IndexOf(s, p, from + 1)
  }

  /** `s.indexOf(c, from)` for one character. */
  function IndexOfChar(s: string, c: char, from: nat): (r: int)
    ensures r == -1 || (from <= r < |s| && s[r] == c)
    ensures forall i :: from <= i < |s| && (r == -1 || i < r) ==> s[i] != c
    decreases |s| - from
  {
    if from >= |s| then -1
    else if s[from] == c then from
    else IndexOfChar(s, c, from + 1)
  }

  /** `s.lastIndexOf(c, upto)` for `0 <= upto`: the last occurrence at or
      before `upto`, or -1. */
  function LastIndexOfChar(s: string, c: char, upto: int): (r: int)
    ensures r == -1 || (0 <= r <= upto && r < |s| && s[r] == c)
    ensures forall i :: 0 <= i < |s| && i <= upto && r < i ==> s[i] != c
    decreases upto + 1
  {
    if upto < 0 then -1
    else if upto < |s| && s[upto] == c then upto
    else LastIndexOfChar(s, c, upto - 1)
  }

  /** `s.split(sep)`. With an empty separator JavaScript splits into single
      characters (and `"".split("")` is empty). */
  function Split(s: string, sep: string): (parts: seq<string>)
    ensures sep != "" ==> |parts| >= 1
    decreases |s|
  {
    if sep == "" then
      seq(|s|, i requires 0 <= i < |s| => [s[i]])
    else
      var i := IndexOf(s, sep, 0);
      if i < 0 then [s] else [s[..i]] + Split(s[i + |sep|..], sep)
  }

  /** `parts.join(sep)`. */
  function Join(parts: seq<string>, sep: string): string
    decreases |parts|
  {
    if |parts| == 0 then ""
    else if |parts| == 1 then parts[0]
    else parts[0] + sep + Join(parts[1..], sep)
  }

  /** `s.replace(p, r)` with a string pattern and a replacement holding no
      `$` pattern: the first occurrence of `p`, if any, becomes `r`. */
  function ReplaceFirst(s: string, p: string, r: string): (t: string)
    requires p != ""
    ensures IndexOf(s, p, 0) < 0 ==> t == s
    ensures IndexOf(s, p, 0) >= 0 ==> |t| == |s| - |p| + |r|
  {
    var i := IndexOf(s, p, 0);
    if i < 0 then s else s[..i] + r + s[i + |p|..]
  }

  /** White space as `String.prototype.trim` removes it. */
  predicate IsSpace(c: char) {
    c == ' ' || c == '\t' || c == '\n' || c == '\r' || c == '\U{000B}' || c == '\U{000C}'
    || c == '\U{00A0}' || c == '\U{1680}' || ('\U{2000}' <= c <= '\U{200A}')
    || c == '\U{2028}' || c == '\U{2029}' || c == '\U{202F}' || c == '\U{205F}'
    || c == '\U{3000}' || c == '\U{FEFF}'
  }

  function TrimStart(s: string): (r: string)
    ensures |r| <= |s| && r == s[|s| - |r|..]
    ensures r == "" || !IsSpace(r[0])
    decreases |s|
  {
    if s != [] && IsSpace(s[0]) then TrimStart(s[1..]) else s
  }

  function TrimEnd(s: string): (r: string)
    ensures |r| <= |s| && r == s[..|r|]
    ensures r == "" || !IsSpace(r[|r| - 1])
    decreases |s|
  {
    if s != [] && IsSpace(s[|s| - 1]) then TrimEnd(s[..|s| - 1]) else s
  }

  /** `trimStart` removes white space only: every character before the
      kept suffix is white space. */
  lemma {:induction false} TrimStartSpaces(s: string)
    ensures forall i | 0 <= i < |s| - |TrimStart(s)| :: IsSpace(s[i])
    decreases |s|
  {
    if s != [] && IsSpace(s[0]) {
      TrimStartSpaces(s[1..]);
      assert forall i | 1 <= i < |s| - |TrimStart(s)| :: s[i] == s[1..][i - 1];
    }
  }

  /** `trimEnd` removes white space only: every character after the kept
      prefix is white space. */
  lemma {:induction false} TrimEndSpaces(s: string)
    ensures forall i | |TrimEnd(s)| <= i < |s| :: IsSpace(s[i])
    decreases |s|
  {
    if s != [] && IsSpace(s[|s| - 1]) {
      TrimEndSpaces(s[..|s| - 1]);
      assert forall i | |TrimEnd(s)| <= i < |s| - 1 :: s[i] == s[..|s| - 1][i];
    }
  }

  /** `s.trim()`. */
  function Trim(s: string): string {
    TrimEnd(TrimStart(s))
  }

  function LowerChar(c: char): char {
    if 'A' <= c <= 'Z' then (c as int + 32) as char else c
  }

  function UpperChar(c: char): char {
    if 'a' <= c <= 'z' then (c as int - 32) as char else c
  }

  function Lower(s: string): (r: string)
    ensures |r| == |s|
  {
    seq(|s|, i requires 0 <= i < |s| => LowerChar(s[i]))
  }

  predicate IsDigit(c: char) {
    '0' <= c <= '9'
  }

  /** The regular expression `^[0-9]+$`. */
  predicate AllDigits(s: string) {
    |s| > 0 && forall i :: 0 <= i < |s| ==> IsDigit(s[i])
  }

  /** The regular expression class `\w`. */
  predicate IsWordChar(c: char) {
    ('a' <= c <= 'z') || ('A' <= c <= 'Z') || IsDigit(c) || c == '_'
  }

  /** Joining what `Split` returns with the same separator gives the text
      back. */
  lemma {:induction false} JoinSplit(s: string, sep: string)
    requires sep != ""
    ensures Join(Split(s, sep), sep) == s
    decreases |s|
  {
    var i := IndexOf(s, sep, 0);
    if i >= 0 {
      var rest := s[i + |sep|..];
      JoinSplit(rest, sep);
      assert Split(s, sep) == [s[..i]] + Split(rest, sep);
      assert s == s[..i] + sep + rest;
    }
  }

  /** A separator that does not occur leaves one part: the whole text. */
  lemma SplitAbsent(s: string, sep: string)
    requires sep != "" && IndexOf(s, sep, 0) == -1
    ensures Split(s, sep) == [s]
  {
  }

  /** Every part after the first follows an occurrence of the separator, so
      the first part is the text before the first occurrence. */
  lemma SplitFirst(s: string, sep: string)
    requires sep != "" && IndexOf(s, sep, 0) >= 0
    ensures var i := IndexOf(s, sep, 0);
      |Split(s, sep)| >= 2 && Split(s, sep)[0] == s[..i]
      && Split(s, sep)[1..] == Split(s[i + |sep|..], sep)
  {
  }

  /** Concatenation regrouped, stated once so that a proof can name the
      step instead of searching for it. */
  lemma Assoc(a: string, b: string, c: string)
    ensures (a + b) + c == a + (b + c)
  {
  }

  /** The parts before and after a middle piece. */
  lemma SplitAround(x: string, m: string, y: string)
    ensures ((x + m) + y)[..|x|] == x
    ensures ((x + m) + y)[|x| + |m|..] == y
  {
  }
}
