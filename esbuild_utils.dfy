/** The bundler's helpers: the component name derived from a file path,
    the normalisation of esbuild metafile paths, and the extraction of
    balanced `<tag …>…</tag>` blocks from a component's text. */
module EsbuildUtils {
  import opened Text
  import opened Tables
  import Paths
  import opened Spans

  // ---------------------------------------------------------------------
  // componentName

  /** `p.charAt(0).toUpperCase() + p.slice(1)`, with ASCII case mapping. */
  function Capitalise(p: string): (r: string)
    ensures |r| == |p|
    ensures p != "" ==> r[1..] == p[1..]
    ensures p != "" && 'a' <= p[0] <= 'z' ==> r[0] as int == p[0] as int - 32
    ensures p != "" && !('a' <= p[0] <= 'z') ==> r[0] == p[0]
  {
    if p == "" then "" else [UpperChar(p[0])] + p[1..]
  }

  /** `name.split('-').map(capitalise).join('')`. */
  function PascalCase(name: string): string {
    var parts := Split(name, "-");
    Join(seq(|parts|, i requires 0 <= i < |parts| => Capitalise(parts[i])), "")
  }

  /** The component name of a file: the basename without its extension;
      for a `.svelte` file its `-`-separated parts capitalised and joined;
      and an all-digit name gets the prefix `Component`. */
  function ComponentName(entry: string): (r: string)
    ensures !AllDigits(r)
  {
    var ext := Paths.Extname(entry);
    var base := Paths.BasenameWithout(entry, ext);
    Numbered(if ext == ".svelte" then PascalCase(base) else base)
  }

  /** An all-digit name prefixed with `Component`; any other name as it is. */
  function Numbered(name: string): (r: string)
    ensures !AllDigits(r)
  {
    if AllDigits(name) then assert ("Component" + name)[0] == 'C'; "Component" + name else name
  }

  lemma NumberedNoChar(name: string, c: char)
    requires NoChar(name, c) && NoChar("Component", c)
    ensures NoChar(Numbered(name), c)
  {
    var r := "Component" + name;
    forall i | 0 <= i < |r| ensures r[i] != c {
      if i >= 9 { assert r[i] == name[i - 9]; } else { assert r[i] == "Component"[i]; }
    }
  }

  lemma {:induction false} SplitNoSeparator(s: string, c: char)
    ensures forall k :: 0 <= k < |Split(s, [c])| ==> NoChar(Split(s, [c])[k], c)
    decreases |s|
  {
    var i := IndexOf(s, [c], 0);
    if i >= 0 {
      var rest := Split(s[i + 1..], [c]);
      assert Split(s, [c]) == [s[..i]] + rest;
      SplitNoSeparator(s[i + 1..], c);
      BeforeNoChar(s, c, i);
    } else {
      assert Split(s, [c]) == [s];
      BeforeNoChar(s, c, |s|);
    }
  }

  /** No occurrence of `[c]` before `i` leaves `s[..i]` free of `c`. */
  lemma BeforeNoChar(s: string, c: char, i: nat)
    requires i <= |s|
    requires forall j: nat :: j < i ==> !OccursAt(s, [c], j)
    ensures NoChar(s[..i], c)
  {
    forall j | 0 <= j < i ensures s[..i][j] != c {
      assert !OccursAt(s, [c], j);
      assert s[j..j + 1] == [s[j]];
    }
  }

  lemma {:induction false} JoinNoChar(parts: seq<string>, c: char)
    requires forall k :: 0 <= k < |parts| ==> NoChar(parts[k], c)
    ensures NoChar(Join(parts, ""), c)
    decreases |parts|
  {
    if |parts| > 1 {
      JoinNoChar(parts[1..], c);
      var rest := Join(parts[1..], "");
      assert Join(parts, "") == parts[0] + rest;
    }
  }

  lemma PascalCaseNoHyphen(base: string)
    ensures NoChar(PascalCase(base), '-')
  {
    var parts := Split(base, "-");
    var caps := seq(|parts|, i requires 0 <= i < |parts| => Capitalise(parts[i]));
    SplitNoSeparator(base, '-');
    forall k | 0 <= k < |caps| ensures NoChar(caps[k], '-') {
      assert NoChar(parts[k], '-');
      if parts[k] != "" {
        assert caps[k] == [UpperChar(parts[k][0])] + parts[k][1..];
      }
    }
    JoinNoChar(caps, '-');
  }

  /** A `.svelte` component name holds no `-`: every separator is dropped. */
  lemma SvelteNameHasNoHyphen(entry: string)
    requires Paths.Extname(entry) == ".svelte"
    ensures NoChar(ComponentName(entry), '-')
  {
    var base := Paths.BasenameWithout(entry, ".svelte");
    var name := PascalCase(base);
    assert ComponentName(entry) == Numbered(name);
    PascalCaseNoHyphen(base);
    PrefixNoHyphen();
    NumberedNoChar(name, '-');
  }

  lemma PrefixNoHyphen()
    ensures NoChar("Component", '-')
  {
    forall i | 0 <= i < 9 ensures "Component"[i] != '-' {
    }
  }

  lemma NoHyphenIndex(a: string)
    requires NoChar(a, '-')
    ensures IndexOf(a, "-", 0) == -1
  {
    forall i: nat | i < |a| ensures !OccursAt(a, "-", i) {
      if i + 1 <= |a| { assert a[i..i + 1][0] == a[i]; }
    }
  }

  /** Two hyphen-free parts `a-b` become `A` and `B` run together. */
  lemma TwoPartName(a: string, b: string)
    requires NoChar(a, '-') && NoChar(b, '-')
    ensures PascalCase(a + "-" + b) == Capitalise(a) + Capitalise(b)
  {
    var s := a + "-" + b;
    assert OccursAt(s, "-", |a|) by { assert s[|a|..|a| + 1] == "-"; }
    forall i: nat | i < |a| ensures !OccursAt(s, "-", i) {
      assert s[i] == a[i];
      assert s[i..i + 1][0] == s[i];
    }
    assert IndexOf(s, "-", 0) == |a|;
    assert s[..|a|] == a && s[|a| + 1..] == b;
    NoHyphenIndex(b);
    SplitAbsent(b, "-");
    assert Split(s, "-") == [a, b];
    var caps := seq(2, i requires 0 <= i < 2 => Capitalise([a, b][i]));
    assert caps == [Capitalise(a), Capitalise(b)];
    assert Join(caps, "") == Capitalise(a) + "" + Join(caps[1..], "");
  }

  /** A `.svelte` name made of one part has only its first letter raised. */
  lemma OnePartName(entry: string)
    requires Paths.Extname(entry) == ".svelte"
    requires var base := Paths.BasenameWithout(entry, ".svelte");
      NoChar(base, '-') && base != "" && !IsDigit(base[0])
    ensures var base := Paths.BasenameWithout(entry, ".svelte");
      ComponentName(entry) == [UpperChar(base[0])] + base[1..]
  {
    var base := Paths.BasenameWithout(entry, ".svelte");
    assert IndexOf(base, "-", 0) == -1;
    SplitAbsent(base, "-");
    var name := PascalCase(base);
    assert name == Capitalise(base);
    assert !IsDigit(UpperChar(base[0]));
    assert !AllDigits(name) by { assert name[0] == UpperChar(base[0]); }
  }

  // ---------------------------------------------------------------------
  // normalizeKey / normalizeMeta

  /** The characters `.` does not match in a regular expression without the
      `s` flag. */
  predicate LineTerminator(c: char) {
    c == '\n' || c == '\r' || c == '\U{2028}' || c == '\U{2029}'
  }

  /** The regular expression `/^.+?:/`: a `:` after at least one character,
      with no line terminator before it. */
  predicate HasScheme(key: string) {
    exists i :: 1 <= i < |key| && key[i] == ':' && forall j :: 0 <= j < i ==> !LineTerminator(key[j])
  }

  /** The path helpers and the working directory, which the model takes as
      given: `resolve(from, p)` is `path.resolve(from, p)`, `relative(from, to)`
      is `path.relative(from, to)`. */
  datatype PathOps = PathOps(cwd: string, resolve: (string, string) -> string,
                             relative: (string, string) -> string)

  /** Where a metafile key points before it is made relative: `/key` when
      that lies under `dir`, else `key` resolved against the working
      directory. */
  function Absolute(ops: PathOps, dir: string, key: string): string {
    if StartsWith("/" + key, dir) then "/" + key else ops.resolve(ops.cwd, key)
  }

  /** `normalizeKey(dir, key)`: keys with a scheme prefix such as `fetch:`
      are returned as they are, every other key relative to `dir`. */
  function NormalizeKey(ops: PathOps, dir: string, key: string): (r: string)
    ensures HasScheme(key) ==> r == key
    ensures !HasScheme(key) ==> r == ops.relative(dir, Absolute(ops, dir, key))
  {
    if HasScheme(key) then key else ops.relative(dir, Absolute(ops, dir, key))
  }

  /** A key `scheme:rest` is left alone, whatever the path helpers do. */
  lemma SchemeKeyUnchanged(ops: PathOps, dir: string, scheme: string, rest: string)
    requires scheme != "" && forall j :: 0 <= j < |scheme| ==> !LineTerminator(scheme[j])
    ensures NormalizeKey(ops, dir, scheme + ":" + rest) == scheme + ":" + rest
  {
    var key := scheme + ":" + rest;
    assert key[|scheme|] == ':';
    assert forall j :: 0 <= j < |scheme| ==> key[j] == scheme[j];
  }

  /** A key with no `:` is always made relative to `dir`. */
  lemma PlainKeyRelative(ops: PathOps, dir: string, key: string)
    requires NoChar(key, ':')
    ensures NormalizeKey(ops, dir, key) == ops.relative(dir, Absolute(ops, dir, key))
  {
  }

  /** The parts of an esbuild metafile the normalisation touches. */
  datatype ImportRef = ImportRef(path: string, kind: string, original: Option<string>)
  datatype Input = Input(bytes: int, imports: seq<ImportRef>)
  datatype Output = Output(bytes: int, entryPoint: Option<string>, inputs: Table<string, int>)
  datatype Metafile = Metafile(inputs: Table<string, Input>, outputs: Table<string, Output>)

  /** Keys of a JavaScript object are distinct. */
  predicate DistinctKeys<V>(t: Table<string, V>) {
    forall i, j :: 0 <= i < j < |t| ==> t[i].0 != t[j].0
  }

  /** An input with every import path normalised. */
  function NormInput(ops: PathOps, dir: string, input: Input): (r: Input)
    ensures r.bytes == input.bytes && |r.imports| == |input.imports|
    ensures forall i :: 0 <= i < |r.imports| ==>
      r.imports[i].kind == input.imports[i].kind && r.imports[i].original == input.imports[i].original
      && r.imports[i].path == NormalizeKey(ops, dir, input.imports[i].path)
  {
    input.(imports := seq(|input.imports|, i requires 0 <= i < |input.imports| =>
      input.imports[i].(path := NormalizeKey(ops, dir, input.imports[i].path))))
  }

  /** The pairs the first loop sets, in iteration order. */
  function InputPairs(ops: PathOps, dir: string, ins: Table<string, Input>): (ps: Table<string, Input>)
    ensures |ps| == |ins|
    ensures forall i :: 0 <= i < |ins| ==>
      ps[i] == (NormalizeKey(ops, dir, ins[i].0), NormInput(ops, dir, ins[i].1))
  {
    seq(|ins|, i requires 0 <= i < |ins| => (NormalizeKey(ops, dir, ins[i].0), NormInput(ops, dir, ins[i].1)))
  }

  /** One step of the output-input loop: `delete inputs[k]` and then
      `inputs[normalizeKey(k)] = v`. */
  function Rekey(ops: PathOps, dir: string, t: Table<string, int>, k: string, v: int): Table<string, int> {
    Set(Remove(t, k), NormalizeKey(ops, dir, k), v)
  }

  /** The output-input loop over the entries `es` taken before it starts. */
  function RekeyAll(ops: PathOps, dir: string, t: Table<string, int>, es: Table<string, int>): Table<string, int>
    decreases |es|
  {
    if es == [] then t
    else
      var e := es[|es| - 1];
      Rekey(ops, dir, RekeyAll(ops, dir, t, es[..|es| - 1]), e.0, e.1)
  }

  /** An output with its entry point (when non-empty) and its input keys
      normalised. */
  function NormOutput(ops: PathOps, dir: string, o: Output): Output {
    var entry := if o.entryPoint.Some? && o.entryPoint.value != ""
      then Some(NormalizeKey(ops, dir, o.entryPoint.value)) else o.entryPoint;
    Output(o.bytes, entry, RekeyAll(ops, dir, o.inputs, o.inputs))
  }

  function OutputPairs(ops: PathOps, dir: string, outs: Table<string, Output>): (ps: Table<string, Output>)
    ensures |ps| == |outs|
    ensures forall i :: 0 <= i < |outs| ==> ps[i] == (outs[i].0, NormOutput(ops, dir, outs[i].1))
  {
    seq(|outs|, i requires 0 <= i < |outs| => (outs[i].0, NormOutput(ops, dir, outs[i].1)))
  }

  /** The metafile `normalizeMeta` builds. */
  function Normalized(ops: PathOps, dir: string, meta: Metafile): Metafile {
    Metafile(SetAll([], InputPairs(ops, dir, meta.inputs)), SetAll([], OutputPairs(ops, dir, meta.outputs)))
  }

  /** `normalizeMeta(dir, meta)`: a new metafile, built entry by entry; the
      argument, a value here, is not changed. */
  method NormalizeMeta(ops: PathOps, dir: string, meta: Metafile) returns (r: Metafile)
    ensures r == Normalized(ops, dir, meta)
  {
    var ins: Table<string, Input> := [];
    ghost var ps := InputPairs(ops, dir, meta.inputs);
    var i := 0;
    while i < |meta.inputs|
      invariant 0 <= i <= |meta.inputs|
      invariant ins == SetAll([], ps[..i])
    {
      var (k, input) := meta.inputs[i];
      assert ps[i] == (NormalizeKey(ops, dir, k), NormInput(ops, dir, input));
      SetAllNext([], ps, i);
      ins := Set(ins, NormalizeKey(ops, dir, k), NormInput(ops, dir, input));
      i := i + 1;
    }
    assert ps[..i] == ps;
    var outs: Table<string, Output> := [];
    ghost var qs := OutputPairs(ops, dir, meta.outputs);
    i := 0;
    while i < |meta.outputs|
      invariant 0 <= i <= |meta.outputs|
      invariant outs == SetAll([], qs[..i])
    {
      var (k, output) := meta.outputs[i];
      var o := NormalizeOutput(ops, dir, output);
      assert qs[i] == (k, o);
      SetAllNext([], qs, i);
      outs := Set(outs, k, o);
      i := i + 1;
    }
    assert qs[..i] == qs;
    r := Metafile(ins, outs);
  }

  /** The body of the second loop for one output. */
  method NormalizeOutput(ops: PathOps, dir: string, output: Output) returns (o: Output)
    ensures o == NormOutput(ops, dir, output)
  {
    var entry := output.entryPoint;
    if entry.Some? && entry.value != "" {
      entry := Some(NormalizeKey(ops, dir, entry.value));
    }
    var es := output.inputs;
    var t := es;
    var j := 0;
    while j < |es|
      invariant 0 <= j <= |es|
      invariant t == RekeyAll(ops, dir, es, es[..j])
    {
      var (k2, v2) := es[j];
      assert es[..j + 1][..j] == es[..j];
      t := Remove(t, k2);
      t := Set(t, NormalizeKey(ops, dir, k2), v2);
      j := j + 1;
    }
    assert es[..j] == es;
    o := Output(output.bytes, entry, t);
  }

  /** Output keys are copied as they are and keep their order. */
  lemma OutputKeysKept(ops: PathOps, dir: string, meta: Metafile)
    requires DistinctKeys(meta.outputs)
    ensures Keys(Normalized(ops, dir, meta).outputs) == Keys(meta.outputs)
  {
    var qs := OutputPairs(ops, dir, meta.outputs);
    SetAllFresh(qs);
    KeysAt(qs);
    KeysAt(meta.outputs);
  }

  /** The input keys are exactly the normalised old keys, and each holds the
      normalised input of the last old key normalising to it. */
  lemma InputKeysNormalized(ops: PathOps, dir: string, meta: Metafile, k: string)
    ensures HasKey(Normalized(ops, dir, meta).inputs, k)
      <==> exists i :: 0 <= i < |meta.inputs| && NormalizeKey(ops, dir, meta.inputs[i].0) == k
    ensures Lookup(Normalized(ops, dir, meta).inputs, k) == LastValue(InputPairs(ops, dir, meta.inputs), k)
  {
    var ps := InputPairs(ops, dir, meta.inputs);
    SetAllKeys([], ps, k);
    SetAllLookup([], ps, k);
    if exists i :: 0 <= i < |ps| && ps[i].0 == k {
      var i :| 0 <= i < |ps| && ps[i].0 == k;
      assert NormalizeKey(ops, dir, meta.inputs[i].0) == k;
    }
    if exists i :: 0 <= i < |meta.inputs| && NormalizeKey(ops, dir, meta.inputs[i].0) == k {
      var i :| 0 <= i < |meta.inputs| && NormalizeKey(ops, dir, meta.inputs[i].0) == k;
      assert ps[i].0 == k;
    }
  }

  /** Every key of a table the output-input loop has run over is either an
      old key not yet visited or the normalised key of a visited entry. */
  lemma {:induction false} RekeyAllKeys(ops: PathOps, dir: string, t: Table<string, int>,
                                         es: Table<string, int>, k: string)
    requires HasKey(RekeyAll(ops, dir, t, es), k)
    ensures (HasKey(t, k) && forall j :: 0 <= j < |es| ==> es[j].0 != k)
      || exists j :: 0 <= j < |es| && NormalizeKey(ops, dir, es[j].0) == k
    decreases |es|
  {
    if es != [] {
      var init := es[..|es| - 1];
      var e := es[|es| - 1];
      var before := RekeyAll(ops, dir, t, init);
      SetLookup(Remove(before, e.0), NormalizeKey(ops, dir, e.0), e.1, k);
      RemoveLookup(before, e.0, k);
      LookupMeaning(RekeyAll(ops, dir, t, es), k);
      LookupMeaning(before, k);
      if NormalizeKey(ops, dir, e.0) != k {
        assert k != e.0 && HasKey(before, k);
        RekeyAllKeys(ops, dir, t, init, k);
        if exists j :: 0 <= j < |init| && NormalizeKey(ops, dir, init[j].0) == k {
          var j :| 0 <= j < |init| && NormalizeKey(ops, dir, init[j].0) == k;
          assert es[j] == init[j];
        } else {
          forall j | 0 <= j < |es| ensures es[j].0 != k {
            if j < |init| { assert es[j] == init[j]; }
          }
        }
      }
    }
  }

  /** After normalisation every input key of an output is a normalised key
      of one of its old inputs. */
  lemma OutputInputsNormalized(ops: PathOps, dir: string, o: Output, k: string)
    requires HasKey(NormOutput(ops, dir, o).inputs, k)
    ensures exists j :: 0 <= j < |o.inputs| && NormalizeKey(ops, dir, o.inputs[j].0) == k
  {
    RekeyAllKeys(ops, dir, o.inputs, o.inputs, k);
    if HasKey(o.inputs, k) {
      HasKeyAt(o.inputs, k);
    }
  }

  // ---------------------------------------------------------------------
  // tagMatch / tagExtract

  /** `p` occurs at `i` when letters are compared ignoring ASCII case, as
      the `i` flag compares them. */
  predicate OccursAtFolded(s: string, p: string, i: nat) {
    i + |p| <= |s| && Lower(s[i..i + |p|]) == Lower(p)
  }

  /** The first case-folded occurrence of `p` at or after `from`, or -1. */
  function IndexOfFolded(s: string, p: string, from: nat): (r: int)
    ensures r == -1 || (from <= r && OccursAtFolded(s, p, r))
    ensures forall i: nat :: from <= i && (r == -1 || i < r) ==> !OccursAtFolded(s, p, i)
    decreases |s| - from
  {
    if from + |p| > |s| then -1
    else if OccursAtFolded(s, p, from) then from
    else IndexOfFolded(s, p, from + 1)
  }

  /** The assertion `\b` at position `p`. */
  predicate Boundary(s: string, p: nat)
    requires 0 < p <= |s|
  {
    IsWordChar(s[p - 1]) != (p < |s| && IsWordChar(s[p]))
  }

  /** The end of the match of `<tag(\b[^>]*)>(.*?)<\/tag>` (flags `is`)
      that starts at `s`, if there is one: `<tag` at `s`, a word boundary
      after it, everything up to the first `>`, and then the shortest text
      up to the first `</tag>`. */
  function MatchEnd(code: string, tag: string, s: nat): (r: Option<nat>)
    ensures r.Some? ==> s + |tag| + 4 <= r.value <= |code|
  {
    if !OccursAtFolded(code, "<" + tag, s) then None
    else
      var p := s + 1 + |tag|;
      if !Boundary(code, p) then None
      else
        var g := IndexOfChar(code, '>', p);
        if g < 0 then None
        else
          var c := IndexOfFolded(code, "</" + tag + ">", g + 1);
          if c < 0 then None else Some(c + |tag| + 3)
  }

  /** `tagMatch(tag).exec(code)`: the leftmost match at or after `from`. */
  function FindMatch(code: string, tag: string, from: nat): (r: Option<Span>)
    ensures r.Some? ==> from <= r.value.start && MatchEnd(code, tag, r.value.start) == Some(r.value.end)
    ensures forall s :: from <= s <= |code| && (r.None? || s < r.value.start) ==> MatchEnd(code, tag, s).None?
    decreases |code| - from
  {
    if from > |code| then None
    else
      var m := MatchEnd(code, tag, from);
      if m.Some? then Some(Span(from, m.value)) else FindMatch(code, tag, from + 1)
  }

  /** The text of a match, which is never empty. */
  function MatchText(code: string, sp: Span): (m: string)
    requires sp.start < sp.end <= |code|
    ensures |m| == sp.end - sp.start > 0 && OccursAt(code, m, sp.start)
  {
    code[sp.start..sp.end]
  }

  /** The inner loop of `tagExtract` for one tag: while a match exists,
      `code.replace(match[0], '')` and push `match[0]`. */
  function ExtractTag(code: string, tag: string): (string, seq<string>)
    decreases |code|
  {
    var f := FindMatch(code, tag, 0);
    if f.None? then (code, [])
    else
      var m := MatchText(code, f.value);
      var next := ReplaceFirst(code, m, "");
      var rest := ExtractTag(next, tag);
      (rest.0, [m] + rest.1)
  }

  /** `tagExtract(code, tags)`: the tags in order, each extracted from what
      the earlier ones left. */
  function ExtractTags(code: string, tags: seq<string>): (string, seq<string>)
    decreases |tags|
  {
    if tags == [] then (code, [])
    else
      var before := ExtractTags(code, tags[..|tags| - 1]);
      var here := ExtractTag(before.0, tags[|tags| - 1]);
      (here.0, before.1 + here.1)
  }

  function TotalLength(out: seq<string>): nat
    decreases |out|
  {
    if out == [] then 0 else |out[0]| + TotalLength(out[1..])
  }

  lemma {:induction false} TotalLengthAppend(a: seq<string>, b: seq<string>)
    ensures TotalLength(a + b) == TotalLength(a) + TotalLength(b)
    decreases |a|
  {
    if a != [] {
      assert (a + b)[1..] == a[1..] + b;
      TotalLengthAppend(a[1..], b);
    } else {
      assert a + b == b;
    }
  }

  /** Extracting one tag removes exactly the text it pushes, and leaves no
      match of that tag behind. */
  lemma {:induction false} ExtractTagFacts(code: string, tag: string)
    ensures |ExtractTag(code, tag).0| + TotalLength(ExtractTag(code, tag).1) == |code|
    ensures FindMatch(ExtractTag(code, tag).0, tag, 0).None?
    decreases |code|
  {
    var f := FindMatch(code, tag, 0);
    if f.Some? {
      var m := MatchText(code, f.value);
      var next := ReplaceFirst(code, m, "");
      assert IndexOf(code, m, 0) >= 0;
      ExtractTagFacts(next, tag);
      var rest := ExtractTag(next, tag);
      assert ([m] + rest.1)[1..] == rest.1;
    }
  }

  /** Over all tags, the pushed blocks and the remaining text together are
      as long as the original, and no match of the last tag remains. */
  lemma {:induction false} ExtractTagsFacts(code: string, tags: seq<string>)
    ensures |ExtractTags(code, tags).0| + TotalLength(ExtractTags(code, tags).1) == |code|
    ensures tags != [] ==> FindMatch(ExtractTags(code, tags).0, tags[|tags| - 1], 0).None?
    decreases |tags|
  {
    if tags != [] {
      var before := ExtractTags(code, tags[..|tags| - 1]);
      ExtractTagsFacts(code, tags[..|tags| - 1]);
      ExtractTagFacts(before.0, tags[|tags| - 1]);
      TotalLengthAppend(before.1, ExtractTag(before.0, tags[|tags| - 1]).1);
    }
  }

  /** `tagExtract` as the source runs it: a loop over the tags, each
      handled by `ExtractMatches`. */
  method TagExtract(code: string, tags: seq<string>) returns (rest: string, out: seq<string>)
    ensures (rest, out) == ExtractTags(code, tags)
  {
    rest, out := code, [];
    var t := 0;
    while t < |tags|
      invariant 0 <= t <= |tags|
      invariant (rest, out) == ExtractTags(code, tags[..t])
    {
      var removed;
      assert tags[..t + 1][..t] == tags[..t];
      rest, removed := ExtractMatches(rest, tags[t]);
      out := out + removed;
      t := t + 1;
    }
    assert tags[..t] == tags;
  }

  /** The inner `while (true)` loop for one tag: remove the leftmost match
      until none is left. */
  method ExtractMatches(code: string, tag: string) returns (rest: string, out: seq<string>)
    ensures (rest, out) == ExtractTag(code, tag)
  {
    rest, out := code, [];
    ghost var goal := ExtractTag(code, tag);
    assert out + goal.1 == goal.1;
    while true
      invariant goal == (ExtractTag(rest, tag).0, out + ExtractTag(rest, tag).1)
      decreases |rest|
    {
      var found, m, next := ExtractFirst(rest, tag);
      if !found {
        break;
      }
      Pushed(goal, ExtractTag(rest, tag), ExtractTag(next, tag), out, m);
      rest := next;
      out := out + [m];
    }
    assert out + [] == out;
  }

  /** One turn of the inner loop: when a match is left, the leftmost one
      `m` is pushed and extraction goes on in the shorter text without
      it; otherwise the loop stops. */
  method ExtractFirst(code: string, tag: string) returns (found: bool, m: string, next: string)
    ensures !found ==> ExtractTag(code, tag) == (code, [])
    ensures found ==> |next| < |code| && ExtractTag(code, tag) == (ExtractTag(next, tag).0, [m] + ExtractTag(next, tag).1)
  {
    var f := FindMatch(code, tag, 0);
    if f.None? {
      return false, "", code;
    }
    m := MatchText(code, f.value);
    assert IndexOf(code, m, 0) >= 0;
    next := ReplaceFirst(code, m, "");
    found := true;
  }

  /** Pushing `m` keeps the loop's account of what is left to extract. */
  lemma Pushed(goal: (string, seq<string>), now: (string, seq<string>), after: (string, seq<string>),
               out: seq<string>, m: string)
    requires goal == (now.0, out + now.1) && now == (after.0, [m] + after.1)
    ensures goal == (after.0, (out + [m]) + after.1)
  {
    assert out + ([m] + after.1) == (out + [m]) + after.1;
  }
}
