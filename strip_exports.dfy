/** Export stripping (`stripExports`): after export extraction, every
    top-level declaration binding a local whose export alias is not allowed
    is cut out of the export-free text. */
module StripExports {
  import opened Text
  import opened Tables
  import opened Spans
  import opened Ast
  import opened Cuts
  import opened ParseExports

  /** Entries with their two sides swapped: local → exported name. */
  function Swapped(t: ExportTable): (s: seq<(string, string)>)
    ensures |s| == |t|
    ensures forall i :: 0 <= i < |t| ==> s[i] == (t[i].1, t[i].0)
  {
    seq(|t|, i requires 0 <= i < |t| => (t[i].1, t[i].0))
  }

  /** The inverted table `exports.forEach((v, k) => localMap.set(v, k))`. */
  function Invert(t: ExportTable): ExportTable {
    SetAll([], Swapped(t))
  }

  /** The exported name of the last entry whose local name is `local`. */
  function LastAlias(t: ExportTable, local: string): Option<string>
    decreases |t|
  {
    if t == [] then None
    else if t[|t| - 1].1 == local then Some(t[|t| - 1].0)
    else LastAlias(t[..|t| - 1], local)
  }

  /** The `forEach` that fills `localMap`. */
  method InvertExports(exports: ExportTable) returns (localMap: ExportTable)
    ensures localMap == Invert(exports)
  {
    localMap := [];
    var j := 0;
    while j < |exports|
      invariant 0 <= j <= |exports|
      invariant localMap == SetAll([], Swapped(exports[..j]))
    {
      assert Swapped(exports[..j + 1])[..j] == Swapped(exports[..j]);
      localMap := Set(localMap, exports[j].1, exports[j].0);
      j := j + 1;
    }
    assert exports[..j] == exports;
  }

  lemma {:induction false} LastValueSwapped(t: ExportTable, local: string)
    ensures LastValue(Swapped(t), local) == LastAlias(t, local)
    decreases |t|
  {
    if t != [] {
      assert Swapped(t)[..|t| - 1] == Swapped(t[..|t| - 1]);
      LastValueSwapped(t[..|t| - 1], local);
    }
  }

  /** A local name maps to the alias it was exported under last; when two
      aliases share a local, the later one wins. */
  lemma InvertLookup(t: ExportTable, local: string)
    ensures Lookup(Invert(t), local) == LastAlias(t, local)
  {
    SetAllLookup([], Swapped(t), local);
    LastValueSwapped(t, local);
  }

  /** `LastAlias` finds the last entry with that local, and nothing when no
      entry has it. */
  lemma {:induction false} LastAliasMeaning(t: ExportTable, local: string)
    ensures LastAlias(t, local).None? <==> forall i :: 0 <= i < |t| ==> t[i].1 != local
    ensures LastAlias(t, local).Some? ==>
      exists i :: 0 <= i < |t| && t[i] == (LastAlias(t, local).value, local)
        && (forall j :: i < j < |t| ==> t[j].1 != local)
    decreases |t|
  {
    if t != [] && t[|t| - 1].1 != local {
      var init := t[..|t| - 1];
      LastAliasMeaning(init, local);
      assert forall i :: 0 <= i < |init| ==> init[i] == t[i];
      if LastAlias(init, local).Some? {
        var i :| 0 <= i < |init| && init[i] == (LastAlias(init, local).value, local)
          && forall j :: i < j < |init| ==> init[j].1 != local;
        assert t[i] == init[i];
      }
    }
  }

  /** The names a top-level node declares: every declarator of a variable
      declaration, or the function or class name. */
  function Locals(n: Node): seq<string> {
    if n.stmt.Decl? then DeclaredNames(n.stmt.declared) else []
  }

  /** A local that is exported under an alias outside `allowed`. */
  predicate Disallowed(localMap: ExportTable, allowed: seq<string>, name: string) {
    Lookup(localMap, name).Some? && Lookup(localMap, name).value !in allowed
  }

  /** Some declared name of the node is disallowed. */
  predicate Strips(localMap: ExportTable, allowed: seq<string>, n: Node) {
    exists j :: 0 <= j < |Locals(n)| && Disallowed(localMap, allowed, Locals(n)[j])
  }

  /** A stripped node is cut out whole. */
  function StripCut(localMap: ExportTable, allowed: seq<string>): Node -> Option<Span> {
    n => if Strips(localMap, allowed, n) then Some(NodeSpan(n)) else None
  }

  function StripSpans(localMap: ExportTable, allowed: seq<string>, nodes: seq<Node>): seq<Span> {
    CutSpans(StripCut(localMap, allowed), nodes)
  }

  /** The export-free text with the stripped declarations cut out. */
  function Stripped(free: string, nodes: seq<Node>, localMap: ExportTable, allowed: seq<string>): string
    requires WellFormed(free, nodes)
  {
    StripCutsWithin(free, localMap, allowed, nodes);
    CutSpansOrdered(free, StripCut(localMap, allowed), nodes, |nodes|);
    assert nodes[..|nodes|] == nodes;
    RemoveSpans(free, StripSpans(localMap, allowed, nodes))
  }

  lemma StripCutsWithin(free: string, localMap: ExportTable, allowed: seq<string>, nodes: seq<Node>)
    requires WellFormed(free, nodes)
    ensures CutsWithin(StripCut(localMap, allowed), nodes)
  {
    forall j | 0 <= j < |nodes| ensures CutWithin(StripCut(localMap, allowed), nodes[j]) {
      assert nodes[j].start <= nodes[j].end;
    }
  }

  /** The inner loop over a node's locals, leaving it at the first
      disallowed one. */
  method ShouldStrip(localMap: ExportTable, allowed: seq<string>, locals: seq<string>)
    returns (b: bool)
    ensures b <==> exists j :: 0 <= j < |locals| && Disallowed(localMap, allowed, locals[j])
  {
    var j := 0;
    while j < |locals|
      invariant 0 <= j <= |locals|
      invariant forall k :: 0 <= k < j ==> !Disallowed(localMap, allowed, locals[k])
    {
      var name := locals[j];
      var alias := Lookup(localMap, name);
      if alias.None? {
        j := j + 1;
        continue;
      }
      if alias.value in allowed {
        j := j + 1;
        continue;
      }
      return true;
    }
    return false;
  }

  /** `stripExports(code, exports, allowed)`. */
  method StripExports(parse: string -> seq<Node>, code: string, exports: ExportTable, allowed: seq<string>)
    returns (r: Result<string, ExportError>)
    requires SoundParser(parse)
    ensures r.Err? <==> FirstFail(parse(code)).Some?
    ensures r.Err? ==> FirstFail(parse(code)) == Some(r.error)
    ensures r.Ok? ==>
      var free := ExportFree(code, parse(code));
      r.value == Stripped(free, parse(free), Invert(exports), allowed)
  {
    var parsed := ParseExports.ParseExports(parse, code);
    if parsed.Err? {
      return Err(parsed.error);
    }
    var text := parsed.value.0;
    assert text == ExportFree(code, parse(code));
    ghost var free := text;
    var nodes := parse(text);
    assert WellFormed(free, nodes);
    // Negative offset to track removed code
    var offset: int := 0;
    // Invert export map to lookup local names
    var localMap := InvertExports(exports);
    ghost var cut := StripCut(localMap, allowed);
    StripCutsWithin(free, localMap, allowed, nodes);
    PassStart(free, cut, nodes);
    var i := 0;
    while i < |nodes|
      invariant 0 <= i <= |nodes|
      invariant Pass(free, cut, nodes, i, text, offset)
    {
      var node := nodes[i];
      var strip := ShouldStrip(localMap, allowed, Locals(node));
      if !strip {
        PassSkip(free, cut, nodes, i, text, offset);
        i := i + 1;
        continue;
      }
      text, offset := CutOut(free, cut, nodes, i, text, offset, NodeSpan(node));
      i := i + 1;
    }
    PassEnd(free, cut, nodes, text, offset);
    return Ok(text);
  }

  /** A node is stripped exactly when one of its declared names is an
      exported local whose (last) alias is not allowed. */
  lemma StripsMeaning(exports: ExportTable, allowed: seq<string>, n: Node)
    ensures Strips(Invert(exports), allowed, n) <==>
      exists j :: 0 <= j < |Locals(n)| && LastAlias(exports, Locals(n)[j]).Some?
        && LastAlias(exports, Locals(n)[j]).value !in allowed
  {
    forall j | 0 <= j < |Locals(n)| {
      InvertLookup(exports, Locals(n)[j]);
    }
  }

  /** Only declarations are stripped: any other statement is kept, whatever
      is exported and allowed. */
  lemma NonDeclarationKept(exports: ExportTable, allowed: seq<string>, n: Node)
    requires !n.stmt.Decl?
    ensures !Strips(Invert(exports), allowed, n)
  {
    StripsMeaning(exports, allowed, n);
  }

  /** A declaration none of whose names is exported is kept. */
  lemma KeptUnexported(exports: ExportTable, allowed: seq<string>, n: Node)
    requires forall j :: 0 <= j < |Locals(n)| ==>
      forall i :: 0 <= i < |exports| ==> exports[i].1 != Locals(n)[j]
    ensures !Strips(Invert(exports), allowed, n)
  {
    StripsMeaning(exports, allowed, n);
    forall j | 0 <= j < |Locals(n)| ensures LastAlias(exports, Locals(n)[j]).None? {
      LastAliasMeaning(exports, Locals(n)[j]);
    }
  }

  /** Every node that is not stripped survives verbatim. */
  lemma KeptNode(free: string, localMap: ExportTable, allowed: seq<string>, nodes: seq<Node>, i: nat)
    requires WellFormed(free, nodes) && i < |nodes| && !Strips(localMap, allowed, nodes[i])
    ensures Ordered(StripSpans(localMap, allowed, nodes), |free|)
    ensures Ordered(StripSpans(localMap, allowed, nodes[..i + 1]), nodes[i].start)
    ensures var d := Total(StripSpans(localMap, allowed, nodes[..i + 1]));
      d <= nodes[i].start
      && nodes[i].end - d <= |RemoveSpans(free, StripSpans(localMap, allowed, nodes))|
      && RemoveSpans(free, StripSpans(localMap, allowed, nodes))[nodes[i].start - d..nodes[i].end - d]
         == free[nodes[i].start..nodes[i].end]
  {
    StripCutsWithin(free, localMap, allowed, nodes);
    KeptText(free, StripCut(localMap, allowed), nodes, i, NodeSpan(nodes[i]));
  }

  /** `export {v as x, v as y}` records `x → v` and `y → v`; the inverted
      table keeps the later alias, `v → y`. */
  lemma LaterAliasExample()
    ensures Invert([("x", "v"), ("y", "v")]) == [("v", "y")]
  {
    var t := [("x", "v"), ("y", "v")];
    var s := Swapped(t);
    assert s == [("v", "x"), ("v", "y")];
    assert s[..1] == [("v", "x")] && s[..1][..0] == [];
    var empty: ExportTable := [];
    assert SetAll(empty, s[..1]) == [("v", "x")];
  }
}
