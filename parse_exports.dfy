/** Export extraction (`parseExports`): every top-level export statement is
    rewritten away (a default export or a specifier list is cut out whole;
    for an exported declaration only the `export` keyword is cut) and the
    exported names are recorded in a table from exported name to local
    name. */
module ParseExports {
  import opened Text
  import opened Tables
  import opened Spans
  import opened Ast
  import opened Cuts

  /** Exported name → local name. */
  type ExportTable = Table<string, string>

  datatype ExportError =
    | UnsupportedDefault   // `export default` of anything but an identifier
    | UnsupportedNamed     // an exported declaration with no identifier to record
    | UnsupportedAll       // `export * from …`

  /** The pairs a list of specifiers records, in order. */
  function SpecPairs(specs: seq<ExportSpec>): (ps: seq<(string, string)>)
    ensures |ps| == |specs|
    ensures forall i :: 0 <= i < |specs| ==> ps[i] == (specs[i].exported, specs[i].local)
  {
    seq(|specs|, i requires 0 <= i < |specs| => (specs[i].exported, specs[i].local))
  }

  /** The error an export statement raises, if any. */
  function Failure(n: Node): Option<ExportError> {
    match n.stmt
    case ExportDefault(DefaultOther) => Some(UnsupportedDefault)
    case ExportNamed(Some(d), _, _) => if ExportedIdentifier(d).None? then Some(UnsupportedNamed) else None
    case ExportAll => Some(UnsupportedAll)
    case _ => None
  }

  /** The (exported, local) pairs an export statement records. */
  function NodeExports(n: Node): seq<(string, string)> {
    match n.stmt
    case ExportDefault(DefaultIdent(x)) => [("default", x)]
    case ExportNamed(Some(d), _, _) =>
      if ExportedIdentifier(d).Some? then [(ExportedIdentifier(d).value, ExportedIdentifier(d).value)] else []
    case ExportNamed(None, _, specs) => SpecPairs(specs)
    case _ => []
  }

  /** What the pass cuts from a node: a default export or a specifier list
      whole, and from an exported declaration the text before the
      declaration. */
  function ExportCut(n: Node): Option<Span> {
    match n.stmt
    case ExportDefault(_) => Some(NodeSpan(n))
    case ExportNamed(Some(_), declStart, _) => Some(Span(n.start, declStart))
    case ExportNamed(None, _, _) => Some(NodeSpan(n))
    case _ => None
  }

  function ExportSpans(nodes: seq<Node>): seq<Span> {
    CutSpans(ExportCut, nodes)
  }

  /** The text export extraction leaves. */
  function ExportFree(code: string, nodes: seq<Node>): string
    requires WellFormed(code, nodes)
  {
    ExportCutsWithin(code, nodes);
    CutSpansOrdered(code, ExportCut, nodes, |nodes|);
    assert nodes[..|nodes|] == nodes;
    RemoveSpans(code, ExportSpans(nodes))
  }

  /** The pairs recorded by `nodes`, in source order. */
  function ExportPairs(nodes: seq<Node>): seq<(string, string)>
    decreases |nodes|
  {
    if nodes == [] then []
    else ExportPairs(nodes[..|nodes| - 1]) + NodeExports(nodes[|nodes| - 1])
  }

  /** The table the pass builds: each pair set in turn. */
  function ExportTableOf(nodes: seq<Node>): ExportTable {
    SetAll([], ExportPairs(nodes))
  }

  /** The index of the first failing node, if any. */
  predicate FirstFailure(nodes: seq<Node>, i: nat) {
    i < |nodes| && Failure(nodes[i]).Some? && forall k :: 0 <= k < i ==> Failure(nodes[k]).None?
  }

  predicate NoFailure(nodes: seq<Node>) {
    forall k :: 0 <= k < |nodes| ==> Failure(nodes[k]).None?
  }

  lemma ExportCutsWithin(code: string, nodes: seq<Node>)
    requires WellFormed(code, nodes)
    ensures CutsWithin(ExportCut, nodes)
  {
    forall j | 0 <= j < |nodes| ensures CutWithin(ExportCut, nodes[j]) {
      assert nodes[j].start <= nodes[j].end;
      if nodes[j].stmt.ExportNamed? {
        assert nodes[j].start <= nodes[j].stmt.declStart <= nodes[j].end;
      }
    }
  }

  /** The error of the first failing node, if any. */
  function FirstFail(nodes: seq<Node>): Option<ExportError>
    decreases |nodes|
  {
    if nodes == [] then None
    else
      var f := FirstFail(nodes[..|nodes| - 1]);
      if f.Some? then f else Failure(nodes[|nodes| - 1])
  }

  lemma FirstFailStep(nodes: seq<Node>, i: nat)
    requires i < |nodes| && FirstFail(nodes[..i]).None?
    ensures FirstFail(nodes[..i + 1]) == Failure(nodes[i])
  {
    assert nodes[..i + 1][..i] == nodes[..i];
  }

  lemma NoFailureStep(nodes: seq<Node>, i: nat)
    requires i < |nodes| && NoFailure(nodes[..i]) && Failure(nodes[i]).None?
    ensures NoFailure(nodes[..i + 1])
  {
    assert nodes[..i + 1] == nodes[..i] + [nodes[i]];
  }

  /** The first failing node decides the outcome. */
  lemma FirstFailAt(nodes: seq<Node>, i: nat)
    requires i < |nodes| && NoFailure(nodes[..i]) && Failure(nodes[i]).Some?
    ensures FirstFail(nodes) == Failure(nodes[i])
  {
    FirstFailMeaning(nodes[..i]);
    FirstFailStep(nodes, i);
    FirstFailPrefix(nodes, i + 1);
  }

  /** Once some node has failed, later nodes do not change the outcome. */
  lemma {:induction false} FirstFailPrefix(nodes: seq<Node>, k: nat)
    requires k <= |nodes| && FirstFail(nodes[..k]).Some?
    ensures FirstFail(nodes) == FirstFail(nodes[..k])
    decreases |nodes| - k
  {
    if k < |nodes| {
      var init := nodes[..|nodes| - 1];
      assert init[..k] == nodes[..k];
      FirstFailPrefix(init, k);
    } else {
      assert nodes[..k] == nodes;
    }
  }

  /** `FirstFail` names the error of the first failing node, and is empty
      exactly when no node fails. */
  lemma {:induction false} FirstFailMeaning(nodes: seq<Node>)
    ensures FirstFail(nodes).None? <==> NoFailure(nodes)
    ensures FirstFail(nodes).Some? ==>
      exists i: nat :: FirstFailure(nodes, i) && Failure(nodes[i]) == FirstFail(nodes)
    decreases |nodes|
  {
    if nodes != [] {
      var init := nodes[..|nodes| - 1];
      FirstFailMeaning(init);
      if FirstFail(init).Some? {
        var i: nat :| FirstFailure(init, i) && Failure(init[i]) == FirstFail(init);
        assert nodes[i] == init[i];
        assert FirstFailure(nodes, i);
      } else if Failure(nodes[|nodes| - 1]).Some? {
        assert FirstFailure(nodes, |nodes| - 1);
      }
    }
  }

  /** A statement that is not an export is left alone. */
  lemma NonExport(n: Node)
    requires !IsExport(n)
    ensures ExportCut(n).None? && NodeExports(n) == [] && Failure(n).None?
  {
    assert n.stmt.ImportDecl? || n.stmt.Decl? || n.stmt.OtherStmt?;
  }

  lemma PairsStep(nodes: seq<Node>, i: nat)
    requires i < |nodes|
    ensures ExportPairs(nodes[..i + 1]) == ExportPairs(nodes[..i]) + NodeExports(nodes[i])
    ensures ExportTableOf(nodes[..i + 1]) == SetAll(ExportTableOf(nodes[..i]), NodeExports(nodes[i]))
  {
    assert nodes[..i + 1][..i] == nodes[..i];
    SetAllAppend([], ExportPairs(nodes[..i]), NodeExports(nodes[i]));
  }

  /** The specifier loop: each `exported → local` pair is set in turn. */
  method SetSpecifiers(table: ExportTable, specs: seq<ExportSpec>) returns (t: ExportTable)
    ensures t == SetAll(table, SpecPairs(specs))
  {
    t := table;
    var j := 0;
    while j < |specs|
      invariant 0 <= j <= |specs|
      invariant t == SetAll(table, SpecPairs(specs[..j]))
    {
      assert SpecPairs(specs[..j + 1])[..j] == SpecPairs(specs[..j]);
      t := Set(t, specs[j].exported, specs[j].local);
      j := j + 1;
    }
    assert specs[..j] == specs;
  }

  /** One export statement's effect on the table, or its error. */
  method RecordExport(table: ExportTable, node: Node) returns (r: Result<ExportTable, ExportError>)
    requires IsExport(node)
    ensures r.Err? <==> Failure(node).Some?
    ensures r.Err? ==> r.error == Failure(node).value
    ensures r.Ok? ==> r.value == SetAll(table, NodeExports(node))
  {
    match node.stmt {
      case ExportDefault(value) =>
        if !value.DefaultIdent? {
          return Err(UnsupportedDefault);
        }
        return Ok(Set(table, "default", value.name));
      case ExportNamed(decl, _, specs) =>
        if decl.Some? {
          var identifier := ExportedIdentifier(decl.value);
          if identifier.None? {
            return Err(UnsupportedNamed);
          }
          return Ok(Set(table, identifier.value, identifier.value));
        }
        var t := SetSpecifiers(table, specs);
        return Ok(t);
      case ExportAll =>
        return Err(UnsupportedAll);
    }
  }

  /** One export statement: its table update (or error), and its cut
      from the text at its span shifted by the offset. */
  method VisitExport(code: string, nodes: seq<Node>, i: nat, text: string, offset: int, table: ExportTable)
    returns (r: Result<(string, int, ExportTable), ExportError>)
    requires Pass(code, ExportCut, nodes, i, text, offset) && i < |nodes| && IsExport(nodes[i])
    requires table == ExportTableOf(nodes[..i])
    ensures r.Err? <==> Failure(nodes[i]).Some?
    ensures r.Err? ==> r.error == Failure(nodes[i]).value
    ensures r.Ok? ==>
      && Pass(code, ExportCut, nodes, i + 1, r.value.0, r.value.1)
      && r.value.2 == ExportTableOf(nodes[..i + 1])
  {
    var node := nodes[i];
    PairsStep(nodes, i);
    var recorded := RecordExport(table, node);
    if recorded.Err? {
      return Err(recorded.error);
    }
    // Remove the whole statement, or just the "export" keyword
    var text', offset' := CutOut(code, ExportCut, nodes, i, text, offset, ExportCut(node).value);
    return Ok((text', offset', recorded.value));
  }

  /** `parseExports(code)`. */
  method ParseExports(parse: string -> seq<Node>, code: string)
    returns (r: Result<(string, ExportTable), ExportError>)
    requires SoundParser(parse)
    ensures r.Err? <==> FirstFail(parse(code)).Some?
    ensures r.Err? ==> FirstFail(parse(code)) == Some(r.error)
    ensures r.Ok? ==>
      && r.value.0 == ExportFree(code, parse(code))
      && r.value.1 == ExportTableOf(parse(code))
  {
    var nodes := parse(code);
    assert WellFormed(code, nodes);
    ExportCutsWithin(code, nodes);
    var text := code;
    var table: ExportTable := [];
    // Negative offset to track removed code
    var offset: int := 0;
    PassStart(code, ExportCut, nodes);
    var i := 0;
    while i < |nodes|
      invariant 0 <= i <= |nodes|
      invariant NoFailure(nodes[..i])
      invariant Pass(code, ExportCut, nodes, i, text, offset)
      invariant table == ExportTableOf(nodes[..i])
    {
      var node := nodes[i];
      PairsStep(nodes, i);
      if !IsExport(node) {
        NonExport(node);
        PassSkip(code, ExportCut, nodes, i, text, offset);
        NoFailureStep(nodes, i);
        i := i + 1;
        continue;
      }
      var visited := VisitExport(code, nodes, i, text, offset, table);
      if visited.Err? {
        FirstFailAt(nodes, i);
        return Err(visited.error);
      }
      NoFailureStep(nodes, i);
      text, offset, table := visited.value.0, visited.value.1, visited.value.2;
      i := i + 1;
    }
    PassEnd(code, ExportCut, nodes, text, offset);
    assert nodes[..i] == nodes;
    FirstFailMeaning(nodes);
    return Ok((text, table));
  }

  /** Each name holds the local name of its last export, and nothing is
      recorded for a name never exported. */
  lemma ExportLookup(nodes: seq<Node>, name: string)
    ensures Lookup(ExportTableOf(nodes), name) == LastValue(ExportPairs(nodes), name)
  {
    SetAllLookup([], ExportPairs(nodes), name);
  }

  lemma ExportKeysUnique(nodes: seq<Node>)
    ensures UniqueKeys(ExportTableOf(nodes))
  {
    SetAllUnique([], ExportPairs(nodes));
  }

  /** A statement that is not an export survives verbatim. */
  lemma KeptStatement(code: string, nodes: seq<Node>, i: nat)
    requires WellFormed(code, nodes) && i < |nodes| && !IsExport(nodes[i])
    ensures Ordered(ExportSpans(nodes), |code|)
    ensures Ordered(ExportSpans(nodes[..i + 1]), nodes[i].start)
    ensures var d := Total(ExportSpans(nodes[..i + 1]));
      d <= nodes[i].start
      && nodes[i].end - d <= |RemoveSpans(code, ExportSpans(nodes))|
      && RemoveSpans(code, ExportSpans(nodes))[nodes[i].start - d..nodes[i].end - d]
         == code[nodes[i].start..nodes[i].end]
  {
    ExportCutsWithin(code, nodes);
    KeptText(code, ExportCut, nodes, i, NodeSpan(nodes[i]));
  }

  /** Of an exported declaration only the `export` keyword goes: the
      declaration itself survives verbatim. */
  lemma KeptDeclaration(code: string, nodes: seq<Node>, i: nat)
    requires WellFormed(code, nodes) && i < |nodes|
    requires nodes[i].stmt.ExportNamed? && nodes[i].stmt.decl.Some?
    ensures Ordered(ExportSpans(nodes), |code|)
    ensures Ordered(ExportSpans(nodes[..i + 1]), nodes[i].stmt.declStart)
    ensures var d := Total(ExportSpans(nodes[..i + 1]));
      var n := nodes[i];
      d <= n.stmt.declStart <= n.end
      && n.end - d <= |RemoveSpans(code, ExportSpans(nodes))|
      && RemoveSpans(code, ExportSpans(nodes))[n.stmt.declStart - d..n.end - d]
         == code[n.stmt.declStart..n.end]
  {
    ExportCutsWithin(code, nodes);
    assert nodes[i].stmt.declStart <= nodes[i].end;
    assert ExportCut(nodes[i]) == Some(Span(nodes[i].start, nodes[i].stmt.declStart));
    KeptText(code, ExportCut, nodes, i, Span(nodes[i].stmt.declStart, nodes[i].end));
  }

  /** `export {A, B as C};` records `A → A` and `C → B`. */
  lemma SpecifierExample()
    ensures var n := Node(0, 20, ExportNamed(None, 0, [ExportSpec("A", "A"), ExportSpec("B", "C")]));
      ExportTableOf([n]) == [("A", "A"), ("C", "B")]
  {
    var n := Node(0, 20, ExportNamed(None, 0, [ExportSpec("A", "A"), ExportSpec("B", "C")]));
    var ps := [("A", "A"), ("C", "B")];
    assert [n][..0] == [];
    assert ExportPairs([n]) == ps;
    assert ps[..1] == [("A", "A")] && ps[..1][..0] == [];
    var empty: ExportTable := [];
    assert SetAll(empty, ps[..1]) == [("A", "A")];
    assert [("A", "A")][1..] == [];
    assert Set([("A", "A")], "C", "B") == [("A", "A")] + Set(empty, "C", "B");
  }

  /** A later export of the same name replaces the earlier one:
      `export default a; export {b as default};` records `default → b`. */
  lemma LaterWinsExample()
    ensures var nodes := [
        Node(0, 17, ExportDefault(DefaultIdent("a"))),
        Node(18, 40, ExportNamed(None, 0, [ExportSpec("b", "default")]))];
      ExportTableOf(nodes) == [("default", "b")]
  {
    var nodes := [
        Node(0, 17, ExportDefault(DefaultIdent("a"))),
        Node(18, 40, ExportNamed(None, 0, [ExportSpec("b", "default")]))];
    assert nodes[..1] == [nodes[0]] && nodes[..1][..0] == [];
    assert ExportPairs(nodes[..1]) == [("default", "a")];
    assert ExportPairs(nodes) == [("default", "a"), ("default", "b")];
    var ps := [("default", "a"), ("default", "b")];
    assert ps[..1] == [("default", "a")] && ps[..1][..0] == [];
    var empty: ExportTable := [];
    assert SetAll(empty, ps[..1]) == [("default", "a")];
  }
}
