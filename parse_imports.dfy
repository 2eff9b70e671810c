/** Import extraction (`parseImports`): every top-level import declaration
    is cut out of the module text, and its bindings are recorded in a table
    from module specifier to the `{alias, local}` pairs imported from it. */
module ParseImports {
  import opened Text
  import opened Tables
  import opened Spans
  import opened Ast
  import opened Cuts

  datatype Binding = Binding(alias: string, local: string)

  /** Specifier → bindings, in first-import order. */
  type ImportTable = Table<string, seq<Binding>>

  datatype ImportError = UnsupportedImport

  /** The binding one specifier records: `default` for a default import, `*`
      for a namespace import, the imported identifier for a named import;
      nothing for a string-literal name. */
  function SpecBinding(sp: ImportSpec): Option<Binding> {
    match sp
    case DefaultSpec(l) => Some(Binding("default", l))
    case NamespaceSpec(l) => Some(Binding("*", l))
    case NamedSpec(IdentName(n), l) => Some(Binding(n, l))
    case NamedSpec(StringName(_), _) => None
  }

  /** Every specifier records a binding. */
  predicate Supported(specs: seq<ImportSpec>)
    decreases |specs|
  {
    specs == [] || (Supported(specs[..|specs| - 1]) && SpecBinding(specs[|specs| - 1]).Some?)
  }

  /** An import declaration with a string-literal named specifier. */
  predicate Unsupported(n: Node) {
    n.stmt.ImportDecl? && !Supported(n.stmt.specifiers)
  }

  /** No import among `nodes` is unsupported. */
  predicate AllSupported(nodes: seq<Node>)
    decreases |nodes|
  {
    nodes == [] || (AllSupported(nodes[..|nodes| - 1]) && !Unsupported(nodes[|nodes| - 1]))
  }

  /** The bindings of a specifier list, in order. */
  function Bindings(specs: seq<ImportSpec>): seq<Binding>
    decreases |specs|
  {
    if specs == [] then []
    else
      var b := SpecBinding(specs[|specs| - 1]);
      Bindings(specs[..|specs| - 1]) + (if b.Some? then [b.value] else [])
  }

  /** An import declaration is cut out whole. */
  function ImportCut(n: Node): Option<Span> {
    if n.stmt.ImportDecl? then Some(NodeSpan(n)) else None
  }

  /** The spans of the import declarations, in source order. */
  function ImportSpans(nodes: seq<Node>): seq<Span> {
    CutSpans(ImportCut, nodes)
  }

  /** The text import extraction leaves. */
  function ImportFree(code: string, nodes: seq<Node>): string
    requires WellFormed(code, nodes)
  {
    assert CutsWithin(ImportCut, nodes);
    CutSpansOrdered(code, ImportCut, nodes, |nodes|);
    assert nodes[..|nodes|] == nodes;
    RemoveSpans(code, ImportSpans(nodes))
  }

  function GetOr<V>(o: Option<V>, d: V): V {
    if o.Some? then o.value else d
  }

  /** The table after visiting `nodes` in order: each import appends its
      bindings under its specifier, creating the key on first sight. */
  function ImportTableOf(nodes: seq<Node>): ImportTable
    decreases |nodes|
  {
    if nodes == [] then []
    else
      var t := ImportTableOf(nodes[..|nodes| - 1]);
      var n := nodes[|nodes| - 1];
      if n.stmt.ImportDecl? then
        Set(t, n.stmt.source, GetOr(Lookup(t, n.stmt.source), []) + Bindings(n.stmt.specifiers))
      else t
  }

  lemma BindingsStep(specs: seq<ImportSpec>, j: nat)
    requires j < |specs| && Supported(specs[..j]) && SpecBinding(specs[j]).Some?
    ensures Supported(specs[..j + 1])
    ensures Bindings(specs[..j + 1]) == Bindings(specs[..j]) + [SpecBinding(specs[j]).value]
  {
    assert specs[..j + 1][..j] == specs[..j];
  }

  lemma {:induction false} SupportedMeaning(specs: seq<ImportSpec>)
    ensures Supported(specs) <==> forall i :: 0 <= i < |specs| ==> SpecBinding(specs[i]).Some?
    decreases |specs|
  {
    if specs != [] {
      var init := specs[..|specs| - 1];
      SupportedMeaning(init);
      assert forall i :: 0 <= i < |init| ==> init[i] == specs[i];
    }
  }

  lemma {:induction false} AllSupportedMeaning(nodes: seq<Node>)
    ensures AllSupported(nodes) <==> forall i :: 0 <= i < |nodes| ==> !Unsupported(nodes[i])
    decreases |nodes|
  {
    if nodes != [] {
      var init := nodes[..|nodes| - 1];
      AllSupportedMeaning(init);
      assert forall i :: 0 <= i < |init| ==> init[i] == nodes[i];
    }
  }

  /** Every supported specifier yields exactly one binding, in order. */
  lemma {:induction false} BindingsMeaning(specs: seq<ImportSpec>)
    requires Supported(specs)
    ensures |Bindings(specs)| == |specs|
    ensures forall i :: 0 <= i < |specs| ==> Some(Bindings(specs)[i]) == SpecBinding(specs[i])
    decreases |specs|
  {
    if specs != [] {
      var init := specs[..|specs| - 1];
      BindingsMeaning(init);
      assert forall i :: 0 <= i < |init| ==> init[i] == specs[i];
    }
  }

  /** The inner loop of `parseImports`: the list stored under `src` (a new
      empty one if there is none) is extended in place with one binding per
      specifier; a string-literal name throws part-way. */
  method AddBindings(table: ImportTable, src: string, specs: seq<ImportSpec>)
    returns (r: Result<ImportTable, ImportError>)
    ensures r.Err? <==> !Supported(specs)
    ensures r.Ok? ==> r.value == Set(table, src, GetOr(Lookup(table, src), []) + Bindings(specs))
  {
    var from := GetOr(Lookup(table, src), []);
    ghost var from0 := from;
    var t := Set(table, src, from);
    var j := 0;
    while j < |specs|
      invariant 0 <= j <= |specs|
      invariant Supported(specs[..j])
      invariant from == from0 + Bindings(specs[..j])
      invariant t == Set(table, src, from)
    {
      // default → "default", namespace → "*", named → the imported name
      var binding := SpecBinding(specs[j]);
      if binding.None? {
        // warns 'Unsupported ImportSpecifier Literal', then throws
        SupportedMeaning(specs);
        return Err(UnsupportedImport);
      }
      var b := binding.value;
      BindingsStep(specs, j);
      SetTwice(table, src, from, from + [b]);
      t := Set(t, src, from + [b]);
      from := from + [b];
      j := j + 1;
    }
    assert specs[..j] == specs;
    return Ok(t);
  }

  lemma TableSkip(nodes: seq<Node>, i: nat)
    requires i < |nodes| && !nodes[i].stmt.ImportDecl?
    ensures ImportTableOf(nodes[..i + 1]) == ImportTableOf(nodes[..i])
    ensures AllSupported(nodes[..i + 1]) == AllSupported(nodes[..i])
  {
    assert nodes[..i + 1][..i] == nodes[..i];
  }

  lemma TableAdd(nodes: seq<Node>, i: nat)
    requires i < |nodes| && nodes[i].stmt.ImportDecl?
    ensures ImportTableOf(nodes[..i + 1]) ==
      Set(ImportTableOf(nodes[..i]), nodes[i].stmt.source,
          GetOr(Lookup(ImportTableOf(nodes[..i]), nodes[i].stmt.source), [])
          + Bindings(nodes[i].stmt.specifiers))
    ensures AllSupported(nodes[..i + 1]) == (AllSupported(nodes[..i]) && Supported(nodes[i].stmt.specifiers))
  {
    assert nodes[..i + 1][..i] == nodes[..i];
  }

  /** Once an unsupported import is seen, the whole module is unsupported. */
  lemma {:induction false} UnsupportedPrefix(nodes: seq<Node>, k: nat)
    requires k <= |nodes| && !AllSupported(nodes[..k])
    ensures !AllSupported(nodes)
    decreases |nodes| - k
  {
    if k < |nodes| {
      var init := nodes[..|nodes| - 1];
      assert init[..k] == nodes[..k];
      UnsupportedPrefix(init, k);
    } else {
      assert nodes[..k] == nodes;
    }
  }

  /** One import declaration: its text is cut out at its span shifted by
      the offset, and its bindings are added to the table. */
  method VisitImport(code: string, nodes: seq<Node>, i: nat, text: string, offset: int, table: ImportTable)
    returns (r: Result<(string, int, ImportTable), ImportError>)
    requires Pass(code, ImportCut, nodes, i, text, offset) && i < |nodes| && nodes[i].stmt.ImportDecl?
    requires table == ImportTableOf(nodes[..i])
    ensures r.Err? <==> !Supported(nodes[i].stmt.specifiers)
    ensures r.Ok? ==>
      && Pass(code, ImportCut, nodes, i + 1, r.value.0, r.value.1)
      && r.value.2 == ImportTableOf(nodes[..i + 1])
  {
    var node := nodes[i];
    // Remove import statement
    var text', offset' := CutOut(code, ImportCut, nodes, i, text, offset, NodeSpan(node));
    // Setup import map
    TableAdd(nodes, i);
    var added := AddBindings(table, node.stmt.source, node.stmt.specifiers);
    if added.Err? {
      return Err(added.error);
    }
    return Ok((text', offset', added.value));
  }

  /** `parseImports(code)`. */
  method ParseImports(parse: string -> seq<Node>, code: string)
    returns (r: Result<(string, ImportTable), ImportError>)
    requires SoundParser(parse)
    ensures r.Err? <==> !AllSupported(parse(code))
    ensures r.Ok? ==>
      && r.value.0 == ImportFree(code, parse(code))
      && r.value.1 == ImportTableOf(parse(code))
  {
    var nodes := parse(code);
    assert WellFormed(code, nodes);
    assert CutsWithin(ImportCut, nodes);
    var text := code;
    var table: ImportTable := [];
    // Negative offset to track removed code
    var offset: int := 0;
    PassStart(code, ImportCut, nodes);
    var i := 0;
    while i < |nodes|
      invariant 0 <= i <= |nodes|
      invariant AllSupported(nodes[..i])
      invariant Pass(code, ImportCut, nodes, i, text, offset)
      invariant table == ImportTableOf(nodes[..i])
    {
      var node := nodes[i];
      if !node.stmt.ImportDecl? {
        PassSkip(code, ImportCut, nodes, i, text, offset);
        TableSkip(nodes, i);
        i := i + 1;
        continue;
      }
      TableAdd(nodes, i);
      var visited := VisitImport(code, nodes, i, text, offset, table);
      if visited.Err? {
        UnsupportedPrefix(nodes, i + 1);
        return Err(visited.error);
      }
      text, offset, table := visited.value.0, visited.value.1, visited.value.2;
      i := i + 1;
    }
    PassEnd(code, ImportCut, nodes, text, offset);
    assert nodes[..i] == nodes;
    return Ok((text, table));
  }

  /** The bindings of all imports from `src`, in source order. */
  function BindingsFrom(nodes: seq<Node>, src: string): seq<Binding>
    decreases |nodes|
  {
    if nodes == [] then []
    else
      var n := nodes[|nodes| - 1];
      BindingsFrom(nodes[..|nodes| - 1], src)
        + (if n.stmt.ImportDecl? && n.stmt.source == src then Bindings(n.stmt.specifiers) else [])
  }

  /** The imported modules, each once, in order of first import. */
  function Sources(nodes: seq<Node>): seq<string>
    decreases |nodes|
  {
    if nodes == [] then []
    else
      var init := Sources(nodes[..|nodes| - 1]);
      var n := nodes[|nodes| - 1];
      if n.stmt.ImportDecl? && n.stmt.source !in init then init + [n.stmt.source] else init
  }

  /** `Sources` lists exactly the modules some import declaration names. */
  lemma {:induction false} SourcesMeaning(nodes: seq<Node>, src: string)
    ensures src in Sources(nodes) <==>
      exists i :: 0 <= i < |nodes| && nodes[i].stmt.ImportDecl? && nodes[i].stmt.source == src
    decreases |nodes|
  {
    if nodes != [] {
      var init := nodes[..|nodes| - 1];
      SourcesMeaning(init, src);
      assert forall i :: 0 <= i < |init| ==> init[i] == nodes[i];
    }
  }

  /** The table holds, under each imported module, all its bindings in source
      order (an import without specifiers still creates the entry), and
      nothing for a module never imported. */
  lemma {:induction false} ImportLookup(nodes: seq<Node>, src: string)
    ensures Lookup(ImportTableOf(nodes), src)
      == if src in Sources(nodes) then Some(BindingsFrom(nodes, src)) else None
    ensures src !in Sources(nodes) ==> BindingsFrom(nodes, src) == []
    decreases |nodes|
  {
    if nodes != [] {
      var init := nodes[..|nodes| - 1];
      var n := nodes[|nodes| - 1];
      ImportLookup(init, src);
      var t := ImportTableOf(init);
      assert BindingsFrom(nodes, src) == BindingsFrom(init, src)
        + (if n.stmt.ImportDecl? && n.stmt.source == src then Bindings(n.stmt.specifiers) else []);
      if n.stmt.ImportDecl? {
        var v := GetOr(Lookup(t, n.stmt.source), []) + Bindings(n.stmt.specifiers);
        SetLookup(t, n.stmt.source, v, src);
        if n.stmt.source == src {
          assert src in Sources(nodes);
          assert v == BindingsFrom(init, src) + Bindings(n.stmt.specifiers);
          assert BindingsFrom(nodes, src) == v;
          assert Lookup(ImportTableOf(nodes), src) == Some(v);
        } else {
          assert (src in Sources(nodes)) == (src in Sources(init));
          assert ImportTableOf(nodes) == Set(t, n.stmt.source, v);
          assert BindingsFrom(nodes, src) == BindingsFrom(init, src) + [];
          assert BindingsFrom(init, src) + [] == BindingsFrom(init, src);
          assert Lookup(ImportTableOf(nodes), src) == Lookup(t, src);
        }
      } else {
        assert Sources(nodes) == Sources(init);
        assert ImportTableOf(nodes) == t;
        assert BindingsFrom(nodes, src) == BindingsFrom(init, src) + [];
        assert BindingsFrom(init, src) + [] == BindingsFrom(init, src);
      }
    }
  }

  /** The table's keys are the imported modules in order of first import,
      each once. */
  lemma {:induction false} ImportKeys(nodes: seq<Node>)
    ensures Keys(ImportTableOf(nodes)) == Sources(nodes)
    ensures UniqueKeys(ImportTableOf(nodes))
    decreases |nodes|
  {
    if nodes != [] {
      var init := nodes[..|nodes| - 1];
      var n := nodes[|nodes| - 1];
      ImportKeys(init);
      if n.stmt.ImportDecl? {
        var t := ImportTableOf(init);
        var v := GetOr(Lookup(t, n.stmt.source), []) + Bindings(n.stmt.specifiers);
        SetKeys(t, n.stmt.source, v);
        SetUnique(t, n.stmt.source, v);
      }
    }
  }

  /** `import a, * as b from "m"; import {c as d} from "m";` */
  lemma ImportExample()
    ensures var nodes := [
        Node(0, 10, ImportDecl("m", [DefaultSpec("a"), NamespaceSpec("b")])),
        Node(10, 20, ImportDecl("m", [NamedSpec(IdentName("c"), "d")]))];
      AllSupported(nodes) &&
      ImportTableOf(nodes) == [("m", [Binding("default", "a"), Binding("*", "b"), Binding("c", "d")])]
  {
    var nodes := [
        Node(0, 10, ImportDecl("m", [DefaultSpec("a"), NamespaceSpec("b")])),
        Node(10, 20, ImportDecl("m", [NamedSpec(IdentName("c"), "d")]))];
    var specs1 := [DefaultSpec("a"), NamespaceSpec("b")];
    var specs2 := [NamedSpec(IdentName("c"), "d")];
    assert specs1[..1] == [DefaultSpec("a")] && specs1[..1][..0] == [];
    assert Bindings(specs1[..1]) == [Binding("default", "a")];
    assert Bindings(specs1) == [Binding("default", "a"), Binding("*", "b")];
    assert specs2[..0] == [];
    assert Bindings(specs2) == [Binding("c", "d")];
    assert Supported(specs1) && Supported(specs2);
    var b1 := [Binding("default", "a"), Binding("*", "b")];
    assert nodes[..1][..0] == [];
    assert nodes[..1][0] == nodes[0];
    assert nodes[..1] == [nodes[0]];
    assert !Unsupported(nodes[0]);
    assert AllSupported(nodes[..1]);
    var t1 := ImportTableOf(nodes[..1]);
    assert ImportTableOf(nodes[..1][..0]) == [];
    var empty: ImportTable := [];
    assert GetOr(Lookup(empty, "m"), []) == [];
    assert [] + b1 == b1;
    assert t1 == [("m", b1)];
    assert nodes[..2][..1] == nodes[..1] && nodes[..2] == nodes;
    assert Lookup(t1, "m") == Some(b1);
    assert ImportTableOf(nodes) == Set(t1, "m", b1 + [Binding("c", "d")]);
    assert t1[1..] == [];
    assert b1 + [Binding("c", "d")] == [Binding("default", "a"), Binding("*", "b"), Binding("c", "d")];
    assert Set(t1, "m", b1 + [Binding("c", "d")]) == [("m", b1 + [Binding("c", "d")])] + [];
  }

  /** `import "n";` records the module with no bindings. */
  lemma BareImportExample()
    ensures var nodes := [Node(0, 11, ImportDecl("n", []))];
      AllSupported(nodes) && ImportTableOf(nodes) == [("n", [])]
  {
    var nodes := [Node(0, 11, ImportDecl("n", []))];
    assert nodes[..0] == [];
    var empty: ImportTable := [];
    assert GetOr(Lookup(empty, "n"), []) + Bindings([]) == [];
  }

  /** `import {"a-b" as x} from "m";` is refused. */
  lemma StringNameExample()
    ensures !AllSupported([Node(0, 28, ImportDecl("m", [NamedSpec(StringName("a-b"), "x")]))])
  {
    var nodes := [Node(0, 28, ImportDecl("m", [NamedSpec(StringName("a-b"), "x")]))];
    var specs := [NamedSpec(StringName("a-b"), "x")];
    assert specs[..0] == [];
    assert !Supported(specs);
    assert nodes[..0] == [];
  }

  /** Every statement other than an import survives verbatim in the
      rewritten text, moved left by the length of the imports before it. */
  lemma KeptStatement(code: string, nodes: seq<Node>, i: nat)
    requires WellFormed(code, nodes) && i < |nodes| && !nodes[i].stmt.ImportDecl?
    ensures Ordered(ImportSpans(nodes), |code|)
    ensures Ordered(ImportSpans(nodes[..i + 1]), nodes[i].start)
    ensures var d := Total(ImportSpans(nodes[..i + 1]));
      d <= nodes[i].start
      && nodes[i].end - d <= |RemoveSpans(code, ImportSpans(nodes))|
      && RemoveSpans(code, ImportSpans(nodes))[nodes[i].start - d..nodes[i].end - d]
         == code[nodes[i].start..nodes[i].end]
  {
    assert CutsWithin(ImportCut, nodes);
    KeptText(code, ImportCut, nodes, i, NodeSpan(nodes[i]));
  }
}
