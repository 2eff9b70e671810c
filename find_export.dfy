/** Named-export lookup (`findExport`, `findExportValue`): the first export
    statement that exports `name`, either as an exported declaration or as a
    specifier list naming a `const name = <literal>` declared earlier. */
module FindExport {
  import opened Text
  import opened Ast

  /** A `const` declaration whose first declarator is `name = <literal>`. */
  predicate ConstLiteral(n: Node, name: string) {
    && n.stmt.Decl? && n.stmt.declared.VarDecl? && n.stmt.declared.kind == Const
    && n.stmt.declared.first.init.LiteralInit? && n.stmt.declared.first.name == name
  }

  /** The most recent `const name = <literal>` among `nodes`. */
  function LastConst(nodes: seq<Node>, name: string): (c: Option<Node>)
    ensures c.Some? ==> ConstLiteral(c.value, name) && c.value in nodes
    decreases |nodes|
  {
    if nodes == [] then None
    else if ConstLiteral(nodes[|nodes| - 1], name) then Some(nodes[|nodes| - 1])
    else LastConst(nodes[..|nodes| - 1], name)
  }

  /** The fake export node wrapping a remembered const: it spans nothing. */
  function Synthetic(c: Node): Node
    requires c.stmt.Decl?
  {
    Node(0, 0, ExportNamed(Some(c.stmt.declared), c.start, []))
  }

  predicate SpecifiesName(specs: seq<ExportSpec>, name: string) {
    exists k :: 0 <= k < |specs| && specs[k].exported == name
  }

  /** What node `i` answers, given the nodes before it: an exported
      declaration whose identifier is `name` answers itself; a specifier
      list exporting `name` answers the remembered const, if any. */
  function Hit(nodes: seq<Node>, name: string, i: nat): Option<Node>
    requires i < |nodes|
  {
    var n := nodes[i];
    if !n.stmt.ExportNamed? then None
    else if n.stmt.decl.Some? then
      if ExportedIdentifier(n.stmt.decl.value) == Some(name) then Some(n) else None
    else if LastConst(nodes[..i], name).Some? && SpecifiesName(n.stmt.exportSpecs, name) then
      Some(Synthetic(LastConst(nodes[..i], name).value))
    else None
  }

  lemma ConstStep(nodes: seq<Node>, name: string, i: nat)
    requires i < |nodes|
    ensures LastConst(nodes[..i + 1], name)
      == if ConstLiteral(nodes[i], name) then Some(nodes[i]) else LastConst(nodes[..i], name)
  {
    assert nodes[..i + 1][..i] == nodes[..i];
  }

  /** `findExport(code, name)`; `None` is the `undefinedExport` symbol. */
  method FindExport(parse: string -> seq<Node>, code: string, name: string) returns (r: Option<Node>)
    ensures r.Some? ==>
      exists i :: 0 <= i < |parse(code)| && Hit(parse(code), name, i) == r
        && (forall j :: 0 <= j < i ==> Hit(parse(code), name, j).None?)
    ensures r.None? ==> forall i :: 0 <= i < |parse(code)| ==> Hit(parse(code), name, i).None?
  {
    var nodes := parse(code);
    // Possibly defined before exported in two statements
    var constNode: Option<Node> := None;
    var i := 0;
    while i < |nodes|
      invariant 0 <= i <= |nodes|
      invariant constNode == LastConst(nodes[..i], name)
      invariant forall j :: 0 <= j < i ==> Hit(nodes, name, j).None?
    {
      var node := nodes[i];
      ConstStep(nodes, name, i);
      if node.stmt.Decl? && node.stmt.declared.VarDecl? && node.stmt.declared.kind == Const {
        var declarator := node.stmt.declared.first;
        if declarator.init.LiteralInit? && declarator.name == name {
          constNode := Some(node);
        }
        i := i + 1;
        continue;
      }
      if !node.stmt.ExportNamed? {
        i := i + 1;
        continue;
      }
      if node.stmt.decl.None? {
        if constNode.None? {
          i := i + 1;
          continue;
        }
        // Check for pre-defined const export
        var specs := node.stmt.exportSpecs;
        var k := 0;
        while k < |specs|
          invariant 0 <= k <= |specs|
          invariant forall m :: 0 <= m < k ==> specs[m].exported != name
        {
          if specs[k].exported == name {
            // Create fake export node
            assert SpecifiesName(specs, name);
            assert Hit(nodes, name, i) == Some(Synthetic(constNode.value));
            return Some(Synthetic(constNode.value));
          }
          k := k + 1;
        }
        i := i + 1;
        continue;
      }
      var identifier := ExportedIdentifier(node.stmt.decl.value);
      if identifier.None? || identifier.value != name {
        i := i + 1;
        continue;
      }
      assert Hit(nodes, name, i) == Some(node);
      return Some(node);
    }
    return None;
  }

  /** `findExportValue`'s test on the node found: the literal initialiser of
      the first declarator of an exported variable declaration. */
  function ExportValue(found: Option<Node>): Option<Literal> {
    if found.None? then None
    else match found.value.stmt
      case ExportNamed(Some(VarDecl(_, first, _)), _, _) =>
        if first.init.LiteralInit? then Some(first.init.value) else None
      case _ => None
  }

  /** Some top-level node binds `name` to the literal `v` by its first
      declarator, as a `const` or as an exported variable declaration. */
  predicate DeclaresLiteral(nodes: seq<Node>, name: string, v: Literal) {
    exists i :: 0 <= i < |nodes| && (
      || (ConstLiteral(nodes[i], name) && nodes[i].stmt.declared.first.init.value == v)
      || (nodes[i].stmt.ExportNamed? && nodes[i].stmt.decl.Some?
          && nodes[i].stmt.decl.value.VarDecl?
          && nodes[i].stmt.decl.value.first == Declarator(name, LiteralInit(v))))
  }

  /** Whatever node answers, a value read from it is a literal some
      declaration of `name` really holds. */
  lemma HitValue(nodes: seq<Node>, name: string, i: nat)
    requires i < |nodes| && ExportValue(Hit(nodes, name, i)).Some?
    ensures DeclaresLiteral(nodes, name, ExportValue(Hit(nodes, name, i)).value)
  {
    var n := nodes[i];
    if n.stmt.decl.Some? {
      assert n.stmt.decl.value.first.name == name;
    } else {
      var c := LastConst(nodes[..i], name).value;
      var k :| 0 <= k < i && nodes[..i][k] == c;
      assert nodes[k] == c;
    }
  }

  /** Node `i` is the first that answers for `name`. */
  predicate FirstHitAt(nodes: seq<Node>, name: string, i: nat) {
    i < |nodes| && Hit(nodes, name, i).Some? && forall j :: 0 <= j < i ==> Hit(nodes, name, j).None?
  }

  /** `findExportValue(code, name)`; `None` is `undefinedExport`. */
  method FindExportValue(parse: string -> seq<Node>, code: string, name: string) returns (r: Option<Literal>)
    ensures r.Some? ==> DeclaresLiteral(parse(code), name, r.value)
    ensures forall i: nat :: FirstHitAt(parse(code), name, i) ==> r == ExportValue(Hit(parse(code), name, i))
    ensures r.Some? ==>
      exists i :: 0 <= i < |parse(code)| && ExportValue(Hit(parse(code), name, i)) == r
        && (forall j :: 0 <= j < i ==> Hit(parse(code), name, j).None?)
    ensures (forall i :: 0 <= i < |parse(code)| ==> Hit(parse(code), name, i).None?) ==> r.None?
  {
    var node := FindExport(parse, code, name);
    if node.Some? {
      var i :| 0 <= i < |parse(code)| && Hit(parse(code), name, i) == node
        && (forall j :: 0 <= j < i ==> Hit(parse(code), name, j).None?);
      if ExportValue(node).Some? {
        HitValue(parse(code), name, i);
      }
      forall k: nat | FirstHitAt(parse(code), name, k) ensures node == Hit(parse(code), name, k) {
        assert !(k < i) && !(i < k);
      }
    }
    return ExportValue(node);
  }

  /** `const island = true; export {island};` answers the const, wrapped. */
  lemma ConstThenSpecifierExample()
    ensures var c := Node(0, 20, Decl(VarDecl(Const, Declarator("island", LiteralInit(LitBool(true))), [])));
      var nodes := [c, Node(21, 38, ExportNamed(None, 21, [ExportSpec("island", "island")]))];
      Hit(nodes, "island", 0).None? && Hit(nodes, "island", 1) == Some(Synthetic(c))
      && ExportValue(Hit(nodes, "island", 1)) == Some(LitBool(true))
  {
    var c := Node(0, 20, Decl(VarDecl(Const, Declarator("island", LiteralInit(LitBool(true))), [])));
    var nodes := [c, Node(21, 38, ExportNamed(None, 21, [ExportSpec("island", "island")]))];
    assert nodes[..1] == [c] && nodes[..1][..0] == [];
    assert SpecifiesName(nodes[1].stmt.exportSpecs, "island") by {
      assert nodes[1].stmt.exportSpecs[0].exported == "island";
    }
  }

  /** `export const island = 1;` answers itself, value `1`; `export let
      other = 1;` answers nothing for `island`. */
  lemma DeclarationExample()
    ensures var n := Node(0, 24, ExportNamed(Some(VarDecl(Const, Declarator("island", LiteralInit(LitNumber(1))), [])), 7, []));
      Hit([n], "island", 0) == Some(n) && ExportValue(Some(n)) == Some(LitNumber(1))
    ensures var m := Node(0, 21, ExportNamed(Some(VarDecl(Let, Declarator("other", LiteralInit(LitNumber(1))), [])), 7, []));
      Hit([m], "island", 0).None?
  {
  }

  /** Only the exported name of a specifier is compared: with
      `const island = true;` before it, `export {other as island};` also
      answers the const, though `island` then names `other`. */
  lemma ExportedNameOnlyExample()
    ensures var c := Node(0, 20, Decl(VarDecl(Const, Declarator("island", LiteralInit(LitBool(true))), [])));
      var nodes := [c, Node(21, 45, ExportNamed(None, 21, [ExportSpec("other", "island")]))];
      Hit(nodes, "island", 1) == Some(Synthetic(c))
  {
    var c := Node(0, 20, Decl(VarDecl(Const, Declarator("island", LiteralInit(LitBool(true))), [])));
    var nodes := [c, Node(21, 45, ExportNamed(None, 21, [ExportSpec("other", "island")]))];
    assert nodes[..1] == [c] && nodes[..1][..0] == [];
    assert nodes[1].stmt.exportSpecs[0].exported == "island";
  }
}
