/** The top-level statements of a parsed ES module, as far as the rewriters
    look at them. The parser itself (acorn, memoised by a content hash) is
    abstract: a function from text to the list of top-level nodes, each with
    its character span in that text. */
module Ast {
  import opened Text
  import opened Spans

  datatype Literal = LitString(s: string) | LitNumber(n: int) | LitBool(b: bool) | LitNull

  /** A declarator's initialiser: absent, a literal, or any other expression. */
  datatype Init = NoInit | LiteralInit(value: Literal) | OtherInit

  datatype Declarator = Declarator(name: string, init: Init)

  datatype VarKind = Var | Let | Const

  /** A declaration statement. A variable declaration always has at least
      one declarator: `first`, then `more`. */
  datatype Declaration =
    | VarDecl(kind: VarKind, first: Declarator, more: seq<Declarator>)
    | FunctionDecl(id: string)
    | ClassDecl(id: string)
    | OtherDecl

  /** The name an import binds from its module: an identifier, or a string
      literal as in `import {"a-b" as x} from …`. */
  datatype ModuleName = IdentName(name: string) | StringName(value: string)

  datatype ImportSpec =
    | DefaultSpec(local: string)                       // import x from …
    | NamespaceSpec(local: string)                     // import * as x from …
    | NamedSpec(imported: ModuleName, local: string)   // import {a as x} from …

  /** `export {local as exported}`. */
  datatype ExportSpec = ExportSpec(local: string, exported: string)

  /** What follows `export default`: an identifier or anything else. */
  datatype DefaultValue = DefaultIdent(name: string) | DefaultOther

  datatype Stmt =
    | ImportDecl(source: string, specifiers: seq<ImportSpec>)
    | ExportDefault(value: DefaultValue)
      /** `export <declaration>` (the declaration starts at `declStart`) or
          `export {…}` (no declaration). */
    | ExportNamed(decl: Option<Declaration>, declStart: nat, exportSpecs: seq<ExportSpec>)
    | ExportAll
    | Decl(declared: Declaration)
    | OtherStmt

  datatype Node = Node(start: nat, end: nat, stmt: Stmt)

  /** The node's type name starts with `Export`. */
  predicate IsExport(n: Node) {
    n.stmt.ExportDefault? || n.stmt.ExportNamed? || n.stmt.ExportAll?
  }

  function NodeSpan(n: Node): Span {
    Span(n.start, n.end)
  }

  /** What a parser guarantees of the nodes it returns for `text`: each span
      lies inside the text, a declaration inside an export lies inside its
      node, and the nodes are in source order without overlap. */
  predicate WellFormed(text: string, nodes: seq<Node>) {
    (forall i :: 0 <= i < |nodes| ==> nodes[i].start <= nodes[i].end <= |text|)
    && (forall i :: 0 <= i < |nodes| && nodes[i].stmt.ExportNamed? ==>
          nodes[i].start <= nodes[i].stmt.declStart <= nodes[i].end)
    && (forall i, j :: 0 <= i < j < |nodes| ==> nodes[i].end <= nodes[j].start)
  }

  /** A parser whose every result is well formed for its input. */
  ghost predicate SoundParser(parse: string -> seq<Node>) {
    forall text :: WellFormed(text, parse(text))
  }

  /** Where the pass may cut after visiting `nodes[..i]`: the start of the
      next node, or the end of the text. */
  function NextStart(text: string, nodes: seq<Node>, i: nat): nat
    requires WellFormed(text, nodes) && i <= |nodes|
  {
    if i < |nodes| then nodes[i].start else |text|
  }

  /** A node ends before the next one starts. */
  lemma NodeBeforeNext(text: string, nodes: seq<Node>, i: nat)
    requires WellFormed(text, nodes) && i < |nodes|
    ensures nodes[i].start <= nodes[i].end <= NextStart(text, nodes, i + 1)
    ensures NextStart(text, nodes, i) == nodes[i].start
  {
    if i + 1 < |nodes| {
      assert nodes[i].end <= nodes[i + 1].start;
    }
  }

  /** The names a top-level declaration binds. */
  function DeclaredNames(d: Declaration): seq<string> {
    match d
    case VarDecl(_, first, more) => [first.name] + seq(|more|, i requires 0 <= i < |more| => more[i].name)
    case FunctionDecl(id) => [id]
    case ClassDecl(id) => [id]
    case OtherDecl => []
  }

  /** The identifier an exported declaration is recorded under: the first
      declarator of a variable declaration, or the function or class name. */
  function ExportedIdentifier(d: Declaration): Option<string> {
    match d
    case VarDecl(_, first, _) => Some(first.name)
    case FunctionDecl(id) => Some(id)
    case ClassDecl(id) => Some(id)
    case OtherDecl => None
  }
}
