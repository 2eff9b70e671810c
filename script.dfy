/** The `Script` class: a module's code with its import and export tables,
    filled by `parse()`, and the serialisers that re-emit the exports as one
    combined `export { … }` or `return { … }` statement. */
module Scripts {
  import opened Text
  import opened Tables
  import Paths
  import opened Ast
  import opened ParseImports
  import opened ParseExports
  import opened StripExports

  /** The `exports` option: absent, a boolean, or a list of aliases. */
  datatype ExportsOption = Unset | Flag(on: bool) | Only(aliases: seq<string>)

  /** The `exportType` option: `'module'` or `'function'`. */
  datatype ExportType = ModuleType | FunctionType

  datatype ScriptError = ImportFailed(importError: ImportError) | ExportFailed(exportError: ExportError)

  /** JavaScript truthiness of the option: any list counts, even empty. */
  predicate Truthy(opt: ExportsOption) {
    opt.Only? || opt == Flag(true)
  }

  /** `exports === true || (Array.isArray(exports) && exports.includes(alias))`. */
  predicate Selects(opt: ExportsOption, alias: string) {
    opt == Flag(true) || (opt.Only? && alias in opt.aliases)
  }

  /** The entries of the table the option selects, in table order. */
  function Selected(t: ExportTable, opt: ExportsOption): seq<(string, string)>
    decreases |t|
  {
    if t == [] then []
    else Selected(t[..|t| - 1], opt) + (if Selects(opt, t[|t| - 1].0) then [t[|t| - 1]] else [])
  }

  /** `name`, or `name as alias` when they differ. */
  function ModuleEntry(e: (string, string)): string {
    if e.0 == e.1 then e.1 else e.1 + " as " + e.0
  }

  /** `name`, or `alias : name` when they differ. */
  function FunctionEntry(e: (string, string)): string {
    if e.0 == e.1 then e.1 else e.0 + " : " + e.1
  }

  function ModuleEntries(es: seq<(string, string)>): (r: seq<string>)
    ensures |r| == |es| && forall i :: 0 <= i < |es| ==> r[i] == ModuleEntry(es[i])
  {
    seq(|es|, i requires 0 <= i < |es| => ModuleEntry(es[i]))
  }

  function FunctionEntries(es: seq<(string, string)>): (r: seq<string>)
    ensures |r| == |es| && forall i :: 0 <= i < |es| ==> r[i] == FunctionEntry(es[i])
  {
    seq(|es|, i requires 0 <= i < |es| => FunctionEntry(es[i]))
  }

  /** What `serializeModule(exports)` returns for the table. */
  function ModuleText(t: ExportTable, opt: ExportsOption): string {
    if opt == Flag(false) then "export {};"
    else "export { " + Join(ModuleEntries(Selected(t, opt)), ", ") + " };"
  }

  /** What `serializeFunction(exports)` returns for the table. */
  function FunctionText(t: ExportTable, opt: ExportsOption): string {
    if opt == Flag(false) then "return {};"
    else "return { " + Join(FunctionEntries(Selected(t, opt)), ", ") + " };"
  }

  /** What `serialize` appends after the code. */
  function Tail(t: ExportTable, opt: ExportsOption, exportType: ExportType): string {
    if !Truthy(opt) then ""
    else if exportType == ModuleType then "\n" + ModuleText(t, opt) + "\n"
    else "\n" + FunctionText(t, opt) + "\n"
  }

  const SupportedExtensions: seq<string> := [".svelte", ".ts", ".js", ".json"]

  /** `Script.supportedType(entry)`. */
  function SupportedType(entry: string): bool {
    Paths.Extname(entry) in SupportedExtensions
  }

  lemma SelectedStep(t: ExportTable, opt: ExportsOption, j: nat)
    requires j < |t|
    ensures Selected(t[..j + 1], opt)
      == Selected(t[..j], opt) + (if Selects(opt, t[j].0) then [t[j]] else [])
  {
    assert t[..j + 1][..j] == t[..j];
  }

  class Script {
    /** The parser the rewriters use. */
    const parse: string -> seq<Node>
    var code: string
    var imports: ImportTable
    var exports: ExportTable

    constructor(parse: string -> seq<Node>, code: string)
      ensures this.parse == parse && this.code == code
      ensures imports == [] && exports == []
    {
      this.parse := parse;
      this.code := code;
      imports := [];
      exports := [];
    }

    /** `parse()`: imports are extracted first, then exports from the
        import-free code. A throw leaves the fields assigned so far. */
    method Parse() returns (r: Result<(), ScriptError>)
      requires SoundParser(parse)
      modifies this
      ensures var nodes := parse(old(code));
        if !AllSupported(nodes) then
          r == Err(ImportFailed(UnsupportedImport))
          && code == old(code) && imports == old(imports) && exports == old(exports)
        else
          var free := ImportFree(old(code), nodes);
          && imports == ImportTableOf(nodes)
          && if FirstFail(parse(free)).Some? then
               r == Err(ExportFailed(FirstFail(parse(free)).value))
               && code == free && exports == old(exports)
             else
               r == Ok(()) && code == ExportFree(free, parse(free))
               && exports == ExportTableOf(parse(free))
    {
      var imported := ParseImports.ParseImports(parse, code);
      if imported.Err? {
        assert imported.error == UnsupportedImport;
        return Err(ImportFailed(imported.error));
      }
      code, imports := imported.value.0, imported.value.1;
      var exported := ParseExports.ParseExports(parse, code);
      if exported.Err? {
        return Err(ExportFailed(exported.error));
      }
      code, exports := exported.value.0, exported.value.1;
      return Ok(());
    }

    /** `serializeModule(exports)`. */
    method SerializeModule(opt: ExportsOption) returns (s: string)
      ensures s == ModuleText(exports, opt)
    {
      if opt == Flag(false) {
        return "export {};";
      }
      var parts: seq<string> := [];
      var j := 0;
      while j < |exports|
        invariant 0 <= j <= |exports|
        invariant parts == ModuleEntries(Selected(exports[..j], opt))
      {
        var (alias, name) := exports[j];
        SelectedStep(exports, opt, j);
        if opt == Flag(true) || (opt.Only? && alias in opt.aliases) {
          parts := parts + [if alias == name then name else name + " as " + alias];
        }
        j := j + 1;
      }
      assert exports[..j] == exports;
      return "export { " + Join(parts, ", ") + " };";
    }

    /** `serializeFunction(exports)`. */
    method SerializeFunction(opt: ExportsOption) returns (s: string)
      ensures s == FunctionText(exports, opt)
    {
      if opt == Flag(false) {
        return "return {};";
      }
      var parts: seq<string> := [];
      var j := 0;
      while j < |exports|
        invariant 0 <= j <= |exports|
        invariant parts == FunctionEntries(Selected(exports[..j], opt))
      {
        var (alias, name) := exports[j];
        SelectedStep(exports, opt, j);
        if opt == Flag(true) || (opt.Only? && alias in opt.aliases) {
          parts := parts + [if alias == name then name else alias + " : " + name];
        }
        j := j + 1;
      }
      assert exports[..j] == exports;
      return "return { " + Join(parts, ", ") + " };";
    }

    /** The combined statement `serialize` appends, if any. */
    method SerializeTail(opt: ExportsOption, exportType: ExportType) returns (s: string)
      ensures s == Tail(exports, opt, exportType)
    {
      if !Truthy(opt) {
        return "";
      }
      if exportType == ModuleType {
        var m := SerializeModule(opt);
        return "\n" + m + "\n";
      }
      var f := SerializeFunction(opt);
      return "\n" + f + "\n";
    }

    /** `serialize({exports, exportType})`: the stored code, stripped of the
        exports not listed when a list is given, followed by the combined
        statement when the option is truthy. */
    method Serialize(opt: ExportsOption, exportType: ExportType) returns (r: Result<string, ExportError>)
      requires SoundParser(parse)
      ensures r.Err? <==> opt.Only? && FirstFail(parse(code)).Some?
      ensures r.Ok? ==>
        var base := if opt.Only? then
            var free := ExportFree(code, parse(code));
            Stripped(free, parse(free), Invert(exports), opt.aliases)
          else code;
        r.value == base + Tail(exports, opt, exportType)
    {
      var text := code;
      if opt.Only? {
        var stripped := StripExports.StripExports(parse, text, exports, opt.aliases);
        if stripped.Err? {
          return Err(stripped.error);
        }
        text := stripped.value;
      }
      var tail := SerializeTail(opt, exportType);
      text := text + tail;
      return Ok(text);
    }
  }

  /** An entry is selected exactly when it is in the table and the option
      selects its alias. */
  lemma {:induction false} SelectedMeaning(t: ExportTable, opt: ExportsOption, e: (string, string))
    ensures e in Selected(t, opt) <==> e in t && Selects(opt, e.0)
    decreases |t|
  {
    if t != [] {
      var init := t[..|t| - 1];
      SelectedMeaning(init, opt, e);
      assert t == init + [t[|t| - 1]];
    }
  }

  /** `true` selects the whole table, in order. */
  lemma {:induction false} SelectedAll(t: ExportTable)
    ensures Selected(t, Flag(true)) == t
    decreases |t|
  {
    if t != [] {
      SelectedAll(t[..|t| - 1]);
      assert t == t[..|t| - 1] + [t[|t| - 1]];
    }
  }

  /** Only the set of listed aliases matters, not their order or
      repetition: the output follows the table. */
  lemma {:induction false} SelectedListOrder(t: ExportTable, l1: seq<string>, l2: seq<string>)
    requires forall a :: a in l1 <==> a in l2
    ensures Selected(t, Only(l1)) == Selected(t, Only(l2))
    decreases |t|
  {
    if t != [] {
      SelectedListOrder(t[..|t| - 1], l1, l2);
    }
  }

  /** Without a truthy option nothing is emitted; an absent option still
      yields an empty statement from the serialisers themselves. */
  lemma SelectedUnset(t: ExportTable)
    ensures Selected(t, Unset) == [] && Selected(t, Flag(false)) == []
    ensures ModuleText(t, Unset) == "export {  };" && FunctionText(t, Unset) == "return {  };"
    ensures forall ty :: Tail(t, Unset, ty) == "" && Tail(t, Flag(false), ty) == ""
  {
    SelectedNone(t, Unset);
    SelectedNone(t, Flag(false));
  }

  lemma {:induction false} SelectedNone(t: ExportTable, opt: ExportsOption)
    requires forall a :: !Selects(opt, a)
    ensures Selected(t, opt) == []
    decreases |t|
  {
    if t != [] {
      SelectedNone(t[..|t| - 1], opt);
    }
  }

  /** `{default → App, x → x}` serialises as `App as default, x` for a
      module and `default : App, x` for a function; listing `["x", "nope"]`
      keeps only `x`. */
  lemma SerializeExample()
    ensures ModuleEntries(Selected([("default", "App"), ("x", "x")], Flag(true))) == ["App as default", "x"]
    ensures FunctionEntries(Selected([("default", "App"), ("x", "x")], Flag(true))) == ["default : App", "x"]
    ensures Selected([("default", "App"), ("x", "x")], Only(["x", "nope"])) == [("x", "x")]
  {
    var t := [("default", "App"), ("x", "x")];
    SelectedAll(t);
    assert ModuleEntry(t[0]) == "App as default" && ModuleEntry(t[1]) == "x";
    assert FunctionEntry(t[0]) == "default : App" && FunctionEntry(t[1]) == "x";
    assert t[..1] == [("default", "App")] && t[..1][..0] == [];
  }

  /** A name made of a stem and one of the four extensions is supported
      exactly when the extension is. */
  lemma SupportedTypeOf(stem: string, ext: string)
    requires Paths.SimpleName(stem, ext)
    ensures SupportedType(stem + ext) <==> ext in SupportedExtensions
  {
    Paths.ExtnameSimple(stem, ext);
  }

  /** A dot-file such as `.ts` has no extension, so is not supported. */
  lemma DotFileExample()
    ensures !SupportedType(".ts")
  {
    var p := ".ts";
    assert Paths.TrimTrailingSlashes(p) == p;
    assert LastIndexOfChar(p, '/', -1) == -1;
    assert LastIndexOfChar(p, '/', 0) == -1;
    assert LastIndexOfChar(p, '/', 1) == -1;
    assert LastIndexOfChar(p, '/', 2) == -1;
    assert p[0..] == p;
    assert Paths.Basename(p) == p;
    assert LastIndexOfChar(p, '.', 0) == 0;
    assert LastIndexOfChar(p, '.', 1) == 0;
    assert Paths.LastDot(p) == 0;
  }
}
