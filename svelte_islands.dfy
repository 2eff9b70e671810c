/** The three Svelte preprocessors that turn a component marked with
    `export const island = true` into a hydration island: the module
    script gets an `_$island` export carrying the island's hash, the
    instance script imports the wrapper component, and the markup is
    wrapped in it. `islandMap` (file name to hash) is the state the first
    writes and the other two read: one map for the whole module, shared by
    every group and never cleared. */
module SvelteIslands {
  import opened Text
  import opened Ast
  import Paths
  import opened FindExport
  import opened EsbuildUtils

  /** A script tag attribute: absent, present without a value (`true`), or
      with a value. */
  datatype Attribute = Absent | Flag | Value(text: string)

  predicate AttributeTruthy(a: Attribute) {
    a.Flag? || (a.Value? && a.text != "")
  }

  datatype IslandError = RouteIsland

  /** Blocks moved before the wrapper, and after it. */
  const PreTags: seq<string> := ["script", "svelte:window", "svelte:document", "svelte:head"]
  const PostTags: seq<string> := ["style"]

  /** The module declares `island` as the literal `true`, as
      `findExportValue(code, 'island') === true` decides. */
  predicate MarkedIsland(nodes: seq<Node>) {
    exists i: nat | i < |nodes| :: FirstHitAt(nodes, "island", i) && ExportValue(Hit(nodes, "island", i)) == Some(LitBool(true))
  }

  function ExportLine(hash: string): string {
    "\nexport const _$island = '" + hash + "';\n"
  }

  const ImportLine := "\nimport DinossrIsland from '@dinossr/island';\n"

  /** The wrapped markup: the pre blocks, the wrapper around what is left,
      then the post blocks. */
  function Wrapped(pre: seq<string>, hash: string, body: string, post: seq<string>): string {
    Join(pre, "\n") + Wrapper(hash, body) + Join(post, "\n")
  }

  /** `<DinossrIsland props={$$props} _$island="hash">` around the body,
      each on its own line. */
  function Wrapper(hash: string, body: string): string {
    "\n<DinossrIsland props={$$props} _$island=\"" + hash + "\">\n" + body + "\n</DinossrIsland>\n"
  }

  /** The markup result for a recorded file. */
  function IslandMarkupOf(content: string, hash: string): string {
    var (code1, pre) := ExtractTags(content, PreTags);
    var (code2, post) := ExtractTags(code1, PostTags);
    Wrapped(pre, hash, code2, post)
  }

  /** The module-level `islandMap`: created once, empty, when the module
      loads; nothing ever removes an entry. */
  class IslandMap {
    var islands: map<string, string>

    constructor()
      ensures islands == map[]
    {
      islands := map[];
    }
  }

  /** One `svelteGroup(server, entry)`: the server's directory and hash
      function and the bundle entry; every group works on the one shared
      island map. */
  class IslandGroup {
    const dir: string
    const entry: string
    /** `server.hash(value, salt)`. */
    const serverHash: (string, string) -> string
    const parse: string -> seq<Node>
    const shared: IslandMap

    constructor(dir: string, entry: string, serverHash: (string, string) -> string, parse: string -> seq<Node>,
                shared: IslandMap)
      ensures this.dir == dir && this.entry == entry && this.serverHash == serverHash && this.parse == parse
      ensures this.shared == shared
    {
      this.dir := dir;
      this.entry := entry;
      this.serverHash := serverHash;
      this.parse := parse;
      this.shared := shared;
    }

    /** The file is the bundle entry and lies under the routes folder. */
    predicate TopLevelRoute(filename: string)
      reads this
    {
      filename == entry && StartsWith(entry, Paths.Join(dir, "routes"))
    }

    /** `islandExport`: a module script whose `island` is `true` gets the
        hash export prepended and its file recorded, except that a top-level
        route cannot be an island; every other script is unchanged. */
    method IslandExport(filename: string, context: Attribute, content: string)
      returns (r: Result<string, IslandError>)
      modifies shared
      ensures var marked := context == Value("module") && MarkedIsland(parse(content));
        var hash := serverHash(filename, "dom");
        && (!marked ==> r == Ok(content) && shared.islands == old(shared.islands))
        && (marked && TopLevelRoute(filename) ==> r == Err(RouteIsland) && shared.islands == old(shared.islands))
        && (marked && !TopLevelRoute(filename) ==>
             r == Ok(ExportLine(hash) + content) && shared.islands == old(shared.islands)[filename := hash])
    {
      if context != Value("module") {
        return Ok(content);
      }
      var value := FindExportValue(parse, content, "island");
      if value != Some(LitBool(true)) {
        assert !MarkedIsland(parse(content));
        return Ok(content);
      }
      assert MarkedIsland(parse(content)) by {
        var i: nat :| 0 <= i < |parse(content)| && ExportValue(Hit(parse(content), "island", i)) == value
          && (forall j :: 0 <= j < i ==> Hit(parse(content), "island", j).None?);
        assert FirstHitAt(parse(content), "island", i);
      }
      if filename == entry && StartsWith(entry, Paths.Join(dir, "routes")) {
        return Err(RouteIsland);
      }
      var hash := serverHash(filename, "dom");
      shared.islands := shared.islands[filename := hash];
      return Ok(ExportLine(hash) + content);
    }

    /** `islandImport`: an instance script (no `context`) of a recorded
        file gets the wrapper import prepended. */
    method IslandImport(filename: string, context: Attribute, content: string) returns (r: string)
      ensures r == if !AttributeTruthy(context) && filename in shared.islands then ImportLine + content else content
    {
      if AttributeTruthy(context) {
        return content;
      }
      r := content;
      if filename in shared.islands {
        r := ImportLine + content;
      }
    }

    /** `islandMarkup`: markup of a file recorded with a non-empty hash is
        wrapped; any other markup is unchanged. */
    method IslandMarkup(filename: string, content: string) returns (r: string)
      ensures r == if filename in shared.islands && shared.islands[filename] != ""
        then IslandMarkupOf(content, shared.islands[filename]) else content
    {
      if filename !in shared.islands || shared.islands[filename] == "" {
        return content;
      }
      var hash := shared.islands[filename];
      var code, pre := TagExtract(content, PreTags);
      var body, post := TagExtract(code, PostTags);
      r := Join(pre, "\n") + Wrapper(hash, body) + Join(post, "\n");
    }
  }

  /** Because the map is shared, a component recorded as an island while
      bundling one entry is treated as an island by the group of any later
      entry: its instance script gets the wrapper import there too. */
  method ImportAcrossGroups(first: IslandGroup, later: IslandGroup, filename: string, moduleScript: string,
                            instance: string)
    returns (r: Result<string, IslandError>, imported: string)
    requires first.shared == later.shared
    modifies first.shared
    ensures var marked := MarkedIsland(first.parse(moduleScript));
      marked && !first.TopLevelRoute(filename) ==>
        r == Ok(ExportLine(first.serverHash(filename, "dom")) + moduleScript) && imported == ImportLine + instance
    ensures filename in old(first.shared.islands) ==> imported == ImportLine + instance
  {
    r := first.IslandExport(filename, Value("module"), moduleScript);
    imported := later.IslandImport(filename, Absent, instance);
  }

  /** Wrapping moves text but loses none: the extracted blocks and the
      remaining body together are exactly as long as the original markup,
      and no `<style>` block is left inside the wrapper. */
  lemma MarkupKeepsText(content: string)
    ensures var (code1, pre) := ExtractTags(content, PreTags);
      var (code2, post) := ExtractTags(code1, PostTags);
      TotalLength(pre) + |code2| + TotalLength(post) == |content|
      && FindMatch(code2, "style", 0).None?
  {
    ExtractTwice(content, PreTags, PostTags);
    assert PostTags[|PostTags| - 1] == "style";
  }

  lemma ExtractTwice(content: string, first: seq<string>, second: seq<string>)
    requires second != []
    ensures var a := ExtractTags(content, first);
      var b := ExtractTags(a.0, second);
      TotalLength(a.1) + |b.0| + TotalLength(b.1) == |content|
      && FindMatch(b.0, second[|second| - 1], 0).None?
  {
    var a := ExtractTags(content, first);
    ExtractTagsFacts(content, first);
    ExtractTagsFacts(a.0, second);
  }

  /** The wrapped markup opens with the pre blocks and closes with the post
      blocks. */
  lemma MarkupFrame(pre: seq<string>, hash: string, body: string, post: seq<string>)
    ensures StartsWith(Wrapped(pre, hash, body, post), Join(pre, "\n"))
    ensures EndsWith(Wrapped(pre, hash, body, post), Join(post, "\n"))
  {
    var w := Wrapped(pre, hash, body, post);
    var a := Join(pre, "\n");
    var b := Wrapper(hash, body);
    var c := Join(post, "\n");
    assert w == a + (b + c);
    assert w == (a + b) + c;
    assert w[..|a|] == a;
    assert w[|w| - |c|..] == c;
  }
}
