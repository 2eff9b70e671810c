/** How the bundler resolves an import specifier: the built-in component
    rule, the ordered rules of the general resolver, and the order in which
    the plugin's resolve hook tries them. URL resolution (`new URL(p, base)`)
    and `path.resolve` are taken as given functions. */
module Resolver {
  import opened Text
  import Paths

  /** What esbuild passes to a resolve hook. */
  datatype ResolveArgs = ResolveArgs(path: string, namespace: string, importer: string, resolveDir: string)

  /** A resolve result: a path and, for remote modules, the `fetch`
      namespace. */
  datatype Resolved = Resolved(path: string, namespace: Option<string>)

  /** `new URL(p, base).href` and `path.resolve(from, p)`, and the URL of
      the folder holding the built-in components. */
  datatype ResolveOps = ResolveOps(url: (string, string) -> string,
                                   resolve: (string, string) -> string,
                                   builtinBase: string)

  /** The Svelte version the compiler dependency pins. */
  const SvelteVersion := "4.2.12"

  const BuiltinPrefix := "@dinossr/"

  /** `svelteResolver`: `@dinossr/NAME` is the built-in `NAME.svelte`,
      fetched; any other specifier gets no answer. */
  function SvelteResolver(ops: ResolveOps, args: ResolveArgs): (r: Option<Resolved>)
    ensures r.Some? <==> StartsWith(args.path, BuiltinPrefix)
    ensures r.Some? ==> r.value == Resolved(ops.url("./" + args.path[9..] + ".svelte", ops.builtinBase), Some("fetch"))
  {
    if StartsWith(args.path, BuiltinPrefix)
    then Some(Resolved(ops.url("./" + args.path[9..] + ".svelte", ops.builtinBase), Some("fetch")))
    else None
  }

  /** The regular expression `/^(file|https):/`. */
  predicate Remote(p: string) {
    StartsWith(p, "file:") || StartsWith(p, "https:")
  }

  /** The esm.sh address of a `svelte…` specifier: its first `svelte`
      becomes `svelte@VERSION`. */
  function EsmUrl(p: string): string {
    "https://esm.sh/" + ReplaceFirst(p, "svelte", "svelte@" + SvelteVersion) + "?target=esnext"
  }

  /** The rules of `createResolver(dir)`, tried in order; one always
      answers. */
  function CreateResolver(ops: ResolveOps, dir: string, args: ResolveArgs): (r: Resolved)
    ensures r.namespace.Some? ==> r.namespace == Some("fetch")
    ensures r.namespace.Some? <==> Remote(args.path) || StartsWith(args.path, "svelte") || args.namespace == "fetch"
  {
    var p := args.path;
    if Remote(p) then Resolved(p, Some("fetch"))
    else if StartsWith(p, "svelte") then Resolved(EsmUrl(p), Some("fetch"))
    else if args.namespace == "fetch" then Resolved(ops.url(p, args.importer), Some("fetch"))
    else if StartsWith(p, "@") then Resolved(ops.resolve(dir, p[1..]), None)
    else if StartsWith(p, "/") then Resolved(p, None)
    else if StartsWith(p, ".") then Resolved(ops.resolve(args.resolveDir, p), None)
    else Resolved(Paths.Join(dir, p), None)
  }

  /** Only the leading `svelte` gets the version: the rest of the specifier,
      later `svelte`s included, is copied as it is. */
  lemma EsmUrlFirstOnly(p: string)
    requires StartsWith(p, "svelte")
    ensures EsmUrl(p) == "https://esm.sh/" + "svelte@" + SvelteVersion + p[6..] + "?target=esnext"
  {
    var host := "https://esm.sh/";
    var r := "svelte@" + SvelteVersion;
    assert OccursAt(p, "svelte", 0);
    assert IndexOf(p, "svelte", 0) == 0;
    assert ReplaceFirst(p, "svelte", r) == r + p[6..] by {
      assert p[..0] == "";
    }
    Assoc(host, "svelte@", SvelteVersion);
    Assoc(host, r, p[6..]);
  }

  /** A `svelte…` specifier goes to esm.sh even when the importer is in the
      fetch namespace, unless it is already a remote URL. */
  lemma SvelteBeforeFetchNamespace(ops: ResolveOps, dir: string, args: ResolveArgs)
    requires StartsWith(args.path, "svelte")
    ensures CreateResolver(ops, dir, args) == Resolved(EsmUrl(args.path), Some("fetch"))
  {
    assert args.path[0] == 's';
  }

  /** Remote URLs and absolute paths are passed through unchanged. */
  lemma PassThrough(ops: ResolveOps, dir: string, args: ResolveArgs)
    requires Remote(args.path) || (StartsWith(args.path, "/") && args.namespace != "fetch")
    ensures CreateResolver(ops, dir, args).path == args.path
  {
    if !Remote(args.path) {
      assert args.path[0] == '/';
    }
  }

  /** The plugin's resolve hook: `npm:` and `node:` specifiers are left to
      esbuild (no answer), then the built-in rule is tried before the
      general one, which always answers. */
  function OnResolve(ops: ResolveOps, dir: string, args: ResolveArgs): (r: Option<Resolved>)
    ensures r.None? <==> StartsWith(args.path, "npm:") || StartsWith(args.path, "node:")
  {
    if StartsWith(args.path, "npm:") || StartsWith(args.path, "node:") then None
    else
      var builtin := SvelteResolver(ops, args);
      if builtin.Some? then builtin else Some(CreateResolver(ops, dir, args))
  }

  /** A built-in specifier is never handed to the general resolver's `@`
      rule. */
  lemma BuiltinFirst(ops: ResolveOps, dir: string, args: ResolveArgs)
    requires StartsWith(args.path, BuiltinPrefix)
    ensures OnResolve(ops, dir, args) == SvelteResolver(ops, args)
    ensures OnResolve(ops, dir, args).value.namespace == Some("fetch")
  {
    assert args.path[0] == '@';
  }
}
