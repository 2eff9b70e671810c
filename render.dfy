/** `importModule` of the renderer: how the exports of a bundled route
    module decide its handlers, and what the component handler renders.
    The bundler, the component's own `render`, `load`, base64 and JSON
    encoding are inputs. */
module Render {
  import opened Text
  import Utils

  /** The `default` export: none, a function, an object whose `render` is
      a function (a compiled component), or anything else. */
  datatype DefaultExport = NoDefault | DefaultFunction | DefaultComponent | DefaultOther

  /** What `importModule` looks at in the module `bumbleSSR` returns:
      whether `get` and `post` are functions, the `pattern` export, the
      `csr` flag and whether `load` is given. */
  datatype RenderModule = RenderModule(defaultExport: DefaultExport, get: bool, post: bool,
                                       pattern: Option<string>, csr: bool, load: bool)

  /** What a handler's `render` does: call the default export, render the
      component with its client bundle, or call `get` or `post`. */
  datatype Kind = CallDefault | RenderComponent(dom: string) | CallGet | CallPost

  datatype Handler = Handler(pattern: string, verb: string, kind: Kind)

  /** `mod.pattern ?? ''`. */
  function PatternOf(mod: RenderModule): string {
    if mod.pattern.Some? then mod.pattern.value else ""
  }

  const SvelteImport := "from \"svelte"
  const SvelteCdn := "from \"https://cdn.skypack.dev/svelte@4.2.2"

  /** The client bundle of a component: built only for a `csr` Svelte file
      (`bundleDom` is what `bumbleDOM` returns), with every `from "svelte`
      pointed at the CDN; the replacement holds no `$`, so native
      `replaceAll` inserts it literally. */
  function DomCode(abspath: string, mod: RenderModule, bundleDom: string): (dom: string)
    ensures !(mod.csr && EndsWith(abspath, ".svelte")) ==> dom == ""
  {
    if mod.csr && EndsWith(abspath, ".svelte") then Utils.ReplaceAll(bundleDom, SvelteImport, SvelteCdn) else ""
  }

  /** The handlers of a module, in push order. */
  function Handlers(abspath: string, mod: RenderModule, bundleDom: string): (hs: seq<Handler>)
    ensures |hs| <= 2
  {
    var p := PatternOf(mod);
    if mod.defaultExport.DefaultFunction? then [Handler(p, "GET", CallDefault)]
    else
      var first :=
        if mod.defaultExport.DefaultComponent? then [Handler(p, "GET", RenderComponent(DomCode(abspath, mod, bundleDom)))]
        else if mod.get then [Handler(p, "GET", CallGet)]
        else [];
      first + (if mod.post then [Handler(p, "POST", CallPost)] else [])
  }

  /** A function default export gives exactly one GET handler and nothing
      else; otherwise there is a GET handler exactly for a component or a
      `get` function, the component one first, and a POST handler exactly
      for a `post` function. Every handler carries the module's pattern,
      no verb appears twice, and the component handler renders the client
      bundle. */
  lemma HandlersMeaning(abspath: string, mod: RenderModule, bundleDom: string)
    ensures var hs := Handlers(abspath, mod, bundleDom);
      && (mod.defaultExport.DefaultFunction? ==> hs == [Handler(PatternOf(mod), "GET", CallDefault)])
      && (forall i | 0 <= i < |hs| :: hs[i].pattern == PatternOf(mod))
      && (forall i, j | 0 <= i < j < |hs| :: hs[i].verb != hs[j].verb)
      && ((exists i | 0 <= i < |hs| :: hs[i].verb == "GET") <==>
            mod.defaultExport.DefaultFunction? || mod.defaultExport.DefaultComponent? || mod.get)
      && ((exists i | 0 <= i < |hs| :: hs[i].verb == "POST") <==>
            mod.post && !mod.defaultExport.DefaultFunction?)
      && (forall i | 0 <= i < |hs| ::
            (hs[i].verb == "GET" <==> !hs[i].kind.CallPost?)
            && (hs[i].kind.RenderComponent? <==> mod.defaultExport.DefaultComponent? && hs[i].verb == "GET")
            && (hs[i].kind.CallGet? ==> mod.get && !mod.defaultExport.DefaultComponent?)
            && (hs[i].kind.RenderComponent? ==> hs[i].kind.dom == DomCode(abspath, mod, bundleDom)))
  {
    var hs := Handlers(abspath, mod, bundleDom);
    if mod.defaultExport.DefaultFunction? || mod.defaultExport.DefaultComponent? || mod.get {
      assert hs[0].verb == "GET";
    }
    if mod.post && !mod.defaultExport.DefaultFunction? {
      assert hs[|hs| - 1].verb == "POST";
    }
  }

  /** The if-chain of `importModule`, pushing into `handlers`. */
  method ImportModule(abspath: string, mod: RenderModule, bundleDom: string) returns (handlers: seq<Handler>)
    ensures handlers == Handlers(abspath, mod, bundleDom)
  {
    var pattern := if mod.pattern.Some? then mod.pattern.value else "";
    handlers := [];
    if mod.defaultExport == DefaultFunction {
      handlers := handlers + [Handler(pattern, "GET", CallDefault)];
      return handlers;
    } else if mod.defaultExport == DefaultComponent {
      var dom := "";
      if mod.csr && EndsWith(abspath, ".svelte") {
        dom := bundleDom;
        dom := Utils.ReplaceAll(dom, SvelteImport, SvelteCdn);
      }
      handlers := handlers + [Handler(pattern, "GET", RenderComponent(dom))];
    } else if mod.get {
      handlers := handlers + [Handler(pattern, "GET", CallGet)];
    }
    if mod.post {
      handlers := handlers + [Handler(pattern, "POST", CallPost)];
    }
  }

  // ---------------------------------------------------------------------
  // The component handler

  /** The context the component renders with: the URL, the pattern, the
      matched parameters and the data, which is `load`'s result or `{}`. */
  datatype Context = Context(url: string, pattern: string, params: string, data: string)

  function RenderContext(href: string, pattern: string, params: string, loaded: Option<string>): Context {
    Context(href, pattern, params, if loaded.Some? then loaded.value else "{}")
  }

  /** What `component.render` returns. */
  datatype Page = Page(html: string, head: string, css: Option<string>)

  /** What the component handler returns: the response's body and
      content type, the head and the CSS code. */
  datatype Reply = Reply(body: string, contentType: string, head: string, css: Option<string>)

  const HtmlType := "text/html; charset=utf-8"

  /** The fixed text of the bootstrap script, around the values spliced
      into it. */
  const BootOpen := "\n<script type=\"module\">\nconst blobCode = \""
  const BootMount := "\";\n"
    + "const blob = new Blob([decodeURIComponent(escape(atob(blobCode)))], {type: 'text/javascript; charset=utf-8'});\n"
    + "const url = URL.createObjectURL(blob);\nconst mod = await import(url);\nURL.revokeObjectURL(url);\n"
    + "const target = document.querySelector('#app');\ntarget.innerHTML = '';\nconst context = new Map();\n"
    + "context.set('url', new URL('"
  const BootPattern := "'));\ncontext.set('pattern', '"
  const BootParams := "');\ncontext.set('params', "
  const BootData := ");\ncontext.set('data', "
  const BootClose := ");\ncontext.set('browser', true);\nnew mod.default({target, context, props: Object.fromEntries(context)});\n"
  const ScriptEnd := "</script>\n"

  /** The client bootstrap script: decode the bundle, mount it over
      `#app` with the same context and `browser` set. */
  function Bootstrap(blobCode: string, href: string, pattern: string, paramsJson: string, dataJson: string): string {
    BootOpen + (blobCode + (BootMount + href + BootPattern + pattern + BootParams + paramsJson
      + BootData + dataJson + BootClose + ScriptEnd))
  }

  /** The component handler: render with the context; with `csr` the
      bootstrap script follows the component's HTML, carrying the client
      bundle in base64 and the same URL, pattern, parameters and data as
      JSON; the response is HTML with the component's head and CSS. */
  function ComponentReply(component: Context -> Page, csr: bool, dom: string, encodeBase64: string -> string,
                          stringify: string -> string, href: string, pattern: string, params: string,
                          loaded: Option<string>): (r: Reply)
    ensures var c := RenderContext(href, pattern, params, loaded);
      && r.contentType == HtmlType
      && r.head == component(c).head && r.css == component(c).css
      && c.data == (if loaded.Some? then loaded.value else "{}")
      && (!csr ==> r.body == component(c).html)
      && (csr ==> r.body == component(c).html
                            + Bootstrap(encodeBase64(dom), href, pattern, stringify(params), stringify(c.data)))
  {
    var c := RenderContext(href, pattern, params, loaded);
    var page := component(c);
    var html := if csr then page.html + Bootstrap(encodeBase64(dom), c.url, c.pattern, stringify(c.params),
                                                  stringify(c.data))
                else page.html;
    Reply(html, HtmlType, page.head, page.css)
  }

  /** The client reads the first string literal of the script, up to the
      next `"`: without `"` in it (base64 has none) that is the bundle
      exactly, so the browser mounts what the server bundled. */
  lemma BlobCodeReadBack(blobCode: string, href: string, pattern: string, paramsJson: string, dataJson: string)
    requires NoChar(blobCode, '"')
    ensures var r := Bootstrap(blobCode, href, pattern, paramsJson, dataJson);
      var a := |BootOpen|;
      IndexOfChar(r, '"', a) == a + |blobCode| && r[a..a + |blobCode|] == blobCode
  {
    var tail := BootMount + href + BootPattern + pattern + BootParams + paramsJson
      + BootData + dataJson + BootClose + ScriptEnd;
    assert tail[0] == '"';
    ReadBack(BootOpen, blobCode, tail, '"', Bootstrap(blobCode, href, pattern, paramsJson, dataJson));
  }

  /** In `pre + v + post` with `post` opening with `c` and `v` free of it,
      the first `c` from the end of `pre` closes `v`. */
  lemma ReadBack(pre: string, v: string, post: string, c: char, r: string)
    requires r == pre + (v + post) && NoChar(v, c) && post != [] && post[0] == c
    ensures IndexOfChar(r, c, |pre|) == |pre| + |v| && r[|pre|..|pre| + |v|] == v
  {
    assert r[|pre| + |v|] == c;
    forall k | |pre| <= k < |pre| + |v| ensures r[k] != c {
      assert r[k] == v[k - |pre|];
    }
    IndexFound(r, c, |pre|, |pre| + |v|);
    assert r[|pre|..|pre| + |v|] == v;
  }

  lemma IndexFound(s: string, c: char, from: nat, r: nat)
    requires from <= r < |s| && s[r] == c && forall k :: from <= k < r ==> s[k] != c
    ensures IndexOfChar(s, c, from) == r
  {
  }
}
