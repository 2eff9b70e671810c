/** The page template: `hasTemplate` decides whether a response is wrapped
    in `app.html`, and `readTemplate` reads each folder's `app.html` once
    and keeps it. Reading the file is an input. */
module Template {
  import opened Text
  import opened Tables

  /** `hasTemplate(request, response)` from the response's `server` and
      `content-type` headers and the request path. */
  predicate HasTemplate(server: Option<string>, contentType: Option<string>, pathname: string) {
    if server == Some("deno") then false
    else if contentType.None? || contentType.value == "" then false
    else if StartsWith(contentType.value, "text/html") then true
    else !EndsWith(pathname, ".txt") && StartsWith(contentType.value, "text/plain")
  }

  /** Responses served by Deno itself and responses without a content type
      are never wrapped; HTML always is, and plain text except at a path
      ending with `.txt`; nothing else is. */
  lemma HasTemplateMeaning(server: Option<string>, contentType: Option<string>, pathname: string)
    ensures server == Some("deno") ==> !HasTemplate(server, contentType, pathname)
    ensures contentType.None? ==> !HasTemplate(server, contentType, pathname)
    ensures HasTemplate(server, contentType, pathname) <==>
      server != Some("deno") && contentType.Some?
      && (StartsWith(contentType.value, "text/html")
          || (StartsWith(contentType.value, "text/plain") && !EndsWith(pathname, ".txt")))
  {
    if contentType.Some? && contentType.value == "" {
      assert !StartsWith(contentType.value, "text/html");
      assert !StartsWith(contentType.value, "text/plain");
    }
  }

  /** The module-level `templateCache` Map. `visited` records the folders
      whose `app.html` was read, in order. */
  class TemplateCache {
    var cache: Table<string, string>
    var visited: seq<string>

    /** Each folder was read once, and the cache holds exactly the folders
        read, in the order they were read. */
    predicate Valid()
      reads this
    {
      Keys(cache) == visited && UniqueKeys(cache)
    }

    constructor()
      ensures Valid() && cache == [] && visited == []
    {
      cache := [];
      visited := [];
    }

    /** `readTemplate(dir)`; `appHtml(dir)` is the text of the folder's
        `app.html`, `None` when it cannot be read. */
    method ReadTemplate(dir: string, appHtml: string -> Option<string>) returns (t: string)
      requires Valid()
      modifies this
      ensures Valid()
      ensures dir == "" ==>
        (t == (if old(cache) == [] then "" else old(cache)[0].1)
         && cache == old(cache) && visited == old(visited))
      ensures dir != "" && HasKey(old(cache), dir) ==>
        (Lookup(old(cache), dir) == Some(t) && cache == old(cache) && visited == old(visited))
      ensures dir != "" && !HasKey(old(cache), dir) ==>
        (t == (if appHtml(dir).Some? then appHtml(dir).value else "")
         && cache == Set(old(cache), dir, t) && visited == old(visited) + [dir])
    {
      if dir == "" {
        return if cache == [] then "" else cache[0].1;
      }
      var found := Lookup(cache, dir);
      LookupMeaning(cache, dir);
      if found.Some? {
        return found.value;
      }
      var template := "";
      var text := appHtml(dir);
      if text.Some? {
        template := text.value;
      }
      SetKeys(cache, dir, template);
      SetUnique(cache, dir, template);
      cache := Set(cache, dir, template);
      visited := visited + [dir];
      return template;
    }
  }
}
