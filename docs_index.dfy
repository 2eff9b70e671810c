/** `docsIndex` of the demo and documentation sites: the position of the
    current page in the navigation list, found by a first-match search
    that answers 0 when nothing matches. The three copies differ in what
    an entry's `href` may be. `pathname` is `url?.pathname`: `None` when
    the URL is nullish. */
module DocsIndex {
  import opened Text

  /** `demo/lib/helpers.ts`: every page has a string `href`, so a nullish
      URL matches nothing. */
  method DemoIndex(hrefs: seq<string>, pathname: Option<string>) returns (index: nat)
    ensures (exists i | 0 <= i < |hrefs| :: Some(hrefs[i]) == pathname) ==>
      index < |hrefs| && Some(hrefs[index]) == pathname
      && forall j | 0 <= j < index :: Some(hrefs[j]) != pathname
    ensures (forall i | 0 <= i < |hrefs| :: Some(hrefs[i]) != pathname) ==> index == 0
    ensures pathname.None? ==> index == 0
  {
    index := 0;
    var i := 0;
    while i < |hrefs|
      invariant 0 <= i <= |hrefs|
      invariant forall j | 0 <= j < i :: Some(hrefs[j]) != pathname
    {
      if Some(hrefs[i]) == pathname {
        index := i;
        break;
      }
      i := i + 1;
    }
  }

  /** `docs/lib/helpers.ts`: menu entries are `Partial`, so `href` may be
      missing (`None`), and a missing `href` equals a nullish URL's
      pathname, both being `undefined`. */
  method MenuIndex(hrefs: seq<Option<string>>, pathname: Option<string>) returns (index: nat)
    ensures (exists i | 0 <= i < |hrefs| :: hrefs[i] == pathname) ==>
      index < |hrefs| && hrefs[index] == pathname
      && forall j | 0 <= j < index :: hrefs[j] != pathname
    ensures (forall i | 0 <= i < |hrefs| :: hrefs[i] != pathname) ==> index == 0
    ensures pathname.None? && (exists i | 0 <= i < |hrefs| :: hrefs[i].None?) ==>
      hrefs[index].None? && forall j | 0 <= j < index :: hrefs[j].Some?
  {
    index := 0;
    var i := 0;
    while i < |hrefs|
      invariant 0 <= i <= |hrefs|
      invariant forall j | 0 <= j < i :: hrefs[j] != pathname
    {
      if hrefs[i] == pathname {
        index := i;
        break;
      }
      i := i + 1;
    }
  }

  /** An untyped JavaScript `href`: `undefined`, a string, or any other
      value, which is strictly equal to neither. */
  datatype JsValue = Undefined | Str(s: string) | OtherValue

  /** `href === url?.pathname`. */
  predicate StrictEquals(href: JsValue, pathname: Option<string>) {
    match href
    case Undefined => pathname.None?
    case Str(s) => pathname == Some(s)
    case OtherValue => false
  }

  /** `demo/lib/helpers.js`: the same search over pages of any shape. */
  method DemoIndexJs(hrefs: seq<JsValue>, pathname: Option<string>) returns (index: nat)
    ensures (exists i | 0 <= i < |hrefs| :: StrictEquals(hrefs[i], pathname)) ==>
      index < |hrefs| && StrictEquals(hrefs[index], pathname)
      && forall j | 0 <= j < index :: !StrictEquals(hrefs[j], pathname)
    ensures (forall i | 0 <= i < |hrefs| :: !StrictEquals(hrefs[i], pathname)) ==> index == 0
    ensures pathname.None? && (exists i | 0 <= i < |hrefs| :: hrefs[i] == Undefined) ==> hrefs[index] == Undefined
  {
    index := 0;
    var i := 0;
    while i < |hrefs|
      invariant 0 <= i <= |hrefs|
      invariant forall j | 0 <= j < i :: !StrictEquals(hrefs[j], pathname)
    {
      if StrictEquals(hrefs[i], pathname) {
        index := i;
        break;
      }
      i := i + 1;
    }
  }
}
