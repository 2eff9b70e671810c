/** The Content-Security-Policy handler, in its two versions: the one of
    the middleware router and the older one of the legacy router. Both
    start every directive from its default sources, append the sources a
    route put in an `x-<directive>` response header (deleting that header),
    drop directives made redundant by `default-src 'self'`, and write the
    serialized policy (section 2.2 of W3C Content Security Policy Level 3)
    into the `content-security-policy` header. They differ in which
    directives count as redundant. Response headers are an
    insertion-ordered table keyed by lower-case name. */
module Policy {
  import opened Text
  import opened Tables

  /** A policy: directive names with their source lists, in key order. */
  type Directives = Table<string, seq<string>>

  const SelfSource := "'self'"
  const NoneSource := "'none'"
  const DefaultSrc := "default-src"

  /** `defaultPolicies`, the same in both versions. */
  const DefaultPolicies: Directives := [
    ("child-src", [SelfSource]),
    ("connect-src", [SelfSource]),
    (DefaultSrc, [SelfSource]),
    ("frame-src", [SelfSource]),
    ("font-src", [SelfSource]),
    ("img-src", [SelfSource]),
    ("manifest-src", [SelfSource]),
    ("media-src", [SelfSource]),
    ("object-src", [NoneSource]),
    ("prefetch-src", [SelfSource]),
    ("script-src", [SelfSource]),
    ("style-src", [SelfSource]),
    ("worker-src", [SelfSource]),
    ("base-uri", [NoneSource]),
    ("frame-ancestors", [NoneSource]),
    ("form-action", [SelfSource])]

  /** No directive name appears twice. */
  predicate Distinct(d: Directives) {
    forall a, b | 0 <= a < b < |d| :: d[a].0 != d[b].0
  }

  /** The header a route sets to add sources to a directive. */
  function XName(key: string): string {
    "x-" + key
  }

  lemma XNameInjective(a: string, b: string)
    ensures XName(a) == XName(b) ==> a == b
  {
    assert XName(a)[2..] == a;
    assert XName(b)[2..] == b;
  }

  /** `value.split(',').map((s) => s.trim())`. */
  function HeaderList(value: string): seq<string> {
    var parts := Split(value, ",");
    seq(|parts|, i requires 0 <= i < |parts| => Trim(parts[i]))
  }

  /** A directive's sources: a fresh copy of the defaults, then those of
      its `x-` header, if the response has one. */
  function Extended(key: string, sources: seq<string>, headers: Table<string, string>): seq<string> {
    match Lookup(headers, XName(key))
    case Some(value) => sources + HeaderList(value)
    case None => sources
  }

  /** The policy `getPolicies` builds, directive by directive. */
  function Policies(defaults: Directives, headers: Table<string, string>): Directives {
    seq(|defaults|, i requires 0 <= i < |defaults| => (defaults[i].0, Extended(defaults[i].0, defaults[i].1, headers)))
  }

  /** The response headers after `getPolicies`: every `x-` header of a
      default directive deleted, in table order. */
  function Consumed(defaults: Directives, headers: Table<string, string>): Table<string, string>
    decreases |defaults|
  {
    if defaults == [] then headers
    else Remove(Consumed(defaults[..|defaults| - 1], headers), XName(defaults[|defaults| - 1].0))
  }

  /** Directive `i` keeps its name and its defaults, in front of the
      sources of its header; without a header it is the defaults alone. */
  lemma PoliciesAt(defaults: Directives, headers: Table<string, string>, i: nat)
    requires i < |defaults|
    ensures |Policies(defaults, headers)| == |defaults|
    ensures Policies(defaults, headers)[i].0 == defaults[i].0
    ensures defaults[i].1 <= Policies(defaults, headers)[i].1
    ensures Lookup(headers, XName(defaults[i].0)).None? ==> Policies(defaults, headers)[i].1 == defaults[i].1
    ensures Lookup(headers, XName(defaults[i].0)).Some? ==>
      Policies(defaults, headers)[i].1[|defaults[i].1|..] == HeaderList(Lookup(headers, XName(defaults[i].0)).value)
  {
    var v := Policies(defaults, headers)[i].1;
    assert v[..|defaults[i].1|] == defaults[i].1;
  }

  /** What deleting the headers leaves: the `x-` header of a default
      directive is gone, every other header is as it was. */
  lemma {:induction false} ConsumedLookup(defaults: Directives, headers: Table<string, string>, k: string)
    ensures (exists i | 0 <= i < |defaults| :: XName(defaults[i].0) == k) ==> Lookup(Consumed(defaults, headers), k).None?
    ensures (forall i | 0 <= i < |defaults| :: XName(defaults[i].0) != k) ==>
      Lookup(Consumed(defaults, headers), k) == Lookup(headers, k)
    decreases |defaults|
  {
    if defaults != [] {
      var front := defaults[..|defaults| - 1];
      var last := defaults[|defaults| - 1];
      ConsumedLookup(front, headers, k);
      RemoveLookup(Consumed(front, headers), XName(last.0), k);
      if exists i | 0 <= i < |defaults| :: XName(defaults[i].0) == k {
        var i :| 0 <= i < |defaults| && XName(defaults[i].0) == k;
        if i < |front| {
          assert front[i] == defaults[i];
        }
      }
      if forall i | 0 <= i < |defaults| :: XName(defaults[i].0) != k {
        forall i | 0 <= i < |front| ensures XName(front[i].0) != k {
          assert front[i] == defaults[i];
        }
      }
    }
  }

  /** `getPolicies(response)`: the loop over `defaultPolicies`, deleting
      each `x-` header it uses. */
  method GetPolicies(defaults: Directives, headers: Table<string, string>)
    returns (csp: Directives, remaining: Table<string, string>)
    requires Distinct(defaults)
    ensures csp == Policies(defaults, headers)
    ensures remaining == Consumed(defaults, headers)
  {
    csp := [];
    remaining := headers;
    for i := 0 to |defaults|
      invariant csp == Policies(defaults[..i], headers)
      invariant remaining == Consumed(defaults[..i], headers)
    {
      var key := defaults[i].0;
      var sources := defaults[i].1;
      var xkey := XName(key);
      assert defaults[..i + 1][..i] == defaults[..i];
      forall j | 0 <= j < i
        ensures XName(defaults[..i][j].0) != xkey
      {
        XNameInjective(defaults[j].0, key);
      }
      ConsumedLookup(defaults[..i], headers, xkey);
      LookupMeaning(remaining, xkey);
      if HasKey(remaining, xkey) {
        var value := Lookup(remaining, xkey).value;
        remaining := Remove(remaining, xkey);
        sources := sources + HeaderList(value);
      } else {
        RemoveKeys(remaining, xkey);
      }
      csp := csp + [(key, sources)];
      assert csp == Policies(defaults[..i + 1], headers);
    }
    assert defaults[..|defaults|] == defaults;
  }

  // ---------------------------------------------------------------------
  // Redundant directives

  /** The middleware version prunes only fetch directives (`-src`); the
      legacy version prunes any directive. */
  datatype Version = Middleware | Legacy

  /** A directive that `default-src 'self'` already covers. */
  predicate Redundant(version: Version, key: string, sources: seq<string>) {
    key != DefaultSrc && sources == [SelfSource] && (version.Legacy? || EndsWith(key, "-src"))
  }

  /** `csp['default-src'].includes("'self'")`. */
  predicate SelfDefault(csp: Directives) {
    match Lookup(csp, DefaultSrc)
    case Some(sources) => SelfSource in sources
    case None => false
  }

  /** The directives that are not redundant, in order. */
  function Kept(version: Version, csp: Directives): Directives
    decreases |csp|
  {
    if csp == [] then []
    else (if Redundant(version, csp[0].0, csp[0].1) then [] else [csp[0]]) + Kept(version, csp[1..])
  }

  /** The policy after removing redundant directives. */
  function Pruned(version: Version, csp: Directives): Directives {
    if SelfDefault(csp) then Kept(version, csp) else csp
  }

  lemma {:induction false} KeptMember(version: Version, csp: Directives, x: (string, seq<string>))
    ensures x in Kept(version, csp) <==> x in csp && !Redundant(version, x.0, x.1)
    decreases |csp|
  {
    if csp != [] {
      KeptMember(version, csp[1..], x);
      assert x in csp <==> x == csp[0] || x in csp[1..];
    }
  }

  lemma {:induction false} KeptSnoc(version: Version, csp: Directives, x: (string, seq<string>))
    ensures Kept(version, csp + [x]) == Kept(version, csp) + (if Redundant(version, x.0, x.1) then [] else [x])
    decreases |csp|
  {
    if csp == [] {
      assert [x][1..] == [];
    } else {
      assert (csp + [x])[1..] == csp[1..] + [x];
      KeptSnoc(version, csp[1..], x);
    }
  }

  /** `default-src` is never redundant, so pruning keeps its sources. */
  lemma {:induction false} KeptDefault(version: Version, csp: Directives)
    ensures Lookup(Kept(version, csp), DefaultSrc) == Lookup(csp, DefaultSrc)
    decreases |csp|
  {
    if csp != [] {
      KeptDefault(version, csp[1..]);
      var rest := Kept(version, csp[1..]);
      if !Redundant(version, csp[0].0, csp[0].1) {
        assert Kept(version, csp) == [csp[0]] + rest;
        assert ([csp[0]] + rest)[1..] == rest;
      } else {
        assert Kept(version, csp) == rest;
      }
    }
  }

  lemma {:induction false} KeptTwice(version: Version, csp: Directives)
    ensures Kept(version, Kept(version, csp)) == Kept(version, csp)
    decreases |csp|
  {
    if csp != [] {
      KeptTwice(version, csp[1..]);
      var rest := Kept(version, csp[1..]);
      if !Redundant(version, csp[0].0, csp[0].1) {
        assert Kept(version, csp) == [csp[0]] + rest;
        assert ([csp[0]] + rest)[1..] == rest;
        assert ([csp[0]] + rest)[0] == csp[0];
      } else {
        assert Kept(version, csp) == rest;
      }
    }
  }

  /** A directive survives pruning exactly when it is in the policy and is
      not redundant under `default-src 'self'`; `default-src` always
      survives, and pruning twice changes nothing more. */
  lemma PrunedMeaning(version: Version, csp: Directives, x: (string, seq<string>))
    ensures x in Pruned(version, csp) <==> x in csp && !(SelfDefault(csp) && Redundant(version, x.0, x.1))
    ensures Lookup(Pruned(version, csp), DefaultSrc) == Lookup(csp, DefaultSrc)
    ensures Pruned(version, Pruned(version, csp)) == Pruned(version, csp)
  {
    KeptMember(version, csp, x);
    KeptDefault(version, csp);
    KeptTwice(version, csp);
  }

  /** The legacy version prunes everything the middleware version prunes,
      and also non-fetch directives such as `form-action 'self'`, which
      the middleware version keeps. */
  lemma VersionsCompared(csp: Directives, x: (string, seq<string>))
    ensures x in Pruned(Legacy, csp) ==> x in Pruned(Middleware, csp)
    ensures x in csp && SelfDefault(csp) && x.0 != DefaultSrc && x.1 == [SelfSource] && !EndsWith(x.0, "-src") ==>
      x in Pruned(Middleware, csp) && x !in Pruned(Legacy, csp)
  {
    PrunedMeaning(Legacy, csp, x);
    PrunedMeaning(Middleware, csp, x);
  }

  /** Deleting a key held by exactly one entry removes that entry. */
  lemma {:induction false} RemoveOnly(a: Directives, x: (string, seq<string>), b: Directives)
    requires !HasKey(a, x.0) && !HasKey(b, x.0)
    ensures Remove(a + [x] + b, x.0) == a + b
    decreases |a|
  {
    if a == [] {
      assert ([x] + b)[1..] == b;
      RemoveKeys(b, x.0);
    } else {
      assert (a + [x] + b)[1..] == a[1..] + [x] + b;
      assert Keys(a) == [a[0].0] + Keys(a[1..]);
      RemoveOnly(a[1..], x, b);
      assert a + b == [a[0]] + (a[1..] + b);
    }
  }

  /** One turn of the loop: deleting a redundant entry's key removes
      just that entry. */
  lemma RemoveStep(version: Version, csp: Directives, i: nat)
    requires Distinct(csp) && i < |csp|
    ensures var x := csp[i];
      (if Redundant(version, x.0, x.1) then Remove(Kept(version, csp[..i]) + csp[i..], x.0)
       else Kept(version, csp[..i]) + csp[i..])
      == Kept(version, csp[..i + 1]) + csp[i + 1..]
  {
    var x, tail := csp[i], csp[i + 1..];
    var kept := Kept(version, csp[..i]);
    assert csp[..i + 1] == csp[..i] + [x];
    KeptSnoc(version, csp[..i], x);
    assert csp[i..] == [x] + tail;
    assert kept + csp[i..] == kept + [x] + tail;
    if Redundant(version, x.0, x.1) {
      assert Kept(version, csp[..i + 1]) == kept;
      NotBefore(version, csp, i);
      NotAfter(csp, i);
      RemoveOnly(kept, x, tail);
    } else {
      assert Kept(version, csp[..i + 1]) == kept + [x];
    }
  }

  /** The loop of the handler: every redundant directive of the entries
      is deleted from `csp`. */
  method RemoveRedundant(version: Version, csp: Directives) returns (out: Directives)
    requires Distinct(csp)
    ensures out == Kept(version, csp)
  {
    out := csp;
    for i := 0 to |csp|
      invariant out == Kept(version, csp[..i]) + csp[i..]
    {
      RemoveStep(version, csp, i);
      if Redundant(version, csp[i].0, csp[i].1) {
        out := Remove(out, csp[i].0);
      }
    }
    assert csp[..|csp|] == csp;
  }

  /** The entries kept before position `i` do not share its key. */
  lemma NotBefore(version: Version, csp: Directives, i: nat)
    requires Distinct(csp) && i < |csp|
    ensures !HasKey(Kept(version, csp[..i]), csp[i].0)
  {
    var kept := Kept(version, csp[..i]);
    HasKeyAt(kept, csp[i].0);
    forall j | 0 <= j < |kept|
      ensures kept[j].0 != csp[i].0
    {
      KeptMember(version, csp[..i], kept[j]);
      var j' :| 0 <= j' < i && csp[..i][j'] == kept[j];
      assert csp[j'] == kept[j];
    }
  }

  /** The entries after position `i` do not share its key. */
  lemma NotAfter(csp: Directives, i: nat)
    requires Distinct(csp) && i < |csp|
    ensures !HasKey(csp[i + 1..], csp[i].0)
  {
    var tail := csp[i + 1..];
    HasKeyAt(tail, csp[i].0);
    forall j | 0 <= j < |tail|
      ensures tail[j].0 != csp[i].0
    {
      assert tail[j] == csp[i + 1 + j];
    }
  }

  /** The pruning step of the handler. */
  method Prune(version: Version, csp: Directives) returns (out: Directives)
    requires Distinct(csp)
    ensures out == Pruned(version, csp)
  {
    out := csp;
    var defaultSources := Lookup(csp, DefaultSrc);
    if defaultSources.Some? && SelfSource in defaultSources.value {
      out := RemoveRedundant(version, csp);
    }
  }

  // ---------------------------------------------------------------------
  // The header

  /** Each directive as `name source source…`. */
  function Serialized(csp: Directives): seq<string> {
    seq(|csp|, i requires 0 <= i < |csp| => csp[i].0 + " " + Join(csp[i].1, " "))
  }

  /** The `content-security-policy` value: the directives joined by `; `. */
  function HeaderValue(csp: Directives): string {
    Join(Serialized(csp), "; ")
  }

  const NosniffHeader := "x-content-type-options"
  const ReferrerHeader := "referrer-policy"
  const PolicyHeader := "content-security-policy"

  /** The headers of a response the handler secures, given the defaults. */
  function SecuredWith(version: Version, defaults: Directives, headers: Table<string, string>): Table<string, string> {
    var rest := Consumed(defaults, headers);
    var sniff := if version.Middleware? then Set(rest, NosniffHeader, "nosniff") else rest;
    Set(Set(sniff, ReferrerHeader, "same-origin"), PolicyHeader, HeaderValue(Pruned(version, Policies(defaults, headers))))
  }

  /** After the handler, the response carries the pruned policy and a
      same-origin referrer policy (and, in the middleware version, the
      nosniff header); the `x-` header of every default directive is gone,
      and every other header is untouched. */
  lemma SecuredHeaders(version: Version, defaults: Directives, headers: Table<string, string>, k: string)
    ensures Lookup(SecuredWith(version, defaults, headers), PolicyHeader)
      == Some(HeaderValue(Pruned(version, Policies(defaults, headers))))
    ensures Lookup(SecuredWith(version, defaults, headers), ReferrerHeader) == Some("same-origin")
    ensures version.Middleware? ==> Lookup(SecuredWith(version, defaults, headers), NosniffHeader) == Some("nosniff")
    ensures (exists i | 0 <= i < |defaults| :: XName(defaults[i].0) == k) && k != NosniffHeader ==>
      Lookup(SecuredWith(version, defaults, headers), k).None?
    ensures (forall i | 0 <= i < |defaults| :: XName(defaults[i].0) != k)
            && k != PolicyHeader && k != ReferrerHeader && k != NosniffHeader ==>
      Lookup(SecuredWith(version, defaults, headers), k) == Lookup(headers, k)
  {
    var rest := Consumed(defaults, headers);
    var sniff := if version.Middleware? then Set(rest, NosniffHeader, "nosniff") else rest;
    var referred := Set(sniff, ReferrerHeader, "same-origin");
    var csp := HeaderValue(Pruned(version, Policies(defaults, headers)));
    ConsumedLookup(defaults, headers, k);
    SetLookup(rest, NosniffHeader, "nosniff", k);
    SetLookup(rest, NosniffHeader, "nosniff", ReferrerHeader);
    SetLookup(rest, NosniffHeader, "nosniff", NosniffHeader);
    SetLookup(sniff, ReferrerHeader, "same-origin", k);
    SetLookup(sniff, ReferrerHeader, "same-origin", ReferrerHeader);
    SetLookup(sniff, ReferrerHeader, "same-origin", NosniffHeader);
    SetLookup(referred, PolicyHeader, csp, k);
    SetLookup(referred, PolicyHeader, csp, PolicyHeader);
    SetLookup(referred, PolicyHeader, csp, ReferrerHeader);
    SetLookup(referred, PolicyHeader, csp, NosniffHeader);
    if exists i | 0 <= i < |defaults| :: XName(defaults[i].0) == k {
      var i :| 0 <= i < |defaults| && XName(defaults[i].0) == k;
      assert k[0] == 'x';
      assert ReferrerHeader[0] == 'r' && PolicyHeader[0] == 'c';
    }
  }

  /** The handler: an ignored request's response, or a missing response,
      is passed on unchanged; otherwise the response's headers become
      `SecuredWith` of the default policies. */
  method Handle(version: Version, ignore: bool, headers: Option<Table<string, string>>)
    returns (out: Option<Table<string, string>>)
    ensures ignore || headers.None? ==> out == headers
    ensures !ignore && headers.Some? ==> out == Some(SecuredWith(version, DefaultPolicies, headers.value))
  {
    if ignore || headers.None? {
      return headers;
    }
    DefaultsDistinct();
    var csp, rest := GetPolicies(DefaultPolicies, headers.value);
    PoliciesDistinct(DefaultPolicies, headers.value);
    var pruned := Prune(version, csp);
    var h := rest;
    if version.Middleware? {
      h := Set(h, NosniffHeader, "nosniff");
    }
    h := Set(h, ReferrerHeader, "same-origin");
    h := Set(h, PolicyHeader, HeaderValue(pruned));
    return Some(h);
  }

  lemma PoliciesDistinct(defaults: Directives, headers: Table<string, string>)
    requires Distinct(defaults)
    ensures Distinct(Policies(defaults, headers))
  {
  }

  lemma DefaultsDistinct()
    ensures Distinct(DefaultPolicies)
  {
  }
}
