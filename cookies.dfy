/** Cookies (section 4.1 and 4.2 of RFC 6265): parsing a `Cookie` request
    header, serializing a `Set-Cookie` value with its attributes, and the
    `Cookies` map that remembers which names a handler set, so that only
    those are sent back. `encodeURIComponent` and `decodeURIComponent` are
    inputs; a maximum age is an integer and an expiry date a preformatted
    string. */
module CookieStore {
  import opened Text
  import opened Tables

  // ---------------------------------------------------------------------
  // decode and parse

  /** `Cookies.decode(value)`: `uri` is `decodeURIComponent`, `None` where
      it throws. */
  function Decode(value: string, uri: string -> Option<string>): (r: string)
    ensures NoChar(value, '%') ==> r == value
    ensures uri(value).None? ==> r == value
    ensures !NoChar(value, '%') && uri(value).Some? ==> r == uri(value).value
  {
    if !NoChar(value, '%') && uri(value).Some? then uri(value).value else value
  }

  /** A value starting with `"` loses its first and last character, as
      `value.slice(1, -1)` does (a lone `"` becomes empty). */
  function Unquote(value: string): (r: string)
    ensures value != "" && value[0] == '"' ==> |r| == if |value| >= 2 then |value| - 2 else 0
    ensures value != "" && value[0] == '"' && |value| >= 2 ==> value == [value[0]] + r + [value[|value| - 1]]
    ensures value == "" || value[0] != '"' ==> r == value
  {
    if value != "" && value[0] == '"' then
      if |value| >= 2 then value[1..|value| - 1] else ""
    else value
  }

  /** The value stored for one pair: trimmed, unquoted, decoded. */
  function PairValue(raw: string, uri: string -> Option<string>): string {
    Decode(Unquote(Trim(raw)), uri)
  }

  /** Where the backtracking step resumes: just after the last `;` before
      the `=`, which is at or after the `;` found first. */
  lemma ResumeAfter(header: string, index: nat, semi: nat, eq: nat)
    requires index <= semi < eq < |header| && header[semi] == ';'
    ensures semi + 1 <= LastIndexOfChar(header, ';', eq - 1) + 1 <= eq
  {
  }

  /** Where the scan of `Cookies.parse` stands: stopped, or at `index`
      with the pairs read so far in `obj`. */
  datatype Scan = Scan(done: bool, index: nat, obj: Table<string, string>)

  /** One turn of the `while` loop of `Cookies.parse`. */
  function ParseStep(header: string, index: nat, obj: Table<string, string>, uri: string -> Option<string>): (s: Scan)
    requires index < |header|
    ensures !s.done ==> index < s.index
  {
    var eq := IndexOfChar(header, '=', index);
    if eq < 0 then Scan(true, index, obj)
    else
      var semi := IndexOfChar(header, ';', index);
      if semi >= 0 && semi < eq then
        ResumeAfter(header, index, semi, eq);
        Scan(false, LastIndexOfChar(header, ';', eq - 1) + 1, obj)
      else
        var end := if semi < 0 then |header| else semi;
        Scan(false, end + 1, ReadPair(header, index, eq, end, obj, uri))
  }

  /** The pair between `index` and `end`, split at the `=`, stored unless
      its key was read before. */
  function ReadPair(header: string, index: nat, eq: nat, end: nat, obj: Table<string, string>,
                    uri: string -> Option<string>): Table<string, string>
    requires index <= eq < end <= |header|
  {
    var key := Trim(header[index..eq]);
    if HasKey(obj, key) then obj else Set(obj, key, PairValue(header[eq + 1..end], uri))
  }

  /** The `while` loop of `Cookies.parse` from `index`. */
  function ParseFrom(header: string, index: nat, obj: Table<string, string>, uri: string -> Option<string>): Table<string, string>
    decreases |header| - index
  {
    if index >= |header| then obj
    else
      var s := ParseStep(header, index, obj, uri);
      if s.done then obj else ParseFrom(header, s.index, s.obj, uri)
  }

  /** `Cookies.parse(header)`. */
  function ParseHeader(header: string, uri: string -> Option<string>): Table<string, string> {
    ParseFrom(header, 0, [], uri)
  }

  /** Reading a pair keeps the keys unique and the values of keys read
      before. */
  lemma ReadPairFirstWins(header: string, index: nat, eq: nat, end: nat, obj: Table<string, string>,
                          uri: string -> Option<string>, k: string)
    requires index <= eq < end <= |header| && UniqueKeys(obj)
    ensures UniqueKeys(ReadPair(header, index, eq, end, obj, uri))
    ensures HasKey(obj, k) ==>
      HasKey(ReadPair(header, index, eq, end, obj, uri), k)
      && Lookup(ReadPair(header, index, eq, end, obj, uri), k) == Lookup(obj, k)
  {
    var key := Trim(header[index..eq]);
    if !HasKey(obj, key) {
      var value := PairValue(header[eq + 1..end], uri);
      SetUnique(obj, key, value);
      SetLookup(obj, key, value, k);
      SetKeys(obj, key, value);
    }
  }

  /** One turn stores a pair only under a key not yet read. */
  lemma StepFirstWins(header: string, index: nat, obj: Table<string, string>, uri: string -> Option<string>, k: string)
    requires index < |header| && UniqueKeys(obj)
    ensures UniqueKeys(ParseStep(header, index, obj, uri).obj)
    ensures HasKey(obj, k) ==>
      HasKey(ParseStep(header, index, obj, uri).obj, k)
      && Lookup(ParseStep(header, index, obj, uri).obj, k) == Lookup(obj, k)
  {
    var eq := IndexOfChar(header, '=', index);
    var semi := IndexOfChar(header, ';', index);
    if eq >= 0 && !(semi >= 0 && semi < eq) {
      var end := if semi < 0 then |header| else semi;
      ReadPairFirstWins(header, index, eq, end, obj, uri, k);
    }
  }

  /** A key, once read, keeps its first value: later pairs with the same
      key are ignored, so no key is stored twice. */
  lemma {:induction false} ParseFirstWins(header: string, index: nat, obj: Table<string, string>,
                                          uri: string -> Option<string>, k: string)
    requires UniqueKeys(obj)
    ensures UniqueKeys(ParseFrom(header, index, obj, uri))
    ensures HasKey(obj, k) ==> Lookup(ParseFrom(header, index, obj, uri), k) == Lookup(obj, k)
    decreases |header| - index
  {
    if index < |header| {
      var s := ParseStep(header, index, obj, uri);
      StepFirstWins(header, index, obj, uri, k);
      if !s.done {
        ParseFirstWins(header, s.index, s.obj, uri, k);
      }
    }
  }

  /** Text without an `=` adds no pair. */
  lemma ParseNoPair(header: string, index: nat, obj: Table<string, string>, uri: string -> Option<string>)
    requires forall i | index <= i < |header| :: header[i] != '='
    ensures ParseFrom(header, index, obj, uri) == obj
  {
    if index < |header| {
      assert IndexOfChar(header, '=', index) < 0;
    }
  }

  /** Where the `=` and the first `;` of `key=value` are. */
  lemma OnePairIndices(key: string, value: string)
    requires NoChar(key, '=') && NoChar(key, ';') && NoChar(value, ';')
    ensures IndexOfChar(key + "=" + value, '=', 0) == |key|
    ensures IndexOfChar(key + "=" + value, ';', 0) == -1
  {
    var header := key + "=" + value;
    forall i | 0 <= i < |key| ensures header[i] == key[i] { }
    forall i | |key| < i < |header| ensures header[i] == value[i - |key| - 1] { }
    assert header[|key|] == '=';
  }

  /** A header holding one pair `key=value` gives that one pair, its key
      and value trimmed, the value unquoted and decoded. */
  lemma ParseOnePair(key: string, value: string, uri: string -> Option<string>)
    requires NoChar(key, '=') && NoChar(key, ';') && NoChar(value, ';')
    ensures ParseHeader(key + "=" + value, uri) == [(Trim(key), PairValue(value, uri))]
  {
    var header := key + "=" + value;
    OnePairIndices(key, value);
    assert header[0..|key|] == key;
    assert header[|key| + 1..|header|] == value;
    var pair := ReadPair(header, 0, |key|, |header|, [], uri);
    assert pair == [(Trim(key), PairValue(value, uri))];
    assert ParseStep(header, 0, [], uri) == Scan(false, |header| + 1, pair);
    ParseUnfold(header, 0, [], uri);
    assert ParseFrom(header, |header| + 1, pair, uri) == pair;
  }

  /** Unfolding the scan by one turn. */
  lemma ParseUnfold(header: string, index: nat, obj: Table<string, string>, uri: string -> Option<string>)
    requires index < |header| && !ParseStep(header, index, obj, uri).done
    ensures ParseFrom(header, index, obj, uri)
      == ParseFrom(header, ParseStep(header, index, obj, uri).index, ParseStep(header, index, obj, uri).obj, uri)
  {
  }

  /** The loop of `Cookies.parse`. The scan index grows on every turn,
      also when it backtracks to just after a `;`. */
  method Parse(header: string, uri: string -> Option<string>) returns (obj: Table<string, string>)
    ensures obj == ParseHeader(header, uri)
  {
    obj := [];
    var index := 0;
    while index < |header|
      invariant ParseFrom(header, index, obj, uri) == ParseHeader(header, uri)
      decreases |header| - index
    {
      var done, next, read := ParseTurn(header, index, obj, uri);
      if done {
        break;
      }
      ParseUnfold(header, index, obj, uri);
      index, obj := next, read;
    }
  }

  /** The body of the loop: stop when no `=` is left; backtrack when a
      `;` comes before the `=`; otherwise read one pair, unless its key
      was read before, and go on after its `;`. */
  method ParseTurn(header: string, index: nat, obj: Table<string, string>, uri: string -> Option<string>)
    returns (done: bool, next: nat, read: Table<string, string>)
    requires index < |header|
    ensures Scan(done, next, read) == ParseStep(header, index, obj, uri)
  {
    var eqIdx := IndexOfChar(header, '=', index);
    if eqIdx == -1 {
      return true, index, obj;
    }
    var endIdx := IndexOfChar(header, ';', index);
    if endIdx == -1 {
      endIdx := |header|;
    } else if endIdx < eqIdx {
      ResumeAfter(header, index, endIdx, eqIdx);
      return false, LastIndexOfChar(header, ';', eqIdx - 1) + 1, obj;
    }
    read := ParsePair(header, index, eqIdx, endIdx, obj, uri);
    return false, endIdx + 1, read;
  }

  /** Reading one pair: the key and value trimmed, a quoted value
      unquoted, the first value of a key kept. */
  method ParsePair(header: string, index: nat, eqIdx: nat, endIdx: nat, obj: Table<string, string>,
                   uri: string -> Option<string>) returns (read: Table<string, string>)
    requires index <= eqIdx < endIdx <= |header|
    ensures read == ReadPair(header, index, eqIdx, endIdx, obj, uri)
  {
    var key := Trim(header[index..eqIdx]);
    read := obj;
    if !HasKey(obj, key) {
      var raw := Trim(header[eqIdx + 1..endIdx]);
      var value := raw;
      if value != "" && value[0] == '"' {
        value := if |value| >= 2 then value[1..|value| - 1] else "";
      }
      assert value == Unquote(raw);
      read := Set(obj, key, Decode(value, uri));
    }
  }

  // ---------------------------------------------------------------------
  // serialize

  /** A character of `fieldContentRegExp`: tab, visible ASCII, space, or
      U+0080 to U+00FF. */
  predicate FieldChar(c: char) {
    c == '\t' || (' ' <= c <= '~') || ('\U{80}' <= c <= '\U{FF}')
  }

  /** `fieldContentRegExp.test(s)`: one or more field characters. */
  predicate FieldContent(s: string) {
    |s| > 0 && forall i | 0 <= i < |s| :: FieldChar(s[i])
  }

  /** `sameSite`: `true` or a string. */
  datatype SameSite = SameSiteTrue | SameSiteText(text: string)

  /** The options `serialize` reads. `None` and `false` are absent. */
  datatype CookieOptions = CookieOptions(maxAge: Option<int>, domain: Option<string>, path: Option<string>,
                                         expires: Option<string>, httpOnly: bool, secure: bool,
                                         partitioned: bool, priority: Option<string>, sameSite: Option<SameSite>)

  const NoOptions := CookieOptions(None, None, None, None, false, false, false, None, None)

  /** A string option is used when it is set and not empty. */
  predicate Given(o: Option<string>) {
    o.Some? && o.value != ""
  }

  predicate SameSiteGiven(o: Option<SameSite>) {
    o.Some? && (o.value.SameSiteTrue? || o.value.text != "")
  }

  /** The cases of the `priority` switch, on the lower-cased option. */
  const PriorityKeywords: Table<string, string> := [("low", "Low"), ("medium", "Medium"), ("high", "High")]

  /** The cases of the `sameSite` switch for a string option. */
  const SameSiteKeywords: Table<string, string> := [("lax", "Lax"), ("strict", "Strict"), ("none", "None")]

  /** The `Priority` keyword of a priority, case-insensitively. */
  function PriorityLevel(p: string): Option<string> {
    Lookup(PriorityKeywords, Lower(p))
  }

  /** The `SameSite` keyword: `true` is `Strict`; strings case-insensitively. */
  function SameSiteMode(s: SameSite): Option<string> {
    match s
    case SameSiteTrue => Some("Strict")
    case SameSiteText(t) => Lookup(SameSiteKeywords, Lower(t))
  }

  /** The attributes `serialize` can append, in the order it appends them. */
  datatype Attribute = MaxAge(seconds: int) | Domain(domain: string) | Path(path: string) | Expires(date: string)
                     | HttpOnly | Secure | Partitioned | Priority(level: string) | SameSiteAttr(mode: string)

  function Rank(a: Attribute): nat {
    match a
    case MaxAge(_) => 0
    case Domain(_) => 1
    case Path(_) => 2
    case Expires(_) => 3
    case HttpOnly => 4
    case Secure => 5
    case Partitioned => 6
    case Priority(_) => 7
    case SameSiteAttr(_) => 8
  }

  /** `String(n)` of an integer. */
  function NatText(n: nat): (s: string)
    ensures |s| > 0 && forall i | 0 <= i < |s| :: IsDigit(s[i])
    decreases n
  {
    var d := ['0' + (n % 10) as char];
    if n < 10 then d else NatText(n / 10) + d
  }

  function IntText(n: int): string {
    if n < 0 then "-" + NatText(-n) else NatText(n)
  }

  /** The value of a string of decimal digits. */
  function DigitsValue(s: string): nat
    requires forall i | 0 <= i < |s| :: IsDigit(s[i])
    decreases |s|
  {
    if s == [] then 0
    else
      var d := s[|s| - 1];
      assert IsDigit(d);
      10 * DigitsValue(s[..|s| - 1]) + (d as int - '0' as int)
  }

  /** Reading back the digits of a number gives the number. */
  lemma {:induction false} NatTextValue(n: nat)
    ensures DigitsValue(NatText(n)) == n
    decreases n
  {
    var s := NatText(n);
    if n >= 10 {
      NatTextValue(n / 10);
      assert s[..|s| - 1] == NatText(n / 10);
    }
  }

  function AttributeText(a: Attribute): string {
    match a
    case MaxAge(n) => "; Max-Age=" + IntText(n)
    case Domain(d) => "; Domain=" + d
    case Path(p) => "; Path=" + p
    case Expires(e) => "; Expires=" + e
    case HttpOnly => "; HttpOnly"
    case Secure => "; Secure"
    case Partitioned => "; Partitioned"
    case Priority(l) => "; Priority=" + l
    case SameSiteAttr(m) => "; SameSite=" + m
  }

  function Texts(attrs: seq<Attribute>): string {
    Concat(attrs, AttributeText)
  }

  /** The texts `text` gives the attributes, one after the other. */
  function Concat(attrs: seq<Attribute>, text: Attribute -> string): string
    decreases |attrs|
  {
    if attrs == [] then "" else Concat(attrs[..|attrs| - 1], text) + text(attrs[|attrs| - 1])
  }

  /** The `Priority` and `SameSite` keywords the options resolve to;
      `None` where the option is absent or invalid. */
  datatype Keywords = Keywords(priority: Option<string>, sameSite: Option<string>)

  function Resolved(o: CookieOptions): Keywords {
    Keywords(if Given(o.priority) then PriorityLevel(o.priority.value) else None,
             if SameSiteGiven(o.sameSite) then SameSiteMode(o.sameSite.value) else None)
  }

  /** The attribute of rank `r` the options ask for, if any. */
  function Optional(o: CookieOptions, kw: Keywords, r: nat): (s: seq<Attribute>)
    ensures |s| <= 1
  {
    if r == 0 then (if o.maxAge.Some? then [MaxAge(o.maxAge.value)] else [])
    else if r == 1 then (if Given(o.domain) then [Domain(o.domain.value)] else [])
    else if r == 2 then (if Given(o.path) then [Path(o.path.value)] else [])
    else if r == 3 then (if Given(o.expires) then [Expires(o.expires.value)] else [])
    else if r == 4 then (if o.httpOnly then [HttpOnly] else [])
    else if r == 5 then (if o.secure then [Secure] else [])
    else if r == 6 then (if o.partitioned then [Partitioned] else [])
    else if r == 7 then (if kw.priority.Some? then [Priority(kw.priority.value)] else [])
    else if r == 8 then (if kw.sameSite.Some? then [SameSiteAttr(kw.sameSite.value)] else [])
    else []
  }

  /** The attribute of rank `r`, if any, has rank `r`. */
  lemma OptionalRank(o: CookieOptions, kw: Keywords, r: nat)
    ensures forall i | 0 <= i < |Optional(o, kw, r)| :: Rank(Optional(o, kw, r)[i]) == r
  {
  }

  /** The attributes of rank below `r`, in the order `serialize` appends
      them. */
  function AttributesBelow(o: CookieOptions, kw: Keywords, r: nat): seq<Attribute>
    decreases r
  {
    if r == 0 then [] else AttributesBelow(o, kw, r - 1) + Optional(o, kw, r - 1)
  }

  /** All attributes the options give. */
  function Attributes(o: CookieOptions): seq<Attribute> {
    AttributesBelow(o, Resolved(o), 9)
  }

  /** The first option check `serialize` fails, with its `TypeError`
      message. */
  function OptionsError(o: CookieOptions): Option<string> {
    if Given(o.domain) && !FieldContent(o.domain.value) then Some("option domain is invalid")
    else if Given(o.path) && !FieldContent(o.path.value) then Some("option path is invalid")
    else if Given(o.priority) && PriorityLevel(o.priority.value).None? then Some("option priority is invalid")
    else if SameSiteGiven(o.sameSite) && SameSiteMode(o.sameSite.value).None? then Some("option sameSite is invalid")
    else None
  }

  /** The first check `serialize` fails, with its `TypeError` message. */
  function SerializeError(name: string, encoded: string, o: CookieOptions): Option<string> {
    if !FieldContent(name) then Some("argument name is invalid")
    else if encoded != "" && !FieldContent(encoded) then Some("argument val is invalid")
    else OptionsError(o)
  }

  /** `Cookies.serialize(name, value, options)`; `encode` is
      `encodeURIComponent`. */
  function Serialized(name: string, value: string, o: CookieOptions, encode: string -> string): Result<string, string> {
    var encoded := encode(value);
    match SerializeError(name, encoded, o)
    case Some(e) => Err(e)
    case None => Ok(name + "=" + encoded + Texts(Attributes(o)))
  }

  /** Serializing fails exactly when the name, the encoded value, the
      domain, the path, the priority or the same-site mode is invalid;
      otherwise the value starts with `name=` and the encoded value. */
  lemma SerializedMeaning(name: string, value: string, o: CookieOptions, encode: string -> string)
    ensures Serialized(name, value, o, encode).Err? <==>
      !FieldContent(name) || (encode(value) != "" && !FieldContent(encode(value)))
      || (Given(o.domain) && !FieldContent(o.domain.value)) || (Given(o.path) && !FieldContent(o.path.value))
      || (Given(o.priority) && PriorityLevel(o.priority.value).None?)
      || (SameSiteGiven(o.sameSite) && SameSiteMode(o.sameSite.value).None?)
    ensures Serialized(name, value, o, encode).Ok? ==>
      StartsWith(Serialized(name, value, o, encode).value, name + "=" + encode(value))
  {
    var r := Serialized(name, value, o, encode);
    if r.Ok? {
      var p := name + "=" + encode(value);
      assert r.value == p + Texts(Attributes(o));
      assert r.value[..|p|] == p;
    }
  }

  /** Strictly increasing ranks: the fixed order, no attribute twice. */
  predicate Ordered(attrs: seq<Attribute>) {
    forall i, j | 0 <= i < j < |attrs| :: Rank(attrs[i]) < Rank(attrs[j])
  }

  lemma OrderedAppend(attrs: seq<Attribute>, more: seq<Attribute>, r: nat)
    requires Ordered(attrs) && forall i | 0 <= i < |attrs| :: Rank(attrs[i]) < r
    requires |more| <= 1 && forall i | 0 <= i < |more| :: Rank(more[i]) == r
    ensures Ordered(attrs + more)
    ensures forall i | 0 <= i < |attrs + more| :: Rank((attrs + more)[i]) < r + 1
  {
  }

  lemma {:induction false} BelowOrdered(o: CookieOptions, kw: Keywords, r: nat)
    ensures Ordered(AttributesBelow(o, kw, r))
    ensures forall i | 0 <= i < |AttributesBelow(o, kw, r)| :: Rank(AttributesBelow(o, kw, r)[i]) < r
    decreases r
  {
    if r > 0 {
      BelowOrdered(o, kw, r - 1);
      OptionalRank(o, kw, r - 1);
      OrderedAppend(AttributesBelow(o, kw, r - 1), Optional(o, kw, r - 1), r - 1);
    }
  }

  lemma {:induction false} BelowMember(o: CookieOptions, kw: Keywords, r: nat, a: Attribute)
    ensures a in AttributesBelow(o, kw, r) <==> Rank(a) < r && a in Optional(o, kw, Rank(a))
    decreases r
  {
    if r > 0 {
      BelowMember(o, kw, r - 1, a);
      var more := Optional(o, kw, r - 1);
      OptionalRank(o, kw, r - 1);
      assert a in AttributesBelow(o, kw, r) <==> a in AttributesBelow(o, kw, r - 1) || a in more;
      assert a in more ==> Rank(a) == r - 1;
      if Rank(a) == r - 1 {
        assert Optional(o, kw, Rank(a)) == more;
      }
    }
  }

  /** The attributes follow the fixed order Max-Age, Domain, Path,
      Expires, HttpOnly, Secure, Partitioned, Priority, SameSite, no one
      twice. */
  lemma AttributesOrdered(o: CookieOptions)
    ensures Ordered(Attributes(o))
  {
    BelowOrdered(o, Resolved(o), 9);
  }

  /** An attribute is present exactly when its option asks for it. */
  lemma AttributePresent(o: CookieOptions, a: Attribute)
    ensures a in Attributes(o) <==> a in Optional(o, Resolved(o), Rank(a))
  {
    BelowMember(o, Resolved(o), 9, a);
  }

  /** The flags give their attribute exactly when set. */
  lemma FlagsPresent(o: CookieOptions)
    ensures HttpOnly in Attributes(o) <==> o.httpOnly
    ensures Secure in Attributes(o) <==> o.secure
    ensures Partitioned in Attributes(o) <==> o.partitioned
  {
    FlagsBelow(o, Resolved(o));
  }

  lemma FlagsBelow(o: CookieOptions, kw: Keywords)
    ensures HttpOnly in AttributesBelow(o, kw, 9) <==> o.httpOnly
    ensures Secure in AttributesBelow(o, kw, 9) <==> o.secure
    ensures Partitioned in AttributesBelow(o, kw, 9) <==> o.partitioned
  {
    BelowMember(o, kw, 9, HttpOnly);
    BelowMember(o, kw, 9, Secure);
    BelowMember(o, kw, 9, Partitioned);
  }

  /** A maximum age, and a non-empty domain, path or expiry, give their
      attribute; a valid priority or same-site mode gives its keyword. */
  lemma ValuesPresent(o: CookieOptions)
    ensures o.maxAge.Some? ==> MaxAge(o.maxAge.value) in Attributes(o)
    ensures Given(o.domain) ==> Domain(o.domain.value) in Attributes(o)
    ensures Given(o.path) ==> Path(o.path.value) in Attributes(o)
    ensures Given(o.expires) ==> Expires(o.expires.value) in Attributes(o)
  {
    if o.maxAge.Some? {
      AttributePresent(o, MaxAge(o.maxAge.value));
    }
    if Given(o.domain) {
      AttributePresent(o, Domain(o.domain.value));
    }
    if Given(o.path) {
      AttributePresent(o, Path(o.path.value));
    }
    if Given(o.expires) {
      AttributePresent(o, Expires(o.expires.value));
    }
  }

  /** A valid priority or same-site option gives its keyword. */
  lemma KeywordsPresent(o: CookieOptions)
    ensures Given(o.priority) && PriorityLevel(o.priority.value).Some? ==>
      Priority(PriorityLevel(o.priority.value).value) in Attributes(o)
    ensures SameSiteGiven(o.sameSite) && SameSiteMode(o.sameSite.value).Some? ==>
      SameSiteAttr(SameSiteMode(o.sameSite.value).value) in Attributes(o)
  {
    if Given(o.priority) && PriorityLevel(o.priority.value).Some? {
      AttributePresent(o, Priority(PriorityLevel(o.priority.value).value));
    }
    if SameSiteGiven(o.sameSite) && SameSiteMode(o.sameSite.value).Some? {
      AttributePresent(o, SameSiteAttr(SameSiteMode(o.sameSite.value).value));
    }
  }

  /** `priority` and `sameSite` strings match whatever their case;
      `sameSite: true` means `Strict`. */
  lemma KeywordsIgnoreCase(p: string, s: string)
    ensures PriorityLevel(p) == PriorityLevel(Lower(p))
    ensures SameSiteMode(SameSiteText(s)) == SameSiteMode(SameSiteText(Lower(s)))
    ensures SameSiteMode(SameSiteTrue) == SameSiteMode(SameSiteText("strict"))
  {
    LowerTwice(p);
    LowerTwice(s);
    assert Lower("strict") == "strict";
  }

  lemma LowerTwice(s: string)
    ensures Lower(Lower(s)) == Lower(s)
  {
  }

  /** The text of the attribute of rank `r`, if any. */
  function OptionalText(o: CookieOptions, kw: Keywords, r: nat): string {
    PieceText(Optional(o, kw, r))
  }

  /** The text of at most one attribute. */
  function PieceText(more: seq<Attribute>): string {
    Piece(more, AttributeText)
  }

  function Piece(more: seq<Attribute>, text: Attribute -> string): string {
    if more == [] then "" else text(more[0])
  }

  /** The text of the attributes of rank below `r`. */
  function TextBelow(o: CookieOptions, kw: Keywords, r: nat): string
    decreases r
  {
    if r == 0 then "" else TextBelow(o, kw, r - 1) + OptionalText(o, kw, r - 1)
  }

  /** The text is the attributes' texts, one after the other. */
  lemma {:induction false} TextBelowMeaning(o: CookieOptions, kw: Keywords, r: nat)
    ensures TextBelow(o, kw, r) == Texts(AttributesBelow(o, kw, r))
    decreases r
  {
    if r > 0 {
      TextBelowMeaning(o, kw, r - 1);
      TextsSnoc(AttributesBelow(o, kw, r - 1), Optional(o, kw, r - 1));
    }
  }

  /** One more attribute's text after the text of `attrs`. */
  lemma TextsSnoc(attrs: seq<Attribute>, more: seq<Attribute>)
    requires |more| <= 1
    ensures Texts(attrs + more) == Texts(attrs) + PieceText(more)
  {
    ConcatSnoc(attrs, more, AttributeText);
  }

  lemma ConcatSnoc(attrs: seq<Attribute>, more: seq<Attribute>, text: Attribute -> string)
    requires |more| <= 1
    ensures Concat(attrs + more, text) == Concat(attrs, text) + Piece(more, text)
  {
    if more == [] {
      assert attrs + more == attrs;
    } else {
      assert (attrs + more)[..|attrs|] == attrs;
    }
  }

  /** `Cookies.serialize`: the name and value checks, then the
      attributes. */
  method Serialize(name: string, value: string, o: CookieOptions, encode: string -> string)
    returns (r: Result<string, string>)
    ensures r == Serialized(name, value, o, encode)
  {
    if !FieldContent(name) {
      return Err("argument name is invalid");
    }
    var encoded := encode(value);
    if encoded != "" && !FieldContent(encoded) {
      return Err("argument val is invalid");
    }
    r := SerializeOptions(name + "=" + encoded, o);
  }

  /** The attributes appended to `name=value`, in the order of the
      source, failing at the first invalid option. */
  method SerializeOptions(text: string, o: CookieOptions) returns (r: Result<string, string>)
    ensures OptionsError(o).Some? ==> r == Err(OptionsError(o).value)
    ensures OptionsError(o).None? ==> r == Ok(text + Texts(Attributes(o)))
  {
    ghost var kw := Resolved(o);
    var located := SerializeLocation(text, o, kw);
    if located.Err? {
      return located;
    }
    var flagged := SerializeFlags(located.value, o, kw, text);
    r := SerializeKeywords(flagged, o, kw, text);
    TextBelowMeaning(o, kw, 9);
  }

  /** Max-Age, Domain and Path. */
  method SerializeLocation(text: string, o: CookieOptions, ghost kw: Keywords) returns (r: Result<string, string>)
    ensures Given(o.domain) && !FieldContent(o.domain.value) ==> r == Err("option domain is invalid")
    ensures !(Given(o.domain) && !FieldContent(o.domain.value)) && Given(o.path) && !FieldContent(o.path.value) ==>
      r == Err("option path is invalid")
    ensures !(Given(o.domain) && !FieldContent(o.domain.value)) && !(Given(o.path) && !FieldContent(o.path.value)) ==>
      r == Ok(text + TextBelow(o, kw, 3))
  {
    var out := text;
    assert text + TextBelow(o, kw, 0) == text;
    if o.maxAge.Some? {
      out := out + ("; Max-Age=" + IntText(o.maxAge.value));
      Append(text, o, kw, 0, text, out, MaxAge(o.maxAge.value));
    } else {
      Skip(text, o, kw, 0, out);
    }
    ghost var was := out;
    if Given(o.domain) {
      if !FieldContent(o.domain.value) {
        return Err("option domain is invalid");
      }
      out := out + ("; Domain=" + o.domain.value);
      Append(text, o, kw, 1, was, out, Domain(o.domain.value));
    } else {
      Skip(text, o, kw, 1, out);
    }
    was := out;
    if Given(o.path) {
      if !FieldContent(o.path.value) {
        return Err("option path is invalid");
      }
      out := out + ("; Path=" + o.path.value);
      Append(text, o, kw, 2, was, out, Path(o.path.value));
    } else {
      Skip(text, o, kw, 2, out);
    }
    return Ok(out);
  }

  /** Expires, HttpOnly, Secure and Partitioned, which cannot fail. */
  method SerializeFlags(text: string, o: CookieOptions, ghost kw: Keywords, ghost prefix: string) returns (out: string)
    requires text == prefix + TextBelow(o, kw, 3)
    ensures out == prefix + TextBelow(o, kw, 7)
  {
    out := text;
    if Given(o.expires) {
      out := out + ("; Expires=" + o.expires.value);
      Append(prefix, o, kw, 3, text, out, Expires(o.expires.value));
    } else {
      Skip(prefix, o, kw, 3, out);
    }
    ghost var was := out;
    if o.httpOnly {
      out := out + "; HttpOnly";
      Append(prefix, o, kw, 4, was, out, HttpOnly);
    } else {
      Skip(prefix, o, kw, 4, out);
    }
    was := out;
    if o.secure {
      out := out + "; Secure";
      Append(prefix, o, kw, 5, was, out, Secure);
    } else {
      Skip(prefix, o, kw, 5, out);
    }
    was := out;
    if o.partitioned {
      out := out + "; Partitioned";
      Append(prefix, o, kw, 6, was, out, Partitioned);
    } else {
      Skip(prefix, o, kw, 6, out);
    }
  }

  /** Appending the attribute of rank `r`. */
  lemma Append(prefix: string, o: CookieOptions, kw: Keywords, r: nat, before: string, after: string, a: Attribute)
    requires before == prefix + TextBelow(o, kw, r)
    requires Optional(o, kw, r) == [a] && after == before + AttributeText(a)
    ensures after == prefix + TextBelow(o, kw, r + 1)
  {
    assert OptionalText(o, kw, r) == AttributeText(a);
    Assoc(prefix, TextBelow(o, kw, r), AttributeText(a));
  }

  /** Skipping rank `r` when its option is absent. */
  lemma Skip(prefix: string, o: CookieOptions, kw: Keywords, r: nat, text: string)
    requires text == prefix + TextBelow(o, kw, r)
    requires Optional(o, kw, r) == []
    ensures text == prefix + TextBelow(o, kw, r + 1)
  {
    assert OptionalText(o, kw, r) == "";
    assert TextBelow(o, kw, r + 1) == TextBelow(o, kw, r);
  }

  /** Priority and SameSite, each failing on an unknown keyword. */
  method SerializeKeywords(text: string, o: CookieOptions, ghost kw: Keywords, ghost prefix: string)
    returns (r: Result<string, string>)
    requires kw == Resolved(o) && text == prefix + TextBelow(o, kw, 7)
    ensures Given(o.priority) && PriorityLevel(o.priority.value).None? ==> r == Err("option priority is invalid")
    ensures (!(Given(o.priority) && PriorityLevel(o.priority.value).None?)
             && SameSiteGiven(o.sameSite) && SameSiteMode(o.sameSite.value).None?) ==>
      r == Err("option sameSite is invalid")
    ensures (!(Given(o.priority) && PriorityLevel(o.priority.value).None?)
             && !(SameSiteGiven(o.sameSite) && SameSiteMode(o.sameSite.value).None?)) ==>
      r == Ok(prefix + TextBelow(o, kw, 9))
  {
    var prioritized := SerializePriority(text, o, kw, prefix);
    if prioritized.Err? {
      return prioritized;
    }
    r := SerializeSameSite(prioritized.value, o, kw, prefix);
  }

  /** Priority, failing on an unknown level. */
  method SerializePriority(text: string, o: CookieOptions, ghost kw: Keywords, ghost prefix: string)
    returns (r: Result<string, string>)
    requires kw == Resolved(o) && text == prefix + TextBelow(o, kw, 7)
    ensures Given(o.priority) && PriorityLevel(o.priority.value).None? ==> r == Err("option priority is invalid")
    ensures !(Given(o.priority) && PriorityLevel(o.priority.value).None?) ==> r == Ok(prefix + TextBelow(o, kw, 8))
  {
    var out := text;
    if Given(o.priority) {
      var level := PriorityLevel(o.priority.value);
      if level.None? {
        return Err("option priority is invalid");
      }
      out := out + ("; Priority=" + level.value);
      Append(prefix, o, kw, 7, text, out, Priority(level.value));
    } else {
      Skip(prefix, o, kw, 7, out);
    }
    return Ok(out);
  }

  /** SameSite, failing on an unknown mode. */
  method SerializeSameSite(text: string, o: CookieOptions, ghost kw: Keywords, ghost prefix: string)
    returns (r: Result<string, string>)
    requires kw == Resolved(o) && text == prefix + TextBelow(o, kw, 8)
    ensures SameSiteGiven(o.sameSite) && SameSiteMode(o.sameSite.value).None? ==> r == Err("option sameSite is invalid")
    ensures !(SameSiteGiven(o.sameSite) && SameSiteMode(o.sameSite.value).None?) ==> r == Ok(prefix + TextBelow(o, kw, 9))
  {
    var out := text;
    if SameSiteGiven(o.sameSite) {
      var mode := SameSiteMode(o.sameSite.value);
      if mode.None? {
        return Err("option sameSite is invalid");
      }
      out := out + ("; SameSite=" + mode.value);
      Append(prefix, o, kw, 8, text, out, SameSiteAttr(mode.value));
    } else {
      Skip(prefix, o, kw, 8, out);
    }
    return Ok(out);
  }

  // ---------------------------------------------------------------------
  // The Cookies map

  /** A stored cookie: its value and the options it was set with. */
  datatype Cookie = Cookie(value: string, options: CookieOptions)

  /** The parsed pairs as cookies without options. */
  function Wrapped(pairs: Table<string, string>): (t: Table<string, Cookie>)
    ensures |t| == |pairs|
  {
    seq(|pairs|, i requires 0 <= i < |pairs| => (pairs[i].0, Cookie(pairs[i].1, NoOptions)))
  }

  /** The entries `headers()` sends: those whose name was set, in map
      order. */
  function Marked(jar: Table<string, Cookie>, marked: set<string>): Table<string, Cookie>
    decreases |jar|
  {
    if jar == [] then []
    else Marked(jar[..|jar| - 1], marked) + (if jar[|jar| - 1].0 in marked then [jar[|jar| - 1]] else [])
  }

  /** `f` applied to each element in order, stopping at the first error,
      as a loop of calls that may throw does. */
  function AllOk<T>(xs: seq<T>, f: T -> Result<string, string>): Result<seq<string>, string>
    decreases |xs|
  {
    if xs == [] then Ok([])
    else
      match AllOk(xs[..|xs| - 1], f)
      case Err(e) => Err(e)
      case Ok(hs) =>
        match f(xs[|xs| - 1])
        case Err(e) => Err(e)
        case Ok(h) => Ok(hs + [h])
  }

  /** The result lists every value when no call fails, and is otherwise
      the error of the first call that fails. */
  lemma {:induction false} AllOkMeaning<T>(xs: seq<T>, f: T -> Result<string, string>)
    ensures AllOk(xs, f).Ok? <==> forall i | 0 <= i < |xs| :: f(xs[i]).Ok?
    ensures AllOk(xs, f).Ok? ==>
      |AllOk(xs, f).value| == |xs| && forall i | 0 <= i < |xs| :: f(xs[i]) == Ok(AllOk(xs, f).value[i])
    ensures AllOk(xs, f).Err? ==>
      exists i | 0 <= i < |xs| :: f(xs[i]) == Err(AllOk(xs, f).error) && forall j | 0 <= j < i :: f(xs[j]).Ok?
    decreases |xs|
  {
    if xs != [] {
      var front := xs[..|xs| - 1];
      AllOkMeaning(front, f);
      assert forall i | 0 <= i < |front| :: front[i] == xs[i];
      if AllOk(front, f).Err? {
        var i :| 0 <= i < |front| && f(front[i]) == Err(AllOk(front, f).error) && forall j | 0 <= j < i :: f(front[j]).Ok?;
        assert f(xs[i]) == Err(AllOk(xs, f).error);
      } else if AllOk(xs, f).Err? {
        assert f(xs[|xs| - 1]) == Err(AllOk(xs, f).error);
      }
    }
  }

  /** `Cookies.serialize` of one map entry. */
  function Serializer(encode: string -> string): ((string, Cookie)) -> Result<string, string> {
    (e: (string, Cookie)) => Serialized(e.0, e.1.value, e.1.options, encode)
  }

  /** The `set-cookie` values of the marked entries, or the first error. */
  function SetCookies(entries: Table<string, Cookie>, encode: string -> string): Result<seq<string>, string> {
    AllOk(entries, Serializer(encode))
  }

  lemma {:induction false} MarkedMember(jar: Table<string, Cookie>, marked: set<string>, x: (string, Cookie))
    ensures x in Marked(jar, marked) <==> x in jar && x.0 in marked
    decreases |jar|
  {
    if jar != [] {
      var front := jar[..|jar| - 1];
      MarkedMember(front, marked, x);
      assert jar == front + [jar[|jar| - 1]];
    }
  }

  /** With no name set, nothing is sent, whatever was parsed. */
  lemma {:induction false} NothingMarked(jar: Table<string, Cookie>)
    ensures Marked(jar, {}) == []
    decreases |jar|
  {
    if jar != [] {
      NothingMarked(jar[..|jar| - 1]);
    }
  }

  /** Every entry gives exactly one header, in order, its serialization;
      when one fails, the error is that of the first entry that fails. */
  lemma SetCookiesMeaning(entries: Table<string, Cookie>, encode: string -> string)
    ensures SetCookies(entries, encode).Ok? <==>
      forall i | 0 <= i < |entries| :: Serialized(entries[i].0, entries[i].1.value, entries[i].1.options, encode).Ok?
    ensures SetCookies(entries, encode).Ok? ==>
      |SetCookies(entries, encode).value| == |entries|
      && forall i | 0 <= i < |entries| ::
           Serialized(entries[i].0, entries[i].1.value, entries[i].1.options, encode) == Ok(SetCookies(entries, encode).value[i])
    ensures SetCookies(entries, encode).Err? ==>
      exists i | 0 <= i < |entries| ::
        Serialized(entries[i].0, entries[i].1.value, entries[i].1.options, encode) == Err(SetCookies(entries, encode).error)
        && forall j | 0 <= j < i :: Serialized(entries[j].0, entries[j].1.value, entries[j].1.options, encode).Ok?
  {
    AllOkMeaning(entries, Serializer(encode));
  }

  /** `class Cookies`: the cookie map and the set of names passed to
      `set`. */
  class Cookies {
    var jar: Table<string, Cookie>
    var marked: set<string>

    /** No name twice, and every set name is in the map. */
    predicate Valid()
      reads this
    {
      UniqueKeys(jar) && forall n | n in marked :: HasKey(jar, n)
    }

    /** `new Cookies(header)`: the parsed pairs, none of them set. */
    constructor(header: string, uri: string -> Option<string>)
      ensures Valid()
      ensures jar == Wrapped(ParseHeader(header, uri)) && marked == {}
    {
      var parsed := Parse(header, uri);
      ParseFirstWins(header, 0, [], uri, "");
      var t := FromPairs(parsed);
      jar := t;
      marked := {};
    }

    function Size(): nat
      reads this
    {
      |jar|
    }

    function Get(name: string): Option<Cookie>
      reads this
    {
      Lookup(jar, name)
    }

    predicate Has(name: string)
      reads this
    {
      HasKey(jar, name)
    }

    /** `get` finds a cookie exactly for the names `has` reports, and the
        cookie found is one the map holds under that name. */
    lemma GetHas(name: string)
      ensures Get(name).Some? <==> Has(name)
      ensures Get(name).Some? ==> exists i :: 0 <= i < Size() && jar[i] == (name, Get(name).value)
    {
      LookupMeaning(jar, name);
    }

    method Clear()
      modifies this
      ensures Valid() && jar == [] && marked == {}
    {
      marked := {};
      jar := [];
    }

    /** `delete(name)`: forgotten by the map and the set; answers whether
        the map had it. */
    method Delete(name: string) returns (found: bool)
      requires Valid()
      modifies this
      ensures Valid()
      ensures found == HasKey(old(jar), name)
      ensures jar == Remove(old(jar), name) && marked == old(marked) - {name}
    {
      found := HasKey(jar, name);
      RemoveKeys(jar, name);
      marked := marked - {name};
      jar := Remove(jar, name);
    }

    /** `set(name, options)`. */
    method SetCookie(name: string, cookie: Cookie)
      requires Valid()
      modifies this
      ensures Valid()
      ensures jar == Set(old(jar), name, cookie) && marked == old(marked) + {name}
      ensures Lookup(jar, name) == Some(cookie)
    {
      SetUnique(jar, name, cookie);
      SetLookup(jar, name, cookie, name);
      forall n | n in marked ensures HasKey(Set(jar, name, cookie), n) {
        SetLookup(jar, name, cookie, n);
        LookupMeaning(jar, n);
        LookupMeaning(Set(jar, name, cookie), n);
      }
      LookupMeaning(Set(jar, name, cookie), name);
      marked := marked + {name};
      jar := Set(jar, name, cookie);
    }

    /** `headers()`: one `set-cookie` value per set name still in the map,
        in map order; a failing serialization propagates its error. */
    method Headers(encode: string -> string) returns (r: Result<seq<string>, string>)
      ensures r == SetCookies(Marked(jar, marked), encode)
    {
      var hs: seq<string> := [];
      for i := 0 to |jar|
        invariant SetCookies(Marked(jar[..i], marked), encode) == Ok(hs)
      {
        HeadersNext(jar, marked, encode, i);
        var entry := jar[i];
        if entry.0 in marked {
          var h := Serialize(entry.0, entry.1.value, entry.1.options, encode);
          if h.Err? {
            ErrorStays(jar, marked, encode, i + 1);
            return Err(h.error);
          }
          hs := hs + [h.value];
        }
      }
      assert jar[..|jar|] == jar;
      return Ok(hs);
    }
  }

  /** One more entry of the map: skipped when its name was not set,
      otherwise serialized after the earlier ones. */
  lemma HeadersNext(jar: Table<string, Cookie>, marked: set<string>, encode: string -> string, i: nat)
    requires i < |jar|
    ensures jar[i].0 !in marked ==>
      SetCookies(Marked(jar[..i + 1], marked), encode) == SetCookies(Marked(jar[..i], marked), encode)
    ensures jar[i].0 in marked && SetCookies(Marked(jar[..i], marked), encode).Ok? ==>
      SetCookies(Marked(jar[..i + 1], marked), encode) ==
        match Serialized(jar[i].0, jar[i].1.value, jar[i].1.options, encode)
        case Err(e) => Err(e)
        case Ok(h) => Ok(SetCookies(Marked(jar[..i], marked), encode).value + [h])
  {
    assert jar[..i + 1][..i] == jar[..i];
    var m := Marked(jar[..i], marked);
    if jar[i].0 in marked {
      var mm := m + [jar[i]];
      assert Marked(jar[..i + 1], marked) == mm;
      assert mm[..|mm| - 1] == m;
    } else {
      assert Marked(jar[..i + 1], marked) == m;
    }
  }

  /** An error in the first `k` entries is the error of the whole run. */
  lemma {:induction false} ErrorStays(jar: Table<string, Cookie>, marked: set<string>, encode: string -> string, k: nat)
    requires k <= |jar| && SetCookies(Marked(jar[..k], marked), encode).Err?
    ensures SetCookies(Marked(jar, marked), encode) == SetCookies(Marked(jar[..k], marked), encode)
    decreases |jar| - k
  {
    if k < |jar| {
      var front := jar[..k + 1];
      assert front[..k] == jar[..k];
      var m := Marked(jar[..k], marked);
      var entry := jar[k];
      assert front[k] == entry;
      if entry.0 in marked {
        var mm := m + [entry];
        assert Marked(front, marked) == mm;
        assert mm[..|mm| - 1] == m;
      } else {
        assert Marked(front, marked) == m;
      }
      ErrorStays(jar, marked, encode, k + 1);
    } else {
      assert jar[..k] == jar;
    }
  }

  /** `this.#map.set(name, {value})` for each parsed pair. */
  method FromPairs(pairs: Table<string, string>) returns (t: Table<string, Cookie>)
    requires UniqueKeys(pairs)
    ensures t == Wrapped(pairs) && UniqueKeys(t)
  {
    UniqueKeysDistinct(pairs);
    t := [];
    for i := 0 to |pairs|
      invariant t == Wrapped(pairs[..i]) && UniqueKeys(t)
    {
      var key, c := pairs[i].0, Cookie(pairs[i].1, NoOptions);
      HasKeyAt(t, key);
      assert !HasKey(t, key) by {
        forall j | 0 <= j < |t|
          ensures t[j].0 != key
        {
          assert t[j].0 == pairs[j].0;
        }
      }
      SetFresh(t, key, c);
      SetUnique(t, key, c);
      ghost var before := t;
      t := Set(t, key, c);
      assert t == before + [(key, c)];
      assert t == Wrapped(pairs[..i + 1]);
    }
    assert pairs[..|pairs|] == pairs;
  }

  /** Setting a key that is not there appends it. */
  lemma {:induction false} SetFresh<V>(t: Table<string, V>, k: string, v: V)
    requires !HasKey(t, k)
    ensures Set(t, k, v) == t + [(k, v)]
    decreases |t|
  {
    if t != [] {
      assert Keys(t) == [t[0].0] + Keys(t[1..]);
      SetFresh(t[1..], k, v);
      assert [t[0]] + (t[1..] + [(k, v)]) == t + [(k, v)];
    }
  }
}
