/** Authorisation for remote imports: the token table read once from
    `DENO_AUTH_TOKENS` (`token@host` entries separated by `;`) and the
    header chosen for a URL's host. */
module FetchTokens {
  import opened Text
  import opened Tables

  /** A host key of the table; `None` stands for JavaScript `undefined`,
      the key an entry without `@` gets. */
  type Host = Option<string>

  /** The text `startsWith` compares against: `undefined` converts to the
      string "undefined". */
  function HostText(h: Host): string {
    if h.Some? then h.value else "undefined"
  }

  /** `const [token, host] = part.trim().split('@')`. */
  function TokenPair(part: string): (Host, string) {
    var fields := Split(Trim(part), "@");
    (if |fields| >= 2 then Some(fields[1]) else None, fields[0])
  }

  function TokenPairs(env: string): (ps: seq<(Host, string)>)
    ensures |ps| == |Split(env, ";")|
  {
    var parts := Split(env, ";");
    seq(|parts|, i requires 0 <= i < |parts| => TokenPair(parts[i]))
  }

  /** The `TOKENS` map: empty without the variable, else every pair set in
      turn. */
  function Tokens(env: Option<string>): Table<Host, string> {
    if env.None? then [] else SetAll([], TokenPairs(env.value))
  }

  /** The load-time loop that fills `TOKENS`. */
  method ParseTokens(env: Option<string>) returns (tokens: Table<Host, string>)
    ensures tokens == Tokens(env)
  {
    tokens := [];
    if env.None? {
      return;
    }
    var parts := Split(env.value, ";");
    ghost var ps := TokenPairs(env.value);
    var i := 0;
    while i < |parts|
      invariant 0 <= i <= |parts|
      invariant tokens == SetAll([], ps[..i])
    {
      var (host, token) := TokenPair(parts[i]);
      assert ps[i] == (host, token);
      SetAllNext([], ps, i);
      tokens := Set(tokens, host, token);
      i := i + 1;
    }
    assert ps[..i] == ps;
  }

  /** A host's token is the one of the last entry naming it. */
  lemma LaterTokenWins(env: string, h: Host)
    ensures Lookup(Tokens(Some(env)), h) == LastValue(TokenPairs(env), h)
  {
    SetAllLookup([], TokenPairs(env), h);
  }

  /** The table never holds a host twice. */
  lemma TokensUnique(env: Option<string>)
    ensures UniqueKeys(Tokens(env))
  {
    if env.Some? {
      SetAllUnique([], TokenPairs(env.value));
    }
  }

  /** The token of the first entry, in table order, whose host is a prefix
      of `urlHost`. */
  function FirstPrefix(tokens: Table<Host, string>, urlHost: string): Option<string>
    decreases |tokens|
  {
    if tokens == [] then None
    else if StartsWith(urlHost, HostText(tokens[0].0)) then Some(tokens[0].1)
    else FirstPrefix(tokens[1..], urlHost)
  }

  /** `FirstPrefix` answers with the token of an entry whose host matches,
      and no earlier entry matches; it answers nothing exactly when no
      entry matches. */
  lemma {:induction false} FirstPrefixMeaning(tokens: Table<Host, string>, urlHost: string)
    ensures FirstPrefix(tokens, urlHost).Some? ==>
      exists i :: 0 <= i < |tokens|
        && StartsWith(urlHost, HostText(tokens[i].0)) && tokens[i].1 == FirstPrefix(tokens, urlHost).value
        && (forall j :: 0 <= j < i ==> !StartsWith(urlHost, HostText(tokens[j].0)))
    ensures FirstPrefix(tokens, urlHost).None? <==>
      forall i :: 0 <= i < |tokens| ==> !StartsWith(urlHost, HostText(tokens[i].0))
    decreases |tokens|
  {
    if tokens != [] && !StartsWith(urlHost, HostText(tokens[0].0)) {
      var rest := tokens[1..];
      FirstPrefixMeaning(rest, urlHost);
      if FirstPrefix(rest, urlHost).Some? {
        var i :| 0 <= i < |rest| && StartsWith(urlHost, HostText(rest[i].0))
          && rest[i].1 == FirstPrefix(rest, urlHost).value
          && (forall j :: 0 <= j < i ==> !StartsWith(urlHost, HostText(rest[j].0)));
        assert tokens[i + 1] == rest[i];
        forall j | 0 <= j < i + 1 ensures !StartsWith(urlHost, HostText(tokens[j].0)) {
          if j > 0 { assert tokens[j] == rest[j - 1]; }
        }
      } else {
        forall i | 0 <= i < |tokens| ensures !StartsWith(urlHost, HostText(tokens[i].0)) {
          if i > 0 { assert tokens[i] == rest[i - 1]; }
        }
      }
    }
  }

  /** `fetchHeaders`: the loop over the table that stops at the first
      matching host; at most one `authorization` header results, carrying
      that host's token, and none when no host matches. */
  method FetchHeaders(tokens: Table<Host, string>, urlHost: string) returns (headers: Table<string, string>)
    ensures |headers| <= 1
    ensures headers == if FirstPrefix(tokens, urlHost).Some?
      then [("authorization", "Bearer " + FirstPrefix(tokens, urlHost).value)] else []
  {
    headers := [];
    var i := 0;
    while i < |tokens|
      invariant 0 <= i <= |tokens|
      invariant FirstPrefix(tokens, urlHost) == FirstPrefix(tokens[i..], urlHost)
      invariant headers == []
    {
      var (k, v) := tokens[i];
      assert tokens[i..][1..] == tokens[i + 1..];
      if StartsWith(urlHost, HostText(k)) {
        headers := Set(headers, "authorization", "Bearer " + v);
        return;
      }
      i := i + 1;
    }
  }
}
