/** The browser side of islands: the `dinossr-island` element's
    `connectedCallback`, which hydrates each island once, counts the
    elements of each island id so the n-th element takes the n-th JSON
    props payload, and leaves islands nested in another island to their
    parent. The DOM is an input: the element's identity, its `data-island`
    value, whether an ancestor is an island, and the texts of the JSON
    scripts for that island in document order. */
module IslandLoader {
  import opened Text

  /** `this.dataset.island`; `None` is `undefined`. */
  type IslandId = Option<string>

  function IdText(island: IslandId): string {
    if island.Some? then island.value else "undefined"
  }

  /** The mount context: url, pattern, params, public data and
      `browser = true`. */
  datatype Context = Context(url: string, pattern: string, params: string, publicData: string, browser: bool)

  /** Props: the text of a JSON payload to parse, or `{}`. */
  datatype Props = Payload(json: string) | EmptyProps

  datatype Action =
    | AlreadyProcessed
    | NestedIsland
    | Mount(bundle: string, props: Props, context: Context, hydrate: bool)

  /** The module-level `islands` set and `islandCount` map. */
  datatype Registry = Registry(processed: set<nat>, counts: map<IslandId, nat>)

  /** The page values the loader script is generated with. */
  datatype Page = Page(url: string, pattern: string, params: string, publicData: string)

  function CountOf(r: Registry, island: IslandId): nat {
    if island in r.counts then r.counts[island] else 0
  }

  /** One `connectedCallback` of element `el`. */
  function Connect(r: Registry, page: Page, el: nat, island: IslandId, nested: bool,
                   payloads: seq<string>): (Registry, Action)
  {
    if el in r.processed then (r, AlreadyProcessed)
    else
      var count := CountOf(r, island);
      var r' := Registry(r.processed + {el}, r.counts[island := count + 1]);
      if nested then (r', NestedIsland)
      else
        var props := if count < |payloads| then Payload(payloads[count]) else EmptyProps;
        var context := Context(page.url, page.pattern, page.params, page.publicData, true);
        (r', Mount("/_/immutable/" + IdText(island) + ".js", props, context, true))
  }

  /** A first connect records the element and adds one to its id's count,
      nested or not, and changes no other count; a nested island never
      mounts; otherwise the props are the payload at the count before the
      increment, or `{}` when there are not that many. */
  lemma ConnectMeaning(r: Registry, page: Page, el: nat, island: IslandId, nested: bool, payloads: seq<string>)
    requires el !in r.processed
    ensures var (r', a) := Connect(r, page, el, island, nested, payloads);
      && r'.processed == r.processed + {el}
      && CountOf(r', island) == CountOf(r, island) + 1
      && (forall other :: other != island ==> CountOf(r', other) == CountOf(r, other))
      && (nested <==> a.NestedIsland?)
      && (a.Mount? ==>
            a.hydrate && a.context.browser
            && (a.props.Payload? <==> CountOf(r, island) < |payloads|)
            && (a.props.Payload? ==> a.props.json == payloads[CountOf(r, island)]))
  {
  }

  /** Each element is handled once: connecting it again changes nothing. */
  lemma ConnectOnce(r: Registry, page: Page, el: nat, island: IslandId, nested: bool, payloads: seq<string>,
                    island2: IslandId, nested2: bool, payloads2: seq<string>)
    ensures var (r1, _) := Connect(r, page, el, island, nested, payloads);
      Connect(r1, page, el, island2, nested2, payloads2) == (r1, AlreadyProcessed)
  {
  }

  /** A run of first connects of non-nested elements of one id. */
  function ConnectAll(r: Registry, page: Page, els: seq<nat>, island: IslandId, payloads: seq<string>): (Registry, seq<Action>)
    decreases |els|
  {
    if els == [] then (r, [])
    else
      var (r1, a) := Connect(r, page, els[0], island, false, payloads);
      var (r2, as') := ConnectAll(r1, page, els[1..], island, payloads);
      (r2, [a] + as')
  }

  /** Distinct new elements of one id mount in turn with the payloads that
      follow the id's current count. */
  lemma {:induction false} ConnectAllPayloads(r: Registry, page: Page, els: seq<nat>, island: IslandId,
                                               payloads: seq<string>)
    requires forall i :: 0 <= i < |els| ==> els[i] !in r.processed
    requires forall i, j :: 0 <= i < j < |els| ==> els[i] != els[j]
    ensures var (r', acts) := ConnectAll(r, page, els, island, payloads);
      && |acts| == |els|
      && CountOf(r', island) == CountOf(r, island) + |els|
      && forall i :: 0 <= i < |els| ==>
           (acts[i].Mount?
            && acts[i].props == (if CountOf(r, island) + i < |payloads|
                                 then Payload(payloads[CountOf(r, island) + i]) else EmptyProps))
    decreases |els|
  {
    if els != [] {
      var (r1, a) := Connect(r, page, els[0], island, false, payloads);
      ConnectMeaning(r, page, els[0], island, false, payloads);
      assert forall i :: 0 <= i < |els[1..]| ==> els[1..][i] !in r1.processed by {
        forall i | 0 <= i < |els[1..]| ensures els[1..][i] !in r1.processed {
          assert els[1..][i] == els[i + 1];
          assert els[i + 1] != els[0];
        }
      }
      ConnectAllPayloads(r1, page, els[1..], island, payloads);
      var (r2, rest) := ConnectAll(r1, page, els[1..], island, payloads);
      assert ConnectAll(r, page, els, island, payloads) == (r2, [a] + rest);
      forall i | 0 <= i < |els|
        ensures ([a] + rest)[i].Mount?
        ensures ([a] + rest)[i].props == (if CountOf(r, island) + i < |payloads|
                                          then Payload(payloads[CountOf(r, island) + i]) else EmptyProps)
      {
        if i > 0 { assert ([a] + rest)[i] == rest[i - 1]; }
      }
    }
  }

  /** The registry the loader script keeps. */
  class IslandRegistry {
    var processed: set<nat>
    var counts: map<IslandId, nat>

    function State(): Registry
      reads this
    {
      Registry(processed, counts)
    }

    constructor()
      ensures State() == Registry({}, map[])
    {
      processed, counts := {}, map[];
    }

    /** `connectedCallback()` of element `el`. */
    method ConnectedCallback(page: Page, el: nat, island: IslandId, nested: bool, payloads: seq<string>)
      returns (a: Action)
      modifies this
      ensures (State(), a) == Connect(old(State()), page, el, island, nested, payloads)
    {
      if el in processed {
        return AlreadyProcessed;
      }
      processed := processed + {el};
      var context := Context(page.url, page.pattern, page.params, page.publicData, true);
      var count := if island in counts then counts[island] else 0;
      counts := counts[island := count + 1];
      if nested {
        return NestedIsland;
      }
      var props := if count < |payloads| then Payload(payloads[count]) else EmptyProps;
      return Mount("/_/immutable/" + IdText(island) + ".js", props, context, true);
    }
  }
}
