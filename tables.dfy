/** An insertion-ordered dictionary, as JavaScript's `Map`
    (and the key order of a plain object with non-numeric keys) behaves:
    setting an existing key replaces its value in place, setting a new key
    appends it, and iteration follows insertion order. The operations are
    plain definitions; what they mean is stated by the lemmas below them. */
module Tables {
  import opened Text

  type Table<K, V> = seq<(K, V)>

  function Keys<K(==), V>(t: Table<K, V>): (ks: seq<K>)
    ensures |ks| == |t|
  {
    if t == [] then [] else [t[0].0] + Keys(t[1..])
  }

  predicate HasKey<K(==), V>(t: Table<K, V>, k: K) {
    k in Keys(t)
  }

  /** No key appears twice. */
  predicate UniqueKeys<K(==), V>(t: Table<K, V>) {
    t == [] || (!HasKey(t[1..], t[0].0) && UniqueKeys(t[1..]))
  }

  /** `map.get(k)`: the value of the first entry with key `k`. */
  function Lookup<K(==), V>(t: Table<K, V>, k: K): Option<V> {
    if t == [] then None
    else if t[0].0 == k then Some(t[0].1)
    else Lookup(t[1..], k)
  }

  /** `map.set(k, v)`. */
  function Set<K(==), V>(t: Table<K, V>, k: K, v: V): Table<K, V> {
    if t == [] then [(k, v)]
    else if t[0].0 == k then [(k, v)] + t[1..]
    else [t[0]] + Set(t[1..], k, v)
  }

  /** `map.delete(k)`. */
  function Remove<K(==), V>(t: Table<K, V>, k: K): Table<K, V> {
    if t == [] then []
    else if t[0].0 == k then Remove(t[1..], k)
    else [t[0]] + Remove(t[1..], k)
  }

  /** The values in iteration order. */
  function Values<K(==), V>(t: Table<K, V>): (vs: seq<V>)
    ensures |vs| == |t|
    ensures forall i :: 0 <= i < |t| ==> vs[i] == t[i].1
  {
    seq(|t|, i requires 0 <= i < |t| => t[i].1)
  }

  lemma {:induction false} KeysIndex<K, V>(t: Table<K, V>, i: nat)
    requires i < |t|
    ensures Keys(t)[i] == t[i].0
  {
    if i > 0 {
      KeysIndex(t[1..], i - 1);
    }
  }

  /** `get` finds a value exactly for the keys present, and the value found
      is one stored under that key. */
  lemma {:induction false} LookupMeaning<K, V>(t: Table<K, V>, k: K)
    ensures Lookup(t, k).None? <==> !HasKey(t, k)
    ensures Lookup(t, k).Some? ==> exists i :: 0 <= i < |t| && t[i] == (k, Lookup(t, k).value)
  {
    if t != [] {
      assert Keys(t) == [t[0].0] + Keys(t[1..]);
      if t[0].0 != k {
        LookupMeaning(t[1..], k);
        if Lookup(t, k).Some? {
          var i :| 0 <= i < |t[1..]| && t[1..][i] == (k, Lookup(t, k).value);
          assert t[i + 1] == t[1..][i];
        }
      }
    }
  }

  /** After `set(k, v)`, `k` holds `v` and every other key is unchanged. */
  lemma {:induction false} SetLookup<K, V>(t: Table<K, V>, k: K, v: V, j: K)
    ensures Lookup(Set(t, k, v), j) == if j == k then Some(v) else Lookup(t, j)
  {
    if t != [] && t[0].0 != k {
      SetLookup(t[1..], k, v, j);
      assert ([t[0]] + Set(t[1..], k, v))[1..] == Set(t[1..], k, v);
    } else if t != [] {
      assert ([(k, v)] + t[1..])[1..] == t[1..];
    }
  }

  /** Setting keeps the key order: an existing key stays where it is, a new
      key goes last. */
  lemma {:induction false} SetKeys<K, V>(t: Table<K, V>, k: K, v: V)
    ensures Keys(Set(t, k, v)) == if HasKey(t, k) then Keys(t) else Keys(t) + [k]
  {
    if t == [] {
    } else if t[0].0 == k {
      assert Set(t, k, v) == [(k, v)] + t[1..];
      assert ([(k, v)] + t[1..])[1..] == t[1..];
      assert Keys(t) == [k] + Keys(t[1..]);
      assert Keys(Set(t, k, v)) == [k] + Keys(t[1..]);
    } else {
      var rest := Set(t[1..], k, v);
      SetKeys(t[1..], k, v);
      assert Set(t, k, v) == [t[0]] + rest;
      assert ([t[0]] + rest)[1..] == rest;
      assert Keys(Set(t, k, v)) == [t[0].0] + Keys(rest);
      assert Keys(t) == [t[0].0] + Keys(t[1..]);
      assert HasKey(t, k) == HasKey(t[1..], k);
    }
  }

  /** Setting never duplicates a key. */
  lemma {:induction false} SetUnique<K, V>(t: Table<K, V>, k: K, v: V)
    requires UniqueKeys(t)
    ensures UniqueKeys(Set(t, k, v))
  {
    if t != [] && t[0].0 != k {
      var rest := Set(t[1..], k, v);
      SetUnique(t[1..], k, v);
      SetKeys(t[1..], k, v);
      assert Set(t, k, v) == [t[0]] + rest;
      assert ([t[0]] + rest)[1..] == rest;
    } else if t != [] {
      assert Set(t, k, v) == [(k, v)] + t[1..];
      assert ([(k, v)] + t[1..])[1..] == t[1..];
    }
  }

  /** Setting a key twice is setting it to the second value. */
  lemma {:induction false} SetTwice<K, V>(t: Table<K, V>, k: K, v1: V, v2: V)
    ensures Set(Set(t, k, v1), k, v2) == Set(t, k, v2)
  {
    if t != [] && t[0].0 != k {
      SetTwice(t[1..], k, v1, v2);
      assert Set(t, k, v1) == [t[0]] + Set(t[1..], k, v1);
      assert ([t[0]] + Set(t[1..], k, v1))[1..] == Set(t[1..], k, v1);
    } else if t != [] {
      assert ([(k, v1)] + t[1..])[1..] == t[1..];
    }
  }

  /** After `delete(k)`, `k` is absent and every other key is unchanged. */
  lemma {:induction false} RemoveLookup<K, V>(t: Table<K, V>, k: K, j: K)
    ensures Lookup(Remove(t, k), j) == if j == k then None else Lookup(t, j)
  {
    if t != [] {
      RemoveLookup(t[1..], k, j);
      if t[0].0 != k {
        assert ([t[0]] + Remove(t[1..], k))[1..] == Remove(t[1..], k);
      }
    }
  }

  /** Deleting keeps the order of the other keys, and deleting an absent key
      changes nothing. */
  lemma {:induction false} RemoveKeys<K, V>(t: Table<K, V>, k: K)
    ensures !HasKey(Remove(t, k), k)
    ensures !HasKey(t, k) ==> Remove(t, k) == t
    ensures forall j :: j != k ==> (HasKey(Remove(t, k), j) <==> HasKey(t, j))
    ensures UniqueKeys(t) ==> UniqueKeys(Remove(t, k))
  {
    if t != [] {
      RemoveKeys(t[1..], k);
      assert Keys(t) == [t[0].0] + Keys(t[1..]);
      if t[0].0 != k {
        var rest := Remove(t[1..], k);
        assert ([t[0]] + rest)[1..] == rest;
        assert Keys([t[0]] + rest) == [t[0].0] + Keys(rest);
        forall j | j != k ensures HasKey(Remove(t, k), j) <==> HasKey(t, j) {
          assert HasKey(Remove(t, k), j) <==> j == t[0].0 || HasKey(rest, j);
        }
        if !HasKey(t, k) {
          assert [t[0]] + t[1..] == t;
        }
      }
    }
  }

  /** Setting each pair in turn, as `new Map(pairs)` or a run of `set`
      calls does. */
  function SetAll<K(==), V>(t: Table<K, V>, ps: seq<(K, V)>): Table<K, V>
    decreases |ps|
  {
    if ps == [] then t
    else Set(SetAll(t, ps[..|ps| - 1]), ps[|ps| - 1].0, ps[|ps| - 1].1)
  }

  /** Setting one more pair of `ps`. */
  lemma SetAllNext<K, V>(t: Table<K, V>, ps: seq<(K, V)>, i: nat)
    requires i < |ps|
    ensures SetAll(t, ps[..i + 1]) == Set(SetAll(t, ps[..i]), ps[i].0, ps[i].1)
  {
    assert ps[..i + 1][..i] == ps[..i];
  }

  /** The value of the last pair with key `k`. */
  function LastValue<K(==), V>(ps: seq<(K, V)>, k: K): Option<V>
    decreases |ps|
  {
    if ps == [] then None
    else if ps[|ps| - 1].0 == k then Some(ps[|ps| - 1].1)
    else LastValue(ps[..|ps| - 1], k)
  }

  /** After a run of `set` calls, every key holds the value it was last set
      to, and a key never set keeps its old value. */
  lemma {:induction false} SetAllLookup<K, V>(t: Table<K, V>, ps: seq<(K, V)>, k: K)
    ensures Lookup(SetAll(t, ps), k)
      == if LastValue(ps, k).Some? then LastValue(ps, k) else Lookup(t, k)
    decreases |ps|
  {
    if ps != [] {
      SetAllLookup(t, ps[..|ps| - 1], k);
      SetLookup(SetAll(t, ps[..|ps| - 1]), ps[|ps| - 1].0, ps[|ps| - 1].1, k);
    }
  }

  lemma {:induction false} SetAllAppend<K, V>(t: Table<K, V>, ps: seq<(K, V)>, qs: seq<(K, V)>)
    ensures SetAll(t, ps + qs) == SetAll(SetAll(t, ps), qs)
    decreases |qs|
  {
    if qs == [] {
      assert ps + qs == ps;
    } else {
      var qs' := qs[..|qs| - 1];
      assert (ps + qs)[..|ps + qs| - 1] == ps + qs';
      assert (ps + qs)[|ps + qs| - 1] == qs[|qs| - 1];
      SetAllAppend(t, ps, qs');
    }
  }

  /** Setting keeps keys unique. */
  lemma {:induction false} SetAllUnique<K, V>(t: Table<K, V>, ps: seq<(K, V)>)
    requires UniqueKeys(t)
    ensures UniqueKeys(SetAll(t, ps))
    decreases |ps|
  {
    if ps != [] {
      SetAllUnique(t, ps[..|ps| - 1]);
      SetUnique(SetAll(t, ps[..|ps| - 1]), ps[|ps| - 1].0, ps[|ps| - 1].1);
    }
  }

  /** The keys, position by position. */
  lemma KeysAt<K, V>(t: Table<K, V>)
    ensures forall i :: 0 <= i < |t| ==> Keys(t)[i] == t[i].0
  {
    forall i | 0 <= i < |t| ensures Keys(t)[i] == t[i].0 {
      KeysIndex(t, i);
    }
  }

  /** A key is present exactly when some entry carries it. */
  lemma HasKeyAt<K, V>(t: Table<K, V>, k: K)
    ensures HasKey(t, k) <==> exists i :: 0 <= i < |t| && t[i].0 == k
  {
    KeysAt(t);
    if HasKey(t, k) {
      var i :| 0 <= i < |Keys(t)| && Keys(t)[i] == k;
      assert t[i].0 == k;
    }
  }

  /** `LastValue` finds a value exactly for the keys some pair carries. */
  lemma {:induction false} LastValueMeaning<K, V>(ps: seq<(K, V)>, k: K)
    ensures LastValue(ps, k).Some? <==> exists i :: 0 <= i < |ps| && ps[i].0 == k
    decreases |ps|
  {
    if ps != [] {
      var init := ps[..|ps| - 1];
      LastValueMeaning(init, k);
      if ps[|ps| - 1].0 != k {
        if exists i :: 0 <= i < |ps| && ps[i].0 == k {
          var i :| 0 <= i < |ps| && ps[i].0 == k;
          assert init[i] == ps[i];
        }
      }
    }
  }

  /** The keys after a run of `set` calls: the old ones and the ones set. */
  lemma SetAllKeys<K, V>(t: Table<K, V>, ps: seq<(K, V)>, k: K)
    ensures HasKey(SetAll(t, ps), k) <==> HasKey(t, k) || exists i :: 0 <= i < |ps| && ps[i].0 == k
  {
    SetAllLookup(t, ps, k);
    LookupMeaning(SetAll(t, ps), k);
    LookupMeaning(t, k);
    LastValueMeaning(ps, k);
  }

  /** Setting pairs whose keys are all different into an empty table keeps
      them in order. */
  lemma {:induction false} SetAllFresh<K, V>(ps: seq<(K, V)>)
    requires forall i, j :: 0 <= i < j < |ps| ==> ps[i].0 != ps[j].0
    ensures Keys(SetAll([], ps)) == Keys(ps)
    decreases |ps|
  {
    if ps != [] {
      var init := ps[..|ps| - 1];
      var last := ps[|ps| - 1];
      SetAllFresh(init);
      SetAllKeys([], init, last.0);
      SetKeys(SetAll([], init), last.0, last.1);
      KeysAt(ps);
      KeysAt(init);
      assert Keys(ps) == Keys(init) + [last.0];
    }
  }

  /** In a table without repeated keys, no two positions share a key. */
  lemma {:induction false} UniqueKeysDistinct<K, V>(t: Table<K, V>)
    requires UniqueKeys(t)
    ensures forall a, b :: 0 <= a < b < |t| ==> t[a].0 != t[b].0
  {
    if t != [] {
      var rest := t[1..];
      UniqueKeysDistinct(rest);
      KeysAt(rest);
      forall a, b | 0 <= a < b < |t| ensures t[a].0 != t[b].0 {
        assert t[b] == rest[b - 1];
        if a > 0 {
          assert t[a] == rest[a - 1];
        } else {
          assert Keys(rest)[b - 1] == t[b].0;
        }
      }
    }
  }

  /** Every entry's key is `f` of its value. */
  predicate KeyedBy<K(==), V>(t: Table<K, V>, f: V -> K) {
    forall i | 0 <= i < |t| :: t[i].0 == f(t[i].1)
  }

  lemma {:induction false} SetKeyedBy<K, V>(t: Table<K, V>, f: V -> K, v: V)
    requires KeyedBy(t, f)
    ensures KeyedBy(Set(t, f(v), v), f)
  {
    if t != [] && t[0].0 != f(v) {
      SetKeyedBy(t[1..], f, v);
      var rest := Set(t[1..], f(v), v);
      forall i | 0 <= i < |[t[0]] + rest| ensures ([t[0]] + rest)[i].0 == f(([t[0]] + rest)[i].1) {
        if i > 0 { assert ([t[0]] + rest)[i] == rest[i - 1]; }
      }
    } else if t != [] {
      forall i | 0 <= i < |t| ensures Set(t, f(v), v)[i].0 == f(Set(t, f(v), v)[i].1) {
        if i > 0 { assert Set(t, f(v), v)[i] == t[i]; }
      }
    }
  }

  /** Setting pairs keyed by `f` keeps a table keyed by `f`. */
  lemma {:induction false} SetAllKeyedBy<K, V>(t: Table<K, V>, ps: seq<(K, V)>, f: V -> K)
    requires KeyedBy(t, f) && KeyedBy(ps, f)
    ensures KeyedBy(SetAll(t, ps), f)
    decreases |ps|
  {
    if ps != [] {
      var init := ps[..|ps| - 1];
      assert KeyedBy(init, f) by {
        forall i | 0 <= i < |init| ensures init[i].0 == f(init[i].1) {
          assert init[i] == ps[i];
        }
      }
      SetAllKeyedBy(t, init, f);
      SetKeyedBy(SetAll(t, init), f, ps[|ps| - 1].1);
    }
  }
}
