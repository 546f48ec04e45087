/**
 * Python dictionaries as the tool uses them: insertion-ordered association
 * lists. Assigning to a key that is already present keeps that key's slot;
 * a new key goes to the end. Iteration order (`d.items()`) is list order.
 */
module Dicts {
  import opened Wrappers

  /** A dict with string keys, as every dict of the tool has. */
  type Dict<V> = seq<(string, V)>

  /** `list(d.keys())`. */
  function Keys<V>(d: Dict<V>): (ks: seq<string>)
    ensures |ks| == |d|
    decreases |d|
  {
    if d == [] then [] else [d[0].0] + Keys(d[1..])
  }

  /** What every Python dict satisfies: no key twice. */
  predicate UniqueKeys<V>(d: Dict<V>)
    decreases |d|
  {
    d == [] || (d[0].0 !in Keys(d[1..]) && UniqueKeys(d[1..]))
  }

  /** `d.get(k)`, with `None` for a missing key. */
  function Get<V>(d: Dict<V>, k: string): (r: Option<V>)
    ensures r.Some? <==> k in Keys(d)
    decreases |d|
  {
    if d == [] then None
    else if d[0].0 == k then Some(d[0].1)
    else
      var r := Get(d[1..], k);
      assert Keys(d) == [d[0].0] + Keys(d[1..]);
      r
  }

  /** `d[k] = v`: the value is replaced in its slot, or the pair is appended. */
  function Put<V>(d: Dict<V>, k: string, v: V): (r: Dict<V>)
    ensures Get(r, k) == Some(v)
    ensures forall j :: j != k ==> Get(r, j) == Get(d, j)
    ensures k in Keys(d) ==> Keys(r) == Keys(d)
    ensures k !in Keys(d) ==> Keys(r) == Keys(d) + [k]
    ensures UniqueKeys(d) ==> UniqueKeys(r)
    decreases |d|
  {
    if d == [] then [(k, v)]
    else if d[0].0 == k then
      var r := [(k, v)] + d[1..];
      assert r[1..] == d[1..];
      assert Keys(r) == Keys(d);
      assert forall j :: j != k ==> Get(r, j) == Get(d[1..], j) == Get(d, j);
      r
    else
      var tail := Put(d[1..], k, v);
      var r := [d[0]] + tail;
      assert r[1..] == tail;
      assert Keys(d) == [d[0].0] + Keys(d[1..]);
      assert Keys(r) == [d[0].0] + Keys(tail);
      forall j | j != k
        ensures Get(r, j) == Get(d, j)
      {
        if j != d[0].0 {
          assert Get(r, j) == Get(tail, j);
        }
      }
      assert UniqueKeys(d) ==> UniqueKeys(r) by {
        if UniqueKeys(d) {
          assert UniqueKeys(d[1..]);
          assert d[0].0 !in Keys(d[1..]);
          assert d[0].0 !in Keys(tail);
        }
      }
      r
  }

  /** Every pair after an assignment is the assigned one or was already there. */
  lemma {:induction false} PutPairs<V>(d: Dict<V>, k: string, v: V)
    ensures forall i :: 0 <= i < |Put(d, k, v)| ==> Put(d, k, v)[i] == (k, v) || Put(d, k, v)[i] in d
    decreases |d|
  {
    if d != [] && d[0].0 != k {
      PutPairs(d[1..], k, v);
      forall i | 0 <= i < |Put(d, k, v)|
        ensures Put(d, k, v)[i] == (k, v) || Put(d, k, v)[i] in d
      {
        var x := Put(d, k, v)[i];
        if i > 0 && x != (k, v) {
          assert x == Put(d[1..], k, v)[i - 1];
          var j :| 0 <= j < |d[1..]| && d[1..][j] == x;
          assert d[j + 1] == x;
        }
      }
    }
  }

  /** The keys of `es` that are neither in `ks` nor earlier in `es`, in order. */
  function NewKeys(ks: seq<string>, es: seq<string>): seq<string>
    decreases |es|
  {
    if es == [] then []
    else if es[0] in ks then NewKeys(ks, es[1..])
    else [es[0]] + NewKeys(ks + [es[0]], es[1..])
  }

  /** `d.update(e)`: every pair of `e`, in `e`'s order, assigned into `d`. */
  function Update<V>(d: Dict<V>, e: Dict<V>): Dict<V>
    decreases |e|
  {
    if e == [] then d else Update(Put(d, e[0].0, e[0].1), e[1..])
  }

  /** After `d.update(e)` the value of a key of `e` is `e`'s; every other key keeps `d`'s value. */
  lemma {:induction false} UpdateGet<V>(d: Dict<V>, e: Dict<V>, k: string)
    requires UniqueKeys(e)
    ensures Get(Update(d, e), k) == if k in Keys(e) then Get(e, k) else Get(d, k)
    decreases |e|
  {
    if e != [] {
      assert Keys(e) == [e[0].0] + Keys(e[1..]);
      assert UniqueKeys(e[1..]);
      UpdateGet(Put(d, e[0].0, e[0].1), e[1..], k);
      if k == e[0].0 {
        assert k !in Keys(e[1..]);
      }
    }
  }

  /**
   * Order and membership after `d.update(e)`: `d`'s keys keep their slots
   * and the keys new to `d` follow in `e`'s order; no key appears twice.
   */
  lemma UpdateKeys<V>(d: Dict<V>, e: Dict<V>)
    requires UniqueKeys(d)
    ensures Keys(Update(d, e)) == Keys(d) + NewKeys(Keys(d), Keys(e))
    ensures UniqueKeys(Update(d, e))
  {
    UpdateOrder(d, e);
    UpdateUnique(d, e);
  }

  lemma {:induction false} UpdateOrder<V>(d: Dict<V>, e: Dict<V>)
    ensures Keys(Update(d, e)) == Keys(d) + NewKeys(Keys(d), Keys(e))
    decreases |e|
  {
    if e != [] {
      UpdateOrder(Put(d, e[0].0, e[0].1), e[1..]);
      NewKeysStep(d, e);
    }
  }

  /** Assigning the first pair of `e` moves its key, if new, from the pending keys to the dict's. */
  lemma NewKeysStep<V>(d: Dict<V>, e: Dict<V>)
    requires e != []
    ensures Keys(d) + NewKeys(Keys(d), Keys(e))
            == Keys(Put(d, e[0].0, e[0].1)) + NewKeys(Keys(Put(d, e[0].0, e[0].1)), Keys(e[1..]))
  {
    var k := e[0].0;
    var ke := Keys(e);
    assert ke == [k] + Keys(e[1..]);
    NewKeysCons(Keys(d), Keys(Put(d, k, e[0].1)), k, Keys(e[1..]));
  }

  /** The key step of NewKeysStep, on key sequences alone. */
  lemma NewKeysCons(ks: seq<string>, ks': seq<string>, k: string, rest: seq<string>)
    requires k in ks ==> ks' == ks
    requires k !in ks ==> ks' == ks + [k]
    ensures ks + NewKeys(ks, [k] + rest) == ks' + NewKeys(ks', rest)
  {
    var ke := [k] + rest;
    assert ke[0] == k && ke[1..] == rest;
    if k !in ks {
      assert NewKeys(ks, ke) == [k] + NewKeys(ks', rest);
      assert ks' + NewKeys(ks', rest) == ks + ([k] + NewKeys(ks', rest));
    }
  }

  lemma {:induction false} UpdateUnique<V>(d: Dict<V>, e: Dict<V>)
    requires UniqueKeys(d)
    ensures UniqueKeys(Update(d, e))
    decreases |e|
  {
    if e != [] {
      UpdateUnique(Put(d, e[0].0, e[0].1), e[1..]);
    }
  }

  /** Every key of either dict is a key of the merged dict, and nothing else is. */
  lemma {:induction false} UpdateKeySet<V>(d: Dict<V>, e: Dict<V>, k: string)
    ensures k in Keys(Update(d, e)) <==> k in Keys(d) || k in Keys(e)
    decreases |e|
  {
    if e != [] {
      assert Keys(e) == [e[0].0] + Keys(e[1..]);
      UpdateKeySet(Put(d, e[0].0, e[0].1), e[1..], k);
      assert k in Keys(Put(d, e[0].0, e[0].1)) <==> k in Keys(d) || k == e[0].0 by {
        assert Get(Put(d, e[0].0, e[0].1), k).Some? <==> k in Keys(Put(d, e[0].0, e[0].1));
      }
    }
  }

  /** Assigning a key the value it already has changes nothing. */
  lemma {:induction false} PutPresent<V>(d: Dict<V>, k: string, v: V)
    requires UniqueKeys(d)
    requires Get(d, k) == Some(v)
    ensures Put(d, k, v) == d
    decreases |d|
  {
    if d != [] && d[0].0 != k {
      assert UniqueKeys(d[1..]);
      assert Get(d[1..], k) == Get(d, k);
      PutPresent(d[1..], k, v);
    }
  }

  /** Updating with pairs that `d` already holds leaves `d` as it was. */
  lemma {:induction false} UpdateWithOwn<V>(d: Dict<V>, e: Dict<V>)
    requires UniqueKeys(d)
    requires forall i :: 0 <= i < |e| ==> Get(d, e[i].0) == Some(e[i].1)
    ensures Update(d, e) == d
    decreases |e|
  {
    if e != [] {
      PutPresent(d, e[0].0, e[0].1);
      assert forall i :: 0 <= i < |e[1..]| ==> e[1..][i] == e[i + 1];
      UpdateWithOwn(d, e[1..]);
    }
  }

  /** In a dict without repeated keys, looking up the key of any pair finds that pair's value. */
  lemma {:induction false} GetOwn<V>(d: Dict<V>, i: nat)
    requires UniqueKeys(d)
    requires i < |d|
    ensures Get(d, d[i].0) == Some(d[i].1)
    decreases i
  {
    if i > 0 {
      GetOwn(d[1..], i - 1);
      KeysHas(d[1..], i - 1);
    }
  }

  lemma {:induction false} KeysHas<V>(d: Dict<V>, i: nat)
    requires i < |d|
    ensures d[i].0 in Keys(d)
    decreases i
  {
    if i > 0 {
      KeysHas(d[1..], i - 1);
    }
  }

  /** `d.update(d)` is `d`. */
  lemma UpdateSelf<V>(d: Dict<V>)
    requires UniqueKeys(d)
    ensures Update(d, d) == d
  {
    forall i | 0 <= i < |d|
      ensures Get(d, d[i].0) == Some(d[i].1)
    {
      GetOwn(d, i);
    }
    UpdateWithOwn(d, d);
  }

  /** A lookup that succeeds returns the value of a pair the dict holds. */
  lemma {:induction false} GetPair<V>(d: Dict<V>, k: string)
    requires Get(d, k).Some?
    ensures (k, Get(d, k).value) in d
    decreases |d|
  {
    if d[0].0 != k {
      GetPair(d[1..], k);
      var j :| 0 <= j < |d[1..]| && d[1..][j] == (k, Get(d, k).value);
      assert d[j + 1] == (k, Get(d, k).value);
    }
  }

  /** `d.update(e)` holds no pair that is in neither dict. */
  lemma {:induction false} UpdatePairs<V>(d: Dict<V>, e: Dict<V>)
    ensures forall i :: 0 <= i < |Update(d, e)| ==> Update(d, e)[i] in d || Update(d, e)[i] in e
    decreases |e|
  {
    if e != [] {
      var p := Put(d, e[0].0, e[0].1);
      PutPairs(d, e[0].0, e[0].1);
      UpdatePairs(p, e[1..]);
      forall i | 0 <= i < |Update(d, e)|
        ensures Update(d, e)[i] in d || Update(d, e)[i] in e
      {
        var x := Update(d, e)[i];
        assert x in p || x in e[1..];
        if x in e[1..] {
          var j :| 0 <= j < |e[1..]| && e[1..][j] == x;
          assert e[j + 1] == x;
        }
      }
    }
  }
}
