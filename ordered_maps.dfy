/**
 * Python's `OrderedDict`, as the corpus builder uses it: a sequence of key/value
 * pairs in first-insertion order. Assigning to a key that is already present
 * replaces its value and keeps its position; a new key goes to the end.
 */
module OrderedMaps {
  import opened Wrappers

  type OrderedMap<V> = seq<(string, V)>

  /** The keys, in order. Also used on any list of pairs. */
  function Keys<V>(m: seq<(string, V)>): (ks: seq<string>)
    ensures |ks| == |m|
    ensures forall i :: 0 <= i < |m| ==> ks[i] == m[i].0
  {
    if m == [] then [] else [m[0].0] + Keys(m[1..])
  }

  /** No key is listed twice. */
  predicate Distinct(ks: seq<string>) {
    forall i, j :: 0 <= i < j < |ks| ==> ks[i] != ks[j]
  }

  /** `d.get(k)`: the value stored under `k`, if any. */
  function Get<V>(m: OrderedMap<V>, k: string): (r: Option<V>)
    ensures r.None? <==> k !in Keys(m)
  {
    if m == [] then None
    else if m[0].0 == k then Some(m[0].1)
    else Get(m[1..], k)
  }

  /** A value found under `k` is the value of a pair of `m` with key `k`. */
  lemma {:induction false} GetFound<V>(m: OrderedMap<V>, k: string)
    requires Get(m, k).Some?
    ensures exists i :: 0 <= i < |m| && m[i] == (k, Get(m, k).value)
  {
    if m[0].0 != k {
      GetFound(m[1..], k);
      var i :| 0 <= i < |m[1..]| && m[1..][i] == (k, Get(m, k).value);
      assert m[i + 1] == m[1..][i];
    } else {
      assert m[0] == (k, Get(m, k).value);
    }
  }

  /** `d[k] = v`. */
  function Put<V>(m: OrderedMap<V>, k: string, v: V): (r: OrderedMap<V>)
    ensures Keys(r) == if k in Keys(m) then Keys(m) else Keys(m) + [k]
    ensures Get(r, k) == Some(v)
    ensures forall k' :: k' != k ==> Get(r, k') == Get(m, k')
  {
    if m == [] then [(k, v)]
    else if m[0].0 == k then [(k, v)] + m[1..]
    else
      var r := [m[0]] + Put(m[1..], k, v);
      assert r[1..] == Put(m[1..], k, v);
      assert Keys(m) == [m[0].0] + Keys(m[1..]);
      r
  }

  /** Assigning twice to the same key is assigning once, with the second value. */
  lemma {:induction false} PutPut<V>(m: OrderedMap<V>, k: string, v1: V, v2: V)
    ensures Put(Put(m, k, v1), k, v2) == Put(m, k, v2)
  {
    if m != [] && m[0].0 != k {
      PutPut(m[1..], k, v1, v2);
      assert Put(m, k, v1)[1..] == Put(m[1..], k, v1);
    }
  }

  /** Assigning the pairs of `ps` one after the other to an empty `OrderedDict`. */
  function FromPairs<V>(ps: seq<(string, V)>): (m: OrderedMap<V>)
    decreases |ps|
  {
    if ps == [] then [] else Put(FromPairs(ps[..|ps| - 1]), ps[|ps| - 1].0, ps[|ps| - 1].1)
  }

  /** The list `ks` with every repeat after the first occurrence dropped. */
  function Dedup(ks: seq<string>): (r: seq<string>)
    decreases |ks|
  {
    if ks == [] then []
    else
      var d := Dedup(ks[..|ks| - 1]);
      if ks[|ks| - 1] in d then d else d + [ks[|ks| - 1]]
  }

  /** `Dedup` keeps every key once and invents none. */
  lemma {:induction false} DedupFacts(ks: seq<string>)
    ensures Distinct(Dedup(ks))
    ensures forall k :: k in Dedup(ks) <==> k in ks
    decreases |ks|
  {
    if ks != [] {
      var init := ks[..|ks| - 1];
      DedupFacts(init);
      assert ks == init + [ks[|ks| - 1]];
    }
  }

  /** The value of the last pair of `ps` whose key is `k`. */
  function LastValue<V>(ps: seq<(string, V)>, k: string): (v: Option<V>)
    decreases |ps|
  {
    if ps == [] then None
    else if ps[|ps| - 1].0 == k then Some(ps[|ps| - 1].1)
    else LastValue(ps[..|ps| - 1], k)
  }

  /** No pair after index `i` has key `k`. */
  predicate LastWith<V>(ps: seq<(string, V)>, k: string, i: nat) {
    forall j :: i < j < |ps| ==> ps[j].0 != k
  }

  /** The value `LastValue` finds belongs to a pair with no later pair of the same key. */
  lemma {:induction false} LastValueIndex<V>(ps: seq<(string, V)>, k: string)
    requires LastValue(ps, k).Some?
    ensures exists i :: 0 <= i < |ps| && ps[i] == (k, LastValue(ps, k).value) && LastWith(ps, k, i)
    decreases |ps|
  {
    var n := |ps| - 1;
    if ps[n].0 != k {
      LastValueIndex(ps[..n], k);
      var i :| 0 <= i < n && ps[..n][i] == (k, LastValue(ps, k).value) && LastWith(ps[..n], k, i);
      assert ps[i] == ps[..n][i];
      assert forall j :: i < j < |ps| ==> ps[j].0 != k by {
        forall j | i < j < |ps| ensures ps[j].0 != k {
          if j < n { assert ps[j] == ps[..n][j]; }
        }
      }
    } else {
      assert ps[n] == (k, LastValue(ps, k).value);
    }
  }

  /** Conversely, a pair with no later pair of the same key holds the last value. */
  lemma {:induction false} LastValueAt<V>(ps: seq<(string, V)>, i: nat)
    requires i < |ps| && LastWith(ps, ps[i].0, i)
    ensures LastValue(ps, ps[i].0) == Some(ps[i].1)
    decreases |ps|
  {
    var n := |ps| - 1;
    if i < n {
      assert ps[..n][i] == ps[i];
      assert LastWith(ps[..n], ps[i].0, i);
      LastValueAt(ps[..n], i);
    }
  }

  /** The keys of the map built from `ps` are the keys of `ps` in first-occurrence order. */
  lemma {:induction false} FromPairsKeys<V>(ps: seq<(string, V)>)
    ensures Keys(FromPairs(ps)) == Dedup(Keys(ps))
    decreases |ps|
  {
    if ps != [] {
      var init := ps[..|ps| - 1];
      FromPairsKeys(init);
      assert Keys(ps)[..|ps| - 1] == Keys(init);
    }
  }

  /** Every key of the map built from `ps` holds the value of its last pair: later
      assignments win. */
  lemma {:induction false} FromPairsGet<V>(ps: seq<(string, V)>, k: string)
    ensures Get(FromPairs(ps), k) == LastValue(ps, k)
    decreases |ps|
  {
    if ps != [] {
      FromPairsGet(ps[..|ps| - 1], k);
    }
  }

  /** A map built by assignments never lists a key twice. */
  lemma {:induction false} FromPairsDistinct<V>(ps: seq<(string, V)>)
    ensures Distinct(Keys(FromPairs(ps)))
  {
    FromPairsKeys(ps);
    DedupFacts(Keys(ps));
  }
}
