/**
 `std::map<std::string, V>` as an association list kept in ascending key
 order, so that walking the list is walking the map in iteration order.
 */
module SortedMap {
  import opened Wrappers
  import opened Strings

  type Assoc<V> = seq<(string, V)>

  /** Keys strictly ascend, hence are pairwise distinct. */
  predicate Ascending<V>(m: Assoc<V>) {
    forall i, j :: 0 <= i < j < |m| ==> Less(m[i].0, m[j].0)
  }

  function Keys<V>(m: Assoc<V>): set<string> {
    if m == [] then {} else {m[0].0} + Keys(m[1..])
  }

  /** `find`: the value stored under `k`, if any. */
  function Get<V>(m: Assoc<V>, k: string): Option<V> {
    if m == [] then None
    else if m[0].0 == k then Some(m[0].1)
    else Get(m[1..], k)
  }

  /** `m[k] = v`: overwrite the value under `k`, or insert it in key order. */
  function Put<V>(m: Assoc<V>, k: string, v: V): Assoc<V> {
    if m == [] then [(k, v)]
    else if m[0].0 == k then [(k, v)] + m[1..]
    else if Less(k, m[0].0) then [(k, v)] + m
    else [m[0]] + Put(m[1..], k, v)
  }

  /** `emplace`: insert only when `k` is absent; an existing entry is kept. */
  function Emplace<V>(m: Assoc<V>, k: string, v: V): Assoc<V> {
    if Get(m, k).Some? then m else Put(m, k, v)
  }

  lemma {:induction false} KeysGet<V>(m: Assoc<V>, k: string)
    ensures k in Keys(m) <==> Get(m, k).Some?
  {
    if m != [] && m[0].0 != k {
      KeysGet(m[1..], k);
    }
  }

  lemma {:induction false} KeyAt<V>(m: Assoc<V>, i: nat)
    requires i < |m|
    ensures m[i].0 in Keys(m)
  {
    if i > 0 {
      KeyAt(m[1..], i - 1);
    }
  }

  /** Every key listed in `m` is one of the entries' keys. */
  lemma {:induction false} KeysListed<V>(m: Assoc<V>, k: string)
    requires k in Keys(m)
    ensures exists i :: 0 <= i < |m| && m[i].0 == k
  {
    if m[0].0 != k {
      KeysListed(m[1..], k);
      var i :| 0 <= i < |m[1..]| && m[1..][i].0 == k;
      assert m[i + 1].0 == k;
    }
  }

  /** In an ascending list the head key is below every later key. */
  lemma HeadBelow<V>(m: Assoc<V>, k: string)
    requires Ascending(m) && m != [] && k in Keys(m[1..])
    ensures Less(m[0].0, k)
  {
    KeysListed(m[1..], k);
    var i :| 0 <= i < |m[1..]| && m[1..][i].0 == k;
    assert m[i + 1].0 == k;
  }

  lemma AscendingCons<V>(e: (string, V), m: Assoc<V>)
    requires Ascending(m)
    requires forall k :: k in Keys(m) ==> Less(e.0, k)
    ensures Ascending([e] + m)
  {
    var r := [e] + m;
    forall i, j | 0 <= i < j < |r|
      ensures Less(r[i].0, r[j].0)
    {
      if i == 0 {
        KeyAt(m, j - 1);
      }
    }
  }

  /** In an ascending list `Get` finds the entry at its own position. */
  lemma {:induction false} GetAt<V>(m: Assoc<V>, i: nat)
    requires Ascending(m) && i < |m|
    ensures Get(m, m[i].0) == Some(m[i].1)
  {
    if i > 0 {
      assert Less(m[0].0, m[i].0);
      LessIrreflexive(m[0].0);
      GetAt(m[1..], i - 1);
    }
  }

  /**
   `m[k] = v` keeps the list ascending, adds exactly `k` to the keys, stores
   `v` under `k` and leaves every other key's value as it was.
   */
  lemma {:induction false} PutSpec<V>(m: Assoc<V>, k: string, v: V)
    requires Ascending(m)
    ensures Ascending(Put(m, k, v))
    ensures Keys(Put(m, k, v)) == Keys(m) + {k}
    ensures Get(Put(m, k, v), k) == Some(v)
    ensures forall k' :: k' != k ==> Get(Put(m, k, v), k') == Get(m, k')
  {
    var r := Put(m, k, v);
    if m == [] {
    } else if m[0].0 == k {
      assert r[1..] == m[1..];
      forall i, j | 0 <= i < j < |r|
        ensures Less(r[i].0, r[j].0)
      {
        assert r[i].0 == m[i].0;
      }
    } else if Less(k, m[0].0) {
      assert r[1..] == m;
      forall k' | k' in Keys(m)
        ensures Less(k, k')
      {
        if k' != m[0].0 {
          assert k' in Keys(m[1..]);
          HeadBelow(m, k');
          LessTransitive(k, m[0].0, k');
        }
      }
      AscendingCons((k, v), m);
    } else {
      LessTotal(k, m[0].0);
      var rest := Put(m[1..], k, v);
      PutSpec(m[1..], k, v);
      assert r == [m[0]] + rest && r[1..] == rest;
      forall k' | k' in Keys(rest)
        ensures Less(m[0].0, k')
      {
        if k' != k {
          HeadBelow(m, k');
        }
      }
      AscendingCons(m[0], rest);
    }
  }

  /**
   `emplace` keeps the list ascending, adds `k` to the keys, keeps a value
   already stored under `k` and otherwise stores `v`; other keys are untouched.
   */
  lemma EmplaceSpec<V>(m: Assoc<V>, k: string, v: V)
    requires Ascending(m)
    ensures Ascending(Emplace(m, k, v))
    ensures Keys(Emplace(m, k, v)) == Keys(m) + {k}
    ensures Get(Emplace(m, k, v), k) == if Get(m, k).Some? then Get(m, k) else Some(v)
    ensures forall k' :: k' != k ==> Get(Emplace(m, k, v), k') == Get(m, k')
  {
    KeysGet(m, k);
    PutSpec(m, k, v);
  }
}
