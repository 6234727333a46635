/**
 Selecting path groups before chaining: groups with too few paths are
 dropped, the remaining ones are bucketed by start node in a `std::map`, one
 group per start node survives (most paths, earliest on ties), and the
 survivors are arranged by descending path count.
 */
module Groups {
  import opened Wrappers
  import opened Strings
  import opened SortedMap
  import opened Seqs
  import opened Nodes

  function StartName(g: Group): string { g.startName }

  function NumPaths(g: Group): int { g.numPaths }

  /** The path count as the `double` the selection loop compares it as. */
  function PathCount(g: Group): real { g.numPaths as real }

  /** Groups with at least `minPaths` paths, in their original order. */
  function Discard(gs: seq<Group>, minPaths: int): seq<Group> {
    AtLeast(gs, NumPaths, minPaths)
  }

  /** A group survives exactly when it has at least `minPaths` paths, and survivors keep their order. */
  lemma DiscardSpec(gs: seq<Group>, minPaths: int)
    ensures forall g :: g in Discard(gs, minPaths) <==> g in gs && g.numPaths >= minPaths
    ensures forall a, b :: gs == a + b ==> Discard(gs, minPaths) == Discard(a, minPaths) + Discard(b, minPaths)
  {
    forall g
      ensures g in Discard(gs, minPaths) <==> g in gs && g.numPaths >= minPaths
    {
      AtLeastMembers(gs, NumPaths, minPaths, g);
    }
    forall a, b | gs == a + b
      ensures Discard(gs, minPaths) == Discard(a, minPaths) + Discard(b, minPaths)
    {
      AtLeastAppend(a, b, NumPaths, minPaths);
    }
  }

  /** Groups starting at `s`, in their original order. */
  function SameStart(gs: seq<Group>, s: string): seq<Group> {
    WithKey(gs, StartName, s)
  }

  function StartNames(gs: seq<Group>): set<string> {
    set g | g in gs :: g.startName
  }

  /** `m[key(x)]` gets `x` appended, or becomes `[x]`. */
  function Bucket<T>(m: Assoc<seq<T>>, x: T, key: T -> string): Assoc<seq<T>> {
    Put(m, key(x), Get(m, key(x)).GetOr([]) + [x])
  }

  /** Bucketing every element by its key, in order. */
  function BucketAll<T>(m: Assoc<seq<T>>, xs: seq<T>, key: T -> string): Assoc<seq<T>>
    decreases |xs|
  {
    if xs == [] then m else BucketAll(Bucket(m, xs[0], key), xs[1..], key)
  }

  /**
   After bucketing, the bucket of `k` holds what it held before followed by
   the elements with key `k`, in order; a key with no elements stays absent.
   */
  lemma {:induction false} BucketAllGet<T>(m: Assoc<seq<T>>, xs: seq<T>, key: T -> string, k: string)
    requires Ascending(m)
    ensures Ascending(BucketAll(m, xs, key))
    ensures Get(BucketAll(m, xs, key), k)
         == if Get(m, k).None? && WithKey(xs, key, k) == [] then None
            else Some(Get(m, k).GetOr([]) + WithKey(xs, key, k))
    decreases |xs|
  {
    if xs != [] {
      var x := xs[0];
      var m1 := Bucket(m, x, key);
      PutSpec(m, key(x), Get(m, key(x)).GetOr([]) + [x]);
      BucketAllGet(m1, xs[1..], key, k);
      if key(x) == k {
        assert WithKey(xs, key, k) == [x] + WithKey(xs[1..], key, k);
        assert Get(m, k).GetOr([]) + [x] + WithKey(xs[1..], key, k)
            == Get(m, k).GetOr([]) + WithKey(xs, key, k);
      } else {
        assert WithKey(xs, key, k) == WithKey(xs[1..], key, k);
      }
    } else if Get(m, k).Some? {
      assert Get(m, k).GetOr([]) + WithKey(xs, key, k) == Get(m, k).value;
    }
  }

  lemma {:induction false} BucketAllKeys<T>(m: Assoc<seq<T>>, xs: seq<T>, key: T -> string)
    requires Ascending(m)
    ensures Keys(BucketAll(m, xs, key)) == Keys(m) + (set x | x in xs :: key(x))
    decreases |xs|
  {
    if xs != [] {
      PutSpec(m, key(xs[0]), Get(m, key(xs[0])).GetOr([]) + [xs[0]]);
      BucketAllKeys(Bucket(m, xs[0], key), xs[1..], key);
      assert (set x | x in xs :: key(x)) == {key(xs[0])} + (set x | x in xs[1..] :: key(x)) by {
        assert xs == [xs[0]] + xs[1..];
      }
    }
  }

  /** `mGroups`: the groups bucketed by start node name, buckets in key order. */
  function ByStart(gs: seq<Group>): Assoc<seq<Group>> {
    BucketAll([], gs, StartName)
  }

  /** Every bucket is the non-empty list of groups with that start, in order. */
  lemma ByStartBuckets(gs: seq<Group>)
    ensures Ascending(ByStart(gs))
    ensures Keys(ByStart(gs)) == StartNames(gs)
    ensures forall i :: 0 <= i < |ByStart(gs)| ==>
      ByStart(gs)[i].1 == SameStart(gs, ByStart(gs)[i].0) && ByStart(gs)[i].1 != []
  {
    var m := ByStart(gs);
    BucketAllKeys([], gs, StartName);
    BucketAllGet([], gs, StartName, "");
    forall i | 0 <= i < |m|
      ensures m[i].1 == SameStart(gs, m[i].0) && m[i].1 != []
    {
      BucketAllGet([], gs, StartName, m[i].0);
      GetAt(m, i);
    }
  }

  /** The first best element of every bucket, in key order. */
  function Bests<T>(m: Assoc<seq<T>>, score: T -> real): seq<T>
    requires forall i :: 0 <= i < |m| ==> m[i].1 != []
  {
    if m == [] then []
    else [m[0].1[FirstMax(m[0].1, score)]] + Bests(m[1..], score)
  }

  lemma {:induction false} BestsAt<T>(m: Assoc<seq<T>>, score: T -> real, i: nat)
    requires forall i :: 0 <= i < |m| ==> m[i].1 != []
    ensures |Bests(m, score)| == |m|
    ensures i < |m| ==> Bests(m, score)[i] == m[i].1[FirstMax(m[i].1, score)]
  {
    if m != [] {
      BestsAt(m[1..], score, if i == 0 then 0 else i - 1);
    }
  }

  /** For each start node only the group with the most paths is kept, buckets in key order. */
  function BestPerStart(gs: seq<Group>): seq<Group> {
    ByStartBuckets(gs);
    Bests(ByStart(gs), PathCount)
  }

  /** `g` is the first group of `grp` with the most paths. */
  predicate FirstBest(g: Group, grp: seq<Group>) {
    exists b :: 0 <= b < |grp| && grp[b] == g && IsFirstMax(grp, PathCount, b)
  }

  lemma BestPerStartAt(gs: seq<Group>, i: nat)
    ensures |BestPerStart(gs)| == |ByStart(gs)|
    ensures i < |ByStart(gs)| ==> BestPerStart(gs)[i].startName == ByStart(gs)[i].0
    ensures i < |ByStart(gs)| ==> FirstBest(BestPerStart(gs)[i], SameStart(gs, ByStart(gs)[i].0))
  {
    var m := ByStart(gs);
    ByStartBuckets(gs);
    BestsAt(m, PathCount, i);
    if i < |m| {
      var b := FirstMax(m[i].1, PathCount);
      WithKeyMembers(gs, StartName, m[i].0, m[i].1[b]);
      FirstMaxSpec(m[i].1, PathCount);
    }
  }

  /** The survivors' start names ascend, so no start name survives twice. */
  lemma BestPerStartAscending(gs: seq<Group>)
    ensures var r := BestPerStart(gs);
      forall i, j :: 0 <= i < j < |r| ==> Less(r[i].startName, r[j].startName)
  {
    var r := BestPerStart(gs);
    ByStartBuckets(gs);
    forall i, j | 0 <= i < j < |r|
      ensures Less(r[i].startName, r[j].startName)
    {
      BestPerStartAt(gs, i);
      BestPerStartAt(gs, j);
    }
  }

  /** Every start name of the input has a survivor, and no other name does. */
  lemma BestPerStartNames(gs: seq<Group>)
    ensures StartNames(BestPerStart(gs)) == StartNames(gs)
  {
    var m := ByStart(gs);
    var r := BestPerStart(gs);
    ByStartBuckets(gs);
    forall s
      ensures s in StartNames(r) <==> s in StartNames(gs)
    {
      if s in StartNames(gs) {
        KeysListed(m, s);
        var i :| 0 <= i < |m| && m[i].0 == s;
        BestPerStartAt(gs, i);
        assert r[i] in r;
      }
      if s in StartNames(r) {
        var g :| g in r && g.startName == s;
        var i :| 0 <= i < |r| && r[i] == g;
        BestPerStartAt(gs, i);
        KeyAt(m, i);
      }
    }
  }

  /** Each survivor is the first group with the most paths among those sharing its start. */
  lemma BestPerStartBest(gs: seq<Group>)
    ensures var r := BestPerStart(gs);
      forall i :: 0 <= i < |r| ==> FirstBest(r[i], SameStart(gs, r[i].startName))
  {
    var r := BestPerStart(gs);
    forall i | 0 <= i < |r|
      ensures FirstBest(r[i], SameStart(gs, r[i].startName))
    {
      BestPerStartAt(gs, i);
    }
  }

  /**
   Exactly one group survives per distinct start node name, in ascending
   name order: among the groups with that start, the first one with the
   most paths.
   */
  lemma BestPerStartSpec(gs: seq<Group>)
    ensures var r := BestPerStart(gs);
      && (forall i, j :: 0 <= i < j < |r| ==> Less(r[i].startName, r[j].startName))
      && StartNames(r) == StartNames(gs)
      && (forall i :: 0 <= i < |r| ==> FirstBest(r[i], SameStart(gs, r[i].startName)))
  {
    BestPerStartAscending(gs);
    BestPerStartNames(gs);
    BestPerStartBest(gs);
  }

  /** Every survivor is one of the input groups. */
  lemma BestPerStartFrom(gs: seq<Group>, g: Group)
    requires g in BestPerStart(gs)
    ensures g in gs
  {
    var r := BestPerStart(gs);
    var i :| 0 <= i < |r| && r[i] == g;
    BestPerStartAt(gs, i);
    var grp := SameStart(gs, ByStart(gs)[i].0);
    var b :| 0 <= b < |grp| && grp[b] == g && IsFirstMax(grp, PathCount, b);
    WithKeyMembers(gs, StartName, ByStart(gs)[i].0, g);
  }

  /**
   What `std::sort` with the "more paths first" comparator may produce: a
   permutation in non-increasing path count; the order among equal counts is
   left open because the sort is not stable.
   */
  predicate Arrangement(a: seq<Group>, gs: seq<Group>) {
    multiset(a) == multiset(gs) && Descending(a, NumPaths)
  }

  /** An arrangement always exists: insertion sort produces one. */
  lemma ArrangementExists(gs: seq<Group>)
    ensures Arrangement(SortDesc(gs, NumPaths), gs)
  {
    SortDescSpec(gs, NumPaths);
  }
}
