/**
 Generic list operations the scaffolder's loops are built from: order-keeping
 filters, the first-maximum scan and sorting into non-increasing order.
 */
module Seqs {

  /** Elements whose `score` is at least `min`, in order. */
  function AtLeast<T>(xs: seq<T>, score: T -> int, min: int): seq<T> {
    if xs == [] then []
    else (if score(xs[0]) < min then [] else [xs[0]]) + AtLeast(xs[1..], score, min)
  }

  lemma {:induction false} AtLeastMembers<T>(xs: seq<T>, score: T -> int, min: int, x: T)
    ensures x in AtLeast(xs, score, min) <==> x in xs && score(x) >= min
  {
    if xs != [] {
      AtLeastMembers(xs[1..], score, min, x);
      assert xs == [xs[0]] + xs[1..];
    }
  }

  /** Filtering works piecewise, so the kept elements keep their relative order. */
  lemma {:induction false} AtLeastAppend<T>(a: seq<T>, b: seq<T>, score: T -> int, min: int)
    ensures AtLeast(a + b, score, min) == AtLeast(a, score, min) + AtLeast(b, score, min)
  {
    if a == [] {
      assert a + b == b;
    } else {
      var head := if score(a[0]) < min then [] else [a[0]];
      AtLeastAppend(a[1..], b, score, min);
      calc {
        AtLeast(a + b, score, min);
        { assert (a + b)[0] == a[0] && (a + b)[1..] == a[1..] + b; }
        head + AtLeast(a[1..] + b, score, min);
        head + (AtLeast(a[1..], score, min) + AtLeast(b, score, min));
        (head + AtLeast(a[1..], score, min)) + AtLeast(b, score, min);
      }
    }
  }

  /** Elements whose `key` is `k`, in order. */
  function WithKey<T, K(==)>(xs: seq<T>, key: T -> K, k: K): seq<T> {
    if xs == [] then []
    else (if key(xs[0]) == k then [xs[0]] else []) + WithKey(xs[1..], key, k)
  }

  lemma {:induction false} WithKeyMembers<T, K>(xs: seq<T>, key: T -> K, k: K, x: T)
    ensures x in WithKey(xs, key, k) <==> x in xs && key(x) == k
  {
    if xs != [] {
      WithKeyMembers(xs[1..], key, k, x);
      assert xs == [xs[0]] + xs[1..];
    }
  }

  lemma {:induction false} WithKeyEmpty<T, K>(xs: seq<T>, key: T -> K, k: K)
    ensures WithKey(xs, key, k) == [] <==> forall x :: x in xs ==> key(x) != k
  {
    if xs != [] {
      WithKeyEmpty(xs[1..], key, k);
      assert xs == [xs[0]] + xs[1..];
    }
  }

  /**
   Index of the first element with the highest score: the running-best loop
   that replaces its candidate only on a strictly higher score.
   */
  function FirstMax<T>(xs: seq<T>, score: T -> real): (b: nat)
    requires xs != []
    ensures b < |xs|
  {
    MaxFrom(xs, score, 1, 0)
  }

  function MaxFrom<T>(xs: seq<T>, score: T -> real, i: nat, best: nat): (b: nat)
    requires best < i <= |xs|
    ensures b < |xs|
    decreases |xs| - i
  {
    if i == |xs| then best
    else MaxFrom(xs, score, i + 1, if score(xs[i]) > score(xs[best]) then i else best)
  }

  /** `b` holds a highest score and everything before it scores strictly lower. */
  predicate IsFirstMax<T>(xs: seq<T>, score: T -> real, b: nat) {
    b < |xs|
    && (forall j :: 0 <= j < |xs| ==> score(xs[j]) <= score(xs[b]))
    && (forall j :: 0 <= j < b ==> score(xs[j]) < score(xs[b]))
  }

  lemma {:induction false} MaxFromIsFirstMax<T>(xs: seq<T>, score: T -> real, i: nat, best: nat)
    requires best < i <= |xs|
    requires forall j :: 0 <= j < i ==> score(xs[j]) <= score(xs[best])
    requires forall j :: 0 <= j < best ==> score(xs[j]) < score(xs[best])
    ensures IsFirstMax(xs, score, MaxFrom(xs, score, i, best))
    decreases |xs| - i
  {
    if i < |xs| {
      MaxFromIsFirstMax(xs, score, i + 1, if score(xs[i]) > score(xs[best]) then i else best);
    }
  }

  /** The running-best loop finds the first element with the highest score. */
  lemma FirstMaxSpec<T>(xs: seq<T>, score: T -> real)
    requires xs != []
    ensures IsFirstMax(xs, score, FirstMax(xs, score))
  {
    MaxFromIsFirstMax(xs, score, 1, 0);
  }

  /** Non-increasing score. */
  predicate Descending<T>(xs: seq<T>, score: T -> int) {
    forall i, j :: 0 <= i < j < |xs| ==> score(xs[i]) >= score(xs[j])
  }

  /** Insert `x` before the first element that does not score higher. */
  function InsertDesc<T>(x: T, sorted: seq<T>, score: T -> int): seq<T> {
    if sorted == [] || score(x) >= score(sorted[0]) then [x] + sorted
    else [sorted[0]] + InsertDesc(x, sorted[1..], score)
  }

  /** Insertion sort into non-increasing score. */
  function SortDesc<T>(xs: seq<T>, score: T -> int): seq<T> {
    if xs == [] then [] else InsertDesc(xs[0], SortDesc(xs[1..], score), score)
  }

  lemma {:induction false} InsertDescMultiset<T>(x: T, sorted: seq<T>, score: T -> int)
    ensures multiset(InsertDesc(x, sorted, score)) == multiset(sorted) + multiset{x}
  {
    if sorted != [] && score(x) < score(sorted[0]) {
      InsertDescMultiset(x, sorted[1..], score);
      assert sorted == [sorted[0]] + sorted[1..];
    }
  }

  lemma {:induction false} InsertDescElems<T>(x: T, sorted: seq<T>, score: T -> int, y: T)
    requires y in InsertDesc(x, sorted, score)
    ensures y == x || y in sorted
  {
    if sorted != [] && score(x) < score(sorted[0]) && y != sorted[0] {
      InsertDescElems(x, sorted[1..], score, y);
    }
  }

  lemma {:induction false} InsertDescSorted<T>(x: T, sorted: seq<T>, score: T -> int)
    requires Descending(sorted, score)
    ensures Descending(InsertDesc(x, sorted, score), score)
  {
    if sorted != [] && score(x) < score(sorted[0]) {
      var rest := InsertDesc(x, sorted[1..], score);
      InsertDescSorted(x, sorted[1..], score);
      forall j | 0 <= j < |rest|
        ensures score(sorted[0]) >= score(rest[j])
      {
        InsertDescElems(x, sorted[1..], score, rest[j]);
        if rest[j] != x {
          var k :| 0 <= k < |sorted[1..]| && sorted[1..][k] == rest[j];
          assert sorted[k + 1] == rest[j];
        }
      }
      assert InsertDesc(x, sorted, score) == [sorted[0]] + rest;
    }
  }

  /** Insertion sort yields a permutation in non-increasing score. */
  lemma {:induction false} SortDescSpec<T>(xs: seq<T>, score: T -> int)
    ensures multiset(SortDesc(xs, score)) == multiset(xs)
    ensures Descending(SortDesc(xs, score), score)
  {
    if xs != [] {
      SortDescSpec(xs[1..], score);
      InsertDescMultiset(xs[0], SortDesc(xs[1..], score), score);
      InsertDescSorted(xs[0], SortDesc(xs[1..], score), score);
      assert xs == [xs[0]] + xs[1..];
    }
  }

  /** `a` is `b` with some elements left out, the rest in the same order. */
  predicate Subsequence<T(==)>(a: seq<T>, b: seq<T>)
    decreases |b|
  {
    if a == [] then true
    else if b == [] then false
    else (a[0] == b[0] && Subsequence(a[1..], b[1..])) || Subsequence(a, b[1..])
  }

  /** Every element of a subsequence occurs in the whole. */
  lemma {:induction false} SubsequenceMembers<T>(a: seq<T>, b: seq<T>, x: T)
    requires Subsequence(a, b) && x in a
    ensures x in b
    decreases |b|
  {
    if a[0] == b[0] && Subsequence(a[1..], b[1..]) {
      if x != a[0] {
        SubsequenceMembers(a[1..], b[1..], x);
      }
    } else {
      SubsequenceMembers(a, b[1..], x);
    }
  }

  /** Two positions of a subsequence come from two positions of the whole, in the same order. */
  lemma {:induction false} SubsequencePairs<T>(a: seq<T>, b: seq<T>, k: nat, l: nat)
    requires Subsequence(a, b) && k < l < |a|
    ensures exists i, j :: 0 <= i < j < |b| && a[k] == b[i] && a[l] == b[j]
    decreases |b|
  {
    if a[0] == b[0] && Subsequence(a[1..], b[1..]) {
      if k == 0 {
        assert a[l] == a[1..][l - 1];
        SubsequenceMembers(a[1..], b[1..], a[l]);
        var j :| 0 <= j < |b[1..]| && b[1..][j] == a[l];
        assert a[k] == b[0] && a[l] == b[j + 1];
      } else {
        SubsequencePairs(a[1..], b[1..], k - 1, l - 1);
        var i, j :| 0 <= i < j < |b[1..]| && a[1..][k - 1] == b[1..][i] && a[1..][l - 1] == b[1..][j];
        assert a[k] == b[i + 1] && a[l] == b[j + 1];
      }
    } else {
      SubsequencePairs(a, b[1..], k, l);
      var i, j :| 0 <= i < j < |b[1..]| && a[k] == b[1..][i] && a[l] == b[1..][j];
      assert a[k] == b[i + 1] && a[l] == b[j + 1];
    }
  }
}
