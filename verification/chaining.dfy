/**
 Greedy chaining of the selected groups into scaffolds. Groups are taken in
 order; one whose start or end node is already used is skipped, otherwise it
 seeds a scaffold that repeatedly sweeps the remaining groups, extending at
 the back (group start = scaffold end) or at the front (group end = scaffold
 start) with a group whose other node is still unused, until a sweep adds
 nothing.
 */
module Chaining {
  import opened Nodes

  /** Start and end node names of the groups. */
  function NodesOf(gs: seq<Group>): set<string> {
    (set g | g in gs :: g.startName) + (set g | g in gs :: g.endName)
  }

  /** Each group ends where the next one starts. */
  predicate Linked(s: seq<Group>) {
    forall i :: 0 <= i < |s| - 1 ==> s[i].endName == s[i + 1].startName
  }

  /** The scaffold under construction, the used node names and whether the sweep changed anything. */
  datatype Growth = Growth(scaffold: seq<Group>, used: set<string>, changed: bool)

  /** One sweep of the inner `for` over the remaining groups. */
  function Sweep(pool: seq<Group>, scaffold: seq<Group>, used: set<string>, changed: bool): (r: Growth)
    requires scaffold != []
    ensures r.scaffold != []
    decreases |pool|
  {
    if pool == [] then Growth(scaffold, used, changed)
    else
      var g := pool[0];
      if g.startName == scaffold[|scaffold| - 1].endName && g.endName !in used then
        Sweep(pool[1..], scaffold + [g], used + {g.endName}, true)
      else if g.endName == scaffold[0].startName && g.startName !in used then
        Sweep(pool[1..], [g] + scaffold, used + {g.startName}, true)
      else
        Sweep(pool[1..], scaffold, used, changed)
  }

  /**
   A sweep only adds node names of the remaining groups; it reports a change
   exactly when one was reported before or it added a name, and a sweep
   that adds no name leaves the scaffold alone.
   */
  lemma {:induction false} SweepProgress(pool: seq<Group>, scaffold: seq<Group>, used: set<string>, changed: bool)
    requires scaffold != []
    ensures var r := Sweep(pool, scaffold, used, changed);
      && used <= r.used && r.used - used <= NodesOf(pool)
      && r.changed == (changed || r.used != used)
      && (r.used == used ==> r.scaffold == scaffold)
    decreases |pool|
  {
    if pool != [] {
      var g := pool[0];
      assert g in pool;
      assert NodesOf(pool[1..]) <= NodesOf(pool) by {
        forall h | h in pool[1..]
          ensures h in pool
        {
        }
      }
      if g.startName == scaffold[|scaffold| - 1].endName && g.endName !in used {
        SweepProgress(pool[1..], scaffold + [g], used + {g.endName}, true);
      } else if g.endName == scaffold[0].startName && g.startName !in used {
        SweepProgress(pool[1..], [g] + scaffold, used + {g.startName}, true);
      } else {
        SweepProgress(pool[1..], scaffold, used, changed);
      }
    }
  }

  /** Adding a fresh name of `nodes` to `used` shrinks the unused part of `nodes`. */
  lemma Shrinks(nodes: set<string>, used: set<string>, used': set<string>)
    requires used <= used' && used' != used && used' - used <= nodes
    ensures |nodes - used'| < |nodes - used|
  {
    assert used' - used != {};
    var x :| x in used' - used;
    SubsetCard(nodes - used', (nodes - used) - {x});
  }

  lemma {:induction false} SubsetCard(a: set<string>, b: set<string>)
    requires a <= b
    ensures |a| <= |b|
    decreases |a|
  {
    if a != {} {
      var x :| x in a;
      SubsetCard(a - {x}, b - {x});
    }
  }

  /**
   The `while (changes)` loop: sweep until a sweep changes nothing. It ends
   because each further sweep marks a new node of the remaining groups as used.
   */
  function Grow(pool: seq<Group>, scaffold: seq<Group>, used: set<string>): (r: (seq<Group>, set<string>))
    requires scaffold != []
    ensures r.0 != []
    decreases |NodesOf(pool) - used|
  {
    var sweep := Sweep(pool, scaffold, used, false);
    if !sweep.changed then (scaffold, used)
    else
      SweepProgress(pool, scaffold, used, false);
      Shrinks(NodesOf(pool), used, sweep.used);
      Grow(pool, sweep.scaffold, sweep.used)
  }

  /**
   A scaffold being grown from `base`: a non-empty chain, none of whose nodes
   was used before it, and the used names are exactly the earlier ones plus
   its nodes.
   */
  predicate Growing(s: seq<Group>, used: set<string>, base: set<string>) {
    s != [] && Linked(s) && used == base + NodesOf(s) && NodesOf(s) !! base
  }

  lemma GrowingBack(s: seq<Group>, used: set<string>, base: set<string>, g: Group)
    requires Growing(s, used, base)
    requires g.startName == s[|s| - 1].endName && g.endName !in used
    ensures Growing(s + [g], used + {g.endName}, base)
  {
    var t := s + [g];
    assert s[|s| - 1] in s;
    assert NodesOf(t) == NodesOf(s) + {g.endName};
    forall i | 0 <= i < |t| - 1
      ensures t[i].endName == t[i + 1].startName
    {
      if i < |s| - 1 {
        assert t[i] == s[i] && t[i + 1] == s[i + 1];
      }
    }
  }

  lemma GrowingFront(s: seq<Group>, used: set<string>, base: set<string>, g: Group)
    requires Growing(s, used, base)
    requires g.endName == s[0].startName && g.startName !in used
    ensures Growing([g] + s, used + {g.startName}, base)
  {
    var t := [g] + s;
    assert s[0] in s;
    assert NodesOf(t) == NodesOf(s) + {g.startName};
    forall i | 0 <= i < |t| - 1
      ensures t[i].endName == t[i + 1].startName
    {
      if i > 0 {
        assert t[i] == s[i - 1] && t[i + 1] == s[i];
      }
    }
  }

  /** A sweep keeps the scaffold a fresh chain and only adds groups of the pool. */
  lemma {:induction false} SweepGrowing(pool: seq<Group>, s: seq<Group>, used: set<string>, changed: bool,
                                        base: set<string>, allowed: seq<Group>)
    requires Growing(s, used, base)
    requires forall g :: g in s ==> g in allowed
    requires forall g :: g in pool ==> g in allowed
    ensures var r := Sweep(pool, s, used, changed);
      && Growing(r.scaffold, r.used, base) && (forall g :: g in r.scaffold ==> g in allowed)
      && (forall g :: g in s ==> g in r.scaffold)
    decreases |pool|
  {
    if pool != [] {
      var g := pool[0];
      assert g in pool;
      forall h | h in pool[1..]
        ensures h in allowed
      {
        assert h in pool;
      }
      if g.startName == s[|s| - 1].endName && g.endName !in used {
        GrowingBack(s, used, base, g);
        SweepGrowing(pool[1..], s + [g], used + {g.endName}, true, base, allowed);
      } else if g.endName == s[0].startName && g.startName !in used {
        GrowingFront(s, used, base, g);
        SweepGrowing(pool[1..], [g] + s, used + {g.startName}, true, base, allowed);
      } else {
        SweepGrowing(pool[1..], s, used, changed, base, allowed);
      }
    }
  }

  /** Growing keeps the scaffold a fresh chain and only adds groups of the pool. */
  lemma {:induction false} GrowGrowing(pool: seq<Group>, s: seq<Group>, used: set<string>,
                                       base: set<string>, allowed: seq<Group>)
    requires Growing(s, used, base)
    requires forall g :: g in s ==> g in allowed
    requires forall g :: g in pool ==> g in allowed
    ensures var r := Grow(pool, s, used);
      && Growing(r.0, r.1, base) && (forall g :: g in r.0 ==> g in allowed)
      && (forall g :: g in s ==> g in r.0)
    decreases |NodesOf(pool) - used|
  {
    var sweep := Sweep(pool, s, used, false);
    if sweep.changed {
      SweepProgress(pool, s, used, false);
      Shrinks(NodesOf(pool), used, sweep.used);
      SweepGrowing(pool, s, used, false, base, allowed);
      GrowGrowing(pool, sweep.scaffold, sweep.used, base, allowed);
    }
  }

  /** `g` continues `s` at the back or at the front with a node that is not in `used`. */
  predicate Fits(g: Group, s: seq<Group>, used: set<string>) {
    s != [] &&
    ((g.startName == s[|s| - 1].endName && g.endName !in used)
     || (g.endName == s[0].startName && g.startName !in used))
  }

  /** A sweep that reports no change met no group that continues the scaffold. */
  lemma {:induction false} SweepStill(pool: seq<Group>, s: seq<Group>, used: set<string>, changed: bool, g: Group)
    requires s != [] && g in pool
    requires !Sweep(pool, s, used, changed).changed
    ensures !Fits(g, s, used)
    decreases |pool|
  {
    var h := pool[0];
    if h.startName == s[|s| - 1].endName && h.endName !in used {
      SweepProgress(pool[1..], s + [h], used + {h.endName}, true);
    } else if h.endName == s[0].startName && h.startName !in used {
      SweepProgress(pool[1..], [h] + s, used + {h.startName}, true);
    } else if g != h {
      assert g in pool[1..] by {
        assert pool == [h] + pool[1..];
      }
      SweepStill(pool[1..], s, used, changed, g);
    }
  }

  /** Growing stops only when no remaining group continues the scaffold at either end. */
  lemma {:induction false} GrowMaximal(pool: seq<Group>, s: seq<Group>, used: set<string>, g: Group)
    requires s != [] && g in pool
    ensures !Fits(g, Grow(pool, s, used).0, Grow(pool, s, used).1)
    decreases |NodesOf(pool) - used|
  {
    var sweep := Sweep(pool, s, used, false);
    if !sweep.changed {
      SweepStill(pool, s, used, false, g);
    } else {
      SweepProgress(pool, s, used, false);
      Shrinks(NodesOf(pool), used, sweep.used);
      GrowMaximal(pool, sweep.scaffold, sweep.used, g);
    }
  }

  /** The outer `while`: take the next group, skip it or grow a scaffold from it. */
  function ChainFrom(pool: seq<Group>, used: set<string>): seq<seq<Group>>
    decreases |pool|
  {
    if pool == [] then []
    else
      var cur := pool[0];
      if cur.startName in used || cur.endName in used then ChainFrom(pool[1..], used)
      else
        var grown := Grow(pool[1..], [cur], used + {cur.startName, cur.endName});
        [grown.0] + ChainFrom(pool[1..], grown.1)
  }

  /** `scaffolds_temp`: the scaffolds chained from the arranged groups. */
  function Chain(arranged: seq<Group>): seq<seq<Group>> {
    ChainFrom(arranged, {})
  }

  /**
   A scaffold seeded with `cur` is a chain through `cur` of groups from the
   seed and the remaining pool, using only names that were free, and it marks
   exactly its own names as used.
   */
  lemma Seeded(rest: seq<Group>, cur: Group, used: set<string>)
    requires cur.startName !in used && cur.endName !in used
    ensures var grown := Grow(rest, [cur], used + {cur.startName, cur.endName});
      && grown.0 != [] && Linked(grown.0) && cur in grown.0
      && grown.1 == used + NodesOf(grown.0) && NodesOf(grown.0) !! used
      && (forall g :: g in grown.0 ==> g in [cur] + rest)
  {
    var used0 := used + {cur.startName, cur.endName};
    assert NodesOf([cur]) == {cur.startName, cur.endName};
    GrowGrowing(rest, [cur], used0, used, [cur] + rest);
  }

  /** Seeding a scaffold only adds used names. */
  lemma SeededUsed(rest: seq<Group>, cur: Group, used: set<string>)
    requires cur.startName !in used && cur.endName !in used
    ensures used <= Grow(rest, [cur], used + {cur.startName, cur.endName}).1
  {
    Seeded(rest, cur, used);
  }

  /** Every scaffold is a non-empty chain of pool groups avoiding the names used before. */
  lemma {:induction false} ChainFromAt(pool: seq<Group>, used: set<string>, k: nat)
    requires k < |ChainFrom(pool, used)|
    ensures var s := ChainFrom(pool, used)[k];
      s != [] && Linked(s) && NodesOf(s) !! used && (forall g :: g in s ==> g in pool)
    decreases |pool|
  {
    var cur := pool[0];
    var rest := pool[1..];
    assert pool == [cur] + rest;
    if cur.startName in used || cur.endName in used {
      assert ChainFrom(pool, used) == ChainFrom(rest, used);
      ChainFromAt(rest, used, k);
    } else {
      var grown := Grow(rest, [cur], used + {cur.startName, cur.endName});
      var tail := ChainFrom(rest, grown.1);
      if k == 0 {
        Seeded(rest, cur, used);
        assert ChainFrom(pool, used)[0] == grown.0;
      } else {
        SeededUsed(rest, cur, used);
        ChainFromAt(rest, grown.1, k - 1);
        assert ChainFrom(pool, used)[k] == tail[k - 1];
      }
    }
  }

  /** Different scaffolds share no node. */
  lemma {:induction false} ChainFromApart(pool: seq<Group>, used: set<string>, k: nat, l: nat)
    requires k < l < |ChainFrom(pool, used)|
    ensures NodesOf(ChainFrom(pool, used)[k]) !! NodesOf(ChainFrom(pool, used)[l])
    decreases |pool|
  {
    var cur := pool[0];
    var rest := pool[1..];
    if cur.startName in used || cur.endName in used {
      assert ChainFrom(pool, used) == ChainFrom(rest, used);
      ChainFromApart(rest, used, k, l);
    } else {
      var grown := Grow(rest, [cur], used + {cur.startName, cur.endName});
      var tail := ChainFrom(rest, grown.1);
      assert ChainFrom(pool, used)[l] == tail[l - 1];
      if k > 0 {
        assert ChainFrom(pool, used)[k] == tail[k - 1];
        ChainFromApart(rest, grown.1, k - 1, l - 1);
      } else {
        SeededApart(rest, cur, used, l - 1);
      }
    }
  }

  /** A seeded scaffold shares no node with any scaffold chained after it. */
  lemma SeededApart(rest: seq<Group>, cur: Group, used: set<string>, l: nat)
    requires cur.startName !in used && cur.endName !in used
    requires l < |ChainFrom(rest, Grow(rest, [cur], used + {cur.startName, cur.endName}).1)|
    ensures var grown := Grow(rest, [cur], used + {cur.startName, cur.endName});
      NodesOf(grown.0) !! NodesOf(ChainFrom(rest, grown.1)[l])
  {
    Seeded(rest, cur, used);
    var grown := Grow(rest, [cur], used + {cur.startName, cur.endName});
    ChainFromAt(rest, grown.1, l);
  }

  /** The names in use before scaffold `k`: `used` and the nodes of the scaffolds before it. */
  function Taken(used: set<string>, r: seq<seq<Group>>, k: nat): set<string> {
    used + (set j, x | 0 <= j < k && j < |r| && x in NodesOf(r[j]) :: x)
  }

  /** Taking off the first scaffold moves its nodes into the names used before. */
  lemma TakenShift(used: set<string>, r: seq<seq<Group>>, k: nat)
    requires 1 <= k <= |r|
    ensures Taken(used, r, k) == Taken(used + NodesOf(r[0]), r[1..], k - 1)
  {
  }

  lemma TakenFirst(used: set<string>, r: seq<seq<Group>>)
    requires |r| >= 1
    ensures Taken(used, r, 0) == used
    ensures Taken(used, r, 1) == used + NodesOf(r[0])
  {
  }

  /**
   No group of the pool continues a scaffold at either end with a name that
   is still free once that scaffold is finished.
   */
  lemma {:induction false} ChainFromMaximal(pool: seq<Group>, used: set<string>, k: nat, g: Group)
    requires k < |ChainFrom(pool, used)| && g in pool
    ensures var r := ChainFrom(pool, used);
      !Fits(g, r[k], Taken(used, r, k + 1))
    decreases |pool|
  {
    var cur := pool[0];
    var rest := pool[1..];
    var r := ChainFrom(pool, used);
    assert g == cur || g in rest by {
      assert pool == [cur] + rest;
    }
    if cur.startName in used || cur.endName in used {
      assert r == ChainFrom(rest, used);
      if g == cur {
        ChainFromAt(pool, used, k);
        assert r[k][0] in r[k] && r[k][|r[k]| - 1] in r[k];
      } else {
        ChainFromMaximal(rest, used, k, g);
      }
    } else {
      Seeded(rest, cur, used);
      var grown := Grow(rest, [cur], used + {cur.startName, cur.endName});
      var tail := ChainFrom(rest, grown.1);
      assert r == [grown.0] + tail;
      TakenShift(used, r, k + 1);
      assert r[1..] == tail;
      if g == cur {
        assert cur.startName in NodesOf(r[0]) && cur.endName in NodesOf(r[0]);
      } else if k == 0 {
        GrowMaximal(rest, [cur], used + {cur.startName, cur.endName}, g);
      } else {
        ChainFromMaximal(rest, grown.1, k - 1, g);
        assert r[k] == tail[k - 1];
      }
    }
  }

  /** Position `p` holds the first group of the pool whose two nodes are both outside `taken`. */
  predicate FirstFree(pool: seq<Group>, p: int, taken: set<string>) {
    0 <= p < |pool| && pool[p].startName !in taken && pool[p].endName !in taken
    && forall q :: 0 <= q < p ==> pool[q].startName in taken || pool[q].endName in taken
  }

  /** A first free group of the tail stays first when a group with a taken node is put in front. */
  lemma FirstFreeBehind(pool: seq<Group>, p: int, taken: set<string>)
    requires pool != [] && (pool[0].startName in taken || pool[0].endName in taken)
    requires FirstFree(pool[1..], p, taken)
    ensures FirstFree(pool, p + 1, taken) && pool[1..][p] == pool[p + 1] && pool[1..][p + 1..] == pool[p + 2..]
  {
    forall q | 0 < q <= p
      ensures pool[q].startName in taken || pool[q].endName in taken
    {
      assert pool[q] == pool[1..][q - 1];
    }
  }

  /** The seed of scaffold `k`: the first free group, with the scaffold grown from it. */
  predicate SeedOf(pool: seq<Group>, p: int, taken: set<string>, s: seq<Group>) {
    FirstFree(pool, p, taken)
    && s == Grow(pool[p + 1..], [pool[p]], taken + {pool[p].startName, pool[p].endName}).0
  }

  /** Scaffold `k` of `r` has a seed in the pool, given the names in use before the pool. */
  ghost predicate SeededAt(pool: seq<Group>, used: set<string>, r: seq<seq<Group>>, k: nat)
    requires k < |r|
  {
    exists p :: SeedOf(pool, p, Taken(used, r, k), r[k])
  }

  lemma SeedBehind(pool: seq<Group>, p: int, taken: set<string>, s: seq<Group>)
    requires pool != [] && (pool[0].startName in taken || pool[0].endName in taken)
    requires SeedOf(pool[1..], p, taken, s)
    ensures SeedOf(pool, p + 1, taken, s)
  {
    FirstFreeBehind(pool, p, taken);
  }

  /**
   Scaffold `k` is seeded by the first group of the pool whose nodes are both
   still free, and grown from it over the groups that follow it.
   */
  lemma {:induction false} ChainFromSeed(pool: seq<Group>, used: set<string>, k: nat)
    requires k < |ChainFrom(pool, used)|
    ensures SeededAt(pool, used, ChainFrom(pool, used), k)
    decreases |pool|
  {
    var cur := pool[0];
    var rest := pool[1..];
    var r := ChainFrom(pool, used);
    var taken := Taken(used, r, k);
    if cur.startName in used || cur.endName in used {
      assert r == ChainFrom(rest, used);
      ChainFromSeed(rest, used, k);
      var p :| SeedOf(rest, p, taken, r[k]);
      SeedBehind(pool, p, taken, r[k]);
    } else {
      Seeded(rest, cur, used);
      var grown := Grow(rest, [cur], used + {cur.startName, cur.endName});
      var tail := ChainFrom(rest, grown.1);
      assert r == [grown.0] + tail;
      if k == 0 {
        TakenFirst(used, r);
        assert SeedOf(pool, 0, taken, r[0]);
      } else {
        TakenShift(used, r, k);
        assert r[1..] == tail && r[k] == tail[k - 1];
        ChainFromSeed(rest, grown.1, k - 1);
        var p :| SeedOf(rest, p, taken, r[k]);
        assert cur.startName in NodesOf(r[0]);
        SeedBehind(pool, p, taken, r[k]);
      }
    }
  }

  /** `g` shares a node with some scaffold. */
  predicate Touches(g: Group, scaffolds: seq<seq<Group>>) {
    exists k :: 0 <= k < |scaffolds| && (g.startName in NodesOf(scaffolds[k]) || g.endName in NodesOf(scaffolds[k]))
  }

  /** Every pool group whose nodes were not used before shares a node with some scaffold. */
  lemma {:induction false} ChainFromCovers(pool: seq<Group>, used: set<string>, g: Group)
    requires g in pool && g.startName !in used && g.endName !in used
    ensures Touches(g, ChainFrom(pool, used))
    decreases |pool|
  {
    var cur := pool[0];
    var rest := pool[1..];
    var r := ChainFrom(pool, used);
    assert g == cur || g in rest by {
      assert pool == [cur] + rest;
    }
    if cur.startName in used || cur.endName in used {
      assert r == ChainFrom(rest, used);
      ChainFromCovers(rest, used, g);
    } else {
      Seeded(rest, cur, used);
      var grown := Grow(rest, [cur], used + {cur.startName, cur.endName});
      var tail := ChainFrom(rest, grown.1);
      assert r == [grown.0] + tail;
      if g == cur || g.startName in grown.1 || g.endName in grown.1 {
        assert g.startName in NodesOf(r[0]) || g.endName in NodesOf(r[0]);
      } else {
        ChainFromCovers(rest, grown.1, g);
        var k :| 0 <= k < |tail| && (g.startName in NodesOf(tail[k]) || g.endName in NodesOf(tail[k]));
        assert r[k + 1] == tail[k];
      }
    }
  }

  /**
   The scaffolds of `groupAndProcessPaths`: non-empty chains of the arranged
   groups, pairwise node-disjoint, and every arranged group shares a node
   with one of them. Scaffold `k` is seeded by the first arranged group whose
   nodes no earlier scaffold uses and grown over the groups after it, and no
   arranged group continues it at either end with a node that is free once
   it is finished.
   */
  lemma ChainSpec(arranged: seq<Group>)
    ensures var r := Chain(arranged);
      && (forall k :: 0 <= k < |r| ==> r[k] != [] && Linked(r[k]) && (forall g :: g in r[k] ==> g in arranged))
      && (forall k, l :: 0 <= k < l < |r| ==> NodesOf(r[k]) !! NodesOf(r[l]))
      && (forall g :: g in arranged ==> Touches(g, r))
    ensures var r := Chain(arranged);
      forall k, g :: 0 <= k < |r| && g in arranged ==> !Fits(g, r[k], Taken({}, r, k + 1))
    ensures var r := Chain(arranged);
      forall k :: 0 <= k < |r| ==> SeededAt(arranged, {}, r, k)
  {
    var r := Chain(arranged);
    forall k | 0 <= k < |r|
      ensures r[k] != [] && Linked(r[k]) && (forall g :: g in r[k] ==> g in arranged)
    {
      ChainFromAt(arranged, {}, k);
    }
    forall k, l | 0 <= k < l < |r|
      ensures NodesOf(r[k]) !! NodesOf(r[l])
    {
      ChainFromApart(arranged, {}, k, l);
    }
    forall g | g in arranged
      ensures Touches(g, Chain(arranged))
    {
      ChainFromCovers(arranged, {}, g);
    }
    forall k, g | 0 <= k < |r| && g in arranged
      ensures !Fits(g, r[k], Taken({}, r, k + 1))
    {
      ChainFromMaximal(arranged, {}, k, g);
    }
    forall k | 0 <= k < |r|
      ensures SeededAt(arranged, {}, r, k)
    {
      ChainFromSeed(arranged, {}, k);
    }
  }
}
