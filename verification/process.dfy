/**
 `groupAndProcessPaths` from the grouped paths to the final scaffolds: the
 selected groups, arranged by descending path count, are chained, duplicate
 scaffolds are dropped and every group is replaced by its best path.
 */
module Processing {
  import opened Wrappers
  import opened Seqs
  import opened Nodes
  import opened Groups
  import opened Chaining
  import opened Scaffolds

  datatype ProcessError =
    | DuplicateCheck(cause: ScaffoldError)  // the duplicate check met two empty scaffolds
    | NoPathInGroup                         // a group without paths has no first path to start from

  function AvgSI(p: PathInfo): real { p.avgSI }

  /** The first path of the group with the highest average sequence identity. */
  function BestPath(g: Group): Result<PathInfo, ProcessError> {
    if g.infos == [] then Failure(NoPathInGroup) else Success(g.infos[FirstMax(g.infos, AvgSI)])
  }

  /** `p` is the first path of `g` with the highest average sequence identity. */
  predicate BestOf(p: PathInfo, g: Group) {
    exists b :: 0 <= b < |g.infos| && g.infos[b] == p && IsFirstMax(g.infos, AvgSI, b)
  }

  lemma BestPathSpec(g: Group)
    ensures BestPath(g).Success? <==> g.infos != []
    ensures BestPath(g).Success? ==> BestOf(BestPath(g).value, g)
  {
    if g.infos != [] {
      FirstMaxSpec(g.infos, AvgSI);
    }
  }

  /** The best path of every group of a scaffold, in order. */
  function BestPaths(s: seq<Group>): Result<seq<PathInfo>, ProcessError> {
    if s == [] then Success([])
    else
      match BestPath(s[0])
      case Failure(e) => Failure(e)
      case Success(p) =>
        match BestPaths(s[1..])
        case Failure(e) => Failure(e)
        case Success(ps) => Success([p] + ps)
  }

  /** Every group of `s` has a path. */
  predicate HasPaths(s: seq<Group>) {
    forall i :: 0 <= i < |s| ==> s[i].infos != []
  }

  /** Paths are chosen exactly when every group has one, and then position by position. */
  lemma {:induction false} BestPathsSpec(s: seq<Group>)
    ensures BestPaths(s).Success? <==> HasPaths(s)
    ensures BestPaths(s).Success? ==>
      |BestPaths(s).value| == |s| && forall i :: 0 <= i < |s| ==> BestOf(BestPaths(s).value[i], s[i])
  {
    if s != [] {
      BestPathSpec(s[0]);
      BestPathsSpec(s[1..]);
      assert HasPaths(s) <==> s[0].infos != [] && HasPaths(s[1..]) by {
        if s[0].infos != [] && HasPaths(s[1..]) {
          forall i | 0 < i < |s|
            ensures s[i].infos != []
          {
            assert s[i] == s[1..][i - 1];
          }
        }
      }
      if BestPaths(s).Success? {
        var r := BestPaths(s).value;
        forall i | 0 < i < |s|
          ensures BestOf(r[i], s[i])
        {
          assert r[i] == BestPaths(s[1..]).value[i - 1] && s[i] == s[1..][i - 1];
        }
      }
    }
  }

  /** The best paths of every scaffold, in order. */
  function BestPathsAll(ss: seq<seq<Group>>): Result<seq<seq<PathInfo>>, ProcessError> {
    if ss == [] then Success([])
    else
      match BestPaths(ss[0])
      case Failure(e) => Failure(e)
      case Success(ps) =>
        match BestPathsAll(ss[1..])
        case Failure(e) => Failure(e)
        case Success(pss) => Success([ps] + pss)
  }

  lemma {:induction false} BestPathsAllSpec(ss: seq<seq<Group>>)
    ensures BestPathsAll(ss).Success? <==> forall k :: 0 <= k < |ss| ==> HasPaths(ss[k])
    ensures BestPathsAll(ss).Success? ==>
      |BestPathsAll(ss).value| == |ss|
      && forall k :: 0 <= k < |ss| ==> BestPaths(ss[k]) == Success(BestPathsAll(ss).value[k])
  {
    if ss != [] {
      BestPathsSpec(ss[0]);
      BestPathsAllSpec(ss[1..]);
      assert (forall k :: 0 <= k < |ss| ==> HasPaths(ss[k]))
         <==> HasPaths(ss[0]) && forall k :: 0 <= k < |ss[1..]| ==> HasPaths(ss[1..][k]) by {
        forall k | 0 < k < |ss|
          ensures ss[k] == ss[1..][k - 1]
        {
        }
      }
      if BestPathsAll(ss).Success? {
        var r := BestPathsAll(ss).value;
        forall k | 0 < k < |ss|
          ensures BestPaths(ss[k]) == Success(r[k])
        {
          assert r[k] == BestPathsAll(ss[1..]).value[k - 1] && ss[k] == ss[1..][k - 1];
        }
      }
    }
  }

  /**
   `groupAndProcessPaths` from the grouped paths on: `arranged` is what the
   descending sort of the surviving groups produced.
   */
  function GroupAndProcess(groups: seq<Group>, minPaths: int, arranged: seq<Group>)
    : Result<seq<seq<PathInfo>>, ProcessError>
    requires Arrangement(arranged, BestPerStart(Discard(groups, minPaths)))
  {
    match Dedup(Chain(arranged))
    case Failure(e) => Failure(DuplicateCheck(e))
    case Success(kept) => BestPathsAll(kept)
  }

  /** Every arranged group is an input group with at least `minPaths` paths. */
  lemma ArrangedFrom(groups: seq<Group>, minPaths: int, arranged: seq<Group>, g: Group)
    requires Arrangement(arranged, BestPerStart(Discard(groups, minPaths)))
    requires g in arranged
    ensures g in groups && g.numPaths >= minPaths
  {
    assert g in multiset(arranged);
    BestPerStartFrom(Discard(groups, minPaths), g);
    DiscardSpec(groups, minPaths);
  }

  /**
   The kept group scaffolds: the duplicate check succeeds; each scaffold is a
   non-empty chain of input groups with at least `minPaths` paths; no two
   scaffolds share a node; none matches a scaffold kept before it; and every
   chained scaffold is kept or matches a kept one.
   */
  lemma KeptScaffolds(groups: seq<Group>, minPaths: int, arranged: seq<Group>)
    requires Arrangement(arranged, BestPerStart(Discard(groups, minPaths)))
    ensures Dedup(Chain(arranged)).Success?
    ensures var kept := Dedup(Chain(arranged)).value;
      && (forall k :: 0 <= k < |kept| ==> kept[k] != [] && Linked(kept[k]))
      && (forall k, g :: 0 <= k < |kept| && g in kept[k] ==> g in groups && g.numPaths >= minPaths)
      && (forall k, l :: 0 <= k < l < |kept| ==> NodesOf(kept[k]) !! NodesOf(kept[l]))
      && Distinct(kept)
      && (forall s :: s in Chain(arranged) ==> s in kept || exists j :: 0 <= j < |kept| && Matches(s, kept[j]))
  {
    var chain := Chain(arranged);
    ChainSpec(arranged);
    assert !TwoEmpty(chain);
    DedupSpec(chain);
    var kept := Dedup(chain).value;
    forall k | 0 <= k < |kept|
      ensures kept[k] in chain
    {
      SubsequenceMembers(kept, chain, kept[k]);
    }
    forall k, g | 0 <= k < |kept| && g in kept[k]
      ensures g in groups && g.numPaths >= minPaths
    {
      ArrangedFrom(groups, minPaths, arranged, g);
    }
    forall k, l | 0 <= k < l < |kept|
      ensures NodesOf(kept[k]) !! NodesOf(kept[l])
    {
      SubsequencePairs(kept, chain, k, l);
    }
  }

  /**
   When every group has a path, processing succeeds with one path list per
   kept scaffold, holding the best path of each of its groups.
   */
  lemma GroupAndProcessSpec(groups: seq<Group>, minPaths: int, arranged: seq<Group>)
    requires Arrangement(arranged, BestPerStart(Discard(groups, minPaths)))
    requires HasPaths(groups)
    ensures GroupAndProcess(groups, minPaths, arranged).Success?
    ensures var r := GroupAndProcess(groups, minPaths, arranged).value;
      var kept := Dedup(Chain(arranged)).value;
      |r| == |kept|
      && forall k :: 0 <= k < |r| ==>
        |r[k]| == |kept[k]| && forall i :: 0 <= i < |r[k]| ==> BestOf(r[k][i], kept[k][i])
  {
    KeptScaffolds(groups, minPaths, arranged);
    var kept := Dedup(Chain(arranged)).value;
    forall k | 0 <= k < |kept|
      ensures HasPaths(kept[k])
    {
      forall i | 0 <= i < |kept[k]|
        ensures kept[k][i].infos != []
      {
        assert kept[k][i] in kept[k];
        var j :| 0 <= j < |groups| && groups[j] == kept[k][i];
      }
    }
    BestPathsAllSpec(kept);
    var r := GroupAndProcess(groups, minPaths, arranged).value;
    forall k | 0 <= k < |r|
      ensures |r[k]| == |kept[k]| && forall i :: 0 <= i < |r[k]| ==> BestOf(r[k][i], kept[k][i])
    {
      BestPathsSpec(kept[k]);
    }
  }

  /** Every path of the group runs from the group's start node to its end node. */
  predicate Joins(g: Group) {
    forall p :: p in g.infos ==> p.startName == g.startName && p.endName == g.endName
  }

  /** The best paths of a chain of groups follow one another: each ends where the next starts. */
  lemma BestPathsLinked(s: seq<Group>)
    requires Linked(s) && HasPaths(s)
    requires forall i :: 0 <= i < |s| ==> Joins(s[i])
    ensures BestPaths(s).Success?
    ensures var ps := BestPaths(s).value;
      forall i :: 0 <= i < |ps| - 1 ==> ps[i].endName == ps[i + 1].startName
  {
    BestPathsSpec(s);
    var ps := BestPaths(s).value;
    forall i | 0 <= i < |ps| - 1
      ensures ps[i].endName == ps[i + 1].startName
    {
      assert BestOf(ps[i], s[i]) && BestOf(ps[i + 1], s[i + 1]);
    }
  }
}
