/**
 Building the overlap graph: two nodes per contig and per read, candidate
 edges from the overlaps that pass their test, a tally of how the candidate
 edges were classified, the usable ones attached to their start nodes, and
 the count of nodes left without outgoing edges.
 */
module Graph {
  import opened Wrappers
  import opened Strings
  import opened SortedMap
  import opened Seqs
  import opened Nodes

  /** Edge classification counters, named after the test values -1 .. -4 and "anything else". */
  datatype Tally = Tally(contained: nat, short: nat, lowQual: nat, zero: nat, usable: nat) {
    function Total(): nat { contained + short + lowQual + zero + usable }
  }

  /** The built graph and its bookkeeping. */
  datatype GraphState = GraphState(
    anchors: Assoc<Node>,
    readNodes: Assoc<Node>,
    numANodes: nat,
    numRNodes: nat,
    tally: Tally,
    attached: seq<Edge>,
    isolatedANodes: nat,
    isolatedRNodes: nat)

  /** Names of both orientations of every sequence id. */
  function BothNames(seqs: Assoc<string>): set<string> {
    if seqs == [] then {} else {seqs[0].0, seqs[0].0 + RcSuffix} + BothNames(seqs[1..])
  }

  /** Every stored node carries its own key as its name. */
  ghost predicate NamedByKey(m: Assoc<Node>) {
    forall k :: Get(m, k).Some? ==> Get(m, k).value.name == k
  }

  /** For every id, `emplace` its forward node under `id`, then its reverse node under `id_RC`. */
  function AddNodes(m: Assoc<Node>, seqs: Assoc<string>, kind: NodeKind): Assoc<Node>
    decreases |seqs|
  {
    if seqs == [] then m
    else
      var id := seqs[0].0;
      var rc := id + RcSuffix;
      var m1 := Emplace(Emplace(m, id, Node(id, seqs[0].1, kind, false)), rc, Node(rc, seqs[0].1, kind, true));
      AddNodes(m1, seqs[1..], kind)
  }

  /**
   Adding nodes keeps the map ascending and named by key, and its keys grow by
   exactly both names of every id.
   */
  lemma {:induction false} AddNodesKeys(m: Assoc<Node>, seqs: Assoc<string>, kind: NodeKind)
    requires Ascending(m) && NamedByKey(m)
    ensures Ascending(AddNodes(m, seqs, kind)) && NamedByKey(AddNodes(m, seqs, kind))
    ensures Keys(AddNodes(m, seqs, kind)) == Keys(m) + BothNames(seqs)
    decreases |seqs|
  {
    if seqs != [] {
      var id := seqs[0].0;
      var rc := id + RcSuffix;
      var m0 := Emplace(m, id, Node(id, seqs[0].1, kind, false));
      var m1 := Emplace(m0, rc, Node(rc, seqs[0].1, kind, true));
      EmplaceSpec(m, id, Node(id, seqs[0].1, kind, false));
      KeysGet(m, id);
      EmplaceSpec(m0, rc, Node(rc, seqs[0].1, kind, true));
      KeysGet(m0, rc);
      AddNodesKeys(m1, seqs[1..], kind);
    }
  }

  /** Names that are not both names of some id are left as they were. */
  lemma {:induction false} AddNodesOthers(m: Assoc<Node>, seqs: Assoc<string>, kind: NodeKind, k: string)
    requires Ascending(m)
    requires k !in BothNames(seqs)
    ensures Get(AddNodes(m, seqs, kind), k) == Get(m, k)
    decreases |seqs|
  {
    if seqs != [] {
      var id := seqs[0].0;
      var rc := id + RcSuffix;
      var m0 := Emplace(m, id, Node(id, seqs[0].1, kind, false));
      var m1 := Emplace(m0, rc, Node(rc, seqs[0].1, kind, true));
      EmplaceSpec(m, id, Node(id, seqs[0].1, kind, false));
      EmplaceSpec(m0, rc, Node(rc, seqs[0].1, kind, true));
      AddNodesOthers(m1, seqs[1..], kind, k);
    }
  }

  /** No id is another id with the suffix appended (so no two nodes compete for a key). */
  predicate NoSuffixClash(seqs: Assoc<string>) {
    forall i, j :: 0 <= i < |seqs| && 0 <= j < |seqs| ==> seqs[i].0 != seqs[j].0 + RcSuffix
  }

  lemma BothNamesListed(seqs: Assoc<string>, k: string)
    requires k in BothNames(seqs)
    ensures exists j :: 0 <= j < |seqs| && (k == seqs[j].0 || k == seqs[j].0 + RcSuffix)
  {
    if k != seqs[0].0 && k != seqs[0].0 + RcSuffix {
      BothNamesListed(seqs[1..], k);
      var j :| 0 <= j < |seqs[1..]| && (k == seqs[1..][j].0 || k == seqs[1..][j].0 + RcSuffix);
      assert seqs[j + 1] == seqs[1..][j];
    }
  }

  /**
   When the ids clash with nothing already stored and with each other, id
   `seqs[i].0` ends up with the forward node and `seqs[i].0 + "_RC"` with the
   reverse node, both over the id's sequence.
   */
  lemma {:induction false} AddNodesExact(m: Assoc<Node>, seqs: Assoc<string>, kind: NodeKind, i: nat)
    requires Ascending(m) && Ascending(seqs) && NoSuffixClash(seqs)
    requires forall k :: k in BothNames(seqs) ==> Get(m, k).None?
    requires i < |seqs|
    ensures Get(AddNodes(m, seqs, kind), seqs[i].0) == Some(Node(seqs[i].0, seqs[i].1, kind, false))
    ensures Get(AddNodes(m, seqs, kind), seqs[i].0 + RcSuffix) == Some(Node(seqs[i].0 + RcSuffix, seqs[i].1, kind, true))
    decreases |seqs|
  {
    var id := seqs[0].0;
    var rc := id + RcSuffix;
    var fw := Node(id, seqs[0].1, kind, false);
    var rv := Node(rc, seqs[0].1, kind, true);
    var m0 := Emplace(m, id, fw);
    var m1 := Emplace(m0, rc, rv);
    assert id != rc by { assert |rc| == |id| + 3; }
    EmplaceSpec(m, id, fw);
    EmplaceSpec(m0, rc, rv);
    assert AddNodes(m, seqs, kind) == AddNodes(m1, seqs[1..], kind);
    assert Ascending(m1);
    forall k | k in BothNames(seqs[1..])
      ensures k != id && k != rc
    {
      BothNamesListed(seqs[1..], k);
      var j :| 0 <= j < |seqs[1..]| && (k == seqs[1..][j].0 || k == seqs[1..][j].0 + RcSuffix);
      var other := seqs[j + 1].0;
      assert Less(id, other);
      LessIrreflexive(id);
      if k == other {
        assert id != other;
        assert rc != other;
      } else {
        assert id != other + RcSuffix;
        if rc == k {
          AppendCancelRight(id, other, RcSuffix);
        }
      }
    }
    if i == 0 {
      AddNodesOthers(m1, seqs[1..], kind, id);
      AddNodesOthers(m1, seqs[1..], kind, rc);
    } else {
      forall k | k in BothNames(seqs[1..])
        ensures Get(m1, k).None?
      {
        assert k in BothNames(seqs);
      }
      assert seqs[1..][i - 1] == seqs[i];
      AddNodesExact(m1, seqs[1..], kind, i - 1);
    }
  }

  lemma AppendCancelRight(a: string, b: string, t: string)
    requires a + t == b + t
    ensures a == b
  {
    assert a == (a + t)[..|a|];
    assert |a| == |b|;
    assert b == (b + t)[..|b|];
  }

  /** Candidate edges: `create` applied to every overlap that passes `test`, in order. */
  function Candidates<O>(ovls: seq<O>, test: O -> bool, create: O -> seq<Edge>): seq<Edge> {
    if ovls == [] then []
    else (if test(ovls[0]) then create(ovls[0]) else []) + Candidates(ovls[1..], test, create)
  }

  /** An edge is a candidate exactly when some passing overlap created it. */
  lemma {:induction false} CandidatesFrom<O>(ovls: seq<O>, test: O -> bool, create: O -> seq<Edge>, e: Edge)
    ensures e in Candidates(ovls, test, create) <==> exists i :: 0 <= i < |ovls| && test(ovls[i]) && e in create(ovls[i])
  {
    if ovls != [] {
      CandidatesFrom(ovls[1..], test, create, e);
      if exists i :: 0 <= i < |ovls| && test(ovls[i]) && e in create(ovls[i]) {
        var i :| 0 <= i < |ovls| && test(ovls[i]) && e in create(ovls[i]);
        if i > 0 {
          assert ovls[1..][i - 1] == ovls[i];
        }
      }
      if exists i :: 0 <= i < |ovls[1..]| && test(ovls[1..][i]) && e in create(ovls[1..][i]) {
        var i :| 0 <= i < |ovls[1..]| && test(ovls[1..][i]) && e in create(ovls[1..][i]);
        assert ovls[i + 1] == ovls[1..][i];
      }
    }
  }

  /** Candidates of the read-to-contig overlaps come before those of the read-to-read ones. */
  lemma {:induction false} CandidatesAppend<O>(a: seq<O>, b: seq<O>, test: O -> bool, create: O -> seq<Edge>)
    ensures Candidates(a + b, test, create) == Candidates(a, test, create) + Candidates(b, test, create)
  {
    if a == [] {
      assert a + b == b;
    } else {
      assert (a + b)[0] == a[0] && (a + b)[1..] == a[1..] + b;
      CandidatesAppend(a[1..], b, test, create);
    }
  }

  /** The `switch` on one edge's test value. */
  function Classify(t: Tally, testVal: int): Tally {
    match testVal
    case -1 => t.(contained := t.contained + 1)
    case -2 => t.(short := t.short + 1)
    case -3 => t.(lowQual := t.lowQual + 1)
    case -4 => t.(zero := t.zero + 1)
    case _ => t.(usable := t.usable + 1)
  }

  function TallyFrom(t: Tally, edges: seq<Edge>, test: Edge -> int): Tally
    decreases |edges|
  {
    if edges == [] then t else TallyFrom(Classify(t, test(edges[0])), edges[1..], test)
  }

  /** Number of edges whose test value is `v`. */
  function CountValue(edges: seq<Edge>, test: Edge -> int, v: int): nat {
    if edges == [] then 0 else (if test(edges[0]) == v then 1 else 0) + CountValue(edges[1..], test, v)
  }

  /** The test values that mark an edge as failing: -1 .. -4. */
  predicate Failing(v: int) { -4 <= v <= -1 }

  /** Number of edges whose test value is not a failing one. */
  function CountUsable(edges: seq<Edge>, test: Edge -> int): nat {
    if edges == [] then 0 else (if Failing(test(edges[0])) then 0 else 1) + CountUsable(edges[1..], test)
  }

  /** Each counter grows by the number of edges with its test value, "usable" by those with any other value. */
  lemma {:induction false} TallyCounts(t: Tally, edges: seq<Edge>, test: Edge -> int)
    ensures TallyFrom(t, edges, test).contained == t.contained + CountValue(edges, test, -1)
    ensures TallyFrom(t, edges, test).short == t.short + CountValue(edges, test, -2)
    ensures TallyFrom(t, edges, test).lowQual == t.lowQual + CountValue(edges, test, -3)
    ensures TallyFrom(t, edges, test).zero == t.zero + CountValue(edges, test, -4)
    ensures TallyFrom(t, edges, test).usable == t.usable + CountUsable(edges, test)
    decreases |edges|
  {
    if edges != [] {
      TallyCounts(Classify(t, test(edges[0])), edges[1..], test);
    }
  }

  /** Every edge lands in exactly one counter, so the counters grow by the number of edges. */
  lemma {:induction false} TallyTotal(t: Tally, edges: seq<Edge>, test: Edge -> int)
    ensures TallyFrom(t, edges, test).Total() == t.Total() + |edges|
    decreases |edges|
  {
    if edges != [] {
      TallyTotal(Classify(t, test(edges[0])), edges[1..], test);
    }
  }

  /** Edges attached to their start node: those whose test value is positive, in order. */
  function Attach(edges: seq<Edge>, test: Edge -> int): seq<Edge> {
    AtLeast(edges, test, 1)
  }

  /** An edge is attached exactly when it is a candidate with a positive test value. */
  lemma {:induction false} AttachMembers(edges: seq<Edge>, test: Edge -> int, e: Edge)
    ensures e in Attach(edges, test) <==> e in edges && test(e) > 0
  {
    AtLeastMembers(edges, test, 1, e);
  }

  /** Number of edges counted as usable but not attached: test value zero or below -4. */
  function CountUnattachedUsable(edges: seq<Edge>, test: Edge -> int): nat {
    if edges == [] then 0
    else (if test(edges[0]) == 0 || test(edges[0]) < -4 then 1 else 0) + CountUnattachedUsable(edges[1..], test)
  }

  /** Usable edges are the attached ones plus those whose test value is zero or below -4. */
  lemma {:induction false} UsableSplit(edges: seq<Edge>, test: Edge -> int)
    ensures CountUsable(edges, test) == |Attach(edges, test)| + CountUnattachedUsable(edges, test)
  {
    if edges != [] {
      UsableSplit(edges[1..], test);
    }
  }

  /** Outgoing edges of `n`: the attached edges that start at `n`, in attachment order. */
  function OutEdges(attached: seq<Edge>, n: Node): seq<Edge> {
    WithKey(attached, StartNode, n)
  }

  function StartNode(e: Edge): Node { e.start }

  /** Nodes of the map without outgoing edges. */
  function CountIsolated(m: Assoc<Node>, attached: seq<Edge>): nat {
    if m == [] then 0
    else (if OutEdges(attached, m[0].1) == [] then 1 else 0) + CountIsolated(m[1..], attached)
  }

  /**
   No node is isolated exactly when every node has an outgoing edge, and all
   are exactly when none has.
   */
  lemma {:induction false} CountIsolatedBounds(m: Assoc<Node>, attached: seq<Edge>)
    ensures CountIsolated(m, attached) <= |m|
    ensures CountIsolated(m, attached) == 0 <==> forall i :: 0 <= i < |m| ==> OutEdges(attached, m[i].1) != []
    ensures CountIsolated(m, attached) == |m| <==> forall i :: 0 <= i < |m| ==> OutEdges(attached, m[i].1) == []
  {
    if m != [] {
      CountIsolatedBounds(m[1..], attached);
      assert forall i :: 0 < i < |m| ==> m[i] == m[1..][i - 1];
    }
  }

  /** `generateGraph`, with overlap and edge tests and edge creation as parameters. */
  function BuildGraph<O>(
    contigs: Assoc<string>, readSeqs: Assoc<string>, r2c: seq<O>, r2r: seq<O>,
    ovlTest: O -> bool, create: (O, Assoc<Node>, Assoc<Node>) -> seq<Edge>, edgeTest: Edge -> int): GraphState
  {
    var anchors := AddNodes([], contigs, Anchor);
    var readNodes := AddNodes([], readSeqs, Read);
    var make := o => create(o, anchors, readNodes);
    var cands := Candidates(r2c, ovlTest, make) + Candidates(r2r, ovlTest, make);
    var attached := Attach(cands, edgeTest);
    GraphState(
      anchors, readNodes, |anchors|, |readNodes|,
      TallyFrom(Tally(0, 0, 0, 0, 0), cands, edgeTest),
      attached,
      CountIsolated(anchors, attached), CountIsolated(readNodes, attached))
  }

  /**
   The built graph: anchor and read maps are ascending and hold both names of
   every id; the classification counters add up to the number of candidate
   edges, and exactly the candidates with a positive test value are attached.
   */
  lemma BuildGraphSpec<O>(
    contigs: Assoc<string>, readSeqs: Assoc<string>, r2c: seq<O>, r2r: seq<O>,
    ovlTest: O -> bool, create: (O, Assoc<Node>, Assoc<Node>) -> seq<Edge>, edgeTest: Edge -> int)
    ensures var g := BuildGraph(contigs, readSeqs, r2c, r2r, ovlTest, create, edgeTest);
      && Ascending(g.anchors) && Keys(g.anchors) == BothNames(contigs)
      && Ascending(g.readNodes) && Keys(g.readNodes) == BothNames(readSeqs)
      && g.numANodes == |g.anchors| && g.numRNodes == |g.readNodes|
      && var make := o => create(o, g.anchors, g.readNodes);
      && var cands := Candidates(r2c + r2r, ovlTest, make);
      && g.tally.Total() == |cands|
      && (forall e :: e in g.attached <==> e in cands && edgeTest(e) > 0)
      && g.isolatedANodes <= g.numANodes && g.isolatedRNodes <= g.numRNodes
  {
    var g := BuildGraph(contigs, readSeqs, r2c, r2r, ovlTest, create, edgeTest);
    AddNodesKeys([], contigs, Anchor);
    AddNodesKeys([], readSeqs, Read);
    var make := o => create(o, g.anchors, g.readNodes);
    CandidatesAppend(r2c, r2r, ovlTest, make);
    var cands := Candidates(r2c + r2r, ovlTest, make);
    TallyTotal(Tally(0, 0, 0, 0, 0), cands, edgeTest);
    forall e
      ensures e in g.attached <==> e in cands && edgeTest(e) > 0
    {
      AttachMembers(cands, edgeTest, e);
    }
    CountIsolatedBounds(g.anchors, g.attached);
    CountIsolatedBounds(g.readNodes, g.attached);
  }

  /**
   With no suffix clash among the contig ids, contig `id` owns anchor `id`
   (forward) and anchor `id_RC` (reverse complement), both over its sequence.
   */
  lemma BuildGraphAnchors<O>(
    contigs: Assoc<string>, readSeqs: Assoc<string>, r2c: seq<O>, r2r: seq<O>,
    ovlTest: O -> bool, create: (O, Assoc<Node>, Assoc<Node>) -> seq<Edge>, edgeTest: Edge -> int, i: nat)
    requires Ascending(contigs) && NoSuffixClash(contigs) && i < |contigs|
    ensures var g := BuildGraph(contigs, readSeqs, r2c, r2r, ovlTest, create, edgeTest);
      && Get(g.anchors, contigs[i].0) == Some(Node(contigs[i].0, contigs[i].1, Anchor, false))
      && Get(g.anchors, contigs[i].0 + RcSuffix) == Some(Node(contigs[i].0 + RcSuffix, contigs[i].1, Anchor, true))
  {
    AddNodesExact([], contigs, Anchor, i);
  }
}
