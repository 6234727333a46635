/**
 `generateSequences`: the FASTA text written for the final scaffolds, then
 for every forward contig no scaffold used. A scaffold's sequence is, for
 each edge of each of its paths in order, the part of the edge's start node
 before the overlap, followed by the whole last end node; a node standing
 for the reverse strand contributes from its reverse complement.
 */
module Emit {
  import opened Wrappers
  import opened Strings
  import opened Decimal
  import opened Seqs
  import opened SortedMap
  import opened Nodes

  datatype EmitError =
    | InvalidPartSize  // an edge whose part has size zero
    | PartOutOfRange   // a part longer than its node's sequence: the copy would read past the end
    | EmptyScaffold    // a scaffold without paths has no last path
    | EmptyPath        // a path without edges has no first or last edge

  /** `uint32_t` arithmetic wraps modulo 2^32. */
  const Word: int := 0x1_0000_0000

  /** `seq_part_size`: `SStart - EStart` stored in an unsigned 32-bit variable. */
  function PartSize(e: Edge): nat {
    (e.sStart - e.eStart) % Word
  }

  /** `_bioReverseComplement`: the sequence read backwards, every base complemented by `comp`. */
  function RevComp(comp: char -> char, s: string): (r: string)
    ensures |r| == |s|
    ensures forall k :: 0 <= k < |s| ==> r[k] == comp(s[|s| - 1 - k])
  {
    if s == [] then []
    else [comp(s[|s| - 1])] + RevComp(comp, s[..|s| - 1])
  }

  /** For a complement that undoes itself, reverse-complementing twice gives the sequence back. */
  lemma RevCompInvolutive(comp: char -> char, s: string)
    requires forall k :: 0 <= k < |s| ==> comp(comp(s[k])) == s[k]
    ensures RevComp(comp, RevComp(comp, s)) == s
  {
    var r := RevComp(comp, RevComp(comp, s));
    forall k | 0 <= k < |s|
      ensures r[k] == s[k]
    {
      assert |s| - 1 - (|s| - 1 - k) == k;
    }
  }

  /** The node's sequence in the orientation it stands for. */
  function Oriented(comp: char -> char, n: Node): string {
    if n.isRC then RevComp(comp, n.bases) else n.bases
  }

  /** The text an edge contributes: the first `PartSize` bases of its start node, as oriented. */
  function Part(comp: char -> char, e: Edge): Result<string, EmitError> {
    var size := PartSize(e);
    if size == 0 then Failure(InvalidPartSize)
    else if size > |e.start.bases| then Failure(PartOutOfRange)
    else Success(Oriented(comp, e.start)[..size])
  }

  /**
   A part exists exactly when its size is positive and within the node; it
   then holds that many bases: the node's own from the start for a forward
   node, the complements of its bases from the end for a reverse one.
   */
  lemma PartSpec(comp: char -> char, e: Edge)
    ensures Part(comp, e).Success? <==> 0 < PartSize(e) <= |e.start.bases|
    ensures Part(comp, e).Success? ==>
      var p := Part(comp, e).value;
      var b := e.start.bases;
      |p| == PartSize(e)
      && forall k :: 0 <= k < |p| ==> p[k] == if e.start.isRC then comp(b[|b| - 1 - k]) else b[k]
  {
  }

  /**
   The size check only catches zero: a start offset below the end offset wraps
   around to a size near 2^32 instead of being rejected.
   */
  lemma WrappedSizeNotRejected(start: Node, end: Node)
    ensures var e := Edge(start, end, 5, 10);
      PartSize(e) == Word - 5 && Part(ConstComp, e) != Failure(InvalidPartSize)
  {
  }

  function ConstComp(c: char): char { c }

  /** The texts `f` gives the elements, concatenated in order; the first failure stops it. */
  function Joined<T, E>(xs: seq<T>, f: T -> Result<string, E>): Result<string, E> {
    if xs == [] then Success("")
    else
      match f(xs[0])
      case Failure(err) => Failure(err)
      case Success(p) =>
        match Joined(xs[1..], f)
        case Failure(err) => Failure(err)
        case Success(rest) => Success(p + rest)
  }

  function SumOf<T>(xs: seq<T>, size: T -> nat): nat {
    if xs == [] then 0 else size(xs[0]) + SumOf(xs[1..], size)
  }

  /** Joining two runs gives the first run's text followed by the second's. */
  lemma {:induction false} JoinedAppend<T, E>(a: seq<T>, b: seq<T>, f: T -> Result<string, E>)
    ensures Joined(a + b, f).Success? <==> Joined(a, f).Success? && Joined(b, f).Success?
    ensures Joined(a + b, f).Success? ==> Joined(a + b, f).value == Joined(a, f).value + Joined(b, f).value
  {
    if a == [] {
      assert a + b == b;
    } else {
      JoinedAppend(a[1..], b, f);
      assert (a + b)[0] == a[0] && (a + b)[1..] == a[1..] + b;
    }
  }

  /** Joining succeeds exactly when every element's text exists. */
  lemma {:induction false} JoinedSuccess<T, E>(xs: seq<T>, f: T -> Result<string, E>)
    ensures Joined(xs, f).Success? <==> forall j :: 0 <= j < |xs| ==> f(xs[j]).Success?
  {
    if xs != [] {
      JoinedSuccess(xs[1..], f);
      assert (forall j :: 0 <= j < |xs| ==> f(xs[j]).Success?)
         <==> f(xs[0]).Success? && forall j :: 0 <= j < |xs[1..]| ==> f(xs[1..][j]).Success? by {
        forall j | 0 < j < |xs|
          ensures xs[j] == xs[1..][j - 1]
        {
        }
      }
    }
  }

  /** A joined text is as long as all texts together. */
  lemma {:induction false} JoinedLength<T, E>(xs: seq<T>, f: T -> Result<string, E>, size: T -> nat)
    requires forall x :: x in xs && f(x).Success? ==> |f(x).value| == size(x)
    requires Joined(xs, f).Success?
    ensures |Joined(xs, f).value| == SumOf(xs, size)
  {
    if xs != [] {
      assert xs[0] in xs;
      JoinedLength(xs[1..], f, size);
    }
  }

  /** In the joined text, element `j`'s text sits right after the texts of the elements before it. */
  lemma JoinedAt<T, E>(xs: seq<T>, f: T -> Result<string, E>, j: nat)
    requires Joined(xs, f).Success? && j < |xs|
    ensures Joined(xs[..j], f).Success? && f(xs[j]).Success?
    ensures var body := Joined(xs, f).value;
      var lo := |Joined(xs[..j], f).value|;
      lo + |f(xs[j]).value| <= |body| && body[lo..lo + |f(xs[j]).value|] == f(xs[j]).value
  {
    assert xs == xs[..j] + ([xs[j]] + xs[j + 1..]);
    JoinedAppend(xs[..j], [xs[j]] + xs[j + 1..], f);
    JoinedAppend([xs[j]], xs[j + 1..], f);
    assert [xs[j]][1..] == [];
    var before := Joined(xs[..j], f).value;
    var p := f(xs[j]).value;
    assert Joined([xs[j]], f).value == p + "";
    var body := Joined(xs, f).value;
    assert body == before + (p + Joined(xs[j + 1..], f).value);
    assert body[|before|..|before| + |p|] == p;
  }

  function PartOf(comp: char -> char): Edge -> Result<string, EmitError> {
    e => Part(comp, e)
  }

  /** The parts of all edges, concatenated in order; the first invalid part stops the scaffold. */
  function Parts(comp: char -> char, es: seq<Edge>): Result<string, EmitError> {
    Joined(es, PartOf(comp))
  }

  /** Total size of the parts of `es`. */
  function TotalSize(es: seq<Edge>): nat {
    SumOf(es, PartSize)
  }

  /** Every part is valid. */
  predicate AllParts(comp: char -> char, es: seq<Edge>) {
    forall j :: 0 <= j < |es| ==> Part(comp, es[j]).Success?
  }

  /** The scaffold body exists exactly when every part does, and is then as long as all parts together. */
  lemma PartsSpec(comp: char -> char, es: seq<Edge>)
    ensures Parts(comp, es).Success? <==> AllParts(comp, es)
    ensures Parts(comp, es).Success? ==> |Parts(comp, es).value| == TotalSize(es)
  {
    forall e | e in es && PartOf(comp)(e).Success?
      ensures |PartOf(comp)(e).value| == PartSize(e)
    {
      PartSpec(comp, e);
    }
    JoinedSuccess(es, PartOf(comp));
    if Parts(comp, es).Success? {
      JoinedLength(es, PartOf(comp), PartSize);
    }
  }

  /** In the body, part `j` sits right after the parts of the edges before it. */
  lemma PartsAt(comp: char -> char, es: seq<Edge>, j: nat)
    requires Parts(comp, es).Success? && j < |es|
    ensures var body := Parts(comp, es).value;
      var lo := TotalSize(es[..j]);
      lo + PartSize(es[j]) <= |body| && Part(comp, es[j]) == Success(body[lo..lo + PartSize(es[j])])
  {
    JoinedAt(es, PartOf(comp), j);
    PartSpec(comp, es[j]);
    JoinedAppend(es[..j], es[j..], PartOf(comp));
    assert es[..j] + es[j..] == es;
    PartsSpec(comp, es[..j]);
  }

  /** The edges of all paths, in order. */
  function PathEdges(paths: seq<PathInfo>): seq<Edge> {
    if paths == [] then [] else paths[0].edges + PathEdges(paths[1..])
  }

  /** Every path has an edge. */
  predicate AllHaveEdges(paths: seq<PathInfo>) {
    forall i :: 0 <= i < |paths| ==> paths[i].edges != []
  }

  /** Each name preceded by a blank. */
  function Spaced(names: seq<string>): string {
    if names == [] then "" else " " + names[0] + Spaced(names[1..])
  }

  /** The start node of each path's first edge. */
  function FirstStarts(paths: seq<PathInfo>): seq<string>
    requires AllHaveEdges(paths)
  {
    seq(|paths|, i requires 0 <= i < |paths| => paths[i].edges[0].start.name)
  }

  /** The end node of the last edge of the last path. */
  function LastEnd(paths: seq<PathInfo>): Node
    requires paths != [] && AllHaveEdges(paths)
  {
    var last := paths[|paths| - 1].edges;
    last[|last| - 1].end
  }

  function Title(i: nat): string {
    ">Scaffold_" + NatToString(i)
  }

  /** The header line: the scaffold number, each path's first start node and the last end node. */
  function Header(i: nat, paths: seq<PathInfo>): string
    requires paths != [] && AllHaveEdges(paths)
  {
    Title(i) + Spaced(FirstStarts(paths)) + " " + LastEnd(paths).name
  }

  lemma {:induction false} SpacedJoin(first: string, names: seq<string>, last: string)
    ensures first + Spaced(names) + " " + last == JoinWith([first] + names + [last], ' ')
    decreases |names|
  {
    var parts := [first] + names + [last];
    assert parts[0] == first && parts[1..] == names + [last];
    if names == [] {
      assert parts[1..] == [last];
    } else {
      var tail := names[1..];
      SpacedJoin(names[0], tail, last);
      assert [names[0]] + tail + [last] == names + [last];
      calc {
        first + Spaced(names) + " " + last;
        first + (" " + names[0] + Spaced(tail)) + " " + last;
        first + [' '] + (names[0] + Spaced(tail) + " " + last);
      }
    }
  }

  /**
   When no node name contains a blank, splitting the header at blanks gives
   back the title, the paths' first start nodes and the last end node, and the
   title's digits read back as the scaffold number.
   */
  lemma HeaderFields(i: nat, paths: seq<PathInfo>)
    requires paths != [] && AllHaveEdges(paths)
    requires forall j :: 0 <= j < |paths| ==> ' ' !in paths[j].edges[0].start.name
    requires ' ' !in LastEnd(paths).name
    ensures Split(Header(i, paths), ' ') == [Title(i)] + FirstStarts(paths) + [LastEnd(paths).name]
    ensures DigitsValue(Title(i)[|">Scaffold_"|..]) == i
  {
    var parts := [Title(i)] + FirstStarts(paths) + [LastEnd(paths).name];
    SpacedJoin(Title(i), FirstStarts(paths), LastEnd(paths).name);
    var digits := NatToString(i);
    assert Title(i)[|">Scaffold_"|..] == digits;
    assert ' ' !in digits by {
      forall k | 0 <= k < |digits|
        ensures digits[k] != ' '
      {
        assert IsDigit(digits[k]);
      }
    }
    forall j | 0 <= j < |parts|
      ensures ' ' !in parts[j]
    {
      if j == 0 {
        assert Title(i) == ">Scaffold_" + digits;
      } else if j < |parts| - 1 {
        assert parts[j] == paths[j - 1].edges[0].start.name;
      }
    }
    SplitJoin(parts, ' ');
    NatToStringValue(i);
  }

  /** One scaffold's record: header line, then the parts and the last end node on one line. */
  function ScaffoldText(comp: char -> char, i: nat, paths: seq<PathInfo>): Result<string, EmitError> {
    if paths == [] then Failure(EmptyScaffold)
    else if !AllHaveEdges(paths) then Failure(EmptyPath)
    else
      match Parts(comp, PathEdges(paths))
      case Failure(err) => Failure(err)
      case Success(body) => Success(Header(i, paths) + "\n" + body + Oriented(comp, LastEnd(paths)) + "\n")
  }

  /**
   A record is written exactly when the scaffold and its paths are non-empty
   and every part is valid; it then starts with the header line, ends with
   the last end node's whole sequence, and between them holds exactly the
   parts.
   */
  lemma ScaffoldTextSpec(comp: char -> char, i: nat, paths: seq<PathInfo>)
    ensures ScaffoldText(comp, i, paths).Success?
        <==> paths != [] && AllHaveEdges(paths) && AllParts(comp, PathEdges(paths))
    ensures ScaffoldText(comp, i, paths).Success? ==>
      var t := ScaffoldText(comp, i, paths).value;
      var h := Header(i, paths) + "\n";
      var tail := Oriented(comp, LastEnd(paths)) + "\n";
      StartsWith(t, h) && EndsWith(t, tail)
      && |t| == |h| + TotalSize(PathEdges(paths)) + |LastEnd(paths).bases| + 1
      && t[|h|..|t| - |tail|] == Parts(comp, PathEdges(paths)).value
  {
    PartsSpec(comp, PathEdges(paths));
    if ScaffoldText(comp, i, paths).Success? {
      var t := ScaffoldText(comp, i, paths).value;
      var h := Header(i, paths) + "\n";
      var body := Parts(comp, PathEdges(paths)).value;
      var tail := Oriented(comp, LastEnd(paths)) + "\n";
      assert t == h + body + tail;
      assert t[..|h|] == h;
      assert t[|t| - |tail|..] == tail;
      assert t[|h|..|t| - |tail|] == body;
    }
  }

  /** Each scaffold with its number, counting from 1. */
  function Numbered(scaffolds: seq<seq<PathInfo>>): seq<(nat, seq<PathInfo>)> {
    seq(|scaffolds|, k requires 0 <= k < |scaffolds| => (k + 1, scaffolds[k]))
  }

  function RecordOf(comp: char -> char): ((nat, seq<PathInfo>)) -> Result<string, EmitError> {
    (x: (nat, seq<PathInfo>)) => ScaffoldText(comp, x.0, x.1)
  }

  /** The records of all scaffolds, numbered from 1; the first error stops the output. */
  function ScaffoldsText(comp: char -> char, scaffolds: seq<seq<PathInfo>>): Result<string, EmitError> {
    Joined(Numbered(scaffolds), RecordOf(comp))
  }

  /** Both orientations of a path's start and end node. */
  function PathNames(p: PathInfo): set<string> {
    {p.startName, ToggleRC(p.startName), p.endName, ToggleRC(p.endName)}
  }

  function UsedIn(paths: seq<PathInfo>): set<string> {
    if paths == [] then {} else PathNames(paths[0]) + UsedIn(paths[1..])
  }

  /** `usedContigs`, accumulated over all scaffolds. */
  function UsedContigs(scaffolds: seq<seq<PathInfo>>): set<string> {
    if scaffolds == [] then {} else UsedIn(scaffolds[0]) + UsedContigs(scaffolds[1..])
  }

  lemma {:induction false} UsedInSpec(paths: seq<PathInfo>, x: string)
    ensures x in UsedIn(paths) <==> exists i :: 0 <= i < |paths| && x in PathNames(paths[i])
  {
    if paths != [] {
      UsedInSpec(paths[1..], x);
      if exists i :: 0 <= i < |paths| && x in PathNames(paths[i]) {
        var i :| 0 <= i < |paths| && x in PathNames(paths[i]);
        if i > 0 {
          assert paths[i] == paths[1..][i - 1];
        }
      }
    }
  }

  /** A name is used exactly when it is either orientation of some chosen path's start or end node. */
  lemma {:induction false} UsedContigsSpec(scaffolds: seq<seq<PathInfo>>, x: string)
    ensures x in UsedContigs(scaffolds)
        <==> exists k, i :: 0 <= k < |scaffolds| && 0 <= i < |scaffolds[k]| && x in PathNames(scaffolds[k][i])
  {
    if scaffolds != [] {
      UsedInSpec(scaffolds[0], x);
      UsedContigsSpec(scaffolds[1..], x);
      if exists k, i :: 0 <= k < |scaffolds| && 0 <= i < |scaffolds[k]| && x in PathNames(scaffolds[k][i]) {
        var k, i :| 0 <= k < |scaffolds| && 0 <= i < |scaffolds[k]| && x in PathNames(scaffolds[k][i]);
        if k > 0 {
          assert scaffolds[k] == scaffolds[1..][k - 1];
        }
      }
      if exists k, i :: 0 <= k < |scaffolds[1..]| && 0 <= i < |scaffolds[1..][k]| && x in PathNames(scaffolds[1..][k][i]) {
        var k, i :| 0 <= k < |scaffolds[1..]| && 0 <= i < |scaffolds[1..][k]| && x in PathNames(scaffolds[1..][k][i]);
        assert scaffolds[1..][k] == scaffolds[k + 1];
      }
    }
  }

  /** A path touching either orientation of contig `n` marks both orientations used. */
  lemma BothOrientationsUsed(p: PathInfo, n: string)
    requires !EndsWith(n, RcSuffix)
    requires Original(p.startName) == n || Original(p.endName) == n
    ensures n in PathNames(p) && n + RcSuffix in PathNames(p)
  {
    assert ToggleRC(n) == n + RcSuffix;
    var t := n + RcSuffix;
    assert EndsWith(t, RcSuffix) && t[..|t| - |RcSuffix|] == n;
    if EndsWith(p.startName, RcSuffix) && Original(p.startName) == n {
      assert p.startName == t;
    }
    if EndsWith(p.endName, RcSuffix) && Original(p.endName) == n {
      assert p.endName == t;
    }
  }

  /** An anchor is written on its own when it is a forward node whose name no scaffold used. */
  predicate Unused(n: Node, used: set<string>) {
    n.name == Original(n.name) && n.name !in used
  }

  /** The unused anchors in key order. */
  function UnusedNodes(anchors: Assoc<Node>, used: set<string>): seq<Node> {
    if anchors == [] then []
    else (if Unused(anchors[0].1, used) then [anchors[0].1] else []) + UnusedNodes(anchors[1..], used)
  }

  /** A sequence record: `>name`, then the sequence. */
  function Record(n: Node): string {
    ">" + n.name + "\n" + n.bases + "\n"
  }

  function Records(ns: seq<Node>): string {
    if ns == [] then "" else Record(ns[0]) + Records(ns[1..])
  }

  function Values(anchors: Assoc<Node>): seq<Node> {
    seq(|anchors|, i requires 0 <= i < |anchors| => anchors[i].1)
  }

  /**
   The anchors written on their own are, in key order, exactly the forward
   ones whose names were not used.
   */
  lemma {:induction false} UnusedNodesSpec(anchors: Assoc<Node>, used: set<string>)
    ensures Subsequence(UnusedNodes(anchors, used), Values(anchors))
    ensures forall n :: (n in UnusedNodes(anchors, used)
      <==> n in Values(anchors) && !EndsWith(n.name, RcSuffix) && n.name !in used)
  {
    if anchors != [] {
      var n := anchors[0].1;
      var rest := UnusedNodes(anchors[1..], used);
      UnusedNodesSpec(anchors[1..], used);
      assert Values(anchors) == [n] + Values(anchors[1..]);
      assert Unused(n, used) <==> !EndsWith(n.name, RcSuffix) && n.name !in used by {
        OriginalFixed(n.name);
      }
      if Unused(n, used) {
        assert UnusedNodes(anchors, used) == [n] + rest;
        assert UnusedNodes(anchors, used)[1..] == rest;
      } else {
        assert UnusedNodes(anchors, used) == rest;
        SubsequenceSkip(rest, n, Values(anchors[1..]));
      }
    }
  }

  lemma SubsequenceSkip(a: seq<Node>, x: Node, b: seq<Node>)
    requires Subsequence(a, b)
    ensures Subsequence(a, [x] + b)
  {
    assert ([x] + b)[1..] == b;
  }

  /** `generateSequences`: every scaffold's record, numbered from 1, then the unused contigs. */
  function Sequences(comp: char -> char, scaffolds: seq<seq<PathInfo>>, anchors: Assoc<Node>)
    : Result<string, EmitError>
  {
    match ScaffoldsText(comp, scaffolds)
    case Failure(err) => Failure(err)
    case Success(t) => Success(t + Records(UnusedNodes(anchors, UsedContigs(scaffolds))))
  }

  /**
   No contig is written twice: an anchor written on its own is neither
   orientation of any chosen path's start or end node.
   */
  lemma NoContigTwice(scaffolds: seq<seq<PathInfo>>, anchors: Assoc<Node>, n: Node, k: nat, i: nat)
    requires n in UnusedNodes(anchors, UsedContigs(scaffolds))
    requires k < |scaffolds| && i < |scaffolds[k]|
    ensures Original(scaffolds[k][i].startName) != n.name && Original(scaffolds[k][i].endName) != n.name
  {
    var used := UsedContigs(scaffolds);
    UnusedNodesSpec(anchors, used);
    var p := scaffolds[k][i];
    if Original(p.startName) == n.name || Original(p.endName) == n.name {
      BothOrientationsUsed(p, n.name);
      UsedContigsSpec(scaffolds, n.name);
      assert false;
    }
  }

  /** All scaffold records are written exactly when each of them can be. */
  lemma SequencesSucceed(comp: char -> char, scaffolds: seq<seq<PathInfo>>, anchors: Assoc<Node>)
    ensures Sequences(comp, scaffolds, anchors).Success?
        <==> forall k :: 0 <= k < |scaffolds| ==> ScaffoldText(comp, k + 1, scaffolds[k]).Success?
  {
    JoinedSuccess(Numbered(scaffolds), RecordOf(comp));
    assert forall k :: 0 <= k < |scaffolds| ==> Numbered(scaffolds)[k] == (k + 1, scaffolds[k]);
  }

  /** The record of scaffold `k`, numbered `k + 1`, follows the records of the scaffolds before it. */
  lemma ScaffoldsTextAt(comp: char -> char, scaffolds: seq<seq<PathInfo>>, k: nat)
    requires ScaffoldsText(comp, scaffolds).Success? && k < |scaffolds|
    ensures ScaffoldsText(comp, scaffolds[..k]).Success? && ScaffoldText(comp, k + 1, scaffolds[k]).Success?
    ensures var t := ScaffoldsText(comp, scaffolds).value;
      var lo := |ScaffoldsText(comp, scaffolds[..k]).value|;
      var rec := ScaffoldText(comp, k + 1, scaffolds[k]).value;
      lo + |rec| <= |t| && t[lo..lo + |rec|] == rec
  {
    var xs := Numbered(scaffolds);
    NumberedPrefix(scaffolds, k);
    JoinedAt(xs, RecordOf(comp), k);
    assert RecordOf(comp)(xs[k]) == ScaffoldText(comp, k + 1, scaffolds[k]);
  }

  lemma NumberedPrefix(scaffolds: seq<seq<PathInfo>>, k: nat)
    requires k < |scaffolds|
    ensures Numbered(scaffolds)[..k] == Numbered(scaffolds[..k])
    ensures Numbered(scaffolds)[k] == (k + 1, scaffolds[k])
  {
  }

  /** The scaffold records come first and the unused contigs close the output. */
  lemma SequencesLayout(comp: char -> char, scaffolds: seq<seq<PathInfo>>, anchors: Assoc<Node>)
    requires Sequences(comp, scaffolds, anchors).Success?
    ensures var out := Sequences(comp, scaffolds, anchors).value;
      StartsWith(out, ScaffoldsText(comp, scaffolds).value)
      && EndsWith(out, Records(UnusedNodes(anchors, UsedContigs(scaffolds))))
  {
    var t := ScaffoldsText(comp, scaffolds).value;
    var tail := Records(UnusedNodes(anchors, UsedContigs(scaffolds)));
    var out := Sequences(comp, scaffolds, anchors).value;
    assert out == t + tail;
    assert out[..|t|] == t;
    assert out[|out| - |tail|..] == tail;
  }
}
