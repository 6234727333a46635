/**
 The entities of the overlap graph the scaffolder works on: nodes for both
 orientations of every contig and read, edges between them, paths through
 the graph and groups of paths joining the same two anchors.
 */
module Nodes {
  import opened Strings

  /** Suffix that names the reverse-complement twin of a node. */
  const RcSuffix: string := "_RC"

  datatype NodeKind = Anchor | Read

  /**
   A graph node: `name` is its key in the node map, `bases` the sequence of
   the contig or read it was built from, `isRC` whether it stands for the
   reverse complement of that sequence.
   */
  datatype Node = Node(name: string, bases: string, kind: NodeKind, isRC: bool)

  /**
   An edge from `start` to `end`; `sStart - eStart` is the number of bases
   of `start` the edge contributes before `end` takes over.
   */
  datatype Edge = Edge(start: Node, end: Node, sStart: int, eStart: int)

  /** A path through the graph between two anchors, with its average sequence identity. */
  datatype PathInfo = PathInfo(edges: seq<Edge>, startName: string, endName: string, avgSI: real)

  /** Paths joining the same two anchors. */
  datatype Group = Group(startName: string, endName: string, numPaths: int, infos: seq<PathInfo>)

  /** `getRCNodeName`: the name of the other orientation, toggling the suffix. */
  function ToggleRC(name: string): string {
    if EndsWith(name, RcSuffix) then name[..|name| - |RcSuffix|] else name + RcSuffix
  }

  /** `getOGNodeName`: the name of the forward orientation. */
  function Original(name: string): string {
    if EndsWith(name, RcSuffix) then name[..|name| - |RcSuffix|] else name
  }

  /** Toggling never yields the same name. */
  lemma ToggleRCDiffers(name: string)
    ensures ToggleRC(name) != name
  {
  }

  /**
   Toggling twice gives the name back, except for names carrying the suffix
   twice (`"x_RC_RC"` toggles to `"x_RC"` and then to `"x"`).
   */
  lemma ToggleRCInvolutive(name: string)
    requires !EndsWith(name, RcSuffix + RcSuffix)
    ensures ToggleRC(ToggleRC(name)) == name
  {
    if EndsWith(name, RcSuffix) {
      var base := name[..|name| - |RcSuffix|];
      assert name == base + RcSuffix;
    } else {
      var t := name + RcSuffix;
      assert t[..|t| - |RcSuffix|] == name;
    }
  }

  lemma ToggleRCNotInvolutive()
    ensures ToggleRC(ToggleRC("x_RC_RC")) == "x"
  {
    assert EndsWith("x_RC_RC", RcSuffix);
    assert "x_RC_RC"[..4] == "x_RC";
    assert EndsWith("x_RC", RcSuffix);
    assert "x_RC"[..1] == "x";
  }

  /** A name is its own forward orientation exactly when it has no suffix. */
  lemma OriginalFixed(name: string)
    ensures Original(name) == name <==> !EndsWith(name, RcSuffix)
  {
  }
}
