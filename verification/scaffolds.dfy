/**
 Scaffold equivalence and duplicate elimination. Every contig and read has a
 node for each strand, so each scaffold is normally found twice: once along
 the forward strand and once, backwards, along the reverse one. Two scaffolds
 are equivalent when the second, read from its end, names the other
 orientation of every node of the first; only the first scaffold of each
 equivalence is kept.
 */
module Scaffolds {
  import opened Wrappers
  import opened Strings
  import opened Seqs
  import opened Nodes
  import opened Chaining

  /** The one error the comparison raises: both scaffolds are empty. */
  datatype ScaffoldError = EmptyScaffolds

  /**
   `s1` read forwards is `s2` read backwards with every node toggled to its
   other orientation: group `i` of `s1` joins the twins of the nodes group
   `n - 1 - i` of `s2` joins, in the opposite direction.
   */
  predicate Mirrored(s1: seq<Group>, s2: seq<Group>)
    requires |s1| == |s2|
  {
    forall i :: 0 <= i < |s1| ==>
      s1[i].startName == ToggleRC(s2[|s1| - 1 - i].endName)
      && s1[i].endName == ToggleRC(s2[|s1| - 1 - i].startName)
  }

  /**
   The verdict of `scaffoldsEqual`: scaffolds of different sizes differ, two
   empty scaffolds are an error, otherwise they are equivalent exactly when
   they mirror each other.
   */
  function Equivalent(s1: seq<Group>, s2: seq<Group>): Result<bool, ScaffoldError> {
    if |s1| != |s2| then Success(false)
    else if s1 == [] then Failure(EmptyScaffolds)
    else Success(Mirrored(s1, s2))
  }

  /** `scaffoldsEqual`: one pass pairing group `i` of the first with group `size - 1 - i` of the second. */
  method ScaffoldsEqual(s1: seq<Group>, s2: seq<Group>) returns (r: Result<bool, ScaffoldError>)
    ensures r == Equivalent(s1, s2)
  {
    if |s1| != |s2| {
      return Success(false);
    }
    if |s1| == 0 && |s2| == 0 {
      return Failure(EmptyScaffolds);
    }
    var size := |s1|;
    var i := 0;
    while i < size
      invariant 0 <= i <= size
      invariant forall j :: 0 <= j < i ==>
        s1[j].startName == ToggleRC(s2[size - 1 - j].endName)
        && s1[j].endName == ToggleRC(s2[size - 1 - j].startName)
    {
      var sname1 := s1[i].startName;
      var ename1 := s1[i].endName;
      var sname2 := s2[size - 1 - i].startName;
      var ename2 := s2[size - 1 - i].endName;
      if sname1 != ToggleRC(ename2) || ename1 != ToggleRC(sname2) {
        return Success(false);
      }
      i := i + 1;
    }
    return Success(true);
  }

  /**
   The same chain of anchors on the other strand: groups in reverse order,
   each joining the twins of its nodes the other way round. Only the node
   names take part in the comparison; counts and paths are carried along.
   */
  function Mirror(s: seq<Group>): seq<Group> {
    seq(|s|, i requires 0 <= i < |s| =>
      Group(ToggleRC(s[|s| - 1 - i].endName), ToggleRC(s[|s| - 1 - i].startName),
            s[|s| - 1 - i].numPaths, s[|s| - 1 - i].infos))
  }

  /** A non-empty scaffold's other-strand twin is recognised as its duplicate. */
  lemma MirrorEquivalent(s: seq<Group>)
    requires s != []
    ensures Equivalent(Mirror(s), s) == Success(true)
  {
  }

  /** No node name carries the suffix twice, so toggling is an involution on it. */
  predicate Plain(s: seq<Group>) {
    forall i :: 0 <= i < |s| ==>
      !EndsWith(s[i].startName, RcSuffix + RcSuffix) && !EndsWith(s[i].endName, RcSuffix + RcSuffix)
  }

  /** Mirroring is symmetric when the second scaffold's names are plain. */
  lemma MirroredSymmetric(s1: seq<Group>, s2: seq<Group>)
    requires |s1| == |s2| && Mirrored(s1, s2) && Plain(s2)
    ensures Mirrored(s2, s1)
  {
    forall i | 0 <= i < |s2|
      ensures ToggleRC(ToggleRC(s2[i].startName)) == s2[i].startName
      ensures ToggleRC(ToggleRC(s2[i].endName)) == s2[i].endName
    {
      ToggleRCInvolutive(s2[i].startName);
      ToggleRCInvolutive(s2[i].endName);
    }
    FlipWith(s1, s2, ToggleRC);
  }

  /** The symmetry argument for any renaming that undoes itself on the second scaffold's names. */
  lemma FlipWith(s1: seq<Group>, s2: seq<Group>, twin: string -> string)
    requires |s1| == |s2|
    requires forall i :: 0 <= i < |s1| ==>
      s1[i].startName == twin(s2[|s1| - 1 - i].endName) && s1[i].endName == twin(s2[|s1| - 1 - i].startName)
    requires forall i :: 0 <= i < |s2| ==>
      twin(twin(s2[i].startName)) == s2[i].startName && twin(twin(s2[i].endName)) == s2[i].endName
    ensures forall i :: 0 <= i < |s2| ==>
      s2[i].startName == twin(s1[|s2| - 1 - i].endName) && s2[i].endName == twin(s1[|s2| - 1 - i].startName)
  {
    var n := |s1|;
    forall i | 0 <= i < n
      ensures s2[i].startName == twin(s1[n - 1 - i].endName) && s2[i].endName == twin(s1[n - 1 - i].startName)
    {
      assert n - 1 - (n - 1 - i) == i;
    }
  }

  /** For plain scaffolds the comparison does not depend on the argument order. */
  lemma EquivalentSymmetric(s1: seq<Group>, s2: seq<Group>)
    requires Plain(s1) && Plain(s2)
    ensures Equivalent(s1, s2) == Equivalent(s2, s1)
  {
    if |s1| == |s2| && s1 != [] {
      if Mirrored(s1, s2) {
        MirroredSymmetric(s1, s2);
      }
      if Mirrored(s2, s1) {
        MirroredSymmetric(s2, s1);
      }
    }
  }

  /** A name with the suffix twice breaks the symmetry. */
  lemma EquivalentAsymmetric()
    ensures var s1 := [Group("y_RC", "x_RC", 1, [])];
      var s2 := [Group("x_RC_RC", "y", 1, [])];
      Equivalent(s1, s2) == Success(true) && Equivalent(s2, s1) == Success(false)
  {
    var s1 := [Group("y_RC", "x_RC", 1, [])];
    var s2 := [Group("x_RC_RC", "y", 1, [])];
    assert EndsWith("x_RC_RC", RcSuffix) && "x_RC_RC"[..4] == "x_RC";
    assert !EndsWith("y", RcSuffix) && "y" + RcSuffix == "y_RC";
    assert EndsWith("x_RC", RcSuffix) && "x_RC"[..1] == "x";
    assert ToggleRC(s1[0].endName) == "x" != s2[0].startName;
  }

  /** The mirror of a chain of groups is a chain too. */
  lemma MirroredLinked(s1: seq<Group>, s2: seq<Group>)
    requires |s1| == |s2| && Mirrored(s1, s2) && Linked(s2)
    ensures Linked(s1)
  {
    var n := |s1|;
    forall i | 0 <= i < n - 1
      ensures s1[i].endName == s1[i + 1].startName
    {
      assert n - 1 - (i + 1) + 1 == n - 1 - i;
    }
  }

  /** `s` is a non-empty scaffold of the same size as `k` that mirrors it. */
  predicate Matches(s: seq<Group>, k: seq<Group>) {
    |s| == |k| && s != [] && Mirrored(s, k)
  }

  /** The inner `for` with `break`: whether `s` is equivalent to some kept scaffold, scanning in order. */
  function FoundIn(s: seq<Group>, kept: seq<seq<Group>>): Result<bool, ScaffoldError> {
    if kept == [] then Success(false)
    else
      match Equivalent(s, kept[0])
      case Failure(e) => Failure(e)
      case Success(found) => if found then Success(true) else FoundIn(s, kept[1..])
  }

  /**
   The scan fails exactly when `s` and some kept scaffold are both empty, and
   otherwise finds whether `s` matches a kept scaffold.
   */
  lemma {:induction false} FoundInSpec(s: seq<Group>, kept: seq<seq<Group>>)
    ensures FoundIn(s, kept)
         == if s == [] && [] in kept then Failure(EmptyScaffolds)
            else Success(exists j :: 0 <= j < |kept| && Matches(s, kept[j]))
  {
    if kept != [] {
      FoundInSpec(s, kept[1..]);
      assert kept == [kept[0]] + kept[1..];
      if s == [] {
        assert [] in kept <==> kept[0] == [] || [] in kept[1..];
      } else {
        if Matches(s, kept[0]) {
          assert Equivalent(s, kept[0]) == Success(true);
        } else {
          assert Equivalent(s, kept[0]) == Success(false);
          assert (exists j :: 0 <= j < |kept| && Matches(s, kept[j]))
             <==> (exists j :: 0 <= j < |kept[1..]| && Matches(s, kept[1..][j])) by {
            forall j | 0 < j < |kept|
              ensures kept[j] == kept[1..][j - 1]
            {
            }
          }
        }
      }
    }
  }

  /** The outer loop: keep each scaffold unless it is equivalent to one kept already. */
  function DedupFrom(scaffs: seq<seq<Group>>, kept: seq<seq<Group>>): Result<seq<seq<Group>>, ScaffoldError> {
    if scaffs == [] then Success(kept)
    else
      match FoundIn(scaffs[0], kept)
      case Failure(e) => Failure(e)
      case Success(found) => DedupFrom(scaffs[1..], if found then kept else kept + [scaffs[0]])
  }

  /** `scaffolds_filtered`: the scaffolds left after dropping duplicates. */
  function Dedup(scaffs: seq<seq<Group>>): Result<seq<seq<Group>>, ScaffoldError> {
    DedupFrom(scaffs, [])
  }

  /** At least two of the scaffolds are empty. */
  predicate TwoEmpty(scaffs: seq<seq<Group>>) {
    exists i, j :: 0 <= i < j < |scaffs| && scaffs[i] == [] && scaffs[j] == []
  }

  /** Elimination fails exactly when an empty scaffold meets another empty one. */
  lemma {:induction false} DedupFromFails(scaffs: seq<seq<Group>>, kept: seq<seq<Group>>)
    ensures DedupFrom(scaffs, kept).Failure? <==> ([] in kept && [] in scaffs) || TwoEmpty(scaffs)
  {
    if scaffs != [] {
      var s := scaffs[0];
      var rest := scaffs[1..];
      FoundInSpec(s, kept);
      assert scaffs == [s] + rest;
      assert [] in scaffs <==> s == [] || [] in rest;
      TwoEmptyCons(scaffs);
      if !(s == [] && [] in kept) {
        var found := exists j :: 0 <= j < |kept| && Matches(s, kept[j]);
        var kept' := if found then kept else kept + [s];
        DedupFromFails(rest, kept');
        assert [] in kept' <==> [] in kept || s == [];
      }
    }
  }

  /** Two empty scaffolds: the first one and a later one, or two later ones. */
  lemma TwoEmptyCons(scaffs: seq<seq<Group>>)
    requires scaffs != []
    ensures TwoEmpty(scaffs) <==> (scaffs[0] == [] && [] in scaffs[1..]) || TwoEmpty(scaffs[1..])
  {
    var rest := scaffs[1..];
    if TwoEmpty(scaffs) {
      var i, j :| 0 <= i < j < |scaffs| && scaffs[i] == [] && scaffs[j] == [];
      if i > 0 {
        assert rest[i - 1] == [] && rest[j - 1] == [];
      } else {
        assert rest[j - 1] in rest;
      }
    }
    if scaffs[0] == [] && [] in rest {
      var j :| 0 <= j < |rest| && rest[j] == [];
      assert scaffs[0] == [] && scaffs[j + 1] == [];
    }
    if TwoEmpty(rest) {
      var i, j :| 0 <= i < j < |rest| && rest[i] == [] && rest[j] == [];
      assert scaffs[i + 1] == [] && scaffs[j + 1] == [];
    }
  }

  /** Elimination succeeds exactly when at most one scaffold is empty. */
  lemma DedupFails(scaffs: seq<seq<Group>>)
    ensures Dedup(scaffs).Failure? <==> TwoEmpty(scaffs)
  {
    DedupFromFails(scaffs, []);
  }

  /** The kept scaffolds extend the earlier ones by a subsequence of the input. */
  lemma {:induction false} DedupFromKeeps(scaffs: seq<seq<Group>>, kept: seq<seq<Group>>)
    requires DedupFrom(scaffs, kept).Success?
    ensures var r := DedupFrom(scaffs, kept).value;
      |kept| <= |r| && r[..|kept|] == kept && Subsequence(r[|kept|..], scaffs)
  {
    if scaffs != [] {
      var s := scaffs[0];
      var found := FoundIn(s, kept).value;
      var kept' := if found then kept else kept + [s];
      DedupFromKeeps(scaffs[1..], kept');
      var r := DedupFrom(scaffs, kept).value;
      assert r == DedupFrom(scaffs[1..], kept').value;
      if !found {
        assert r[|kept|..][0] == s && r[|kept|..][1..] == r[|kept'|..];
      }
    }
  }

  /** Every input scaffold is kept or matches a scaffold that was kept. */
  lemma {:induction false} DedupFromCovers(scaffs: seq<seq<Group>>, kept: seq<seq<Group>>, s: seq<Group>)
    requires DedupFrom(scaffs, kept).Success? && s in scaffs
    ensures var r := DedupFrom(scaffs, kept).value;
      s in r || exists j :: 0 <= j < |r| && Matches(s, r[j])
  {
    var h := scaffs[0];
    var found := FoundIn(h, kept).value;
    var kept' := if found then kept else kept + [h];
    var r := DedupFrom(scaffs, kept).value;
    assert r == DedupFrom(scaffs[1..], kept').value;
    DedupFromKeeps(scaffs[1..], kept');
    if s == h {
      FoundInSpec(h, kept);
      if found {
        var j :| 0 <= j < |kept| && Matches(h, kept[j]);
        assert r[j] == kept[j];
      } else {
        assert r[|kept|] == kept'[|kept|];
      }
    } else {
      DedupFromCovers(scaffs[1..], kept', s);
    }
  }

  /** No kept scaffold matches one kept before it. */
  predicate Distinct(r: seq<seq<Group>>) {
    forall i, j :: 0 <= i < j < |r| ==> !Matches(r[j], r[i])
  }

  lemma {:induction false} DedupFromDistinct(scaffs: seq<seq<Group>>, kept: seq<seq<Group>>)
    requires DedupFrom(scaffs, kept).Success? && Distinct(kept)
    ensures Distinct(DedupFrom(scaffs, kept).value)
  {
    if scaffs != [] {
      var s := scaffs[0];
      var found := FoundIn(s, kept).value;
      FoundInSpec(s, kept);
      if !found {
        var kept' := kept + [s];
        forall i, j | 0 <= i < j < |kept'|
          ensures !Matches(kept'[j], kept'[i])
        {
          if j == |kept| {
            assert kept'[i] == kept[i];
          }
        }
        DedupFromDistinct(scaffs[1..], kept');
      } else {
        DedupFromDistinct(scaffs[1..], kept);
      }
    }
  }

  /**
   Without two empty scaffolds elimination succeeds; the kept scaffolds are a
   subsequence of the input, none matches an earlier kept one, and every
   dropped scaffold matches a kept one.
   */
  lemma DedupSpec(scaffs: seq<seq<Group>>)
    requires !TwoEmpty(scaffs)
    ensures Dedup(scaffs).Success?
    ensures var r := Dedup(scaffs).value;
      && Subsequence(r, scaffs) && Distinct(r)
      && (forall s :: s in scaffs ==> s in r || exists j :: 0 <= j < |r| && Matches(s, r[j]))
  {
    DedupFails(scaffs);
    DedupFromKeeps(scaffs, []);
    DedupFromDistinct(scaffs, []);
    var r := Dedup(scaffs).value;
    assert r[0..] == r;
    forall s | s in scaffs
      ensures s in r || exists j :: 0 <= j < |r| && Matches(s, r[j])
    {
      DedupFromCovers(scaffs, [], s);
    }
  }
}
