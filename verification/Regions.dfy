/** Reserved regions: intervals of frames kept in a merged, pairwise separated form. */
module Regions {
  import opened Wrappers

  const MAX_RESERVED_REGIONS := 32

  datatype ReservationReason =
    | KernelImage
    | Bootloader
    | PageTables
    | Heap
    | InitramfsModule
    | NullFrame

  /** Frames from `startFrame` up to but not including `endFrame`. */
  datatype ReservedRegion = ReservedRegion(startFrame: nat, endFrame: nat, reason: ReservationReason) {

    predicate Contains(frame: nat) {
      startFrame <= frame < endFrame
    }

    predicate Overlaps(other: ReservedRegion) {
      startFrame < other.endFrame && other.startFrame < endFrame
    }

    function TryMerge(other: ReservedRegion): Option<ReservedRegion> {
      var adjacent := endFrame == other.startFrame || other.endFrame == startFrame;
      if adjacent || Overlaps(other) then
        Some(ReservedRegion(
               if startFrame < other.startFrame then startFrame else other.startFrame,
               if endFrame > other.endFrame then endFrame else other.endFrame,
               reason))
      else
        None
    }
  }

  /** At least one frame lies strictly between the two regions. */
  predicate Apart(a: ReservedRegion, b: ReservedRegion) {
    a.endFrame < b.startFrame || b.endFrame < a.startFrame
  }

  ghost predicate NonEmpty(rs: seq<ReservedRegion>) {
    forall i :: 0 <= i < |rs| ==> rs[i].startFrame < rs[i].endFrame
  }

  /** The canonical form: no region empty, no two touching. */
  ghost predicate Canonical(rs: seq<ReservedRegion>) {
    NonEmpty(rs) && forall i, j :: 0 <= i < j < |rs| ==> Apart(rs[i], rs[j])
  }

  ghost predicate Covered(rs: seq<ReservedRegion>, frame: nat) {
    exists i :: 0 <= i < |rs| && rs[i].Contains(frame)
  }

  /** Merging gives exactly the union, and is refused exactly when a gap would be filled in. */
  lemma MergeIsUnion(a: ReservedRegion, b: ReservedRegion)
    requires a.startFrame < a.endFrame && b.startFrame < b.endFrame
    ensures a.TryMerge(b).None? <==> Apart(a, b)
    ensures a.TryMerge(b).Some? ==>
              var m := a.TryMerge(b).value;
              m.startFrame < m.endFrame && m.reason == a.reason &&
              forall f: nat :: m.Contains(f) <==> a.Contains(f) || b.Contains(f)
  {
  }

  /** The list after region j has been merged into region i and taken out. */
  function Absorb(rs: seq<ReservedRegion>, i: nat, j: nat, m: ReservedRegion): seq<ReservedRegion>
    requires i < j < |rs|
  {
    rs[..i] + [m] + rs[i + 1..j] + rs[j + 1..]
  }

  lemma AbsorbKeepsUnion(rs: seq<ReservedRegion>, i: nat, j: nat, m: ReservedRegion)
    requires i < j < |rs| && NonEmpty(rs) && rs[i].TryMerge(rs[j]) == Some(m)
    ensures NonEmpty(Absorb(rs, i, j, m))
    ensures forall f: nat :: Covered(Absorb(rs, i, j, m), f) <==> Covered(rs, f)
  {
    MergeIsUnion(rs[i], rs[j]);
    var out := Absorb(rs, i, j, m);
    forall f: nat
      ensures Covered(out, f) <==> Covered(rs, f)
    {
      if Covered(rs, f) {
        var k :| 0 <= k < |rs| && rs[k].Contains(f);
        var k' := if k == i || k == j then i else if k < j then k else k - 1;
        assert out[k'].Contains(f);
      }
      if Covered(out, f) {
        var k :| 0 <= k < |out| && out[k].Contains(f);
        if k == i {
          assert rs[i].Contains(f) || rs[j].Contains(f);
        } else {
          assert rs[if k < j then k else k + 1].Contains(f);
        }
      }
    }
  }

  /** One `reserve_range` call, as a relation between the lists before and after. */
  ghost predicate Reserves(rs: seq<ReservedRegion>, lo: nat, hi: nat, rs': seq<ReservedRegion>) {
    Canonical(rs') && forall f: nat :: Covered(rs', f) <==> Covered(rs, f) || lo <= f < hi
  }

  /** After any sequence of calls the list covers exactly the union of the requests. */
  lemma {:induction false} ReservesUnion(states: seq<seq<ReservedRegion>>, reqs: seq<(nat, nat)>, f: nat)
    requires |states| == |reqs| + 1
    requires forall k :: 0 <= k < |reqs| ==> Reserves(states[k], reqs[k].0, reqs[k].1, states[k + 1])
    ensures Covered(states[|reqs|], f) <==>
            Covered(states[0], f) || exists k :: 0 <= k < |reqs| && reqs[k].0 <= f < reqs[k].1
  {
    if reqs != [] {
      var n := |reqs| - 1;
      ReservesUnion(states[..n + 1], reqs[..n], f);
      assert Reserves(states[n], reqs[n].0, reqs[n].1, states[n + 1]);
      if exists k :: 0 <= k < |reqs| && reqs[k].0 <= f < reqs[k].1 {
        var k :| 0 <= k < |reqs| && reqs[k].0 <= f < reqs[k].1;
        if k < n {
          assert reqs[..n][k] == reqs[k];
        }
      }
      if exists k :: 0 <= k < n && reqs[..n][k].0 <= f < reqs[..n][k].1 {
        var k :| 0 <= k < n && reqs[..n][k].0 <= f < reqs[..n][k].1;
        assert reqs[k].0 <= f < reqs[k].1;
      }
    }
  }

  function TotalSize(rs: seq<ReservedRegion>): int {
    if rs == [] then 0 else TotalSize(rs[..|rs| - 1]) + (rs[|rs| - 1].endFrame - rs[|rs| - 1].startFrame)
  }

  ghost function Interval(lo: nat, hi: nat): set<nat> {
    set f: nat | lo <= f < hi && Between(lo, f, hi)
  }

  predicate Between(lo: nat, f: nat, hi: nat) {
    lo <= f < hi
  }

  ghost function Frames(rs: seq<ReservedRegion>): set<nat> {
    if rs == [] then {} else Frames(rs[..|rs| - 1]) + Interval(rs[|rs| - 1].startFrame, rs[|rs| - 1].endFrame)
  }

  lemma {:induction false} IntervalSize(lo: nat, hi: nat)
    requires lo <= hi
    ensures |Interval(lo, hi)| == hi - lo
    decreases hi - lo
  {
    if lo < hi {
      IntervalSize(lo, hi - 1);
      assert Interval(lo, hi) == Interval(lo, hi - 1) + {hi - 1};
    } else {
      assert Interval(lo, hi) == {};
    }
  }

  lemma {:induction false} FramesAreCovered(rs: seq<ReservedRegion>, f: nat)
    ensures f in Frames(rs) <==> Covered(rs, f)
  {
    if rs != [] {
      var n := |rs| - 1;
      FramesAreCovered(rs[..n], f);
      if Covered(rs, f) {
        var k :| 0 <= k < |rs| && rs[k].Contains(f);
        assert k < n ==> rs[..n][k].Contains(f);
      }
      if Covered(rs[..n], f) {
        var k :| 0 <= k < n && rs[..n][k].Contains(f);
        assert rs[k].Contains(f);
      }
    }
  }

  /** In canonical form the sum of the sizes counts every covered frame once. */
  lemma {:induction false} TotalSizeCountsFrames(rs: seq<ReservedRegion>)
    requires Canonical(rs)
    ensures TotalSize(rs) == |Frames(rs)|
  {
    if rs != [] {
      var n := |rs| - 1;
      TotalSizeCountsFrames(rs[..n]);
      IntervalSize(rs[n].startFrame, rs[n].endFrame);
      var last := Interval(rs[n].startFrame, rs[n].endFrame);
      forall f | f in Frames(rs[..n])
        ensures f !in last
      {
        FramesAreCovered(rs[..n], f);
        var k :| 0 <= k < n && rs[..n][k].Contains(f);
        assert Apart(rs[k], rs[n]);
      }
    }
  }
}
