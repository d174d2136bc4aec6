/** The reference-counting physical frame allocator. */
module FrameAllocators {
  import opened Wrappers
  import opened Bitmaps
  import opened Regions

  const MAX_REFCOUNT: nat := 65535
  const WORD: nat := 0x1_0000_0000_0000_0000

  /** One reference more, saturating; a free frame gets none. */
  function Increased(count: nat): nat {
    if 0 < count < MAX_REFCOUNT then count + 1 else count
  }

  class FrameAllocator {
    const start: nat
    const end: nat
    const bitmap: Bitmap
    var nextFrame: nat
    var regions: seq<ReservedRegion>
    var refcounts: Option<seq<nat>>

    ghost predicate Valid()
      reads this
    {
      && start <= end
      && bitmap.Valid()
      && bitmap.size == end - start
      && start <= nextFrame <= end
      && |regions| <= MAX_RESERVED_REGIONS
      && Canonical(regions)
      && (refcounts.Some? ==>
            && |refcounts.value| >= end - start
            && forall i :: 0 <= i < |refcounts.value| ==> refcounts.value[i] <= MAX_REFCOUNT)
    }

    /** Reference counting is on, and a frame's count is positive exactly when its bit is set. */
    ghost predicate Counted()
      requires Valid()
      reads this, bitmap.data
    {
      refcounts.Some? && forall i :: 0 <= i < end - start ==> (refcounts.value[i] > 0 <==> bitmap.Bits()[i])
    }

    ghost predicate Managed(frame: nat) {
      start <= frame < end
    }

    ghost predicate Allocated(frame: nat)
      requires Valid()
      reads this, bitmap.data
    {
      Managed(frame) && bitmap.Bits()[frame - start]
    }

    /** The frames that are handed out. */
    ghost function InUse(): set<nat>
      requires Valid()
      reads this, bitmap.data
    {
      FramesSet(bitmap.Bits(), start)
    }

    /** The reference count of every managed frame. */
    ghost function Counts(): map<nat, nat>
      requires Valid() && refcounts.Some?
      reads this
    {
      map f: nat | start <= f < end && Managed(f) :: refcounts.value[f - start]
    }

    /** With counting on, the counts determine the bitmap. */
    lemma CountsGiveBits()
      requires Valid() && Counted()
      ensures bitmap.Bits() == BitsOf(Counts(), start, end - start)
    {
      hide Canonical, Bitmap.Bits;
      forall i | 0 <= i < end - start
        ensures bitmap.Bits()[i] == BitsOf(Counts(), start, end - start)[i]
      {
        assert Managed(start + i) && Counts()[start + i] == refcounts.value[i];
      }
    }

    /** A start above the end is accepted, with an empty bitmap, and gives an allocator that is not valid. */
    constructor (startFrame: nat, endFrame: nat, storage: array<bv8>)
      requires startFrame <= endFrame ==> (endFrame - startFrame + 7) / 8 <= storage.Length
      modifies storage
      ensures start == startFrame && end == endFrame && nextFrame == startFrame
      ensures fresh(bitmap) && bitmap.data == storage && regions == [] && refcounts.None?
      ensures Valid() <==> startFrame <= endFrame
      ensures startFrame <= endFrame ==> forall f :: !Allocated(f)
    {
      start, end, nextFrame := startFrame, endFrame, startFrame;
      regions, refcounts := [], None;
      bitmap := new Bitmap(storage, if startFrame <= endFrame then endFrame - startFrame else 0);
    }

    /** Turns counting on; the counts agree with the bitmap exactly when nothing was allocated before. */
    method SetRefcountStorage(storage: seq<nat>)
      requires Valid() && end - start <= |storage|
      requires forall i :: 0 <= i < |storage| ==> storage[i] <= MAX_REFCOUNT
      modifies this`refcounts
      ensures Valid() && refcounts.Some?
      ensures forall i :: 0 <= i < end - start ==> refcounts.value[i] == 0
      ensures Counted() <==> forall f :: !old(Allocated(f))
    {
      var total := end - start;
      var cleared := storage;
      for k := 0 to total
        invariant |cleared| == |storage|
        invariant forall i :: 0 <= i < |cleared| ==> cleared[i] <= MAX_REFCOUNT
        invariant forall i :: 0 <= i < k ==> cleared[i] == 0
      {
        cleared := cleared[k := 0];
      }
      refcounts := Some(cleared);
      if Counted() {
        forall f: nat
          ensures !old(Allocated(f))
        {
          if Managed(f) {
            assert refcounts.value[f - start] == 0;
          }
        }
      }
      if forall f :: !old(Allocated(f)) {
        forall i | 0 <= i < end - start
          ensures !bitmap.Bits()[i]
        {
          assert !old(Allocated(start + i));
        }
      }
    }

    /** Adds [lo, hi) to the reserved frames; `false` is the panic on a thirty-third separate region. */
    method ReserveRange(lo: nat, hi: nat, reason: ReservationReason) returns (ok: bool)
      requires Valid()
      modifies this`regions
      ensures Valid()
      ensures ok ==> Reserves(old(regions), lo, hi, regions)
      ensures !ok <==> lo < hi && |old(regions)| == MAX_RESERVED_REGIONS
                       && forall i :: 0 <= i < |old(regions)| ==> Apart(old(regions)[i], ReservedRegion(lo, hi, reason))
      ensures !ok ==> regions == old(regions)
    {
      if lo >= hi {
        return true;
      }
      var region := ReservedRegion(lo, hi, reason);
      for i := 0 to |regions|
        invariant regions == old(regions)
        invariant forall k :: 0 <= k < i ==> Apart(regions[k], region)
      {
        MergeIsUnion(regions[i], region);
        var m := regions[i].TryMerge(region);
        if m.Some? {
          ReplaceAddsRange(old(regions), i, region, m.value);
          assert !Apart(old(regions)[i], region);
          regions := regions[i := m.value];
          Consolidate();
          assert Reserves(old(regions), lo, hi, regions);
          return true;
        }
      }
      if |regions| >= MAX_RESERVED_REGIONS {
        return false;
      }
      regions := regions + [region];
      AppendAddsRange(old(regions), region);
      ok := true;
    }

    /** Merges until no two regions touch; every merge shortens the list, so the loop ends. */
    method Consolidate()
      requires NonEmpty(regions)
      modifies this`regions
      ensures Canonical(regions)
      ensures |regions| <= |old(regions)|
      ensures forall f: nat :: Covered(regions, f) <==> Covered(old(regions), f)
    {
      var changed := true;
      while changed
        invariant NonEmpty(regions) && |regions| <= |old(regions)|
        invariant forall f: nat :: Covered(regions, f) <==> Covered(old(regions), f)
        invariant !changed ==> Canonical(regions)
        decreases |regions|, changed
      {
        changed := false;
        ghost var before := regions;
        var i := 0;
        while i < |regions| && !changed
          invariant !changed ==> 0 <= i <= |before| && regions == before
          invariant !changed ==> forall p, q :: 0 <= p < i && p < q < |regions| ==> Apart(regions[p], regions[q])
          invariant changed ==> |regions| < |before| && NonEmpty(regions)
                                && forall f: nat :: Covered(regions, f) <==> Covered(before, f)
          decreases !changed, |before| - i
        {
          var j := i + 1;
          while j < |regions| && !changed
            invariant !changed ==> i < j <= |before| && regions == before
            invariant !changed ==> forall q :: i < q < j ==> Apart(regions[i], regions[q])
            invariant changed ==> |regions| < |before| && NonEmpty(regions)
                                  && forall f: nat :: Covered(regions, f) <==> Covered(before, f)
            decreases !changed, |before| - j
          {
            MergeIsUnion(regions[i], regions[j]);
            var m := regions[i].TryMerge(regions[j]);
            if m.Some? {
              AbsorbKeepsUnion(regions, i, j, m.value);
              regions := Absorb(regions, i, j, m.value);
              changed := true;
            } else {
              j := j + 1;
            }
          }
          if !changed {
            i := i + 1;
          }
        }
      }
    }

    method IsReserved(frame: nat) returns (r: bool)
      ensures r <==> Covered(regions, frame)
    {
      for i := 0 to |regions|
        invariant forall k :: 0 <= k < i ==> !regions[k].Contains(frame)
      {
        if regions[i].Contains(frame) {
          return true;
        }
      }
      r := false;
    }

    method ReservedFrames() returns (n: int)
      requires Valid()
      ensures n == |Frames(regions)|
    {
      n := 0;
      for i := 0 to |regions|
        invariant n == TotalSize(regions[..i])
      {
        assert regions[..i + 1][..i] == regions[..i];
        n := n + (regions[i].endFrame - regions[i].startFrame);
      }
      assert regions[..|regions|] == regions;
      TotalSizeCountsFrames(regions);
    }

    method IsAllocated(frame: nat) returns (r: bool)
      requires Valid()
      ensures r <==> Allocated(frame)
    {
      if frame < start || frame >= end {
        return false;
      }
      r := bitmap.IsSet(frame - start);
    }

    lemma NotInUse(frame: nat)
      requires Valid()
      ensures frame in InUse() <==> Allocated(frame)
    {
      if Managed(frame) {
        FramesSetUpdate(bitmap.Bits(), start, frame - start, true);
      }
    }

    /** A frame the allocator may hand out. */
    ghost predicate Available(frame: nat)
      requires Valid()
      reads this, bitmap.data
    {
      Managed(frame) && !Covered(regions, frame) && !Allocated(frame)
    }

    /** The wrap-around scan from `nextFrame`: misses no available frame. */
    method FindAvailable() returns (r: Option<nat>)
      requires Valid()
      ensures r.None? ==> forall f :: !Available(f)
      ensures r.Some? ==> Available(r.value)
    {
      hide Canonical, Covered, Allocated, Bitmap.Bits;
      var total := end - start;
      if total == 0 {
        return None;
      }
      var checked := 0;
      var frame := nextFrame;
      if frame < start || frame >= end {
        frame := start;
      }
      ghost var first := frame;
      ghost var wrapped := false;
      while checked < total
        invariant start <= first < end && start <= frame <= end
        invariant !wrapped ==> first <= frame && checked == frame - first
        invariant wrapped ==> frame <= first && checked == end - first + (frame - start)
        invariant forall f :: first <= f < (if wrapped then end else frame) ==> !Available(f)
        invariant wrapped ==> forall f :: start <= f < frame ==> !Available(f)
      {
        if frame >= end {
          frame := start;
          wrapped := true;
        }
        var reserved := IsReserved(frame);
        var used := IsAllocated(frame);
        if !reserved && !used {
          return Some(frame);
        }
        frame := frame + 1;
        checked := checked + 1;
      }
      r := None;
    }

    /** Fails exactly when nothing is available; otherwise takes an available frame with one reference. */
    method AllocateFrame() returns (r: Option<nat>)
      requires Valid()
      modifies this`nextFrame, this`refcounts, bitmap.data
      ensures Valid() && (old(Counted()) ==> Counted())
      ensures Follows(old(InUse()), if r.Some? then Granted(r.value) else Quiet, InUse())
      ensures r.None? <==> forall f :: !old(Available(f))
      ensures r.None? ==> bitmap.Bits() == old(bitmap.Bits()) && refcounts == old(refcounts)
      ensures r.Some? ==> old(Available(r.value))
                          && bitmap.Bits() == old(bitmap.Bits())[r.value - start := true]
                          && refcounts.Some? == old(refcounts.Some?)
                          && (refcounts.Some? ==>
                                && refcounts.value == old(refcounts.value)[r.value - start := 1]
                                && Counts() == old(Counts())[r.value := 1])
    {
      hide FramesSet, Canonical, Covered, Bitmap.Bits;
      r := FindAvailable();
      if r.Some? {
        var frame := r.value;
        bitmap.Set(frame - start);
        if refcounts.Some? {
          refcounts := Some(refcounts.value[frame - start := 1]);
        }
        nextFrame := frame + 1;
        assert old(Available(frame));
        FramesSetUpdate(old(bitmap.Bits()), start, frame - start, true);
      } else {
        assert forall f :: old(Available(f)) == Available(f);
      }
    }

    /**
     The same call on an allocator whose start lies above its end, built without overflow checks: the number of
     frames wraps around, no frame has a bit, and the scan comes back to the start at every turn.
     */
    method AllocateInverted() returns (r: Option<nat>)
      requires end < start < WORD - 1
      modifies this`nextFrame
      ensures r == if Covered(regions, start) then None else Some(start)
      ensures nextFrame == if r.Some? then start + 1 else old(nextFrame)
    {
      var total := end + WORD - start;
      var checked := 0;
      var frame := nextFrame;
      if frame < start || frame >= end {
        frame := start;
      }
      while checked < total
        invariant start <= frame <= start + 1 && nextFrame == old(nextFrame)
        invariant checked > 0 ==> Covered(regions, start)
      {
        if frame >= end {
          frame := start;
        }
        var reserved := IsReserved(frame);
        if !reserved {
          nextFrame := frame + 1;
          return Some(frame);
        }
        frame := frame + 1;
        checked := checked + 1;
      }
      r := None;
    }

    /** Frees a frame outright, whatever its count. Reserved and free frames are left alone. */
    method DeallocateFrame(frame: nat)
      requires Valid()
      modifies this`nextFrame, this`refcounts, bitmap.data
      ensures Valid() && (old(Counted()) ==> Counted())
      ensures Follows(old(InUse()), if Covered(regions, frame) then Quiet else Released(frame), InUse())
      ensures refcounts.Some? == old(refcounts.Some?)
      ensures Covered(regions, frame) || !old(Allocated(frame)) ==>
                bitmap.Bits() == old(bitmap.Bits()) && refcounts == old(refcounts)
      ensures !Covered(regions, frame) && old(Allocated(frame)) ==>
                && bitmap.Bits() == old(bitmap.Bits())[frame - start := false]
                && (refcounts.Some? ==>
                      && refcounts.value == old(refcounts.value)[frame - start := 0]
                      && Counts() == old(Counts())[frame := 0])
    {
      hide FramesSet, Canonical, Covered, Bitmap.Bits;
      var reserved := IsReserved(frame);
      var used := IsAllocated(frame);
      if reserved || !used {
        assert !reserved ==> frame !in InUse() by {
          NotInUse(frame);
        }
        assert InUse() - {frame} == InUse() || reserved;
        return;
      }
      if refcounts.Some? {
        refcounts := Some(refcounts.value[frame - start := 0]);
      }
      bitmap.Clear(frame - start);
      FramesSetUpdate(old(bitmap.Bits()), start, frame - start, false);
      if frame < nextFrame {
        nextFrame := frame;
      }
    }

    /** Adds a reference to an allocated frame; the count saturates at 65535. */
    method IncRefcount(frame: nat) returns (r: Option<nat>)
      requires Valid()
      modifies this`refcounts
      ensures Valid() && (old(Counted()) ==> Counted())
      ensures r.None? <==> !Managed(frame) || old(refcounts).None?
      ensures r.None? ==> refcounts == old(refcounts)
      ensures r.Some? ==>
                && r.value == Increased(old(refcounts).value[frame - start])
                && r.value == (if old(refcounts).value[frame - start] in {0, 65535}
                               then old(refcounts).value[frame - start] else old(refcounts).value[frame - start] + 1)
                && refcounts == Some(old(refcounts).value[frame - start := r.value])
      ensures old(refcounts).Some? && frame in old(Counts()) ==>
                && refcounts.Some? && r.Some?
                && r.value == Increased(old(Counts())[frame])
                && Counts() == old(Counts())[frame := r.value]
    {
      hide Canonical, Covered, Bitmap.Bits;
      if start <= frame < end && refcounts.Some? {
        var c := refcounts.value[frame - start];
        if 0 < c < MAX_REFCOUNT {
          refcounts := Some(refcounts.value[frame - start := c + 1]);
        }
        assert refcounts.value == old(refcounts).value[frame - start := refcounts.value[frame - start]];
        return Some(refcounts.value[frame - start]);
      }
      r := None;
    }

    /** Takes a reference away and frees the frame with the last one. */
    method DecRefcount(frame: nat) returns (r: Option<nat>)
      requires Valid()
      modifies this`nextFrame, this`refcounts, bitmap.data
      ensures Valid() && (old(Counted()) ==> Counted())
      ensures Follows(old(InUse()), if r == Some(0) then Released(frame) else Quiet, InUse())
      ensures r.Some? <==> old(refcounts).Some? && frame in old(Counts()) && old(Counts())[frame] > 0
      ensures r.Some? <==> Managed(frame) && old(refcounts).Some? && old(refcounts).value[frame - start] > 0
      ensures r.None? ==> bitmap.Bits() == old(bitmap.Bits()) && refcounts == old(refcounts)
      ensures r.Some? ==>
                && r.value == old(refcounts).value[frame - start] - 1
                && refcounts == Some(old(refcounts).value[frame - start := r.value])
                && refcounts.Some? && Counts() == old(Counts())[frame := r.value]
                && frame in old(Counts()) && r.value == old(Counts())[frame] - 1
                && bitmap.Bits()
                   == if r.value == 0 then old(bitmap.Bits())[frame - start := false] else old(bitmap.Bits())
    {
      hide FramesSet, Canonical, Covered, Bitmap.Bits;
      if start <= frame < end && refcounts.Some? {
        var c := refcounts.value[frame - start];
        if c > 0 {
          refcounts := Some(refcounts.value[frame - start := c - 1]);
          if c - 1 == 0 {
            bitmap.Clear(frame - start);
            FramesSetUpdate(old(bitmap.Bits()), start, frame - start, false);
            if frame < nextFrame {
              nextFrame := frame;
            }
          }
          return Some(c - 1);
        }
      }
      r := None;
    }
  }

  ghost function FramesSet(bits: seq<bool>, start: nat): set<nat> {
    set i | 0 <= i < |bits| && bits[i] :: start + i
  }

  lemma FramesSetUpdate(bits: seq<bool>, start: nat, i: nat, v: bool)
    requires i < |bits|
    ensures FramesSet(bits[i := v], start) ==
            if v then FramesSet(bits, start) + {start + i} else FramesSet(bits, start) - {start + i}
    ensures start + i in FramesSet(bits, start) <==> bits[i]
  {
    forall f: nat
      ensures f in FramesSet(bits[i := v], start) <==>
              (if f == start + i then v else f in FramesSet(bits, start))
    {
      if start <= f < start + |bits| {
        var k := f - start;
        assert f in FramesSet(bits, start) <==> bits[k];
        assert f in FramesSet(bits[i := v], start) <==> bits[i := v][k];
      }
    }
  }

  // ---------- Whole runs ----------

  /** What an allocator call does to the set of frames handed out. */
  datatype Event = Granted(frame: nat) | Released(frame: nat) | Quiet

  ghost predicate Follows(before: set<nat>, e: Event, after: set<nat>) {
    match e
    case Granted(f) => f !in before && after == before + {f}
    case Released(f) => after == before - {f}
    case Quiet => after == before
  }

  /** Over any run, a frame handed out twice was given back in between. */
  lemma {:induction false} GrantedOnce(states: seq<set<nat>>, events: seq<Event>, i: nat, j: nat, f: nat)
    requires |states| == |events| + 1 && i < j < |events|
    requires forall k :: 0 <= k < |events| ==> Follows(states[k], events[k], states[k + 1])
    requires events[i] == Granted(f) && events[j] == Granted(f)
    ensures exists k :: i < k < j && events[k] == Released(f)
  {
    assert Follows(states[i], events[i], states[i + 1]);
    assert Follows(states[j], events[j], states[j + 1]);
    LostByRelease(states, events, i + 1, j, f);
  }

  lemma {:induction false} LostByRelease(states: seq<set<nat>>, events: seq<Event>, i: nat, j: nat, f: nat)
    requires |states| == |events| + 1 && i <= j <= |events|
    requires forall k :: 0 <= k < |events| ==> Follows(states[k], events[k], states[k + 1])
    requires f in states[i] && f !in states[j]
    ensures exists k :: i <= k < j && events[k] == Released(f)
    decreases j - i
  {
    assert Follows(states[i], events[i], states[i + 1]);
    if events[i] != Released(f) {
      LostByRelease(states, events, i + 1, j, f);
    }
  }

  // ---------- Real calls ----------

  datatype Request = Allocate | Deallocate(frame: nat) | Increment(frame: nat) | Decrement(frame: nat)

  /** The event that a call and its answer are. */
  ghost predicate Tells(request: Request, answer: Option<nat>, e: Event) {
    match request
    case Allocate => e == if answer.Some? then Granted(answer.value) else Quiet
    case Deallocate(f) => e == Released(f) || e == Quiet
    case Increment(_) => e == Quiet
    case Decrement(f) => e == if answer == Some(0) then Released(f) else Quiet
  }

  method Serve(a: FrameAllocator, request: Request) returns (answer: Option<nat>, ghost e: Event)
    requires a.Valid()
    modifies a`nextFrame, a`refcounts, a.bitmap.data
    ensures a.Valid() && Tells(request, answer, e) && Follows(old(a.InUse()), e, a.InUse())
  {
    hide FramesSet;
    match request
    case Allocate =>
      answer := a.AllocateFrame();
      e := if answer.Some? then Granted(answer.value) else Quiet;
    case Deallocate(f) =>
      a.DeallocateFrame(f);
      answer := None;
      e := if Covered(a.regions, f) then Quiet else Released(f);
    case Increment(f) =>
      answer := a.IncRefcount(f);
      e := Quiet;
    case Decrement(f) =>
      answer := a.DecRefcount(f);
      e := if answer == Some(0) then Released(f) else Quiet;
  }

  /** A call that gives the frame back: freed outright, or its last reference dropped. */
  ghost predicate GivesBack(request: Request, answer: Option<nat>, f: nat) {
    request == Deallocate(f) || (request == Decrement(f) && answer == Some(0))
  }

  /** Over any list of calls, a frame answered twice was given back by a call in between. */
  method ServeAll(a: FrameAllocator, requests: seq<Request>) returns (answers: seq<Option<nat>>)
    requires a.Valid()
    modifies a`nextFrame, a`refcounts, a.bitmap.data
    ensures a.Valid() && |answers| == |requests|
    ensures forall i, j, f :: 0 <= i < j < |requests| && requests[i] == requests[j] == Allocate
                              && answers[i] == answers[j] == Some(f) ==>
                                exists k :: i < k < j && GivesBack(requests[k], answers[k], f)
  {
    hide FrameAllocator.Valid, Follows, Tells;
    answers := [];
    ghost var events, states := [], [a.InUse()];
    for n := 0 to |requests|
      invariant a.Valid() && |answers| == |events| == n && |states| == n + 1 && states[n] == a.InUse()
      invariant forall k :: 0 <= k < n ==> Follows(states[k], events[k], states[k + 1])
      invariant forall k :: 0 <= k < n ==> Tells(requests[k], answers[k], events[k])
    {
      var answer;
      ghost var e;
      answer, e := Serve(a, requests[n]);
      answers, events, states := answers + [answer], events + [e], states + [a.InUse()];
    }
    forall i, j, f | 0 <= i < j < |requests| && requests[i] == requests[j] == Allocate
                     && answers[i] == answers[j] == Some(f)
      ensures exists k :: i < k < j && GivesBack(requests[k], answers[k], f)
    {
      AnsweredTwice(requests, answers, states, events, i, j, f);
    }
  }

  lemma AnsweredTwice(requests: seq<Request>, answers: seq<Option<nat>>, states: seq<set<nat>>, events: seq<Event>,
                      i: nat, j: nat, f: nat)
    requires |requests| == |answers| == |events| && |states| == |events| + 1 && i < j < |requests|
    requires forall k :: 0 <= k < |events| ==> Follows(states[k], events[k], states[k + 1])
    requires forall k :: 0 <= k < |events| ==> Tells(requests[k], answers[k], events[k])
    requires requests[i] == requests[j] == Allocate && answers[i] == answers[j] == Some(f)
    ensures exists k :: i < k < j && GivesBack(requests[k], answers[k], f)
  {
    GrantedOnce(states, events, i, j, f);
    var k :| i < k < j && events[k] == Released(f);
    assert Tells(requests[k], answers[k], events[k]);
    assert GivesBack(requests[k], answers[k], f);
  }

  /** With the start above the end the same frame is handed out twice, and is not even one of the range. */
  method SameFrameTwice(storage: array<bv8>) returns (first: Option<nat>, second: Option<nat>)
    modifies storage
    ensures first == second == Some(8)
  {
    var a := new FrameAllocator(8, 4, storage);
    first := a.AllocateInverted();
    second := a.AllocateInverted();
  }

  ghost function BitsOf(counts: map<nat, nat>, start: nat, n: nat): seq<bool> {
    seq(n, i requires 0 <= i < n => start + i in counts && counts[start + i] > 0)
  }

  lemma ReplaceAddsRange(rs: seq<ReservedRegion>, i: nat, region: ReservedRegion, m: ReservedRegion)
    requires i < |rs| && NonEmpty(rs) && region.startFrame < region.endFrame
    requires rs[i].TryMerge(region) == Some(m)
    ensures NonEmpty(rs[i := m])
    ensures forall f: nat :: Covered(rs[i := m], f) <==> Covered(rs, f) || region.Contains(f)
  {
    MergeIsUnion(rs[i], region);
    var out := rs[i := m];
    forall f: nat
      ensures Covered(out, f) <==> Covered(rs, f) || region.Contains(f)
    {
      if Covered(rs, f) {
        var k :| 0 <= k < |rs| && rs[k].Contains(f);
        assert out[k].Contains(f);
      }
      if region.Contains(f) {
        assert out[i].Contains(f);
      }
      if Covered(out, f) {
        var k :| 0 <= k < |out| && out[k].Contains(f);
        assert k != i ==> rs[k].Contains(f);
        assert k == i ==> rs[i].Contains(f) || region.Contains(f);
      }
    }
  }

  lemma AppendAddsRange(rs: seq<ReservedRegion>, region: ReservedRegion)
    ensures forall f: nat :: Covered(rs + [region], f) <==> Covered(rs, f) || region.Contains(f)
  {
    var out := rs + [region];
    forall f: nat
      ensures Covered(out, f) <==> Covered(rs, f) || region.Contains(f)
    {
      if Covered(rs, f) {
        var k :| 0 <= k < |rs| && rs[k].Contains(f);
        assert out[k].Contains(f);
      }
      if region.Contains(f) {
        assert out[|rs|].Contains(f);
      }
    }
  }
}
