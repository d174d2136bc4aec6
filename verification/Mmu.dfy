/** Address spaces in place: page tables, frame contents and the frame allocator. */
module Mmus {
  import opened Wrappers
  import opened CowSpec
  import opened PageTables
  import opened PageOrder
  import opened Regions
  import opened FrameAllocators
  import opened MmuSteps

  class Mmu {
    const alloc: FrameAllocator
    var tables: Tables
    var pages: map<nat, Page>
    ghost var places: Places
    ghost var other: map<nat, nat>

    /** The structural half of the invariant, which holds between any two writes of an operation. */
    ghost predicate Wired()
      reads this, alloc, alloc.bitmap.data
    {
      && alloc.Valid() && alloc.refcounts.Some? && alloc.Counted()
      && Unreserved(alloc.Counts(), alloc.regions)
      && Shape(tables, places)
      && tables.Keys !! other.Keys
    }

    /** The machine state of the copy-on-write specification. */
    ghost function Abs(): Sys
      requires Wired()
      reads this, alloc, alloc.bitmap.data
    {
      Sys(Spaces(tables, places), pages, alloc.Counts(), Taken(tables.Keys) + other)
    }

    ghost predicate Valid()
      reads this, alloc, alloc.bitmap.data
    {
      Wired() && Inv(Abs())
    }

    /** Every frame is reserved or given out. */
    ghost predicate Exhausted()
      reads alloc, alloc.bitmap.data
    {
      alloc.Valid() && forall f :: !alloc.Available(f)
    }

    /** No address space yet; whatever the allocator has given out already stays with its holder. */
    constructor (allocator: FrameAllocator, memory: map<nat, Page>)
      requires allocator.Valid() && allocator.refcounts.Some? && allocator.Counted()
      requires Unreserved(allocator.Counts(), allocator.regions)
      requires memory.Keys == allocator.Counts().Keys && forall f :: f in memory ==> |memory[f]| == PAGE_SIZE
      ensures Valid() && alloc == allocator && tables == map[] && pages == memory
      ensures Abs().spaces == map[]
    {
      hide Unreserved, FrameAllocator.Counted, FrameAllocator.Valid, FrameAllocator.Counts, Inv;
      alloc := allocator;
      tables, pages := map[], memory;
      places := map[];
      other := map f | f in allocator.Counts() && allocator.Counts()[f] > 0 :: allocator.Counts()[f];
      new;
      assert Shape(tables, places);
      assert Spaces(tables, places) == map[];
      assert Taken(tables.Keys) + other == other;
      EmptyMachine(Abs());
    }

    // ---------- The allocator, as the machine sees it ----------

    method TakeFrame() returns (r: Option<nat>)
      requires Wired()
      modifies alloc`nextFrame, alloc`refcounts, alloc.bitmap.data
      ensures Wired()
      ensures r.None? ==> Exhausted() && alloc.Counts() == old(alloc.Counts())
      ensures r.Some? ==> Free(old(Abs()), r.value) && alloc.Counts() == old(alloc.Counts())[r.value := 1]
    {
      hide Shape, Spaces;
      ghost var counts := alloc.Counts();
      r := alloc.AllocateFrame();
      if r.Some? {
        UnreservedNext(counts, alloc.regions, r.value, 1);
      } else {
        assert alloc.Counts() == counts;
        assert forall f :: old(alloc.Available(f)) == alloc.Available(f);
      }
    }

    method AddReference(frame: nat)
      requires Wired() && frame in alloc.Counts() && 0 < alloc.Counts()[frame] < MAX_SHARERS
      modifies alloc`refcounts
      ensures Wired() && alloc.Counts() == old(alloc.Counts())[frame := old(alloc.Counts())[frame] + 1]
    {
      hide Shape, Spaces, Unreserved, FrameAllocator.Counts, FrameAllocator.Counted, FrameAllocator.Valid;
      UnreservedNext(alloc.Counts(), alloc.regions, frame, alloc.Counts()[frame] + 1);
      var _ := alloc.IncRefcount(frame);
    }

    method DropReference(frame: nat)
      requires Wired() && frame in alloc.Counts() && alloc.Counts()[frame] > 0
      modifies alloc`nextFrame, alloc`refcounts, alloc.bitmap.data
      ensures Wired() && alloc.Counts() == old(alloc.Counts())[frame := Less(old(alloc.Counts())[frame])]
    {
      hide Shape, Spaces, Unreserved, FrameAllocator.Counts, FrameAllocator.Counted, FrameAllocator.Valid;
      UnreservedNext(alloc.Counts(), alloc.regions, frame, Less(alloc.Counts()[frame]));
      var _ := alloc.DecRefcount(frame);
    }

    method ReturnFrame(frame: nat)
      requires Wired() && frame in alloc.Counts() && alloc.Counts()[frame] > 0
      modifies alloc`nextFrame, alloc`refcounts, alloc.bitmap.data
      ensures Wired() && alloc.Counts() == old(alloc.Counts())[frame := 0]
    {
      hide Shape, Spaces, Canonical, Covered, Unreserved;
      UnreservedNext(alloc.Counts(), alloc.regions, frame, 0);
      alloc.DeallocateFrame(frame);
    }

    /** Gets or creates: hangs a new empty table under an absent entry. `false` is out of memory. */
    method AddTable(f: nat, i: nat) returns (ok: bool, c: nat)
      requires Wired() && Safe(Abs())
      requires f in tables && f in places && places[f].level > 1 && i < UserPart(places[f].level)
      requires i < |tables[f]| && tables[f][i].Absent?
      modifies this`tables, this`places, alloc`nextFrame, alloc`refcounts, alloc.bitmap.data
      ensures Wired() && Safe(Abs())
      ensures !ok ==> Exhausted() && tables == old(tables) && places == old(places) && Abs() == old(Abs())
      ensures ok ==> && Free(old(Abs()), c) && c !in old(tables) && c !in old(places)
                     && tables == Linked(old(tables), f, i, c)
                     && places == LinkedPlaces(old(places), f, i, c)
                     && Abs() == old(Abs()).(counts := old(Abs()).counts[c := 1], held := old(Abs()).held[c := 1])
    {
      hide FrameAllocator.Counted, FrameAllocator.Valid, FrameAllocator.Counts, Unreserved;
      hide Shape, Inv, Spaces, EmptyTable, NotMapped, Taken, Safe;
      ghost var a := Abs();
      c := 0;
      var r := TakeFrame();
      if r.None? {
        return false, c;
      }
      c := r.value;
      LinkTaken(tables, places, a, other, f, i, c);
      tables := tables[c := EmptyTable()];
      tables := tables[f := tables[f][i := Pointer(c)]];
      places := places[c := Place(places[f].level - 1, f, i, places[f].root)];
      SafeTake(a, Abs(), c);
      ok := true;
    }

    // ---------- Fork ----------

    /** A clone under way: the pages numbered below `n` are shared and `taken` are the child's tables. */
    ghost predicate Forking(s: Sys, parent: nat, child: nat, n: nat, taken: set<nat>)
      reads this, alloc, alloc.bitmap.data
    {
      && Wired()
      && CanFork(s, parent) && parent in s.spaces
      && FreshTables(s, taken) && child in taken && child != parent
      && Abs() == ForkState(s, parent, child, Before(s.spaces[parent], n), taken)
    }

    /** The two entry writes that share a page: read-only and copy-on-write on both sides if it was writable. */
    method WriteShared(pl1: nat, cl1: nat, i1: nat, e: Entry, ghost v: Vpn, ghost parent: nat, ghost child: nat)
      requires Wired() && i1 < ENTRY_COUNT && parent != child
      requires OnPath1(places, pl1, parent) && OnPath1(places, cl1, child)
      requires v == PageOf(places, pl1, i1) == PageOf(places, cl1, i1)
      requires pl1 in tables && i1 < |tables[pl1]| && tables[pl1][i1] == Present(e)
      modifies this`tables
      ensures Wired() && tables.Keys == old(tables.Keys) && Kept(old(tables), tables, places, 1)
      ensures Abs() == WithShared(old(Abs()), parent, child, v, e)
    {
      hide FrameAllocator.Counted, FrameAllocator.Valid, FrameAllocator.Counts, Unreserved;
      hide Shape, Spaces, Taken, PageOf;
      var flags := e;
      if e.writable {
        flags := e.(writable := false, cow := true);
        tables := tables[pl1 := tables[pl1][i1 := Present(flags)]];
      }
      ShareWrites(old(tables), places, parent, child, pl1, cl1, i1, e);
      tables := tables[cl1 := tables[cl1][i1 := Present(flags)]];
    }

    /** The innermost step of the clone loop: one page shared, if the parent maps it. */
    method SharePage(ghost s: Sys, ghost parent: nat, ghost child: nat, ghost taken: set<nat>,
                     pl1: nat, cl1: nat, i1: nat)
      requires i1 < ENTRY_COUNT && OnPath1(places, pl1, parent) && OnPath1(places, cl1, child)
      requires PageOf(places, pl1, i1) == PageOf(places, cl1, i1)
      requires Forking(s, parent, child, Num(PageOf(places, pl1, i1)), taken)
      modifies this`tables, alloc`refcounts
      ensures Forking(s, parent, child, Num(PageOf(places, pl1, i1)) + 1, taken)
      ensures tables.Keys == old(tables.Keys) && Kept(old(tables), tables, places, 1)
    {
      hide FrameAllocator.Counted, FrameAllocator.Valid, FrameAllocator.Counts, Unreserved;
      hide Shape, Inv, CanFork, ForkState, Spaces, SpaceOf, Walk, LeafTable, Before, FreshTables, Num, Taken, PageOf;
      ghost var v := PageOf(places, pl1, i1);
      ghost var shared := Before(s.spaces[parent], Num(v));
      PageOfValid(tables, places, pl1, i1);
      ShareLooks(tables, places, s, parent, child, v, taken);
      var pte := tables[pl1][i1];
      if pte.Present? {
        ForkSharePage(s, parent, child, shared, taken, v);
        WriteShared(pl1, cl1, i1, pte.entry, v, parent, child);
        AddReference(pte.entry.frame);
      }
    }

    /** What a clone reads when it looks at an entry of a table. */
    lemma ForkingEntry(s: Sys, parent: nat, child: nat, n: nat, taken: set<nat>, f: nat, i: nat)
      requires Forking(s, parent, child, n, taken) && f in places && i < UserPart(places[f].level)
      ensures f in tables && |tables[f]| == ENTRY_COUNT
      ensures tables[f][i].Present? && places[f].level > 1 ==>
                tables[f][i].entry.frame in places
                && places[tables[f][i].entry.frame] == Place(places[f].level - 1, f, i, places[f].root)
    {
      ChildPlaced(tables, places, f, i);
    }

    lemma SkipL2(s: Sys, parent: nat, child: nat, taken: set<nat>, pl2: nat, i2: nat)
      requires OnPath2(places, pl2, parent) && i2 < ENTRY_COUNT && At(tables, pl2, i2).Absent?
      requires Forking(s, parent, child, Num(At2(places, pl2, i2)), taken)
      ensures Forking(s, parent, child, Num(At2(places, pl2, i2 + 1)), taken)
    {
      GapUnderL2(tables, places, s, parent, child, taken, pl2, i2);
    }

    lemma SkipL3(s: Sys, parent: nat, child: nat, taken: set<nat>, pl3: nat, i3: nat)
      requires OnPath3(places, pl3, parent) && i3 < ENTRY_COUNT && At(tables, pl3, i3).Absent?
      requires Forking(s, parent, child, Num(Vpn(places[pl3].index, i3, 0, 0)), taken)
      ensures Forking(s, parent, child, Num(Vpn(places[pl3].index, i3 + 1, 0, 0)), taken)
    {
      GapUnderL3(tables, places, s, parent, child, taken, pl3, i3);
    }

    lemma SkipL4(s: Sys, parent: nat, child: nat, taken: set<nat>, i4: nat)
      requires IsRoot(places, parent) && i4 < USER_ENTRIES && At(tables, parent, i4).Absent?
      requires Forking(s, parent, child, Num(Vpn(i4, 0, 0, 0)), taken)
      ensures Forking(s, parent, child, Num(Vpn(i4 + 1, 0, 0, 0)), taken)
    {
      GapUnderL4(tables, places, s, parent, child, taken, i4);
    }

    /** Shares every page under one L1 table. */
    method CloneL1(ghost s: Sys, ghost parent: nat, ghost child: nat, ghost taken: set<nat>, pl1: nat, cl1: nat)
      requires OnPath1(places, pl1, parent) && OnPath1(places, cl1, child)
      requires PageOf(places, pl1, 0) == PageOf(places, cl1, 0)
      requires Forking(s, parent, child, Num(PageOf(places, pl1, 0)), taken)
      modifies this`tables, alloc`refcounts
      ensures Forking(s, parent, child, Num(PageOf(places, pl1, ENTRY_COUNT)), taken)
      ensures tables.Keys == old(tables.Keys)
      ensures Kept(old(tables), tables, places, 1)
    {
      hide Forking, Num, Exhausted;
      for i1 := 0 to ENTRY_COUNT
        invariant Forking(s, parent, child, Num(PageOf(places, pl1, i1)), taken)
        invariant tables.Keys == old(tables.Keys)
        invariant Kept(old(tables), tables, places, 1)
      {
        SharePage(s, parent, child, taken, pl1, cl1, i1);
        NumNext(places, pl1, i1);
      }
    }

    /** Adds a table to the child in the middle of a clone. */
    method AddChildTable(ghost s: Sys, ghost parent: nat, ghost child: nat, ghost n: nat, ghost taken: set<nat>,
                         f: nat, i: nat)
      returns (ok: bool, ghost taken': set<nat>)
      requires Forking(s, parent, child, n, taken)
      requires f in places && f in tables && places[f].level > 1 && i < UserPart(places[f].level)
               && places[f].root == child
      requires i < |tables[f]| && tables[f][i].Absent?
      modifies this`tables, this`places, alloc`nextFrame, alloc`refcounts, alloc.bitmap.data
      ensures Forking(s, parent, child, n, taken')
      ensures Grown(old(places), places, child) && LinkedOnly(old(tables), tables, f, i)
      ensures !ok ==> Exhausted()
      ensures ok ==> At(tables, f, i).Present?
    {
      hide FrameAllocator.Counted, FrameAllocator.Valid, FrameAllocator.Counts, Unreserved, Exhausted;
      hide Shape, Inv, Spaces, CanFork, ForkState, Before, FreshTables, EmptyTable, Taken, Grown, LinkedOnly;
      hide Linked, LinkedPlaces;
      ghost var shared := Before(s.spaces[parent], n);
      ForkingInv(s, parent, child, n, taken);
      InvIsSafe(Abs());
      var c;
      GrownNothing(tables, places, child, f, i);
      ok, c := AddTable(f, i);
      taken' := taken;
      if ok {
        GrownOne(old(tables), old(places), f, i, c);
        ForkTakeTable(s, parent, child, shared, taken, c);
        taken' := taken + {c};
      }
    }

    /** The child's table under an entry that the parent has, made if it is not there yet. */
    method ChildTable(ghost s: Sys, ghost parent: nat, ghost child: nat, ghost n: nat, ghost taken: set<nat>,
                      pf: nat, cf: nat, i: nat)
      returns (ok: bool, p: nat, c: nat, ghost taken': set<nat>)
      requires Forking(s, parent, child, n, taken) && parent != child && pf in places && cf in places
      requires places[pf].level == places[cf].level > 1 && i < UserPart(places[pf].level)
      requires places[pf].root == parent && places[cf].root == child && At(tables, pf, i).Present?
      modifies this`tables, this`places, alloc`nextFrame, alloc`refcounts, alloc.bitmap.data
      ensures Forking(s, parent, child, n, taken')
      ensures Grown(old(places), places, child) && Kept(old(tables), tables, old(places), old(places)[cf].level)
      ensures !ok ==> Exhausted()
      ensures ok ==> p in places && places[p] == Place(old(places)[pf].level - 1, pf, i, parent)
      ensures ok ==> c in places && places[c] == Place(old(places)[cf].level - 1, cf, i, child)
    {
      hide Forking, Exhausted, Linked;
      p, c, taken', ok := 0, 0, taken, true;
      ForkingEntry(s, parent, child, n, taken, pf, i);
      ForkingEntry(s, parent, child, n, taken, cf, i);
      if tables[cf][i].Absent? {
        ok, taken' := AddChildTable(s, parent, child, n, taken, cf, i);
        if !ok {
          return;
        }
      }
      ForkingEntry(s, parent, child, n, taken', pf, i);
      ForkingEntry(s, parent, child, n, taken', cf, i);
      p, c := tables[pf][i].entry.frame, tables[cf][i].entry.frame;
    }

    /** Clones every L1 table under one L2 table. `false` is out of memory, with the work so far left in place. */
    method CloneL2(ghost s: Sys, ghost parent: nat, ghost child: nat, ghost taken: set<nat>, pl2: nat, cl2: nat)
      returns (ok: bool, ghost n: nat, ghost taken': set<nat>)
      requires OnPath2(places, pl2, parent) && OnPath2(places, cl2, child) && parent != child
      requires At2(places, pl2, 0) == At2(places, cl2, 0)
      requires Forking(s, parent, child, Num(At2(places, pl2, 0)), taken)
      modifies this`tables, this`places, alloc`nextFrame, alloc`refcounts, alloc.bitmap.data
      ensures Forking(s, parent, child, n, taken')
      ensures ok ==> n == Num(At2(old(places), pl2, ENTRY_COUNT))
      ensures !ok ==> Exhausted()
      ensures Grown(old(places), places, child) && Kept(old(tables), tables, old(places), 2)
    {
      hide Forking, Num, Exhausted;
      taken' := taken;
      n := Num(At2(places, pl2, 0));
      for i2 := 0 to ENTRY_COUNT
        invariant n == Num(At2(old(places), pl2, i2))
        invariant Forking(s, parent, child, n, taken')
        invariant Grown(old(places), places, child) && Kept(old(tables), tables, old(places), 2)
      {
        ForkingEntry(s, parent, child, n, taken', pl2, i2);
        if tables[pl2][i2].Absent? {
          SkipL2(s, parent, child, taken', pl2, i2);
        } else {
          var pl1, cl1;
          ok, pl1, cl1, taken' := ChildTable(s, parent, child, n, taken', pl2, cl2, i2);
          if !ok {
            return;
          }
          CloneL1(s, parent, child, taken', pl1, cl1);
        }
        n := Num(At2(old(places), pl2, i2 + 1));
        Carry(At2(places, pl2, i2).i4, At2(places, pl2, i2).i3, i2);
      }
      ok := true;
    }

    /** Clones every L2 table under one L3 table. */
    method CloneL3(ghost s: Sys, ghost parent: nat, ghost child: nat, ghost taken: set<nat>, pl3: nat, cl3: nat)
      returns (ok: bool, ghost n: nat, ghost taken': set<nat>)
      requires OnPath3(places, pl3, parent) && OnPath3(places, cl3, child) && parent != child
      requires places[pl3].index == places[cl3].index
      requires Forking(s, parent, child, Num(Vpn(places[pl3].index, 0, 0, 0)), taken)
      modifies this`tables, this`places, alloc`nextFrame, alloc`refcounts, alloc.bitmap.data
      ensures Forking(s, parent, child, n, taken')
      ensures ok ==> n == Num(Vpn(old(places)[pl3].index, ENTRY_COUNT, 0, 0))
      ensures !ok ==> Exhausted()
      ensures Grown(old(places), places, child) && Kept(old(tables), tables, old(places), 3)
    {
      hide Forking, Num, Exhausted;
      taken' := taken;
      ghost var i4 := places[pl3].index;
      n := Num(Vpn(i4, 0, 0, 0));
      for i3 := 0 to ENTRY_COUNT
        invariant n == Num(Vpn(i4, i3, 0, 0))
        invariant Forking(s, parent, child, n, taken')
        invariant Grown(old(places), places, child) && Kept(old(tables), tables, old(places), 3)
      {
        ForkingEntry(s, parent, child, n, taken', pl3, i3);
        if tables[pl3][i3].Absent? {
          SkipL3(s, parent, child, taken', pl3, i3);
        } else {
          var pl2, cl2;
          ok, pl2, cl2, taken' := ChildTable(s, parent, child, n, taken', pl3, cl3, i3);
          if !ok {
            return;
          }
          ok, n, taken' := CloneL2(s, parent, child, taken', pl2, cl2);
          if !ok {
            return;
          }
        }
        n := Num(Vpn(i4, i3 + 1, 0, 0));
        Carry(i4, i3, 0);
      }
      ok := true;
    }

    /** A new root: an empty user half and the upper half of the table in CR3. */
    method CreateUserPageTable(upper: seq<Pte>) returns (r: Option<nat>)
      requires Valid() && |upper| == ENTRY_COUNT - USER_ENTRIES
      modifies this`tables, this`places, alloc`nextFrame, alloc`refcounts, alloc.bitmap.data
      ensures Valid()
      ensures r.None? ==> Exhausted() && tables == old(tables) && places == old(places) && Abs() == old(Abs())
      ensures r.Some? ==> Free(old(Abs()), r.value) && Enabled(old(Abs()), Create(r.value))
      ensures r.Some? ==> Abs() == Apply(old(Abs()), Create(r.value))
      ensures r.Some? ==> r.value !in old(places) && places == old(places)[r.value := Place(4, r.value, 0, r.value)]
      ensures r.Some? ==> r.value !in old(tables) && r.value in tables && |tables[r.value]| == ENTRY_COUNT
      ensures r.Some? ==> tables == old(tables)[r.value := tables[r.value]] && tables[r.value][USER_ENTRIES..] == upper
    {
      hide FrameAllocator.Counted, FrameAllocator.Valid, FrameAllocator.Counts, Unreserved, Exhausted;
      hide Shape, Inv, Spaces, EmptyTable, NotMapped, Taken;
      ghost var a := Abs();
      r := TakeFrame();
      if r.None? {
        return;
      }
      var c := r.value;
      var table := EmptyTable()[..USER_ENTRIES] + upper;
      RootTaken(tables, places, a, other, c, table);
      tables := tables[c := table];
      places := places[c := Place(4, c, 0, c)];
      CreateKeepsInv(a, c);
    }

    /** Clones the user half of a root. */
    method CloneL4(ghost s: Sys, parent: nat, child: nat, ghost taken: set<nat>)
      returns (ok: bool, ghost n: nat, ghost taken': set<nat>)
      requires IsRoot(places, parent) && IsRoot(places, child) && parent != child
      requires places[parent].root == parent && places[child].root == child
      requires Forking(s, parent, child, Num(Vpn(0, 0, 0, 0)), taken)
      modifies this`tables, this`places, alloc`nextFrame, alloc`refcounts, alloc.bitmap.data
      ensures Forking(s, parent, child, n, taken')
      ensures ok ==> n == Num(Vpn(USER_ENTRIES, 0, 0, 0))
      ensures !ok ==> Exhausted()
      ensures Grown(old(places), places, child)
    {
      hide Forking, Num, Exhausted;
      taken' := taken;
      n := Num(Vpn(0, 0, 0, 0));
      for i4 := 0 to USER_ENTRIES
        invariant n == Num(Vpn(i4, 0, 0, 0))
        invariant Forking(s, parent, child, n, taken')
        invariant Grown(old(places), places, child)
      {
        ForkingEntry(s, parent, child, n, taken', parent, i4);
        if tables[parent][i4].Absent? {
          SkipL4(s, parent, child, taken', i4);
        } else {
          var pl3, cl3;
          ok, pl3, cl3, taken' := ChildTable(s, parent, child, n, taken', parent, child, i4);
          if !ok {
            return;
          }
          ok, n, taken' := CloneL3(s, parent, child, taken', pl3, cl3);
          if !ok {
            return;
          }
        }
        n := Num(Vpn(i4 + 1, 0, 0, 0));
        Carry(i4, 0, 0);
      }
      ok := true;
    }

    /**
     The clone behind fork. On success the new space shares every page of the parent. Out of memory leaves what was
     built so far as an unused space that shares some of the pages; `shared` says which.
     */
    method CloneUserAddressSpace(parent: nat, upper: seq<Pte>)
      returns (r: Option<nat>, ghost child: nat, ghost shared: set<Vpn>, ghost taken: set<nat>)
      requires Valid() && FewSharers(Abs(), parent) && |upper| == ENTRY_COUNT - USER_ENTRIES
      modifies this`tables, this`places, alloc`nextFrame, alloc`refcounts, alloc.bitmap.data
      ensures Valid()
      ensures r.Some? ==> child == r.value && child in taken && shared == SpacePages(old(Abs()), parent)
      ensures r.None? ==> Exhausted()
      ensures child in taken ==> Enabled(old(Abs()), Fork(parent, child, shared, taken))
      ensures child in taken ==> Abs() == Apply(old(Abs()), Fork(parent, child, shared, taken))
      ensures child !in taken ==> Abs() == old(Abs())
      ensures Grown(old(places), places, child) && (child in taken ==> child !in old(places))
    {
      hide FrameAllocator.Counted, FrameAllocator.Valid, FrameAllocator.Counts, Unreserved, Num;
      hide Shape, Inv, Spaces, CanFork, ForkState, Before, FreshTables, Taken, Enabled, Apply, FramesOf, Free,
           Exhausted;
      ghost var s := Abs();
      child, taken, shared := 0, {}, {};
      StartFork(tables, places, s, parent);
      ChildPlaced(tables, places, parent, 0);
      r := CreateUserPageTable(upper);
      if r.None? {
        return;
      }
      var root := r.value;
      child := root;
      CreateStartsFork(s, parent, child);
      var ok;
      ghost var n;
      ok, n, taken := CloneL4(s, parent, root, {root});
      FinishFork(s, parent, child, n, taken);
      shared := Before(s.spaces[parent], n);
      if !ok {
        r := None;
      }
    }

    // ---------- Exit ----------

    /** A teardown under way: the pages numbered below `n` are unmapped and the tables `gone` given back. */
    ghost predicate Freeing(s: Sys, root: nat, n: nat, gone: set<nat>)
      reads this, alloc, alloc.bitmap.data
    {
      && Wired()
      && Inv(s) && root in s.spaces && Proper(s.spaces[root])
      && TableFrames(s, gone) && gone !! s.spaces.Keys
      && Abs() == ExitState(s, root, Before(s.spaces[root], n), gone)
    }

    lemma FreeingEntry(s: Sys, root: nat, n: nat, gone: set<nat>, f: nat, i: nat)
      requires Freeing(s, root, n, gone) && f in places && i < UserPart(places[f].level)
      ensures f in tables && |tables[f]| == ENTRY_COUNT
      ensures tables[f][i].Present? && places[f].level > 1 ==>
                tables[f][i].entry.frame in places
                && places[tables[f][i].entry.frame] == Place(places[f].level - 1, f, i, places[f].root)
    {
      ChildPlaced(tables, places, f, i);
    }

    /** Clears one L1 entry. */
    method ClearLeaf(l1: nat, i1: nat)
      requires Wired() && i1 < ENTRY_COUNT && l1 in places && OnPath1(places, l1, places[l1].root)
      modifies this`tables
      ensures Wired() && tables.Keys == old(tables.Keys) && Kept(old(tables), tables, places, 1)
      ensures Cleared(old(tables), tables, l1, i1) && places[l1].root in old(Abs()).spaces
      ensures Abs() == WithoutPage(old(Abs()), places[l1].root, PageOf(places, l1, i1))
    {
      hide FrameAllocator.Counted, FrameAllocator.Valid, FrameAllocator.Counts, Unreserved;
      hide Shape, Spaces, SpaceOf, Taken, PageOf, Walk, LeafTable;
      PageOfValid(tables, places, l1, i1);
      LeafWriteShape(tables, places, l1, i1, Absent);
      LeafWriteSpaces(tables, places, l1, i1, Absent);
      tables := tables[l1 := tables[l1][i1 := Absent]];
      assert tables.Keys == old(tables.Keys);
    }

    /** Clears one L1 entry and drops the reference it held. */
    method DropPage(ghost s: Sys, ghost root: nat, ghost gone: set<nat>, l1: nat, i1: nat)
      requires i1 < ENTRY_COUNT && OnPath1(places, l1, root)
      requires Freeing(s, root, Num(PageOf(places, l1, i1)), gone)
      modifies this`tables, alloc`nextFrame, alloc`refcounts, alloc.bitmap.data
      ensures Freeing(s, root, Num(PageOf(places, l1, i1)) + 1, gone)
      ensures tables.Keys == old(tables.Keys) && Kept(old(tables), tables, places, 1)
      ensures Cleared(old(tables), tables, l1, i1)
    {
      hide FrameAllocator.Counted, FrameAllocator.Valid, FrameAllocator.Counts, Unreserved;
      hide Shape, Inv, ExitState, Spaces, SpaceOf, Walk, LeafTable, Before, TableFrames, Num, Taken, PageOf, Proper;
      ghost var v := PageOf(places, l1, i1);
      ghost var dropped := Before(s.spaces[root], Num(v));
      PageOfValid(tables, places, l1, i1);
      DropLooks(tables, places, s, root, v, gone);
      var pte := tables[l1][i1];
      if pte.Present? {
        ExitDropPage(s, root, dropped, gone, v);
        DropReference(pte.entry.frame);
        ClearLeaf(l1, i1);
      } else {
        assert tables[l1][i1 := Absent] == tables[l1];
      }
    }

    /** Unmaps every page under one L1 table. */
    method FreeL1(ghost s: Sys, ghost root: nat, ghost gone: set<nat>, l1: nat)
      requires OnPath1(places, l1, root)
      requires Freeing(s, root, Num(PageOf(places, l1, 0)), gone)
      modifies this`tables, alloc`nextFrame, alloc`refcounts, alloc.bitmap.data
      ensures Freeing(s, root, Num(PageOf(places, l1, ENTRY_COUNT)), gone)
      ensures tables.Keys == old(tables.Keys) && Kept(old(tables), tables, places, 1)
      ensures l1 in tables && Bare(tables, places, l1)
    {
      hide Freeing, Num;
      FreeingEntry(s, root, Num(PageOf(places, l1, 0)), gone, l1, 0);
      for i1 := 0 to ENTRY_COUNT
        invariant Freeing(s, root, Num(PageOf(places, l1, i1)), gone)
        invariant tables.Keys == old(tables.Keys) && Kept(old(tables), tables, places, 1)
        invariant l1 in tables && |tables[l1]| == ENTRY_COUNT
        invariant forall k :: 0 <= k < i1 ==> tables[l1][k].Absent?
      {
        DropPage(s, root, gone, l1, i1);
        NumNext(places, l1, i1);
      }
    }

    /** Gives a bare table back and clears the entry that points to it. */
    method DropTable(ghost s: Sys, ghost root: nat, ghost n: nat, ghost gone: set<nat>, f: nat, i: nat, c: nat)
      returns (ghost gone': set<nat>)
      requires Freeing(s, root, n, gone) && c in places && c in tables && places[c].level < 4
      requires Bare(tables, places, c) && places[c].up == f && places[c].index == i && places[c].root == root
      modifies this`tables, this`places, alloc`nextFrame, alloc`refcounts, alloc.bitmap.data
      ensures Freeing(s, root, n, gone')
      ensures f in old(tables) && i < |old(tables)[f]| && c != f
      ensures tables == Unlinked(old(tables), f, i, c) && places == old(places) - {c}
    {
      hide FrameAllocator.Counted, FrameAllocator.Valid, FrameAllocator.Counts, Unreserved;
      hide Shape, Inv, ExitState, Spaces, Before, TableFrames, Taken, Proper, Bare;
      TableHeld(tables, places, s, root, n, gone, other, c);
      ExitGiveTable(s, root, Before(s.spaces[root], n), gone, c);
      ReturnFrame(c);
      UnlinkTaken(tables, places, other, c);
      tables := tables[f := tables[f][i := Absent]] - {c};
      places := places - {c};
      gone' := gone + {c};
    }

    lemma PassL2(s: Sys, root: nat, gone: set<nat>, l2: nat, i2: nat)
      requires OnPath2(places, l2, root) && i2 < ENTRY_COUNT && At(tables, l2, i2).Absent?
      requires Freeing(s, root, Num(At2(places, l2, i2)), gone)
      ensures Freeing(s, root, Num(At2(places, l2, i2 + 1)), gone)
    {
      PassUnderL2(tables, places, s, root, gone, l2, i2);
    }

    lemma PassL3(s: Sys, root: nat, gone: set<nat>, l3: nat, i3: nat)
      requires OnPath3(places, l3, root) && i3 < ENTRY_COUNT && At(tables, l3, i3).Absent?
      requires Freeing(s, root, Num(Vpn(places[l3].index, i3, 0, 0)), gone)
      ensures Freeing(s, root, Num(Vpn(places[l3].index, i3 + 1, 0, 0)), gone)
    {
      PassUnderL3(tables, places, s, root, gone, l3, i3);
    }

    lemma PassL4(s: Sys, root: nat, gone: set<nat>, i4: nat)
      requires IsRoot(places, root) && i4 < USER_ENTRIES && At(tables, root, i4).Absent?
      requires Freeing(s, root, Num(Vpn(i4, 0, 0, 0)), gone)
      ensures Freeing(s, root, Num(Vpn(i4 + 1, 0, 0, 0)), gone)
    {
      PassUnderL4(tables, places, s, root, gone, i4);
    }

    /** Frees everything under one L2 table. */
    method FreeL2(ghost s: Sys, ghost root: nat, ghost gone: set<nat>, l2: nat) returns (ghost gone': set<nat>)
      requires OnPath2(places, l2, root)
      requires Freeing(s, root, Num(At2(places, l2, 0)), gone)
      modifies this`tables, this`places, alloc`nextFrame, alloc`refcounts, alloc.bitmap.data
      ensures Freeing(s, root, Num(At2(old(places), l2, ENTRY_COUNT)), gone')
      ensures Pruned(old(places), places, root, 2) && Kept(old(tables), tables, old(places), 2)
      ensures l2 in tables && l2 in places && Bare(tables, places, l2)
    {
      hide Freeing, Num, Cleaned, Kept, Unlinked, Bare;
      gone' := gone;
      FreeingEntry(s, root, Num(At2(places, l2, 0)), gone', l2, 0);
      CleanedNone(tables, places, l2);
      for i2 := 0 to ENTRY_COUNT
        invariant Cleaned(old(tables), tables, old(places), places, l2, i2)
        invariant OnPath2(places, l2, root) && At2(places, l2, 0) == At2(old(places), l2, 0)
        invariant Freeing(s, root, Num(At2(places, l2, i2)), gone')
      {
        ghost var n := Num(At2(places, l2, i2));
        FreeingEntry(s, root, n, gone', l2, i2);
        Carry(At2(places, l2, i2).i4, At2(places, l2, i2).i3, i2);
        if tables[l2][i2].Absent? {
          PassL2(s, root, gone', l2, i2);
          CleanedSkip(old(tables), tables, old(places), places, l2, i2);
        } else {
          var l1 := tables[l2][i2].entry.frame;
          ghost var t1, p1 := tables, places;
          FreeL1(s, root, gone', l1);
          ghost var t2 := tables;
          gone' := DropTable(s, root, Num(PageOf(places, l1, ENTRY_COUNT)), gone', l2, i2, l1);
          CleanedNext(old(tables), t1, t2, old(places), p1, p1, l2, i2, l1);
        }
        CleanedKeeps(old(tables), tables, old(places), places, l2, i2 + 1, l2);
        CleanedKeeps(old(tables), tables, old(places), places, l2, i2 + 1, old(places)[l2].up);
      }
      CleanedDone(old(tables), tables, old(places), places, l2, ENTRY_COUNT);
    }

    /** Frees everything under one L3 table. */
    method FreeL3(ghost s: Sys, ghost root: nat, ghost gone: set<nat>, l3: nat) returns (ghost gone': set<nat>)
      requires OnPath3(places, l3, root)
      requires Freeing(s, root, Num(Vpn(places[l3].index, 0, 0, 0)), gone)
      modifies this`tables, this`places, alloc`nextFrame, alloc`refcounts, alloc.bitmap.data
      ensures Freeing(s, root, Num(Vpn(old(places)[l3].index, ENTRY_COUNT, 0, 0)), gone')
      ensures Pruned(old(places), places, root, 3) && Kept(old(tables), tables, old(places), 3)
      ensures l3 in tables && l3 in places && Bare(tables, places, l3)
    {
      hide Freeing, Num, Cleaned, Kept, Unlinked, Bare;
      gone' := gone;
      ghost var i4 := places[l3].index;
      FreeingEntry(s, root, Num(Vpn(i4, 0, 0, 0)), gone', l3, 0);
      CleanedNone(tables, places, l3);
      for i3 := 0 to ENTRY_COUNT
        invariant Cleaned(old(tables), tables, old(places), places, l3, i3)
        invariant OnPath3(places, l3, root) && places[l3].index == i4
        invariant Freeing(s, root, Num(Vpn(i4, i3, 0, 0)), gone')
      {
        FreeingEntry(s, root, Num(Vpn(i4, i3, 0, 0)), gone', l3, i3);
        Carry(i4, i3, 0);
        if tables[l3][i3].Absent? {
          PassL3(s, root, gone', l3, i3);
          CleanedSkip(old(tables), tables, old(places), places, l3, i3);
        } else {
          var l2 := tables[l3][i3].entry.frame;
          ghost var t1, p1 := tables, places;
          gone' := FreeL2(s, root, gone', l2);
          ghost var t2, p2 := tables, places;
          gone' := DropTable(s, root, Num(Vpn(i4, i3, ENTRY_COUNT, 0)), gone', l3, i3, l2);
          CleanedNext(old(tables), t1, t2, old(places), p1, p2, l3, i3, l2);
        }
        CleanedKeeps(old(tables), tables, old(places), places, l3, i3 + 1, l3);
      }
      CleanedDone(old(tables), tables, old(places), places, l3, ENTRY_COUNT);
    }

    /** Frees the user half of a root. */
    method FreeL4(ghost s: Sys, root: nat) returns (ghost gone: set<nat>)
      requires IsRoot(places, root) && places[root].root == root
      requires Freeing(s, root, Num(Vpn(0, 0, 0, 0)), {})
      modifies this`tables, this`places, alloc`nextFrame, alloc`refcounts, alloc.bitmap.data
      ensures Freeing(s, root, Num(Vpn(USER_ENTRIES, 0, 0, 0)), gone)
      ensures Pruned(old(places), places, root, 4)
      ensures IsRoot(places, root) && root in tables && Bare(tables, places, root)
    {
      hide Freeing, Num, Cleaned, Kept, Unlinked, Bare;
      gone := {};
      FreeingEntry(s, root, Num(Vpn(0, 0, 0, 0)), gone, root, 0);
      CleanedNone(tables, places, root);
      for i4 := 0 to USER_ENTRIES
        invariant Cleaned(old(tables), tables, old(places), places, root, i4)
        invariant IsRoot(places, root) && places[root].root == root
        invariant Freeing(s, root, Num(Vpn(i4, 0, 0, 0)), gone)
      {
        FreeingEntry(s, root, Num(Vpn(i4, 0, 0, 0)), gone, root, i4);
        Carry(i4, 0, 0);
        if tables[root][i4].Absent? {
          PassL4(s, root, gone, i4);
          CleanedSkip(old(tables), tables, old(places), places, root, i4);
        } else {
          var l3 := tables[root][i4].entry.frame;
          ghost var t1, p1 := tables, places;
          gone := FreeL3(s, root, gone, l3);
          ghost var t2, p2 := tables, places;
          gone := DropTable(s, root, Num(Vpn(i4, ENTRY_COUNT, 0, 0)), gone, root, i4, l3);
          CleanedNext(old(tables), t1, t2, old(places), p1, p2, root, i4, l3);
        }
        CleanedKeeps(old(tables), tables, old(places), places, root, i4 + 1, root);
      }
      CleanedDone(old(tables), tables, old(places), places, root, USER_ENTRIES);
    }

    /** The teardown behind exit: every page of the space loses one reference and every table frame is freed. */
    method FreeProcessAddressSpace(root: nat) returns (ghost gone: set<nat>)
      requires Valid() && root in Abs().spaces
      modifies this`tables, this`places, alloc`nextFrame, alloc`refcounts, alloc.bitmap.data
      ensures Valid()
      ensures Enabled(old(Abs()), Exit(root, gone)) && Abs() == Apply(old(Abs()), Exit(root, gone))
      ensures places == map f | f in old(places) && old(places)[f].root != root :: old(places)[f]
    {
      hide FrameAllocator.Counted, FrameAllocator.Valid, FrameAllocator.Counts, Unreserved, Num;
      hide Shape, Inv, ExitState, Spaces, Before, TableFrames, Taken, Proper, Bare, Enabled, Apply, Pruned, UserPart;
      ghost var s := Abs();
      StartFree(tables, places, s, root);
      gone := FreeL4(s, root);
      FinishFree(tables, places, old(places), s, root, gone, other);
      ReturnFrame(root);
      tables := tables - {root};
      places := places - {root};
      gone := gone + {root};
    }

    /** Whatever clone took and shared, tearing the child down gives back exactly. */
    method CloneThenFree(parent: nat, upper: seq<Pte>) returns (ok: bool)
      requires Valid() && FewSharers(Abs(), parent) && |upper| == ENTRY_COUNT - USER_ENTRIES
      modifies this`tables, this`places, alloc`nextFrame, alloc`refcounts, alloc.bitmap.data
      ensures Valid()
      ensures !ok ==> Exhausted()
      ensures ok ==> alloc.Counts() == old(alloc.Counts()) && alloc.bitmap.Bits() == old(alloc.bitmap.Bits())
      ensures ok ==> tables.Keys == old(tables.Keys) && View(Abs()) == View(old(Abs()))
    {
      hide FrameAllocator.Counted, FrameAllocator.Valid, FrameAllocator.Counts, Unreserved;
      hide Shape, Inv, Spaces, Taken, Enabled, Apply, View, BitsOf, Exhausted, FewSharers;
      ghost var s := Abs();
      alloc.CountsGiveBits();
      var r;
      ghost var child, shared, taken;
      r, child, shared, taken := CloneUserAddressSpace(parent, upper);
      ok := r.Some?;
      if ok {
        ForkAdds(s, parent, child, shared, taken);
        ghost var grown := places;
        ghost var gone := FreeProcessAddressSpace(r.value);
        PlacesRestored(old(tables), old(places), grown, tables, places, child);
        CountsRestored(s, Abs(), parent, child, shared, taken, gone);
        alloc.CountsGiveBits();
      }
    }

    // ---------- Single pages ----------

    /** The entry of a page, and the L1 table it is in when it is present. */
    method WalkPageTable(root: nat, v: Vpn) returns (pte: Pte, l1: nat)
      requires Wired() && IsRoot(places, root) && ValidPage(v)
      ensures root in Abs().spaces
      ensures pte == if v in Abs().spaces[root] then Present(Abs().spaces[root][v]) else Absent
      ensures pte.Present? ==> OnPath1(places, l1, root) && PageOf(places, l1, v.i1) == v
    {
      hide FrameAllocator.Counted, FrameAllocator.Valid, FrameAllocator.Counts, Unreserved, Shape, Taken, SpaceOf;
      InSpace(tables, root, v);
      ChainUp(tables, places, root);
      ChildPlaced(tables, places, root, v.i4);
      pte, l1 := Absent, 0;
      if tables[root][v.i4].Absent? {
        return;
      }
      var l3 := tables[root][v.i4].entry.frame;
      ChildPlaced(tables, places, l3, v.i3);
      if tables[l3][v.i3].Absent? {
        return;
      }
      var l2 := tables[l3][v.i3].entry.frame;
      ChildPlaced(tables, places, l2, v.i2);
      if tables[l2][v.i2].Absent? {
        return;
      }
      l1 := tables[l2][v.i2].entry.frame;
      ChildPlaced(tables, places, l1, v.i1);
      pte := tables[l1][v.i1];
    }

    /** The table under an entry, created if it is absent. */
    method GetOrCreate(f: nat, i: nat) returns (ok: bool, c: nat, ghost taken: set<nat>)
      requires Wired() && Safe(Abs()) && f in places && places[f].level > 1 && i < UserPart(places[f].level)
      modifies this`tables, this`places, alloc`nextFrame, alloc`refcounts, alloc.bitmap.data
      ensures Wired() && Safe(Abs()) && Grown(old(places), places, old(places)[f].root)
      ensures FreshTables(old(Abs()), taken) && Abs() == TakenBy(old(Abs()), taken)
      ensures tables.Keys == old(tables.Keys) + taken
      ensures ok ==> c in places && places[c] == Place(old(places)[f].level - 1, f, i, old(places)[f].root)
      ensures !ok ==> Exhausted()
    {
      hide FrameAllocator.Counted, FrameAllocator.Valid, FrameAllocator.Counts, Unreserved, Exhausted;
      hide Shape, Spaces, Taken, Safe, TakenBy, EmptyTable;
      ChildPlaced(tables, places, f, i);
      taken := {};
      TakenByNone(Abs());
      ok, c := true, 0;
      if tables[f][i].Absent? {
        ok, c := AddTable(f, i);
        if ok {
          taken := {c};
          TakenByOne(old(Abs()), c);
        }
      } else {
        c := tables[f][i].entry.frame;
      }
    }

    method SetLeaf(root: nat, l1: nat, v: Vpn, e: Entry) returns (r: MapResult)
      requires Wired() && ValidPage(v) && OnPath1(places, l1, root) && PageOf(places, l1, v.i1) == v
      requires e.frame !in tables
      modifies this`tables
      ensures Wired() && root in old(Abs()).spaces && !r.OutOfMemory?
      ensures r.Remapped? <==> v in old(Abs()).spaces[root] && old(Abs()).spaces[root][v].frame != e.frame
      ensures Abs() == if r.Mapped? then WithPage(old(Abs()), root, v, e) else old(Abs())
    {
      hide FrameAllocator.Counted, FrameAllocator.Valid, FrameAllocator.Counts, Unreserved;
      hide Shape, SpaceOf, Taken, PageOf, WithPage;
      PageOfValid(tables, places, l1, v.i1);
      RootIsSpace(tables, places, root);
      InSpace(tables, root, v);
      var pte := tables[l1][v.i1];
      if pte.Present? && pte.entry.frame != e.frame {
        return Remapped;
      }
      ReplaceLeaf(root, l1, v, e);
      r := Mapped;
    }

    /** Overwrites one leaf entry. */
    method ReplaceLeaf(root: nat, l1: nat, v: Vpn, e: Entry)
      requires Wired() && ValidPage(v) && OnPath1(places, l1, root) && PageOf(places, l1, v.i1) == v
      requires e.frame !in tables
      modifies this`tables
      ensures Wired() && tables.Keys == old(tables.Keys)
      ensures root in old(Abs()).spaces && Abs() == WithPage(old(Abs()), root, v, e)
    {
      hide FrameAllocator.Counted, FrameAllocator.Valid, FrameAllocator.Counts, Unreserved;
      hide Shape, SpaceOf, Taken, PageOf;
      PageOfValid(tables, places, l1, v.i1);
      RootIsSpace(tables, places, root);
      LeafWriteShape(tables, places, l1, v.i1, Present(e));
      LeafWriteSpaces(tables, places, l1, v.i1, Present(e));
      tables := tables[l1 := tables[l1][v.i1 := Present(e)]];
      assert tables.Keys == old(tables.Keys);
    }

    /** Maps one page. Mapping it again to the same frame sets its flags; to another frame is a panic. */
    method MapPage(root: nat, v: Vpn, e: Entry) returns (r: MapResult, ghost taken: set<nat>)
      requires Wired() && Safe(Abs()) && IsRoot(places, root) && ValidPage(v)
      requires e.frame !in tables && !Free(Abs(), e.frame)
      modifies this`tables, this`places, alloc`nextFrame, alloc`refcounts, alloc.bitmap.data
      ensures Wired() && root in old(Abs()).spaces && FreshTables(old(Abs()), taken)
      ensures r.Mapped? ==> Abs() == WithPage(TakenBy(old(Abs()), taken), root, v, e)
      ensures !r.Mapped? ==> Abs() == TakenBy(old(Abs()), taken)
      ensures r.OutOfMemory? ==> Exhausted()
      ensures r.Remapped? ==> v in old(Abs()).spaces[root] && old(Abs()).spaces[root][v].frame != e.frame
      ensures r.Mapped? ==> v in old(Abs()).spaces[root] ==> old(Abs()).spaces[root][v].frame == e.frame
    {
      hide FrameAllocator.Counted, FrameAllocator.Valid, FrameAllocator.Counts, Unreserved, Exhausted;
      hide Shape, Spaces, SpaceOf, Taken, Safe, TakenBy, FreshTables;
      ghost var a := Abs();
      ChainUp(tables, places, root);
      RootIsSpace(tables, places, root);
      var ok, l3, l2, l1;
      ghost var t3, t2, t1;
      ok, l3, t3 := GetOrCreate(root, v.i4);
      taken := t3;
      if !ok {
        return OutOfMemory, taken;
      }
      ok, l2, t2 := GetOrCreate(l3, v.i3);
      TakenByBoth(a, taken, t2);
      taken := taken + t2;
      if !ok {
        return OutOfMemory, taken;
      }
      ok, l1, t1 := GetOrCreate(l2, v.i2);
      TakenByBoth(a, taken, t1);
      taken := taken + t1;
      if !ok {
        return OutOfMemory, taken;
      }
      TakenByKeeps(a, taken, e.frame);
      r := SetLeaf(root, l1, v, e);
    }

    /** Unmaps one page and returns the frame it was in. */
    method UnmapPage(root: nat, v: Vpn) returns (r: Option<nat>)
      requires Wired() && IsRoot(places, root) && ValidPage(v)
      modifies this`tables
      ensures Wired() && root in old(Abs()).spaces
      ensures r == if v in old(Abs()).spaces[root] then Some(old(Abs()).spaces[root][v].frame) else None
      ensures Abs() == WithoutPage(old(Abs()), root, v)
    {
      hide FrameAllocator.Counted, FrameAllocator.Valid, FrameAllocator.Counts, Unreserved;
      hide Shape, Spaces, SpaceOf, Taken, PageOf;
      RootIsSpace(tables, places, root);
      var pte, l1 := WalkPageTable(root, v);
      if pte.Absent? {
        WithoutNothing(Abs(), root, v);
        return None;
      }
      ClearLeaf(l1, v.i1);
      r := Some(pte.entry.frame);
    }

    // ---------- Faults ----------

    /** A page of zeros in a new frame. `false` is the panic on running out of memory. */
    method HandleDemandPaging(root: nat, v: Vpn, writable: bool) returns (ok: bool, ghost step: Step)
      requires Valid() && root in Abs().spaces && ValidPage(v) && v !in Abs().spaces[root]
      modifies this`tables, this`pages, this`places, this`other, alloc`nextFrame, alloc`refcounts, alloc.bitmap.data
      ensures step.Demand? && step.root == root && step.page == v && step.writable == writable
      ensures ok ==> Valid() && Enabled(old(Abs()), step) && Abs() == Apply(old(Abs()), step)
      ensures !ok ==> Exhausted()
    {
      hide Wired, Abs, Inv, Enabled, Apply, Exhausted;
      var r, frame;
      r, frame, step := MapFresh(root, v, writable);
      ok := r.Mapped?;
    }

    /** The frame of a page that could not be mapped is recorded as held: nothing gives it back. */
    ghost method Lose(a: Sys, taken: set<nat>, frame: nat)
      requires Wired() && Inv(a) && Free(a, frame)
      requires FreshTables(a.(counts := a.counts[frame := 1]), taken)
      requires Abs() == TakenBy(a.(counts := a.counts[frame := 1]), taken)
      modifies this`other
      ensures Valid() && Abs().spaces == a.spaces && other == old(other)[frame := 1]
    {
      hide FrameAllocator.Counted, FrameAllocator.Valid, FrameAllocator.Counts, Unreserved;
      hide Shape, Spaces, Inv, FreshTables, Taken;
      LostFrame(a, taken, frame, tables, other);
      other := other[frame := 1];
    }

    /** A frame that no table and no entry names. */
    method TakeUnmapped() returns (r: Option<nat>)
      requires Valid()
      modifies alloc`nextFrame, alloc`refcounts, alloc.bitmap.data
      ensures Wired() && (r.None? ==> Exhausted() && Abs() == old(Abs()))
      ensures r.Some? ==> Free(old(Abs()), r.value) && r.value !in tables && !Free(Abs(), r.value) && Safe(Abs())
      ensures r.Some? ==> Abs() == old(Abs()).(counts := old(Abs()).counts[r.value := 1])
    {
      hide FrameAllocator.Counted, FrameAllocator.Valid, FrameAllocator.Counts, Unreserved, Exhausted;
      hide Shape, Spaces, Taken, Safe, NotMapped, Inv;
      ghost var a := Abs();
      InvIsSafe(a);
      r := TakeFrame();
      if r.Some? {
        TablesHeld(tables, other);
        FreeNotMapped(tables, places, a, r.value);
        SafeTake(a, Abs(), r.value);
      }
    }

    /** Takes a frame, maps it and zeroes it. A page that is mapped already is refused (the kernel panics). */
    method MapFresh(root: nat, v: Vpn, writable: bool) returns (r: MapResult, frame: nat, ghost step: Step)
      requires Valid() && root in Abs().spaces && ValidPage(v)
      modifies this`tables, this`pages, this`places, this`other, alloc`nextFrame, alloc`refcounts, alloc.bitmap.data
      ensures step.Demand? && step.root == root && step.page == v && step.writable == writable && step.frame == frame
      ensures r.Mapped? ==> Valid() && Enabled(old(Abs()), step) && Abs() == Apply(old(Abs()), step)
      ensures r.Mapped? ==> other == old(other)
      ensures r.Remapped? ==> v in old(Abs()).spaces[root]
      ensures r.OutOfMemory? ==> Exhausted()
      ensures !r.Mapped? ==> Valid() && Abs().spaces == old(Abs()).spaces && pages == old(pages)
      ensures !r.Mapped? ==> other == old(other) || (frame !in old(other) && other == old(other)[frame := 1])
    {
      hide Wired, Abs, Inv, Enabled, Apply, Exhausted, Free;
      ghost var a := Abs();
      frame := 0;
      step := Demand(root, v, 0, writable, {});
      SpaceRoot(root);
      var got := TakeUnmapped();
      if got.None? {
        return OutOfMemory, frame, step;
      }
      frame := got.value;
      r, step := MapTaken(a, root, v, writable, frame);
    }

    /** Maps a page to a frame taken for it, and fills the frame with zeros. */
    method MapTaken(ghost a: Sys, root: nat, v: Vpn, writable: bool, frame: nat)
      returns (r: MapResult, ghost step: Step)
      requires Inv(a) && root in a.spaces && ValidPage(v) && Free(a, frame)
      requires Wired() && Abs() == a.(counts := a.counts[frame := 1]) && frame !in tables
      requires Safe(Abs()) && IsRoot(places, root)
      modifies this`tables, this`pages, this`places, this`other, alloc`nextFrame, alloc`refcounts, alloc.bitmap.data
      ensures step.Demand? && step.root == root && step.page == v && step.writable == writable && step.frame == frame
      ensures r.Mapped? ==> Valid() && Enabled(a, step) && Abs() == Apply(a, step) && other == old(other)
      ensures r.Remapped? ==> v in a.spaces[root]
      ensures r.OutOfMemory? ==> Exhausted()
      ensures !r.Mapped? ==> Valid() && Abs().spaces == a.spaces && pages == old(pages)
      ensures !r.Mapped? ==> frame !in old(other) && other == old(other)[frame := 1]
    {
      hide FrameAllocator.Counted, FrameAllocator.Valid, FrameAllocator.Counts, Unreserved, Exhausted;
      hide Shape, Spaces, Taken, Safe, TakenBy, FreshTables, Enabled, Apply, Inv, WithPage, ZeroPage;
      FreeIsUnused(a, frame);
      ghost var taken;
      r, taken := MapPage(root, v, Entry(frame, writable, true, false));
      step := Demand(root, v, frame, writable, taken);
      if !r.Mapped? {
        Lose(a, taken, frame);
        return;
      }
      pages := pages[frame := ZeroPage()];
      DemandIsStep(a, step);
    }

    /** The private copy made when a copy-on-write page is written. */
    method HandleCowFault(root: nat, v: Vpn) returns (r: FaultResult, ghost frame: nat)
      requires Valid() && root in Abs().spaces && ValidPage(v)
      modifies this`tables, this`pages, alloc`nextFrame, alloc`refcounts, alloc.bitmap.data
      ensures r.NoEntry? <==> v !in old(Abs()).spaces[root]
      ensures r.NotCow? <==> v in old(Abs()).spaces[root] && !old(Abs()).spaces[root][v].cow
      ensures r.Handled? ==>
                && Valid() && Enabled(old(Abs()), Cow(root, v, frame))
                && Abs() == Apply(old(Abs()), Cow(root, v, frame))
      ensures r.NoMemory? ==> Exhausted()
    {
      hide FrameAllocator.Counted, FrameAllocator.Valid, FrameAllocator.Counts, Unreserved, Exhausted;
      hide Shape, Spaces, SpaceOf, Taken, Enabled, Apply, Inv, PageOf, NotMapped, Safe;
      ghost var a := Abs();
      frame := 0;
      StartFree(tables, places, a, root);
      var pte, l1 := WalkPageTable(root, v);
      if pte.Absent? {
        return NoEntry, frame;
      }
      if !pte.entry.cow {
        return NotCow, frame;
      }
      MappedIsCounted(a, root, v);
      MappedHasMemory(a, root, v);
      var taken := TakeUnmapped();
      if taken.None? {
        return NoMemory, frame;
      }
      var copy := taken.value;
      frame := copy;
      FreeIsUnused(a, copy);
      pages := pages[copy := pages[pte.entry.frame]];
      var e := Entry(copy, true, pte.entry.user, false);
      ReplaceLeaf(root, l1, v, e);
      DropReference(pte.entry.frame);
      CowIsStep(a, root, v, copy);
      r := Handled;
    }

    /** The page-fault handler. Demand paging or a private copy; everything else, and running out of memory, panics. */
    method HandlePageFault(root: nat, v: Vpn, present: bool, write: bool, user: bool, regions: seq<VmRegion>)
      returns (ok: bool, ghost step: Step)
      requires Valid() && root in Abs().spaces && ValidPage(v) && (present <==> v in Abs().spaces[root])
      modifies this`tables, this`pages, this`places, this`other, alloc`nextFrame, alloc`refcounts, alloc.bitmap.data
      ensures ok ==> Valid() && Enabled(old(Abs()), step) && Abs() == Apply(old(Abs()), step)
      ensures ok && !present ==> step.Demand? && step.root == root && step.page == v
                                 && step.writable == DemandWritable(regions, PAGE_SIZE * Num(v))
      ensures ok && !present ==> Protects(regions, PAGE_SIZE * Num(v), step.writable)
      ensures ok && present ==> write && user && old(Abs()).spaces[root][v].cow
      ensures ok && present ==> step.Cow? && step.root == root && step.page == v
      ensures !ok ==> Exhausted() || (present && !(write && user && old(Abs()).spaces[root][v].cow))
    {
      hide Wired, Abs, Inv, Num, Apply, Enabled, Exhausted, Protects;
      RegionDecides(regions, PAGE_SIZE * Num(v));
      step := Load(root, v, 0);
      ok := false;
      match Dispatch(present, write, user, true)
      case DemandPage =>
        ok, step := HandleDemandPaging(root, v, DemandWritable(regions, PAGE_SIZE * Num(v)));
      case CopyOnWrite =>
        var r;
        ghost var frame;
        r, frame := HandleCowFault(root, v);
        step := Cow(root, v, frame);
        ok := r.Handled?;
      case Panic =>
    }

    /** Makes a page writable for a user store, the way the two faults it can take do. `false` is a kernel panic. */
    method ResolveStoreFaults(root: nat, v: Vpn, regions: seq<VmRegion>) returns (ok: bool, ghost steps: seq<Step>)
      requires Valid() && root in Abs().spaces && ValidPage(v)
      modifies this`tables, this`pages, this`places, this`other, alloc`nextFrame, alloc`refcounts, alloc.bitmap.data
      ensures ok ==> Valid() && Runs(old(Abs()), steps) && Abs() == Final(old(Abs()), steps)
      ensures ok ==> root in Abs().spaces && v in Abs().spaces[root]
                     && Abs().spaces[root][v].writable && Abs().spaces[root][v].user
      ensures ok ==> View(Abs()) == Touched(View(old(Abs())), root, v, DemandWritable(regions, PAGE_SIZE * Num(v)))
                     && OwnPageAt(View(old(Abs())), root, v, DemandWritable(regions, PAGE_SIZE * Num(v))).writable
      ensures !ok ==>
                || Exhausted()
                || !OwnPageAt(View(old(Abs())), root, v, DemandWritable(regions, PAGE_SIZE * Num(v))).writable
    {
      hide Wired, Abs, Inv, Num, Apply, Enabled, View, Touched, OwnPageAt, Exhausted;
      ghost var writable := DemandWritable(regions, PAGE_SIZE * Num(v));
      ghost var a := Abs();
      steps := [];
      SpaceRoot(root);
      var pte, l1 := WalkPageTable(root, v);
      if pte.Absent? {
        ghost var step;
        ok, step := HandlePageFault(root, v, false, true, true, regions);
        if !ok {
          return;
        }
        AfterDemand(a, step);
        RunSnoc(a, [], step);
        steps := [] + [step];
        SpaceRoot(root);
        pte, l1 := WalkPageTable(root, v);
      } else {
        TouchedAlready(a, root, v, writable);
      }
      assert View(Abs()) == Touched(View(a), root, v, writable);
      ghost var b := Abs();
      ViewWritable(b, root, v);
      ViewHas(a, root);
      TouchedPage(View(a), root, v, writable);
      if !pte.entry.writable {
        ghost var step;
        ok, step := HandlePageFault(root, v, true, true, true, regions);
        if !ok {
          return;
        }
        AfterCow(b, root, v, step.frame);
        RunSnoc(a, steps, step);
        steps := steps + [step];
      }
      ok := true;
    }

    lemma SpaceRoot(root: nat)
      requires Wired() && root in Abs().spaces
      ensures IsRoot(places, root)
    {
    }

    /** A user store: it faults as needed, then changes one byte of one page of one process, or the kernel panics. */
    method UserStore(root: nat, v: Vpn, offset: nat, byte: bv8, regions: seq<VmRegion>)
      returns (ok: bool, ghost steps: seq<Step>)
      requires Valid() && root in Abs().spaces && ValidPage(v) && offset < PAGE_SIZE
      modifies this`tables, this`pages, this`places, this`other, alloc`nextFrame, alloc`refcounts, alloc.bitmap.data
      ensures ok ==> Valid() && Runs(old(Abs()), steps) && Abs() == Final(old(Abs()), steps)
      ensures ok ==>
                var own := OwnPageAt(View(old(Abs())), root, v, DemandWritable(regions, PAGE_SIZE * Num(v)));
                own.writable && View(Abs()) == WithByte(View(old(Abs())), root, v, own, offset, byte)
      ensures v !in old(Abs()).spaces[root] ==> forall i: nat ::
                FirstHolds(regions, PAGE_SIZE * Num(v), i) && !regions[i].write ==> !ok
      ensures !ok ==>
                || Exhausted()
                || !OwnPageAt(View(old(Abs())), root, v, DemandWritable(regions, PAGE_SIZE * Num(v))).writable
    {
      hide FrameAllocator.Counted, FrameAllocator.Valid, FrameAllocator.Counts, Unreserved, Exhausted;
      hide Shape, Spaces, Taken, Inv, Num, Apply, Enabled, View, Touched, OwnPageAt, WithByte;
      ghost var writable := DemandWritable(regions, PAGE_SIZE * Num(v));
      ghost var a := Abs();
      ReadOnlyRegion(a, root, v, regions, PAGE_SIZE * Num(v));
      hide FirstHolds;
      ok, steps := ResolveStoreFaults(root, v, regions);
      if !ok {
        return;
      }
      ghost var b := Abs();
      SpaceRoot(root);
      var pte, l1 := WalkPageTable(root, v);
      ghost var step := Store(root, v, offset, byte);
      AfterStore(b, step);
      ViewHas(a, root);
      ViewWritable(b, root, v);
      TouchedPage(View(a), root, v, writable);
      StoredByte(View(a), root, v, writable, offset, byte);
      RunSnoc(a, steps, step);
      var f := pte.entry.frame;
      pages := pages[f := pages[f][offset := byte]];
      steps := steps + [step];
    }
  }
}
