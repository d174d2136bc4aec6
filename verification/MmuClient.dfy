/** From bare memory to two processes: the paging operations used together. */
module MmuClients {
  import opened CowSpec
  import opened PageTables
  import opened PageOrder
  import opened FrameAllocators
  import opened MmuSteps
  import opened Mmus

  lemma LoneSpaceHasFewSharers(s: Sys, root: nat, v: Vpn)
    requires Inv(s) && root in s.spaces && s.spaces.Keys == {root} && s.spaces[root].Keys == {v}
    ensures FewSharers(s, root)
  {
    forall f | f in FramesOf(s.spaces[root], s.spaces[root].Keys)
      ensures f in s.counts && s.counts[f] < MAX_SHARERS
    {
      assert EntryOk(s, s.spaces[root][v]);
      assert Mappers(s.spaces, f) <= {(root, v)};
      SubsetSize(Mappers(s.spaces, f), {(root, v)});
    }
  }

  lemma ViewKeys(s: Sys, root: nat)
    ensures View(s).Keys == s.spaces.Keys && (root in s.spaces ==> View(s)[root].Keys == s.spaces[root].Keys)
  {
  }

  lemma FirstRoot(s: Sys, root: nat)
    requires Inv(s) && s.spaces == map[] && Enabled(s, Create(root))
    ensures Apply(s, Create(root)).spaces == map[root := map[]] && View(Apply(s, Create(root))) == map[root := map[]]
  {
    StepRefines(s, Create(root));
    assert View(s) == map[];
  }

  /** A full clone shows the child what the parent shows. */
  lemma ForkShowsCopy(s: Sys, parent: nat, child: nat, shared: set<Vpn>, taken: set<nat>)
    requires Inv(s) && Enabled(s, Fork(parent, child, shared, taken)) && shared == SpacePages(s, parent)
    ensures child != parent && parent in View(s)
    ensures View(Apply(s, Fork(parent, child, shared, taken))) == View(s)[child := View(s)[parent]]
  {
    hide Inv;
    FreeIsUnused(s, child);
    StepRefines(s, Fork(parent, child, shared, taken));
    ViewKeys(s, parent);
    assert Part(View(s)[parent], shared) == View(s)[parent];
  }

  lemma StoreShows(e: Eager, root: nat, v: Vpn, own: OwnPage, offset: nat, byte: bv8)
    requires root in e && offset < |own.bytes|
    ensures var after := WithByte(e, root, v, own, offset, byte);
            && after.Keys == e.Keys && after[root].Keys == e[root].Keys + {v}
            && after[root][v] == OwnPage(own.bytes[offset := byte], own.writable)
            && forall q :: q in e && q != root ==> after[q] == e[q]
  {
  }

  ghost predicate Shows(e: Eager, root: nat, v: Vpn, offset: nat, byte: bv8) {
    root in e && v in e[root] && offset < |e[root][v].bytes| && e[root][v].bytes[offset] == byte
  }

  /** The allocator with counting on, and no address space. */
  method Boot(start: nat, end: nat, storage: array<bv8>, counts: seq<nat>, memory: map<nat, Page>) returns (mmu: Mmu)
    requires start <= end && (end - start + 7) / 8 <= storage.Length
    requires end - start <= |counts| && forall i :: 0 <= i < |counts| ==> counts[i] <= MAX_REFCOUNT
    requires forall f: nat :: (f in memory <==> start <= f < end) && (f in memory ==> |memory[f]| == PAGE_SIZE)
    modifies storage
    ensures fresh(mmu) && fresh(mmu.alloc) && mmu.alloc.bitmap.data == storage && mmu.Valid()
            && mmu.Abs().spaces == map[]
  {
    hide Inv, Spaces;
    var allocator := new FrameAllocator(start, end, storage);
    allocator.SetRefcountStorage(counts);
    assert allocator.Counts().Keys == memory.Keys;
    mmu := new Mmu(allocator, memory);
  }

  /** A store by the only process, which has no page yet. */
  method FirstStore(mmu: Mmu, root: nat, v: Vpn, offset: nat, byte: bv8) returns (ok: bool)
    requires mmu.Valid() && mmu.Abs().spaces == map[root := map[]] && ValidPage(v) && offset < PAGE_SIZE
    modifies mmu`tables, mmu`pages, mmu`places, mmu`other
    modifies mmu.alloc`nextFrame, mmu.alloc`refcounts, mmu.alloc.bitmap.data
    ensures !ok ==> mmu.Exhausted()
    ensures ok ==> mmu.Valid() && root in mmu.Abs().spaces && FewSharers(mmu.Abs(), root)
    ensures ok ==> View(mmu.Abs()).Keys == {root} && Writes(View(mmu.Abs()), root, v, offset, byte)
  {
    hide Mmu.Wired, Mmu.Abs, Mmu.Exhausted, Inv, View, WithByte, Num, ZeroPage, FewSharers;
    ViewKeys(mmu.Abs(), root);
    ghost var before := View(mmu.Abs());
    ghost var steps;
    ok, steps := mmu.UserStore(root, v, offset, byte, []);
    if ok {
      ZeroPageSize();
      StoreShows(before, root, v, OwnPage(ZeroPage(), true), offset, byte);
      ViewKeys(mmu.Abs(), root);
      LoneSpaceHasFewSharers(mmu.Abs(), root, v);
    }
  }

  lemma ZeroPageSize()
    ensures |ZeroPage()| == PAGE_SIZE
  {
  }

  /** A writable page that shows the byte. */
  ghost predicate Writes(e: Eager, root: nat, v: Vpn, offset: nat, byte: bv8) {
    Shows(e, root, v, offset, byte) && e[root][v].writable
  }

  /** A fork of the only process, and a store by the child. */
  method ForkedStore(mmu: Mmu, parent: nat, upper: seq<Pte>, v: Vpn, offset: nat, byte: bv8)
    returns (ok: bool, child: nat)
    requires mmu.Valid() && FewSharers(mmu.Abs(), parent) && |upper| == ENTRY_COUNT - USER_ENTRIES
    requires ValidPage(v) && offset < PAGE_SIZE && View(mmu.Abs()).Keys == {parent}
    requires v in View(mmu.Abs())[parent] && View(mmu.Abs())[parent][v].writable
    modifies mmu`tables, mmu`pages, mmu`places, mmu`other
    modifies mmu.alloc`nextFrame, mmu.alloc`refcounts, mmu.alloc.bitmap.data
    ensures !ok ==> mmu.Exhausted()
    ensures ok ==> mmu.Valid() && child != parent && View(mmu.Abs()).Keys == {parent, child}
    ensures ok ==> View(mmu.Abs())[parent] == View(old(mmu.Abs()))[parent]
    ensures ok ==> Shows(View(mmu.Abs()), child, v, offset, byte)
  {
    hide Mmu.Wired, Mmu.Abs, Mmu.Exhausted, Inv, View, WithByte, Num, ZeroPage, FewSharers, Apply, Enabled;
    ghost var a := mmu.Abs();
    child, ok := 0, false;
    var r;
    ghost var c, shared, taken;
    r, c, shared, taken := mmu.CloneUserAddressSpace(parent, upper);
    if r.None? {
      return;
    }
    child := r.value;
    ForkShowsCopy(a, parent, child, shared, taken);
    ghost var b := mmu.Abs();
    ViewKeys(b, child);
    ViewWritable(b, child, v);
    ghost var steps;
    ok, steps := mmu.UserStore(child, v, offset, byte, []);
    if ok {
      StoreShows(View(b), child, v, View(b)[child][v], offset, byte);
    }
  }

  /**
   From bare memory: the first process stores a byte, which faults its page in, forks, and the child stores another
   byte to the same place. Each then sees its own byte; only running out of frames prevents it.
   */
  method ForkThenStore(start: nat, end: nat, storage: array<bv8>, counts: seq<nat>, memory: map<nat, Page>,
                       upper: seq<Pte>, v: Vpn, offset: nat, first: bv8, second: bv8)
    returns (mmu: Mmu, ok: bool, parent: nat, child: nat)
    requires start <= end && (end - start + 7) / 8 <= storage.Length
    requires end - start <= |counts| && forall i :: 0 <= i < |counts| ==> counts[i] <= MAX_REFCOUNT
    requires forall f: nat :: (f in memory <==> start <= f < end) && (f in memory ==> |memory[f]| == PAGE_SIZE)
    requires |upper| == ENTRY_COUNT - USER_ENTRIES && ValidPage(v) && offset < PAGE_SIZE
    modifies storage
    ensures !ok ==> mmu.Exhausted()
    ensures ok ==> mmu.Valid() && parent != child && View(mmu.Abs()).Keys == {parent, child}
    ensures ok ==> Shows(View(mmu.Abs()), parent, v, offset, first) && Shows(View(mmu.Abs()), child, v, offset, second)
  {
    hide Mmu.Wired, Mmu.Abs, Mmu.Exhausted, Inv, View, Apply, Enabled, OwnPageAt, WithByte, Num, ZeroPage, FewSharers;
    parent, child, ok := 0, 0, false;
    mmu := Boot(start, end, storage, counts, memory);
    ghost var a := mmu.Abs();
    var root := mmu.CreateUserPageTable(upper);
    if root.None? {
      return;
    }
    parent := root.value;
    FirstRoot(a, parent);
    ok := FirstStore(mmu, parent, v, offset, first);
    if !ok {
      return;
    }
    ok, child := ForkedStore(mmu, parent, upper, v, offset, second);
  }
}
