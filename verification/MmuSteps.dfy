/** What single writes, takes and drops of the paging code do to the machine of the specification. */
module MmuSteps {
  import opened CowSpec
  import opened PageTables
  import opened PageOrder
  import opened Regions
  import opened FrameAllocators

  /** The eager view with one byte of one page set. */
  ghost function WithByte(e: Eager, root: nat, v: Vpn, own: OwnPage, offset: nat, byte: bv8): Eager {
    if root in e && offset < |own.bytes| then e[root := e[root][v := own.(bytes := own.bytes[offset := byte])]] else e
  }

  lemma TouchedAlready(a: Sys, root: nat, v: Vpn, writable: bool)
    requires root in a.spaces && v in a.spaces[root]
    ensures Touched(View(a), root, v, writable) == View(a)
  {
    var e := View(a);
    assert e[root][v := e[root][v]] == e[root];
    assert e[root := e[root]] == e;
  }

  lemma TouchedPage(e: Eager, root: nat, v: Vpn, writable: bool)
    requires root in e
    ensures root in Touched(e, root, v, writable) && v in Touched(e, root, v, writable)[root]
    ensures Touched(e, root, v, writable)[root][v] == OwnPageAt(e, root, v, writable)
  {
  }

  lemma ViewHas(a: Sys, root: nat)
    ensures root in View(a) <==> root in a.spaces
  {
  }

  lemma ViewWritable(a: Sys, root: nat, v: Vpn)
    requires Inv(a) && root in a.spaces && v in a.spaces[root]
    ensures root in View(a) && v in View(a)[root] && |View(a)[root][v].bytes| == PAGE_SIZE
    ensures View(a)[root][v].writable == (a.spaces[root][v].writable || a.spaces[root][v].cow)
    ensures a.spaces[root][v].user
  {
    assert EntryOk(a, a.spaces[root][v]);
  }

  lemma AfterDemand(a: Sys, step: Step)
    requires Inv(a) && step.Demand? && Enabled(a, step)
    ensures var b := Apply(a, step);
            && step.root in b.spaces && step.page in b.spaces[step.root]
            && b.spaces[step.root][step.page] == Entry(step.frame, step.writable, true, false)
            && View(b) == Touched(View(a), step.root, step.page, step.writable)
  {
    StepRefines(a, step);
  }

  lemma AfterCow(a: Sys, root: nat, v: Vpn, frame: nat)
    requires Inv(a) && Enabled(a, Cow(root, v, frame))
    ensures var b := Apply(a, Cow(root, v, frame));
            && root in b.spaces && v in b.spaces[root]
            && b.spaces[root][v].writable && b.spaces[root][v].user
            && View(b) == View(a)
  {
    StepRefines(a, Cow(root, v, frame));
    assert EntryOk(a, a.spaces[root][v]);
  }

  lemma AfterStore(a: Sys, step: Step)
    requires Inv(a) && step.Store? && step.root in a.spaces && step.page in a.spaces[step.root]
             && step.offset < PAGE_SIZE
    requires a.spaces[step.root][step.page].writable && a.spaces[step.root][step.page].user
    ensures Enabled(a, step)
    ensures var f := a.spaces[step.root][step.page].frame;
            && f in a.mem && |a.mem[f]| == PAGE_SIZE
            && Apply(a, step) == a.(mem := a.mem[f := a.mem[f][step.offset := step.byte]])
    ensures Inv(Apply(a, step)) && View(Apply(a, step)) == EagerApply(View(a), step)
  {
    assert EntryOk(a, a.spaces[step.root][step.page]);
    StoreKeepsInv(a, step);
    StoreRefines(a, step);
  }

  lemma StoredByte(e: Eager, root: nat, v: Vpn, writable: bool, offset: nat, byte: bv8)
    requires root in e
    ensures EagerApply(Touched(e, root, v, writable), Store(root, v, offset, byte)) ==
            var own := OwnPageAt(e, root, v, writable);
            if offset < |own.bytes| then WithByte(e, root, v, own, offset, byte) else Touched(e, root, v, writable)
  {
    var own := OwnPageAt(e, root, v, writable);
    var t := Touched(e, root, v, writable);
    assert t[root][v] == own;
    if offset < |own.bytes| {
      var after := own.(bytes := own.bytes[offset := byte]);
      assert e[root][v := own][v := after] == e[root][v := after];
      assert e[root := e[root][v := own]][root := e[root][v := after]] == e[root := e[root][v := after]];
    }
  }

  /** A tracked region of a process, as far as demand paging looks at it. */
  datatype VmRegion = VmRegion(startAddr: nat, endAddr: nat, write: bool)

  /** The first region that holds the page decides; an untracked page is writable. */
  function DemandWritable(regions: seq<VmRegion>, addr: nat): bool {
    if regions == [] then true
    else if regions[0].startAddr <= addr < regions[0].endAddr then regions[0].write
    else DemandWritable(regions[1..], addr)
  }

  ghost predicate Holds(region: VmRegion, addr: nat) {
    region.startAddr <= addr < region.endAddr
  }

  /** Region i is the first in the list that holds the address. */
  ghost predicate FirstHolds(regions: seq<VmRegion>, addr: nat, i: nat) {
    i < |regions| && Holds(regions[i], addr) && forall j :: 0 <= j < i ==> !Holds(regions[j], addr)
  }

  ghost predicate Untracked(regions: seq<VmRegion>, addr: nat) {
    forall j :: 0 <= j < |regions| ==> !Holds(regions[j], addr)
  }

  /** The protection of a page that is about to be mapped: that of its first region, or writable if it has none. */
  ghost predicate Protects(regions: seq<VmRegion>, addr: nat, writable: bool) {
    && (forall i: nat :: FirstHolds(regions, addr, i) ==> writable == regions[i].write)
    && (Untracked(regions, addr) ==> writable)
  }

  lemma {:induction false} RegionDecides(regions: seq<VmRegion>, addr: nat)
    ensures Protects(regions, addr, DemandWritable(regions, addr))
    decreases |regions|
  {
    if regions != [] && !Holds(regions[0], addr) {
      var rest := regions[1..];
      RegionDecides(rest, addr);
      forall i: nat | FirstHolds(regions, addr, i)
        ensures DemandWritable(regions, addr) == regions[i].write
      {
        assert forall j :: 0 <= j < i - 1 ==> rest[j] == regions[j + 1];
        assert FirstHolds(rest, addr, i - 1);
      }
      assert Untracked(regions, addr) ==> Untracked(rest, addr);
    }
  }

  datatype FaultAction = DemandPage | CopyOnWrite | Panic

  /** The case split of the page-fault handler. */
  function Dispatch(present: bool, write: bool, user: bool, userAddress: bool): FaultAction {
    if !present && user then DemandPage
    else if present && write && user then CopyOnWrite
    else if !present && !user && userAddress then DemandPage
    else Panic
  }

  /** What a process owns at a page it is about to touch: the page, or zeros if it has none. */
  ghost function OwnPageAt(e: Eager, root: nat, v: Vpn, writable: bool): OwnPage {
    if root in e && v in e[root] then e[root][v] else OwnPage(ZeroPage(), writable)
  }

  /** One byte of one page of one process is set; its other bytes are as they were, zero on a new page. */
  ghost predicate OneByteSet(before: Eager, after: Eager, root: nat, v: Vpn, offset: nat, byte: bv8) {
    && root in before && after.Keys == before.Keys && (forall q :: q in before && q != root ==> after[q] == before[q])
    && after[root].Keys == before[root].Keys + {v}
    && (forall w :: w in before[root] && w != v ==> after[root][w] == before[root][w])
    && after[root][v].writable && |after[root][v].bytes| == 4096 && offset < 4096
    && after[root][v].bytes[offset] == byte
    && (v in before[root] ==> |before[root][v].bytes| == 4096)
    && forall k :: 0 <= k < 4096 && k != offset ==>
         after[root][v].bytes[k] == if v in before[root] then before[root][v].bytes[k] else 0
  }

  lemma ByteSet(e: Eager, root: nat, v: Vpn, own: OwnPage, offset: nat, byte: bv8)
    requires root in e && offset < |own.bytes| == PAGE_SIZE && own.writable
    requires own == OwnPageAt(e, root, v, true)
    ensures OneByteSet(e, WithByte(e, root, v, own, offset, byte), root, v, offset, byte)
  {
  }

  lemma PagesFull(s: Sys, root: nat, v: Vpn, writable: bool)
    requires Inv(s)
    ensures |OwnPageAt(View(s), root, v, writable).bytes| == PAGE_SIZE
  {
  }

  /** What a user store that succeeds makes of what the processes see is that one byte. */
  lemma StoreSetsOne(s: Sys, root: nat, v: Vpn, writable: bool, offset: nat, byte: bv8)
    requires Inv(s) && root in s.spaces && offset < PAGE_SIZE && OwnPageAt(View(s), root, v, writable).writable
    ensures var own := OwnPageAt(View(s), root, v, writable);
            OneByteSet(View(s), WithByte(View(s), root, v, own, offset, byte), root, v, offset, byte)
  {
    hide Inv, OneByteSet, WithByte;
    PagesFull(s, root, v, writable);
    ByteSet(View(s), root, v, OwnPageAt(View(s), root, v, writable), offset, byte);
  }

  /** A page that is not there yet and whose first region is read-only is not one a process may write. */
  lemma ReadOnlyRegion(s: Sys, root: nat, v: Vpn, regions: seq<VmRegion>, addr: nat)
    requires root in s.spaces
    ensures v !in s.spaces[root] ==> forall i: nat ::
              FirstHolds(regions, addr, i) && !regions[i].write ==>
                !OwnPageAt(View(s), root, v, DemandWritable(regions, addr)).writable
  {
    RegionDecides(regions, addr);
  }

  ghost function Touched(e: Eager, root: nat, v: Vpn, writable: bool): Eager {
    if root in e then e[root := e[root][v := OwnPageAt(e, root, v, writable)]] else e
  }

  datatype FaultResult = Handled | NoEntry | NotCow | NoMemory

  ghost function WithoutPage(s: Sys, root: nat, v: Vpn): Sys {
    if root in s.spaces then s.(spaces := s.spaces[root := s.spaces[root] - {v}]) else s
  }

  lemma TablesHeld(tables: Tables, other: map<nat, nat>)
    ensures tables.Keys <= (Taken(tables.Keys) + other).Keys
  {
  }

  lemma WithoutNothing(s: Sys, root: nat, v: Vpn)
    requires root in s.spaces && v !in s.spaces[root]
    ensures WithoutPage(s, root, v) == s
  {
    assert s.spaces[root] - {v} == s.spaces[root];
    assert s.spaces[root := s.spaces[root]] == s.spaces;
  }

  /** A frame taken, a page mapped to it and its bytes cleared: the demand-paging step. */
  lemma DemandIsStep(a: Sys, step: Step)
    requires Inv(a) && step.Demand? && step.root in a.spaces && step.page !in a.spaces[step.root] && Free(a, step.frame)
    requires FreshTables(a.(counts := a.counts[step.frame := 1]), step.tables)
    ensures Enabled(a, step)
    ensures Apply(a, step) ==
            WithPage(TakenBy(a.(counts := a.counts[step.frame := 1]), step.tables),
                     step.root, step.page, Entry(step.frame, step.writable, true, false))
            .(mem := a.mem[step.frame := ZeroPage()])
    ensures Inv(Apply(a, step))
  {
    hide Inv;
    var b := a.(counts := a.counts[step.frame := 1]);
    forall t | t in step.tables
      ensures Free(a, t) && t != step.frame
    {
      assert Free(b, t);
    }
    assert a.counts[step.frame := 1] + Taken(step.tables) == (a.counts + Taken(step.tables))[step.frame := 1];
    DemandKeepsInv(a, step);
  }

  lemma MappedHasMemory(a: Sys, root: nat, v: Vpn)
    requires Inv(a) && root in a.spaces && v in a.spaces[root]
    ensures a.spaces[root][v].frame in a.mem
  {
    assert EntryOk(a, a.spaces[root][v]);
  }

  lemma CowIsStep(a: Sys, root: nat, v: Vpn, frame: nat)
    requires Inv(a) && root in a.spaces && v in a.spaces[root] && a.spaces[root][v].cow && Free(a, frame)
    ensures Enabled(a, Cow(root, v, frame)) && Apply(a, Cow(root, v, frame)) == CowState(a, root, v, frame)
    ensures Inv(Apply(a, Cow(root, v, frame)))
  {
    CowKeepsInv(a, root, v, frame);
  }

  /** A space none of whose frames has reached the largest count, so that all of it can be shared. */
  ghost predicate FewSharers(s: Sys, parent: nat) {
    parent in s.spaces
    && forall f :: f in FramesOf(s.spaces[parent], s.spaces[parent].Keys) ==> f in s.counts && s.counts[f] < MAX_SHARERS
  }

  ghost function SpacePages(s: Sys, root: nat): set<Vpn> {
    if root in s.spaces then s.spaces[root].Keys else {}
  }

  datatype MapResult = Mapped | OutOfMemory | Remapped

  /** The state with free frames taken as tables. */
  ghost function TakenBy(s: Sys, tables: set<nat>): Sys {
    s.(counts := s.counts + Taken(tables), held := s.held + Taken(tables))
  }

  lemma TakenByNone(s: Sys)
    ensures TakenBy(s, {}) == s
  {
    assert s.counts + Taken({}) == s.counts;
    assert s.held + Taken({}) == s.held;
  }

  lemma TakenByOne(s: Sys, c: nat)
    ensures TakenBy(s, {c}) == s.(counts := s.counts[c := 1], held := s.held[c := 1])
  {
    assert s.counts + Taken({c}) == s.counts[c := 1];
    assert s.held + Taken({c}) == s.held[c := 1];
  }

  lemma TakenByKeeps(s: Sys, t: set<nat>, f: nat)
    requires FreshTables(s, t) && !Free(s, f)
    ensures f !in t && TakenBy(s, t).spaces == s.spaces
  {
  }

  lemma RootIsSpace(tables: Tables, places: Places, root: nat)
    requires IsRoot(places, root)
    ensures root in Spaces(tables, places) && Spaces(tables, places)[root] == SpaceOf(tables, root)
  {
  }

  lemma TakenByBoth(s: Sys, t: set<nat>, u: set<nat>)
    requires FreshTables(s, t) && FreshTables(TakenBy(s, t), u)
    ensures FreshTables(s, t + u) && TakenBy(TakenBy(s, t), u) == TakenBy(s, t + u)
  {
    forall x | x in u
      ensures Free(s, x)
    {
      assert Free(TakenBy(s, t), x);
    }
    hide Taken, FreshTables, Free;
    TakenTwice(s.counts, t, u);
    TakenTwice(s.held, t, u);
  }

  lemma TakenTwice(m: map<nat, nat>, t: set<nat>, u: set<nat>)
    ensures m + Taken(t) + Taken(u) == m + Taken(t + u)
  {
  }

  lemma TakenCounts(s: Sys, t: set<nat>)
    requires Inv(s) && FreshTables(s, t)
    ensures Framed(TakenBy(s, t)) && CountsOk(TakenBy(s, t))
  {
    hide Mappers, EntriesOk;
    var s' := TakenBy(s, t);
    forall f | f in t
      ensures f in s.counts && s.counts[f] == 0
    {
      assert Free(s, f);
    }
    forall f | f in s'.counts
      ensures s'.counts[f] == Due(s', f)
    {
    }
  }

  /** Frames taken out of the free ones leave the invariant and every page as they were. */
  lemma TakenKeepsInv(s: Sys, t: set<nat>)
    requires Inv(s) && FreshTables(s, t)
    ensures Inv(TakenBy(s, t))
  {
    hide Mappers, Injective;
    var s' := TakenBy(s, t);
    TakenCounts(s, t);
    hide CountsOk;
    forall r, v | r in s'.spaces && v in s'.spaces[r]
      ensures EntryOk(s', s'.spaces[r][v])
    {
      assert EntryOk(s, s.spaces[r][v]);
      MappedIsCounted(s, r, v);
      assert s.spaces[r][v].frame !in t;
    }
  }

  /** A frame that was taken for a page and not mapped: from then on it is held, and nobody gives it back. */
  lemma LostFrame(s: Sys, taken: set<nat>, frame: nat, tables: Tables, other: map<nat, nat>)
    requires Inv(s) && Free(s, frame) && FreshTables(s.(counts := s.counts[frame := 1]), taken)
    requires Taken(tables.Keys) + other == TakenBy(s.(counts := s.counts[frame := 1]), taken).held
    ensures var b := TakenBy(s.(counts := s.counts[frame := 1]), taken);
            && frame !in tables && Inv(b.(held := Taken(tables.Keys) + other[frame := 1]))
  {
    hide Inv, FreshTables, Taken;
    FreshBefore(s, taken, frame);
    FreeIsUnused(s, frame);
    TakenKeepsInv(s, taken + {frame});
    LostIsTaken(s, taken, frame);
    HeldFrame(tables.Keys, other, s.held + Taken(taken), frame);
  }

  lemma FreshBefore(s: Sys, taken: set<nat>, frame: nat)
    requires Inv(s) && Free(s, frame) && FreshTables(s.(counts := s.counts[frame := 1]), taken)
    ensures FreshTables(s, taken + {frame}) && frame !in taken && frame !in s.held + Taken(taken)
  {
    FreeIsUnused(s, frame);
    hide Inv;
    forall t | t in taken
      ensures Free(s, t) && t != frame
    {
      assert Free(s.(counts := s.counts[frame := 1]), t);
    }
  }

  lemma LostIsTaken(s: Sys, taken: set<nat>, frame: nat)
    requires frame !in taken
    ensures TakenBy(s, taken + {frame})
            == TakenBy(s.(counts := s.counts[frame := 1]), taken).(held := (s.held + Taken(taken))[frame := 1])
  {
    var more := Taken(taken + {frame});
    assert more == Taken(taken)[frame := 1];
    assert s.counts + more == s.counts[frame := 1] + Taken(taken);
    assert s.held + more == (s.held + Taken(taken))[frame := 1];
  }

  lemma HeldFrame(tables: set<nat>, other: map<nat, nat>, held: map<nat, nat>, frame: nat)
    requires Taken(tables) + other == held && frame !in held
    ensures frame !in tables && Taken(tables) + other[frame := 1] == held[frame := 1]
  {
    assert forall t :: t in tables ==> t in Taken(tables) + other;
  }

  ghost function WithPage(s: Sys, root: nat, v: Vpn, e: Entry): Sys {
    if root in s.spaces then s.(spaces := s.spaces[root := s.spaces[root][v := e]]) else s
  }

  /** The state with one page shared between two spaces, its reference count not yet raised. */
  ghost function WithShared(s: Sys, parent: nat, child: nat, v: Vpn, e: Entry): Sys {
    if parent in s.spaces && child in s.spaces then
      s.(spaces := s.spaces[parent := s.spaces[parent][v := Shared(e)]][child := s.spaces[child][v := Shared(e)]])
    else s
  }

  ghost predicate Cleared(before: Tables, after: Tables, l1: nat, i1: nat) {
    && l1 in before && l1 in after && |before[l1]| == |after[l1]| == ENTRY_COUNT && i1 < ENTRY_COUNT
    && after[l1] == before[l1][i1 := Absent]
  }

  /** The tables above the given level are what they were. */
  ghost predicate Kept(before: Tables, after: Tables, places: Places, level: int) {
    forall f :: f in before && f in places && places[f].level > level ==> f in after && after[f] == before[f]
  }

  /** Tables were only removed: those of one space below the given level. */
  ghost predicate Pruned(before: Places, after: Places, root: nat, level: int) {
    forall f :: (f in after ==> f in before && after[f] == before[f])
                && (f in before && f !in after ==> before[f].root == root && before[f].level < level)
  }

  /** The first entries of a table are cleared, its space has only lost tables below it, and tables above are kept. */
  ghost predicate Cleaned(before: Tables, after: Tables, places: Places, places': Places, f: nat, i: nat) {
    && f in places && f in places' && f in after && |after[f]| == ENTRY_COUNT
    && Pruned(places, places', places[f].root, places[f].level) && Kept(before, after, places, places[f].level)
    && forall k :: 0 <= k < i && k < |after[f]| ==> after[f][k].Absent?
  }

  lemma CleanedNone(tables: Tables, places: Places, f: nat)
    requires f in places && f in tables && |tables[f]| == ENTRY_COUNT
    ensures Cleaned(tables, tables, places, places, f, 0)
  {
  }

  lemma CleanedSkip(before: Tables, after: Tables, places: Places, places': Places, f: nat, i: nat)
    requires Cleaned(before, after, places, places', f, i) && At(after, f, i).Absent?
    ensures Cleaned(before, after, places, places', f, i + 1)
  {
  }

  /** The table under one more entry is emptied and taken out. */
  lemma CleanedNext(before: Tables, t1: Tables, t2: Tables, p: Places, p1: Places, p2: Places, f: nat, i: nat, c: nat)
    requires Cleaned(before, t1, p, p1, f, i) && Pruned(p1, p2, p[f].root, p[f].level - 1)
    requires Kept(t1, t2, p1, p[f].level - 1) && f in t2 && i < |t2[f]| && c != f
    requires c in p1 && p1[c].level < p[f].level && p1[c].root == p[f].root
    ensures Cleaned(before, Unlinked(t2, f, i, c), p, p2 - {c}, f, i + 1)
  {
  }

  lemma CleanedKeeps(before: Tables, after: Tables, places: Places, places': Places, f: nat, i: nat, g: nat)
    requires Cleaned(before, after, places, places', f, i) && g in places && places[g].level >= places[f].level
    ensures g in places' && places'[g] == places[g] && f in after && |after[f]| == ENTRY_COUNT
  {
  }

  lemma CleanedDone(before: Tables, after: Tables, places: Places, places': Places, f: nat, i: nat)
    requires Cleaned(before, after, places, places', f, i) && i >= UserPart(places[f].level)
    ensures Pruned(places, places', places[f].root, places[f].level) && Kept(before, after, places, places[f].level)
    ensures f in after && f in places' && places'[f] == places[f] && Bare(after, places', f)
  {
  }

  /** Tables were only added, and only under the given root. */
  ghost predicate Grown(before: Places, after: Places, root: nat) {
    forall f :: (f in before ==> f in after && after[f] == before[f])
                && (f in after && f !in before ==> after[f].root == root)
  }

  /** At most one entry was written, and tables were only added. */
  ghost predicate LinkedOnly(before: Tables, after: Tables, f: nat, i: nat) {
    && f in before && f in after && i < |before[f]| && |after[f]| == |before[f]|
    && (forall g :: g in before && g != f ==> g in after && after[g] == before[g])
    && forall k :: 0 <= k < |before[f]| && k != i ==> after[f][k] == before[f][k]
  }

  lemma GrownNothing(tables: Tables, places: Places, root: nat, f: nat, i: nat)
    requires f in tables && i < |tables[f]|
    ensures Grown(places, places, root) && LinkedOnly(tables, tables, f, i)
  {
  }

  lemma GrownOne(tables: Tables, places: Places, f: nat, i: nat, c: nat)
    requires f in tables && f in places && i < |tables[f]| && c !in tables && c !in places
    ensures Grown(places, LinkedPlaces(places, f, i, c), places[f].root)
    ensures LinkedOnly(tables, Linked(tables, f, i, c), f, i) && At(Linked(tables, f, i, c), f, i).Present?
  {
  }

  lemma NumNext(places: Places, l1: nat, i1: nat)
    requires l1 in places && places[l1].up in places && places[places[l1].up].up in places
    ensures Num(PageOf(places, l1, i1)) + 1 == Num(PageOf(places, l1, i1 + 1))
  {
  }

  lemma ForkAdds(s: Sys, parent: nat, child: nat, shared: set<Vpn>, taken: set<nat>)
    requires Inv(s) && Enabled(s, Fork(parent, child, shared, taken))
    ensures child in Apply(s, Fork(parent, child, shared, taken)).spaces
    ensures Inv(Apply(s, Fork(parent, child, shared, taken)))
  {
    hide Inv;
    StepKeepsInv(s, Fork(parent, child, shared, taken));
  }

  lemma PlacesRestored(tables0: Tables, places0: Places, grown: Places, tables: Tables, places: Places, child: nat)
    requires Shape(tables0, places0) && Shape(tables, places)
    requires Grown(places0, grown, child) && child !in places0
    requires places == map f | f in grown && grown[f].root != child :: grown[f]
    ensures tables.Keys == tables0.Keys
  {
    forall f | f in places0
      ensures places0[f].root != child
    {
      ChainUp(tables0, places0, f);
    }
    assert places.Keys == places0.Keys;
  }

  /** Fork then exit of the child: the same holders and the same mappers, so the same counts and the same view. */
  lemma CountsRestored(s: Sys, s2: Sys, parent: nat, child: nat, shared: set<Vpn>, taken: set<nat>, gone: set<nat>)
    requires Inv(s) && Enabled(s, Fork(parent, child, shared, taken))
             && Inv(Apply(s, Fork(parent, child, shared, taken)))
    requires Enabled(Apply(s, Fork(parent, child, shared, taken)), Exit(child, gone))
    requires s2 == Apply(Apply(s, Fork(parent, child, shared, taken)), Exit(child, gone))
    requires Inv(s2) && s2.held == s.held
    ensures s2.counts == s.counts && View(s2) == View(s)
  {
    hide Inv, Apply, View;
    var s1 := Apply(s, Fork(parent, child, shared, taken));
    FreeIsUnused(s, child);
    RestoredSpaces(s, s1, s2, parent, child, shared, taken, gone);
    RestoredView(s, s1, s2, parent, child, shared, taken, gone);
    RestoredCounts(s, s2, parent, child, shared);
  }

  lemma RestoredSpaces(s: Sys, s1: Sys, s2: Sys, parent: nat, child: nat, shared: set<Vpn>, taken: set<nat>,
                       gone: set<nat>)
    requires Inv(s) && Enabled(s, Fork(parent, child, shared, taken)) && Inv(s1)
    requires s1 == Apply(s, Fork(parent, child, shared, taken))
    requires Enabled(s1, Exit(child, gone)) && s2 == Apply(s1, Exit(child, gone))
    ensures parent in s.spaces && s2.spaces == ForkSpaces(s.spaces, parent, child, shared) - {child}
    ensures s2.counts.Keys == s.counts.Keys
  {
    hide Inv, Free, FramesOf;
  }

  lemma RestoredView(s: Sys, s1: Sys, s2: Sys, parent: nat, child: nat, shared: set<Vpn>, taken: set<nat>,
                     gone: set<nat>)
    requires Inv(s) && Enabled(s, Fork(parent, child, shared, taken)) && Inv(s1) && child !in s.spaces
    requires s1 == Apply(s, Fork(parent, child, shared, taken))
    requires Enabled(s1, Exit(child, gone)) && s2 == Apply(s1, Exit(child, gone))
    ensures View(s2) == View(s)
  {
    hide Inv, Free, FramesOf, Enabled, Apply, Shown, Part;
    StepRefines(s, Fork(parent, child, shared, taken));
    StepRefines(s1, Exit(child, gone));
    assert child !in View(s);
  }

  lemma RestoredCounts(s: Sys, s2: Sys, parent: nat, child: nat, shared: set<Vpn>)
    requires Inv(s) && Inv(s2) && s2.held == s.held && s2.counts.Keys == s.counts.Keys
    requires parent in s.spaces && child !in s.spaces
    requires s2.spaces == ForkSpaces(s.spaces, parent, child, shared) - {child}
    ensures s2.counts == s.counts
  {
    hide Mappers, ForkSpaces, Framed, EntriesOk;
    forall f | f in s.counts
      ensures s2.counts[f] == s.counts[f]
    {
      MarkedMappers(s.spaces, parent, child, shared, f);
      assert s.counts[f] == Due(s, f) && s2.counts[f] == Due(s2, f);
    }
  }

  /** Marking pages copy-on-write moves none of them. */
  lemma MarkedMappers(spaces: map<nat, Space>, parent: nat, child: nat, shared: set<Vpn>, f: nat)
    requires parent in spaces && child !in spaces
    ensures Mappers(ForkSpaces(spaces, parent, child, shared) - {child}, f) == Mappers(spaces, f)
  {
    var after := ForkSpaces(spaces, parent, child, shared) - {child};
    forall r, v
      ensures (r, v) in Mappers(after, f) <==> (r, v) in Mappers(spaces, f)
    {
      ForkFrame(spaces[parent], shared, v);
    }
  }

  lemma StartFork(tables: Tables, places: Places, s: Sys, parent: nat)
    requires Shape(tables, places) && Inv(s) && s.spaces == Spaces(tables, places) && parent in s.spaces
    requires forall f :: f in FramesOf(s.spaces[parent], s.spaces[parent].Keys) ==>
                         f in s.counts && s.counts[f] < MAX_SHARERS
    ensures CanFork(s, parent) && IsRoot(places, parent) && places[parent].root == parent
  {
    hide Shape, Inv;
    ChainUp(tables, places, parent);
    assert s.spaces[parent] == SpaceOf(tables, parent);
    forall v | v in s.spaces[parent]
      ensures ValidPage(v) && s.spaces[parent][v].frame in FramesOf(s.spaces[parent], s.spaces[parent].Keys)
    {
      InSpace(tables, parent, v);
    }
  }

  /** An empty child is a fork that has shared nothing yet. */
  lemma CreateStartsFork(s: Sys, parent: nat, child: nat)
    requires CanFork(s, parent) && Free(s, child)
    ensures child != parent && FreshTables(s, {child})
    ensures Apply(s, Create(child))
            == ForkState(s, parent, child, Before(s.spaces[parent], Num(Vpn(0, 0, 0, 0))), {child})
  {
    hide Inv, CountsForked, FramesOf, Taken, ForkSpaces, Before, Num;
    FreeIsUnused(s, child);
    ParentHeld(s, parent);
    BeforeEnds(s.spaces[parent]);
    NothingShared(s.spaces, parent, child);
    NothingCounted(s.counts, child);
    HoldChild(s.held, child);
  }

  lemma ParentHeld(s: Sys, parent: nat)
    requires Inv(s) && parent in s.spaces
    ensures parent in s.held
  {
  }

  lemma NothingShared(spaces: map<nat, Space>, parent: nat, child: nat)
    requires parent in spaces
    ensures ForkSpaces(spaces, parent, child, {}) == spaces[child := map[]] && FramesOf(spaces[parent], {}) == {}
  {
    assert Marked(spaces[parent], {}) == spaces[parent];
    assert Child(spaces[parent], {}) == map[];
  }

  lemma NothingCounted(counts: map<nat, nat>, child: nat)
    requires child in counts
    ensures CountsForked(counts, {}, {child}) == counts[child := 1]
  {
  }

  lemma HoldChild(held: map<nat, nat>, child: nat)
    ensures held + Taken({child}) == held[child := 1]
  {
  }

  /** Whatever was shared, the state is one fork step from the start; at the end everything was. */
  lemma FinishFork(s: Sys, parent: nat, child: nat, n: nat, taken: set<nat>)
    requires CanFork(s, parent) && FreshTables(s, taken) && child in taken
    ensures var shared := Before(s.spaces[parent], n);
            && Enabled(s, Fork(parent, child, shared, taken))
            && Apply(s, Fork(parent, child, shared, taken)) == ForkState(s, parent, child, shared, taken)
            && Inv(ForkState(s, parent, child, shared, taken))
    ensures n == Num(Vpn(USER_ENTRIES, 0, 0, 0)) ==> Before(s.spaces[parent], n) == s.spaces[parent].Keys
  {
    BeforeEnds(s.spaces[parent]);
    ForkEnabled(s, parent, child, Before(s.spaces[parent], n), taken);
    ForkingInv(s, parent, child, n, taken);
  }

  lemma ForkingInv(s: Sys, parent: nat, child: nat, n: nat, taken: set<nat>)
    requires CanFork(s, parent) && FreshTables(s, taken) && child in taken
    ensures Inv(ForkState(s, parent, child, Before(s.spaces[parent], n), taken))
  {
    var shared := Before(s.spaces[parent], n);
    ForkEnabled(s, parent, child, shared, taken);
    ForkKeepsInv(s, parent, child, shared, taken);
  }

  /** Linking in a free frame keeps the shape, the flat view and the record of held frames. */
  lemma LinkTaken(tables: Tables, places: Places, a: Sys, other: map<nat, nat>, f: nat, i: nat, c: nat)
    requires Shape(tables, places) && Safe(a) && Free(a, c)
    requires a.spaces == Spaces(tables, places) && a.held == Taken(tables.Keys) + other
    requires f in tables && f in places && places[f].level > 1 && i < UserPart(places[f].level)
    requires i < |tables[f]| && tables[f][i].Absent?
    ensures c !in tables && c !in places && c !in other
    ensures Shape(Linked(tables, f, i, c), LinkedPlaces(places, f, i, c))
    ensures Spaces(Linked(tables, f, i, c), LinkedPlaces(places, f, i, c)) == a.spaces
    ensures Linked(tables, f, i, c).Keys == tables.Keys + {c}
    ensures Taken(Linked(tables, f, i, c).Keys) + other == a.held[c := 1]
  {
    hide Shape, Inv, Spaces, NotMapped;
    FreeNotMapped(tables, places, a, c);
    LinkShape(tables, places, f, i, c);
    LinkSpaces(tables, places, f, i, c);
    assert Linked(tables, f, i, c).Keys == tables.Keys + {c};
  }

  /** No frame in use is reserved, so a frame that is given back is freed. */
  ghost predicate Unreserved(counts: map<nat, nat>, regions: seq<ReservedRegion>) {
    forall f :: f in counts && counts[f] > 0 ==> !Covered(regions, f)
  }

  lemma UnreservedNext(counts: map<nat, nat>, regions: seq<ReservedRegion>, f: nat, n: nat)
    requires Unreserved(counts, regions) && f in counts
    requires counts[f] > 0 || n == 0 || !Covered(regions, f)
    ensures Unreserved(counts[f := n], regions)
    ensures counts[f] > 0 ==> !Covered(regions, f)
  {
  }

  lemma EmptyMachine(s: Sys)
    requires s.spaces == map[] && s.mem.Keys == s.counts.Keys
    requires forall f :: f in s.mem ==> |s.mem[f]| == PAGE_SIZE
    requires s.held == map f | f in s.counts && s.counts[f] > 0 :: s.counts[f]
    ensures Inv(s)
  {
    forall f | f in s.counts
      ensures s.counts[f] == Due(s, f)
    {
      assert Mappers(s.spaces, f) == {};
    }
  }

  /** What a teardown reads of the page it is about to unmap. */
  lemma DropLooks(tables: Tables, places: Places, s: Sys, root: nat, v: Vpn, gone: set<nat>)
    requires Inv(s) && root in s.spaces && Proper(s.spaces[root]) && ValidPage(v) && IsRoot(places, root)
    requires Spaces(tables, places) == ExitState(s, root, Before(s.spaces[root], Num(v)), gone).spaces
    ensures v in s.spaces[root] <==> Walk(tables, root, v).Present?
    ensures v in s.spaces[root] ==> s.spaces[root][v] == Walk(tables, root, v).entry
    ensures v !in Before(s.spaces[root], Num(v))
    ensures Before(s.spaces[root], Num(v) + 1) ==
            if v in s.spaces[root] then Before(s.spaces[root], Num(v)) + {v} else Before(s.spaces[root], Num(v))
  {
    hide Inv;
    BeforeNext(s.spaces[root], v);
    InSpace(tables, root, v);
    assert Spaces(tables, places)[root] == SpaceOf(tables, root);
  }

  /** During a teardown a page not yet reached is still mapped. */
  lemma RemainingPage(tables: Tables, places: Places, s: Sys, root: nat, n: nat, gone: set<nat>, v: Vpn)
    requires Inv(s) && root in s.spaces && Proper(s.spaces[root]) && IsRoot(places, root)
    requires Spaces(tables, places) == ExitState(s, root, Before(s.spaces[root], n), gone).spaces
    requires v in s.spaces[root] && n <= Num(v)
    ensures ValidPage(v) && Walk(tables, root, v).Present?
  {
    hide Inv;
    InSpace(tables, root, v);
    assert Spaces(tables, places)[root] == SpaceOf(tables, root);
  }

  lemma PassUnderL2(tables: Tables, places: Places, s: Sys, root: nat, gone: set<nat>, l2: nat, i2: nat)
    requires Shape(tables, places) && Inv(s) && root in s.spaces && Proper(s.spaces[root])
    requires OnPath2(places, l2, root) && i2 < ENTRY_COUNT && At(tables, l2, i2).Absent?
    requires Spaces(tables, places) == ExitState(s, root, Before(s.spaces[root], Num(At2(places, l2, i2))), gone).spaces
    ensures Before(s.spaces[root], Num(At2(places, l2, i2 + 1))) == Before(s.spaces[root], Num(At2(places, l2, i2)))
  {
    hide Inv, Shape, Spaces, ExitState, Before;
    var space := s.spaces[root];
    var p := At2(places, l2, i2);
    ChainUp(tables, places, l2);
    ChainUp(tables, places, places[l2].up);
    forall v | v in space
      ensures !(v.i4 == p.i4 && v.i3 == p.i3 && v.i2 == p.i2)
    {
      if v.i4 == p.i4 && v.i3 == p.i3 && v.i2 == p.i2 {
        RemainingPage(tables, places, s, root, Num(p), gone, v);
        NothingUnderL2(tables, places, l2, v);
      }
    }
    GapL1(space, p.i4, p.i3, i2);
  }

  lemma PassUnderL3(tables: Tables, places: Places, s: Sys, root: nat, gone: set<nat>, l3: nat, i3: nat)
    requires Shape(tables, places) && Inv(s) && root in s.spaces && Proper(s.spaces[root])
    requires OnPath3(places, l3, root) && i3 < ENTRY_COUNT && At(tables, l3, i3).Absent?
    requires Spaces(tables, places) ==
             ExitState(s, root, Before(s.spaces[root], Num(Vpn(places[l3].index, i3, 0, 0))), gone).spaces
    ensures Before(s.spaces[root], Num(Vpn(places[l3].index, i3 + 1, 0, 0))) ==
            Before(s.spaces[root], Num(Vpn(places[l3].index, i3, 0, 0)))
  {
    hide Inv, Shape, Spaces, ExitState, Before;
    var space := s.spaces[root];
    var i4 := places[l3].index;
    ChainUp(tables, places, l3);
    forall v | v in space
      ensures !(v.i4 == i4 && v.i3 == i3)
    {
      if v.i4 == i4 && v.i3 == i3 {
        RemainingPage(tables, places, s, root, Num(Vpn(i4, i3, 0, 0)), gone, v);
        NothingUnderL3(tables, places, l3, v);
      }
    }
    GapL2(space, i4, i3);
  }

  lemma PassUnderL4(tables: Tables, places: Places, s: Sys, root: nat, gone: set<nat>, i4: nat)
    requires Inv(s) && root in s.spaces && Proper(s.spaces[root]) && IsRoot(places, root)
    requires i4 < USER_ENTRIES && At(tables, root, i4).Absent?
    requires Spaces(tables, places) == ExitState(s, root, Before(s.spaces[root], Num(Vpn(i4, 0, 0, 0))), gone).spaces
    ensures Before(s.spaces[root], Num(Vpn(i4 + 1, 0, 0, 0))) == Before(s.spaces[root], Num(Vpn(i4, 0, 0, 0)))
  {
    hide Inv, Spaces, ExitState, Before;
    var space := s.spaces[root];
    forall v | v in space
      ensures v.i4 != i4
    {
      if v.i4 == i4 {
        RemainingPage(tables, places, s, root, Num(Vpn(i4, 0, 0, 0)), gone, v);
        NothingUnderL4(tables, root, v);
      }
    }
    GapL3(space, i4);
  }

  lemma StartFree(tables: Tables, places: Places, s: Sys, root: nat)
    requires Shape(tables, places) && Inv(s) && s.spaces == Spaces(tables, places) && root in s.spaces
    ensures Proper(s.spaces[root]) && IsRoot(places, root) && places[root].root == root && TableFrames(s, {})
    ensures ExitState(s, root, Before(s.spaces[root], Num(Vpn(0, 0, 0, 0))), {}) == s
  {
    hide Shape, Inv;
    ChainUp(tables, places, root);
    assert s.spaces[root] == SpaceOf(tables, root);
    forall v | v in s.spaces[root]
      ensures ValidPage(v)
    {
      InSpace(tables, root, v);
    }
    ExitStarts(s, root);
  }

  /** With the user half bare and the root frame given back, the teardown is one exit step from the start. */
  lemma FinishFree(tables: Tables, places: Places, places0: Places, s: Sys, root: nat, gone: set<nat>,
                   other: map<nat, nat>)
    requires Shape(tables, places) && tables.Keys !! other.Keys
    requires IsRoot(places, root) && root in tables && Bare(tables, places, root)
    requires Inv(s) && root in s.spaces && Proper(s.spaces[root]) && TableFrames(s, gone) && gone !! s.spaces.Keys
    requires Pruned(places0, places, root, 4)
    requires Spaces(tables, places) ==
             ExitState(s, root, Before(s.spaces[root], Num(Vpn(USER_ENTRIES, 0, 0, 0))), gone).spaces
    requires Taken(tables.Keys) + other ==
             ExitState(s, root, Before(s.spaces[root], Num(Vpn(USER_ENTRIES, 0, 0, 0))), gone).held
    ensures Enabled(s, Exit(root, gone + {root}))
    ensures Inv(Apply(s, Exit(root, gone + {root})))
    ensures Shape(tables - {root}, places - {root})
    ensures var a := ExitState(s, root, Before(s.spaces[root], Num(Vpn(USER_ENTRIES, 0, 0, 0))), gone);
            var b := Apply(s, Exit(root, gone + {root}));
            && root in a.counts && a.counts[root] > 0
            && b.spaces == Spaces(tables - {root}, places - {root})
            && b.mem == a.mem && b.counts == a.counts[root := 0]
            && b.held == Taken((tables - {root}).Keys) + other
    ensures places - {root} == map f | f in places0 && places0[f].root != root :: places0[f]
  {
    hide Shape, Inv, Spaces, ExitState, Before, Bare, TableFrames, Taken;
    var dropped := Before(s.spaces[root], Num(Vpn(USER_ENTRIES, 0, 0, 0)));
    BeforeEnds(s.spaces[root]);
    DropRoot(tables, places, root);
    RootHeld(tables, s, root, dropped, gone, other);
    ExitGiveTable(s, root, dropped, gone, root);
    ExitEnabled(s, root, gone);
    ExitKeepsInv(s, root, gone + {root});
    RootSpaces(s, root, dropped, gone);
    PrunedPlaces(tables, places, places0, root);
  }

  lemma RootHeld(tables: Tables, s: Sys, root: nat, dropped: set<Vpn>, gone: set<nat>, other: map<nat, nat>)
    requires tables.Keys !! other.Keys && root in tables && Inv(s) && root in s.spaces
    requires Taken(tables.Keys) + other == ExitState(s, root, dropped, gone).held
    ensures root in s.held && s.held[root] == 1 && root !in gone
    ensures Taken((tables - {root}).Keys) + other == ExitState(s, root, dropped, gone).held - {root}
  {
    hide Inv, FramesOf, CountsExited;
    ghost var held := ExitState(s, root, dropped, gone).held;
    assert held == s.held - gone;
    assert (tables - {root}).Keys == tables.Keys - {root};
    hide ExitState;
    TakenWithout(tables.Keys, other, root);
    assert root in held && held[root] == 1;
  }

  lemma TakenWithout(tables: set<nat>, other: map<nat, nat>, t: nat)
    requires t in tables && t !in other
    ensures t in Taken(tables) + other && (Taken(tables) + other)[t] == 1
    ensures Taken(tables - {t}) + other == (Taken(tables) + other) - {t}
  {
  }

  lemma ExitEnabled(s: Sys, root: nat, gone: set<nat>)
    requires root in s.spaces && TableFrames(s, gone + {root}) && gone !! s.spaces.Keys
    ensures Enabled(s, Exit(root, gone + {root}))
  {
  }

  lemma RootSpaces(s: Sys, root: nat, dropped: set<Vpn>, gone: set<nat>)
    requires Inv(s) && root in s.spaces
    ensures ExitState(s, root, dropped, gone).spaces - {root} == s.spaces - {root}
  {
    hide Inv;
  }

  lemma PrunedPlaces(tables: Tables, places: Places, places0: Places, root: nat)
    requires Shape(tables, places) && IsRoot(places, root) && root in tables && Bare(tables, places, root)
    requires Pruned(places0, places, root, 4)
    ensures places - {root} == map f | f in places0 && places0[f].root != root :: places0[f]
  {
    forall f | f in places && f != root
      ensures places[f].root != root
    {
      assert f in tables;
      assert TablePlaced(tables, places, f);
      if places[f].root == root {
        BareRootIsAlone(tables, places, root, f);
      }
    }
    ChainUp(tables, places, root);
  }

  lemma TableHeld(tables: Tables, places: Places, s: Sys, root: nat, n: nat, gone: set<nat>, other: map<nat, nat>,
                  c: nat)
    requires Shape(tables, places) && tables.Keys !! other.Keys && c in tables && places[c].level < 4
    requires Inv(s) && root in s.spaces
    requires Spaces(tables, places) == ExitState(s, root, Before(s.spaces[root], n), gone).spaces
    requires Taken(tables.Keys) + other == ExitState(s, root, Before(s.spaces[root], n), gone).held
    ensures c in s.held && s.held[c] == 1 && c !in gone && c !in s.spaces
  {
    hide Inv, Shape;
    assert (Taken(tables.Keys) + other)[c] == 1;
    assert c !in Spaces(tables, places);
  }

  /** Unlinking a bare table keeps the shape and the flat view and frees one held frame. */
  lemma UnlinkTaken(tables: Tables, places: Places, other: map<nat, nat>, c: nat)
    requires Shape(tables, places) && tables.Keys !! other.Keys && c in tables && c in places && places[c].level < 4
    requires Bare(tables, places, c)
    ensures var f := places[c].up; var i := places[c].index;
            && f in tables && i < |tables[f]| && f != c
            && var t := Unlinked(tables, f, i, c);
               && Shape(t, places - {c}) && Spaces(t, places - {c}) == Spaces(tables, places)
               && t.Keys == tables.Keys - {c}
               && Taken(t.Keys) + other == (Taken(tables.Keys) + other) - {c}
  {
    hide Shape, Spaces, Bare;
    ChainUp(tables, places, c);
    ChildPlaced(tables, places, places[c].up, places[c].index);
    UnlinkShape(tables, places, c);
    UnlinkSpaces(tables, places, c);
    assert Unlinked(tables, places[c].up, places[c].index, c).Keys == tables.Keys - {c};
  }

  /** An L3 table of the given space. */
  ghost predicate OnPath3(places: Places, l3: nat, root: nat) {
    l3 in places && places[l3].level == 3 && places[l3].root == root
  }

  lemma GapUnderL3(tables: Tables, places: Places, s: Sys, parent: nat, child: nat, taken: set<nat>, pl3: nat, i3: nat)
    requires Shape(tables, places) && CanFork(s, parent) && parent != child
    requires OnPath3(places, pl3, parent) && i3 < ENTRY_COUNT && At(tables, pl3, i3).Absent?
    requires Spaces(tables, places) ==
             ForkState(s, parent, child, Before(s.spaces[parent], Num(Vpn(places[pl3].index, i3, 0, 0))), taken).spaces
    ensures Before(s.spaces[parent], Num(Vpn(places[pl3].index, i3 + 1, 0, 0))) ==
            Before(s.spaces[parent], Num(Vpn(places[pl3].index, i3, 0, 0)))
  {
    var space := s.spaces[parent];
    var i4 := places[pl3].index;
    ChainUp(tables, places, pl3);
    forall v | v in space
      ensures !(v.i4 == i4 && v.i3 == i3)
    {
      ParentPage(tables, places, s, parent, child, Num(Vpn(i4, i3, 0, 0)), taken, v);
      if v.i4 == i4 && v.i3 == i3 {
        NothingUnderL3(tables, places, pl3, v);
      }
    }
    GapL2(space, i4, i3);
  }

  lemma GapUnderL4(tables: Tables, places: Places, s: Sys, parent: nat, child: nat, taken: set<nat>, i4: nat)
    requires CanFork(s, parent) && parent != child && IsRoot(places, parent)
    requires i4 < USER_ENTRIES && At(tables, parent, i4).Absent?
    requires Spaces(tables, places) ==
             ForkState(s, parent, child, Before(s.spaces[parent], Num(Vpn(i4, 0, 0, 0))), taken).spaces
    ensures Before(s.spaces[parent], Num(Vpn(i4 + 1, 0, 0, 0))) == Before(s.spaces[parent], Num(Vpn(i4, 0, 0, 0)))
  {
    var space := s.spaces[parent];
    forall v | v in space
      ensures v.i4 != i4
    {
      ParentPage(tables, places, s, parent, child, Num(Vpn(i4, 0, 0, 0)), taken, v);
      if v.i4 == i4 {
        NothingUnderL4(tables, parent, v);
      }
    }
    GapL3(space, i4);
  }

  /** Adding a root in a free frame keeps the shape, adds an empty space and one held frame. */
  lemma RootTaken(tables: Tables, places: Places, a: Sys, other: map<nat, nat>, c: nat, table: seq<Pte>)
    requires Shape(tables, places) && Inv(a) && Free(a, c)
    requires a.spaces == Spaces(tables, places) && a.held == Taken(tables.Keys) + other
    requires |table| == ENTRY_COUNT && table[..USER_ENTRIES] == EmptyTable()[..USER_ENTRIES]
    ensures c !in tables && c !in places && c !in other && c !in a.spaces
    ensures Shape(tables[c := table], places[c := Place(4, c, 0, c)])
    ensures Spaces(tables[c := table], places[c := Place(4, c, 0, c)]) == a.spaces[c := map[]]
    ensures Taken(tables[c := table].Keys) + other == a.held[c := 1]
  {
    hide Shape, Inv, Spaces, NotMapped;
    InvIsSafe(a);
    FreeNotMapped(tables, places, a, c);
    FreeIsUnused(a, c);
    forall i | 0 <= i < USER_ENTRIES
      ensures table[i].Absent?
    {
      assert table[..USER_ENTRIES][i] == EmptyTable()[..USER_ENTRIES][i];
    }
    NewRoot(tables, places, c, table);
    assert tables[c := table].Keys == tables.Keys + {c};
  }

  /** An L2 table of the given space. */
  ghost predicate OnPath2(places: Places, l2: nat, root: nat) {
    && l2 in places && places[l2].level == 2 && places[l2].root == root
    && places[l2].up in places && places[places[l2].up].level == 3
  }

  /** The first page under entry i2 of an L2 table. */
  ghost function At2(places: Places, l2: nat, i2: nat): Vpn
    requires l2 in places && places[l2].up in places
  {
    Vpn(places[places[l2].up].index, places[l2].index, i2, 0)
  }

  /** An absent L2 entry of the parent hides no page that fork would have to share. */
  lemma GapUnderL2(tables: Tables, places: Places, s: Sys, parent: nat, child: nat, taken: set<nat>, pl2: nat, i2: nat)
    requires Shape(tables, places) && CanFork(s, parent) && parent != child
    requires OnPath2(places, pl2, parent) && i2 < ENTRY_COUNT && At(tables, pl2, i2).Absent?
    requires Spaces(tables, places)
             == ForkState(s, parent, child, Before(s.spaces[parent], Num(At2(places, pl2, i2))), taken).spaces
    ensures Before(s.spaces[parent], Num(At2(places, pl2, i2 + 1)))
            == Before(s.spaces[parent], Num(At2(places, pl2, i2)))
  {
    var space := s.spaces[parent];
    var p := At2(places, pl2, i2);
    ChainUp(tables, places, pl2);
    ChainUp(tables, places, places[pl2].up);
    forall v | v in space
      ensures !(v.i4 == p.i4 && v.i3 == p.i3 && v.i2 == p.i2)
    {
      ParentPage(tables, places, s, parent, child, Num(p), taken, v);
      if v.i4 == p.i4 && v.i3 == p.i3 && v.i2 == p.i2 {
        NothingUnderL2(tables, places, pl2, v);
      }
    }
    GapL1(space, p.i4, p.i3, i2);
  }

  /** During a clone the parent maps the pages it mapped at the start. */
  lemma ParentPage(tables: Tables, places: Places, s: Sys, parent: nat, child: nat, n: nat, taken: set<nat>, v: Vpn)
    requires CanFork(s, parent) && parent != child && IsRoot(places, parent)
    requires Spaces(tables, places) == ForkState(s, parent, child, Before(s.spaces[parent], n), taken).spaces
    ensures v in s.spaces[parent] ==> ValidPage(v) && Walk(tables, parent, v).Present?
  {
    ForkFrame(s.spaces[parent], Before(s.spaces[parent], n), v);
    InSpace(tables, parent, v);
    assert Spaces(tables, places)[parent] == SpaceOf(tables, parent);
  }

  /** An L1 table of the given space. */
  ghost predicate OnPath1(places: Places, l1: nat, root: nat) {
    && l1 in places && places[l1].level == 1 && places[l1].root == root
    && places[l1].up in places && places[places[l1].up].up in places
  }

  function ShareWritten(tables: Tables, pl1: nat, cl1: nat, i1: nat, e: Entry): Tables
    requires pl1 in tables && cl1 in tables && pl1 != cl1 && i1 < |tables[pl1]| && i1 < |tables[cl1]|
  {
    Written(Written(tables, pl1, i1, Present(Shared(e))), cl1, i1, Present(Shared(e)))
  }

  /** The two writes that share a page: the same page changes in the parent and in the child, and nothing else does. */
  lemma ShareWrites(tables: Tables, places: Places, parent: nat, child: nat, pl1: nat, cl1: nat, i1: nat, e: Entry)
    requires Shape(tables, places) && i1 < ENTRY_COUNT && parent != child
    requires OnPath1(places, pl1, parent) && OnPath1(places, cl1, child)
    requires PageOf(places, pl1, i1) == PageOf(places, cl1, i1)
    requires pl1 in tables && i1 < |tables[pl1]| && tables[pl1][i1] == Present(e)
    ensures cl1 in tables && i1 < |tables[cl1]|
    ensures var v := PageOf(places, pl1, i1);
            var t := ShareWritten(tables, pl1, cl1, i1, e);
            && parent in Spaces(tables, places) && child in Spaces(tables, places)
            && (!e.writable ==> Written(tables, pl1, i1, Present(Shared(e))) == tables)
            && Shape(t, places) && t.Keys == tables.Keys
            && Spaces(t, places) ==
               Spaces(tables, places)[parent := Spaces(tables, places)[parent][v := Shared(e)]]
                                     [child := Spaces(tables, places)[child][v := Shared(e)]]
  {
    hide Shape, Spaces;
    PageOfValid(tables, places, pl1, i1);
    PageOfValid(tables, places, cl1, i1);
    var pte := Present(Shared(e));
    LeafWriteShape(tables, places, pl1, i1, pte);
    LeafWriteSpaces(tables, places, pl1, i1, pte);
    var t1 := Written(tables, pl1, i1, pte);
    if !e.writable {
      assert tables[pl1][i1 := pte] == tables[pl1];
    }
    LeafWriteShape(t1, places, cl1, i1, pte);
    LeafWriteSpaces(t1, places, cl1, i1, pte);
    LeafWriteSpaces(tables, places, cl1, i1, pte);
  }

  /** What the parent's entry says of the page about to be shared. */
  lemma ShareLooks(tables: Tables, places: Places, s: Sys, parent: nat, child: nat, v: Vpn, taken: set<nat>)
    requires CanFork(s, parent) && ValidPage(v) && parent != child && IsRoot(places, parent)
    requires Spaces(tables, places) == ForkState(s, parent, child, Before(s.spaces[parent], Num(v)), taken).spaces
    ensures v in s.spaces[parent] <==> Walk(tables, parent, v).Present?
    ensures v in s.spaces[parent] ==> s.spaces[parent][v] == Walk(tables, parent, v).entry
    ensures v !in Before(s.spaces[parent], Num(v)) && Before(s.spaces[parent], Num(v)) <= s.spaces[parent].Keys
    ensures Before(s.spaces[parent], Num(v) + 1) ==
            if v in s.spaces[parent] then Before(s.spaces[parent], Num(v)) + {v} else Before(s.spaces[parent], Num(v))
  {
    BeforeNext(s.spaces[parent], v);
    ForkFrame(s.spaces[parent], Before(s.spaces[parent], Num(v)), v);
    InSpace(tables, parent, v);
    assert Spaces(tables, places)[parent] == SpaceOf(tables, parent);
  }
}
