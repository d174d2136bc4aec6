/**
 Copy-on-write virtual memory as a state machine over flat address spaces.

 A state holds every address space as a map from page to entry, the bytes of every physical frame, the
 allocator's reference counts, and the frames held for something other than user data (page tables among
 them). The page-table code and the fault handlers are proved to take the steps below; here the steps are
 related to a machine in which fork copies every page.
 */
module CowSpec {

  const PAGE_SIZE: nat := 4096
  const MAX_SHARERS: nat := 65535

  type Page = seq<bv8>

  /** A user page, named by its four table indices. */
  datatype Vpn = Vpn(i4: nat, i3: nat, i2: nat, i1: nat)

  /** A present leaf entry. */
  datatype Entry = Entry(frame: nat, writable: bool, user: bool, cow: bool)

  type Space = map<Vpn, Entry>

  datatype Sys = Sys(spaces: map<nat, Space>, mem: map<nat, Page>, counts: map<nat, nat>, held: map<nat, nat>)

  /**
    * Address spaces are named by the frame of their root table. `tables` are
    * the table frames a step takes or returns.
    */
  datatype Step =
    | Create(root: nat)
    | Fork(parent: nat, child: nat, shared: set<Vpn>, tables: set<nat>)
    | Demand(root: nat, page: Vpn, frame: nat, writable: bool, tables: set<nat>)
    | Cow(root: nat, page: Vpn, frame: nat)
    | Store(root: nat, page: Vpn, offset: nat, byte: bv8)
    | Load(root: nat, page: Vpn, offset: nat)
    | Exit(root: nat, tables: set<nat>)

  function ZeroPage(): Page {
    seq(PAGE_SIZE, i => 0)
  }

  /** What fork makes of an entry: a writable page becomes read-only and copy-on-write. */
  function Shared(e: Entry): Entry {
    if e.writable then e.(writable := false, cow := true) else e
  }

  function Marked(space: Space, shared: set<Vpn>): Space {
    map v | v in space :: if v in shared then Shared(space[v]) else space[v]
  }

  function Child(space: Space, shared: set<Vpn>): Space {
    map v | v in space && v in shared :: Shared(space[v])
  }

  function FramesOf(space: Space, pages: set<Vpn>): set<nat> {
    set v | v in space && v in pages :: space[v].frame
  }

  ghost predicate Free(s: Sys, f: nat) {
    f in s.counts && s.counts[f] == 0
  }

  ghost predicate Enabled(s: Sys, step: Step) {
    match step
    case Create(root) => Free(s, root)
    case Fork(parent, child, shared, tables) =>
      && parent in s.spaces
      && child in tables
      && (forall t :: t in tables ==> Free(s, t))
      && shared <= s.spaces[parent].Keys
      && (forall f :: f in FramesOf(s.spaces[parent], shared) ==> f in s.counts && s.counts[f] < MAX_SHARERS)
    case Demand(root, page, frame, writable, tables) =>
      && root in s.spaces
      && page !in s.spaces[root]
      && Free(s, frame) && frame !in tables
      && (forall t :: t in tables ==> Free(s, t))
    case Cow(root, page, frame) =>
      && root in s.spaces
      && page in s.spaces[root]
      && s.spaces[root][page].cow
      && Free(s, frame)
    case Store(root, page, offset, byte) =>
      && root in s.spaces
      && page in s.spaces[root]
      && s.spaces[root][page].user && s.spaces[root][page].writable
      && offset < PAGE_SIZE
    case Load(root, page, offset) =>
      && root in s.spaces
      && page in s.spaces[root]
      && s.spaces[root][page].user
      && offset < PAGE_SIZE
    case Exit(root, tables) =>
      && root in s.spaces
      && (forall t :: t in tables ==> t in s.held && s.held[t] == 1)
      && (forall q :: q in s.spaces ==> (q in tables <==> q == root))
  }

  function Less(n: nat): nat {
    if n == 0 then 0 else n - 1
  }

  function Taken(tables: set<nat>): map<nat, nat> {
    map t | t in tables :: 1
  }

  /** The state after a step. */
  ghost function Apply(s: Sys, step: Step): Sys
    requires Inv(s) && Enabled(s, step)
  {
    match step
    case Create(root) =>
      s.(spaces := s.spaces[root := map[]], counts := s.counts[root := 1], held := s.held[root := 1])
    case Fork(parent, child, shared, tables) =>
      ForkState(s, parent, child, shared, tables)
    case Demand(root, page, frame, writable, tables) =>
      s.(spaces := s.spaces[root := s.spaces[root][page := Entry(frame, writable, true, false)]],
         mem := s.mem[frame := ZeroPage()],
         counts := (s.counts + Taken(tables))[frame := 1],
         held := s.held + Taken(tables))
    case Cow(root, page, frame) =>
      CowState(s, root, page, frame)
    case Store(root, page, offset, byte) =>
      var f := s.spaces[root][page].frame;
      s.(mem := s.mem[f := s.mem[f][offset := byte]])
    case Load(root, page, offset) =>
      s
    case Exit(root, tables) =>
      ExitState(s, root, s.spaces[root].Keys, tables).(spaces := s.spaces - {root})
  }

  /** The state when the pages `shared` have been shared with the child and `tables` taken for it. */
  ghost function ForkState(s: Sys, parent: nat, child: nat, shared: set<Vpn>, tables: set<nat>): Sys
    requires parent in s.spaces
  {
    var space := s.spaces[parent];
    var frames := FramesOf(space, shared);
    s.(spaces := ForkSpaces(s.spaces, parent, child, shared),
       counts := CountsForked(s.counts, frames, tables),
       held := s.held + Taken(tables))
  }

  ghost function CountsForked(counts: map<nat, nat>, frames: set<nat>, tables: set<nat>): map<nat, nat> {
    map f | f in counts :: if f in tables then 1 else if f in frames then counts[f] + 1 else counts[f]
  }

  ghost function ForkSpaces(spaces: map<nat, Space>, parent: nat, child: nat, shared: set<Vpn>): map<nat, Space>
    requires parent in spaces
  {
    spaces[parent := Marked(spaces[parent], shared)][child := Child(spaces[parent], shared)]
  }

  ghost function CowState(s: Sys, root: nat, page: Vpn, frame: nat): Sys
    requires Inv(s) && root in s.spaces && page in s.spaces[root]
  {
    var e := s.spaces[root][page];
    s.(spaces := s.spaces[root := s.spaces[root][page := Entry(frame, true, e.user, false)]],
       mem := s.mem[frame := s.mem[e.frame]],
       counts := s.counts[frame := 1][e.frame := Less(s.counts[e.frame])])
  }

  /** The state when the pages `dropped` of a space have been unmapped and `tables` given back. */
  ghost function ExitState(s: Sys, root: nat, dropped: set<Vpn>, tables: set<nat>): Sys
    requires Inv(s) && root in s.spaces
  {
    var space := s.spaces[root];
    var frames := FramesOf(space, dropped);
    s.(spaces := s.spaces[root := space - dropped],
       counts := CountsExited(s.counts, frames, tables),
       held := s.held - tables)
  }

  ghost function CountsExited(counts: map<nat, nat>, frames: set<nat>, tables: set<nat>): map<nat, nat> {
    map f | f in counts :: if f in tables then 0 else if f in frames then Less(counts[f]) else counts[f]
  }

  // ---------- The invariant ----------

  /** Every (address space, page) whose entry names the frame. */
  ghost function Mappers(spaces: map<nat, Space>, f: nat): set<(nat, Vpn)> {
    set r, v | r in spaces && v in spaces[r] && spaces[r][v].frame == f :: (r, v)
  }

  ghost predicate EntryOk(s: Sys, e: Entry) {
    && e.frame in s.counts
    && e.frame !in s.held
    && e.user
    && !(e.writable && e.cow)
    && (e.writable ==> s.counts[e.frame] == 1)
  }

  /** The count of a frame is what the rest of the state says it is. */
  ghost function Due(s: Sys, f: nat): nat {
    if f in s.held then s.held[f] else |Mappers(s.spaces, f)|
  }

  /** No two pages of one space share a frame. */
  ghost predicate Injective(space: Space) {
    forall v, w :: v in space && w in space && v != w ==> space[v].frame != space[w].frame
  }

  ghost predicate Framed(s: Sys) {
    && s.mem.Keys == s.counts.Keys
    && s.held.Keys <= s.counts.Keys
    && s.spaces.Keys <= s.held.Keys
    && (forall f :: f in s.mem ==> |s.mem[f]| == PAGE_SIZE)
    && (forall f :: f in s.held ==> s.held[f] > 0)
  }

  ghost predicate CountsOk(s: Sys) {
    forall f :: f in s.counts ==> s.counts[f] == Due(s, f)
  }

  ghost predicate EntriesOk(s: Sys) {
    && (forall r, v :: r in s.spaces && v in s.spaces[r] ==> EntryOk(s, s.spaces[r][v]))
    && (forall r :: r in s.spaces ==> Injective(s.spaces[r]))
  }

  ghost predicate Inv(s: Sys) {
    Framed(s) && CountsOk(s) && EntriesOk(s)
  }

  /** A frame some page maps has a positive count. */
  lemma MappedIsCounted(s: Sys, r: nat, v: Vpn)
    requires Inv(s) && r in s.spaces && v in s.spaces[r]
    ensures s.spaces[r][v].frame in s.counts && s.counts[s.spaces[r][v].frame] > 0
  {
    assert EntryOk(s, s.spaces[r][v]);
    assert (r, v) in Mappers(s.spaces, s.spaces[r][v].frame);
  }

  /** A frame with count zero is named by no entry and held for nothing. */
  lemma FreeIsUnused(s: Sys, f: nat)
    requires Inv(s) && Free(s, f)
    ensures f !in s.held && f !in s.spaces
    ensures forall r, v :: r in s.spaces && v in s.spaces[r] ==> s.spaces[r][v].frame != f
  {
    forall r, v | r in s.spaces && v in s.spaces[r]
      ensures s.spaces[r][v].frame != f
    {
      MappedIsCounted(s, r, v);
    }
  }

  /** A frame mapped writable anywhere has exactly that one mapping. */
  lemma WritableIsPrivate(s: Sys, r: nat, v: Vpn, q: nat, w: Vpn)
    requires Inv(s) && r in s.spaces && v in s.spaces[r] && s.spaces[r][v].writable
    requires q in s.spaces && w in s.spaces[q] && s.spaces[q][w].frame == s.spaces[r][v].frame
    ensures q == r && w == v
  {
    var f := s.spaces[r][v].frame;
    assert EntryOk(s, s.spaces[r][v]);
    assert (r, v) in Mappers(s.spaces, f) && (q, w) in Mappers(s.spaces, f);
    if (r, v) != (q, w) {
      assert {(r, v), (q, w)} <= Mappers(s.spaces, f);
      SubsetSize({(r, v), (q, w)}, Mappers(s.spaces, f));
    }
  }

  lemma {:induction false} SubsetSize<T>(a: set<T>, b: set<T>)
    requires a <= b
    ensures |a| <= |b|
  {
    if a != {} {
      var x :| x in a;
      SubsetSize(a - {x}, b - {x});
    }
  }

  // ---------- Preservation ----------

  lemma ForkMappers(spaces: map<nat, Space>, parent: nat, child: nat, shared: set<Vpn>, f: nat)
    requires parent in spaces && child !in spaces && Injective(spaces[parent])
    ensures |Mappers(ForkSpaces(spaces, parent, child, shared), f)| ==
            |Mappers(spaces, f)| + if f in FramesOf(spaces[parent], shared) then 1 else 0
  {
    var space := spaces[parent];
    var after := ForkSpaces(spaces, parent, child, shared);
    forall r, v | r != child
      ensures (r, v) in Mappers(after, f) <==> (r, v) in Mappers(spaces, f)
    {
      ForkFrame(space, shared, v);
    }
    if f in FramesOf(space, shared) {
      var v :| v in space && v in shared && space[v].frame == f;
      forall w | w != v
        ensures (child, w) !in Mappers(after, f)
      {
        ForkFrame(space, shared, w);
      }
      ForkFrame(space, shared, v);
      assert (child, v) in Mappers(after, f);
      assert Mappers(after, f) - {(child, v)} == Mappers(spaces, f);
      SizeWithout(Mappers(after, f), (child, v));
    } else {
      forall w
        ensures (child, w) !in Mappers(after, f)
      {
        ForkFrame(space, shared, w);
      }
      assert Mappers(after, f) == Mappers(spaces, f);
    }
  }

  /** Fork leaves a page in the frame it was in, for the parent and for the child. */
  lemma ForkFrame(space: Space, shared: set<Vpn>, v: Vpn)
    ensures v in Marked(space, shared) <==> v in space
    ensures v in space ==> Marked(space, shared)[v].frame == space[v].frame
    ensures v in Child(space, shared) <==> v in space && v in shared
    ensures v in space && v in shared ==> Child(space, shared)[v].frame == space[v].frame
  {
  }

  lemma ForkKeepsInv(s: Sys, parent: nat, child: nat, shared: set<Vpn>, tables: set<nat>)
    requires Inv(s) && Enabled(s, Fork(parent, child, shared, tables))
    ensures Inv(ForkState(s, parent, child, shared, tables))
  {
    hide CountsOk, EntriesOk, FramesOf;
    ForkCounts(s, parent, child, shared, tables);
    ForkEntries(s, parent, child, shared, tables);
  }

  lemma ForkEntries(s: Sys, parent: nat, child: nat, shared: set<Vpn>, tables: set<nat>)
    requires Inv(s) && Enabled(s, Fork(parent, child, shared, tables))
    ensures EntriesOk(ForkState(s, parent, child, shared, tables))
  {
    hide EntryOk, FramesOf;
    var s' := ForkState(s, parent, child, shared, tables);
    forall r, v | r in s'.spaces && v in s'.spaces[r]
      ensures EntryOk(s', s'.spaces[r][v])
    {
      ForkEntryOk(s, parent, child, shared, tables, r, v);
    }
    forall r | r in s'.spaces
      ensures Injective(s'.spaces[r])
    {
      assert Injective(s.spaces[if r == child then parent else r]);
    }
  }

  lemma ForkCounts(s: Sys, parent: nat, child: nat, shared: set<Vpn>, tables: set<nat>)
    requires Inv(s) && Enabled(s, Fork(parent, child, shared, tables))
    ensures CountsOk(ForkState(s, parent, child, shared, tables))
  {
    var s' := ForkState(s, parent, child, shared, tables);
    var space := s.spaces[parent];
    FreeIsUnused(s, child);
    forall f | f in s'.counts
      ensures s'.counts[f] == Due(s', f)
    {
      ForkMappers(s.spaces, parent, child, shared, f);
      if f in FramesOf(space, shared) {
        var v :| v in space && v in shared && space[v].frame == f;
        assert EntryOk(s, space[v]);
        MappedIsCounted(s, parent, v);
      }
      if f in tables {
        FreeIsUnused(s, f);
      }
    }
  }

  /** What the allocator's increment does to a count. */
  function Increment(c: nat): nat {
    if 0 < c < MAX_SHARERS then c + 1 else c
  }

  /** Fork with the allocator's own saturating increment. */
  ghost function SaturatingFork(s: Sys, parent: nat, child: nat, shared: set<Vpn>, tables: set<nat>): Sys
    requires parent in s.spaces
  {
    var frames := FramesOf(s.spaces[parent], shared);
    ForkState(s, parent, child, shared, tables).(
      counts := map f | f in s.counts ::
                  if f in tables then 1 else if f in frames then Increment(s.counts[f]) else s.counts[f])
  }

  lemma ForkExactFrame(s: Sys, parent: nat, child: nat, shared: set<Vpn>, tables: set<nat>, f: nat)
    requires Inv(s) && parent in s.spaces && child in tables && (forall t :: t in tables ==> Free(s, t))
    requires f in s.counts && s.counts[f] <= MAX_SHARERS
    ensures var s' := SaturatingFork(s, parent, child, shared, tables);
            s'.counts[f] == Due(s', f) <==> f !in FramesOf(s.spaces[parent], shared) || s.counts[f] < MAX_SHARERS
  {
    hide Mappers, Injective, ForkSpaces;
    var space := s.spaces[parent];
    assert Free(s, child);
    FreeIsUnused(s, child);
    ForkMappers(s.spaces, parent, child, shared, f);
    assert s.counts[f] == Due(s, f);
    if f in FramesOf(space, shared) {
      var v :| v in space && v in shared && space[v].frame == f;
      assert EntryOk(s, space[v]);
      MappedIsCounted(s, parent, v);
    }
    if f in tables {
      FreeIsUnused(s, f);
    }
  }

  /** The counts stay exact over a fork if and only if no shared frame had already reached the largest count. */
  lemma ForkExactIff(s: Sys, parent: nat, child: nat, shared: set<Vpn>, tables: set<nat>)
    requires Inv(s) && parent in s.spaces && child in tables && (forall t :: t in tables ==> Free(s, t))
    requires shared <= s.spaces[parent].Keys && (forall f :: f in s.counts ==> s.counts[f] <= MAX_SHARERS)
    ensures CountsOk(SaturatingFork(s, parent, child, shared, tables)) <==>
            forall f :: f in FramesOf(s.spaces[parent], shared) ==> f in s.counts && s.counts[f] < MAX_SHARERS
  {
    var s' := SaturatingFork(s, parent, child, shared, tables);
    var space := s.spaces[parent];
    forall f | f in s.counts
      ensures s'.counts[f] == Due(s', f) <==> f !in FramesOf(space, shared) || s.counts[f] < MAX_SHARERS
    {
      ForkExactFrame(s, parent, child, shared, tables, f);
    }
    hide SaturatingFork, Mappers, Due;
    forall f | f in FramesOf(space, shared)
      ensures f in s.counts
    {
      var v :| v in space && v in shared && space[v].frame == f;
      assert EntryOk(s, space[v]);
    }
  }

  lemma ForkEntryOk(s: Sys, parent: nat, child: nat, shared: set<Vpn>, tables: set<nat>, r: nat, v: Vpn)
    requires Inv(s) && Enabled(s, Fork(parent, child, shared, tables))
    requires var s' := ForkState(s, parent, child, shared, tables); r in s'.spaces && v in s'.spaces[r]
    ensures var s' := ForkState(s, parent, child, shared, tables); EntryOk(s', s'.spaces[r][v])
  {
    hide Due, Mappers, Injective, ForkSpaces, CountsForked, FramesOf;
    FreeIsUnused(s, child);
    var frames := FramesOf(s.spaces[parent], shared);
    ForkedEntry(s.spaces, parent, child, shared, r, v);
    var q := if r == child then parent else r;
    var e := s.spaces[q][v];
    assert EntryOk(s, e);
    if e.frame in tables {
      FreeIsUnused(s, e.frame);
    }
    ForkedCount(s.counts, frames, tables, e.frame);
    if e.writable && e.frame in frames && !(q == parent && v in shared) {
      var w := FrameFrom(s.spaces[parent], shared, e.frame);
      WritableIsPrivate(s, q, v, parent, w);
    }
  }

  /** The entries after a fork: those of the space they come from, shared or as they were. */
  lemma ForkedEntry(spaces: map<nat, Space>, parent: nat, child: nat, shared: set<Vpn>, r: nat, v: Vpn)
    requires parent in spaces && child !in spaces
    requires r in ForkSpaces(spaces, parent, child, shared) && v in ForkSpaces(spaces, parent, child, shared)[r]
    ensures var q := if r == child then parent else r;
            && q in spaces && v in spaces[q]
            && ForkSpaces(spaces, parent, child, shared)[r][v]
               == if q == parent && v in shared then Shared(spaces[q][v]) else spaces[q][v]
  {
  }

  lemma ForkedCount(counts: map<nat, nat>, frames: set<nat>, tables: set<nat>, f: nat)
    requires f in counts && f !in tables
    ensures f in CountsForked(counts, frames, tables)
    ensures CountsForked(counts, frames, tables)[f] == counts[f] + if f in frames then 1 else 0
  {
  }

  lemma FrameFrom(space: Space, shared: set<Vpn>, f: nat) returns (w: Vpn)
    requires f in FramesOf(space, shared)
    ensures w in space && w in shared && space[w].frame == f
  {
    w :| w in space && w in shared && space[w].frame == f;
  }

  lemma NoMappersYet(spaces: map<nat, Space>, root: nat, f: nat)
    requires root !in spaces
    ensures Mappers(spaces[root := map[]], f) == Mappers(spaces, f)
  {
  }

  lemma CreateCounts(s: Sys, root: nat)
    requires Inv(s) && Enabled(s, Create(root))
    ensures CountsOk(Apply(s, Create(root)))
  {
    hide Mappers, EntriesOk;
    var s' := Apply(s, Create(root));
    FreeIsUnused(s, root);
    forall f | f in s'.counts
      ensures s'.counts[f] == Due(s', f)
    {
      NoMappersYet(s.spaces, root, f);
    }
  }

  lemma CreateKeepsInv(s: Sys, root: nat)
    requires Inv(s) && Enabled(s, Create(root))
    ensures Inv(Apply(s, Create(root)))
  {
    hide Mappers;
    var s' := Apply(s, Create(root));
    CreateCounts(s, root);
    hide CountsOk;
    FreeIsUnused(s, root);
    forall r, v | r in s'.spaces && v in s'.spaces[r]
      ensures EntryOk(s', s'.spaces[r][v])
    {
      assert EntryOk(s, s.spaces[r][v]);
    }
  }

  /** Changing one entry leaves every other mapper what it was. */
  lemma OnlyPage(spaces: map<nat, Space>, root: nat, page: Vpn, e: Entry, f: nat)
    requires root in spaces
    ensures Mappers(spaces[root := spaces[root][page := e]], f) - {(root, page)} == Mappers(spaces, f) - {(root, page)}
  {
    var after := spaces[root := spaces[root][page := e]];
    forall r, v | (r, v) != (root, page)
      ensures (r, v) in Mappers(after, f) <==> (r, v) in Mappers(spaces, f)
    {
      if r == root {
        assert v in after[r] <==> v in spaces[r];
      }
    }
  }

  /** Giving a page of one space a frame nobody maps. */
  lemma AddMapper(spaces: map<nat, Space>, root: nat, page: Vpn, e: Entry, f: nat)
    requires root in spaces && page !in spaces[root]
    ensures |Mappers(spaces[root := spaces[root][page := e]], f)|
            == |Mappers(spaces, f)| + if f == e.frame then 1 else 0
  {
    hide Mappers;
    var after := spaces[root := spaces[root][page := e]];
    OnlyPage(spaces, root, page, e, f);
    MapperAt(spaces, f, root, page);
    MapperAt(after, f, root, page);
    OneMore(Mappers(spaces, f), Mappers(after, f), (root, page));
  }

  lemma MapperAt(spaces: map<nat, Space>, f: nat, r: nat, v: Vpn)
    ensures (r, v) in Mappers(spaces, f) <==> r in spaces && v in spaces[r] && spaces[r][v].frame == f
  {
  }

  lemma OneMore(a: set<(nat, Vpn)>, b: set<(nat, Vpn)>, x: (nat, Vpn))
    requires x !in a && b - {x} == a - {x}
    ensures |b| == |a| + if x in b then 1 else 0
  {
    assert a - {x} == a;
    if x !in b {
      assert b - {x} == b;
    }
  }

  lemma DemandKeepsInv(s: Sys, step: Step)
    requires Inv(s) && step.Demand? && Enabled(s, step)
    ensures Inv(Apply(s, step))
  {
    DemandCounts(s, step);
    DemandEntries(s, step);
  }

  lemma DemandCounts(s: Sys, step: Step)
    requires Inv(s) && step.Demand? && Enabled(s, step)
    ensures CountsOk(Apply(s, step))
  {
    var s' := Apply(s, step);
    FreeIsUnused(s, step.frame);
    forall f | f in s'.counts
      ensures s'.counts[f] == Due(s', f)
    {
      AddMapper(s.spaces, step.root, step.page, Entry(step.frame, step.writable, true, false), f);
      if Free(s, f) {
        FreeIsUnused(s, f);
      }
    }
  }

  lemma DemandEntries(s: Sys, step: Step)
    requires Inv(s) && step.Demand? && Enabled(s, step)
    ensures EntriesOk(Apply(s, step))
  {
    var s' := Apply(s, step);
    FreeIsUnused(s, step.frame);
    forall r, v | r in s'.spaces && v in s'.spaces[r]
      ensures EntryOk(s', s'.spaces[r][v])
    {
      if !(r == step.root && v == step.page) {
        assert EntryOk(s, s.spaces[r][v]);
        MappedIsCounted(s, r, v);
      }
    }
    forall r | r in s'.spaces
      ensures Injective(s'.spaces[r])
    {
      assert Injective(s.spaces[r]);
    }
  }

  /** Moving one page of one space to another frame. */
  lemma MoveMapper(spaces: map<nat, Space>, root: nat, page: Vpn, e: Entry, f: nat)
    requires root in spaces && page in spaces[root] && e.frame != spaces[root][page].frame
    ensures |Mappers(spaces[root := spaces[root][page := e]], f)| ==
            |Mappers(spaces, f)| + (if f == e.frame then 1 else if f == spaces[root][page].frame then -1 else 0)
  {
    var after := Mappers(spaces[root := spaces[root][page := e]], f);
    var before := Mappers(spaces, f);
    OnlyPage(spaces, root, page, e, f);
    assert (root, page) in after <==> f == e.frame;
    assert (root, page) in before <==> f == spaces[root][page].frame;
    SizeWithout(after, (root, page));
    SizeWithout(before, (root, page));
  }

  lemma SizeWithout<T>(a: set<T>, x: T)
    ensures |a| == |a - {x}| + if x in a then 1 else 0
  {
    if x in a {
      assert a == (a - {x}) + {x};
    } else {
      assert a == a - {x};
    }
  }

  lemma CowKeepsInv(s: Sys, root: nat, page: Vpn, frame: nat)
    requires Inv(s) && Enabled(s, Cow(root, page, frame))
    ensures Inv(CowState(s, root, page, frame))
  {
    CowCounts(s, root, page, frame);
    CowEntries(s, root, page, frame);
    assert EntryOk(s, s.spaces[root][page]);
  }

  lemma CowCounts(s: Sys, root: nat, page: Vpn, frame: nat)
    requires Inv(s) && Enabled(s, Cow(root, page, frame))
    ensures CountsOk(CowState(s, root, page, frame))
  {
    var s' := CowState(s, root, page, frame);
    var e := s.spaces[root][page];
    assert EntryOk(s, e);
    MappedIsCounted(s, root, page);
    FreeIsUnused(s, frame);
    forall f | f in s'.counts
      ensures s'.counts[f] == Due(s', f)
    {
      MoveMapper(s.spaces, root, page, Entry(frame, true, e.user, false), f);
    }
  }

  lemma CowEntries(s: Sys, root: nat, page: Vpn, frame: nat)
    requires Inv(s) && Enabled(s, Cow(root, page, frame))
    ensures EntriesOk(CowState(s, root, page, frame))
  {
    var s' := CowState(s, root, page, frame);
    forall r, v | r in s'.spaces && v in s'.spaces[r]
      ensures EntryOk(s', s'.spaces[r][v])
    {
      CowEntryOk(s, root, page, frame, r, v);
    }
    hide EntryOk, CountsOk;
    FreeIsUnused(s, frame);
    forall r | r in s'.spaces
      ensures Injective(s'.spaces[r])
    {
      assert Injective(s.spaces[r]);
    }
  }

  lemma CowEntryOk(s: Sys, root: nat, page: Vpn, frame: nat, r: nat, v: Vpn)
    requires Inv(s) && Enabled(s, Cow(root, page, frame))
    requires r in s.spaces && (v in s.spaces[r] || (r, v) == (root, page))
    ensures var s' := CowState(s, root, page, frame);
            EntryOk(s', s'.spaces[r][v])
  {
    hide Due, Mappers, Injective;
    var e := s.spaces[root][page];
    assert EntryOk(s, e);
    FreeIsUnused(s, frame);
    if (r, v) != (root, page) {
      assert EntryOk(s, s.spaces[r][v]);
      if s.spaces[r][v].writable && s.spaces[r][v].frame == e.frame {
        WritableIsPrivate(s, r, v, root, page);
      }
    }
  }

  lemma StoreKeepsInv(s: Sys, step: Step)
    requires Inv(s) && step.Store? && Enabled(s, step)
    ensures Inv(Apply(s, step))
  {
    var s' := Apply(s, step);
    assert EntryOk(s, s.spaces[step.root][step.page]);
    forall f | f in s'.counts
      ensures s'.counts[f] == Due(s', f)
    {
      assert Due(s', f) == Due(s, f);
    }
    forall r, v | r in s'.spaces && v in s'.spaces[r]
      ensures EntryOk(s', s'.spaces[r][v])
    {
      assert EntryOk(s, s.spaces[r][v]);
    }
  }

  lemma DropMappers(spaces: map<nat, Space>, root: nat, f: nat)
    requires root in spaces && Injective(spaces[root])
    ensures |Mappers(spaces - {root}, f)| ==
            |Mappers(spaces, f)| - if f in FramesOf(spaces[root], spaces[root].Keys) then 1 else 0
  {
    var space := spaces[root];
    var after := spaces - {root};
    if f in FramesOf(space, space.Keys) {
      var v :| v in space && space[v].frame == f;
      assert Mappers(spaces, f) == Mappers(after, f) + {(root, v)};
    } else {
      assert Mappers(after, f) == Mappers(spaces, f);
    }
  }

  lemma ExitKeepsInv(s: Sys, root: nat, tables: set<nat>)
    requires Inv(s) && Enabled(s, Exit(root, tables))
    ensures Inv(Apply(s, Exit(root, tables)))
  {
    var s' := Apply(s, Exit(root, tables));
    var space := s.spaces[root];
    assert CountsOk(s') by {
      forall f | f in s'.counts
        ensures s'.counts[f] == Due(s', f)
      {
        DropMappers(s.spaces, root, f);
        if f in FramesOf(space, space.Keys) {
          var v :| v in space && space[v].frame == f;
          assert EntryOk(s, space[v]);
          MappedIsCounted(s, root, v);
        }
        if f in tables {
          HeldIsUnmapped(s, f);
          assert Mappers(s'.spaces, f) == {};
        }
      }
    }
    assert EntriesOk(s') by {
      forall r, v | r in s'.spaces && v in s'.spaces[r]
        ensures EntryOk(s', s'.spaces[r][v])
      {
        var e := s.spaces[r][v];
        assert EntryOk(s, e);
        if e.writable && e.frame in FramesOf(space, space.Keys) {
          var w :| w in space && space[w].frame == e.frame;
          WritableIsPrivate(s, r, v, root, w);
        }
      }
      forall r | r in s'.spaces
        ensures Injective(s'.spaces[r])
      {
        assert Injective(s.spaces[r]);
      }
    }
  }

  lemma HeldIsUnmapped(s: Sys, f: nat)
    requires Inv(s) && f in s.held
    ensures forall r, v :: r in s.spaces && v in s.spaces[r] ==> s.spaces[r][v].frame != f
  {
    forall r, v | r in s.spaces && v in s.spaces[r]
      ensures s.spaces[r][v].frame != f
    {
      assert EntryOk(s, s.spaces[r][v]);
    }
  }

  lemma StepKeepsInv(s: Sys, step: Step)
    requires Inv(s) && Enabled(s, step)
    ensures Inv(Apply(s, step))
  {
    match step
    case Create(root) => CreateKeepsInv(s, root);
    case Fork(parent, child, shared, tables) => ForkKeepsInv(s, parent, child, shared, tables);
    case Demand(_, _, _, _, _) => DemandKeepsInv(s, step);
    case Cow(root, page, frame) => CowKeepsInv(s, root, page, frame);
    case Store(_, _, _, _) => StoreKeepsInv(s, step);
    case Load(_, _, _) =>
    case Exit(root, tables) => ExitKeepsInv(s, root, tables);
  }

  // ---------- The eager machine ----------

  /** A page a process owns outright. */
  datatype OwnPage = OwnPage(bytes: Page, writable: bool)

  type Eager = map<nat, map<Vpn, OwnPage>>

  /** What the processes see: the bytes of each mapped page, and whether a store to it can succeed. */
  ghost function View(s: Sys): Eager {
    map r | r in s.spaces :: Shown(s.mem, s.spaces[r])
  }

  ghost function Shown(mem: map<nat, Page>, space: Space): map<Vpn, OwnPage> {
    map v | v in space :: PageView(mem, space[v])
  }

  ghost function PageView(mem: map<nat, Page>, e: Entry): OwnPage {
    OwnPage(if e.frame in mem then mem[e.frame] else [], e.writable || e.cow)
  }

  /** The machine in which fork copies every page and nothing is shared; a copy-on-write fault is no step at all. */
  ghost function EagerApply(e: Eager, step: Step): Eager {
    match step
    case Create(root) => e[root := map[]]
    case Fork(parent, child, shared, _) =>
      if parent in e then e[child := Part(e[parent], shared)] else e
    case Demand(root, page, _, writable, _) =>
      if root in e then e[root := e[root][page := OwnPage(ZeroPage(), writable)]] else e
    case Store(root, page, offset, byte) =>
      if root in e && page in e[root] && offset < |e[root][page].bytes| then
        e[root := e[root][page := e[root][page].(bytes := e[root][page].bytes[offset := byte])]]
      else e
    case Exit(root, _) => e - {root}
    case Cow(_, _, _) => e
    case Load(_, _, _) => e
  }

  function Part(pages: map<Vpn, OwnPage>, shared: set<Vpn>): map<Vpn, OwnPage> {
    map v | v in pages && v in shared :: pages[v]
  }

  /** Sharing shows the parent what it had and the child the same. */
  lemma SharedShown(mem: map<nat, Page>, space: Space, shared: set<Vpn>)
    ensures Shown(mem, Marked(space, shared)) == Shown(mem, space)
    ensures Shown(mem, Child(space, shared)) == Part(Shown(mem, space), shared)
  {
  }

  /** A frame no page of the space maps may change without the space seeing it. */
  lemma UnmappedShown(mem: map<nat, Page>, mem': map<nat, Page>, space: Space, f: nat)
    requires mem.Keys == mem'.Keys
    requires forall g :: g in mem && g != f ==> mem'[g] == mem[g]
    requires forall v :: v in space ==> space[v].frame != f
    ensures Shown(mem', space) == Shown(mem, space)
  {
  }

  /** Filling the frame of one page of a space shows in that page only. */
  lemma FilledShown(mem: map<nat, Page>, space: Space, page: Vpn, e: Entry, bytes: Page)
    requires e.frame in mem
    requires forall v :: v in space && v != page ==> space[v].frame != e.frame
    ensures Shown(mem[e.frame := bytes], space[page := e]) ==
            Shown(mem, space)[page := OwnPage(bytes, e.writable || e.cow)]
  {
  }

  /** A new view of one space, with every other space seeing what it saw. */
  lemma OneSpaceChanges(s: Sys, s': Sys, root: nat, f: nat)
    requires root in s.spaces && root in s'.spaces
    requires s'.spaces == s.spaces[root := s'.spaces[root]]
    requires s.mem.Keys == s'.mem.Keys && forall g :: g in s.mem && g != f ==> s'.mem[g] == s.mem[g]
    requires forall r, v :: r in s.spaces && r != root && v in s.spaces[r] ==> s.spaces[r][v].frame != f
    ensures View(s') == View(s)[root := Shown(s'.mem, s'.spaces[root])]
  {
    forall r | r in s.spaces && r != root
      ensures Shown(s'.mem, s'.spaces[r]) == Shown(s.mem, s.spaces[r])
    {
      UnmappedShown(s.mem, s'.mem, s.spaces[r], f);
    }
  }

  /** With memory unchanged, each space shows what its entries show. */
  lemma SpacesShown(s: Sys, s': Sys, r: nat)
    requires s'.mem == s.mem
    ensures s'.spaces == s.spaces[r := map[]] ==> View(s') == View(s)[r := map[]]
    ensures s'.spaces == s.spaces - {r} ==> View(s') == View(s) - {r}
  {
  }

  lemma ForkRefines(s: Sys, parent: nat, child: nat, shared: set<Vpn>, tables: set<nat>)
    requires parent in s.spaces && child !in s.spaces
    ensures View(ForkState(s, parent, child, shared, tables)) ==
            View(s)[child := Part(Shown(s.mem, s.spaces[parent]), shared)]
  {
    hide Shown, Marked, Child, Part, FramesOf;
    var space := s.spaces[parent];
    var s' := ForkState(s, parent, child, shared, tables);
    SharedShown(s.mem, space, shared);
    assert s'.spaces[parent] == Marked(space, shared) && s'.spaces[child] == Child(space, shared);
  }

  lemma DemandRefines(s: Sys, step: Step)
    requires Inv(s) && step.Demand? && Enabled(s, step)
    ensures View(Apply(s, step)) == EagerApply(View(s), step)
  {
    var Demand(root, page, frame, writable, tables) := step;
    FreeIsUnused(s, frame);
    OneSpaceChanges(s, Apply(s, step), root, frame);
    FilledShown(s.mem, s.spaces[root], page, Entry(frame, writable, true, false), ZeroPage());
  }

  lemma CowRefines(s: Sys, root: nat, page: Vpn, frame: nat)
    requires Inv(s) && Enabled(s, Cow(root, page, frame))
    ensures View(CowState(s, root, page, frame)) == View(s)
  {
    hide CountsOk, Injective, Shown;
    var e := s.spaces[root][page];
    FreeIsUnused(s, frame);
    assert EntryOk(s, e);
    OneSpaceChanges(s, CowState(s, root, page, frame), root, frame);
    CopiedShown(s.mem, s.spaces[root], page, frame);
  }

  /** Copying the frame of a copy-on-write page and writing through to the copy shows nothing new. */
  lemma CopiedShown(mem: map<nat, Page>, space: Space, page: Vpn, frame: nat)
    requires page in space && space[page].cow && space[page].frame in mem && frame in mem
    requires forall v :: v in space ==> space[v].frame != frame
    ensures Shown(mem[frame := mem[space[page].frame]], space[page := Entry(frame, true, space[page].user, false)]) ==
            Shown(mem, space)
  {
    var e := space[page];
    FilledShown(mem, space, page, Entry(frame, true, e.user, false), mem[e.frame]);
    assert Shown(mem, space)[page] == OwnPage(mem[e.frame], true);
  }

  lemma OnlyMapping(s: Sys, root: nat, page: Vpn)
    requires Inv(s) && root in s.spaces && page in s.spaces[root] && s.spaces[root][page].writable
    ensures forall r, v :: r in s.spaces && v in s.spaces[r] && (r, v) != (root, page) ==>
                             s.spaces[r][v].frame != s.spaces[root][page].frame
  {
    hide Inv;
    forall r, v | r in s.spaces && v in s.spaces[r] && (r, v) != (root, page)
      ensures s.spaces[r][v].frame != s.spaces[root][page].frame
    {
      if s.spaces[r][v].frame == s.spaces[root][page].frame {
        WritableIsPrivate(s, root, page, r, v);
      }
    }
  }

  lemma ShownAt(mem: map<nat, Page>, space: Space, v: Vpn)
    requires v in space
    ensures Shown(mem, space).Keys == space.Keys && Shown(mem, space)[v] == PageView(mem, space[v])
  {
  }

  /** A store through a writable entry changes one page of one process and nothing any other process sees. */
  lemma StoreRefines(s: Sys, step: Step)
    requires Inv(s) && step.Store? && Enabled(s, step)
    ensures View(Apply(s, step)) == EagerApply(View(s), step)
  {
    hide CountsOk, Injective, Shown;
    var Store(root, page, offset, byte) := step;
    var e := s.spaces[root][page];
    assert EntryOk(s, e);
    OnlyMapping(s, root, page);
    assert PageView(s.mem, e) == Shown(s.mem, s.spaces[root])[page] by {
      ShownAt(s.mem, s.spaces[root], page);
    }
    OneSpaceChanges(s, Apply(s, step), root, e.frame);
    FilledShown(s.mem, s.spaces[root], page, e, s.mem[e.frame][offset := byte]);
    assert s.spaces[root][page := e] == s.spaces[root];
  }

  /** Every step of the sharing machine is the same step of the copying machine. */
  lemma StepRefines(s: Sys, step: Step)
    requires Inv(s) && Enabled(s, step)
    ensures View(Apply(s, step)) == EagerApply(View(s), step)
  {
    match step
    case Create(root) =>
      FreeIsUnused(s, root);
      SpacesShown(s, Apply(s, step), root);
    case Fork(parent, child, shared, tables) =>
      FreeIsUnused(s, child);
      ForkRefines(s, parent, child, shared, tables);
    case Demand(_, _, _, _, _) => DemandRefines(s, step);
    case Cow(root, page, frame) => CowRefines(s, root, page, frame);
    case Store(_, _, _, _) => StoreRefines(s, step);
    case Load(_, _, _) =>
    case Exit(root, tables) => SpacesShown(s, Apply(s, step), root);
  }

  // ---------- Whole runs ----------

  /** Every step of the sequence is enabled in the state the steps before it lead to. */
  ghost predicate Runs(s: Sys, steps: seq<Step>)
    requires Inv(s)
    decreases |steps|
  {
    steps != [] ==>
      Enabled(s, steps[0]) && (StepKeepsInv(s, steps[0]); Runs(Apply(s, steps[0]), steps[1..]))
  }

  ghost function Final(s: Sys, steps: seq<Step>): Sys
    requires Inv(s) && Runs(s, steps)
    decreases |steps|
  {
    if steps == [] then s else StepKeepsInv(s, steps[0]); Final(Apply(s, steps[0]), steps[1..])
  }

  ghost function EagerFinal(e: Eager, steps: seq<Step>): Eager
    decreases |steps|
  {
    if steps == [] then e else EagerFinal(EagerApply(e, steps[0]), steps[1..])
  }

  /** Over every run the processes see exactly what they would see if fork copied all pages. */
  lemma {:induction false} RunRefines(s: Sys, steps: seq<Step>)
    requires Inv(s) && Runs(s, steps)
    ensures Inv(Final(s, steps))
    ensures View(Final(s, steps)) == EagerFinal(View(s), steps)
    decreases |steps|
  {
    if steps != [] {
      StepKeepsInv(s, steps[0]);
      StepRefines(s, steps[0]);
      RunRefines(Apply(s, steps[0]), steps[1..]);
    }
  }

  /** The steps by which a process changes or gives up its own memory. */
  predicate ActsOn(step: Step, root: nat) {
    match step
    case Create(r) => r == root
    case Fork(_, child, _, _) => child == root
    case Demand(r, _, _, _, _) => r == root
    case Store(r, _, _, _) => r == root
    case Exit(r, _) => r == root
    case Cow(_, _, _) => false
    case Load(_, _, _) => false
  }

  lemma EagerIdle(e: Eager, step: Step, root: nat)
    requires root in e && !ActsOn(step, root)
    ensures root in EagerApply(e, step) && EagerApply(e, step)[root] == e[root]
  {
  }

  lemma IdleStep(s: Sys, step: Step, root: nat)
    requires Inv(s) && Enabled(s, step) && root in s.spaces && !ActsOn(step, root)
    ensures root in Apply(s, step).spaces && View(Apply(s, step))[root] == View(s)[root]
  {
    StepRefines(s, step);
    EagerIdle(View(s), step, root);
    assert root in View(Apply(s, step));
  }

  /** Whatever the others do, including forking from it, a process that does nothing sees nothing change. */
  lemma {:induction false} RunIsolates(s: Sys, steps: seq<Step>, root: nat)
    requires Inv(s) && Runs(s, steps) && root in s.spaces
    requires forall k :: 0 <= k < |steps| ==> !ActsOn(steps[k], root)
    ensures Inv(Final(s, steps)) && root in Final(s, steps).spaces
    ensures View(Final(s, steps))[root] == View(s)[root]
    decreases |steps|
  {
    if steps != [] {
      StepKeepsInv(s, steps[0]);
      IdleStep(s, steps[0], root);
      var s' := Apply(s, steps[0]);
      RunIsolates(s', steps[1..], root);
    }
  }

  /** A run can be extended by one step. */
  lemma {:induction false} RunSnoc(s: Sys, steps: seq<Step>, step: Step)
    requires Inv(s) && Runs(s, steps) && Inv(Final(s, steps)) && Enabled(Final(s, steps), step)
    ensures Runs(s, steps + [step]) && Final(s, steps + [step]) == Apply(Final(s, steps), step)
    decreases |steps|
  {
    hide Inv, Apply, Enabled;
    if steps == [] {
      assert [step][1..] == [];
      StepKeepsInv(s, step);
    } else {
      StepKeepsInv(s, steps[0]);
      assert (steps + [step])[1..] == steps[1..] + [step];
      RunSnoc(Apply(s, steps[0]), steps[1..], step);
    }
  }
}
