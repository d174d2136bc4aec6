/**
 Four-level page tables over physical frames, and the flat map from page to entry that they stand for.

 `Tables` gives the 512 entries of every frame in use as a user page table. The ghost map `Places` records
 where each table hangs, which makes sharing of table frames impossible to express and so non-aliasing an
 invariant: a table has one place, and its place names the one entry that points to it.
 */
module PageTables {
  import opened Wrappers
  import opened CowSpec

  const ENTRY_COUNT: nat := 512
  const USER_ENTRIES: nat := 256

  datatype Pte = Absent | Present(entry: Entry)

  type Tables = map<nat, seq<Pte>>

  /** Level 4 is a root. Other tables are entry `index` of table `up`. */
  datatype Place = Place(level: int, up: nat, index: nat, root: nat)

  type Places = map<nat, Place>

  predicate ValidPage(v: Vpn) {
    v.i4 < USER_ENTRIES && v.i3 < ENTRY_COUNT && v.i2 < ENTRY_COUNT && v.i1 < ENTRY_COUNT
  }

  function At(tables: Tables, f: nat, i: nat): Pte {
    if f in tables && i < |tables[f]| then tables[f][i] else Absent
  }

  /** The L1 table on the way to a page, if every entry above it is present. */
  function LeafTable(tables: Tables, root: nat, v: Vpn): Option<nat> {
    var e4 := At(tables, root, v.i4);
    if e4.Absent? then None else
    var e3 := At(tables, e4.entry.frame, v.i3);
    if e3.Absent? then None else
    var e2 := At(tables, e3.entry.frame, v.i2);
    if e2.Absent? then None else
    Some(e2.entry.frame)
  }

  function Walk(tables: Tables, root: nat, v: Vpn): Pte {
    match LeafTable(tables, root, v)
    case None => Absent
    case Some(l1) => At(tables, l1, v.i1)
  }

  /** What an entry pointing to a table holds: present, writable, user. */
  function Pointer(frame: nat): Pte {
    Present(Entry(frame, true, true, false))
  }

  function EmptyTable(): seq<Pte> {
    seq(ENTRY_COUNT, i => Absent)
  }

  /** The entries of a table that belong to user space: the lower half of a root, all of any other. */
  function UserPart(level: int): nat {
    if level == 4 then USER_ENTRIES else ENTRY_COUNT
  }

  ghost predicate EntryPlaced(tables: Tables, places: Places, f: nat, i: nat)
    requires f in tables && f in places && i < |tables[f]|
  {
    tables[f][i].Present? ==>
      var c := tables[f][i].entry.frame;
      if places[f].level == 1 then c !in tables
      else c in places && places[c] == Place(places[f].level - 1, f, i, places[f].root)
  }

  ghost predicate TablePlaced(tables: Tables, places: Places, f: nat)
    requires f in tables && f in places
  {
    var p := places[f];
    && |tables[f]| == ENTRY_COUNT
    && 1 <= p.level <= 4
    && p.root in places && places[p.root].level == 4
    && (p.level == 4 ==> p.root == f)
    && (p.level < 4 ==>
          && p.up in tables && p.up in places
          && places[p.up].level == p.level + 1 && places[p.up].root == p.root
          && p.index < UserPart(p.level + 1)
          && At(tables, p.up, p.index).Present? && At(tables, p.up, p.index).entry.frame == f)
    && (forall i {:trigger EntryPlaced(tables, places, f, i)} ::
          0 <= i < UserPart(p.level) ==> EntryPlaced(tables, places, f, i))
  }

  ghost predicate Shape(tables: Tables, places: Places) {
    && tables.Keys == places.Keys
    && forall f {:trigger TablePlaced(tables, places, f)} :: f in tables ==> TablePlaced(tables, places, f)
  }

  ghost predicate IsRoot(places: Places, r: nat) {
    r in places && places[r].level == 4
  }

  /** The page that entry i1 of an L1 table maps. */
  ghost function PageOf(places: Places, l1: nat, i1: nat): Vpn
    requires l1 in places && places[l1].up in places && places[places[l1].up].up in places
  {
    var l2 := places[l1].up;
    var l3 := places[l2].up;
    Vpn(places[l3].index, places[l2].index, places[l1].index, i1)
  }

  lemma PageOfValid(tables: Tables, places: Places, l1: nat, i1: nat)
    requires Shape(tables, places) && l1 in places && places[l1].level == 1 && i1 < ENTRY_COUNT
    ensures places[l1].up in places && places[places[l1].up].up in places
    ensures IsRoot(places, places[l1].root)
    ensures ValidPage(PageOf(places, l1, i1))
    ensures LeafTable(tables, places[l1].root, PageOf(places, l1, i1)) == Some(l1)
    ensures l1 in tables && |tables[l1]| == ENTRY_COUNT
            && Walk(tables, places[l1].root, PageOf(places, l1, i1)) == tables[l1][i1]
    ensures tables[l1][i1].Present? ==> tables[l1][i1].entry.frame !in tables
  {
    assert TablePlaced(tables, places, l1);
    assert EntryPlaced(tables, places, l1, i1);
    var l2 := places[l1].up;
    assert TablePlaced(tables, places, l2);
    var l3 := places[l2].up;
    assert TablePlaced(tables, places, l3);
    var l4 := places[l3].up;
    assert TablePlaced(tables, places, l4);
  }

  /** An L1 table is on the way to exactly the pages of its place. */
  lemma LeafTablePlace(tables: Tables, places: Places, root: nat, v: Vpn)
    requires Shape(tables, places) && IsRoot(places, root) && ValidPage(v)
    requires LeafTable(tables, root, v).Some?
    ensures var l1 := LeafTable(tables, root, v).value;
            && l1 in places && places[l1].level == 1 && places[l1].root == root
            && places[l1].up in places && places[places[l1].up].up in places
            && PageOf(places, l1, v.i1) == v
  {
    assert TablePlaced(tables, places, root);
    assert EntryPlaced(tables, places, root, v.i4);
    var l3 := tables[root][v.i4].entry.frame;
    assert TablePlaced(tables, places, l3);
    assert EntryPlaced(tables, places, l3, v.i3);
    var l2 := tables[l3][v.i3].entry.frame;
    assert TablePlaced(tables, places, l2);
    assert EntryPlaced(tables, places, l2, v.i2);
  }

  // ---------- The flat view ----------

  predicate Indices(i4: nat, i3: nat, i2: nat, i1: nat) {
    ValidPage(Vpn(i4, i3, i2, i1))
  }

  ghost function AllPages(): set<Vpn> {
    set i4: nat, i3: nat, i2: nat, i1: nat |
      i4 < USER_ENTRIES && i3 < ENTRY_COUNT && i2 < ENTRY_COUNT && i1 < ENTRY_COUNT && Indices(i4, i3, i2, i1) ::
      Vpn(i4, i3, i2, i1)
  }

  lemma AllPagesValid(v: Vpn)
    ensures v in AllPages() <==> ValidPage(v)
  {
    if ValidPage(v) {
      assert Indices(v.i4, v.i3, v.i2, v.i1);
      assert v == Vpn(v.i4, v.i3, v.i2, v.i1);
    }
  }

  ghost function SpaceOf(tables: Tables, root: nat): Space {
    map v | v in AllPages() && Walk(tables, root, v).Present? :: Walk(tables, root, v).entry
  }

  ghost function Spaces(tables: Tables, places: Places): map<nat, Space> {
    map r | r in places && IsRoot(places, r) :: SpaceOf(tables, r)
  }

  lemma InSpace(tables: Tables, root: nat, v: Vpn)
    ensures v in SpaceOf(tables, root) <==> ValidPage(v) && Walk(tables, root, v).Present?
    ensures v in SpaceOf(tables, root) ==> SpaceOf(tables, root)[v] == Walk(tables, root, v).entry
  {
    AllPagesValid(v);
  }

  lemma SameWalks(tables: Tables, tables': Tables, root: nat)
    requires forall v :: ValidPage(v) ==> Walk(tables', root, v) == Walk(tables, root, v)
    ensures SpaceOf(tables', root) == SpaceOf(tables, root)
  {
    forall v
      ensures v in SpaceOf(tables', root) <==> v in SpaceOf(tables, root)
      ensures v in SpaceOf(tables, root) ==> SpaceOf(tables', root)[v] == SpaceOf(tables, root)[v]
    {
      InSpace(tables, root, v);
      InSpace(tables', root, v);
    }
  }

  // ---------- Changing a leaf entry ----------

  function Written(tables: Tables, f: nat, i: nat, pte: Pte): Tables
    requires f in tables && i < |tables[f]|
  {
    tables[f := tables[f][i := pte]]
  }

  lemma LeafWriteShape(tables: Tables, places: Places, l1: nat, i: nat, pte: Pte)
    requires Shape(tables, places) && l1 in places && places[l1].level == 1 && i < |tables[l1]|
    requires pte.Present? ==> pte.entry.frame !in tables
    ensures Shape(Written(tables, l1, i, pte), places)
  {
    var tables' := Written(tables, l1, i, pte);
    forall f | f in tables'
      ensures TablePlaced(tables', places, f)
    {
      assert TablePlaced(tables, places, f);
      if places[f].level < 4 {
        assert TablePlaced(tables, places, places[f].up);
      }
      forall k | 0 <= k < UserPart(places[f].level)
        ensures EntryPlaced(tables', places, f, k)
      {
        assert EntryPlaced(tables, places, f, k);
      }
    }
  }

  /** A write to one L1 entry changes the walk of one page of one space. */
  lemma LeafWriteWalk(tables: Tables, places: Places, l1: nat, i: nat, pte: Pte, root: nat, v: Vpn)
    requires Shape(tables, places) && l1 in places && places[l1].level == 1 && i < |tables[l1]|
    requires IsRoot(places, root) && ValidPage(v)
    ensures places[l1].up in places && places[places[l1].up].up in places
    ensures LeafTable(Written(tables, l1, i, pte), root, v) == LeafTable(tables, root, v)
    ensures Walk(Written(tables, l1, i, pte), root, v) ==
            if root == places[l1].root && v == PageOf(places, l1, i) then pte else Walk(tables, root, v)
  {
    var tables' := Written(tables, l1, i, pte);
    assert TablePlaced(tables, places, l1);
    PageOfValid(tables, places, l1, i);
    InteriorSame(tables, tables', places, l1, root, v);
    if LeafTable(tables, root, v).Some? {
      LeafTablePlace(tables, places, root, v);
    }
  }

  /** The tables above L1 are not the L1 table that changes. */
  lemma InteriorSame(tables: Tables, tables': Tables, places: Places, l1: nat, root: nat, v: Vpn)
    requires Shape(tables, places) && l1 in places && places[l1].level == 1
    requires l1 in tables' && tables' == tables[l1 := tables'[l1]]
    requires IsRoot(places, root) && ValidPage(v)
    ensures LeafTable(tables', root, v) == LeafTable(tables, root, v)
  {
    assert TablePlaced(tables, places, root);
    assert EntryPlaced(tables, places, root, v.i4);
    if tables[root][v.i4].Present? {
      var l3 := tables[root][v.i4].entry.frame;
      assert TablePlaced(tables, places, l3);
      assert EntryPlaced(tables, places, l3, v.i3);
      if tables[l3][v.i3].Present? {
        assert TablePlaced(tables, places, tables[l3][v.i3].entry.frame);
      }
    }
  }

  lemma LeafWriteOther(tables: Tables, places: Places, l1: nat, i: nat, pte: Pte, q: nat)
    requires Shape(tables, places) && l1 in places && places[l1].level == 1 && i < |tables[l1]|
    requires IsRoot(places, q) && q != places[l1].root
    ensures SpaceOf(Written(tables, l1, i, pte), q) == SpaceOf(tables, q)
  {
    var tables' := Written(tables, l1, i, pte);
    forall w | ValidPage(w)
      ensures Walk(tables', q, w) == Walk(tables, q, w)
    {
      LeafWriteWalk(tables, places, l1, i, pte, q, w);
    }
    SameWalks(tables, tables', q);
  }

  function Updated(space: Space, v: Vpn, pte: Pte): Space {
    if pte.Present? then space[v := pte.entry] else space - {v}
  }

  lemma LeafWriteOwn(tables: Tables, places: Places, l1: nat, i: nat, pte: Pte)
    requires Shape(tables, places) && l1 in places && places[l1].level == 1 && i < |tables[l1]|
    requires places[l1].up in places && places[places[l1].up].up in places
    ensures var r := places[l1].root;
            SpaceOf(Written(tables, l1, i, pte), r) == Updated(SpaceOf(tables, r), PageOf(places, l1, i), pte)
  {
    var r := places[l1].root;
    var v := PageOf(places, l1, i);
    var tables' := Written(tables, l1, i, pte);
    assert TablePlaced(tables, places, l1);
    PageOfValid(tables, places, l1, i);
    var space' := Updated(SpaceOf(tables, r), v, pte);
    forall w
      ensures w in SpaceOf(tables', r) <==> w in space'
      ensures w in space' ==> SpaceOf(tables', r)[w] == space'[w]
    {
      InSpace(tables, r, w);
      InSpace(tables', r, w);
      if ValidPage(w) {
        LeafWriteWalk(tables, places, l1, i, pte, r, w);
      }
    }
  }

  /** Writing an L1 entry changes one page of the flat map: the page of the entry's place. */
  lemma LeafWriteSpaces(tables: Tables, places: Places, l1: nat, i: nat, pte: Pte)
    requires Shape(tables, places) && l1 in places && places[l1].level == 1 && i < |tables[l1]|
    requires places[l1].up in places && places[places[l1].up].up in places
    ensures var r := places[l1].root;
            && r in Spaces(tables, places)
            && Spaces(Written(tables, l1, i, pte), places) ==
               Spaces(tables, places)[r := Updated(Spaces(tables, places)[r], PageOf(places, l1, i), pte)]
  {
    assert TablePlaced(tables, places, l1);
    LeafWriteOwn(tables, places, l1, i, pte);
    forall q | IsRoot(places, q) && q != places[l1].root
      ensures SpaceOf(Written(tables, l1, i, pte), q) == SpaceOf(tables, q)
    {
      LeafWriteOther(tables, places, l1, i, pte, q);
    }
  }

  // ---------- Adding and removing tables ----------

  /** No leaf entry names the frame. */
  ghost predicate NotMapped(tables: Tables, places: Places, c: nat)
    requires Shape(tables, places)
  {
    forall f, i :: f in tables && places[f].level == 1 && 0 <= i < |tables[f]| && tables[f][i].Present? ==>
                     tables[f][i].entry.frame != c
  }

  function Linked(tables: Tables, f: nat, i: nat, c: nat): Tables
    requires f in tables && i < |tables[f]|
  {
    tables[c := EmptyTable()][f := tables[f][i := Pointer(c)]]
  }

  ghost function LinkedPlaces(places: Places, f: nat, i: nat, c: nat): Places
    requires f in places
  {
    places[c := Place(places[f].level - 1, f, i, places[f].root)]
  }

  ghost predicate CanLink(tables: Tables, places: Places, f: nat, i: nat, c: nat) {
    && Shape(tables, places) && f in tables && places[f].level > 1 && i < UserPart(places[f].level)
    && i < |tables[f]| && tables[f][i].Absent? && c !in tables && NotMapped(tables, places, c)
  }

  lemma LinkShape(tables: Tables, places: Places, f: nat, i: nat, c: nat)
    requires CanLink(tables, places, f, i, c)
    ensures Shape(Linked(tables, f, i, c), LinkedPlaces(places, f, i, c))
  {
    var tables' := Linked(tables, f, i, c);
    var places' := LinkedPlaces(places, f, i, c);
    assert TablePlaced(tables, places, f);
    forall g | g in tables'
      ensures TablePlaced(tables', places', g)
    {
      if g != c {
        assert TablePlaced(tables, places, g);
        if places[g].level < 4 {
          assert TablePlaced(tables, places, places[g].up);
        }
        forall k | 0 <= k < UserPart(places[g].level)
          ensures EntryPlaced(tables', places', g, k)
        {
          assert EntryPlaced(tables, places, g, k);
        }
      }
    }
  }

  /** A new empty table maps no page, so no walk changes. */
  lemma LinkWalk(tables: Tables, places: Places, f: nat, i: nat, c: nat, root: nat, v: Vpn)
    requires CanLink(tables, places, f, i, c) && IsRoot(places, root) && ValidPage(v)
    ensures Walk(Linked(tables, f, i, c), root, v) == Walk(tables, root, v)
  {
    var tables' := Linked(tables, f, i, c);
    assert TablePlaced(tables, places, root);
    assert EntryPlaced(tables, places, root, v.i4);
    if tables[root][v.i4].Present? {
      var l3 := tables[root][v.i4].entry.frame;
      assert TablePlaced(tables, places, l3);
      assert EntryPlaced(tables, places, l3, v.i3);
      if tables[l3][v.i3].Present? {
        var l2 := tables[l3][v.i3].entry.frame;
        assert TablePlaced(tables, places, l2);
        assert EntryPlaced(tables, places, l2, v.i2);
        if tables[l2][v.i2].Present? {
          assert TablePlaced(tables, places, tables[l2][v.i2].entry.frame);
        }
      }
    }
  }

  lemma LinkSpaces(tables: Tables, places: Places, f: nat, i: nat, c: nat)
    requires CanLink(tables, places, f, i, c)
    ensures Spaces(Linked(tables, f, i, c), LinkedPlaces(places, f, i, c)) == Spaces(tables, places)
  {
    var tables' := Linked(tables, f, i, c);
    assert TablePlaced(tables, places, f);
    forall q | IsRoot(places, q)
      ensures SpaceOf(tables', q) == SpaceOf(tables, q)
    {
      forall w | ValidPage(w)
        ensures Walk(tables', q, w) == Walk(tables, q, w)
      {
        LinkWalk(tables, places, f, i, c, q, w);
      }
      SameWalks(tables, tables', q);
    }
  }

  /** No user entry of the table is present. */
  ghost predicate Bare(tables: Tables, places: Places, c: nat)
    requires c in tables && c in places
  {
    forall i :: 0 <= i < UserPart(places[c].level) && i < |tables[c]| ==> tables[c][i].Absent?
  }

  function Unlinked(tables: Tables, f: nat, i: nat, c: nat): Tables
    requires f in tables && i < |tables[f]|
  {
    tables[f := tables[f][i := Absent]] - {c}
  }

  ghost predicate CanUnlink(tables: Tables, places: Places, c: nat) {
    && Shape(tables, places) && c in tables && places[c].level < 4 && Bare(tables, places, c)
    && places[c].up in tables && places[c].index < |tables[places[c].up]|
  }

  lemma UnlinkShape(tables: Tables, places: Places, c: nat)
    requires CanUnlink(tables, places, c)
    ensures Shape(Unlinked(tables, places[c].up, places[c].index, c), places - {c})
  {
    var f := places[c].up;
    var tables' := Unlinked(tables, f, places[c].index, c);
    var places' := places - {c};
    assert TablePlaced(tables, places, c);
    forall g | g in tables'
      ensures TablePlaced(tables', places', g)
    {
      assert TablePlaced(tables, places, g);
      if places[g].level < 4 {
        assert TablePlaced(tables, places, places[g].up);
      }
      forall k | 0 <= k < UserPart(places[g].level)
        ensures EntryPlaced(tables', places', g, k)
      {
        assert EntryPlaced(tables, places, g, k);
      }
    }
  }

  /** Taking a bare table out changes one entry, the one that led to it. */
  lemma UnlinkEntry(tables: Tables, places: Places, c: nat, f: nat, i: nat)
    requires CanUnlink(tables, places, c) && f in places && i < UserPart(places[f].level)
    ensures var e, e' := At(tables, f, i), At(Unlinked(tables, places[c].up, places[c].index, c), f, i);
            e' == e || (places[f].level > 1 && e'.Absent? && e.Present? && e.entry.frame == c)
    ensures forall k: nat :: k < ENTRY_COUNT ==> At(tables, c, k).Absent?
  {
    assert TablePlaced(tables, places, c);
    assert TablePlaced(tables, places, f);
  }

  lemma UnlinkWalk(tables: Tables, places: Places, c: nat, root: nat, v: Vpn)
    requires CanUnlink(tables, places, c) && IsRoot(places, root) && ValidPage(v)
    ensures Walk(Unlinked(tables, places[c].up, places[c].index, c), root, v) == Walk(tables, root, v)
  {
    hide Shape, Bare, Unlinked;
    UnlinkEntry(tables, places, c, root, v.i4);
    ChildPlaced(tables, places, root, v.i4);
    if tables[root][v.i4].Present? {
      var l3 := tables[root][v.i4].entry.frame;
      UnlinkEntry(tables, places, c, l3, v.i3);
      ChildPlaced(tables, places, l3, v.i3);
      if tables[l3][v.i3].Present? {
        var l2 := tables[l3][v.i3].entry.frame;
        UnlinkEntry(tables, places, c, l2, v.i2);
        ChildPlaced(tables, places, l2, v.i2);
        if tables[l2][v.i2].Present? {
          UnlinkEntry(tables, places, c, tables[l2][v.i2].entry.frame, v.i1);
        }
      }
    }
  }

  lemma UnlinkSpaces(tables: Tables, places: Places, c: nat)
    requires CanUnlink(tables, places, c)
    ensures Spaces(Unlinked(tables, places[c].up, places[c].index, c), places - {c}) == Spaces(tables, places)
  {
    var tables' := Unlinked(tables, places[c].up, places[c].index, c);
    forall q | IsRoot(places, q)
      ensures SpaceOf(tables', q) == SpaceOf(tables, q)
    {
      forall w | ValidPage(w)
        ensures Walk(tables', q, w) == Walk(tables, q, w)
      {
        UnlinkWalk(tables, places, c, q, w);
      }
      SameWalks(tables, tables', q);
    }
  }

  lemma NewRootShape(tables: Tables, places: Places, c: nat, table: seq<Pte>)
    requires Shape(tables, places) && c !in tables && NotMapped(tables, places, c)
    requires |table| == ENTRY_COUNT && forall i :: 0 <= i < USER_ENTRIES ==> table[i].Absent?
    ensures Shape(tables[c := table], places[c := Place(4, c, 0, c)])
  {
    var tables' := tables[c := table];
    var places' := places[c := Place(4, c, 0, c)];
    forall g | g in tables'
      ensures TablePlaced(tables', places', g)
    {
      if g != c {
        assert TablePlaced(tables, places, g);
        if places[g].level < 4 {
          assert TablePlaced(tables, places, places[g].up);
        }
        forall k | 0 <= k < UserPart(places[g].level)
          ensures EntryPlaced(tables', places', g, k)
        {
          assert EntryPlaced(tables, places, g, k);
        }
      }
    }
  }

  /** Adding a root whose user half is empty adds an empty space. */
  lemma NewRoot(tables: Tables, places: Places, c: nat, table: seq<Pte>)
    requires Shape(tables, places) && c !in tables && NotMapped(tables, places, c)
    requires |table| == ENTRY_COUNT && forall i :: 0 <= i < USER_ENTRIES ==> table[i].Absent?
    ensures Shape(tables[c := table], places[c := Place(4, c, 0, c)])
    ensures Spaces(tables[c := table], places[c := Place(4, c, 0, c)]) == Spaces(tables, places)[c := map[]]
  {
    NewRootShape(tables, places, c, table);
    var tables' := tables[c := table];
    var places' := places[c := Place(4, c, 0, c)];
    forall q | IsRoot(places, q)
      ensures SpaceOf(tables', q) == SpaceOf(tables, q)
    {
      forall w | ValidPage(w)
        ensures Walk(tables', q, w) == Walk(tables, q, w)
      {
        ApartWalk(tables, tables', places, c, q, w);
      }
      SameWalks(tables, tables', q);
    }
    forall w
      ensures w !in SpaceOf(tables', c)
    {
      InSpace(tables', c, w);
    }
  }

  /** Tables that differ only in a frame that is no table give the same walks. */
  lemma ApartWalk(tables: Tables, tables': Tables, places: Places, c: nat, root: nat, v: Vpn)
    requires Shape(tables, places) && IsRoot(places, root) && ValidPage(v)
    requires forall g :: g in tables && places[g].root == root ==> g in tables' && tables'[g] == tables[g]
    ensures Walk(tables', root, v) == Walk(tables, root, v)
  {
    assert TablePlaced(tables, places, root);
    assert EntryPlaced(tables, places, root, v.i4);
    if tables[root][v.i4].Present? {
      var l3 := tables[root][v.i4].entry.frame;
      assert TablePlaced(tables, places, l3);
      assert EntryPlaced(tables, places, l3, v.i3);
      if tables[l3][v.i3].Present? {
        var l2 := tables[l3][v.i3].entry.frame;
        assert TablePlaced(tables, places, l2);
        assert EntryPlaced(tables, places, l2, v.i2);
      }
    }
  }

  /** A root with an empty user half is the only table of its space. */
  lemma {:induction false} BareRootIsAlone(tables: Tables, places: Places, c: nat, g: nat)
    requires Shape(tables, places) && IsRoot(places, c) && Bare(tables, places, c)
    requires g in tables && places[g].root == c && places[g].level <= 4
    ensures g == c
    decreases 4 - places[g].level
  {
    assert TablePlaced(tables, places, g);
    if places[g].level < 4 {
      assert TablePlaced(tables, places, places[g].up);
      BareRootIsAlone(tables, places, c, places[g].up);
    }
  }

  lemma DropRoot(tables: Tables, places: Places, c: nat)
    requires Shape(tables, places) && IsRoot(places, c) && Bare(tables, places, c)
    ensures Shape(tables - {c}, places - {c})
    ensures Spaces(tables - {c}, places - {c}) == Spaces(tables, places) - {c}
  {
    var tables' := tables - {c};
    var places' := places - {c};
    forall g | g in tables'
      ensures TablePlaced(tables', places', g)
    {
      assert TablePlaced(tables, places, g);
      if places[g].root == c {
        BareRootIsAlone(tables, places, c, g);
      }
      if places[g].level < 4 {
        assert TablePlaced(tables, places, places[g].up);
      }
      forall k | 0 <= k < UserPart(places[g].level)
        ensures EntryPlaced(tables', places', g, k)
      {
        assert EntryPlaced(tables, places, g, k);
      }
    }
    forall q | IsRoot(places', q)
      ensures SpaceOf(tables', q) == SpaceOf(tables, q)
    {
      assert TablePlaced(tables, places, c);
      forall w | ValidPage(w)
        ensures Walk(tables', q, w) == Walk(tables, q, w)
      {
        ApartWalk(tables, tables', places, c, q, w);
      }
      SameWalks(tables, tables', q);
    }
  }

  // ---------- Reading one entry ----------

  /** A present entry above L1 leads to the table placed under it. */
  lemma ChildPlaced(tables: Tables, places: Places, f: nat, i: nat)
    requires Shape(tables, places) && f in places && i < UserPart(places[f].level)
    ensures f in tables && |tables[f]| == ENTRY_COUNT && places[f].root in places
    ensures tables[f][i].Present? && places[f].level > 1 ==>
              tables[f][i].entry.frame in places
              && places[tables[f][i].entry.frame] == Place(places[f].level - 1, f, i, places[f].root)
  {
    assert TablePlaced(tables, places, f);
    assert EntryPlaced(tables, places, f, i);
  }

  /** Where the chain of tables above a table leads. */
  lemma ChainUp(tables: Tables, places: Places, f: nat)
    requires Shape(tables, places) && f in places
    ensures IsRoot(places, places[f].root)
    ensures places[f].level == 4 ==> places[f].root == f
    ensures places[f].level < 4 ==>
              && places[f].up in places && places[places[f].up].level == places[f].level + 1
              && places[places[f].up].root == places[f].root
              && places[f].index < UserPart(places[f].level + 1)
              && At(tables, places[f].up, places[f].index).Present?
              && At(tables, places[f].up, places[f].index).entry.frame == f
  {
    assert TablePlaced(tables, places, f);
  }

  /** Under an absent entry nothing is mapped. */
  lemma NothingUnderL4(tables: Tables, root: nat, v: Vpn)
    requires At(tables, root, v.i4).Absent?
    ensures Walk(tables, root, v).Absent?
  {
  }

  lemma NothingUnderL3(tables: Tables, places: Places, l3: nat, v: Vpn)
    requires Shape(tables, places) && l3 in places && places[l3].level == 3
    requires v.i4 == places[l3].index && At(tables, l3, v.i3).Absent?
    ensures Walk(tables, places[l3].root, v).Absent?
  {
    ChainUp(tables, places, l3);
    ChainUp(tables, places, places[l3].up);
  }

  lemma NothingUnderL2(tables: Tables, places: Places, l2: nat, v: Vpn)
    requires Shape(tables, places) && l2 in places && places[l2].level == 2 && places[l2].up in places
    requires v.i4 == places[places[l2].up].index && v.i3 == places[l2].index && At(tables, l2, v.i2).Absent?
    ensures Walk(tables, places[l2].root, v).Absent?
  {
    ChainUp(tables, places, l2);
    ChainUp(tables, places, places[l2].up);
    ChainUp(tables, places, places[places[l2].up].up);
  }

  /** Every frame with count zero is unused: nothing maps it and nothing holds it. */
  ghost predicate Safe(s: Sys) {
    && s.spaces.Keys <= s.held.Keys
    && forall f {:trigger Free(s, f)} :: Free(s, f) ==> f !in s.held && UnusedBy(s.spaces, f)
  }

  ghost predicate UnusedBy(spaces: map<nat, Space>, f: nat) {
    forall r, v :: r in spaces && v in spaces[r] ==> spaces[r][v].frame != f
  }

  lemma InvIsSafe(s: Sys)
    requires Inv(s)
    ensures Safe(s)
  {
    forall f | Free(s, f)
      ensures f !in s.held && UnusedBy(s.spaces, f)
    {
      FreeIsUnused(s, f);
    }
  }

  /** Taking a free frame leaves the other free frames unused. */
  lemma SafeTake(a: Sys, b: Sys, c: nat)
    requires Safe(a) && c in a.counts && b.spaces == a.spaces && b.counts == a.counts[c := 1]
    requires b.held == a.held || b.held == a.held[c := 1]
    ensures Safe(b)
  {
    forall f | Free(b, f)
      ensures f !in b.held && UnusedBy(b.spaces, f)
    {
      assert Free(a, f);
    }
  }

  /** A frame the machine counts as free is no table and under no entry. */
  lemma FreeNotMapped(tables: Tables, places: Places, s: Sys, c: nat)
    requires Shape(tables, places) && Safe(s) && Free(s, c)
    requires s.spaces == Spaces(tables, places) && tables.Keys <= s.held.Keys
    ensures c !in tables && c !in places && NotMapped(tables, places, c)
  {
    forall f, i | f in tables && places[f].level == 1 && 0 <= i < |tables[f]| && tables[f][i].Present?
      ensures tables[f][i].entry.frame != c
    {
      assert TablePlaced(tables, places, f);
      PageOfValid(tables, places, f, i);
      var r, v := places[f].root, PageOf(places, f, i);
      InSpace(tables, r, v);
      assert s.spaces[r] == SpaceOf(tables, r);
      assert UnusedBy(s.spaces, c);
    }
  }
}
