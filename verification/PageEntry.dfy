/** Page-table entries and virtual addresses as machine words. */
module PageEntry {
  import opened CowSpec
  import opened PageTables
  import opened PageOrder

  const PRESENT: bv64 := 0x1
  const WRITABLE: bv64 := 0x2
  const USER_ACCESSIBLE: bv64 := 0x4
  const COPY_ON_WRITE: bv64 := 0x200
  const NO_EXECUTE: bv64 := 0x8000_0000_0000_0000
  const FLAG_MASK: bv64 := 0xFFF
  const ADDRESS_MASK: bv64 := 0x000F_FFFF_FFFF_F000

  function Flags(raw: bv64): bv64 {
    raw & FLAG_MASK
  }

  function Address(raw: bv64): bv64 {
    raw & ADDRESS_MASK
  }

  predicate Contains(flags: bv64, other: bv64) {
    flags & other == other
  }

  /** The word `set` stores. */
  function Set(addr: bv64, flags: bv64): bv64 {
    (addr & ADDRESS_MASK) | flags
  }

  /** Address and flags of an entry are what `set` was given; flags above the low twelve bits do not come back. */
  lemma SetRoundTrip(addr: bv64, flags: bv64)
    requires flags & ADDRESS_MASK == 0
    ensures Address(Set(addr, flags)) == addr & ADDRESS_MASK
    ensures Flags(Set(addr, flags)) == flags & FLAG_MASK
    ensures addr & ADDRESS_MASK == addr && flags & FLAG_MASK == flags ==>
              Address(Set(addr, flags)) == addr && Flags(Set(addr, flags)) == flags
  {
  }

  /** The frame an address names. */
  function FrameOf(addr: bv64): nat {
    (addr & ADDRESS_MASK) as nat / PAGE_SIZE
  }

  /** The table entry a word stands for. */
  function Decoded(raw: bv64): Pte {
    if !Contains(Flags(raw), PRESENT) then Absent
    else
      Present(Entry(FrameOf(raw), Contains(Flags(raw), WRITABLE), Contains(Flags(raw), USER_ACCESSIBLE),
                    Contains(Flags(raw), COPY_ON_WRITE)))
  }

  /** Which bits of a word an entry is made of: present 0, writable 1, user 2, copy-on-write 9, frame 12 to 51. */
  lemma EntryBits(raw: bv64)
    ensures raw & 0x1 == 0 ==> Decoded(raw) == Absent
    ensures raw & 0x1 != 0 ==>
              Decoded(raw) == Present(Entry(FrameOf(raw), raw & 0x2 != 0, raw & 0x4 != 0, raw & 0x200 != 0))
  {
    hide FrameOf;
    OneBit(raw);
    hide Flags, Contains;
  }

  lemma OneBit(raw: bv64)
    ensures Contains(Flags(raw), PRESENT) <==> raw & 0x1 != 0
    ensures Contains(Flags(raw), WRITABLE) <==> raw & 0x2 != 0
    ensures Contains(Flags(raw), USER_ACCESSIBLE) <==> raw & 0x4 != 0
    ensures Contains(Flags(raw), COPY_ON_WRITE) <==> raw & 0x200 != 0
  {
  }

  /** The words fork writes, for the parent and for the child. */
  function SharedWord(raw: bv64): bv64 {
    if Contains(Flags(raw), WRITABLE) then Set(Address(raw), (Flags(raw) & !WRITABLE) | COPY_ON_WRITE)
    else Set(Address(raw), Flags(raw))
  }

  /** The word the copy-on-write handler writes. */
  function CopiedWord(raw: bv64, newAddr: bv64): bv64 {
    Set(newAddr, (Flags(raw) | WRITABLE) & !COPY_ON_WRITE)
  }

  /** Words with the same address and the same four flags are the same entry. */
  lemma SameEntry(raw: bv64, addr: bv64, writable: bool, user: bool, cow: bool)
    requires Address(raw) == addr & ADDRESS_MASK && Contains(Flags(raw), PRESENT)
    requires Contains(Flags(raw), WRITABLE) == writable && Contains(Flags(raw), USER_ACCESSIBLE) == user
    requires Contains(Flags(raw), COPY_ON_WRITE) == cow
    ensures Decoded(raw) == Present(Entry(FrameOf(addr), writable, user, cow))
  {
    hide Flags, Contains;
  }

  /** Fork's bit operations are the sharing step: same frame, read-only, copy-on-write if it was writable. */
  lemma SharedWordDecodes(raw: bv64)
    requires Decoded(raw).Present?
    ensures Decoded(SharedWord(raw)) == Present(Shared(Decoded(raw).entry))
  {
    hide FrameOf;
    SharedAddress(raw);
    SharedFlags(raw);
    var e := Shared(Decoded(raw).entry);
    SameEntry(SharedWord(raw), raw, e.writable, e.user, e.cow);
  }

  lemma SharedAddress(raw: bv64)
    ensures Address(SharedWord(raw)) == Address(raw)
  {
  }

  lemma SharedFlags(raw: bv64)
    ensures var flags, after := Flags(raw), Flags(SharedWord(raw));
            && (Contains(after, PRESENT) <==> Contains(flags, PRESENT))
            && (Contains(after, USER_ACCESSIBLE) <==> Contains(flags, USER_ACCESSIBLE))
            && !Contains(after, WRITABLE)
            && (Contains(after, COPY_ON_WRITE) <==> Contains(flags, COPY_ON_WRITE) || Contains(flags, WRITABLE))
  {
    SharedKeeps(raw);
    SharedMarks(raw);
    hide SharedWord, Flags, Contains;
  }

  lemma SharedKeeps(raw: bv64)
    ensures Contains(Flags(SharedWord(raw)), PRESENT) <==> Contains(Flags(raw), PRESENT)
    ensures Contains(Flags(SharedWord(raw)), USER_ACCESSIBLE) <==> Contains(Flags(raw), USER_ACCESSIBLE)
  {
  }

  lemma SharedMarks(raw: bv64)
    ensures !Contains(Flags(SharedWord(raw)), WRITABLE)
    ensures Contains(Flags(SharedWord(raw)), COPY_ON_WRITE)
            <==> Contains(Flags(raw), COPY_ON_WRITE) || Contains(Flags(raw), WRITABLE)
  {
  }

  /** The fault handler's bit operations make the page present, writable and private, in the new frame. */
  lemma CopiedWordDecodes(raw: bv64, newAddr: bv64)
    requires Decoded(raw).Present?
    ensures Decoded(CopiedWord(raw, newAddr)) == Present(Entry(FrameOf(newAddr), true, Decoded(raw).entry.user, false))
  {
    hide FrameOf;
    var flags := (Flags(raw) | WRITABLE) & !COPY_ON_WRITE;
    assert flags & ADDRESS_MASK == 0 && flags & FLAG_MASK == flags;
    SetRoundTrip(newAddr, flags);
    CopiedFlags(Flags(raw));
    SameEntry(CopiedWord(raw, newAddr), newAddr, true, Decoded(raw).entry.user, false);
  }

  lemma CopiedFlags(flags: bv64)
    ensures var after := (flags | WRITABLE) & !COPY_ON_WRITE;
            && (Contains(after, PRESENT) <==> Contains(flags, PRESENT))
            && (Contains(after, USER_ACCESSIBLE) <==> Contains(flags, USER_ACCESSIBLE))
            && Contains(after, WRITABLE) && !Contains(after, COPY_ON_WRITE)
  {
  }

  /** The flags of a fresh user page, with or without the no-execute bit. */
  function PageFlags(writable: bool, noExecute: bool): bv64 {
    PRESENT | USER_ACCESSIBLE | (if writable then WRITABLE else 0) | (if noExecute then NO_EXECUTE else 0)
  }

  /** Mapping a page writes the entry of a fresh page; the no-execute bit leaves no trace in it. */
  lemma MappedWordDecodes(addr: bv64, writable: bool, noExecute: bool)
    ensures Decoded(Set(addr, PageFlags(writable, noExecute))) == Present(Entry(FrameOf(addr), writable, true, false))
  {
    hide FrameOf;
    SetRoundTrip(addr, PageFlags(writable, noExecute));
    SameEntry(Set(addr, PageFlags(writable, noExecute)), addr, writable, true, false);
  }

  /** The word of a table pointer is the pointer, and a cleared word is no entry. */
  lemma PointerWordDecodes(addr: bv64)
    ensures Decoded(Set(addr, PRESENT | WRITABLE | USER_ACCESSIBLE)) == Pointer(FrameOf(addr))
    ensures Decoded(0) == Absent
  {
    MappedWordDecodes(addr, true, false);
  }

  // ---------- Virtual addresses ----------

  const USER_SPACE_MAX: nat := 0x0000_8000_0000_0000

  /** Shifting right and masking nine bits, as division and remainder. */
  function Indices4(addr: nat): Vpn {
    Vpn((addr / 0x80_0000_0000) % 512, (addr / 0x4000_0000) % 512, (addr / 0x20_0000) % 512, (addr / 0x1000) % 512)
  }

  function PageAddress(v: Vpn): nat {
    Num(v) * PAGE_SIZE
  }

  /** Dividing by a page and then by table sizes is dividing by the product. */
  lemma Nested(addr: nat)
    ensures addr / 0x20_0000 == addr / 0x1000 / 512
    ensures addr / 0x4000_0000 == addr / 0x20_0000 / 512
    ensures addr / 0x80_0000_0000 == addr / 0x4000_0000 / 512
  {
  }

  /** The four indices of a user address are the digits of its page number. */
  lemma IndicesOfAddress(addr: nat)
    requires addr < USER_SPACE_MAX
    ensures ValidPage(Indices4(addr)) && Num(Indices4(addr)) == addr / PAGE_SIZE
  {
    Nested(addr);
    var n := addr / 0x1000;
    var a := n / 512;
    var b := a / 512;
    var c := b / 512;
    assert n == a * 512 + n % 512 && a == b * 512 + a % 512 && b == c * 512 + b % 512;
  }

  /** Two user addresses have the same indices exactly when they are in the same page. */
  lemma IndicesInjective(a: nat, b: nat)
    requires a < USER_SPACE_MAX && b < USER_SPACE_MAX
    ensures Indices4(a) == Indices4(b) <==> a / PAGE_SIZE == b / PAGE_SIZE
  {
    IndicesOfAddress(a);
    IndicesOfAddress(b);
    NumOrder(Indices4(a), Indices4(b));
  }

  /** Every page has an address, and its indices are the page again. */
  lemma AddressOfPage(v: Vpn)
    requires ValidPage(v)
    ensures PageAddress(v) < USER_SPACE_MAX && Indices4(PageAddress(v)) == v
  {
    NumOrder(v, Vpn(256, 0, 0, 0));
    assert Num(Vpn(256, 0, 0, 0)) * PAGE_SIZE == USER_SPACE_MAX;
    IndicesOfAddress(PageAddress(v));
    NumOrder(v, Indices4(PageAddress(v)));
  }
}
