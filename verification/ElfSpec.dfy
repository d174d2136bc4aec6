/** ELF64 executables as values: what a file says, and the memory image it asks for (System V gABI, chapter 5). */
module ElfSpec {
  import opened Wrappers
  import opened CowSpec
  import opened PageTables
  import opened PageEntry
  import opened LittleEndian

  type Bytes = seq<bv8>

  const HEADER_SIZE := 64
  const PHDR_SIZE := 56
  const PT_LOAD := 1

  datatype ElfError =
    | InvalidMagic | InvalidClass | InvalidEndian | InvalidVersion | NotExecutable | WrongMachine
    | FileTooSmall | InvalidPhdrOffset | InvalidPhdrCount | InvalidSize

  datatype Segment = Segment(vaddr: nat, offset: nat, filesz: nat, memsz: nat, writable: bool)

  datatype ElfInfo = ElfInfo(entry: nat, segments: seq<Segment>, phdrAddr: nat, phnum: nat)

  /** A little-endian field of n bytes. */
  function Le(data: Bytes, at: nat, n: nat): nat
    requires at + n <= |data|
    decreases n
  {
    if n == 0 then 0 else data[at] as nat + 256 * Le(data, at + 1, n - 1)
  }

  /** The first thing wrong with the file header. */
  function HeaderFault(data: Bytes): Option<ElfError> {
    if |data| < HEADER_SIZE then Some(FileTooSmall)
    else if data[0..4] != [0x7f, 0x45, 0x4c, 0x46] then Some(InvalidMagic)
    else if data[4] != 2 then Some(InvalidClass)
    else if data[5] != 1 then Some(InvalidEndian)
    else if data[6] != 1 || Le(data, 20, 4) != 1 then Some(InvalidVersion)
    else if Le(data, 16, 2) != 2 then Some(NotExecutable)
    else if Le(data, 18, 2) != 62 then Some(WrongMachine)
    else if Le(data, 54, 2) != PHDR_SIZE then Some(InvalidPhdrOffset)
    else if Le(data, 56, 2) > 8 then Some(InvalidPhdrCount)
    else None
  }

  function PhdrOffset(data: Bytes, i: nat): nat
    requires |data| >= HEADER_SIZE
  {
    Le(data, 32, 8) + i * PHDR_SIZE
  }

  /** The first thing wrong with a program header. */
  function PhdrFault(data: Bytes, i: nat): Option<ElfError>
    requires |data| >= HEADER_SIZE
  {
    var at := PhdrOffset(data, i);
    if at + PHDR_SIZE > |data| then Some(InvalidPhdrOffset)
    else if Le(data, at, 4) != PT_LOAD then None
    else if Le(data, at + 32, 8) > Le(data, at + 40, 8) then Some(InvalidSize)
    else if Le(data, at + 8, 8) + Le(data, at + 32, 8) >= TWO64 then Some(InvalidSize)
    else if Le(data, at + 8, 8) + Le(data, at + 32, 8) > |data| then Some(InvalidSize)
    else None
  }

  function SegmentAt(data: Bytes, at: nat): Segment
    requires at + PHDR_SIZE <= |data|
  {
    Segment(Le(data, at + 16, 8), Le(data, at + 8, 8), Le(data, at + 32, 8), Le(data, at + 40, 8),
            (Le(data, at + 4, 4) / 2) % 2 == 1)
  }

  /** The loadable segments among the first k program headers, in file order. */
  function Loads(data: Bytes, k: nat): seq<Segment>
    requires |data| >= HEADER_SIZE && forall i :: 0 <= i < k ==> PhdrFault(data, i).None?
  {
    if k == 0 then []
    else
      assert PhdrFault(data, k - 1).None?;
      var at := PhdrOffset(data, k - 1);
      Loads(data, k - 1) + if Le(data, at, 4) == PT_LOAD then [SegmentAt(data, at)] else []
  }

  /** The bytes of the segment that come from the file lie in the file. */
  predicate InFile(data: Bytes, seg: Segment) {
    seg.filesz <= seg.memsz && seg.offset + seg.filesz <= |data|
  }

  /** Nothing is wrong with the file header or a program header. */
  ghost predicate Parses(data: Bytes) {
    HeaderFault(data).None? && forall i :: 0 <= i < Le(data, 56, 2) ==> PhdrFault(data, i).None?
  }

  /** The segments of a file that parses. */
  ghost function Program(data: Bytes): seq<Segment> {
    if Parses(data) then Loads(data, Le(data, 56, 2)) else []
  }

  lemma {:induction false} LoadsInFile(data: Bytes, k: nat)
    requires |data| >= HEADER_SIZE && forall i :: 0 <= i < k ==> PhdrFault(data, i).None?
    ensures |Loads(data, k)| <= k && forall j :: 0 <= j < |Loads(data, k)| ==> InFile(data, Loads(data, k)[j])
  {
    hide Le;
    if k > 0 {
      assert PhdrFault(data, k - 1).None?;
      LoadsInFile(data, k - 1);
    }
  }

  // ---------- The memory image ----------

  function FirstPage(seg: Segment): nat { seg.vaddr / PAGE_SIZE }
  function EndPage(seg: Segment): nat { (seg.vaddr + seg.memsz + (PAGE_SIZE - 1)) / PAGE_SIZE }

  predicate Touches(seg: Segment, n: nat) {
    FirstPage(seg) <= n < EndPage(seg)
  }

  /** The segment lies in the user half. */
  predicate InUserHalf(seg: Segment) {
    seg.vaddr + seg.memsz <= USER_SPACE_MAX
  }

  lemma PagesInUserHalf(seg: Segment, n: nat)
    requires InUserHalf(seg) && n < EndPage(seg)
    ensures n * PAGE_SIZE + PAGE_SIZE <= USER_SPACE_MAX
  {
    assert (n + 1) * PAGE_SIZE <= seg.vaddr + seg.memsz + (PAGE_SIZE - 1);
    assert USER_SPACE_MAX == 0x8_0000_0000 * PAGE_SIZE;
  }

  lemma PageOrderOk(seg: Segment)
    ensures FirstPage(seg) <= EndPage(seg)
  {
  }

  function PageAt(n: nat): Vpn { Indices4(n * PAGE_SIZE) }

  /** What the specification puts at an address of a segment's pages: file bytes, then zeros. */
  function SegmentByte(seg: Segment, data: Bytes, addr: nat): bv8
    requires InFile(data, seg)
  {
    if seg.vaddr <= addr < seg.vaddr + seg.filesz then data[seg.offset + (addr - seg.vaddr)] else 0
  }

  function PageImage(seg: Segment, data: Bytes, n: nat): (page: Page)
    requires InFile(data, seg)
    ensures |page| == PAGE_SIZE
  {
    seq(PAGE_SIZE, k requires 0 <= k < PAGE_SIZE => SegmentByte(seg, data, n * PAGE_SIZE + k))
  }

  /** A view of an address space with the first k pages of a segment added. */
  function WithPages(pages: map<Vpn, OwnPage>, seg: Segment, data: Bytes, k: nat): map<Vpn, OwnPage>
    requires InFile(data, seg)
    decreases k
  {
    if k == 0 then pages
    else
      var n := FirstPage(seg) + (k - 1);
      WithPages(pages, seg, data, k - 1)[PageAt(n) := OwnPage(PageImage(seg, data, n), seg.writable)]
  }

  function PageCount(seg: Segment): nat {
    PageOrderOk(seg);
    EndPage(seg) - FirstPage(seg)
  }

  function WithSegments(pages: map<Vpn, OwnPage>, segs: seq<Segment>, data: Bytes): map<Vpn, OwnPage>
    requires forall i :: 0 <= i < |segs| ==> InFile(data, segs[i])
    decreases |segs|
  {
    if segs == [] then pages
    else
      var last := segs[|segs| - 1];
      WithPages(WithSegments(pages, segs[..|segs| - 1], data), last, data, PageCount(last))
  }

  lemma PageAtInjective(m: nat, n: nat)
    requires m * PAGE_SIZE + PAGE_SIZE <= USER_SPACE_MAX && n * PAGE_SIZE + PAGE_SIZE <= USER_SPACE_MAX
    ensures ValidPage(PageAt(n)) && (PageAt(m) == PageAt(n) <==> m == n)
  {
    IndicesInjective(m * PAGE_SIZE, n * PAGE_SIZE);
    IndicesOfAddress(n * PAGE_SIZE);
  }

  /** A page of the first k of a segment holds the segment's image; every other page is as it was. */
  lemma {:induction false} WithPagesAt(pages: map<Vpn, OwnPage>, seg: Segment, data: Bytes, k: nat, n: nat)
    requires InFile(data, seg) && InUserHalf(seg) && k <= PageCount(seg)
    requires n * PAGE_SIZE + PAGE_SIZE <= USER_SPACE_MAX
    ensures var after := WithPages(pages, seg, data, k);
            if FirstPage(seg) <= n < FirstPage(seg) + k then
              PageAt(n) in after && after[PageAt(n)] == OwnPage(PageImage(seg, data, n), seg.writable)
            else
              && (PageAt(n) in after <==> PageAt(n) in pages)
              && (PageAt(n) in pages ==> after[PageAt(n)] == pages[PageAt(n)])
    decreases k
  {
    hide PageImage, PageAt;
    if k > 0 {
      WithPagesAt(pages, seg, data, k - 1, n);
      PagesInUserHalf(seg, FirstPage(seg) + (k - 1));
      PageAtInjective(FirstPage(seg) + (k - 1), n);
    }
  }

  /** Segments that touch disjoint pages, none of them mapped before. */
  ghost predicate Apart(pages: map<Vpn, OwnPage>, segs: seq<Segment>) {
    && (forall i, n {:trigger Touches(segs[i], n)} :: 0 <= i < |segs| && Touches(segs[i], n) ==> PageAt(n) !in pages)
    && (forall i, j, n {:trigger Touches(segs[i], n), Touches(segs[j], n)} ::
          0 <= i < j < |segs| ==> !(Touches(segs[i], n) && Touches(segs[j], n)))
  }

  ghost predicate Loadable(data: Bytes, segs: seq<Segment>) {
    forall i :: 0 <= i < |segs| ==> InFile(data, segs[i]) && InUserHalf(segs[i])
  }

  /** With disjoint pages, each page of each segment holds that segment's image. */
  lemma {:induction false} ImageOfPage(pages: map<Vpn, OwnPage>, segs: seq<Segment>, data: Bytes, i: nat, n: nat)
    requires Loadable(data, segs) && Apart(pages, segs)
    requires i < |segs| && Touches(segs[i], n)
    ensures var after := WithSegments(pages, segs, data);
            PageAt(n) in after && after[PageAt(n)] == OwnPage(PageImage(segs[i], data, n), segs[i].writable)
    decreases |segs|
  {
    hide PageImage, PageAt;
    var last := |segs| - 1;
    var before := WithSegments(pages, segs[..last], data);
    PagesInUserHalf(segs[i], n);
    WithPagesAt(before, segs[last], data, PageCount(segs[last]), n);
    if i < last {
      assert segs[..last][i] == segs[i];
      ApartPrefix(pages, segs);
      ImageOfPage(pages, segs[..last], data, i, n);
      assert !Touches(segs[last], n);
    }
  }

  lemma ApartPrefix(pages: map<Vpn, OwnPage>, segs: seq<Segment>)
    requires segs != [] && Apart(pages, segs)
    ensures Apart(pages, segs[..|segs| - 1])
  {
    var less := segs[..|segs| - 1];
    forall i, n | 0 <= i < |less| && Touches(less[i], n)
      ensures PageAt(n) !in pages
    {
      assert Touches(segs[i], n);
    }
    forall i, j, n | 0 <= i < j < |less|
      ensures !(Touches(less[i], n) && Touches(less[j], n))
    {
      assert less[i] == segs[i] && less[j] == segs[j];
    }
  }

  /** A page no segment touches is as it was. */
  lemma {:induction false} UntouchedPage(pages: map<Vpn, OwnPage>, segs: seq<Segment>, data: Bytes, n: nat)
    requires Loadable(data, segs) && n * PAGE_SIZE + PAGE_SIZE <= USER_SPACE_MAX
    requires forall i :: 0 <= i < |segs| ==> !Touches(segs[i], n)
    ensures var after := WithSegments(pages, segs, data);
            && (PageAt(n) in after <==> PageAt(n) in pages)
            && (PageAt(n) in pages ==> after[PageAt(n)] == pages[PageAt(n)])
    decreases |segs|
  {
    hide PageImage, PageAt;
    if segs != [] {
      var last := |segs| - 1;
      UntouchedPage(pages, segs[..last], data, n);
      WithPagesAt(WithSegments(pages, segs[..last], data), segs[last], data, PageCount(segs[last]), n);
      assert !Touches(segs[last], n);
    }
  }

  /** The byte a process sees at a user address. */
  ghost function ByteAt(pages: map<Vpn, OwnPage>, addr: nat): Option<bv8> {
    var v := Indices4(addr);
    if v in pages && addr % PAGE_SIZE < |pages[v].bytes| then Some(pages[v].bytes[addr % PAGE_SIZE]) else None
  }

  /** The image, byte by byte: the file's bytes where the file has them, zero on the rest of the segment's pages. */
  lemma ImageOfByte(pages: map<Vpn, OwnPage>, segs: seq<Segment>, data: Bytes, i: nat, addr: nat)
    requires Loadable(data, segs) && Apart(pages, segs)
    requires i < |segs| && Touches(segs[i], addr / PAGE_SIZE)
    ensures ByteAt(WithSegments(pages, segs, data), addr) == Some(SegmentByte(segs[i], data, addr))
  {
    hide WithSegments, Apart, Indices4;
    var n := addr / PAGE_SIZE;
    ImageOfPage(pages, segs, data, i, n);
    PagesInUserHalf(segs[i], n);
    IndicesInjective(addr, n * PAGE_SIZE);
    assert addr == n * PAGE_SIZE + addr % PAGE_SIZE;
  }

  /** Every byte a segment asks for is on one of its pages. */
  lemma SegmentCovered(seg: Segment, addr: nat)
    requires seg.vaddr <= addr < seg.vaddr + seg.memsz
    ensures Touches(seg, addr / PAGE_SIZE)
  {
  }
}
