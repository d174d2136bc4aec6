/** Parsing an executable and loading it into an address space. */
module ElfLoader {
  import opened Wrappers
  import opened CowSpec
  import opened PageTables
  import opened PageEntry
  import opened FrameAllocators
  import opened LittleEndian
  import opened Mmus
  import opened MmuSteps
  import opened ElfSpec
  import opened ElfFormat

  /** What a caller is told of an executable: its entry, its segments, and where its program headers are in memory. */
  ghost predicate Reports(exe: Executable, info: ElfInfo) {
    && info.entry == exe.header.entry && info.phnum == |exe.phdrs| && AskedFor(exe.phdrs, info.segments)
    && info.phdrAddr == if exe.header.phoff < 4096 && info.segments != []
                        then info.segments[0].vaddr + exe.header.phoff else 0
  }

  /** Program headers on the first page of the file are taken to be mapped with the first segment. */
  ghost function PhdrAddr(data: Bytes, segs: seq<Segment>): nat
    requires |data| >= HEADER_SIZE
  {
    if Le(data, 32, 8) < 0x1000 && segs != [] then segs[0].vaddr + Le(data, 32, 8) else 0
  }

  lemma WrittenReports(data: Bytes, exe: Executable)
    requires IsFile(data, exe) && Parses(data)
    ensures Reports(exe, ElfInfo(Le(data, 24, 8), Program(data), PhdrAddr(data, Program(data)), Le(data, 56, 2)))
  {
    hide Le, IsFile;
    WrittenParses(data, exe);
    FileReads(data, exe);
  }

  /** Checks the file header, then each program header in turn. */
  method ParseElf(data: Bytes) returns (r: Result<ElfInfo, ElfError>)
    ensures r.Ok? <==> Takable(data)
    ensures r.Ok? ==> forall exe :: IsFile(data, exe) ==> Reports(exe, r.value)
    ensures r.Ok? ==> HeaderFault(data).None? && forall i :: 0 <= i < Le(data, 56, 2) ==> PhdrFault(data, i).None?
    ensures r.Ok? ==> r.value.phnum == Le(data, 56, 2) && r.value.segments == Loads(data, r.value.phnum)
    ensures r.Ok? ==> r.value.entry == Le(data, 24, 8) && |r.value.segments| <= 8
    ensures r.Ok? ==> forall j :: 0 <= j < |r.value.segments| ==> InFile(data, r.value.segments[j])
    ensures r.Ok? ==> r.value.phdrAddr == PhdrAddr(data, r.value.segments)
    ensures r.Err? ==> HeaderFault(data) == Some(r.error) ||
                       (HeaderFault(data).None? &&
                        exists i :: 0 <= i < Le(data, 56, 2) && PhdrFault(data, i) == Some(r.error)
                                    && forall j :: 0 <= j < i ==> PhdrFault(data, j).None?)
  {
    hide Le, IsFile, Takable, Reports;
    ParsesIff(data);
    forall exe | IsFile(data, exe) && Parses(data)
      ensures Reports(exe, ElfInfo(Le(data, 24, 8), Program(data), PhdrAddr(data, Program(data)), Le(data, 56, 2)))
    {
      WrittenReports(data, exe);
    }
    if |data| < HEADER_SIZE {
      return Err(FileTooSmall);
    }
    if data[0..4] != [0x7f, 0x45, 0x4c, 0x46] {
      return Err(InvalidMagic);
    }
    if data[4] != 2 {
      return Err(InvalidClass);
    }
    if data[5] != 1 {
      return Err(InvalidEndian);
    }
    if data[6] != 1 || Le(data, 20, 4) != 1 {
      return Err(InvalidVersion);
    }
    if Le(data, 16, 2) != 2 {
      return Err(NotExecutable);
    }
    if Le(data, 18, 2) != 62 {
      return Err(WrongMachine);
    }
    if Le(data, 54, 2) != PHDR_SIZE {
      return Err(InvalidPhdrOffset);
    }
    var phoff, phnum := Le(data, 32, 8), Le(data, 56, 2);
    if phnum > 8 {
      return Err(InvalidPhdrCount);
    }
    var segments: seq<Segment> := [];
    for i := 0 to phnum
      invariant forall j :: 0 <= j < i ==> PhdrFault(data, j).None?
      invariant segments == Loads(data, i)
    {
      var at := phoff + i * PHDR_SIZE;
      if at + PHDR_SIZE > |data| {
        assert PhdrFault(data, i) == Some(InvalidPhdrOffset);
        return Err(InvalidPhdrOffset);
      }
      if Le(data, at, 4) == PT_LOAD {
        var offset, filesz, memsz := Le(data, at + 8, 8), Le(data, at + 32, 8), Le(data, at + 40, 8);
        if filesz > memsz || offset + filesz >= TWO64 || offset + filesz > |data| {
          assert PhdrFault(data, i) == Some(InvalidSize);
          return Err(InvalidSize);
        }
        segments := segments + [SegmentAt(data, at)];
      }
      assert PhdrFault(data, i).None?;
    }
    LoadsInFile(data, phnum);
    var phdrAddr := if phoff < 0x1000 && |segments| > 0 then segments[0].vaddr + phoff else 0;
    return Ok(ElfInfo(Le(data, 24, 8), segments, phdrAddr, phnum));
  }

  /** The heap starts on the first page boundary past every segment. */
  method CalculateHeapStart(segs: seq<Segment>) returns (start: nat)
    ensures start % PAGE_SIZE == 0
    ensures forall i, n: nat :: 0 <= i < |segs| && Touches(segs[i], n) ==> n * PAGE_SIZE + PAGE_SIZE <= start
    ensures start == 0 || exists i :: 0 <= i < |segs| && start == EndPage(segs[i]) * PAGE_SIZE
  {
    var maxAddr := 0;
    ghost var k := 0;
    for i := 0 to |segs|
      invariant forall j :: 0 <= j < i ==> segs[j].vaddr + segs[j].memsz <= maxAddr
      invariant maxAddr == 0 || (0 <= k < i && maxAddr == segs[k].vaddr + segs[k].memsz)
    {
      var end := segs[i].vaddr + segs[i].memsz;
      if end > maxAddr {
        maxAddr := end;
        k := i;
      }
    }
    start := (maxAddr + (PAGE_SIZE - 1)) / PAGE_SIZE * PAGE_SIZE;
    forall i, n: nat | 0 <= i < |segs| && Touches(segs[i], n)
      ensures n * PAGE_SIZE + PAGE_SIZE <= start
    {
      PageBelow(n, segs[i].vaddr + segs[i].memsz, maxAddr);
    }
    if maxAddr != 0 {
      assert start == EndPage(segs[k]) * PAGE_SIZE;
    }
  }

  lemma PageBelow(n: nat, end: nat, maxAddr: nat)
    requires end <= maxAddr && n < (end + (PAGE_SIZE - 1)) / PAGE_SIZE
    ensures n * PAGE_SIZE + PAGE_SIZE <= (maxAddr + (PAGE_SIZE - 1)) / PAGE_SIZE * PAGE_SIZE
  {
    assert n + 1 <= (maxAddr + (PAGE_SIZE - 1)) / PAGE_SIZE;
  }

  /** One page of a segment: zeros, then what the file has for it. */
  method BuildPage(seg: Segment, data: Bytes, n: nat) returns (page: Page)
    requires InFile(data, seg) && FirstPage(seg) <= n
    ensures page == PageImage(seg, data, n)
  {
    page := ZeroPage();
    var pageVaddr := n * PAGE_SIZE;
    if pageVaddr < seg.vaddr + seg.filesz {
      var offsetInSegment := if pageVaddr >= seg.vaddr then pageVaddr - seg.vaddr else 0;
      var fileOffset := seg.offset + offsetInSegment;
      var offsetInPage := if seg.vaddr > pageVaddr then seg.vaddr - pageVaddr else 0;
      var room, rest := PAGE_SIZE - offsetInPage, seg.filesz - offsetInSegment;
      var count := if room < rest then room else rest;
      if count > 0 && fileOffset < |data| {
        var src := data[fileOffset..][..count];
        page := page[..offsetInPage] + src + page[offsetInPage + count..];
        CopiedPage(seg, data, n, offsetInPage, fileOffset, count);
        return;
      }
    }
    EmptyPage(seg, data, n);
  }

  /** The file's part of a page between zeros is the segment's image of it. */
  lemma CopiedPage(seg: Segment, data: Bytes, n: nat, at: nat, offset: nat, count: nat)
    requires InFile(data, seg) && at + count <= PAGE_SIZE && offset + count <= seg.offset + seg.filesz
    requires n * PAGE_SIZE + at - seg.vaddr == offset - seg.offset >= 0
    requires at > 0 ==> offset == seg.offset
    requires at + count < PAGE_SIZE ==> offset + count == seg.offset + seg.filesz
    ensures ZeroPage()[..at] + data[offset..][..count] + ZeroPage()[at + count..] == PageImage(seg, data, n)
  {
    var src := data[offset..][..count];
    var page := ZeroPage()[..at] + src + ZeroPage()[at + count..];
    forall k | 0 <= k < PAGE_SIZE
      ensures page[k] == SegmentByte(seg, data, n * PAGE_SIZE + k)
    {
      if at <= k < at + count {
        assert page[k] == src[k - at] == data[offset + (k - at)];
      } else {
        assert page[k] == 0;
      }
    }
  }

  lemma EmptyPage(seg: Segment, data: Bytes, n: nat)
    requires InFile(data, seg) && (seg.filesz == 0 || seg.vaddr + seg.filesz <= n * PAGE_SIZE)
    ensures ZeroPage() == PageImage(seg, data, n)
  {
    var image := PageImage(seg, data, n);
    forall k | 0 <= k < PAGE_SIZE
      ensures image[k] == ZeroPage()[k]
    {
      assert SegmentByte(seg, data, n * PAGE_SIZE + k) == 0;
    }
  }

  lemma FreeHasMemory(s: Sys, f: nat)
    requires Inv(s) && Free(s, f)
    ensures f in s.mem
  {
  }

  ghost function Filled(s: Sys, step: Step, bytes: Page): Sys
    requires Inv(s) && step.Demand? && Enabled(s, step)
  {
    Apply(s, step).(mem := Apply(s, step).mem[step.frame := bytes])
  }

  lemma FilledKeepsInv(s: Sys, step: Step, bytes: Page)
    requires Inv(s) && step.Demand? && Enabled(s, step) && |bytes| == PAGE_SIZE
    ensures Inv(Filled(s, step, bytes))
  {
    hide Inv;
    StepKeepsInv(s, step);
    MemoryKeepsInv(Apply(s, step), step.frame, bytes);
  }

  /** Filling a page's fresh frame shows in that page of that address space and nowhere else. */
  lemma FilledView(s: Sys, step: Step, bytes: Page)
    requires Inv(s) && step.Demand? && Enabled(s, step)
    ensures step.root in View(s) && step.page !in View(s)[step.root]
    ensures View(Filled(s, step, bytes)) ==
            View(s)[step.root := View(s)[step.root][step.page := OwnPage(bytes, step.writable)]]
  {
    hide Inv;
    var Demand(root, page, frame, writable, tables) := step;
    var s' := Filled(s, step, bytes);
    FreeIsUnused(s, frame);
    FreeHasMemory(s, frame);
    assert s'.mem == s.mem[frame := bytes];
    OneSpaceChanges(s, s', root, frame);
    FilledShown(s.mem, s.spaces[root], page, Entry(frame, writable, true, false), bytes);
  }

  lemma MemoryKeepsInv(s: Sys, f: nat, bytes: Page)
    requires Inv(s) && f in s.mem && |bytes| == PAGE_SIZE
    ensures Inv(s.(mem := s.mem[f := bytes]))
  {
    var s' := s.(mem := s.mem[f := bytes]);
    forall g | g in s'.counts
      ensures s'.counts[g] == Due(s', g)
    {
      assert Due(s', g) == Due(s, g);
    }
    forall r, v | r in s'.spaces && v in s'.spaces[r]
      ensures EntryOk(s', s'.spaces[r][v])
    {
      assert EntryOk(s, s.spaces[r][v]);
    }
  }

  lemma SameView(s: Sys, s': Sys)
    requires s'.spaces == s.spaces && s'.mem == s.mem
    ensures View(s') == View(s)
  {
  }

  /** At most one frame more is held for nobody. */
  ghost predicate LostOne(before: map<nat, nat>, after: map<nat, nat>) {
    after == before || exists f: nat :: f !in before && after == before[f := 1]
  }

  /** One space may have got more pages; every page that was there shows what it showed. */
  ghost predicate Extends(before: Eager, after: Eager, root: nat) {
    && after.Keys == before.Keys && (forall q :: q in before && q != root ==> after[q] == before[q])
    && (root in before ==> forall v :: v in before[root] ==> v in after[root] && after[root][v] == before[root][v])
  }

  lemma ExtendsMore(before: Eager, middle: Eager, root: nat, v: Vpn, page: OwnPage)
    requires Extends(before, middle, root) && root in middle && v !in middle[root]
    ensures Extends(before, middle[root := middle[root][v := page]], root)
  {
  }

  lemma ExtendsTrans(before: Eager, middle: Eager, after: Eager, root: nat)
    requires Extends(before, middle, root) && Extends(middle, after, root)
    ensures Extends(before, after, root)
  {
  }

  /** `Clash` is the kernel panic on a page that is mapped already. */
  datatype LoadResult = Loaded | NoMemory | Clash

  /** One page: a fresh frame, mapped, zeroed and filled. */
  method LoadPage(mmu: Mmu, root: nat, v: Vpn, writable: bool, page: Page) returns (r: LoadResult)
    requires mmu.Valid() && root in mmu.Abs().spaces && ValidPage(v) && |page| == PAGE_SIZE
    modifies mmu`tables, mmu`pages, mmu`places, mmu`other
    modifies mmu.alloc`nextFrame, mmu.alloc`refcounts, mmu.alloc.bitmap.data
    ensures mmu.Valid() && root in mmu.Abs().spaces
    ensures r.Loaded? ==> root in View(old(mmu.Abs())) && v !in View(old(mmu.Abs()))[root]
    ensures r.Loaded? ==>
              View(mmu.Abs()) == View(old(mmu.Abs()))[root := View(old(mmu.Abs()))[root][v := OwnPage(page, writable)]]
    ensures r.Loaded? ==> mmu.other == old(mmu.other)
    ensures r.Clash? ==> root in View(old(mmu.Abs())) && v in View(old(mmu.Abs()))[root]
    ensures r.NoMemory? ==> mmu.Exhausted()
    ensures !r.Loaded? ==> View(mmu.Abs()) == View(old(mmu.Abs()))
    ensures !r.Loaded? ==> LostOne(old(mmu.other), mmu.other)
  {
    hide FrameAllocator.Counted, FrameAllocator.Valid, FrameAllocator.Counts, Unreserved, Inv, Shape, Spaces, Taken;
    hide Mmu.Exhausted;
    hide Enabled, Apply;
    ghost var a := mmu.Abs();
    var mapped, frame;
    ghost var step;
    mapped, frame, step := mmu.MapFresh(root, v, writable);
    if !mapped.Mapped? {
      SameView(a, mmu.Abs());
    }
    match mapped
    case OutOfMemory => return LoadResult.NoMemory;
    case Remapped => return Clash;
    case Mapped =>
      FilledKeepsInv(a, step, page);
      FilledView(a, step, page);
      mmu.pages := mmu.pages[frame := page];
      assert root in View(mmu.Abs());
      return Loaded;
  }

  /** What a segment's pages cover is covered by the view with the segments before it, or is new. */
  lemma PageWasThere(pages: map<Vpn, OwnPage>, segs: seq<Segment>, data: Bytes, i: nat, n: nat)
    requires Loadable(data, segs) && i < |segs| && Touches(segs[i], n)
    requires PageAt(n) in WithSegments(pages, segs[..i], data)
    ensures !Apart(pages, segs)
  {
    hide PageAt;
    var before := segs[..i];
    PagesInUserHalf(segs[i], n);
    if forall j :: 0 <= j < i ==> !Touches(before[j], n) {
      UntouchedPage(pages, before, data, n);
      assert Touches(segs[i], n) && PageAt(n) in pages;
    } else {
      var j :| 0 <= j < i && Touches(before[j], n);
      assert Touches(segs[j], n) && Touches(segs[i], n);
    }
  }

  lemma ApartSnoc(pages: map<Vpn, OwnPage>, segs: seq<Segment>, data: Bytes, i: nat)
    requires Loadable(data, segs) && i < |segs| && Apart(pages, segs[..i])
    requires forall n: nat :: Touches(segs[i], n) ==> PageAt(n) !in WithSegments(pages, segs[..i], data)
    ensures Apart(pages, segs[..i + 1])
  {
    hide PageAt;
    var before, after := segs[..i], segs[..i + 1];
    forall j, n: nat | 0 <= j < |after| && Touches(after[j], n)
      ensures PageAt(n) !in pages
      ensures j == i ==> forall k :: 0 <= k < i ==> !Touches(after[k], n)
    {
      PagesInUserHalf(after[j], n);
      if j == i {
        forall k | 0 <= k < i
          ensures !Touches(after[k], n)
        {
          if Touches(before[k], n) {
            ImageOfPage(pages, before, data, k, n);
          }
        }
        UntouchedPage(pages, before, data, n);
      } else {
        assert Touches(before[j], n);
      }
    }
    forall j, k, n: nat | 0 <= j < k < |after|
      ensures !(Touches(after[j], n) && Touches(after[k], n))
    {
      if k < i {
        assert after[j] == before[j] && after[k] == before[k];
      }
    }
  }

  /**
   * Loads every segment: on success the address space shows the specified image and every other space what it
   * showed, and the segments touch disjoint pages; a clash means that they do not.
   */
  method LoadElfSegments(mmu: Mmu, root: nat, segs: seq<Segment>, data: Bytes) returns (r: LoadResult)
    requires mmu.Valid() && root in mmu.Abs().spaces && Loadable(data, segs)
    modifies mmu`tables, mmu`pages, mmu`places, mmu`other
    modifies mmu.alloc`nextFrame, mmu.alloc`refcounts, mmu.alloc.bitmap.data
    ensures root in View(old(mmu.Abs())) && mmu.Valid() && root in mmu.Abs().spaces
    ensures Extends(View(old(mmu.Abs())), View(mmu.Abs()), root)
    ensures r.Loaded? ==>
              View(mmu.Abs()) == View(old(mmu.Abs()))[root := WithSegments(View(old(mmu.Abs()))[root], segs, data)]
    ensures r.Loaded? ==> Apart(View(old(mmu.Abs()))[root], segs)
    ensures r.Clash? ==> !Apart(View(old(mmu.Abs()))[root], segs)
    ensures r.NoMemory? ==> mmu.Exhausted()
    ensures if r.Loaded? then mmu.other == old(mmu.other) else LostOne(old(mmu.other), mmu.other)
  {
    hide Extends, LostOne;
    hide Mmu.Exhausted, Mmu.Wired, Mmu.Abs, Inv, Apart, Touches, PageAt, PageImage, WithPages, View;
    ViewRoot(mmu.Abs(), root);
    ghost var view := View(mmu.Abs());
    ghost var pages := view[root];
    NoneApart(pages, segs);
    ExtendsSelf(view, root);
    for i := 0 to |segs|
      invariant mmu.Valid() && root in mmu.Abs().spaces
      invariant View(mmu.Abs()) == view[root := WithSegments(pages, segs[..i], data)]
      invariant Apart(pages, segs[..i]) && Extends(view, View(mmu.Abs()), root) && mmu.other == old(mmu.other)
    {
      ghost var before := View(mmu.Abs());
      r := LoadSegment(mmu, root, segs[i], data);
      ExtendsTrans(view, before, View(mmu.Abs()), root);
      if !r.Loaded? {
        if r.Clash? {
          ghost var n: nat :| Touches(segs[i], n) && PageAt(n) in WithSegments(pages, segs[..i], data);
          PageWasThere(pages, segs, data, i, n);
        }
        return;
      }
      ApartSnoc(pages, segs, data, i);
      assert segs[..i + 1][..i] == segs[..i];
    }
    assert segs[..|segs|] == segs;
    r := Loaded;
  }

  lemma ViewRoot(s: Sys, root: nat)
    requires root in s.spaces
    ensures root in View(s)
  {
  }

  lemma ExtendsSelf(view: Eager, root: nat)
    ensures Extends(view, view, root)
  {
  }

  lemma NoneApart(pages: map<Vpn, OwnPage>, segs: seq<Segment>)
    ensures Apart(pages, segs[..0])
  {
  }

  /** One segment, page by page. */
  method LoadSegment(mmu: Mmu, root: nat, seg: Segment, data: Bytes) returns (r: LoadResult)
    requires mmu.Valid() && root in mmu.Abs().spaces && InFile(data, seg) && InUserHalf(seg)
    modifies mmu`tables, mmu`pages, mmu`places, mmu`other
    modifies mmu.alloc`nextFrame, mmu.alloc`refcounts, mmu.alloc.bitmap.data
    ensures root in View(old(mmu.Abs())) && mmu.Valid() && root in mmu.Abs().spaces
    ensures Extends(View(old(mmu.Abs())), View(mmu.Abs()), root)
    ensures r.Loaded? ==>
              View(mmu.Abs())
              == View(old(mmu.Abs()))[root := WithPages(View(old(mmu.Abs()))[root], seg, data, PageCount(seg))]
    ensures r.Loaded? ==> forall n: nat :: Touches(seg, n) ==> PageAt(n) !in View(old(mmu.Abs()))[root]
    ensures r.Clash? ==> exists n: nat :: Touches(seg, n) && PageAt(n) in View(old(mmu.Abs()))[root]
    ensures r.NoMemory? ==> mmu.Exhausted()
    ensures if r.Loaded? then mmu.other == old(mmu.other) else LostOne(old(mmu.other), mmu.other)
  {
    hide Extends, LostOne;
    hide Mmu.Exhausted, Mmu.Wired, Mmu.Abs, Inv, PageAt, PageImage, InUserHalf, InFile, View;
    ViewRoot(mmu.Abs(), root);
    ghost var view := View(mmu.Abs());
    ghost var base := view[root];
    ExtendsSelf(view, root);
    var count := PageCount(seg);
    for k := 0 to count
      invariant mmu.Valid() && root in mmu.Abs().spaces
      invariant Extends(view, View(mmu.Abs()), root) && mmu.other == old(mmu.other)
      invariant View(mmu.Abs()) == view[root := WithPages(base, seg, data, k)]
      invariant forall n: nat :: FirstPage(seg) <= n < FirstPage(seg) + k ==> PageAt(n) !in base
    {
      var n := FirstPage(seg) + k;
      PagesInUserHalf(seg, n);
      PageAtInjective(n, n);
      WithPagesAt(base, seg, data, k, n);
      var page := BuildPage(seg, data, n);
      ghost var before := View(mmu.Abs());
      r := LoadPage(mmu, root, PageAt(n), seg.writable, page);
      if !r.Loaded? {
        assert Touches(seg, n);
        return;
      }
      ExtendsMore(view, before, root, PageAt(n), OwnPage(page, seg.writable));
    }
    r := Loaded;
  }

  // ---------- From file to program ----------

  /** The segments of a file that parses lie in the user half. */
  ghost predicate ProgramInUserHalf(data: Bytes) {
    forall i :: 0 <= i < |Program(data)| ==> InUserHalf(Program(data)[i])
  }

  /** The bytes a process sees in a segment: the file's, then zeros, writable or not; it ends below the heap. */
  ghost predicate SegmentShown(pages: map<Vpn, OwnPage>, seg: Segment, data: Bytes, heapStart: nat) {
    && InFile(data, seg) && (seg.memsz > 0 ==> seg.vaddr + seg.memsz <= heapStart)
    && (forall addr: nat :: seg.vaddr <= addr < seg.vaddr + seg.memsz ==>
                              ByteAt(pages, addr) == Some(SegmentByte(seg, data, addr)))
    && (forall n: nat :: Touches(seg, n) ==> PageAt(n) in pages && pages[PageAt(n)].writable == seg.writable)
  }

  lemma ShownAfterLoad(pages: map<Vpn, OwnPage>, segs: seq<Segment>, data: Bytes, i: nat, heapStart: nat)
    requires Loadable(data, segs) && Apart(pages, segs) && i < |segs|
    requires forall n: nat :: Touches(segs[i], n) ==> n * PAGE_SIZE + PAGE_SIZE <= heapStart
    ensures SegmentShown(WithSegments(pages, segs, data), segs[i], data, heapStart)
  {
    hide WithSegments, Apart, Touches, Indices4;
    var after := WithSegments(pages, segs, data);
    if segs[i].memsz > 0 {
      var last := segs[i].vaddr + segs[i].memsz - 1;
      SegmentCovered(segs[i], last);
      assert last < last / PAGE_SIZE * PAGE_SIZE + PAGE_SIZE;
    }
    forall addr: nat | segs[i].vaddr <= addr < segs[i].vaddr + segs[i].memsz
      ensures ByteAt(after, addr) == Some(SegmentByte(segs[i], data, addr))
    {
      SegmentCovered(segs[i], addr);
      ImageOfByte(pages, segs, data, i, addr);
    }
    forall n: nat | Touches(segs[i], n)
      ensures PageAt(n) in after && after[PageAt(n)].writable == segs[i].writable
    {
      ImageOfPage(pages, segs, data, i, n);
    }
  }

  /** The page of an address is there and takes stores. */
  ghost predicate WritableAt(pages: map<Vpn, OwnPage>, addr: nat) {
    Indices4(addr) in pages && pages[Indices4(addr)].writable
  }

  /** What a program header puts in memory: the bytes of the file, then zeros, on pages as writable as its flags say. */
  ghost predicate HeaderShown(pages: map<Vpn, OwnPage>, p: Phdr, data: Bytes, heapStart: nat) {
    && p.filesz <= p.memsz && p.offset + p.filesz <= |data| && (p.memsz > 0 ==> p.vaddr + p.memsz <= heapStart)
    && (forall addr: nat :: p.vaddr <= addr < p.vaddr + p.filesz ==>
                              ByteAt(pages, addr) == Some(data[p.offset + (addr - p.vaddr)]))
    && (forall addr: nat :: p.vaddr + p.filesz <= addr < p.vaddr + p.memsz ==> ByteAt(pages, addr) == Some(0))
    && (forall addr: nat :: p.vaddr <= addr < p.vaddr + p.memsz ==> (WritableAt(pages, addr) <==> Has(p.flags, PF_W)))
  }

  /** Every loadable program header of the file is in memory. */
  ghost predicate ExecutableShown(pages: map<Vpn, OwnPage>, exe: Executable, data: Bytes, heapStart: nat) {
    forall i :: 0 <= i < |exe.phdrs| && exe.phdrs[i].kind == 1 ==> HeaderShown(pages, exe.phdrs[i], data, heapStart)
  }

  lemma ShownAsAsked(pages: map<Vpn, OwnPage>, p: Phdr, seg: Segment, data: Bytes, heapStart: nat)
    requires Asks(p, seg) && SegmentShown(pages, seg, data, heapStart) && InUserHalf(seg)
    ensures HeaderShown(pages, p, data, heapStart)
  {
    hide Indices4;
    forall addr: nat | p.vaddr <= addr < p.vaddr + p.memsz
      ensures WritableAt(pages, addr) <==> Has(p.flags, PF_W)
    {
      var n := addr / PAGE_SIZE;
      SegmentCovered(seg, addr);
      PagesInUserHalf(seg, n);
      IndicesInjective(addr, n * PAGE_SIZE);
      assert PageAt(n) in pages;
    }
  }

  lemma AllShown(pages: map<Vpn, OwnPage>, exe: Executable, segs: seq<Segment>, data: Bytes, heapStart: nat)
    requires AskedFor(exe.phdrs, segs)
    requires forall j :: 0 <= j < |segs| ==> InUserHalf(segs[j]) && SegmentShown(pages, segs[j], data, heapStart)
    ensures ExecutableShown(pages, exe, data, heapStart)
  {
    hide SegmentShown, HeaderShown, Asks, AskedFor, InUserHalf;
    forall i | 0 <= i < |exe.phdrs| && exe.phdrs[i].kind == 1
      ensures HeaderShown(pages, exe.phdrs[i], data, heapStart)
    {
      var j := SegmentOfHeader(exe.phdrs, segs, i);
      ShownAsAsked(pages, exe.phdrs[i], segs[j], data, heapStart);
    }
  }

  /** The address space shows every segment, and every loadable header of the executable that the file is. */
  ghost predicate ProgramShown(view: Eager, root: nat, data: Bytes, info: ElfInfo, heapStart: nat) {
    && root in view
    && (forall i :: 0 <= i < |info.segments| ==> SegmentShown(view[root], info.segments[i], data, heapStart))
    && (forall exe :: IsFile(data, exe) ==> Reports(exe, info) && ExecutableShown(view[root], exe, data, heapStart))
  }

  datatype ProgramResult =
    | Started(info: ElfInfo, heapStart: nat)
    | Refused(error: ElfError)
    | Failed(reason: LoadResult)

  /** Parses a file, loads its segments and finds the start of the heap. */
  method LoadProgram(mmu: Mmu, root: nat, data: Bytes) returns (r: ProgramResult)
    requires mmu.Valid() && root in mmu.Abs().spaces && ProgramInUserHalf(data)
    modifies mmu`tables, mmu`pages, mmu`places, mmu`other
    modifies mmu.alloc`nextFrame, mmu.alloc`refcounts, mmu.alloc.bitmap.data
    ensures mmu.Valid() && root in mmu.Abs().spaces && root in View(mmu.Abs())
    ensures Extends(View(old(mmu.Abs())), View(mmu.Abs()), root)
    ensures r.Refused? <==> !Parses(data)
    ensures r.Refused? <==> !Takable(data)
    ensures r.Started? ==> ProgramShown(View(mmu.Abs()), root, data, r.info, r.heapStart)
    ensures r.Started? ==> r.info.segments == Program(data)
    ensures r.Started? ==> r.heapStart % PAGE_SIZE == 0 && mmu.other == old(mmu.other)
    ensures r.Refused? ==> mmu.Abs() == old(mmu.Abs())
    ensures r.Failed? ==> !r.reason.Loaded? && (r.reason.NoMemory? ==> mmu.Exhausted())
                          && LostOne(old(mmu.other), mmu.other)
  {
    hide Mmu.Exhausted, Mmu.Wired, Mmu.Abs, Inv, View, Extends, LostOne, Le, Apart, Touches, SegmentShown;
    hide WithSegments, Loads, IsFile, Takable, Reports, ExecutableShown, AskedFor;
    ViewRoot(mmu.Abs(), root);
    ExtendsSelf(View(mmu.Abs()), root);
    var parsed := ParseElf(data);
    if parsed.Err? {
      return Refused(parsed.error);
    }
    var info := parsed.value;
    assert info.segments == Program(data);
    ghost var pages := View(mmu.Abs())[root];
    var loaded := LoadElfSegments(mmu, root, info.segments, data);
    ViewRoot(mmu.Abs(), root);
    if !loaded.Loaded? {
      return Failed(loaded);
    }
    var heapStart := CalculateHeapStart(info.segments);
    forall i | 0 <= i < |info.segments|
      ensures SegmentShown(View(mmu.Abs())[root], info.segments[i], data, heapStart)
    {
      ShownAfterLoad(pages, info.segments, data, i, heapStart);
    }
    forall exe | IsFile(data, exe)
      ensures ExecutableShown(View(mmu.Abs())[root], exe, data, heapStart)
    {
      WrittenParses(data, exe);
      AllShown(View(mmu.Abs())[root], exe, info.segments, data, heapStart);
    }
    r := Started(info, heapStart);
  }
}
