/** ELF64 executables as they are written (System V gABI, chapters 4 and 5), and what parsing makes of each field. */
module ElfFormat {
  import opened Wrappers
  import opened LittleEndian
  import opened ElfSpec

  /** The file header: the fields a loader looks at, and the bytes between them. */
  datatype Header =
    Header(abi: seq<Byte>, entry: nat, phoff: nat, sections: seq<Byte>, phnum: nat, names: seq<Byte>)

  /** A program header. */
  datatype Phdr = Phdr(kind: nat, flags: nat, offset: nat, vaddr: nat, paddr: nat, filesz: nat, memsz: nat, align: nat)

  datatype Executable = Executable(header: Header, phdrs: seq<Phdr>)

  const PF_W := 2

  /** The bit of a flag, a power of two. */
  ghost predicate Has(flags: nat, flag: nat)
    requires flag > 0
  {
    flags % (2 * flag) >= flag
  }

  function IdentBytes(h: Header): seq<Byte> {
    [0x7f, 0x45, 0x4c, 0x46, 2, 1, 1] + h.abi
  }

  /** ELFCLASS64, ELFDATA2LSB, EV_CURRENT, ET_EXEC, EM_X86_64, and program headers of 56 bytes. */
  function HeaderBytes(h: Header): seq<Byte> {
    IdentBytes(h) + ToLe(2, 2) + ToLe(62, 2) + ToLe(1, 4) + ToLe(h.entry, 8) + ToLe(h.phoff, 8)
    + h.sections + ToLe(56, 2) + ToLe(h.phnum, 2) + h.names
  }

  function PhdrBytes(p: Phdr): seq<Byte> {
    ToLe(p.kind, 4) + ToLe(p.flags, 4) + ToLe(p.offset, 8) + ToLe(p.vaddr, 8) + ToLe(p.paddr, 8)
    + ToLe(p.filesz, 8) + ToLe(p.memsz, 8) + ToLe(p.align, 8)
  }

  ghost predicate HeaderFits(h: Header) {
    && |h.abi| == 9 && |h.sections| == 14 && |h.names| == 6
    && h.entry < Pow256(8) && h.phoff < Pow256(8) && h.phnum < Pow256(2)
  }

  ghost predicate PhdrFits(p: Phdr) {
    && p.kind < Pow256(4) && p.flags < Pow256(4) && p.offset < Pow256(8) && p.vaddr < Pow256(8)
    && p.paddr < Pow256(8) && p.filesz < Pow256(8) && p.memsz < Pow256(8) && p.align < Pow256(8)
  }

  function Octet(b: bv8): Byte {
    b as int
  }

  function Octets(data: Bytes, at: nat, n: nat): (s: seq<Byte>)
    requires at + n <= |data|
    ensures |s| == n
  {
    seq<Byte>(n, k requires 0 <= k < n => Octet(data[at + k]))
  }

  /** The bytes of a file at an offset. */
  ghost predicate Field(data: Bytes, at: nat, s: seq<Byte>) {
    at + |s| <= |data| && Octets(data, at, |s|) == s
  }

  /** The i-th program header stands where the file header says. */
  ghost predicate PhdrWritten(data: Bytes, h: Header, i: nat, p: Phdr) {
    PhdrFits(p) && Field(data, h.phoff + 56 * i, PhdrBytes(p))
  }

  /** The file is this executable. */
  ghost predicate IsFile(data: Bytes, exe: Executable) {
    && HeaderFits(exe.header) && |exe.phdrs| == exe.header.phnum && Field(data, 0, HeaderBytes(exe.header))
    && forall i :: 0 <= i < |exe.phdrs| ==> PhdrWritten(data, exe.header, i, exe.phdrs[i])
  }

  /** The loader takes it: at most eight program headers, and what it has to load lies in the file. */
  ghost predicate Accepted(data: Bytes, exe: Executable) {
    && |exe.phdrs| <= 8
    && forall i :: 0 <= i < |exe.phdrs| && exe.phdrs[i].kind == 1 ==>
         && exe.phdrs[i].filesz <= exe.phdrs[i].memsz && exe.phdrs[i].offset + exe.phdrs[i].filesz <= |data|
         && exe.phdrs[i].offset + exe.phdrs[i].filesz < Pow256(8)
  }

  /** Some executable the loader takes is what the file is. */
  ghost predicate Takable(data: Bytes) {
    exists exe :: IsFile(data, exe) && Accepted(data, exe)
  }

  // ---------- One field ----------

  lemma FieldSplit(data: Bytes, at: nat, s: seq<Byte>, t: seq<Byte>)
    ensures Field(data, at, s + t) <==> Field(data, at, s) && Field(data, at + |s|, t)
  {
    if at + |s| + |t| <= |data| {
      assert Octets(data, at, |s + t|) == Octets(data, at, |s|) + Octets(data, at + |s|, |t|);
      Halves(Octets(data, at, |s|), Octets(data, at + |s|, |t|), s, t);
    }
  }

  lemma Halves(a: seq<Byte>, b: seq<Byte>, s: seq<Byte>, t: seq<Byte>)
    requires |a| == |s| && |b| == |t|
    ensures a + b == s + t <==> a == s && b == t
  {
    assert (a + b)[..|a|] == a && (a + b)[|a|..] == b;
    assert (s + t)[..|s|] == s && (s + t)[|s|..] == t;
  }

  /** A field of n bytes holds a number that fits exactly when the number is read from it. */
  lemma {:induction false} FieldReads(data: Bytes, at: nat, v: nat, n: nat)
    requires at + n <= |data|
    ensures v < Pow256(n) && Field(data, at, ToLe(v, n)) <==> Le(data, at, n) == v
    decreases n
  {
    hide Field;
    if n == 0 {
      NoField(data, at);
    } else {
      FieldReads(data, at + 1, v / 256, n - 1);
      FieldSplit(data, at, [v % 256], ToLe(v / 256, n - 1));
      OneByte(data, at, v % 256);
      assert v < Pow256(n) <==> v / 256 < Pow256(n - 1);
    }
  }

  lemma NoField(data: Bytes, at: nat)
    requires at <= |data|
    ensures Field(data, at, [])
  {
  }

  lemma OneByte(data: Bytes, at: nat, b: Byte)
    requires at < |data|
    ensures Field(data, at, [b]) <==> data[at] as nat == b
    ensures 0 <= data[at] as nat < 256
  {
    assert Octets(data, at, 1) == [Octet(data[at])];
  }

  // ---------- One header ----------

  lemma OctetsRead(data: Bytes, at: nat, s: seq<Byte>)
    requires at + |s| <= |data|
    ensures Field(data, at, s) <==> s == Octets(data, at, |s|)
  {
  }

  function PhdrAt(data: Bytes, at: nat): Phdr
    requires at + PHDR_SIZE <= |data|
  {
    Phdr(Le(data, at, 4), Le(data, at + 4, 4), Le(data, at + 8, 8), Le(data, at + 16, 8), Le(data, at + 24, 8),
         Le(data, at + 32, 8), Le(data, at + 40, 8), Le(data, at + 48, 8))
  }

  /** A program header is the one read from its 56 bytes. */
  lemma PhdrReads(data: Bytes, at: nat, p: Phdr)
    requires at + PHDR_SIZE <= |data|
    ensures PhdrFits(p) && Field(data, at, PhdrBytes(p)) <==> p == PhdrAt(data, at)
  {
    hide Field, ToLe, Le, Pow256;
    var s := ToLe(p.kind, 4);
    FieldSplit(data, at, s, ToLe(p.flags, 4));
    s := s + ToLe(p.flags, 4);
    FieldSplit(data, at, s, ToLe(p.offset, 8));
    s := s + ToLe(p.offset, 8);
    FieldSplit(data, at, s, ToLe(p.vaddr, 8));
    s := s + ToLe(p.vaddr, 8);
    FieldSplit(data, at, s, ToLe(p.paddr, 8));
    s := s + ToLe(p.paddr, 8);
    FieldSplit(data, at, s, ToLe(p.filesz, 8));
    s := s + ToLe(p.filesz, 8);
    FieldSplit(data, at, s, ToLe(p.memsz, 8));
    s := s + ToLe(p.memsz, 8);
    FieldSplit(data, at, s, ToLe(p.align, 8));
    FieldReads(data, at, p.kind, 4);
    FieldReads(data, at + 4, p.flags, 4);
    FieldReads(data, at + 8, p.offset, 8);
    FieldReads(data, at + 16, p.vaddr, 8);
    FieldReads(data, at + 24, p.paddr, 8);
    FieldReads(data, at + 32, p.filesz, 8);
    FieldReads(data, at + 40, p.memsz, 8);
    FieldReads(data, at + 48, p.align, 8);
  }

  function HeaderAt(data: Bytes): Header
    requires |data| >= HEADER_SIZE
  {
    Header(Octets(data, 7, 9), Le(data, 24, 8), Le(data, 32, 8), Octets(data, 40, 14), Le(data, 56, 2),
           Octets(data, 58, 6))
  }

  /** What the loader checks of the file header, its count of program headers aside. */
  ghost predicate Marked(data: Bytes)
    requires |data| >= HEADER_SIZE
  {
    && data[0..4] == [0x7f, 0x45, 0x4c, 0x46] && data[4] == 2 && data[5] == 1 && data[6] == 1
    && Le(data, 16, 2) == 2 && Le(data, 18, 2) == 62 && Le(data, 20, 4) == 1 && Le(data, 54, 2) == 56
  }

  lemma IdentReads(data: Bytes, abi: seq<Byte>)
    requires |data| >= HEADER_SIZE && |abi| == 9
    ensures Field(data, 0, [0x7f, 0x45, 0x4c, 0x46, 2, 1, 1] + abi) <==>
            && data[0..4] == [0x7f, 0x45, 0x4c, 0x46] && data[4] == 2 && data[5] == 1 && data[6] == 1
            && abi == Octets(data, 7, 9)
  {
    var ident: seq<Byte> := [0x7f, 0x45, 0x4c, 0x46, 2, 1, 1];
    FieldSplit(data, 0, ident, abi);
    MagicBytes(data);
  }

  lemma MagicBytes(data: Bytes)
    requires |data| >= HEADER_SIZE
    ensures Field(data, 0, [0x7f, 0x45, 0x4c, 0x46, 2, 1, 1]) <==>
            data[0..4] == [0x7f, 0x45, 0x4c, 0x46] && data[4] == 2 && data[5] == 1 && data[6] == 1
  {
    hide Octet;
    var o := Octets(data, 0, 7);
    assert o == [Octet(data[0]), Octet(data[1]), Octet(data[2]), Octet(data[3]), Octet(data[4]), Octet(data[5]),
                 Octet(data[6])];
    OctetIs(data[0], 0x7f, 0x7f);
    OctetIs(data[1], 0x45, 0x45);
    OctetIs(data[2], 0x4c, 0x4c);
    OctetIs(data[3], 0x46, 0x46);
    OctetIs(data[4], 2, 2);
    OctetIs(data[5], 1, 1);
    OctetIs(data[6], 1, 1);
    assert data[0..4] == [data[0], data[1], data[2], data[3]];
  }

  lemma OctetIs(x: bv8, c: bv8, b: Byte)
    requires c as nat == b
    ensures Octet(x) == b <==> x == c
  {
  }

  /** A file header is the one read from its 64 bytes, when they are marked as what the loader takes. */
  lemma HeaderReads(data: Bytes, h: Header)
    requires |data| >= HEADER_SIZE
    ensures HeaderFits(h) && Field(data, 0, HeaderBytes(h)) <==> Marked(data) && h == HeaderAt(data)
  {
    hide Field, ToLe, Le, Pow256, Octets;
    if |h.abi| == 9 && |h.sections| == 14 && |h.names| == 6 {
      IdentReads(data, h.abi);
      var s := IdentBytes(h);
      FieldSplit(data, 0, s, ToLe(2, 2));
      s := s + ToLe(2, 2);
      FieldSplit(data, 0, s, ToLe(62, 2));
      s := s + ToLe(62, 2);
      FieldSplit(data, 0, s, ToLe(1, 4));
      s := s + ToLe(1, 4);
      FieldSplit(data, 0, s, ToLe(h.entry, 8));
      s := s + ToLe(h.entry, 8);
      FieldSplit(data, 0, s, ToLe(h.phoff, 8));
      s := s + ToLe(h.phoff, 8);
      FieldSplit(data, 0, s, h.sections);
      s := s + h.sections;
      FieldSplit(data, 0, s, ToLe(56, 2));
      s := s + ToLe(56, 2);
      FieldSplit(data, 0, s, ToLe(h.phnum, 2));
      s := s + ToLe(h.phnum, 2);
      FieldSplit(data, 0, s, h.names);
      FieldReads(data, 16, 2, 2);
      FieldReads(data, 18, 62, 2);
      FieldReads(data, 20, 1, 4);
      FieldReads(data, 24, h.entry, 8);
      FieldReads(data, 32, h.phoff, 8);
      OctetsRead(data, 40, h.sections);
      FieldReads(data, 54, 56, 2);
      FieldReads(data, 56, h.phnum, 2);
      OctetsRead(data, 58, h.names);
      SmallFit();
    }
  }

  lemma SmallFit()
    ensures 62 < Pow256(2) && 1 < Pow256(4)
  {
    Powers();
  }

  // ---------- The whole file ----------

  /** The segment a program header asks for. */
  ghost predicate Asks(p: Phdr, seg: Segment) {
    && seg.vaddr == p.vaddr && seg.offset == p.offset && seg.filesz == p.filesz && seg.memsz == p.memsz
    && (seg.writable <==> Has(p.flags, PF_W))
  }

  /** The segments are those the loadable headers ask for, in the order of the headers. */
  ghost predicate AskedFor(phdrs: seq<Phdr>, segs: seq<Segment>) {
    if phdrs == [] then segs == []
    else
      var rest, last := phdrs[..|phdrs| - 1], phdrs[|phdrs| - 1];
      if last.kind == 1 then segs != [] && Asks(last, segs[|segs| - 1]) && AskedFor(rest, segs[..|segs| - 1])
      else AskedFor(rest, segs)
  }

  /** The program header is the i-th one of the file, read field by field. */
  ghost predicate PhdrIs(data: Bytes, i: nat, p: Phdr)
    requires |data| >= HEADER_SIZE
  {
    PhdrOffset(data, i) + PHDR_SIZE <= |data| && p == PhdrAt(data, PhdrOffset(data, i))
  }

  lemma PhdrIsRead(data: Bytes, h: Header, i: nat, p: Phdr)
    requires |data| >= HEADER_SIZE && h.phoff == Le(data, 32, 8)
    ensures PhdrWritten(data, h, i, p) <==> PhdrIs(data, i, p)
  {
    hide Le;
    if PhdrOffset(data, i) + PHDR_SIZE <= |data| {
      PhdrReads(data, PhdrOffset(data, i), p);
    }
  }

  lemma HeaderLong(data: Bytes, h: Header)
    ensures HeaderFits(h) && Field(data, 0, HeaderBytes(h)) ==> |data| >= HEADER_SIZE
  {
  }

  /** A file is the executable that is read from it. */
  lemma FileReads(data: Bytes, exe: Executable)
    ensures IsFile(data, exe) <==>
            && |data| >= HEADER_SIZE && Marked(data) && exe.header == HeaderAt(data) && |exe.phdrs| == Le(data, 56, 2)
            && forall i :: 0 <= i < |exe.phdrs| ==> PhdrIs(data, i, exe.phdrs[i])
  {
    hide Le, HeaderBytes, HeaderFits, Field, Octets, Marked, PhdrWritten, PhdrIs;
    HeaderLong(data, exe.header);
    if |data| >= HEADER_SIZE {
      HeaderReads(data, exe.header);
      if exe.header == HeaderAt(data) {
        forall i | 0 <= i < |exe.phdrs|
          ensures PhdrWritten(data, exe.header, i, exe.phdrs[i]) <==> PhdrIs(data, i, exe.phdrs[i])
        {
          PhdrIsRead(data, exe.header, i, exe.phdrs[i]);
        }
      }
    }
  }

  lemma MarkedIff(data: Bytes)
    requires |data| >= HEADER_SIZE
    ensures HeaderFault(data).None? <==> Marked(data) && Le(data, 56, 2) <= 8
  {
  }

  /** The checks on one program header, in its own terms. */
  lemma FaultIff(data: Bytes, i: nat, p: Phdr)
    requires |data| >= HEADER_SIZE && PhdrIs(data, i, p)
    ensures PhdrFault(data, i).None? <==>
            (p.kind == 1 ==> p.filesz <= p.memsz && p.offset + p.filesz <= |data| && p.offset + p.filesz < Pow256(8))
    ensures p.kind == 1 ==> Asks(p, SegmentAt(data, PhdrOffset(data, i)))
  {
    hide Le;
    Powers();
    BitOne(p.flags);
  }

  lemma BitOne(flags: nat)
    ensures flags % 4 >= 2 <==> (flags / 2) % 2 == 1
  {
  }

  lemma {:induction false} LoadsAsked(data: Bytes, phdrs: seq<Phdr>)
    requires |data| >= HEADER_SIZE && forall i :: 0 <= i < |phdrs| ==> PhdrIs(data, i, phdrs[i])
    requires forall i :: 0 <= i < |phdrs| ==> PhdrFault(data, i).None?
    ensures AskedFor(phdrs, Loads(data, |phdrs|))
    decreases |phdrs|
  {
    hide Le, PhdrFault, SegmentAt, Asks;
    if phdrs != [] {
      var last := |phdrs| - 1;
      LoadsAsked(data, phdrs[..last]);
      assert PhdrIs(data, last, phdrs[last]);
      FaultIff(data, last, phdrs[last]);
      var segs := Loads(data, |phdrs|);
      if phdrs[last].kind == 1 {
        assert segs[..|segs| - 1] == Loads(data, last);
      } else {
        assert segs == Loads(data, last);
      }
    }
  }

  /** Every loadable header has its segment. */
  lemma {:induction false} SegmentOfHeader(phdrs: seq<Phdr>, segs: seq<Segment>, i: nat) returns (j: nat)
    requires AskedFor(phdrs, segs) && i < |phdrs| && phdrs[i].kind == 1
    ensures j < |segs| && Asks(phdrs[i], segs[j])
    decreases |phdrs|
  {
    hide Asks;
    var last := |phdrs| - 1;
    if i == last {
      j := |segs| - 1;
    } else {
      j := SegmentOfHeader(phdrs[..last], if phdrs[last].kind == 1 then segs[..|segs| - 1] else segs, i);
    }
  }

  /**
    * Parsing a written executable: it is taken exactly when what it has to load lies in the file, and then gives the
    * entry point and the segments its headers ask for.
    */
  lemma WrittenParses(data: Bytes, exe: Executable)
    requires IsFile(data, exe)
    ensures Parses(data) <==> Accepted(data, exe)
    ensures Le(data, 24, 8) == exe.header.entry && Le(data, 32, 8) == exe.header.phoff
    ensures Parses(data) ==> AskedFor(exe.phdrs, Program(data))
  {
    hide Le, IsFile, Marked, PhdrIs, PhdrFault, AskedFor;
    FileReads(data, exe);
    MarkedIff(data);
    forall i | 0 <= i < |exe.phdrs|
      ensures PhdrFault(data, i).None? <==>
              (exe.phdrs[i].kind == 1 ==>
                 && exe.phdrs[i].filesz <= exe.phdrs[i].memsz && exe.phdrs[i].offset + exe.phdrs[i].filesz <= |data|
                 && exe.phdrs[i].offset + exe.phdrs[i].filesz < Pow256(8))
    {
      FaultIff(data, i, exe.phdrs[i]);
    }
    if Parses(data) {
      LoadsAsked(data, exe.phdrs);
    }
  }

  /** A file parses exactly when it is a written executable that the loader takes. */
  lemma ParsesIff(data: Bytes)
    ensures Parses(data) <==> Takable(data)
  {
    hide Le, IsFile, Marked, PhdrAt, Accepted;
    if exe :| IsFile(data, exe) && Accepted(data, exe) {
      WrittenParses(data, exe);
    } else if Parses(data) {
      MarkedIff(data);
      var n := Le(data, 56, 2);
      var phdrs := seq(n, i requires 0 <= i < n => assert PhdrFault(data, i).None?; PhdrAt(data, PhdrOffset(data, i)));
      forall i | 0 <= i < n
        ensures PhdrIs(data, i, phdrs[i])
      {
        assert PhdrFault(data, i).None?;
      }
      var exe := Executable(HeaderAt(data), phdrs);
      FileReads(data, exe);
      WrittenParses(data, exe);
    }
  }
}
