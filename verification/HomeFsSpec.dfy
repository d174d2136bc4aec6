/** The on-disk format of the home filesystem: blocks, bitmap, superblock and inodes as bytes of sectors. */
module HomeFsSpec {
  import opened Wrappers
  import opened LittleEndian
  import opened Bitmaps

  const SECTORS: nat := 1024
  const SECTOR_SIZE: nat := 512
  const MAX_DATA_BLOCKS: nat := 989
  const MAX_INODES: nat := 256
  const FIRST_DATA_BLOCK: nat := 35
  const SCANNED: nat := MAX_DATA_BLOCKS / 8 * 8

  /** Blocks past the last whole byte of the bitmap, which allocation never looks at. */
  const UNREACHED: nat := MAX_DATA_BLOCKS - SCANNED

  const INODE_SIZE: nat := 64
  const MAX_DIRECT: nat := 8
  const FILE: nat := 1

  type Sector = seq<Byte>

  datatype FsError = NotFile | NoSpace | InvalidArgument

  datatype Inode = Inode(
    num: nat, kind: nat, mode: nat, uid: nat, gid: nat, links: nat, size: nat, used: nat, blocks: seq<nat>,
    padding: seq<Byte>)

  // ---------- Inodes as bytes ----------

  function Words(ws: seq<nat>, n: nat): (s: seq<Byte>)
    ensures |s| == n * |ws|
  {
    if ws == [] then []
    else
      assert n * |ws| == n + n * (|ws| - 1);
      ToLe(ws[0], n) + Words(ws[1..], n)
  }

  function ReadWords(s: seq<Byte>, n: nat, count: nat): (ws: seq<nat>)
    requires n * count <= |s|
    ensures |ws| == count
    decreases count
  {
    if count == 0 then []
    else
      assert n * count == n + n * (count - 1);
      [FromLe(s[..n])] + ReadWords(s[n..], n, count - 1)
  }

  /** Words that fit are read back, whatever follows them. */
  lemma {:induction false} WordsRoundTrip(ws: seq<nat>, n: nat, rest: seq<Byte>)
    requires forall i :: 0 <= i < |ws| ==> ws[i] < Pow256(n)
    ensures ReadWords(Words(ws, n) + rest, n, |ws|) == ws
    decreases |ws|
  {
    if ws != [] {
      assert n * |ws| == n + n * (|ws| - 1);
      var s := Words(ws, n) + rest;
      LeRoundTrip(ws[0], n);
      assert s[..n] == ToLe(ws[0], n) && s[n..] == Words(ws[1..], n) + rest;
      WordsRoundTrip(ws[1..], n, rest);
    }
  }

  /** The fields fit in the record. */
  predicate Fitting(i: Inode) {
    && i.num < 0x1_0000_0000 && i.kind < 0x1_0000_0000
    && i.mode < 0x1_0000 && i.uid < 0x1_0000 && i.gid < 0x1_0000 && i.links < 0x1_0000
    && i.size < 0x1_0000_0000 && i.used < 0x1_0000_0000
    && |i.blocks| == MAX_DIRECT && |i.padding| == 8
    && forall k :: 0 <= k < MAX_DIRECT ==> i.blocks[k] < 0x1_0000_0000
  }

  /** The 64-byte record: two words, four half-words, two words, eight block numbers, padding. */
  function Encode(i: Inode): (s: seq<Byte>)
    requires |i.blocks| == MAX_DIRECT && |i.padding| == 8
    ensures |s| == INODE_SIZE
  {
    Words([i.num, i.kind], 4)
      + (Words([i.mode, i.uid, i.gid, i.links], 2) + (Words([i.size, i.used] + i.blocks, 4) + i.padding))
  }

  function Decode(s: seq<Byte>): (i: Inode)
    requires |s| == INODE_SIZE
    ensures |i.blocks| == MAX_DIRECT && |i.padding| == 8
  {
    var a, b, c := ReadWords(s, 4, 2), ReadWords(s[8..], 2, 4), ReadWords(s[16..], 4, 10);
    Inode(a[0], a[1], b[0], b[1], b[2], b[3], c[0], c[1], c[2..], s[56..])
  }

  /** An inode survives being written and read. */
  lemma InodeRoundTrip(i: Inode)
    requires Fitting(i)
    ensures Decode(Encode(i)) == i
  {
    hide Words, ReadWords;
    Powers();
    var a, b, c := [i.num, i.kind], [i.mode, i.uid, i.gid, i.links], [i.size, i.used] + i.blocks;
    var tail := Words(c, 4) + i.padding;
    var middle := Words(b, 2) + tail;
    var s := Encode(i);
    assert s == Words(a, 4) + middle;
    WordsRoundTrip(a, 4, middle);
    WordsRoundTrip(b, 2, tail);
    WordsRoundTrip(c, 4, i.padding);
    assert s[8..] == middle && middle[8..] == tail && s[16..] == middle[8..];
    assert tail[40..] == i.padding && s[56..] == tail[40..];
    assert c[2..] == i.blocks;
  }

  lemma {:induction false} WordsSplit(ws: seq<nat>, n: nat, i: nat)
    requires i < |ws|
    ensures Words(ws, n) == Words(ws[..i], n) + (ToLe(ws[i], n) + Words(ws[i + 1..], n))
    decreases i
  {
    hide ToLe;
    if i > 0 {
      WordsSplit(ws[1..], n, i - 1);
      assert ws[1..][..i - 1] == ws[..i][1..] && ws[1..][i..] == ws[i + 1..] && ws[..i][0] == ws[0];
    }
  }

  lemma MiddleSlice(a: seq<Byte>, b: seq<Byte>, c: seq<Byte>)
    ensures (a + (b + c))[|a|..|a| + |b|] == b
  {
  }

  lemma FieldAt(front: seq<Byte>, ws: seq<nat>, n: nat, rest: seq<Byte>, i: nat, at: nat)
    requires i < |ws| && at == |front| + n * i
    ensures at + n <= |front + (Words(ws, n) + rest)|
    ensures (front + (Words(ws, n) + rest))[at..at + n] == ToLe(ws[i], n)
  {
    hide Words, ToLe;
    WordsSplit(ws, n, i);
    assert |ws[..i]| == i;
    var before, word, after := Words(ws[..i], n), ToLe(ws[i], n), Words(ws[i + 1..], n);
    assert front + (before + (word + after) + rest) == (front + before) + (word + (after + rest));
    MiddleSlice(front + before, word, after + rest);
  }

  lemma RecordFront(i: Inode)
    requires |i.blocks| == MAX_DIRECT && |i.padding| == 8
    ensures var s := Encode(i);
            && s[0..4] == ToLe(i.num, 4) && s[4..8] == ToLe(i.kind, 4)
            && s[8..10] == ToLe(i.mode, 2) && s[10..12] == ToLe(i.uid, 2)
            && s[12..14] == ToLe(i.gid, 2) && s[14..16] == ToLe(i.links, 2)
  {
    hide Words, ToLe;
    var a, b := [i.num, i.kind], [i.mode, i.uid, i.gid, i.links];
    var tail := Words([i.size, i.used] + i.blocks, 4) + i.padding;
    assert Encode(i) == [] + (Words(a, 4) + (Words(b, 2) + tail));
    FieldAt([], a, 4, Words(b, 2) + tail, 0, 0);
    FieldAt([], a, 4, Words(b, 2) + tail, 1, 4);
    FieldAt(Words(a, 4), b, 2, tail, 0, 8);
    FieldAt(Words(a, 4), b, 2, tail, 1, 10);
    FieldAt(Words(a, 4), b, 2, tail, 2, 12);
    FieldAt(Words(a, 4), b, 2, tail, 3, 14);
  }

  lemma RecordTail(i: Inode)
    requires |i.blocks| == MAX_DIRECT && |i.padding| == 8
    ensures var s := Encode(i);
            && s[16..20] == ToLe(i.size, 4) && s[20..24] == ToLe(i.used, 4) && s[56..64] == i.padding
            && forall k :: 0 <= k < 8 ==> s[24 + 4 * k..28 + 4 * k] == ToLe(i.blocks[k], 4)
  {
    hide Words, ToLe;
    var c := [i.size, i.used] + i.blocks;
    var front := Words([i.num, i.kind], 4) + Words([i.mode, i.uid, i.gid, i.links], 2);
    var s := Encode(i);
    assert s == front + (Words(c, 4) + i.padding) && |front| == 16;
    FieldAt(front, c, 4, i.padding, 0, 16);
    FieldAt(front, c, 4, i.padding, 1, 20);
    forall k | 0 <= k < 8
      ensures s[24 + 4 * k..28 + 4 * k] == ToLe(i.blocks[k], 4)
    {
      FieldAt(front, c, 4, i.padding, 2 + k, 24 + 4 * k);
    }
    assert s == (front + Words(c, 4)) + (i.padding + []);
    MiddleSlice(front + Words(c, 4), i.padding, []);
  }

  /** Where each field of an inode stands in its record. */
  lemma InodeLayout(i: Inode)
    requires |i.blocks| == MAX_DIRECT && |i.padding| == 8
    ensures var s := Encode(i);
            && s[0..4] == ToLe(i.num, 4) && s[4..8] == ToLe(i.kind, 4)
            && s[8..10] == ToLe(i.mode, 2) && s[10..12] == ToLe(i.uid, 2)
            && s[12..14] == ToLe(i.gid, 2) && s[14..16] == ToLe(i.links, 2)
            && s[16..20] == ToLe(i.size, 4) && s[20..24] == ToLe(i.used, 4)
            && (forall k :: 0 <= k < 8 ==> s[24 + 4 * k..28 + 4 * k] == ToLe(i.blocks[k], 4))
            && s[56..64] == i.padding
  {
    hide Encode, ToLe;
    RecordFront(i);
    RecordTail(i);
  }

  // ---------- The bitmap as bytes ----------

  function BitValue(b: bool, k: nat): nat
    requires k < 8
  {
    if b then [1, 2, 4, 8, 16, 32, 64, 128][k] else 0
  }

  /** One byte of the bitmap, bit k worth two to the k. */
  function PackByte(bits: seq<bool>): (b: Byte)
    requires |bits| == 8
  {
    BitValue(bits[0], 0) + BitValue(bits[1], 1) + BitValue(bits[2], 2) + BitValue(bits[3], 3) +
    BitValue(bits[4], 4) + BitValue(bits[5], 5) + BitValue(bits[6], 6) + BitValue(bits[7], 7)
  }

  function Pack(bits: seq<bool>): (s: seq<Byte>)
    requires |bits| % 8 == 0
    ensures |s| == |bits| / 8
  {
    if bits == [] then [] else [PackByte(bits[..8])] + Pack(bits[8..])
  }

  /** A byte is 0xFF exactly when its eight bits are set. */
  lemma FullByte(bits: seq<bool>)
    requires |bits| == 8
    ensures PackByte(bits) == 0xFF <==> forall k :: 0 <= k < 8 ==> bits[k]
  {
  }

  function Bit(b: bool): nat { if b then 1 else 0 }

  /** The first bit of a byte counts one and each further bit twice as much. */
  lemma ByteValue(s: seq<bool>)
    requires |s| == 8
    ensures PackByte(s) == Bit(s[0]) + 2 * Bit(s[1]) + 4 * Bit(s[2]) + 8 * Bit(s[3])
                           + 16 * Bit(s[4]) + 32 * Bit(s[5]) + 64 * Bit(s[6]) + 128 * Bit(s[7])
  {
  }

  lemma {:induction false} PackAt(bits: seq<bool>, i: nat)
    requires |bits| % 8 == 0 && i < |bits| / 8
    ensures Pack(bits)[i] == PackByte(bits[8 * i..8 * i + 8])
    decreases i
  {
    hide PackByte;
    if i > 0 {
      PackAt(bits[8..], i - 1);
      assert bits[8..][8 * (i - 1)..8 * (i - 1) + 8] == bits[8 * i..8 * i + 8];
    }
  }

  lemma PackByteInjective(a: seq<bool>, b: seq<bool>)
    requires |a| == 8 && |b| == 8 && PackByte(a) == PackByte(b)
    ensures a == b
  {
  }

  /** The bytes determine the bits. */
  lemma {:induction false} PackInjective(a: seq<bool>, b: seq<bool>)
    requires |a| == |b| && |a| % 8 == 0 && Pack(a) == Pack(b)
    ensures a == b
    decreases |a|
  {
    hide PackByte;
    if a != [] {
      assert Pack(a)[0] == Pack(b)[0] && Pack(a)[1..] == Pack(b)[1..];
      PackByteInjective(a[..8], b[..8]);
      PackInjective(a[8..], b[8..]);
      assert a == a[..8] + a[8..] && b == b[..8] + b[8..];
    }
  }

  // ---------- The disk ----------

  type Disk = seq<Sector>

  predicate Formed(d: Disk) {
    |d| == SECTORS && forall i :: 0 <= i < SECTORS ==> |d[i]| == SECTOR_SIZE
  }

  function InodeSector(n: nat): nat
    requires n >= 1
  {
    3 + (n - 1) / 8
  }

  function InodeOffset(n: nat): nat
    requires n >= 1
  {
    (n - 1) % 8 * INODE_SIZE
  }

  predicate InodeNumber(n: nat) {
    1 <= n <= MAX_INODES
  }

  lemma InodePlace(n: nat)
    requires InodeNumber(n)
    ensures 3 <= InodeSector(n) < FIRST_DATA_BLOCK && InodeOffset(n) + INODE_SIZE <= SECTOR_SIZE
  {
  }

  /** The table of inodes starts at sector 3 and has no gaps. */
  lemma InodeTable(n: nat)
    requires n >= 1
    ensures SECTOR_SIZE * InodeSector(n) + InodeOffset(n) == 3 * 512 + 64 * (n - 1)
  {
    var q, r := (n - 1) / 8, (n - 1) % 8;
    assert n - 1 == 8 * q + r;
  }

  /** The inode of a number; no disk, no number, no inode. */
  function InodeAt(d: Disk, n: nat): Inode {
    if Formed(d) && InodeNumber(n) then
      InodePlace(n);
      Decode(d[InodeSector(n)][InodeOffset(n)..InodeOffset(n) + INODE_SIZE])
    else NO_INODE
  }

  const NO_INODE: Inode := Inode(0, 0, 0, 0, 0, 0, 0, 0, [], [])

  function Splice(sector: Sector, at: nat, data: seq<Byte>): (r: Sector)
    requires at + |data| <= |sector|
    ensures |r| == |sector|
  {
    sector[..at] + data + sector[at + |data|..]
  }

  /** The disk with one inode record replaced. */
  function WithInode(d: Disk, i: Inode): (r: Disk)
    requires Formed(d) && InodeNumber(i.num) && Fitting(i)
    ensures Formed(r)
  {
    InodePlace(i.num);
    d[InodeSector(i.num) := Splice(d[InodeSector(i.num)], InodeOffset(i.num), Encode(i))]
  }

  /** Writing an inode changes that inode and no other. */
  lemma WithInodeAt(d: Disk, i: Inode, m: nat)
    requires Formed(d) && InodeNumber(i.num) && Fitting(i) && InodeNumber(m)
    ensures InodeAt(WithInode(d, i), m) == if m == i.num then i else InodeAt(d, m)
  {
    hide Encode, Decode;
    InodePlace(i.num);
    InodePlace(m);
    var n := i.num;
    var before, at := d[InodeSector(n)], InodeOffset(n);
    var after := Splice(before, at, Encode(i));
    if m == n {
      assert after[at..at + INODE_SIZE] == Encode(i);
      InodeRoundTrip(i);
    } else if InodeSector(m) == InodeSector(n) {
      RecordsApart(m, n);
      var x := InodeOffset(m);
      SpliceElsewhere(before, at, Encode(i), x, x + INODE_SIZE);
    }
  }

  lemma RecordsApart(m: nat, n: nat)
    requires m >= 1 && n >= 1 && m != n && InodeSector(m) == InodeSector(n)
    ensures InodeOffset(m) + INODE_SIZE <= InodeOffset(n) || InodeOffset(n) + INODE_SIZE <= InodeOffset(m)
  {
  }

  lemma SpliceElsewhere(sector: Sector, at: nat, data: seq<Byte>, x: nat, y: nat)
    requires at + |data| <= |sector| && x <= y <= |sector| && (y <= at || at + |data| <= x)
    ensures Splice(sector, at, data)[x..y] == sector[x..y]
  {
    var r := Splice(sector, at, data);
    forall k | x <= k < y
      ensures r[k] == sector[k]
    {
    }
  }

  /** Inodes live below the data area. */
  lemma SameInodes(d: Disk, d': Disk, n: nat)
    requires Formed(d) && Formed(d') && InodeNumber(n)
    requires forall s :: 3 <= s < FIRST_DATA_BLOCK ==> d'[s] == d[s]
    ensures InodeAt(d', n) == InodeAt(d, n)
  {
    InodePlace(n);
  }

  // ---------- Files ----------

  datatype Superblock = Superblock(
    magic: nat, version: nat, blockSize: nat, totalBlocks: nat, inodeCount: nat, freeBlocks: nat, freeInodes: nat,
    firstDataBlock: nat, inodeBitmapSector: nat, blockBitmapSector: nat, inodeTableSector: nat, rootInode: nat)

  function SuperWords(sb: Superblock): (ws: seq<nat>)
    ensures |ws| == 12
  {
    [sb.magic, sb.version, sb.blockSize, sb.totalBlocks, sb.inodeCount, sb.freeBlocks, sb.freeInodes,
     sb.firstDataBlock, sb.inodeBitmapSector, sb.blockBitmapSector, sb.inodeTableSector, sb.rootInode]
  }

  /** The superblock record as declared: twelve words and 468 bytes of padding. */
  function SuperRecord(sb: Superblock): (s: seq<Byte>)
    ensures |s| == SECTOR_SIZE + 4
  {
    Words(SuperWords(sb), 4) + seq(468, _ => 0)
  }

  /** Sector 0: as much of the superblock record as a sector holds. */
  function EncodeSuper(sb: Superblock): (s: Sector)
    ensures |s| == SECTOR_SIZE
  {
    SuperRecord(sb)[..SECTOR_SIZE]
  }

  /** The record is four bytes longer than the sector; the four bytes that do not fit are padding. */
  lemma SuperRecordOverhang(sb: Superblock)
    ensures |SuperRecord(sb)| == 516 && SuperRecord(sb) == EncodeSuper(sb) + [0, 0, 0, 0]
  {
    hide Words;
    var record := SuperRecord(sb);
    assert record[SECTOR_SIZE..] == [0, 0, 0, 0];
  }

  /** The device and what the filesystem keeps in memory: superblock, block bitmap and inode bitmap. */
  datatype State = State(disk: Disk, sb: Superblock, bits: seq<bool>, inodeBits: seq<bool>)

  /** Byte k of a file, through its block numbers. */
  function ByteOf(d: Disk, i: Inode, k: nat): Byte {
    if k / SECTOR_SIZE < |i.blocks| && FIRST_DATA_BLOCK + i.blocks[k / SECTOR_SIZE] < |d|
       && k % SECTOR_SIZE < |d[FIRST_DATA_BLOCK + i.blocks[k / SECTOR_SIZE]]|
    then d[FIRST_DATA_BLOCK + i.blocks[k / SECTOR_SIZE]][k % SECTOR_SIZE]
    else 0
  }

  /** A file inode whose blocks are distinct, in range and marked in the bitmap. */
  ghost predicate Sound(i: Inode, bits: seq<bool>) {
    && Fitting(i) && InodeNumber(i.num) && i.kind == FILE && i.used <= MAX_DIRECT && i.size <= SECTOR_SIZE * i.used
    && |bits| == 4096
    && (forall k :: 0 <= k < i.used ==> 0 < i.blocks[k] < MAX_DATA_BLOCKS && bits[i.blocks[k]])
    && (forall j, k :: 0 <= j < k < i.used ==> i.blocks[j] != i.blocks[k])
  }

  ghost predicate Uses(i: Inode, b: nat) {
    exists k :: 0 <= k < i.used && k < |i.blocks| && i.blocks[k] == b
  }

  /** Two inodes have no block in common. */
  ghost predicate Apart(i: Inode, j: Inode) {
    forall b :: Uses(i, b) ==> !Uses(j, b)
  }

  /** The block bitmap: the root directory's block is taken, the last blocks never are, and the count fits. */
  ghost predicate BlocksOk(bits: seq<bool>, freeBlocks: nat) {
    && |bits| == 4096 && bits[0]
    && (forall b :: SCANNED <= b < MAX_DATA_BLOCKS ==> !bits[b])
    && freeBlocks + Ones(bits[..MAX_DATA_BLOCKS]) == MAX_DATA_BLOCKS
  }

  /** The inode bitmap: number 0 is never used, and the count fits. */
  ghost predicate InodesOk(inodeBits: seq<bool>, freeInodes: nat) {
    && |inodeBits| == 4096 && !inodeBits[0]
    && freeInodes + Ones(inodeBits[..MAX_INODES]) == MAX_INODES
  }

  /** Memory and disk agree, and the free counts are what the bitmaps leave. */
  ghost predicate Synced(s: State) {
    && Formed(s.disk)
    && s.sb.firstDataBlock == FIRST_DATA_BLOCK
    && BlocksOk(s.bits, s.sb.freeBlocks) && InodesOk(s.inodeBits, s.sb.freeInodes)
    && s.disk[0] == EncodeSuper(s.sb) && s.disk[1] == Pack(s.inodeBits) && s.disk[2] == Pack(s.bits)
  }

  /** The root directory of a new filesystem: inode 1, one block at sector 35, both marked as taken. */
  ghost predicate HasRoot(s: State, rootBlock: Sector) {
    && InodeAt(s.disk, 1) == Inode(1, 2, 0x1ED, 0, 0, 1, 512, 1, [35, 0, 0, 0, 0, 0, 0, 0], [0, 0, 0, 0, 0, 0, 0, 0])
    && |s.disk| == 1024 && s.disk[35] == rootBlock
    && |s.inodeBits| == 4096 && (forall n :: 0 <= n < 4096 ==> (s.inodeBits[n] <==> n == 1))
    && |s.bits| == 4096 && (forall b :: 0 <= b < 4096 ==> (s.bits[b] <==> b == 0))
  }

  ghost predicate FilesSound(s: State, files: set<nat>) {
    forall n :: n in files ==>
                  && InodeNumber(n) && n < |s.inodeBits| && s.inodeBits[n]
                  && InodeAt(s.disk, n).num == n && Sound(InodeAt(s.disk, n), s.bits)
  }

  ghost predicate FilesApart(s: State, files: set<nat>) {
    forall m, n :: m in files && n in files && m != n ==> Apart(InodeAt(s.disk, m), InodeAt(s.disk, n))
  }

  ghost predicate Inv(s: State, files: set<nat>) {
    Synced(s) && FilesSound(s, files) && FilesApart(s, files)
  }

  /** The bytes of a file. */
  ghost function FileBytes(d: Disk, n: nat): seq<Byte> {
    Contents(d, InodeAt(d, n))
  }

  ghost function Contents(d: Disk, i: Inode): seq<Byte> {
    seq(i.size, k requires 0 <= k < i.size => ByteOf(d, i, k))
  }

  /** A file is its blocks one after the other, the data area starting at sector 35. */
  lemma FileIsBlocks(d: Disk, i: Inode, j: nat)
    requires Formed(d) && j < |i.blocks| && 35 + i.blocks[j] < 1024 && 512 * (j + 1) <= i.size
    ensures Contents(d, i)[512 * j..512 * (j + 1)] == d[35 + i.blocks[j]]
  {
    var part := Contents(d, i)[512 * j..512 * (j + 1)];
    forall k | 0 <= k < 512
      ensures part[k] == d[35 + i.blocks[j]][k]
    {
      assert (512 * j + k) / 512 == j && (512 * j + k) % 512 == k;
      assert part[k] == Contents(d, i)[512 * j + k];
    }
  }

  /** An inode ready to be written as file i.num: sound, and sharing no block with another file. */
  ghost predicate Ready(s: State, files: set<nat>, i: Inode) {
    Sound(i, s.bits) && forall m :: m in files && m != i.num ==> Apart(InodeAt(s.disk, m), i)
  }

  /** A file that is there in both states with the same inode and the same bytes. */
  ghost predicate SameFile(d: Disk, d': Disk, n: nat) {
    InodeAt(d', n) == InodeAt(d, n) && FileBytes(d', n) == FileBytes(d, n)
  }

  /** What writing and truncating leave of an inode: whose it is, and what it may be used for. */
  ghost predicate SameOwner(i: Inode, j: Inode) {
    j.kind == i.kind && j.mode == i.mode && j.uid == i.uid && j.gid == i.gid && j.links == i.links
  }

  // ---------- Blocks and inode numbers ----------

  function Mark(s: State, b: nat, v: bool): (s': State)
    requires Formed(s.disk) && |s.bits| == 4096 && b < MAX_DATA_BLOCKS && (v ==> s.sb.freeBlocks > 0)
    ensures Formed(s'.disk)
  {
    var bits := s.bits[b := v];
    var sb := s.sb.(freeBlocks := if v then s.sb.freeBlocks - 1 else s.sb.freeBlocks + 1);
    s.(disk := s.disk[2 := Pack(bits)][0 := EncodeSuper(sb)], sb := sb, bits := bits)
  }

  lemma MarkSynced(s: State, b: nat, v: bool)
    requires Synced(s) && 0 < b < MAX_DATA_BLOCKS && s.bits[b] != v && (v ==> b < SCANNED && s.sb.freeBlocks > 0)
    ensures Synced(Mark(s, b, v))
  {
    hide Pack, EncodeSuper;
    var low := s.bits[..MAX_DATA_BLOCKS];
    OnesUpdate(low, b, v);
    assert Mark(s, b, v).bits[..MAX_DATA_BLOCKS] == low[b := v];
  }

  /** Takes an inode number. */
  function MarkInode(s: State, n: nat): (s': State)
    requires Formed(s.disk) && |s.inodeBits| == 4096 && n < MAX_INODES && s.sb.freeInodes > 0
    ensures Formed(s'.disk)
  {
    var bits := s.inodeBits[n := true];
    var sb := s.sb.(freeInodes := s.sb.freeInodes - 1);
    s.(disk := s.disk[1 := Pack(bits)][0 := EncodeSuper(sb)], sb := sb, inodeBits := bits)
  }

  lemma MarkInodeSynced(s: State, n: nat)
    requires Synced(s) && 0 < n < MAX_INODES && !s.inodeBits[n] && s.sb.freeInodes > 0
    ensures Synced(MarkInode(s, n))
  {
    hide Pack, EncodeSuper;
    var low := s.inodeBits[..MAX_INODES];
    OnesUpdate(low, n, true);
    assert MarkInode(s, n).inodeBits[..MAX_INODES] == low[n := true];
  }

  /** Taking an inode number keeps every file sound and apart. */
  lemma MarkInodeKeepsFiles(s: State, files: set<nat>, n: nat)
    requires Inv(s, files) && 0 < n < MAX_INODES && !s.inodeBits[n] && s.sb.freeInodes > 0
    ensures Inv(MarkInode(s, n), files) && n !in files
    ensures forall m :: InodeNumber(m) ==> InodeAt(MarkInode(s, n).disk, m) == InodeAt(s.disk, m)
  {
    hide Pack, EncodeSuper, Fitting, Decode, Ones;
    MarkInodeSynced(s, n);
    var s' := MarkInode(s, n);
    forall m | InodeNumber(m)
      ensures InodeAt(s'.disk, m) == InodeAt(s.disk, m)
    {
      SameInodes(s.disk, s'.disk, m);
    }
  }

  lemma {:induction false} OnesAtMost(bits: seq<bool>)
    ensures Ones(bits) <= |bits|
    decreases |bits|
  {
    if bits != [] {
      OnesAtMost(bits[..|bits| - 1]);
    }
  }

  /** The count reaches the length exactly when every bit is set. */
  lemma {:induction false} OnesFull(bits: seq<bool>)
    ensures Ones(bits) == |bits| <==> forall k :: 0 <= k < |bits| ==> bits[k]
    decreases |bits|
  {
    OnesAtMost(bits);
    if bits != [] {
      var n := |bits| - 1;
      OnesFull(bits[..n]);
      OnesAtMost(bits[..n]);
      assert forall k :: 0 <= k < n ==> bits[..n][k] == bits[k];
    }
  }

  lemma {:induction false} OnesJoin(a: seq<bool>, b: seq<bool>)
    ensures Ones(a + b) == Ones(a) + Ones(b)
    decreases |b|
  {
    if b == [] {
      assert a + b == a;
    } else {
      assert (a + b)[..|a + b| - 1] == a + b[..|b| - 1];
      OnesJoin(a, b[..|b| - 1]);
    }
  }

  lemma {:induction false} NoOnes(bits: seq<bool>)
    requires forall k :: 0 <= k < |bits| ==> !bits[k]
    ensures Ones(bits) == 0
    decreases |bits|
  {
    if bits != [] {
      NoOnes(bits[..|bits| - 1]);
    }
  }

  /** Five blocks are counted as free and never found: allocation fails exactly when the count has come down to five. */
  lemma LastBlocksNeverFound(bits: seq<bool>, freeBlocks: nat)
    requires BlocksOk(bits, freeBlocks)
    ensures freeBlocks >= UNREACHED == 5
    ensures freeBlocks == UNREACHED <==> forall b :: 0 <= b < SCANNED ==> bits[b]
  {
    var low, high := bits[..SCANNED], bits[SCANNED..MAX_DATA_BLOCKS];
    assert bits[..MAX_DATA_BLOCKS] == low + high;
    OnesJoin(low, high);
    NoOnes(high);
    OnesAtMost(low);
    OnesFull(low);
    assert forall b :: 0 <= b < SCANNED ==> low[b] == bits[b];
  }

  /** Number 0 is counted as free and never given out: allocation fails exactly when the count has come down to one. */
  lemma LastInodeNeverFound(inodeBits: seq<bool>, freeInodes: nat)
    requires InodesOk(inodeBits, freeInodes)
    ensures freeInodes >= 1
    ensures freeInodes == 1 <==> forall n :: 0 < n < MAX_INODES ==> inodeBits[n]
  {
    var low := inodeBits[..MAX_INODES];
    OnesUpdate(low, 0, true);
    OnesAtMost(low[0 := true]);
    OnesFull(low[0 := true]);
    assert forall n :: 0 < n < MAX_INODES ==> low[0 := true][n] == inodeBits[n];
  }

  /** Marking a free block keeps every file sound and apart. */
  lemma AllocKeepsFiles(s: State, files: set<nat>, b: nat)
    requires Inv(s, files) && 0 < b < SCANNED && !s.bits[b] && s.sb.freeBlocks > 0
    ensures Inv(Mark(s, b, true), files)
    ensures forall n :: n in files ==> !Uses(InodeAt(s.disk, n), b)
    ensures forall n :: InodeNumber(n) ==> InodeAt(Mark(s, b, true).disk, n) == InodeAt(s.disk, n)
  {
    hide Pack, EncodeSuper, Fitting, Decode, Ones;
    MarkSynced(s, b, true);
    var s' := Mark(s, b, true);
    forall n | InodeNumber(n)
      ensures InodeAt(s'.disk, n) == InodeAt(s.disk, n)
    {
      SameInodes(s.disk, s'.disk, n);
    }
  }

  /** Freeing a block that no file uses keeps every file sound and apart. */
  lemma FreeKeepsFiles(s: State, files: set<nat>, b: nat)
    requires Inv(s, files) && 0 < b < MAX_DATA_BLOCKS && s.bits[b]
    requires forall n :: n in files ==> !Uses(InodeAt(s.disk, n), b)
    ensures Inv(Mark(s, b, false), files)
    ensures forall n :: InodeNumber(n) ==> InodeAt(Mark(s, b, false).disk, n) == InodeAt(s.disk, n)
  {
    hide Pack, EncodeSuper, Fitting, Decode, Ones;
    MarkSynced(s, b, false);
    var s' := Mark(s, b, false);
    forall n | InodeNumber(n)
      ensures InodeAt(s'.disk, n) == InodeAt(s.disk, n)
    {
      SameInodes(s.disk, s'.disk, n);
    }
    forall n | n in files
      ensures Sound(InodeAt(s'.disk, n), s'.bits)
    {
      var i := InodeAt(s.disk, n);
      forall k | 0 <= k < i.used
        ensures s'.bits[i.blocks[k]]
      {
        assert Uses(i, i.blocks[k]);
      }
    }
  }

  // ---------- Inodes and data ----------

  lemma SameContents(d: Disk, d': Disk, i: Inode)
    requires |d| == |d'| && forall s :: FIRST_DATA_BLOCK <= s < |d| ==> d'[s] == d[s]
    ensures Contents(d', i) == Contents(d, i)
  {
    forall k | 0 <= k < i.size
      ensures ByteOf(d', i, k) == ByteOf(d, i, k)
    {
    }
  }

  lemma WithInodeElsewhere(d: Disk, i: Inode)
    requires Formed(d) && InodeNumber(i.num) && Fitting(i)
    ensures var d' := WithInode(d, i);
            d'[..3] == d[..3] && forall s :: FIRST_DATA_BLOCK <= s < SECTORS ==> d'[s] == d[s]
  {
    InodePlace(i.num);
  }

  /** The inode can be written as one of the files: its number is taken, and the rest is in order around it. */
  ghost predicate CanWrite(s: State, files: set<nat>, i: Inode) {
    && i.num in files && Inv(s, files - {i.num}) && (forall n :: n in files ==> InodeNumber(n))
    && s.inodeBits[i.num] && Ready(s, files, i)
  }

  ghost function WithFile(s: State, i: Inode): State {
    if Formed(s.disk) && InodeNumber(i.num) && Fitting(i) then s.(disk := WithInode(s.disk, i)) else s
  }

  /** The inode is now the file of its number, with the bytes its blocks held, and every other file is as it was. */
  ghost predicate WroteFile(s: State, s': State, files: set<nat>, i: Inode) {
    && Formed(s.disk) && Inv(s', files) && i.num in files
    && InodeAt(s'.disk, i.num) == i && FileBytes(s'.disk, i.num) == Contents(s.disk, i)
    && forall m :: m in files && m != i.num ==> SameFile(s.disk, s'.disk, m)
  }

  /** Writing a ready inode makes it the file, and changes no other file. */
  lemma WriteInodeKeeps(s: State, files: set<nat>, i: Inode)
    requires CanWrite(s, files, i)
    ensures WroteFile(s, WithFile(s, i), files, i)
  {
    hide Pack, EncodeSuper, WithInode, Fitting, Decode, Ones, Contents, InodeAt, Sound, Apart;
    SoundFits(i, s.bits);
    var d := WithInode(s.disk, i);
    WithInodeElsewhere(s.disk, i);
    assert forall k :: 0 <= k < 3 ==> d[k] == d[..3][k] == s.disk[..3][k];
    WithInodeAt(s.disk, i, i.num);
    SameContents(s.disk, d, i);
    forall m | m in files && m != i.num
      ensures InodeAt(d, m) == InodeAt(s.disk, m) && SameFile(s.disk, d, m)
    {
      WithInodeAt(s.disk, i, m);
      SameContents(s.disk, d, InodeAt(s.disk, m));
    }
    forall m, n | m in files && n in files && m != n
      ensures Apart(InodeAt(d, m), InodeAt(d, n))
    {
      if m == i.num {
        ApartSymmetric(InodeAt(d, n), i);
      }
    }
  }

  lemma SoundFits(i: Inode, bits: seq<bool>)
    requires Sound(i, bits)
    ensures Fitting(i) && InodeNumber(i.num)
  {
  }

  lemma ApartSymmetric(i: Inode, j: Inode)
    requires Apart(i, j)
    ensures Apart(j, i)
  {
  }

  /** Writing one of the inode's own data blocks changes no other file. */
  lemma DataKeeps(s: State, files: set<nat>, i: Inode, b: nat, sector: Sector)
    requires Inv(s, files - {i.num}) && (forall n :: n in files ==> InodeNumber(n)) && Ready(s, files, i)
    requires Uses(i, b) && FIRST_DATA_BLOCK + b < SECTORS && |sector| == SECTOR_SIZE
    ensures var d := s.disk[FIRST_DATA_BLOCK + b := sector];
            && Inv(s.(disk := d), files - {i.num}) && Ready(s.(disk := d), files, i)
            && (forall n :: InodeNumber(n) ==> InodeAt(d, n) == InodeAt(s.disk, n))
            && forall m :: m in files && m != i.num ==> SameFile(s.disk, d, m)
  {
    hide Pack, EncodeSuper, Fitting, Decode, Ones, Contents;
    var d := s.disk[FIRST_DATA_BLOCK + b := sector];
    forall n | InodeNumber(n)
      ensures InodeAt(d, n) == InodeAt(s.disk, n)
    {
      SameInodes(s.disk, d, n);
    }
    forall m | m in files && m != i.num
      ensures SameFile(s.disk, d, m)
    {
      var j := InodeAt(s.disk, m);
      assert Apart(j, i);
      OtherBlocksSame(s.disk, j, b, sector);
    }
  }

  lemma OtherBlocksSame(d: Disk, j: Inode, b: nat, sector: Sector)
    requires Formed(d) && FIRST_DATA_BLOCK + b < SECTORS && |sector| == SECTOR_SIZE && !Uses(j, b)
    requires j.size <= SECTOR_SIZE * j.used && j.used <= |j.blocks|
    ensures Contents(d[FIRST_DATA_BLOCK + b := sector], j) == Contents(d, j)
  {
    var d' := d[FIRST_DATA_BLOCK + b := sector];
    forall k | 0 <= k < j.size
      ensures ByteOf(d', j, k) == ByteOf(d, j, k)
    {
      assert k / SECTOR_SIZE < j.used;
      assert j.blocks[k / SECTOR_SIZE] != b;
    }
  }

  /** A fresh block added to a ready inode. */
  lemma GrowKeepsReady(s: State, files: set<nat>, i: Inode, b: nat)
    requires Inv(s, files) && Ready(s, files, i) && i.used < MAX_DIRECT
    requires 0 < b < SCANNED && !s.bits[b] && s.sb.freeBlocks > 0
    ensures Inv(Mark(s, b, true), files)
    ensures Ready(Mark(s, b, true), files, i.(blocks := i.blocks[i.used := b], used := i.used + 1))
    ensures forall n :: InodeNumber(n) ==> InodeAt(Mark(s, b, true).disk, n) == InodeAt(s.disk, n)
  {
    hide Pack, EncodeSuper, Decode, Ones, FilesApart;
    AllocKeepsFiles(s, files, b);
    var s', i' := Mark(s, b, true), i.(blocks := i.blocks[i.used := b], used := i.used + 1);
    assert s'.bits == s.bits[b := true];
    forall m | m in files && m != i.num
      ensures Apart(InodeAt(s'.disk, m), i')
    {
      var j := InodeAt(s.disk, m);
      assert Apart(j, i);
      forall c | Uses(i', c)
        ensures c == b || Uses(i, c)
      {
        var k :| 0 <= k < i'.used && i'.blocks[k] == c;
        assert k < i.used ==> i.blocks[k] == c;
      }
    }
  }

  /** The block bitmap of a new filesystem: only the root directory's block is taken. */
  function NewBits(): (bits: seq<bool>)
    ensures |bits| == 4096 && bits[0]
  {
    [true] + seq(4095, _ => false)
  }

  lemma NewBitsCount()
    ensures Ones(NewBits()[..MAX_DATA_BLOCKS]) == 1
  {
    var low := NewBits()[..MAX_DATA_BLOCKS];
    NoOnes(low[0 := false]);
    OnesUpdate(low, 0, false);
  }

  /** The inode bitmap of a new filesystem: only the root's number is taken. */
  function NewInodeBits(): (bits: seq<bool>)
    ensures |bits| == 4096 && !bits[0]
  {
    [false, true] + seq(4094, _ => false)
  }

  lemma NewInodeBitsCount()
    ensures Ones(NewInodeBits()[..MAX_INODES]) == 1
  {
    var low := NewInodeBits()[..MAX_INODES];
    NoOnes(low[1 := false]);
    OnesUpdate(low, 1, false);
  }

  /** The superblock's words are read back from sector 0. */
  lemma SuperRoundTrip(sb: Superblock)
    requires forall k :: 0 <= k < 12 ==> SuperWords(sb)[k] < 0x1_0000_0000
    ensures ReadWords(EncodeSuper(sb), 4, 12) == SuperWords(sb)
  {
    hide Words, ReadWords;
    Powers();
    var ws := SuperWords(sb);
    WordsRoundTrip(ws, 4, seq(464, _ => 0));
    assert EncodeSuper(sb) == Words(ws, 4) + seq(464, _ => 0);
  }

  lemma SuperField(sb: Superblock, k: nat)
    requires k < 12
    ensures EncodeSuper(sb)[4 * k..4 * k + 4] == ToLe(SuperWords(sb)[k], 4)
  {
    hide Words, ToLe;
    var ws := SuperWords(sb);
    assert EncodeSuper(sb) == [] + (Words(ws, 4) + seq(464, _ => 0));
    FieldAt([], ws, 4, seq(464, _ => 0), k, 4 * k);
  }

  /** Where each field of the superblock stands in sector 0. */
  lemma SuperLayout(sb: Superblock)
    ensures var s := EncodeSuper(sb);
            && s[0..4] == ToLe(sb.magic, 4) && s[4..8] == ToLe(sb.version, 4)
            && s[8..12] == ToLe(sb.blockSize, 4) && s[12..16] == ToLe(sb.totalBlocks, 4)
            && s[16..20] == ToLe(sb.inodeCount, 4) && s[20..24] == ToLe(sb.freeBlocks, 4)
            && s[24..28] == ToLe(sb.freeInodes, 4) && s[28..32] == ToLe(sb.firstDataBlock, 4)
            && s[32..36] == ToLe(sb.inodeBitmapSector, 4) && s[36..40] == ToLe(sb.blockBitmapSector, 4)
            && s[40..44] == ToLe(sb.inodeTableSector, 4) && s[44..48] == ToLe(sb.rootInode, 4)
  {
    hide EncodeSuper, ToLe;
    SuperField(sb, 0);
    SuperField(sb, 1);
    SuperField(sb, 2);
    SuperField(sb, 3);
    SuperField(sb, 4);
    SuperField(sb, 5);
    SuperField(sb, 6);
    SuperField(sb, 7);
    SuperField(sb, 8);
    SuperField(sb, 9);
    SuperField(sb, 10);
    SuperField(sb, 11);
  }

  /** One file more, empty and without blocks; the others are as they were. */
  ghost predicate AddedFile(s: State, s': State, files: set<nat>, n: nat) {
    && Formed(s.disk) && n !in files && Inv(s', files + {n})
    && FileBytes(s'.disk, n) == [] && InodeAt(s'.disk, n).used == 0
    && forall m :: m in files ==> SameFile(s.disk, s'.disk, m)
  }

  /** A new file's inode has no blocks; writing it adds an empty file and changes no other. */
  lemma NewFileKeeps(s: State, files: set<nat>, i: Inode)
    requires Inv(s, files) && i.num !in files && InodeNumber(i.num) && s.inodeBits[i.num]
    requires Fitting(i) && i.kind == FILE && i.size == 0 && i.used == 0
    ensures WroteFile(s, WithFile(s, i), files + {i.num}, i) && Contents(s.disk, i) == []
  {
    hide Pack, EncodeSuper, WithInode, Fitting, Decode, Ones, InodeAt, WithFile, WroteFile;
    var all := files + {i.num};
    assert all - {i.num} == files;
    WriteInodeKeeps(s, all, i);
  }

  /** A disk on which allocation fails with five blocks counted as free. */
  function FullBits(): (bits: seq<bool>)
    ensures |bits| == 4096
  {
    seq(SCANNED, _ => true) + seq(4096 - SCANNED, _ => false)
  }

  lemma NoSpaceExample()
    ensures BlocksOk(FullBits(), 5) && forall b :: 0 <= b < SCANNED ==> FullBits()[b]
  {
    var bits := FullBits();
    var low, high := bits[..SCANNED], bits[SCANNED..MAX_DATA_BLOCKS];
    assert bits[..MAX_DATA_BLOCKS] == low + high;
    OnesJoin(low, high);
    OnesFull(low);
    NoOnes(high);
  }

  // ---------- Files as byte sequences ----------

  /** The bytes of a file after a write at an offset: the data in place, what was there elsewhere, gaps left open. */
  ghost predicate Written(before: seq<Byte>, offset: nat, data: seq<Byte>, after: seq<Byte>) {
    && |after| == (if offset + |data| > |before| then offset + |data| else |before|)
    && after[offset..offset + |data|] == data
    && forall k :: 0 <= k < |before| && !(offset <= k < offset + |data|) ==> after[k] == before[k]
  }

  function BlocksNeeded(end: nat): nat {
    (end + SECTOR_SIZE - 1) / SECTOR_SIZE
  }

  /** A write up to `end` finds its blocks: those the file has and those that allocation can find. */
  predicate Room(end: nat, used: nat, freeBlocks: nat) {
    BlocksNeeded(end) <= MAX_DIRECT && BlocksNeeded(end) + UNREACHED <= used + freeBlocks
  }

  function Max(a: nat, b: nat): nat {
    if a < b then b else a
  }

  /** What the files are to their users, and how much room is left. */
  datatype Model = Model(bytes: map<nat, seq<Byte>>, used: map<nat, nat>, freeBlocks: nat, freeInodes: nat)

  ghost function ModelOf(s: State, files: set<nat>): Model {
    Model(map n | n in files :: FileBytes(s.disk, n), map n | n in files :: InodeAt(s.disk, n).used,
          s.sb.freeBlocks, s.sb.freeInodes)
  }

  datatype Op =
    | CreateOp(mode: nat)
    | WriteOp(n: nat, offset: nat, data: seq<Byte>)
    | TruncateOp(n: nat)
    | ReadOp(n: nat, offset: nat, len: nat)

  datatype Answer =
    | Created(number: Result<nat, FsError>)
    | Wrote(count: Result<nat, FsError>)
    | Truncated
    | Bytes(bytes: seq<Byte>)
    | Unnamed

  /** What a read of `len` bytes at an offset finds. */
  function ReadBytes(bytes: seq<Byte>, offset: nat, len: nat): seq<Byte> {
    if offset >= |bytes| then [] else if offset + len <= |bytes| then bytes[offset..offset + len] else bytes[offset..]
  }

  /**
   One operation on files as byte sequences, with its answer. A write fails exactly for want of room; a write that
   needs at most eight blocks and fails has used up every block that allocation can find.
   */
  ghost predicate Follows(before: Model, op: Op, answer: Answer, after: Model) {
    match op
    case CreateOp(_) =>
      if before.freeInodes == 1 then answer == Created(Err(NoSpace)) && after == before
      else
        && answer.Created? && answer.number.Ok? && answer.number.value !in before.bytes && before.freeInodes > 1
        && after == Model(before.bytes[answer.number.value := []], before.used[answer.number.value := 0],
                          before.freeBlocks, before.freeInodes - 1)
    case WriteOp(n, offset, data) =>
      && n in before.bytes && n in before.used && n in after.bytes
      && var needed := BlocksNeeded(offset + |data|);
         if !Room(offset + |data|, before.used[n], before.freeBlocks) then
           && answer == Wrote(Err(NoSpace))
           && after == if needed <= MAX_DIRECT then before.(freeBlocks := UNREACHED) else before
         else
           && answer == Wrote(Ok(|data|)) && Written(before.bytes[n], offset, data, after.bytes[n])
           && after.bytes == before.bytes[n := after.bytes[n]]
           && after.used == before.used[n := Max(before.used[n], needed)]
           && after.freeBlocks + Max(before.used[n], needed) == before.freeBlocks + before.used[n]
           && after.freeInodes == before.freeInodes
    case TruncateOp(n) =>
      && answer == Truncated && n in before.used
      && after
         == Model(before.bytes[n := []], before.used[n := 0], before.freeBlocks + before.used[n], before.freeInodes)
    case ReadOp(n, offset, len) =>
      n in before.bytes && answer == Bytes(ReadBytes(before.bytes[n], offset, len)) && after == before
  }

  /** The caller was given this number: it had it before the run, or a creation answered it. */
  ghost predicate Given(known: set<nat>, answers: seq<Answer>, t: nat, n: nat) {
    n in known || exists u :: 0 <= u < t && u < |answers| && answers[u] == Created(Ok(n))
  }

  /** One call of a run: a number that was never given out is not passed on. */
  ghost predicate CallOf(known: set<nat>, ops: seq<Op>, answers: seq<Answer>, history: seq<Model>, t: nat)
    requires t < |ops| && |answers| == |ops| && |history| == |ops| + 1
  {
    if ops[t].CreateOp? || Given(known, answers, t, ops[t].n)
    then Follows(history[t], ops[t], answers[t], history[t + 1])
    else answers[t] == Unnamed && history[t + 1] == history[t]
  }

  ghost predicate RunOf(known: set<nat>, ops: seq<Op>, answers: seq<Answer>, history: seq<Model>) {
    && |answers| == |ops| && |history| == |ops| + 1
    && forall t :: 0 <= t < |ops| ==> CallOf(known, ops, answers, history, t)
  }

  predicate Changes(op: Op, n: nat) {
    (op.WriteOp? || op.TruncateOp?) && op.n == n
  }

  /** What no write and no truncation names stays as it is. */
  lemma {:induction false} BytesKept(known: set<nat>, ops: seq<Op>, answers: seq<Answer>, history: seq<Model>,
                                     n: nat, lo: nat, hi: nat)
    requires RunOf(known, ops, answers, history) && lo <= hi <= |ops| && n in history[lo].bytes
    requires forall t :: lo <= t < hi ==> !Changes(ops[t], n)
    ensures n in history[hi].bytes && history[hi].bytes[n] == history[lo].bytes[n]
    decreases hi
  {
    if lo < hi {
      BytesKept(known, ops, answers, history, n, lo, hi - 1);
      assert CallOf(known, ops, answers, history, hi - 1) && !Changes(ops[hi - 1], n);
    }
  }

  /** In every run a read finds what the last successful write put there, whatever happened to other files. */
  lemma ReadsLastWrite(known: set<nat>, ops: seq<Op>, answers: seq<Answer>, history: seq<Model>, w: nat, r: nat)
    requires RunOf(known, ops, answers, history) && w < r < |ops|
    requires ops[w].WriteOp? && answers[w] == Wrote(Ok(|ops[w].data|))
    requires ops[r] == ReadOp(ops[w].n, ops[w].offset, |ops[w].data|)
    requires forall t :: w < t < r ==> !Changes(ops[t], ops[w].n)
    ensures answers[r] == Bytes(ops[w].data)
  {
    hide Room, BlocksNeeded;
    var n, offset, data := ops[w].n, ops[w].offset, ops[w].data;
    assert CallOf(known, ops, answers, history, w) && Given(known, answers, r, n);
    assert Written(history[w].bytes[n], offset, data, history[w + 1].bytes[n]);
    BytesKept(known, ops, answers, history, n, w + 1, r);
    assert CallOf(known, ops, answers, history, r);
    assert ReadBytes(history[r].bytes[n], offset, |data|) == data;
  }
}
