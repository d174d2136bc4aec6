/** The home filesystem's block layer, run on its device in place. */
module HomeFilesystem {
  import opened Wrappers
  import opened LittleEndian
  import opened HomeFsSpec

  class HomeFs {
    var disk: Disk
    var sb: Superblock
    var bits: seq<bool>
    var inodeBits: seq<bool>

    /** The file inodes under consideration. */
    ghost var files: set<nat>

    ghost function Now(): State
      reads this
    {
      State(disk, sb, bits, inodeBits)
    }

    ghost predicate Valid()
      reads this
    {
      Inv(Now(), files)
    }

    /** Formats a device: superblock, bitmaps, root inode and the root directory's block. No file yet. */
    constructor (device: Disk, rootBlock: Sector)
      requires Formed(device) && |rootBlock| == SECTOR_SIZE
      ensures Valid() && files == {}
      ensures sb == Superblock(0x5041_4E44, 2, 512, 1024, 256, 988, 255, 35, 1, 2, 3, 1)
      ensures HasRoot(Now(), rootBlock)
    {
      hide Pack, EncodeSuper, WithInode, Encode, Decode, InodeAt;
      var newSuper := Superblock(0x5041_4E44, 2, SECTOR_SIZE, SECTORS, MAX_INODES, MAX_DATA_BLOCKS - 1,
                                 MAX_INODES - 1, FIRST_DATA_BLOCK, 1, 2, 3, 1);
      var blockMap, inodeMap := NewBits(), NewInodeBits();
      var root := Inode(1, 2, 0x1ED, 0, 0, 1, SECTOR_SIZE, 1, [FIRST_DATA_BLOCK, 0, 0, 0, 0, 0, 0, 0],
                        [0, 0, 0, 0, 0, 0, 0, 0]);
      var d := device[0 := EncodeSuper(newSuper)][1 := Pack(inodeMap)][2 := Pack(blockMap)];
      WithInodeElsewhere(d, root);
      ghost var d' := WithInode(d, root);
      assert forall k :: 0 <= k < 3 ==> d'[k] == d'[..3][k] == d[..3][k];
      WithInodeAt(d, root, 1);
      d := WithInode(d, root);
      SameInodes(d, d[FIRST_DATA_BLOCK := rootBlock], 1);
      d := d[FIRST_DATA_BLOCK := rootBlock];
      disk, sb, bits, inodeBits := d, newSuper, blockMap, inodeMap;
      files := {};
      new;
      NewBitsCount();
      NewInodeBitsCount();
    }

    // ---------- Blocks ----------

    /** Looks for the first clear bit, a byte at a time, in the whole bytes below the block limit. */
    static method FindFreeBlock(bits: seq<bool>) returns (r: Option<nat>)
      requires |bits| == 4096 && bits[0]
      ensures r.None? <==> forall b :: 0 <= b < SCANNED ==> bits[b]
      ensures r.Some? ==> 0 < r.value < SCANNED && !bits[r.value] && forall b :: 0 <= b < r.value ==> bits[b]
    {
      hide PackByte;
      var maxBytes := MAX_DATA_BLOCKS / 8;
      for byteIdx := 0 to maxBytes
        invariant forall b :: 0 <= b < 8 * byteIdx ==> bits[b]
      {
        var eight := bits[8 * byteIdx..8 * byteIdx + 8];
        FullByte(eight);
        if PackByte(eight) != 0xFF {
          for bit := 0 to 8
            invariant forall k :: 0 <= k < bit ==> eight[k]
          {
            if !eight[bit] {
              FirstClear(bits, byteIdx, bit);
              return Some(byteIdx * 8 + bit);
            }
          }
        }
        forall b | 0 <= b < 8 * (byteIdx + 1)
          ensures bits[b]
        {
          assert b >= 8 * byteIdx ==> eight[b - 8 * byteIdx];
        }
      }
      return None;
    }

    method AllocateBlock() returns (r: Result<nat, FsError>)
      requires Synced(Now())
      modifies this`disk, this`sb, this`bits
      ensures r.Err? <==> old(sb.freeBlocks) == UNREACHED
      ensures r.Err? ==> r.error == NoSpace && Now() == old(Now())
      ensures r.Ok? ==> 0 < r.value < SCANNED && !old(bits)[r.value] && forall b :: 0 <= b < r.value ==> old(bits)[b]
      ensures r.Ok? ==> old(sb.freeBlocks) > 0 && Now() == Mark(old(Now()), r.value, true)
      ensures Synced(Now())
    {
      hide Pack, EncodeSuper;
      LastBlocksNeverFound(bits, sb.freeBlocks);
      if sb.freeBlocks == 0 {
        return Err(NoSpace);
      }
      var found := FindFreeBlock(bits);
      if found.None? {
        return Err(NoSpace);
      }
      var block := found.value;
      MarkSynced(Now(), block, true);
      bits := bits[block := true];
      sb := sb.(freeBlocks := sb.freeBlocks - 1);
      disk := disk[2 := Pack(bits)];
      disk := disk[0 := EncodeSuper(sb)];
      return Ok(block);
    }

    static lemma FirstClear(bits: seq<bool>, byteIdx: nat, bit: nat)
      requires |bits| == 4096 && byteIdx < MAX_DATA_BLOCKS / 8 && bit < 8 && bits[0]
      requires forall b :: 0 <= b < 8 * byteIdx ==> bits[b]
      requires var eight := bits[8 * byteIdx..8 * byteIdx + 8]; !eight[bit] && forall k :: 0 <= k < bit ==> eight[k]
      ensures var block := byteIdx * 8 + bit;
              0 < block < SCANNED && !bits[block] && forall b :: 0 <= b < block ==> bits[b]
    {
      var eight := bits[8 * byteIdx..8 * byteIdx + 8];
      forall b | 0 <= b < byteIdx * 8 + bit
        ensures bits[b]
      {
        assert b >= 8 * byteIdx ==> eight[b - 8 * byteIdx];
      }
      assert eight[bit] == bits[8 * byteIdx + bit];
    }

    method FreeBlock(block: nat) returns (r: Result<(), FsError>)
      requires Synced(Now())
      modifies this`disk, this`sb, this`bits
      ensures r.Err? <==> block >= MAX_DATA_BLOCKS || !old(bits)[block]
      ensures r.Err? ==> r.error == InvalidArgument && Now() == old(Now())
      ensures r.Ok? ==> Now() == Mark(old(Now()), block, false)
      ensures block > 0 ==> Synced(Now())
    {
      hide Pack, EncodeSuper;
      if block >= MAX_DATA_BLOCKS || !bits[block] {
        return Err(InvalidArgument);
      }
      if block > 0 {
        MarkSynced(Now(), block, false);
      }
      bits := bits[block := false];
      sb := sb.(freeBlocks := sb.freeBlocks + 1);
      disk := disk[2 := Pack(bits)];
      disk := disk[0 := EncodeSuper(sb)];
      return Ok(());
    }

    // ---------- Inodes ----------

    /** Looks for the first clear bit past number 0, a byte at a time. */
    static method FindFreeInode(bits: seq<bool>) returns (r: Option<nat>)
      requires |bits| == 4096
      ensures r.None? <==> forall n :: 0 < n < MAX_INODES ==> bits[n]
      ensures r.Some? ==> 0 < r.value < MAX_INODES && !bits[r.value] && forall n :: 0 < n < r.value ==> bits[n]
    {
      hide PackByte;
      for byteIdx := 0 to 32
        invariant forall n :: 0 < n < 8 * byteIdx ==> bits[n]
      {
        var eight := bits[8 * byteIdx..8 * byteIdx + 8];
        FullByte(eight);
        if PackByte(eight) != 0xFF {
          for bit := 0 to 8
            invariant forall k :: 0 <= k < bit ==> eight[k] || 8 * byteIdx + k == 0
          {
            if !eight[bit] {
              var number := byteIdx * 8 + bit;
              if number == 0 || number >= MAX_INODES {
                continue;
              }
              FirstNumber(bits, byteIdx, bit);
              return Some(number);
            }
          }
        }
        NumbersTaken(bits, byteIdx);
      }
      return None;
    }

    static lemma NumbersTaken(bits: seq<bool>, byteIdx: nat)
      requires |bits| == 4096 && byteIdx < 32 && forall n :: 0 < n < 8 * byteIdx ==> bits[n]
      requires var eight := bits[8 * byteIdx..8 * byteIdx + 8];
               forall k :: 0 <= k < 8 ==> eight[k] || 8 * byteIdx + k == 0
      ensures forall n :: 0 < n < 8 * (byteIdx + 1) ==> bits[n]
    {
      var eight := bits[8 * byteIdx..8 * byteIdx + 8];
      forall n | 0 < n < 8 * (byteIdx + 1)
        ensures bits[n]
      {
        if n >= 8 * byteIdx {
          assert bits[n] == eight[n - 8 * byteIdx];
        }
      }
    }

    static lemma FirstNumber(bits: seq<bool>, byteIdx: nat, bit: nat)
      requires |bits| == 4096 && byteIdx < 32 && bit < 8 && byteIdx * 8 + bit > 0
      requires forall n :: 0 < n < 8 * byteIdx ==> bits[n]
      requires var eight := bits[8 * byteIdx..8 * byteIdx + 8];
               !eight[bit] && forall k :: 0 <= k < bit ==> eight[k] || 8 * byteIdx + k == 0
      ensures var number := byteIdx * 8 + bit;
              !bits[number] && forall n :: 0 < n < number ==> bits[n]
    {
      var eight := bits[8 * byteIdx..8 * byteIdx + 8];
      forall n | 0 < n < byteIdx * 8 + bit
        ensures bits[n]
      {
        assert n >= 8 * byteIdx ==> eight[n - 8 * byteIdx];
      }
      assert eight[bit] == bits[8 * byteIdx + bit];
    }

    method AllocateInode() returns (r: Result<nat, FsError>)
      requires Valid()
      modifies this`disk, this`sb, this`inodeBits
      ensures r.Err? <==> old(sb.freeInodes) == 1
      ensures r.Err? ==> r.error == NoSpace && Now() == old(Now())
      ensures r.Ok? ==> 0 < r.value < MAX_INODES && !old(inodeBits)[r.value] && old(sb.freeInodes) > 0
      ensures r.Ok? ==> forall n :: 0 < n < r.value ==> old(inodeBits)[n]
      ensures r.Ok? ==> Now() == MarkInode(old(Now()), r.value) && r.value !in files
      ensures Valid() && forall m :: InodeNumber(m) ==> InodeAt(disk, m) == InodeAt(old(disk), m)
    {
      hide Pack, EncodeSuper, InodeAt;
      LastInodeNeverFound(inodeBits, sb.freeInodes);
      if sb.freeInodes == 0 {
        return Err(NoSpace);
      }
      var found := FindFreeInode(inodeBits);
      if found.None? {
        return Err(NoSpace);
      }
      var number := found.value;
      MarkInodeKeepsFiles(Now(), files, number);
      inodeBits := inodeBits[number := true];
      sb := sb.(freeInodes := sb.freeInodes - 1);
      disk := disk[1 := Pack(inodeBits)];
      disk := disk[0 := EncodeSuper(sb)];
      return Ok(number);
    }

    /** The inode of a new file: a number is taken and an inode without blocks written under it. */
    method CreateFileInode(mode: nat) returns (r: Result<nat, FsError>)
      requires Valid() && mode < 0x1_0000
      modifies this`disk, this`sb, this`inodeBits, this`files
      ensures Valid()
      ensures r.Err? <==> old(sb.freeInodes) == 1
      ensures r.Err? ==> r.error == NoSpace && Now() == old(Now()) && files == old(files)
      ensures r.Ok? ==> files == old(files) + {r.value} && AddedFile(old(Now()), Now(), old(files), r.value)
      ensures r.Ok? ==> old(sb.freeInodes) > 0 && sb == old(sb).(freeInodes := old(sb.freeInodes) - 1)
      ensures r.Ok? ==> var i := InodeAt(disk, r.value);
                        i.kind == FILE && i.mode == mode && i.uid == 0 && i.gid == 0 && i.links == 1
    {
      hide Pack, EncodeSuper, InodeAt, Contents, Sound, MarkInode;
      r := AllocateInode();
      AllocatedInode(old(Now()), Now(), files, r);
      if r.Err? {
        return;
      }
      var i := Inode(r.value, FILE, mode, 0, 0, 1, 0, 0, [0, 0, 0, 0, 0, 0, 0, 0], [0, 0, 0, 0, 0, 0, 0, 0]);
      NewFileKeeps(Now(), files, i);
      ghost var middle := disk;
      var _ := WriteInode(i);
      SameFilesTrans(old(disk), middle, disk, files);
      files := files + {r.value};
    }

    /** What taking a number leaves of the files, and what it changes. */
    static lemma AllocatedInode(s: State, s': State, files: set<nat>, r: Result<nat, FsError>)
      requires Inv(s, files) && Inv(s', files) && (r.Err? ==> s' == s)
      requires r.Ok? ==> r.value < MAX_INODES && s.sb.freeInodes > 0 && s' == MarkInode(s, r.value)
      requires forall m :: InodeNumber(m) ==> InodeAt(s'.disk, m) == InodeAt(s.disk, m)
      ensures forall m :: m in files ==> SameFile(s.disk, s'.disk, m)
      ensures r.Ok? ==> s'.inodeBits[r.value] && s'.sb == s.sb.(freeInodes := s.sb.freeInodes - 1)
    {
      hide Pack, EncodeSuper, InodeAt, Contents, Sound;
      forall m | m in files
        ensures SameFile(s.disk, s'.disk, m)
      {
        SameContents(s.disk, s'.disk, InodeAt(s.disk, m));
      }
    }

    static lemma SameFilesTrans(d: Disk, d': Disk, d'': Disk, files: set<nat>)
      requires forall m :: m in files ==> SameFile(d, d', m) && SameFile(d', d'', m)
      ensures forall m :: m in files ==> SameFile(d, d'', m)
    {
    }

    method ReadInode(n: nat) returns (r: Result<Inode, FsError>)
      requires Formed(disk)
      ensures r == if InodeNumber(n) then Ok(InodeAt(disk, n)) else Err(InvalidArgument)
    {
      if n == 0 || n > MAX_INODES {
        return Err(InvalidArgument);
      }
      InodePlace(n);
      var sector := 3 + (n - 1) / 8;
      var offset := (n - 1) % 8 * INODE_SIZE;
      return Ok(Decode(disk[sector][offset..offset + INODE_SIZE]));
    }

    /** Reads the sector, replaces the record and writes the sector back. */
    method WriteInode(i: Inode) returns (r: Result<(), FsError>)
      requires Formed(disk) && Fitting(i)
      modifies this`disk
      ensures Formed(disk) && disk == if InodeNumber(i.num) then WithInode(old(disk), i) else old(disk)
      ensures r == if InodeNumber(i.num) then Ok(()) else Err(InvalidArgument)
    {
      if i.num == 0 || i.num > MAX_INODES {
        return Err(InvalidArgument);
      }
      InodePlace(i.num);
      var sector := 3 + (i.num - 1) / 8;
      var offset := (i.num - 1) % 8 * INODE_SIZE;
      var buf := disk[sector];
      buf := buf[..offset] + Encode(i) + buf[offset + INODE_SIZE..];
      disk := disk[sector := buf];
      return Ok(());
    }

    // ---------- Files ----------

    /** Reads through the block list up to the end of the file. */
    method ReadFile(n: nat, offset: nat, buf: array<Byte>) returns (r: Result<nat, FsError>)
      requires Valid() && (InodeNumber(n) && InodeAt(disk, n).kind == FILE ==> n in files)
      modifies buf
      ensures !InodeNumber(n) ==> r == Err(InvalidArgument)
      ensures InodeNumber(n) && InodeAt(disk, n).kind != FILE ==> r == Err(NotFile)
      ensures n in files ==>
                var bytes := FileBytes(disk, n);
                && r == Ok(if offset >= |bytes| then 0
                           else if buf.Length < |bytes| - offset then buf.Length
                           else |bytes| - offset)
                && (forall k :: 0 <= k < r.value ==> buf[k] == bytes[offset + k])
      ensures forall k :: (if r.Ok? then r.value else 0) <= k < buf.Length ==> buf[k] == old(buf[k])
    {
      hide Pack, EncodeSuper, Decode, FilesApart, InodeAt, ByteOf, Sound;
      var inode := ReadInode(n);
      if inode.Err? {
        return Err(inode.error);
      }
      var i := inode.value;
      SoundSize(i, bits);
      if i.kind != FILE {
        return Err(NotFile);
      }
      if offset >= i.size {
        return Ok(0);
      }
      var toRead := if buf.Length < i.size - offset then buf.Length else i.size - offset;
      var done := 0;
      while done < toRead
        invariant 0 <= done <= toRead
        invariant forall k :: 0 <= k < done ==> buf[k] == ByteOf(disk, i, offset + k)
        invariant forall k :: done <= k < buf.Length ==> buf[k] == old(buf[k])
      {
        var blockIdx := (offset + done) / SECTOR_SIZE;
        var blockOffset := (offset + done) % SECTOR_SIZE;
        BlockInFile(disk, i, bits, offset + done);
        if blockIdx >= MAX_DIRECT || blockIdx >= i.used {
          break;
        }
        var block := i.blocks[blockIdx];
        if block == 0 {
          break;
        }
        var sector := disk[sb.firstDataBlock + block];
        var room, rest := SECTOR_SIZE - blockOffset, toRead - done;
        var chunk := if room < rest then room else rest;
        CopyChunk(buf, done, sector, blockOffset, chunk);
        forall k | done <= k < done + chunk
          ensures buf[k] == ByteOf(disk, i, offset + k)
        {
          ByteInBlock(disk, i, offset + done, k - done);
        }
        done := done + chunk;
      }
      return Ok(done);
    }

    /** Copies part of a sector into the buffer. */
    static method CopyChunk(buf: array<Byte>, at: nat, sector: Sector, from: nat, count: nat)
      requires at + count <= buf.Length && from + count <= |sector|
      modifies buf
      ensures forall k :: at <= k < at + count ==> buf[k] == sector[from + (k - at)]
      ensures forall k :: 0 <= k < buf.Length && !(at <= k < at + count) ==> buf[k] == old(buf[k])
    {
      for c := 0 to count
        invariant forall k :: at <= k < at + c ==> buf[k] == sector[from + (k - at)]
        invariant forall k :: 0 <= k < buf.Length && !(at <= k < at + c) ==> buf[k] == old(buf[k])
      {
        buf[at + c] := sector[from + c];
      }
    }

    static lemma SameBlock(at: nat, c: nat)
      requires at % SECTOR_SIZE + c < SECTOR_SIZE
      ensures (at + c) / SECTOR_SIZE == at / SECTOR_SIZE && (at + c) % SECTOR_SIZE == at % SECTOR_SIZE + c
    {
    }

    static lemma SoundSize(i: Inode, bits: seq<bool>)
      ensures Sound(i, bits) ==> i.kind == FILE && i.size <= SECTOR_SIZE * i.used
    {
    }

    /** The block that holds a byte of the file. */
    static lemma BlockInFile(d: Disk, i: Inode, bits: seq<bool>, at: nat)
      requires Formed(d) && Sound(i, bits) && at < SECTOR_SIZE * i.used
      ensures at / SECTOR_SIZE < i.used <= MAX_DIRECT == |i.blocks|
      ensures 0 < i.blocks[at / SECTOR_SIZE] && FIRST_DATA_BLOCK + i.blocks[at / SECTOR_SIZE] < SECTORS
      ensures |d[FIRST_DATA_BLOCK + i.blocks[at / SECTOR_SIZE]]| == SECTOR_SIZE
    {
    }

    /** The bytes of a file that lie in one block. */
    static lemma ByteInBlock(d: Disk, i: Inode, at: nat, c: nat)
      requires Formed(d) && at % SECTOR_SIZE + c < SECTOR_SIZE && at / SECTOR_SIZE < |i.blocks|
      requires FIRST_DATA_BLOCK + i.blocks[at / SECTOR_SIZE] < SECTORS
      ensures ByteOf(d, i, at + c) == d[FIRST_DATA_BLOCK + i.blocks[at / SECTOR_SIZE]][at % SECTOR_SIZE + c]
    {
      SameBlock(at, c);
    }

    /** What a disk written only outside the inodes and the data area keeps of every inode and file. */
    static ghost predicate SameArea(d: Disk, d': Disk) {
      && Formed(d) && Formed(d')
      && (forall n :: InodeNumber(n) ==> InodeAt(d', n) == InodeAt(d, n))
      && forall s :: FIRST_DATA_BLOCK <= s < SECTORS ==> d'[s] == d[s]
    }

    /** Takes blocks for a file until it has as many as it needs; the inode on disk is not touched yet. */
    method GrowInode(i: Inode, needed: nat) returns (i': Inode, ok: bool)
      requires Valid() && i.num in files && InodeAt(disk, i.num) == i && needed <= MAX_DIRECT
      modifies this`disk, this`sb, this`bits
      ensures Valid() && SameArea(old(disk), disk) && sb == old(sb).(freeBlocks := sb.freeBlocks)
      ensures ok <==> needed <= i.used + (old(sb.freeBlocks) - UNREACHED)
      ensures !ok ==> sb.freeBlocks == UNREACHED
      ensures ok ==> Ready(Now(), files, i') && i'.used == if i.used < needed then needed else i.used
      ensures ok ==> i'.used + sb.freeBlocks == i.used + old(sb.freeBlocks)
      ensures i'.num == i.num && i'.size == i.size && i.used <= i'.used <= |i'.blocks|
      ensures |i.blocks| == |i'.blocks| && forall k :: 0 <= k < i.used ==> i'.blocks[k] == i.blocks[k]
      ensures SameOwner(i, i')
    {
      hide Pack, EncodeSuper, Decode, InodeAt, Mark, Sound, Apart;
      i' := i;
      StartReady(Now(), files, i);
      LastBlocksNeverFound(bits, sb.freeBlocks);
      while i'.used < needed
        invariant Valid() && SameArea(old(disk), disk) && Ready(Now(), files, i')
        invariant sb == old(sb).(freeBlocks := sb.freeBlocks) && sb.freeBlocks >= UNREACHED
        invariant i'.num == i.num && i'.size == i.size && i.used <= i'.used <= |i'.blocks| == |i.blocks| == MAX_DIRECT
        invariant i'.used <= needed || i'.used == i.used
        invariant SameOwner(i, i')
        invariant forall k :: 0 <= k < i.used ==> i'.blocks[k] == i.blocks[k]
        invariant i'.used + sb.freeBlocks == i.used + old(sb.freeBlocks)
        decreases needed - i'.used
      {
        ghost var before := Now();
        var r := AllocateBlock();
        if r.Err? {
          return i', false;
        }
        GrowKeepsReady(before, files, i', r.value);
        MarkArea(before, r.value);
        LastBlocksNeverFound(bits, sb.freeBlocks);
        i' := i'.(blocks := i'.blocks[i'.used := r.value], used := i'.used + 1);
      }
      ok := true;
    }

    static lemma MarkArea(s: State, b: nat)
      requires Synced(s) && b < MAX_DATA_BLOCKS && s.sb.freeBlocks > 0
      ensures Mark(s, b, true).sb == s.sb.(freeBlocks := s.sb.freeBlocks - 1)
      ensures forall k :: FIRST_DATA_BLOCK <= k < SECTORS ==> Mark(s, b, true).disk[k] == s.disk[k]
    {
      hide Pack, EncodeSuper;
    }

    static lemma StartReady(s: State, files: set<nat>, i: Inode)
      requires Inv(s, files) && i.num in files && InodeAt(s.disk, i.num) == i
      ensures Ready(s, files, i) && |i.blocks| == MAX_DIRECT && i.used <= MAX_DIRECT
    {
    }

    /** Bytes through the block list: the data from a position on, everything else as it was. */
    static ghost predicate Spliced(d: Disk, d': Disk, i: Inode, at: nat, data: seq<Byte>) {
      forall k :: 0 <= k < SECTOR_SIZE * i.used ==>
                    ByteOf(d', i, k) == if at <= k < at + |data| then data[k - at] else ByteOf(d, i, k)
    }

    /** No inode and no file but the given one is touched. */
    static ghost predicate OnlyData(d: Disk, d': Disk, files: set<nat>, n: nat) {
      && (forall m :: InodeNumber(m) ==> InodeAt(d', m) == InodeAt(d, m))
      && forall m :: m in files && m != n ==> SameFile(d, d', m)
    }

    static lemma SplicedNothing(d: Disk, files: set<nat>, i: Inode, at: nat)
      ensures Spliced(d, d, i, at, []) && OnlyData(d, d, files, i.num)
    {
      hide ByteOf, InodeAt, FileBytes;
    }

    static lemma SplicedMore(d: Disk, d1: Disk, d2: Disk, i: Inode, at: nat, data: seq<Byte>, w: nat, c: nat)
      requires w + c <= |data| && Spliced(d, d1, i, at, data[..w]) && Spliced(d1, d2, i, at + w, data[w..w + c])
      ensures Spliced(d, d2, i, at, data[..w + c])
    {
      hide ByteOf;
    }

    static lemma OnlyDataMore(d: Disk, d1: Disk, d2: Disk, files: set<nat>, n: nat)
      requires OnlyData(d, d1, files, n) && OnlyData(d1, d2, files, n)
      ensures OnlyData(d, d2, files, n)
    {
      hide InodeAt, FileBytes;
    }

    /** Replaces a piece of one block of an inode: read the sector, change it, write it back. */
    method WriteChunk(i: Inode, at: nat, piece: seq<Byte>)
      requires Inv(Now(), files - {i.num}) && (forall n :: n in files ==> InodeNumber(n)) && Ready(Now(), files, i)
      requires at < SECTOR_SIZE * i.used && at % SECTOR_SIZE + |piece| <= SECTOR_SIZE
      modifies this`disk
      ensures Inv(Now(), files - {i.num}) && Ready(Now(), files, i)
      ensures OnlyData(old(disk), disk, files, i.num) && Spliced(old(disk), disk, i, at, piece)
    {
      hide Pack, EncodeSuper, Decode, InodeAt, ByteOf, Apart, FilesSound, FilesApart, Uses, FileBytes;
      var blockIdx, blockOffset := at / SECTOR_SIZE, at % SECTOR_SIZE;
      BlockInFile(disk, i, bits, at);
      UsesBlock(i, blockIdx);
      var sector := sb.firstDataBlock + i.blocks[blockIdx];
      var buf := disk[sector];
      buf := buf[..blockOffset] + piece + buf[blockOffset + |piece|..];
      DataKeeps(Now(), files, i, i.blocks[blockIdx], buf);
      ghost var before := disk;
      disk := disk[sector := buf];
      forall k | 0 <= k < SECTOR_SIZE * i.used
        ensures ByteOf(disk, i, k) == if at <= k < at + |piece| then piece[k - at] else ByteOf(before, i, k)
      {
        ChunkBytes(before, i, blockIdx, blockOffset, piece, k);
      }
    }

    /** Copies data into the blocks of an inode, a block at a time. */
    method WriteBlocks(i: Inode, offset: nat, data: seq<Byte>) returns (written: nat)
      requires Inv(Now(), files - {i.num}) && (forall n :: n in files ==> InodeNumber(n)) && Ready(Now(), files, i)
      requires offset + |data| <= SECTOR_SIZE * i.used
      modifies this`disk
      ensures Inv(Now(), files - {i.num}) && Ready(Now(), files, i) && written == |data|
      ensures OnlyData(old(disk), disk, files, i.num) && Spliced(old(disk), disk, i, offset, data)
    {
      hide Inv, Ready, Spliced, OnlyData;
      written := 0;
      SplicedNothing(disk, files, i, offset);
      assert data[..0] == [];
      while written < |data|
        invariant 0 <= written <= |data|
        invariant Inv(Now(), files - {i.num}) && Ready(Now(), files, i)
        invariant OnlyData(old(disk), disk, files, i.num) && Spliced(old(disk), disk, i, offset, data[..written])
      {
        var blockIdx := (offset + written) / SECTOR_SIZE;
        var blockOffset := (offset + written) % SECTOR_SIZE;
        ReadyBlock(Now(), files, i, offset + written);
        if blockIdx >= MAX_DIRECT {
          break;
        }
        if i.blocks[blockIdx] == 0 {
          break;
        }
        var room, rest := SECTOR_SIZE - blockOffset, |data| - written;
        var chunk := if room < rest then room else rest;
        ghost var before := disk;
        WriteChunk(i, offset + written, data[written..written + chunk]);
        SplicedMore(old(disk), before, disk, i, offset, data, written, chunk);
        OnlyDataMore(old(disk), before, disk, files, i.num);
        written := written + chunk;
      }
      assert data[..written] == data;
    }

    static lemma ReadyBlock(s: State, files: set<nat>, i: Inode, at: nat)
      requires Inv(s, files - {i.num}) && Ready(s, files, i) && at < SECTOR_SIZE * i.used
      ensures at / SECTOR_SIZE < i.used <= MAX_DIRECT == |i.blocks| && 0 < i.blocks[at / SECTOR_SIZE]
    {
      BlockInFile(s.disk, i, s.bits, at);
    }

    /** One block of a file with a piece of it replaced, byte by byte. */
    static lemma ChunkBytes(d: Disk, i: Inode, idx: nat, at: nat, piece: seq<Byte>, k: nat)
      requires Formed(d) && idx < i.used <= |i.blocks| && at + |piece| <= SECTOR_SIZE && k < SECTOR_SIZE * i.used
      requires forall j :: 0 <= j < i.used ==> FIRST_DATA_BLOCK + i.blocks[j] < SECTORS
      requires forall j, l :: 0 <= j < l < i.used ==> i.blocks[j] != i.blocks[l]
      ensures var s := FIRST_DATA_BLOCK + i.blocks[idx];
              var first := SECTOR_SIZE * idx + at;
              var d' := d[s := d[s][..at] + piece + d[s][at + |piece|..]];
              ByteOf(d', i, k) == if first <= k < first + |piece| then piece[k - first] else ByteOf(d, i, k)
    {
      assert k / SECTOR_SIZE < i.used;
      assert k == SECTOR_SIZE * (k / SECTOR_SIZE) + k % SECTOR_SIZE;
    }

    /** The first k + 1 blocks are the first k and one that is not among them. */
    static lemma UsesOneMore(i: Inode, k: nat)
      requires k < i.used && k < |i.blocks| && forall j :: 0 <= j < k ==> i.blocks[j] != i.blocks[k]
      ensures forall b :: Uses(i.(used := k + 1), b) <==> Uses(i.(used := k), b) || b == i.blocks[k]
      ensures !Uses(i.(used := k), i.blocks[k])
    {
      var less, more := i.(used := k), i.(used := k + 1);
      forall b
        ensures Uses(more, b) <==> Uses(less, b) || b == i.blocks[k]
      {
        if b == i.blocks[k] {
          assert more.blocks[k] == b;
        } else if Uses(less, b) {
          var j :| 0 <= j < k && less.blocks[j] == b;
          assert more.blocks[j] == b;
        }
      }
    }

    static lemma UsesBlock(i: Inode, k: nat)
      requires k < i.used && k < |i.blocks|
      ensures Uses(i, i.blocks[k])
    {
    }

    static lemma InvFewer(s: State, files: set<nat>, n: nat)
      requires Inv(s, files)
      ensures Inv(s, files - {n})
    {
    }

    /** Takes the blocks that are missing, copies the data and writes the inode last. */
    method WriteFile(n: nat, offset: nat, data: seq<Byte>) returns (r: Result<nat, FsError>)
      requires Valid() && (InodeNumber(n) && InodeAt(disk, n).kind == FILE ==> n in files)
      modifies this`disk, this`sb, this`bits
      ensures Valid() && sb == old(sb).(freeBlocks := sb.freeBlocks)
      ensures forall m :: m in files && m != n ==> SameFile(old(disk), disk, m)
      ensures !InodeNumber(n) ==> r == Err(InvalidArgument) && Now() == old(Now())
      ensures InodeNumber(n) && InodeAt(old(disk), n).kind != FILE ==> r == Err(NotFile) && Now() == old(Now())
      ensures n in files ==> (r.Ok? <==> Room(offset + |data|, InodeAt(old(disk), n).used, old(sb.freeBlocks)))
      ensures n in files && r.Err? ==> r.error == NoSpace && SameFile(old(disk), disk, n)
      ensures n in files && r.Err? ==>
                sb.freeBlocks == if BlocksNeeded(offset + |data|) <= MAX_DIRECT then UNREACHED else old(sb.freeBlocks)
      ensures n in files && r.Ok? ==> r.value == |data|
      ensures n in files && r.Ok? ==> Written(FileBytes(old(disk), n), offset, data, FileBytes(disk, n))
      ensures n in files && r.Ok? ==>
                var used := InodeAt(old(disk), n).used;
                && InodeAt(disk, n).used == Max(used, BlocksNeeded(offset + |data|))
                && InodeAt(disk, n).used + sb.freeBlocks == used + old(sb.freeBlocks)
      ensures n in files ==> SameOwner(InodeAt(old(disk), n), InodeAt(disk, n))
    {
      hide Pack, EncodeSuper, Decode, InodeAt, Mark, ByteOf, Contents, Apart, Written;
      LastBlocksNeverFound(bits, sb.freeBlocks);
      var inode := ReadInode(n);
      if inode.Err? {
        return Err(inode.error);
      }
      var i := inode.value;
      if i.kind != FILE {
        return Err(NotFile);
      }
      var end := offset + |data|;
      var needed := (end + SECTOR_SIZE - 1) / SECTOR_SIZE;
      if needed > MAX_DIRECT {
        return Err(NoSpace);
      }
      var grown, ok := GrowInode(i, needed);
      AreaKeepsFiles(old(disk), disk, files);
      if !ok {
        return Err(NoSpace);
      }
      ghost var middle := disk;
      r := FinishWrite(i, grown, offset, data);
      SameFilesTrans(old(disk), middle, disk, files - {n});
    }

    /** The second half of a write, with every block at hand: the data, then the inode. */
    method FinishWrite(ghost i: Inode, grown: Inode, offset: nat, data: seq<Byte>) returns (r: Result<nat, FsError>)
      requires Valid() && i.num in files && InodeAt(disk, i.num) == i && Ready(Now(), files, grown)
      requires grown.num == i.num && grown.size == i.size && i.used <= grown.used && |i.blocks| == |grown.blocks|
      requires forall k :: 0 <= k < i.used && k < |i.blocks| && k < |grown.blocks| ==> grown.blocks[k] == i.blocks[k]
      requires offset + |data| <= SECTOR_SIZE * grown.used && SameOwner(i, grown)
      modifies this`disk
      ensures Valid() && r == Ok(|data|) && InodeAt(disk, i.num).used == grown.used
      ensures SameOwner(i, InodeAt(disk, i.num))
      ensures forall m :: m in files && m != i.num ==> SameFile(old(disk), disk, m)
      ensures Written(FileBytes(old(disk), i.num), offset, data, FileBytes(disk, i.num))
    {
      hide Pack, EncodeSuper, Decode, InodeAt, ByteOf, Contents, Apart, Written, Spliced, Sound;
      InvFewer(Now(), files, i.num);
      ghost var middle := disk;
      var written := WriteBlocks(grown, offset, data);
      ghost var late := disk;
      var end := offset + |data|;
      var last := if end > grown.size then grown.(size := end) else grown;
      SizeFits(i, grown, last, bits);
      SizeKeepsReady(Now(), files, grown, last.size);
      var _ := WriteInode(last);
      WriteInodeKeeps(State(late, sb, bits, inodeBits), files, last);
      SameFilesTrans(middle, late, disk, files - {i.num});
      WrittenBytes(middle, late, i, grown, last, offset, data);
      return Ok(written);
    }

    static lemma SizeFits(i: Inode, grown: Inode, last: Inode, bits: seq<bool>)
      requires Sound(i, bits) && Sound(grown, bits) && grown.size == i.size && i.used <= grown.used
      requires last.size <= grown.size || last.size <= SECTOR_SIZE * grown.used
      ensures i.used <= grown.used <= |grown.blocks| == |i.blocks| && grown.size == i.size <= SECTOR_SIZE * i.used
      ensures last.size <= SECTOR_SIZE * grown.used
    {
    }

    static lemma SizeKeepsReady(s: State, files: set<nat>, i: Inode, size: nat)
      requires Ready(s, files, i) && size <= SECTOR_SIZE * i.used
      ensures Ready(s, files, i.(size := size)) && Fitting(i.(size := size))
    {
      hide InodeAt;
      var j := i.(size := size);
      forall m | m in files && m != i.num
        ensures Apart(InodeAt(s.disk, m), j)
      {
        assert Apart(InodeAt(s.disk, m), i);
        assert forall b :: Uses(j, b) ==> Uses(i, b);
      }
    }

    static lemma AreaKeepsFiles(d: Disk, d': Disk, files: set<nat>)
      requires SameArea(d, d') && forall n :: n in files ==> InodeNumber(n)
      ensures forall n :: n in files ==> SameFile(d, d', n)
    {
      forall n | n in files
        ensures SameFile(d, d', n)
      {
        SameContents(d, d', InodeAt(d, n));
      }
    }

    static lemma WrittenBytes(d: Disk, late: Disk, i: Inode, grown: Inode, last: Inode, offset: nat, data: seq<Byte>)
      requires i.used <= grown.used <= |grown.blocks| == |i.blocks| && grown.size == i.size <= SECTOR_SIZE * i.used
      requires forall k :: 0 <= k < i.used ==> grown.blocks[k] == i.blocks[k]
      requires offset + |data| <= SECTOR_SIZE * grown.used
      requires last == if offset + |data| > grown.size then grown.(size := offset + |data|) else grown
      requires Spliced(d, late, grown, offset, data)
      ensures Written(Contents(d, i), offset, data, Contents(late, last))
    {
      var before, after := Contents(d, i), Contents(late, last);
      forall k | 0 <= k < last.size
        ensures after[k] == ByteOf(late, grown, k)
      {
      }
      forall k | 0 <= k < i.size
        ensures ByteOf(d, grown, k) == before[k]
      {
        assert k / SECTOR_SIZE < i.used;
      }
    }

    /** Gives back one block of an inode, which no other file uses. */
    method FreeOwn(ghost d: Disk, ghost i: Inode, block: nat)
      requires Inv(Now(), files - {i.num}) && SameArea(d, disk) && Uses(i, block)
      requires forall n :: n in files ==> InodeNumber(n)
      requires forall m :: m in files && m != i.num ==> Apart(InodeAt(d, m), i)
      requires 0 < block < MAX_DATA_BLOCKS && |bits| == 4096 && bits[block]
      modifies this`disk, this`sb, this`bits
      ensures Inv(Now(), files - {i.num}) && SameArea(d, disk)
      ensures sb == old(sb).(freeBlocks := old(sb.freeBlocks) + 1) && bits == old(bits)[block := false]
    {
      hide Pack, EncodeSuper, Decode, InodeAt, Mark, ByteOf, Apart, Contents, Uses;
      ghost var before := Now();
      OthersApart(d, disk, files, i, block);
      FreeKeepsFiles(before, files - {i.num}, block);
      FreeArea(before, block);
      var _ := FreeBlock(block);
    }

    /** The first k blocks of an inode are given back, and no others. */
    static ghost predicate Freed(before: seq<bool>, after: seq<bool>, i: Inode, k: nat) {
      |after| == |before| == 4096
      && forall b :: 0 <= b < 4096 ==> (after[b] <==> before[b] && !Uses(i.(used := k), b))
    }

    static lemma FreedNone(bits: seq<bool>, i: Inode)
      requires |bits| == 4096
      ensures Freed(bits, bits, i, 0)
    {
    }

    static lemma FreedNext(before: seq<bool>, after: seq<bool>, i: Inode, k: nat)
      requires Freed(before, after, i, k) && Sound(i, before) && k < i.used
      ensures |i.blocks| == MAX_DIRECT && i.used <= MAX_DIRECT && 0 < i.blocks[k] < MAX_DATA_BLOCKS
      ensures |after| == 4096 && after[i.blocks[k]] && Uses(i, i.blocks[k])
      ensures Freed(before, after[i.blocks[k] := false], i, k + 1)
    {
      hide Uses;
      UsesBlock(i, k);
      UsesOneMore(i, k);
    }

    static lemma FreedAll(before: seq<bool>, after: seq<bool>, i: Inode)
      requires Freed(before, after, i, i.used)
      ensures forall b :: 0 <= b < 4096 ==> (after[b] <==> before[b] && !Uses(i, b))
    {
      assert i.(used := i.used) == i;
    }

    /** Gives back every block of a file; the inode on disk still names them. */
    method FreeBlocks(i: Inode)
      requires Valid() && i.num in files && InodeAt(disk, i.num) == i
      modifies this`disk, this`sb, this`bits
      ensures Inv(Now(), files - {i.num}) && SameArea(old(disk), disk)
      ensures sb == old(sb).(freeBlocks := old(sb.freeBlocks) + i.used)
      ensures |bits| == |old(bits)| == 4096
      ensures forall b :: 0 <= b < 4096 ==> (bits[b] <==> old(bits)[b] && !Uses(i, b))
    {
      hide Pack, EncodeSuper, Decode, InodeAt, Mark, ByteOf, Contents, Uses, Freed, Sound, Apart;
      StartReady(Now(), files, i);
      FreedNone(bits, i);
      InvFewer(Now(), files, i.num);
      for idx := 0 to i.used
        invariant Inv(Now(), files - {i.num}) && SameArea(old(disk), disk)
        invariant sb == old(sb).(freeBlocks := old(sb.freeBlocks) + idx) && Freed(old(bits), bits, i, idx)
      {
        FreedNext(old(bits), bits, i, idx);
        if idx >= MAX_DIRECT {
          break;
        }
        var block := i.blocks[idx];
        if block > 0 {
          FreeOwn(old(disk), i, block);
        }
      }
      FreedAll(old(bits), bits, i);
    }

    /** Gives back every block and empties the inode. */
    method Truncate(n: nat) returns (r: Result<(), FsError>)
      requires Valid() && (InodeNumber(n) && InodeAt(disk, n).kind == FILE ==> n in files)
      modifies this`disk, this`sb, this`bits
      ensures Valid() && sb == old(sb).(freeBlocks := sb.freeBlocks)
      ensures forall m :: m in files && m != n ==> SameFile(old(disk), disk, m)
      ensures !InodeNumber(n) ==> r == Err(InvalidArgument) && Now() == old(Now())
      ensures InodeNumber(n) && InodeAt(old(disk), n).kind != FILE ==> r == Err(NotFile) && Now() == old(Now())
      ensures n in files ==> r == Ok(()) && FileBytes(disk, n) == [] && InodeAt(disk, n).used == 0
      ensures n in files ==> SameOwner(InodeAt(old(disk), n), InodeAt(disk, n))
      ensures n in files ==> sb.freeBlocks == old(sb.freeBlocks) + InodeAt(old(disk), n).used
      ensures n in files ==> forall b :: 0 <= b < 4096 ==>
              (bits[b] <==> old(bits)[b] && !Uses(InodeAt(old(disk), n), b))
    {
      hide Pack, EncodeSuper, Decode, InodeAt, Mark, ByteOf, Apart, Contents;
      var inode := ReadInode(n);
      if inode.Err? {
        return Err(inode.error);
      }
      var i := inode.value;
      if i.kind != FILE {
        return Err(NotFile);
      }
      FreeBlocks(i);
      AreaKeepsFiles(old(disk), disk, files);
      ghost var late := disk;
      var empty := i.(size := 0, used := 0, blocks := seq(MAX_DIRECT, _ => 0));
      assert Ready(Now(), files, empty) by {
        NothingUsed(empty);
      }
      var _ := WriteInode(empty);
      WriteInodeKeeps(State(late, sb, bits, inodeBits), files, empty);
      NoBytes(late, empty);
      return Ok(());
    }

    static lemma NoBytes(d: Disk, i: Inode)
      requires i.size == 0
      ensures Contents(d, i) == []
    {
    }

    static lemma NothingUsed(i: Inode)
      requires i.used == 0
      ensures forall j :: Apart(j, i)
    {
    }

    static lemma FreeArea(s: State, b: nat)
      requires Synced(s) && b < MAX_DATA_BLOCKS
      ensures Mark(s, b, false).bits == s.bits[b := false]
      ensures Mark(s, b, false).sb == s.sb.(freeBlocks := s.sb.freeBlocks + 1)
      ensures forall k :: FIRST_DATA_BLOCK <= k < SECTORS ==> Mark(s, b, false).disk[k] == s.disk[k]
    {
      hide Pack, EncodeSuper;
    }

    static lemma OthersApart(d: Disk, d': Disk, files: set<nat>, i: Inode, b: nat)
      requires SameArea(d, d') && Uses(i, b) && forall n :: n in files ==> InodeNumber(n)
      requires forall m :: m in files && m != i.num ==> Apart(InodeAt(d, m), i)
      ensures forall m :: m in files - {i.num} ==> !Uses(InodeAt(d', m), b)
    {
      hide InodeAt;
    }
  }
}
