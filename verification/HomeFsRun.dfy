/** Runs of the home filesystem: any list of operations, and what each of them answers. */
module HomeFsRuns {
  import opened Wrappers
  import opened LittleEndian
  import opened HomeFsSpec
  import opened HomeFilesystem

  ghost function Abs(fs: HomeFs): Model
    reads fs
  {
    ModelOf(fs.Now(), fs.files)
  }

  lemma FileNumbers(s: State, files: set<nat>)
    requires Inv(s, files)
    ensures Formed(s.disk) && forall n :: n in files ==> InodeNumber(n)
  {
  }

  method Create(fs: HomeFs, mode: nat) returns (answer: Answer)
    requires fs.Valid() && mode < 0x1_0000
    modifies fs
    ensures fs.Valid() && old(fs.files) <= fs.files && Follows(old(Abs(fs)), CreateOp(mode), answer, Abs(fs))
    ensures answer.Created? && (answer.number.Ok? ==> answer.number.value in fs.files)
  {
    hide Inv, FileBytes, InodeAt;
    var r := fs.CreateFileInode(mode);
    answer := Created(r);
  }

  /** With the other files the same, the model changes in one file and in the counts. */
  lemma OneFileChanged(s: State, s': State, files: set<nat>, n: nat)
    requires n in files && forall m :: m in files && m != n ==> SameFile(s.disk, s'.disk, m)
    ensures var m, m' := ModelOf(s, files), ModelOf(s', files);
            && n in m.bytes && n in m.used && n in m'.bytes && n in m'.used
            && m'.bytes == m.bytes[n := m'.bytes[n]] && m'.used == m.used[n := m'.used[n]]
            && m.bytes[n] == FileBytes(s.disk, n) && m.used[n] == InodeAt(s.disk, n).used
            && m'.bytes[n] == FileBytes(s'.disk, n) && m'.used[n] == InodeAt(s'.disk, n).used
            && m.freeBlocks == s.sb.freeBlocks && m'.freeBlocks == s'.sb.freeBlocks
            && m.freeInodes == s.sb.freeInodes && m'.freeInodes == s'.sb.freeInodes
  {
    hide FileBytes, InodeAt;
  }

  method Write(fs: HomeFs, n: nat, offset: nat, data: seq<Byte>) returns (answer: Answer)
    requires fs.Valid() && n in fs.files
    modifies fs
    ensures fs.Valid() && fs.files == old(fs.files) && answer.Wrote?
    ensures Follows(old(Abs(fs)), WriteOp(n, offset, data), answer, Abs(fs))
  {
    hide Inv, FileBytes, InodeAt, Written, BlocksNeeded, ModelOf, Room, Max;
    FileNumbers(fs.Now(), fs.files);
    ghost var before := fs.Now();
    var r := fs.WriteFile(n, offset, data);
    answer := Wrote(r);
    OneFileChanged(before, fs.Now(), fs.files, n);
  }

  method Truncate(fs: HomeFs, n: nat) returns (answer: Answer)
    requires fs.Valid() && n in fs.files
    modifies fs
    ensures fs.Valid() && fs.files == old(fs.files) && answer.Truncated?
    ensures Follows(old(Abs(fs)), TruncateOp(n), answer, Abs(fs))
  {
    hide Inv, FileBytes, InodeAt;
    FileNumbers(fs.Now(), fs.files);
    ghost var before := fs.Now();
    var _ := fs.Truncate(n);
    answer := Truncated;
    OneFileChanged(before, fs.Now(), fs.files, n);
  }

  method Read(fs: HomeFs, n: nat, offset: nat, len: nat) returns (answer: Answer)
    requires fs.Valid() && n in fs.files
    ensures answer.Bytes? && Follows(Abs(fs), ReadOp(n, offset, len), answer, Abs(fs))
  {
    hide Inv, FileBytes, InodeAt;
    FileNumbers(fs.Now(), fs.files);
    var buf := new Byte[len](_ => 0);
    var r := fs.ReadFile(n, offset, buf);
    var bytes := buf[..r.value];
    assert bytes == ReadBytes(FileBytes(fs.disk, n), offset, len);
    answer := Bytes(bytes);
  }

  method Step(fs: HomeFs, op: Op) returns (answer: Answer)
    requires fs.Valid() && (if op.CreateOp? then op.mode < 0x1_0000 else op.n in fs.files)
    modifies fs
    ensures fs.Valid() && old(fs.files) <= fs.files && Follows(old(Abs(fs)), op, answer, Abs(fs))
    ensures answer.Created? && answer.number.Ok? ==> answer.number.value in fs.files
  {
    hide Inv, Follows, ModelOf;
    match op
    case CreateOp(mode) => answer := Create(fs, mode);
    case WriteOp(n, offset, data) => answer := Write(fs, n, offset, data);
    case TruncateOp(n) => answer := Truncate(fs, n);
    case ReadOp(n, offset, len) => answer := Read(fs, n, offset, len);
  }

  lemma GivenBefore(known: set<nat>, answers: seq<Answer>, answer: Answer, t: nat, n: nat)
    requires t <= |answers|
    ensures Given(known, answers + [answer], t, n) <==> Given(known, answers, t, n)
  {
    var all := answers + [answer];
    assert forall u :: 0 <= u < t ==> all[u] == answers[u];
  }

  lemma GivenNext(known: set<nat>, answers: seq<Answer>, answer: Answer, n: nat)
    ensures Given(known, answers + [answer], |answers| + 1, n)
            <==> Given(known, answers, |answers|, n) || answer == Created(Ok(n))
  {
    var all := answers + [answer];
    assert all[|answers|] == answer && forall u :: 0 <= u < |answers| ==> all[u] == answers[u];
  }

  lemma RunGrows(known: set<nat>, ops: seq<Op>, answers: seq<Answer>, history: seq<Model>, answer: Answer, m: Model)
    requires |answers| < |ops| && RunOf(known, ops[..|answers|], answers, history)
    requires CallOf(known, ops[..|answers| + 1], answers + [answer], history + [m], |answers|)
    ensures RunOf(known, ops[..|answers| + 1], answers + [answer], history + [m])
    ensures forall n :: Given(known, answers + [answer], |answers| + 1, n)
                        <==> Given(known, answers, |answers|, n) || answer == Created(Ok(n))
  {
    hide Follows, Given;
    var calls, all := ops[..|answers| + 1], answers + [answer];
    forall t | 0 <= t < |answers|
      ensures CallOf(known, calls, all, history + [m], t)
    {
      assert CallOf(known, ops[..|answers|], answers, history, t);
      if !calls[t].CreateOp? {
        GivenBefore(known, answers, answer, t, calls[t].n);
      }
    }
    forall n
      ensures Given(known, all, |all|, n) <==> Given(known, answers, |answers|, n) || answer == Created(Ok(n))
    {
      GivenNext(known, answers, answer, n);
    }
  }

  /**
   Over any list of calls, each answer and each change is the one the files as byte sequences call for. The caller
   names the files it knew before and those it creates on the way.
   */
  method Run(fs: HomeFs, known: set<nat>, ops: seq<Op>) returns (answers: seq<Answer>, ghost history: seq<Model>)
    requires fs.Valid() && known <= fs.files
    requires forall t :: 0 <= t < |ops| && ops[t].CreateOp? ==> ops[t].mode < 0x1_0000
    modifies fs
    ensures fs.Valid() && RunOf(known, ops, answers, history)
    ensures history[0] == old(Abs(fs)) && history[|ops|] == Abs(fs)
  {
    hide Inv, Follows, ModelOf;
    answers, history := [], [Abs(fs)];
    assert RunOf(known, ops[..0], answers, history);
    hide RunOf;
    var given := known;
    for t := 0 to |ops|
      invariant fs.Valid() && given <= fs.files && |answers| == t && |history| == t + 1
      invariant history[0] == old(Abs(fs)) && history[t] == Abs(fs)
      invariant forall n :: n in given <==> Given(known, answers, t, n)
      invariant RunOf(known, ops[..t], answers, history)
    {
      var answer := Unnamed;
      if ops[t].CreateOp? || ops[t].n in given {
        answer := Step(fs, ops[t]);
      }
      if answer.Created? && answer.number.Ok? {
        given := given + {answer.number.value};
      }
      if !ops[t].CreateOp? {
        GivenBefore(known, answers, answer, t, ops[t].n);
      }
      RunGrows(known, ops, answers, history, answer, Abs(fs));
      answers := answers + [answer];
      history := history + [Abs(fs)];
    }
    assert ops[..|ops|] == ops;
  }

  /** A first write of at most eight blocks to an empty file, with room for them. */
  lemma FirstWrite(m: Model, n: nat, data: seq<Byte>, answer: Answer, m': Model)
    requires Follows(m, WriteOp(n, 0, data), answer, m') && m.bytes[n] == [] && m.used[n] == 0
    requires |data| <= 4096 && m.freeBlocks >= MAX_DIRECT + UNREACHED
    ensures answer == Wrote(Ok(|data|)) && m'.bytes == m.bytes[n := data]
    ensures m'.freeBlocks + MAX_DIRECT >= m.freeBlocks
    ensures n in m'.used && m'.used == m.used[n := m'.used[n]]
  {
    assert Written([], 0, data, m'.bytes[n]);
    assert m'.bytes[n] == m'.bytes[n][0..|data|];
  }

  /** Format, create two files, write both, read the first one back. */
  method TwoFiles(device: Disk, rootBlock: Sector, x: seq<Byte>, y: seq<Byte>)
    returns (fs: HomeFs, a: nat, b: nat, answer: Answer)
    requires Formed(device) && |rootBlock| == SECTOR_SIZE && |x| <= 4096 && |y| <= 4096
    ensures fs.Valid() && a != b && Abs(fs).bytes == map[a := x, b := y] && answer == Bytes(x)
  {
    hide Inv, ModelOf, Written, BlocksNeeded, HasRoot;
    fs := new HomeFs(device, rootBlock);
    NoFiles(fs.Now());
    var first := Create(fs, 0x1A4);
    a := first.number.value;
    var second := Create(fs, 0x1A4);
    b := second.number.value;
    ghost var m := Abs(fs);
    assert m.bytes == map[a := [], b := []];
    ModelFiles(fs.Now(), fs.files);
    var wrote := Write(fs, a, 0, x);
    FirstWrite(m, a, x, wrote, Abs(fs));
    m := Abs(fs);
    wrote := Write(fs, b, 0, y);
    FirstWrite(m, b, y, wrote, Abs(fs));
    answer := Read(fs, a, 0, |x|);
    assert ReadBytes(x, 0, |x|) == x;
  }

  /** A write of eight blocks to an empty file. */
  lemma FullWrite(m: Model, n: nat, data: seq<Byte>, answer: Answer, m': Model)
    requires Follows(m, WriteOp(n, 0, data), answer, m') && m.used[n] == 0 && |data| == 4096
    ensures m.freeBlocks >= 8 + UNREACHED ==>
              m'.freeBlocks == m.freeBlocks - 8 && m'.freeInodes == m.freeInodes
    ensures m.freeBlocks < 8 + UNREACHED ==>
              answer == Wrote(Err(NoSpace)) && m' == m.(freeBlocks := UNREACHED)
  {
    hide Written;
    assert BlocksNeeded(4096) == 8;
  }

  /**
   A formatted device, 122 files of eight blocks, and a write of eight blocks to one more: twelve blocks are counted
   as free, seven of which can be found. The write fails, no file has changed, and the seven are gone.
   */
  method LostBlocks(device: Disk, rootBlock: Sector) returns (fs: HomeFs, answer: Answer, ghost before: Model)
    requires Formed(device) && |rootBlock| == SECTOR_SIZE
    ensures fs.Valid() && answer == Wrote(Err(NoSpace))
    ensures before.freeBlocks == 12 && Abs(fs) == before.(freeBlocks := UNREACHED)
  {
    hide Inv, ModelOf, Written, BlocksNeeded, Room, HasRoot;
    fs := new HomeFs(device, rootBlock);
    NoFiles(fs.Now());
    var data := seq(4096, _ => 0);
    for k := 0 to 122
      invariant fs.Valid() && Abs(fs).freeBlocks == 988 - 8 * k && Abs(fs).freeInodes == 255 - k
    {
      var created := Create(fs, 0x1A4);
      ghost var m := Abs(fs);
      var wrote := Write(fs, created.number.value, 0, data);
      FullWrite(m, created.number.value, data, wrote, Abs(fs));
    }
    var created := Create(fs, 0x1A4);
    before := Abs(fs);
    answer := Write(fs, created.number.value, 0, data);
    FullWrite(before, created.number.value, data, answer, Abs(fs));
  }

  lemma ModelFiles(s: State, files: set<nat>)
    ensures ModelOf(s, files).bytes.Keys == files
  {
  }

  lemma NoFiles(s: State)
    ensures ModelOf(s, {}) == Model(map[], map[], s.sb.freeBlocks, s.sb.freeInodes)
  {
  }
}
