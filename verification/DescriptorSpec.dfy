/** Descriptor tables and pipe reference counts as values, and what the calls make of them over whole runs. */
module DescriptorSpec {
  import opened Wrappers
  import opened Pipes

  const MAX_FDS: nat := 16
  const FIRST_NONSTD_FD: nat := 3

  /** What a descriptor names. Files of all kinds need no counting, so one case stands for them. */
  datatype Fd = PipeRead(id: nat) | PipeWrite(id: nat) | File(tag: nat)

  type Table = seq<Option<Fd>>

  datatype Refs = Refs(readers: nat, writers: nat) {
    predicate InUse() {
      readers > 0 || writers > 0
    }
  }

  type Pool = seq<Refs>

  function Less(n: nat): nat {
    if n == 0 then 0 else n - 1
  }

  function OpenEnd(pool: Pool, fd: Fd): Result<Pool, ErrorCode> {
    match fd
    case File(_) => Ok(pool)
    case PipeRead(id) =>
      if id < |pool| && pool[id].InUse()
      then Ok(pool[id := Refs(pool[id].readers + 1, pool[id].writers)])
      else Err(EBADF)
    case PipeWrite(id) =>
      if id < |pool| && pool[id].InUse()
      then Ok(pool[id := Refs(pool[id].readers, pool[id].writers + 1)])
      else Err(EBADF)
  }

  function CloseEnd(pool: Pool, fd: Fd): Result<Pool, ErrorCode> {
    match fd
    case File(_) => Ok(pool)
    case PipeRead(id) =>
      if id < |pool| && pool[id].InUse()
      then Ok(pool[id := Refs(Less(pool[id].readers), pool[id].writers)])
      else Err(EBADF)
    case PipeWrite(id) =>
      if id < |pool| && pool[id].InUse()
      then Ok(pool[id := Refs(pool[id].readers, Less(pool[id].writers))])
      else Err(EBADF)
  }

  /** The first pipe with no open end, or the length. */
  function FirstFree(pool: Pool): (i: nat)
    ensures i <= |pool|
    ensures forall j :: 0 <= j < i ==> pool[j].InUse()
    ensures i < |pool| ==> !pool[i].InUse()
  {
    if pool == [] || !pool[0].InUse() then 0 else 1 + FirstFree(pool[1..])
  }

  /** The lowest free descriptor from `fd` up, or the length. */
  function FreeFd(t: Table, fd: nat): (r: nat)
    requires fd <= |t|
    ensures fd <= r <= |t|
    ensures forall j :: fd <= j < r ==> t[j].Some?
    ensures r < |t| ==> t[r].None?
    decreases |t| - fd
  {
    if fd == |t| || t[fd].None? then fd else FreeFd(t, fd + 1)
  }

  /** A table, the pool and an answer: what a call leaves behind. */
  datatype Outcome<T> = Outcome(table: Table, pool: Pool, result: Result<T, ErrorCode>)

  function CloseFd(t: Table, pool: Pool, fd: int): Outcome<()>
    requires |t| == MAX_FDS
  {
    if fd < 0 || fd >= MAX_FDS then Outcome(t, pool, Err(EBADF))
    else if fd < FIRST_NONSTD_FD then Outcome(t, pool, Err(EINVAL))
    else if t[fd].None? then Outcome(t, pool, Err(EBADF))
    else
      var t' := t[fd := None];
      match CloseEnd(pool, t[fd].value)
      case Ok(pool') => Outcome(t', pool', Ok(()))
      case Err(e) => Outcome(t', pool, Err(e))
  }

  /** The last part of `dup2`: count the new end, then fill the slot. */
  function Install(t: Table, pool: Pool, fd: Fd, slot: nat): Outcome<()>
    requires |t| == MAX_FDS && slot < MAX_FDS
  {
    match OpenEnd(pool, fd)
    case Ok(pool') => Outcome(t[slot := Some(fd)], pool', Ok(()))
    case Err(e) => Outcome(t, pool, Err(e))
  }

  function Dup2(t: Table, pool: Pool, oldFd: int, newFd: int): Outcome<()>
    requires |t| == MAX_FDS
  {
    if oldFd < 0 || oldFd >= MAX_FDS || newFd < 0 || newFd >= MAX_FDS then Outcome(t, pool, Err(EBADF))
    else if oldFd < FIRST_NONSTD_FD then Outcome(t, pool, Err(EINVAL))
    else if t[oldFd].None? then Outcome(t, pool, Err(EBADF))
    else if newFd >= FIRST_NONSTD_FD && t[newFd].Some? then
      var closed := CloseFd(t, pool, newFd);
      if closed.result.Err? then closed else Install(closed.table, closed.pool, t[oldFd].value, newFd)
    else
      Install(t, pool, t[oldFd].value, newFd)
  }

  /** The pool once the first n descriptors of a table have been counted again. */
  function ForkCounts(t: Table, pool: Pool, n: nat): Result<Pool, ErrorCode>
    requires n <= |t|
  {
    if n == 0 then Ok(pool)
    else
      match ForkCounts(t, pool, n - 1)
      case Err(e) => Err(e)
      case Ok(p) => if t[n - 1].Some? then OpenEnd(p, t[n - 1].value) else Ok(p)
  }

  /** Takes a pipe and two descriptors. Running out of descriptors leaves the pipe counted with no descriptor for it. */
  function MakePipe(t: Table, pool: Pool): Outcome<(nat, nat)>
    requires |t| == MAX_FDS
  {
    var id := FirstFree(pool);
    if id == |pool| then Outcome(t, pool, Err(EMFILE))
    else
      var pool' := pool[id := Refs(pool[id].readers + 1, pool[id].writers + 1)];
      var r := FreeFd(t, FIRST_NONSTD_FD);
      if r == MAX_FDS then Outcome(t, pool', Err(EMFILE))
      else
        var t' := t[r := Some(PipeRead(id))];
        var w := FreeFd(t', FIRST_NONSTD_FD);
        if w == MAX_FDS then Outcome(t', pool', Err(EMFILE))
        else Outcome(t'[w := Some(PipeWrite(id))], pool', Ok((r, w)))
  }

  // ---------- The whole system ----------

  datatype Sys = Sys(pool: Pool, tables: map<nat, Table>)

  /** The calls processes make. Exit drops the table without closing anything. */
  datatype Step =
    | Spawn(pid: nat)
    | Pipe(pid: nat)
    | OpenFile(pid: nat, slot: nat, tag: nat)
    | Close(pid: nat, fd: int)
    | Duplicate(pid: nat, oldFd: int, newFd: int)
    | Fork(pid: nat, child: nat)
    | Exit(pid: nat)

  ghost predicate Enabled(s: Sys, step: Step) {
    match step
    case Spawn(pid) => pid !in s.tables
    case Fork(pid, child) => pid in s.tables && child !in s.tables
    case OpenFile(pid, slot, _) => pid in s.tables && slot < |s.tables[pid]| && s.tables[pid][slot].None?
    case _ => step.pid in s.tables
  }

  function EmptyTable(): Table {
    seq(MAX_FDS, i => None)
  }

  ghost function Apply(s: Sys, step: Step): Sys
    requires Inv(s) && Enabled(s, step)
  {
    match step
    case Spawn(pid) => s.(tables := s.tables[pid := EmptyTable()])
    case Pipe(pid) =>
      var o := MakePipe(s.tables[pid], s.pool);
      Sys(o.pool, s.tables[pid := o.table])
    case OpenFile(pid, slot, tag) => s.(tables := s.tables[pid := s.tables[pid][slot := Some(File(tag))]])
    case Close(pid, fd) =>
      var o := CloseFd(s.tables[pid], s.pool, fd);
      Sys(o.pool, s.tables[pid := o.table])
    case Duplicate(pid, oldFd, newFd) =>
      var o := Dup2(s.tables[pid], s.pool, oldFd, newFd);
      Sys(o.pool, s.tables[pid := o.table])
    case Fork(pid, child) =>
      (match ForkCounts(s.tables[pid], s.pool, MAX_FDS)
       case Ok(pool) => Sys(pool, s.tables[child := s.tables[pid]])
       case Err(_) => s)
    case Exit(pid) => s.(tables := s.tables - {pid})
  }

  /** Every (process, slot) whose descriptor is the given one. */
  ghost function Holders(tables: map<nat, Table>, fd: Fd): set<(nat, nat)> {
    set p, i | p in tables && 0 <= i < |tables[p]| && tables[p][i] == Some(fd) :: (p, i)
  }

  function Counted(pool: Pool, fd: Fd): nat {
    match fd
    case File(_) => 0
    case PipeRead(id) => if id < |pool| then pool[id].readers else 0
    case PipeWrite(id) => if id < |pool| then pool[id].writers else 0
  }

  /** No end of a pipe is held more often than it is counted. */
  ghost predicate Inv(s: Sys) {
    && |s.pool| == MAX_PIPES
    && (forall p :: p in s.tables ==> |s.tables[p]| == MAX_FDS)
    && (forall fd: Fd {:trigger Holders(s.tables, fd)} :: !fd.File? ==> |Holders(s.tables, fd)| <= Counted(s.pool, fd))
  }

  /** A descriptor somebody holds names a pipe in use. */
  lemma HeldIsInUse(s: Sys, p: nat, i: nat)
    requires Inv(s) && p in s.tables && i < |s.tables[p]| && s.tables[p][i].Some? && !s.tables[p][i].value.File?
    ensures Counted(s.pool, s.tables[p][i].value) > 0
    ensures s.tables[p][i].value.id < |s.pool| && s.pool[s.tables[p][i].value.id].InUse()
  {
    assert (p, i) in Holders(s.tables, s.tables[p][i].value);
  }

  function One(b: bool): nat {
    if b then 1 else 0
  }

  /** Changing one slot changes the number of holders of the old and of the new descriptor only. */
  lemma SlotHolders(tables: map<nat, Table>, p: nat, i: nat, v: Option<Fd>, fd: Fd)
    requires p in tables && i < |tables[p]|
    ensures |Holders(tables[p := tables[p][i := v]], fd)| + One(tables[p][i] == Some(fd)) ==
            |Holders(tables, fd)| + One(v == Some(fd))
  {
    var after := tables[p := tables[p][i := v]];
    assert Holders(after, fd) - {(p, i)} == Holders(tables, fd) - {(p, i)};
    Without(Holders(after, fd), (p, i));
    Without(Holders(tables, fd), (p, i));
  }

  lemma Without<T>(a: set<T>, x: T)
    ensures |a| == |a - {x}| + One(x in a)
  {
    if x in a {
      assert a == (a - {x}) + {x};
    } else {
      assert a == a - {x};
    }
  }

  /** Filling a slot with a counted end keeps the invariant, whatever the slot held. */
  lemma PutKeepsInv(s: Sys, p: nat, i: nat, fd: Fd)
    requires Inv(s) && p in s.tables && i < MAX_FDS && OpenEnd(s.pool, fd).Ok?
    ensures Inv(Sys(OpenEnd(s.pool, fd).value, s.tables[p := s.tables[p][i := Some(fd)]]))
  {
    var s' := Sys(OpenEnd(s.pool, fd).value, s.tables[p := s.tables[p][i := Some(fd)]]);
    forall g: Fd | !g.File?
      ensures |Holders(s'.tables, g)| <= Counted(s'.pool, g)
    {
      SlotHolders(s.tables, p, i, Some(fd), g);
    }
  }

  /** Emptying a slot and giving its end back keeps the invariant. */
  lemma DropKeepsInv(s: Sys, p: nat, i: nat)
    requires Inv(s) && p in s.tables && i < MAX_FDS && s.tables[p][i].Some?
    ensures CloseEnd(s.pool, s.tables[p][i].value).Ok?
    ensures Inv(Sys(CloseEnd(s.pool, s.tables[p][i].value).value, s.tables[p := s.tables[p][i := None]]))
  {
    var fd := s.tables[p][i].value;
    if !fd.File? {
      HeldIsInUse(s, p, i);
    }
    var s' := Sys(CloseEnd(s.pool, fd).value, s.tables[p := s.tables[p][i := None]]);
    forall g: Fd | !g.File?
      ensures |Holders(s'.tables, g)| <= Counted(s'.pool, g)
    {
      SlotHolders(s.tables, p, i, None, g);
    }
  }

  lemma CloseKeepsInv(s: Sys, pid: nat, fd: int)
    requires Inv(s) && pid in s.tables
    ensures Inv(Apply(s, Close(pid, fd)))
    ensures CloseFd(s.tables[pid], s.pool, fd).result.Ok? <==>
            FIRST_NONSTD_FD <= fd < MAX_FDS && s.tables[pid][fd].Some?
  {
    var t := s.tables[pid];
    if FIRST_NONSTD_FD <= fd < MAX_FDS && t[fd].Some? {
      DropKeepsInv(s, pid, fd);
    } else {
      assert s.tables[pid := t] == s.tables;
    }
  }

  lemma InstallKeepsInv(s: Sys, pid: nat, fd: Fd, slot: nat)
    requires Inv(s) && pid in s.tables && slot < MAX_FDS
    ensures var o := Install(s.tables[pid], s.pool, fd, slot); Inv(Sys(o.pool, s.tables[pid := o.table]))
  {
    if OpenEnd(s.pool, fd).Ok? {
      PutKeepsInv(s, pid, slot, fd);
    } else {
      assert s.tables[pid := s.tables[pid]] == s.tables;
    }
  }

  lemma DuplicateKeepsInv(s: Sys, pid: nat, oldFd: int, newFd: int)
    requires Inv(s) && pid in s.tables
    ensures Inv(Apply(s, Duplicate(pid, oldFd, newFd)))
  {
    var t := s.tables[pid];
    assert s.tables[pid := t] == s.tables;
    if 0 <= oldFd < MAX_FDS && 0 <= newFd < MAX_FDS && oldFd >= FIRST_NONSTD_FD && t[oldFd].Some? {
      if newFd >= FIRST_NONSTD_FD && t[newFd].Some? {
        CloseKeepsInv(s, pid, newFd);
        var s1 := Apply(s, Close(pid, newFd));
        InstallKeepsInv(s1, pid, t[oldFd].value, newFd);
        var o := Install(s1.tables[pid], s1.pool, t[oldFd].value, newFd);
        assert s1.tables[pid := o.table] == s.tables[pid := o.table];
      } else {
        InstallKeepsInv(s, pid, t[oldFd].value, newFd);
      }
    }
  }

  // ---------- What each call does to the counts ----------

  /** The counts of every pipe: one more for an end that is gained, one less for an end that is given back. */
  ghost predicate Moves(before: Pool, after: Pool, gained: Option<Fd>, lost: Option<Fd>) {
    && |after| == |before|
    && forall id: nat :: id < |before| ==>
         && after[id].readers + One(lost == Some(PipeRead(id)))
            == before[id].readers + One(gained == Some(PipeRead(id)))
         && after[id].writers + One(lost == Some(PipeWrite(id)))
            == before[id].writers + One(gained == Some(PipeWrite(id)))
  }

  /** Nothing, a file, or an end that is counted. */
  ghost predicate Backed(pool: Pool, slot: Option<Fd>) {
    slot.Some? ==>
      match slot.value
      case File(_) => true
      case PipeRead(id) => id < |pool| && pool[id].readers > 0
      case PipeWrite(id) => id < |pool| && pool[id].writers > 0
  }

  /** One slot is given a value and the others are as they were. */
  ghost predicate OneSlot(before: Table, after: Table, i: int, slot: Option<Fd>) {
    && |after| == |before| && 0 <= i < |before| && after[i] == slot
    && forall j :: 0 <= j < |before| && j != i ==> after[j] == before[j]
  }

  lemma OpenMoves(pool: Pool, fd: Fd)
    ensures OpenEnd(pool, fd).Ok? ==> Moves(pool, OpenEnd(pool, fd).value, Some(fd), None)
  {
  }

  lemma CloseMoves(pool: Pool, fd: Fd)
    requires Backed(pool, Some(fd))
    ensures CloseEnd(pool, fd).Ok? && Moves(pool, CloseEnd(pool, fd).value, None, Some(fd))
  {
  }

  lemma MovesBoth(a: Pool, b: Pool, c: Pool, gained: Option<Fd>, lost: Option<Fd>)
    requires Moves(a, b, None, lost) && Moves(b, c, gained, None)
    ensures Moves(a, c, gained, lost)
  {
  }

  /** Closing empties the slot and gives one end back. */
  lemma CloseExact(t: Table, pool: Pool, fd: int)
    requires |t| == MAX_FDS && CloseFd(t, pool, fd).result.Ok?
    ensures 3 <= fd < 16 && t[fd].Some? && OneSlot(t, CloseFd(t, pool, fd).table, fd, None)
    ensures Backed(pool, t[fd]) ==> Moves(pool, CloseFd(t, pool, fd).pool, None, t[fd])
  {
    if Backed(pool, t[fd]) {
      CloseMoves(pool, t[fd].value);
    }
  }

  /**
   A duplicate stands in the new slot and nowhere else, and has one count more; a descriptor closed for it, that is one
   above the standard three, has one less.
   */
  lemma DuplicateExact(t: Table, pool: Pool, oldFd: int, newFd: int)
    requires |t| == MAX_FDS && Dup2(t, pool, oldFd, newFd).result.Ok?
    ensures 3 <= oldFd < 16 && 0 <= newFd < 16 && t[oldFd].Some?
    ensures OneSlot(t, Dup2(t, pool, oldFd, newFd).table, newFd, t[oldFd])
    ensures newFd < 3 || Backed(pool, t[newFd]) ==>
              Moves(pool, Dup2(t, pool, oldFd, newFd).pool, t[oldFd], if newFd < 3 then None else t[newFd])
  {
    var fd := t[oldFd].value;
    if newFd >= 3 && t[newFd].Some? {
      CloseExact(t, pool, newFd);
      var closed := CloseFd(t, pool, newFd);
      OpenMoves(closed.pool, fd);
      if Backed(pool, t[newFd]) {
        MovesBoth(pool, closed.pool, OpenEnd(closed.pool, fd).value, Some(fd), t[newFd]);
      }
    } else {
      OpenMoves(pool, fd);
    }
  }

  /** Over counted descriptors `dup2` fails for bad numbers, empty slots and the last open end onto itself, only. */
  lemma DuplicateSucceedsIff(s: Sys, pid: nat, oldFd: int, newFd: int)
    requires Inv(s) && pid in s.tables
    ensures var t := s.tables[pid];
            Dup2(t, s.pool, oldFd, newFd).result.Ok? <==>
            && 3 <= oldFd < 16 && 0 <= newFd < 16 && t[oldFd].Some?
            && (oldFd == newFd && !t[oldFd].value.File? ==>
                  t[oldFd].value.id < |s.pool|
                  && s.pool[t[oldFd].value.id].readers + s.pool[t[oldFd].value.id].writers > 1)
  {
    var t := s.tables[pid];
    if 3 <= oldFd < 16 && 0 <= newFd < 16 && t[oldFd].Some? {
      if newFd >= 3 && t[newFd].Some? {
        CloseKeepsInv(s, pid, newFd);
      }
      if !t[oldFd].value.File? {
        HeldIsInUse(s, pid, oldFd);
        if oldFd == newFd {
          SelfDuplicate(t, s.pool, oldFd);
        } else if newFd >= 3 && t[newFd].Some? {
          HeldIsInUse(Apply(s, Close(pid, newFd)), pid, oldFd);
        }
      }
    }
  }

  /** Two slots that were free hold the reading and the writing end of a pipe that nobody had open. */
  ghost predicate PipeMade(t: Table, pool: Pool, t': Table, pool': Pool, r: nat, w: nat, id: nat) {
    && |t| == 16 && 3 <= r < w < 16 && t[r].None? && t[w].None? && (forall j :: 3 <= j < w && j != r ==> t[j].Some?)
    && id < |pool| && pool[id] == Refs(0, 0) && pool' == pool[id := Refs(1, 1)]
    && t' == t[r := Some(PipeRead(id))][w := Some(PipeWrite(id))]
  }

  /** The pair that a pipe answers: the reading end first, in two free slots, of a pipe that nobody had open. */
  lemma PipeExact(t: Table, pool: Pool)
    requires |t| == MAX_FDS && MakePipe(t, pool).result.Ok?
    ensures var o := MakePipe(t, pool);
            exists id: nat :: PipeMade(t, pool, o.table, o.pool, o.result.value.0, o.result.value.1, id)
  {
    var id := FirstFree(pool);
    assert pool[id] == Refs(0, 0);
    var r := FreeFd(t, FIRST_NONSTD_FD);
    var t' := t[r := Some(PipeRead(id))];
    var w := FreeFd(t', FIRST_NONSTD_FD);
    forall j | 3 <= j < w && j != r
      ensures t[j].Some?
    {
      assert t[j] == t'[j];
    }
    var o := MakePipe(t, pool);
    assert PipeMade(t, pool, o.table, o.pool, r, w, id);
  }

  /** Without a free pipe and two free descriptors there is no answer. */
  lemma PipeFails(t: Table, pool: Pool)
    requires |t| == MAX_FDS && MakePipe(t, pool).result.Err?
    ensures MakePipe(t, pool).result == Err(EMFILE)
    ensures || (forall i :: 0 <= i < |pool| ==> pool[i] != Refs(0, 0))
            || forall i, j :: 3 <= i < j < 16 ==> t[i].Some? || t[j].Some?
  {
    var id, r := FirstFree(pool), FreeFd(t, FIRST_NONSTD_FD);
    if id < |pool| && r < MAX_FDS {
      var t' := t[r := Some(PipeRead(id))];
      assert FreeFd(t', FIRST_NONSTD_FD) == MAX_FDS;
      forall j | 3 <= j < 16 && j != r
        ensures t[j].Some?
      {
        assert t[j] == t'[j];
      }
    }
  }

  /** How many slots of a table hold an end. */
  ghost function HeldIn(t: Table, fd: Fd): nat {
    if t == [] then 0 else HeldIn(t[..|t| - 1], fd) + One(t[|t| - 1] == Some(fd))
  }

  /** Fork counts each end once for every slot of the table that holds it. */
  ghost predicate CountedAgain(before: Pool, after: Pool, t: Table) {
    && |after| == |before|
    && forall id: nat :: id < |before| ==>
         && after[id].readers == before[id].readers + HeldIn(t, PipeRead(id))
         && after[id].writers == before[id].writers + HeldIn(t, PipeWrite(id))
  }

  lemma {:induction false} ForkExact(t: Table, pool: Pool, n: nat)
    requires n <= |t| && ForkCounts(t, pool, n).Ok?
    ensures CountedAgain(pool, ForkCounts(t, pool, n).value, t[..n])
    decreases n
  {
    if n > 0 {
      ForkExact(t, pool, n - 1);
      assert t[..n][..n - 1] == t[..n - 1];
      if t[n - 1].Some? {
        OpenMoves(ForkCounts(t, pool, n - 1).value, t[n - 1].value);
      }
    }
  }

  /** A table holding the first n descriptors of another. */
  function Part(t: Table, n: nat): Table
    requires n <= |t|
  {
    t[..n] + seq(|t| - n, i => None)
  }

  /** Fork counts one descriptor after the other, and none of the counts can fail. */
  lemma {:induction false} ForkKeepsInvUpTo(s: Sys, pid: nat, child: nat, n: nat)
    requires Inv(s) && pid in s.tables && child !in s.tables && n <= MAX_FDS
    ensures ForkCounts(s.tables[pid], s.pool, n).Ok?
    ensures Inv(Sys(ForkCounts(s.tables[pid], s.pool, n).value, s.tables[child := Part(s.tables[pid], n)]))
  {
    var t := s.tables[pid];
    if n == 0 {
      var s' := s.(tables := s.tables[child := Part(t, 0)]);
      forall fd: Fd | !fd.File?
        ensures |Holders(s'.tables, fd)| <= Counted(s'.pool, fd)
      {
        assert Holders(s'.tables, fd) == Holders(s.tables, fd);
      }
    } else {
      ForkKeepsInvUpTo(s, pid, child, n - 1);
      var s1 := Sys(ForkCounts(t, s.pool, n - 1).value, s.tables[child := Part(t, n - 1)]);
      assert Part(t, n) == Part(t, n - 1)[n - 1 := t[n - 1]];
      if t[n - 1].Some? {
        if !t[n - 1].value.File? {
          HeldIsInUse(s1, pid, n - 1);
        }
        PutKeepsInv(s1, child, n - 1, t[n - 1].value);
        assert s1.tables[child := Part(t, n)] == s.tables[child := Part(t, n)];
      } else {
        assert Part(t, n) == Part(t, n - 1);
      }
    }
  }

  /** `fork_copy` never fails, and the child's descriptors are all counted. */
  lemma ForkKeepsInv(s: Sys, pid: nat, child: nat)
    requires Inv(s) && pid in s.tables && child !in s.tables
    ensures ForkCounts(s.tables[pid], s.pool, MAX_FDS).Ok?
    ensures Inv(Apply(s, Fork(pid, child)))
  {
    ForkKeepsInvUpTo(s, pid, child, MAX_FDS);
    assert Part(s.tables[pid], MAX_FDS) == s.tables[pid];
  }

  /** The pipe a creation takes is one no descriptor in any table names. */
  lemma FreshPipe(s: Sys)
    requires Inv(s) && FirstFree(s.pool) < |s.pool|
    ensures Holders(s.tables, PipeRead(FirstFree(s.pool))) == {}
            && Holders(s.tables, PipeWrite(FirstFree(s.pool))) == {}
  {
    var id := FirstFree(s.pool);
    assert |Holders(s.tables, PipeRead(id))| <= Counted(s.pool, PipeRead(id));
    assert |Holders(s.tables, PipeWrite(id))| <= Counted(s.pool, PipeWrite(id));
  }

  /** A slot can be filled with an end that is counted more often than it is held. */
  lemma FillKeepsInv(s: Sys, p: nat, i: nat, fd: Fd)
    requires Inv(s) && p in s.tables && i < MAX_FDS && |Holders(s.tables, fd)| < Counted(s.pool, fd)
    ensures Inv(s.(tables := s.tables[p := s.tables[p][i := Some(fd)]]))
    ensures forall g: Fd {:trigger Holders(s.tables, g)} :: !g.File? && g != fd ==>
              |Holders(s.tables[p := s.tables[p][i := Some(fd)]], g)| <= |Holders(s.tables, g)|
  {
    hide Holders;
    forall g: Fd | !g.File?
      ensures |Holders(s.tables[p := s.tables[p][i := Some(fd)]], g)| <= Counted(s.pool, g)
      ensures g != fd ==> |Holders(s.tables[p := s.tables[p][i := Some(fd)]], g)| <= |Holders(s.tables, g)|
    {
      SlotHolders(s.tables, p, i, Some(fd), g);
    }
  }

  /** Both ends of a free pipe opened, before any descriptor names them. */
  lemma OpenedKeepsInv(s: Sys, id: nat)
    requires Inv(s) && id < |s.pool|
    ensures Inv(s.(pool := s.pool[id := Refs(s.pool[id].readers + 1, s.pool[id].writers + 1)]))
  {
  }

  lemma PipeKeepsInv(s: Sys, pid: nat)
    requires Inv(s) && pid in s.tables
    ensures Inv(Apply(s, Pipe(pid)))
  {
    hide Holders, Inv;
    TableSizes(s, pid);
    var t := s.tables[pid];
    var id := FirstFree(s.pool);
    assert s.tables[pid := t] == s.tables;
    if id < |s.pool| {
      FreshPipe(s);
      OpenedKeepsInv(s, id);
      var both := s.(pool := s.pool[id := Refs(s.pool[id].readers + 1, s.pool[id].writers + 1)]);
      var r := FreeFd(t, FIRST_NONSTD_FD);
      if r < MAX_FDS {
        FillKeepsInv(both, pid, r, PipeRead(id));
        var t' := t[r := Some(PipeRead(id))];
        var named := both.(tables := s.tables[pid := t']);
        var w := FreeFd(t', FIRST_NONSTD_FD);
        if w < MAX_FDS {
          FillKeepsInv(named, pid, w, PipeWrite(id));
          assert named.tables[pid := t'[w := Some(PipeWrite(id))]] == s.tables[pid := t'[w := Some(PipeWrite(id))]];
        }
      }
    }
  }

  lemma TableSizes(s: Sys, pid: nat)
    requires Inv(s) && pid in s.tables
    ensures |s.tables[pid]| == MAX_FDS && |s.pool| == MAX_PIPES
  {
  }

  lemma StepKeepsInv(s: Sys, step: Step)
    requires Inv(s) && Enabled(s, step)
    ensures Inv(Apply(s, step))
  {
    match step
    case Spawn(pid) =>
      forall fd: Fd | !fd.File?
        ensures |Holders(Apply(s, step).tables, fd)| <= Counted(s.pool, fd)
      {
        assert Holders(Apply(s, step).tables, fd) == Holders(s.tables, fd);
      }
    case Pipe(pid) => PipeKeepsInv(s, pid);
    case OpenFile(pid, slot, tag) => PutKeepsInv(s, pid, slot, File(tag));
    case Close(pid, fd) => CloseKeepsInv(s, pid, fd);
    case Duplicate(pid, oldFd, newFd) => DuplicateKeepsInv(s, pid, oldFd, newFd);
    case Fork(pid, child) => ForkKeepsInv(s, pid, child);
    case Exit(pid) => ExitKeepsInv(s, pid);
  }

  lemma ExitKeepsInv(s: Sys, pid: nat)
    requires Inv(s) && pid in s.tables
    ensures Inv(s.(tables := s.tables - {pid}))
  {
    forall fd: Fd | !fd.File?
      ensures |Holders(s.tables - {pid}, fd)| <= Counted(s.pool, fd)
    {
      var gone := Holders(s.tables, fd) - Holders(s.tables - {pid}, fd);
      assert Holders(s.tables, fd) == Holders(s.tables - {pid}, fd) + gone;
    }
  }

  // ---------- Whole runs ----------

  ghost predicate Runs(s: Sys, steps: seq<Step>)
    requires Inv(s)
    decreases |steps|
  {
    steps != [] ==> Enabled(s, steps[0]) && (StepKeepsInv(s, steps[0]); Runs(Apply(s, steps[0]), steps[1..]))
  }

  ghost function Final(s: Sys, steps: seq<Step>): Sys
    requires Inv(s) && Runs(s, steps)
    decreases |steps|
  {
    if steps == [] then s else StepKeepsInv(s, steps[0]); Final(Apply(s, steps[0]), steps[1..])
  }

  ghost predicate NoHolder(s: Sys, fd: Fd) {
    forall p, i :: p in s.tables && 0 <= i < |s.tables[p]| ==> s.tables[p][i] != Some(fd)
  }

  lemma Unheld(s: Sys, fd: Fd)
    requires Inv(s) && !fd.File? && Counted(s.pool, fd) == 0
    ensures NoHolder(s, fd)
  {
    forall p, i | p in s.tables && 0 <= i < |s.tables[p]|
      ensures s.tables[p][i] != Some(fd)
    {
      if s.tables[p][i] == Some(fd) {
        HeldIsInUse(s, p, i);
      }
    }
  }

  /**
   After any run over any number of tables: a held descriptor names a pipe in use, the next pipe created is one nobody
   names, no writer is left when the writers count is zero, and no reader when the readers count is.
   */
  lemma {:induction false} NoDanglingDescriptor(s: Sys, steps: seq<Step>)
    requires Inv(s) && Runs(s, steps)
    ensures var t := Final(s, steps);
            && Inv(t)
            && (forall p, i ::
                  p in t.tables && 0 <= i < |t.tables[p]| && t.tables[p][i].Some? && !t.tables[p][i].value.File? ==>
                                 t.tables[p][i].value.id < |t.pool| && t.pool[t.tables[p][i].value.id].InUse())
            && (var id := FirstFree(t.pool);
                id < |t.pool| ==> NoHolder(t, PipeRead(id)) && NoHolder(t, PipeWrite(id)))
            && (forall id :: 0 <= id < |t.pool| && t.pool[id].writers == 0 ==> NoHolder(t, PipeWrite(id)))
            && (forall id :: 0 <= id < |t.pool| && t.pool[id].readers == 0 ==> NoHolder(t, PipeRead(id)))
    decreases |steps|
  {
    if steps == [] {
      forall p, i | p in s.tables && 0 <= i < |s.tables[p]| && s.tables[p][i].Some? && !s.tables[p][i].value.File?
        ensures s.tables[p][i].value.id < |s.pool| && s.pool[s.tables[p][i].value.id].InUse()
      {
        HeldIsInUse(s, p, i);
      }
      forall fd: Fd | !fd.File? && Counted(s.pool, fd) == 0
        ensures NoHolder(s, fd)
      {
        Unheld(s, fd);
      }
    } else {
      StepKeepsInv(s, steps[0]);
      NoDanglingDescriptor(Apply(s, steps[0]), steps[1..]);
    }
  }

  /** `dup2` of a pipe descriptor onto itself changes nothing if and only if it is not the last open end of the pipe. */
  lemma SelfDuplicate(t: Table, pool: Pool, fd: int)
    requires |t| == MAX_FDS && FIRST_NONSTD_FD <= fd < MAX_FDS && t[fd].Some? && !t[fd].value.File?
    requires t[fd].value.id < |pool| && Counted(pool, t[fd].value) > 0
    ensures Dup2(t, pool, fd, fd) == Outcome(t, pool, Ok(())) <==>
            pool[t[fd].value.id].readers + pool[t[fd].value.id].writers > 1
    ensures pool[t[fd].value.id].readers + pool[t[fd].value.id].writers == 1 ==>
              Dup2(t, pool, fd, fd).result == Err(EBADF) && Dup2(t, pool, fd, fd).table[fd].None?
  {
    var id := t[fd].value.id;
    assert t[fd := None][fd := t[fd]] == t;
    var c := CloseFd(t, pool, fd).pool;
    if c[id].InUse() {
      assert OpenEnd(c, t[fd].value).value == pool;
    }
  }

  /** No process and every pipe free: where every run can start. */
  lemma EmptyIsOk()
    ensures Inv(Sys(seq(MAX_PIPES, _ => Refs(0, 0)), map[]))
  {
    var s := Sys(seq(MAX_PIPES, _ => Refs(0, 0)), map[]);
    forall fd: Fd | !fd.File?
      ensures |Holders(s.tables, fd)| <= Counted(s.pool, fd)
    {
      assert Holders(s.tables, fd) == {};
    }
  }

  ghost predicate Reaches(s: Sys, steps: seq<Step>, t: Sys) {
    Inv(s) && Runs(s, steps) && Final(s, steps) == t
  }

  lemma ReachesFirst(s: Sys, step: Step, s1: Sys, steps: seq<Step>, t: Sys)
    requires Inv(s) && Enabled(s, step) && Apply(s, step) == s1 && Reaches(s1, steps, t)
    ensures Reaches(s, [step] + steps, t)
  {
    hide Apply, Enabled, Inv;
    assert ([step] + steps)[1..] == steps;
  }

  lemma ReachesNothing(s: Sys)
    requires Inv(s)
    ensures Reaches(s, [], s)
  {
  }

  lemma SpawnStep(none: Pool)
    requires none == seq(MAX_PIPES, _ => Refs(0, 0)) && Inv(Sys(none, map[]))
    ensures Apply(Sys(none, map[]), Spawn(1)) == Sys(none, map[1 := EmptyTable()])
  {
  }

  lemma PipeStep(none: Pool)
    requires none == seq(MAX_PIPES, _ => Refs(0, 0)) && Inv(Sys(none, map[1 := EmptyTable()]))
    ensures var table := EmptyTable()[3 := Some(PipeRead(0))][4 := Some(PipeWrite(0))];
            Apply(Sys(none, map[1 := EmptyTable()]), Pipe(1)) == Sys(none[0 := Refs(1, 1)], map[1 := table])
  {
    var t := EmptyTable();
    assert FirstFree(none) == 0 && FreeFd(t, 3) == 3 && FreeFd(t[3 := Some(PipeRead(0))], 3) == 4;
  }

  lemma CloseStep(none: Pool, table: Table)
    requires none == seq(MAX_PIPES, _ => Refs(0, 0)) && table == EmptyTable()[3 := Some(PipeRead(0))]
    requires Inv(Sys(none[0 := Refs(1, 1)], map[1 := table[4 := Some(PipeWrite(0))]]))
    ensures Apply(Sys(none[0 := Refs(1, 1)], map[1 := table[4 := Some(PipeWrite(0))]]), Close(1, 4))
            == Sys(none[0 := Refs(1, 0)], map[1 := table])
    ensures Dup2(table, none[0 := Refs(1, 0)], 3, 3) == Outcome(EmptyTable(), none, Err(EBADF))
  {
    assert table[4 := Some(PipeWrite(0))][4 := None] == table;
    assert none[0 := Refs(1, 1)][0 := Refs(1, 0)] == none[0 := Refs(1, 0)];
    assert table[3 := None] == EmptyTable() && none[0 := Refs(1, 0)][0 := Refs(0, 0)] == none;
  }

  /**
   From no process and free pipes: a process makes a pipe and closes its writing end. Duplicating the reading end onto
   itself then loses it.
   */
  lemma SelfDuplicateExample()
    ensures var none := seq(MAX_PIPES, _ => Refs(0, 0));
            var table := EmptyTable()[3 := Some(PipeRead(0))];
            && Reaches(Sys(none, map[]), [Spawn(1), Pipe(1), Close(1, 4)],
                       Sys(none[0 := Refs(1, 0)], map[1 := table]))
            && Dup2(table, none[0 := Refs(1, 0)], 3, 3) == Outcome(EmptyTable(), none, Err(EBADF))
  {
    hide Reaches, Inv, Apply;
    var none := seq(MAX_PIPES, _ => Refs(0, 0));
    var empty, table := EmptyTable(), EmptyTable()[3 := Some(PipeRead(0))];
    var made := table[4 := Some(PipeWrite(0))];
    var s0, s1 := Sys(none, map[]), Sys(none, map[1 := empty]);
    var s2, s3 := Sys(none[0 := Refs(1, 1)], map[1 := made]), Sys(none[0 := Refs(1, 0)], map[1 := table]);
    EmptyIsOk();
    SpawnStep(none);
    StepKeepsInv(s0, Spawn(1));
    PipeStep(none);
    StepKeepsInv(s1, Pipe(1));
    CloseStep(none, table);
    StepKeepsInv(s2, Close(1, 4));
    ReachesNothing(s3);
    ReachesFirst(s2, Close(1, 4), s3, [], s3);
    ReachesFirst(s1, Pipe(1), s2, [Close(1, 4)] + [], s3);
    ReachesFirst(s0, Spawn(1), s1, [Pipe(1)] + ([Close(1, 4)] + []), s3);
    assert [Spawn(1)] + ([Pipe(1)] + ([Close(1, 4)] + [])) == [Spawn(1), Pipe(1), Close(1, 4)];
  }
}
