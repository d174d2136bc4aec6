/** The pool of pipes and a process's descriptor table, changed in place. */
module Descriptors {
  import opened Wrappers
  import opened Pipes
  import opened DescriptorSpec

  class PipePool {
    const pipes: seq<Pipe>

    ghost predicate Valid() {
      && |pipes| == MAX_PIPES
      && (forall i, j :: 0 <= i < j < |pipes| ==> pipes[i] != pipes[j])
    }

    /** The reference counts of all pipes. */
    ghost function Refs(): (pool: Pool)
      reads pipes
      ensures |pool| == |pipes|
    {
      seq(|pipes|, i requires 0 <= i < |pipes| reads pipes =>
            DescriptorSpec.Refs(pipes[i].readRefcount, pipes[i].writeRefcount))
    }

    constructor ()
      ensures Valid() && fresh(pipes) && Refs() == seq(MAX_PIPES, i => DescriptorSpec.Refs(0, 0))
      ensures forall i :: 0 <= i < |pipes| ==> pipes[i].Valid() && pipes[i].accepted == []
    {
      var all: seq<Pipe> := [];
      for n := 0 to MAX_PIPES
        invariant |all| == n && fresh(all)
        invariant forall i, j :: 0 <= i < j < |all| ==> all[i] != all[j]
        invariant forall i :: 0 <= i < n ==> all[i].readRefcount == 0 && all[i].writeRefcount == 0
        invariant forall i :: 0 <= i < n ==> all[i].Valid() && all[i].accepted == [] && fresh(all[i].buffer)
      {
        var p := new Pipe();
        all := all + [p];
      }
      pipes := all;
    }

    /** Opens both ends of the first pipe that has none open. */
    method Allocate() returns (r: Result<nat, ErrorCode>)
      requires Valid()
      modifies pipes`readRefcount, pipes`writeRefcount
      ensures r.Err? <==> FirstFree(old(Refs())) == |pipes|
      ensures r.Err? ==> r.error == EMFILE && Refs() == old(Refs())
      ensures r.Ok? ==> r.value == FirstFree(old(Refs())) && Refs() == old(Refs())[r.value := DescriptorSpec.Refs(1, 1)]
    {
      for i := 0 to |pipes|
        invariant Refs() == old(Refs())
        invariant forall j :: 0 <= j < i ==> Refs()[j].InUse()
      {
        if !pipes[i].IsAllocated() {
          FirstFreeIs(Refs(), i);
          pipes[i].readRefcount := pipes[i].readRefcount + 1;
          pipes[i].writeRefcount := pipes[i].writeRefcount + 1;
          return Ok(i);
        }
      }
      FirstFreeIs(Refs(), |pipes|);
      r := Err(EMFILE);
    }

    /** Counts one more end of a pipe in use. */
    method Open(fd: Fd) returns (r: Result<(), ErrorCode>)
      requires Valid()
      modifies pipes`readRefcount, pipes`writeRefcount
      ensures OpenEnd(old(Refs()), fd) == if r.Ok? then Ok(Refs()) else Err(r.error)
      ensures if r.Ok? then r == Ok(()) else Refs() == old(Refs())
    {
      if fd.File? {
        return Ok(());
      }
      if fd.id >= |pipes| || !pipes[fd.id].IsAllocated() {
        return Err(EBADF);
      }
      if fd.PipeRead? {
        pipes[fd.id].readRefcount := pipes[fd.id].readRefcount + 1;
      } else {
        pipes[fd.id].writeRefcount := pipes[fd.id].writeRefcount + 1;
      }
      assert Refs() == old(Refs())[fd.id := Refs()[fd.id]];
      r := Ok(());
    }

    /** Counts one end less of a pipe in use. */
    method Close(fd: Fd) returns (r: Result<(), ErrorCode>)
      requires Valid()
      modifies pipes`readRefcount, pipes`writeRefcount
      ensures CloseEnd(old(Refs()), fd) == if r.Ok? then Ok(Refs()) else Err(r.error)
      ensures if r.Ok? then r == Ok(()) else Refs() == old(Refs())
    {
      if fd.File? {
        return Ok(());
      }
      if fd.id >= |pipes| || !pipes[fd.id].IsAllocated() {
        return Err(EBADF);
      }
      if fd.PipeRead? {
        pipes[fd.id].readRefcount := Less(pipes[fd.id].readRefcount);
      } else {
        pipes[fd.id].writeRefcount := Less(pipes[fd.id].writeRefcount);
      }
      assert Refs() == old(Refs())[fd.id := Refs()[fd.id]];
      r := Ok(());
    }
  }

  lemma FreeRefs(pool: Pool)
    ensures var id := FirstFree(pool); id < |pool| ==> pool[id] == DescriptorSpec.Refs(0, 0)
  {
  }

  lemma {:induction false} FirstFreeIs(pool: Pool, n: nat)
    requires n <= |pool| && (forall i :: 0 <= i < n ==> pool[i].InUse()) && (n < |pool| ==> !pool[n].InUse())
    ensures FirstFree(pool) == n
  {
  }

  class FdTable {
    var entries: Table

    constructor ()
      ensures entries == EmptyTable()
    {
      entries := EmptyTable();
    }

    /** The lowest free descriptor from 3 up. */
    method AllocateFd() returns (r: Result<nat, ErrorCode>)
      requires |entries| == MAX_FDS
      ensures r == if FreeFd(entries, FIRST_NONSTD_FD) == MAX_FDS then Err(EMFILE)
              else Ok(FreeFd(entries, FIRST_NONSTD_FD))
    {
      for fd := FIRST_NONSTD_FD to MAX_FDS
        invariant FreeFd(entries, FIRST_NONSTD_FD) == FreeFd(entries, fd)
      {
        if entries[fd].None? {
          return Ok(fd);
        }
      }
      r := Err(EMFILE);
    }

    /** `pipe`: a pipe and a descriptor for each of its ends. */
    method CreatePipe(pool: PipePool) returns (r: Result<(nat, nat), ErrorCode>)
      requires pool.Valid() && |entries| == MAX_FDS
      modifies this, pool.pipes`readRefcount, pool.pipes`writeRefcount
      ensures Outcome(entries, pool.Refs(), r) == MakePipe(old(entries), old(pool.Refs()))
      ensures r.Ok? ==> exists id: nat ::
                PipeMade(old(entries), old(pool.Refs()), entries, pool.Refs(), r.value.0, r.value.1, id)
    {
      hide PipeMade, FirstFree, FreeFd;
      if MakePipe(entries, pool.Refs()).result.Ok? {
        PipeExact(entries, pool.Refs());
      }
      FreeRefs(pool.Refs());
      var id := pool.Allocate();
      if id.Err? {
        return Err(id.error);
      }
      var readFd := AllocateFd();
      if readFd.Err? {
        return Err(readFd.error);
      }
      entries := entries[readFd.value := Some(PipeRead(id.value))];
      var writeFd := AllocateFd();
      if writeFd.Err? {
        return Err(writeFd.error);
      }
      entries := entries[writeFd.value := Some(PipeWrite(id.value))];
      r := Ok((readFd.value, writeFd.value));
    }

    method CloseDescriptor(fd: int, pool: PipePool) returns (r: Result<(), ErrorCode>)
      requires pool.Valid() && |entries| == MAX_FDS
      modifies this, pool.pipes`readRefcount, pool.pipes`writeRefcount
      ensures |entries| == MAX_FDS
      ensures Outcome(entries, pool.Refs(), r) == CloseFd(old(entries), old(pool.Refs()), fd)
      ensures r.Ok? ==> 3 <= fd < 16 && OneSlot(old(entries), entries, fd, None)
      ensures r.Ok? && Backed(old(pool.Refs()), old(entries)[fd]) ==>
                Moves(old(pool.Refs()), pool.Refs(), None, old(entries)[fd])
    {
      if CloseFd(entries, pool.Refs(), fd).result.Ok? {
        CloseExact(entries, pool.Refs(), fd);
      }
      if fd < 0 || fd >= MAX_FDS {
        return Err(EBADF);
      }
      if fd < FIRST_NONSTD_FD {
        return Err(EINVAL);
      }
      var kind := entries[fd];
      if kind.None? {
        return Err(EBADF);
      }
      entries := entries[fd := None];
      r := pool.Close(kind.value);
    }

    method DuplicateTo(oldFd: int, newFd: int, pool: PipePool) returns (r: Result<(), ErrorCode>)
      requires pool.Valid() && |entries| == MAX_FDS
      modifies this, pool.pipes`readRefcount, pool.pipes`writeRefcount
      ensures Outcome(entries, pool.Refs(), r) == Dup2(old(entries), old(pool.Refs()), oldFd, newFd)
      ensures r.Ok? ==> 3 <= oldFd < 16 && OneSlot(old(entries), entries, newFd, old(entries)[oldFd])
      ensures r.Ok? && (newFd < 3 || Backed(old(pool.Refs()), old(entries)[newFd])) ==>
                Moves(old(pool.Refs()), pool.Refs(), old(entries)[oldFd],
                      if newFd < 3 then None else old(entries)[newFd])
    {
      if Dup2(entries, pool.Refs(), oldFd, newFd).result.Ok? {
        DuplicateExact(entries, pool.Refs(), oldFd, newFd);
      }
      if oldFd < 0 || oldFd >= MAX_FDS || newFd < 0 || newFd >= MAX_FDS {
        return Err(EBADF);
      }
      if oldFd < FIRST_NONSTD_FD {
        return Err(EINVAL);
      }
      var kind := entries[oldFd];
      if kind.None? {
        return Err(EBADF);
      }
      if newFd >= FIRST_NONSTD_FD && entries[newFd].Some? {
        r := CloseDescriptor(newFd, pool);
        if r.Err? {
          return;
        }
      }
      r := pool.Open(kind.value);
      if r.Ok? {
        entries := entries[newFd := kind];
      }
    }

    /** A copy of the table with every pipe end in it counted once more. */
    method ForkCopy(pool: PipePool) returns (r: Result<Table, ErrorCode>)
      requires pool.Valid() && |entries| == MAX_FDS
      modifies pool.pipes`readRefcount, pool.pipes`writeRefcount
      ensures r.Ok? ==> r.value == entries && ForkCounts(entries, old(pool.Refs()), MAX_FDS) == Ok(pool.Refs())
      ensures r.Err? ==> ForkCounts(entries, old(pool.Refs()), MAX_FDS).Err?
      ensures r.Ok? ==> CountedAgain(old(pool.Refs()), pool.Refs(), entries)
    {
      for n := 0 to MAX_FDS
        invariant ForkCounts(entries, old(pool.Refs()), n) == Ok(pool.Refs())
      {
        if entries[n].Some? {
          var counted := pool.Open(entries[n].value);
          if counted.Err? {
            FailsOnwards(entries, old(pool.Refs()), n + 1, MAX_FDS);
            return Err(counted.error);
          }
        }
      }
      ForkExact(entries, old(pool.Refs()), MAX_FDS);
      assert entries[..MAX_FDS] == entries;
      r := Ok(entries);
    }
  }

  lemma {:induction false} FailsOnwards(t: Table, pool: Pool, n: nat, m: nat)
    requires n <= m <= |t| && ForkCounts(t, pool, n).Err?
    ensures ForkCounts(t, pool, m).Err?
    decreases m
  {
    if n < m {
      FailsOnwards(t, pool, n, m - 1);
    }
  }
}
