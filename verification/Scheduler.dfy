/** The round-robin scheduler, changed in place. */
module Schedulers {
  import opened Wrappers
  import opened Processes
  import opened SchedulerSpec

  class Scheduler {
    var readyQueue: seq<Process>
    var current: Option<Process>
    var foregroundPgid: Option<nat>

    ghost function Contents(): Sched
      reads this
    {
      Sched(readyQueue, current)
    }

    constructor ()
      ensures Contents() == Sched([], None) && foregroundPgid.None?
    {
      readyQueue, current, foregroundPgid := [], None, None;
    }

    /** `false` is the panic on a process that is not ready. */
    method AddProcess(process: Process) returns (ok: bool)
      modifies this`readyQueue
      ensures ok <==> process.state.Ready?
      ensures Contents() == if ok then Apply(old(Contents()), Add(process)) else old(Contents())
      ensures ok ==> Contents() == Sched(old(readyQueue) + [process], old(current))
    {
      ok := process.state.Ready?;
      if ok {
        readyQueue := readyQueue + [process];
      }
    }

    method WakeWaitersForChild(child: nat)
      modifies this`readyQueue, this`current
      ensures Contents() == Apply(old(Contents()), WakeFor(child))
      ensures AllWokenBy(old(readyQueue), child, readyQueue)
      ensures current.Some? == old(current).Some?
      ensures current.Some? ==> WokenBy(old(current).value, child, current.value)
    {
      if current.Some? && current.value.ShouldWakeOnChildExit(child) {
        current := Some(current.value.Wake());
      }
      ghost var running := current;
      for n := 0 to |readyQueue|
        invariant |readyQueue| == |old(readyQueue)| && current == running
        invariant forall i :: 0 <= i < n ==> readyQueue[i] == old(readyQueue)[i].WokenFor(child)
        invariant forall i :: n <= i < |readyQueue| ==> readyQueue[i] == old(readyQueue)[i]
      {
        if readyQueue[n].ShouldWakeOnChildExit(child) {
          readyQueue := readyQueue[n := readyQueue[n].Wake()];
        }
      }
      assert readyQueue == WakeAll(old(readyQueue), child);
    }

    /** Posts a signal to every process of the group and counts them. */
    method SignalProcessGroup(pgid: nat, signal: Signal) returns (count: nat)
      modifies this`readyQueue, this`current
      ensures Contents() == Apply(old(Contents()), SignalGroup(pgid, signal))
      ensures count == Members(old(readyQueue), pgid)
                       + if old(current).Some? && old(current).value.pgid == pgid then 1 else 0
      ensures |readyQueue| == |old(readyQueue)| && current.Some? == old(current).Some?
      ensures forall i :: 0 <= i < |readyQueue| ==> Posted(old(readyQueue)[i], pgid, signal, readyQueue[i])
      ensures current.Some? ==> Posted(old(current).value, pgid, signal, current.value)
    {
      hide Members, SignalAll;
      count := 0;
      if current.Some? && current.value.pgid == pgid {
        current := Some(current.value.SendSignal(signal));
        count := 1;
      }
      ghost var base := count;
      ghost var running := current;
      MembersPrefix(readyQueue, pgid, 0);
      for n := 0 to |readyQueue|
        invariant |readyQueue| == |old(readyQueue)| && current == running
        invariant forall i :: 0 <= i < n ==> readyQueue[i] == Signalled(old(readyQueue)[i], pgid, signal)
        invariant forall i :: n <= i < |readyQueue| ==> readyQueue[i] == old(readyQueue)[i]
        invariant count == base + Members(old(readyQueue)[..n], pgid)
      {
        MembersPrefix(old(readyQueue), pgid, n);
        if readyQueue[n].pgid == pgid {
          readyQueue := readyQueue[n := readyQueue[n].SendSignal(signal)];
          count := count + 1;
        }
      }
      SignalledIs(old(readyQueue), readyQueue, pgid, signal);
      assert old(readyQueue)[..|readyQueue|] == old(readyQueue);
    }

    method ExitCurrentProcess(code: int) returns (ok: bool)
      modifies this`current
      ensures ok <==> old(current).Some?
      ensures Contents() == Apply(old(Contents()), ExitCurrent(code))
      ensures ok ==> current == Some(old(current).value.(state := Exited(code)))
    {
      ok := current.Some?;
      if ok {
        current := Some(current.value.(state := Exited(code)));
      }
    }

    /** Drops exited processes and counts them. */
    method RemoveExitedProcesses() returns (removed: nat)
      modifies this`readyQueue, this`current
      ensures Contents() == Apply(old(Contents()), RemoveExited)
      ensures removed + |readyQueue| + (if current.Some? then 1 else 0)
              == |old(readyQueue)| + (if old(current).Some? then 1 else 0)
      ensures ExitedGone(old(readyQueue), readyQueue)
      ensures current == if old(current).Some? && (old(current).value.state.Exited? || old(current).value.state.Zombie?)
                         then None else old(current)
    {
      hide Alive, ExitedGone;
      var kept := [];
      var n := |readyQueue|;
      AliveNothing();
      assert readyQueue[n..] == [];
      while n > 0
        invariant 0 <= n <= |readyQueue| && Contents() == old(Contents())
        invariant kept == Alive(readyQueue[n..])
      {
        n := n - 1;
        AliveFirst(readyQueue[n..]);
        assert readyQueue[n..][1..] == readyQueue[n + 1..];
        if !readyQueue[n].IsExited() {
          kept := [readyQueue[n]] + kept;
        }
      }
      assert readyQueue[0..] == readyQueue;
      AliveExact(readyQueue);
      removed := |readyQueue| - |kept|;
      readyQueue := kept;
      if current.Some? && current.value.IsExited() {
        current := None;
        removed := removed + 1;
      }
    }

    /** Takes one zombie child of the parent out, the current process first. */
    method FindZombieChild(parent: nat) returns (r: Option<Process>)
      modifies this`readyQueue, this`current
      ensures Contents() == Apply(old(Contents()), ReapZombie(parent))
      ensures r.Some? ==> IsZombieOf(r.value, parent) && (old(current) == r || r.value in old(readyQueue))
      ensures r.None? <==> !(old(current).Some? && IsZombieOf(old(current).value, parent))
                           && forall i :: 0 <= i < |old(readyQueue)| ==> !IsZombieOf(old(readyQueue)[i], parent)
      ensures r.Some? ==> r.value.state.Zombie? && r.value.parentPid == Some(parent)
      ensures r.Some? ==>
                || (r == old(current) && current.None? && readyQueue == old(readyQueue))
                || (current == old(current) && exists n ::
                      && 0 <= n < |old(readyQueue)| && r.value == old(readyQueue)[n]
                      && readyQueue == old(readyQueue)[..n] + old(readyQueue)[n + 1..]
                      && forall i :: 0 <= i < n ==> !IsZombieOf(old(readyQueue)[i], parent))
    {
      if current.Some? && IsZombieOf(current.value, parent) {
        r := current;
        current := None;
        return;
      }
      for n := 0 to |readyQueue|
        invariant readyQueue == old(readyQueue)
        invariant forall i :: 0 <= i < n ==> !IsZombieOf(readyQueue[i], parent)
      {
        if IsZombieOf(readyQueue[n], parent) {
          ZombieIs(readyQueue, parent, n);
          r := Some(readyQueue[n]);
          readyQueue := readyQueue[..n] + readyQueue[n + 1..];
          return;
        }
      }
      ZombieIs(readyQueue, parent, |readyQueue|);
      r := None;
    }

    method YieldCurrent() returns (ok: bool)
      modifies this`readyQueue, this`current
      ensures ok <==> old(current).Some?
      ensures Contents() == if ok then Apply(old(Contents()), Schedule) else old(Contents())
    {
      ok := current.Some?;
      if ok {
        var _ := ScheduleNext();
      }
    }

    /** Puts the process leaving the processor back in the queue, unless it has exited or a signal ends it. */
    method RequeueCurrent()
      modifies this`readyQueue, this`current
      ensures current.None? && readyQueue == Requeued(old(Contents()))
      ensures LeftProcessor(old(Contents()), readyQueue)
    {
      RequeuedLeft(Contents());
      if current.Some? {
        var proc := current.value;
        current := None;
        if !proc.IsExited() {
          var (p, action) := proc.DeliverSignals();
          match action
          case Terminate =>
          case Stop =>
            readyQueue := readyQueue + [p.(state := Stopped)];
            WakeWaitersForChild(p.pid);
          case _ =>
            if p.pending != {} {
              p := p.Wake();
            }
            readyQueue := readyQueue + [p.(state := Ready)];
        }
      }
    }

    /** Takes the processor from the current process and gives it to the first runnable one in the queue. */
    method ScheduleNext() returns (next: Option<Process>)
      modifies this`readyQueue, this`current
      ensures Contents() == Apply(old(Contents()), Schedule)
      ensures next == current
      ensures var q := Requeued(old(Contents()));
              next.None? <==> forall i :: 0 <= i < |q| ==> !q[i].IsRunnable()
      ensures next.Some? ==> next.value.state.Running?
      ensures exists q :: LeftProcessor(old(Contents()), q) && FirstRuns(q, Contents())
    {
      hide Requeued, FirstRunnable, Process.IsRunnable, LeftProcessor, FirstRuns, Picked;
      PickedRuns(Requeued(Contents()));
      RequeueCurrent();
      ghost var q := readyQueue;
      var count := |readyQueue|;
      for n := 0 to count
        invariant readyQueue == q[n..] + q[..n] && current.None?
        invariant forall i :: 0 <= i < n ==> !q[i].IsRunnable()
      {
        RotateOne(q, n);
        var candidate := readyQueue[0];
        readyQueue := readyQueue[1..];
        RunnableIs(candidate);
        if candidate.IsBlocked() || candidate.IsStopped() {
          readyQueue := readyQueue + [candidate];
        } else {
          PickedIs(q, n);
          current := Some(candidate.(state := Running));
          return current;
        }
      }
      PickedIs(q, count);
      assert q[count..] + q[..count] == q;
      next := None;
    }
  }

  lemma RotateOne<T>(q: seq<T>, n: nat)
    requires n < |q|
    ensures var r := q[n..] + q[..n];
            && r[0] == q[n] && r[1..] == q[n + 1..] + q[..n] && r[1..] + [r[0]] == q[n + 1..] + q[..n + 1]
  {
  }

  lemma AliveNothing()
    ensures Alive([]) == []
  {
  }

  lemma RunnableIs(p: Process)
    ensures p.IsRunnable() <==> !(p.IsBlocked() || p.IsStopped())
  {
  }

  function Members(q: seq<Process>, pgid: nat): nat {
    if q == [] then 0 else Members(q[..|q| - 1], pgid) + if q[|q| - 1].pgid == pgid then 1 else 0
  }

  lemma MembersPrefix(q: seq<Process>, pgid: nat, n: nat)
    ensures Members(q[..0], pgid) == 0
    ensures n < |q| ==> Members(q[..n + 1], pgid) == Members(q[..n], pgid) + if q[n].pgid == pgid then 1 else 0
  {
    if n < |q| {
      assert q[..n + 1][..n] == q[..n];
    }
  }

  lemma SignalledIs(q: seq<Process>, r: seq<Process>, pgid: nat, signal: Signal)
    requires |r| == |q| && forall i :: 0 <= i < |q| ==> r[i] == Signalled(q[i], pgid, signal)
    ensures r == SignalAll(q, pgid, signal)
  {
  }

  lemma ZombieIs(q: seq<Process>, parent: nat, n: nat)
    requires n <= |q| && (forall i :: 0 <= i < n ==> !IsZombieOf(q[i], parent))
             && (n < |q| ==> IsZombieOf(q[n], parent))
    ensures FirstZombie(q, parent) == n
  {
  }

  lemma PickedIs(q: seq<Process>, n: nat)
    requires n <= |q| && (forall i :: 0 <= i < n ==> !q[i].IsRunnable()) && (n < |q| ==> q[n].IsRunnable())
    ensures Picked(q) == if n == |q| then Sched(q, None)
                         else Sched(q[n + 1..] + q[..n], Some(q[n].(state := Running)))
  {
    hide Process.IsRunnable;
    assert FirstRunnable(q) == n;
  }
}
