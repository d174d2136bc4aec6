/** The scheduler's state as a value, and what each of its calls makes of it. */
module SchedulerSpec {
  import opened Wrappers
  import opened Processes

  datatype Sched = Sched(queue: seq<Process>, current: Option<Process>)

  /** Everything that happens to a scheduler. Adding is by fork; `Change` is the running process changing itself. */
  datatype Op =
    | Schedule
    | Add(process: Process)
    | ExitCurrent(code: int)
    | RemoveExited
    | ReapZombie(parent: nat)
    | WakeFor(child: nat)
    | SignalGroup(pgid: nat, signal: Signal)
    | Change(process: Process)

  function WakeAll(q: seq<Process>, child: nat): seq<Process> {
    seq(|q|, i requires 0 <= i < |q| => q[i].WokenFor(child))
  }

  function Signalled(p: Process, pgid: nat, signal: Signal): Process {
    if p.pgid == pgid then p.SendSignal(signal) else p
  }

  function SignalAll(q: seq<Process>, pgid: nat, signal: Signal): seq<Process> {
    seq(|q|, i requires 0 <= i < |q| => Signalled(q[i], pgid, signal))
  }

  /** The queue once the process leaving the processor has been dealt with. */
  function Requeued(s: Sched): seq<Process> {
    if s.current.None? || s.current.value.IsExited() then s.queue
    else
      var (p, action) := s.current.value.DeliverSignals();
      match action
      case Terminate => s.queue
      case Stop => WakeAll(s.queue + [p.(state := Stopped)], p.pid)
      case _ => s.queue + [(if p.pending != {} then p.Wake() else p).(state := Ready)]
  }

  /** The place of the first runnable process, or the length if there is none. */
  function FirstRunnable(q: seq<Process>): (i: nat)
    ensures i <= |q|
    ensures forall j :: 0 <= j < i ==> !q[j].IsRunnable()
    ensures i < |q| ==> q[i].IsRunnable()
  {
    if q == [] || q[0].IsRunnable() then 0 else 1 + FirstRunnable(q[1..])
  }

  /** The first runnable process runs; what was passed over goes to the back in order. */
  function Picked(q: seq<Process>): Sched {
    var i := FirstRunnable(q);
    if i == |q| then Sched(q, None) else Sched(q[i + 1..] + q[..i], Some(q[i].(state := Running)))
  }

  function Alive(q: seq<Process>): seq<Process> {
    if q == [] then [] else (if q[0].IsExited() then [] else [q[0]]) + Alive(q[1..])
  }

  predicate IsZombieOf(p: Process, parent: nat) {
    p.IsZombie() && p.parentPid == Some(parent)
  }

  function FirstZombie(q: seq<Process>, parent: nat): (i: nat)
    ensures i <= |q|
    ensures forall j :: 0 <= j < i ==> !IsZombieOf(q[j], parent)
    ensures i < |q| ==> IsZombieOf(q[i], parent)
  {
    if q == [] || IsZombieOf(q[0], parent) then 0 else 1 + FirstZombie(q[1..], parent)
  }

  function Apply(s: Sched, op: Op): Sched {
    match op
    case Schedule => Picked(Requeued(s))
    case Add(p) => s.(queue := s.queue + [p])
    case ExitCurrent(code) =>
      if s.current.Some? then s.(current := Some(s.current.value.(state := Exited(code)))) else s
    case RemoveExited =>
      Sched(Alive(s.queue), if s.current.Some? && s.current.value.IsExited() then None else s.current)
    case ReapZombie(parent) =>
      if s.current.Some? && IsZombieOf(s.current.value, parent) then s.(current := None)
      else
        var i := FirstZombie(s.queue, parent);
        if i == |s.queue| then s else s.(queue := s.queue[..i] + s.queue[i + 1..])
    case WakeFor(child) =>
      Sched(WakeAll(s.queue, child), if s.current.Some? then Some(s.current.value.WokenFor(child)) else None)
    case SignalGroup(pgid, signal) =>
      Sched(SignalAll(s.queue, pgid, signal),
            if s.current.Some? then Some(Signalled(s.current.value, pgid, signal)) else None)
    case Change(p) => s.(current := Some(p))
  }

  // ---------- What the calls do to each process ----------

  /** Woken if it waits for any child or for this one; nothing else changes. */
  ghost predicate WokenBy(p: Process, child: nat, q: Process) {
    q == Process(p.pid, p.pgid, p.parentPid, p.state,
                 if p.waitState == WaitingForAnyChild || p.waitState == WaitingForChild(child) then NotWaiting
                 else p.waitState, p.pending)
  }

  ghost predicate AllWokenBy(q: seq<Process>, child: nat, r: seq<Process>) {
    |r| == |q| && forall i :: 0 <= i < |q| ==> WokenBy(q[i], child, r[i])
  }

  /** Ready again with what is still pending; a pending signal ends its wait. */
  ghost function Again(p: Process, pending: set<Signal>): Process {
    Process(p.pid, p.pgid, p.parentPid, Ready, if pending == {} then p.waitState else NotWaiting, pending)
  }

  /**
   The queue once the current process has left the processor, by its state and its pending signals alone. An exited
   process is dropped. SIGCONT goes before SIGTSTP and SIGTSTP before SIGINT: continued, stopped with its waiters woken,
   or ended.
   */
  ghost predicate LeftProcessor(s: Sched, q: seq<Process>) {
    if s.current.None? || s.current.value.state.Exited? || s.current.value.state.Zombie? then q == s.queue
    else
      var p := s.current.value;
      if SIGCONT in p.pending then q == s.queue + [Again(p, p.pending - {SIGCONT})]
      else if SIGTSTP in p.pending then
        AllWokenBy(s.queue + [p.(state := Stopped, pending := p.pending - {SIGTSTP})], p.pid, q)
      else if SIGINT in p.pending then q == s.queue
      else q == s.queue + [Again(p, p.pending)]
  }

  lemma RequeuedLeft(s: Sched)
    ensures LeftProcessor(s, Requeued(s))
  {
  }

  /** Neither waiting nor stopped. */
  ghost predicate CanRun(p: Process) {
    p.waitState == NotWaiting && p.state != Stopped
  }

  /** The first process that can run has the processor; those behind it moved up, those before it went to the back. */
  ghost predicate FirstRuns(q: seq<Process>, s: Sched) {
    if forall i :: 0 <= i < |q| ==> !CanRun(q[i]) then s == Sched(q, None)
    else exists i :: 0 <= i < |q| && CanRun(q[i]) && (forall j :: 0 <= j < i ==> !CanRun(q[j]))
                     && s == Sched(q[i + 1..] + q[..i], Some(q[i].(state := Running)))
  }

  lemma PickedRuns(q: seq<Process>)
    ensures FirstRuns(q, Picked(q))
  {
    var i := FirstRunnable(q);
    assert forall j :: 0 <= j < |q| ==> (CanRun(q[j]) <==> q[j].IsRunnable());
  }

  /** A signal posted to a group: pending for its members, nothing else changed. */
  ghost predicate Posted(p: Process, pgid: nat, signal: Signal, q: Process) {
    q == Process(p.pid, p.pgid, p.parentPid, p.state, p.waitState,
                 if p.pgid == pgid then p.pending + {signal} else p.pending)
  }

  /** The exited processes of a queue are gone, and only they. */
  ghost predicate ExitedGone(q: seq<Process>, r: seq<Process>) {
    forall p :: multiset(r)[p] == if p.state.Exited? || p.state.Zombie? then 0 else multiset(q)[p]
  }

  lemma {:induction false} AliveExact(q: seq<Process>)
    ensures ExitedGone(q, Alive(q)) && |Alive(q)| <= |q|
    decreases |q|
  {
    if q != [] {
      AliveExact(q[1..]);
      AliveFirst(q);
      hide Alive;
      FirstGone(q[0], q[1..], Alive(q[1..]));
      assert q == [q[0]] + q[1..];
      if q[0].state.Exited? || q[0].state.Zombie? {
        assert [] + Alive(q[1..]) == Alive(q[1..]);
      }
    }
  }

  lemma AliveFirst(q: seq<Process>)
    requires q != []
    ensures Alive(q) == (if q[0].state.Exited? || q[0].state.Zombie? then [] else [q[0]]) + Alive(q[1..])
  {
  }

  lemma FirstGone(first: Process, q: seq<Process>, r: seq<Process>)
    requires ExitedGone(q, r)
    ensures ExitedGone([first] + q, if first.state.Exited? || first.state.Zombie? then r else [first] + r)
  {
  }

  // ---------- The invariant over runs ----------

  ghost predicate QueueOk(q: seq<Process>) {
    && (forall i :: 0 <= i < |q| ==> q[i].state.Ready? || q[i].state.Stopped?)
    && (forall i, j :: 0 <= i < j < |q| ==> q[i].pid != q[j].pid)
  }

  ghost predicate InQueue(q: seq<Process>, pid: nat) {
    exists i :: 0 <= i < |q| && q[i].pid == pid
  }

  /** Queued processes are ready or stopped and all PIDs differ; only the current process can be running. */
  ghost predicate Inv(s: Sched) {
    && QueueOk(s.queue)
    && (s.current.Some? ==>
          && !InQueue(s.queue, s.current.value.pid)
          && (s.current.value.state.Running? || s.current.value.IsExited()))
  }

  /** What the callers of the scheduler keep to. */
  ghost predicate Allowed(s: Sched, op: Op) {
    match op
    case Add(p) => p.state.Ready? && !InQueue(s.queue, p.pid) && (s.current.Some? ==> s.current.value.pid != p.pid)
    case Change(p) => s.current.Some? && p.pid == s.current.value.pid && (p.state.Running? || p.IsExited())
    case _ => true
  }

  ghost predicate Runs(s: Sched, ops: seq<Op>)
    decreases |ops|
  {
    ops != [] ==> Allowed(s, ops[0]) && Runs(Apply(s, ops[0]), ops[1..])
  }

  ghost function After(s: Sched, ops: seq<Op>): Sched
    decreases |ops|
  {
    if ops == [] then s else After(Apply(s, ops[0]), ops[1..])
  }

  /** A new scheduler, from which every run can start. */
  lemma EmptyIsOk()
    ensures Inv(Sched([], None)) && forall pid :: pid !in Pids(Sched([], None))
  {
  }

  lemma RequeuedOk(s: Sched)
    requires Inv(s)
    ensures QueueOk(Requeued(s))
  {
  }

  lemma PickedOk(q: seq<Process>)
    requires QueueOk(q)
    ensures Inv(Picked(q))
  {
    var i := FirstRunnable(q);
    if i < |q| {
      var r := q[i + 1..] + q[..i];
      forall a, b | 0 <= a < b < |r|
        ensures r[a].pid != r[b].pid
      {
        var n := |q| - i - 1;
        var a' := if a < n then a + i + 1 else a - n;
        var b' := if b < n then b + i + 1 else b - n;
        assert r[a] == q[a'] && r[b] == q[b'] && a' != b';
      }
      forall a | 0 <= a < |r|
        ensures r[a].pid != q[i].pid && (r[a].state.Ready? || r[a].state.Stopped?)
      {
        var n := |q| - i - 1;
        var a' := if a < n then a + i + 1 else a - n;
        assert r[a] == q[a'];
      }
    }
  }

  /** With no exited process in it, the queue loses nothing to clean-up. */
  lemma {:induction false} AliveAll(q: seq<Process>)
    requires forall i :: 0 <= i < |q| ==> !q[i].IsExited()
    ensures Alive(q) == q
  {
    if q != [] {
      AliveAll(q[1..]);
    }
  }

  lemma StepKeepsInv(s: Sched, op: Op)
    requires Inv(s) && Allowed(s, op)
    ensures Inv(Apply(s, op))
  {
    hide Inv;
    match op
    case Schedule => ScheduleKeepsInv(s);
    case RemoveExited => RemoveKeepsInv(s);
    case ReapZombie(parent) => ReapKeepsInv(s, parent);
    case _ => ChangeKeepsInv(s, op);
  }

  lemma ScheduleKeepsInv(s: Sched)
    requires Inv(s)
    ensures Inv(Apply(s, Schedule))
  {
    hide Requeued, Picked;
    RequeuedOk(s);
    PickedOk(Requeued(s));
  }

  lemma RemoveKeepsInv(s: Sched)
    requires Inv(s)
    ensures Inv(Apply(s, RemoveExited))
  {
    AliveAll(s.queue);
  }

  lemma ReapKeepsInv(s: Sched, parent: nat)
    requires Inv(s)
    ensures Inv(Apply(s, ReapZombie(parent)))
  {
    hide FirstZombie, IsZombieOf;
  }

  /** The calls that change processes where they are, or add one. */
  lemma ChangeKeepsInv(s: Sched, op: Op)
    requires Inv(s) && Allowed(s, op) && !op.Schedule? && !op.RemoveExited? && !op.ReapZombie?
    ensures Inv(Apply(s, op))
  {
  }

  lemma {:induction false} RunKeepsInv(s: Sched, ops: seq<Op>)
    requires Inv(s) && Runs(s, ops)
    ensures Inv(After(s, ops))
    decreases |ops|
  {
    if ops != [] {
      StepKeepsInv(s, ops[0]);
      RunKeepsInv(Apply(s, ops[0]), ops[1..]);
    }
  }

  // ---------- Bounded waiting ----------

  function Schedules(ops: seq<Op>): nat {
    if ops == [] then 0 else (if ops[0].Schedule? then 1 else 0) + Schedules(ops[1..])
  }

  /** The process is queued, runnable, with at most k processes in front of it. */
  ghost predicate Waits(s: Sched, pid: nat, k: nat) {
    exists i :: 0 <= i <= k && i < |s.queue| && s.queue[i].pid == pid && s.queue[i].IsRunnable()
  }

  ghost predicate IsCurrent(s: Sched, pid: nat) {
    s.current.Some? && s.current.value.pid == pid
  }

  /** Putting the current process back leaves a runnable process runnable in its place. */
  lemma RequeuedKeepsPlace(s: Sched, i: nat)
    requires i < |s.queue| && s.queue[i].IsRunnable()
    ensures i < |Requeued(s)| && Requeued(s)[i].pid == s.queue[i].pid && Requeued(s)[i].IsRunnable()
  {
  }

  /** A call of `schedule_next` runs the process or brings it nearer to the front. */
  lemma ScheduleAdvances(s: Sched, pid: nat, k: nat)
    requires Waits(s, pid, k)
    ensures IsCurrent(Apply(s, Schedule), pid) || (k > 0 && Waits(Apply(s, Schedule), pid, k - 1))
  {
    hide Requeued;
    var i :| 0 <= i <= k && i < |s.queue| && s.queue[i].pid == pid && s.queue[i].IsRunnable();
    RequeuedKeepsPlace(s, i);
    var q := Requeued(s);
    var f := FirstRunnable(q);
    if f < i {
      assert Picked(q).queue[i - f - 1] == q[i];
    }
  }

  /** No other call moves it back or takes it out. */
  lemma OtherStepsKeepWaiting(s: Sched, op: Op, pid: nat, k: nat)
    requires Inv(s) && !op.Schedule? && Waits(s, pid, k)
    ensures Waits(Apply(s, op), pid, k)
  {
    var i :| 0 <= i <= k && i < |s.queue| && s.queue[i].pid == pid && s.queue[i].IsRunnable();
    match op
    case RemoveExited => AliveAll(s.queue);
    case ReapZombie(parent) => assert Apply(s, op).queue == s.queue;
    case Add(p) => assert Apply(s, op).queue[i] == s.queue[i];
    case WakeFor(child) => assert Apply(s, op).queue[i] == s.queue[i].WokenFor(child);
    case SignalGroup(pgid, signal) => assert Apply(s, op).queue[i] == Signalled(s.queue[i], pgid, signal);
    case _ =>
  }

  /**
   Whatever else is interleaved, a runnable process with k processes in front of it is running after at most k + 1
   calls of `schedule_next`.
   */
  lemma BoundedWaiting(s: Sched, ops: seq<Op>, pid: nat, k: nat)
    requires Inv(s) && Runs(s, ops) && Waits(s, pid, k) && Schedules(ops) >= k + 1
    ensures exists n :: 0 < n <= |ops| && ops[n - 1].Schedule? && Schedules(ops[..n]) <= k + 1
                        && IsCurrent(After(s, ops[..n]), pid)
  {
    var n := WaitEnds(s, ops, pid, k);
  }

  lemma {:induction false} WaitEnds(s: Sched, ops: seq<Op>, pid: nat, k: nat) returns (n: nat)
    requires Inv(s) && Runs(s, ops) && Waits(s, pid, k) && Schedules(ops) >= k + 1
    ensures 0 < n <= |ops| && ops[n - 1].Schedule? && Schedules(ops[..n]) <= k + 1
    ensures IsCurrent(After(s, ops[..n]), pid)
    decreases |ops|
  {
    hide Apply, Inv, Waits, Allowed, IsCurrent;
    var s' := Apply(s, ops[0]);
    StepKeepsInv(s, ops[0]);
    if ops[0].Schedule? {
      ScheduleAdvances(s, pid, k);
      if IsCurrent(s', pid) {
        n := 1;
        assert ops[..1][1..] == [];
        return;
      }
      n := WaitEnds(s', ops[1..], pid, k - 1);
    } else {
      OtherStepsKeepWaiting(s, ops[0], pid, k);
      n := WaitEnds(s', ops[1..], pid, k);
    }
    assert ops[..n + 1][1..] == ops[1..][..n];
    n := n + 1;
  }

  // ---------- Conservation ----------

  ghost function QueuePids(q: seq<Process>): set<nat> {
    set i | 0 <= i < |q| :: q[i].pid
  }

  ghost function Pids(s: Sched): set<nat> {
    QueuePids(s.queue) + (if s.current.Some? then {s.current.value.pid} else {})
  }

  /** The process that a call takes out of the system, if any. */
  ghost function Departs(s: Sched, op: Op): set<nat> {
    match op
    case Schedule =>
      if s.current.Some? && (s.current.value.state.Exited? || s.current.value.state.Zombie?
                             || (SIGINT in s.current.value.pending && {SIGCONT, SIGTSTP} !! s.current.value.pending))
      then {s.current.value.pid} else {}
    case RemoveExited => if s.current.Some? && s.current.value.IsExited() then {s.current.value.pid} else {}
    case ReapZombie(parent) =>
      if s.current.Some? && IsZombieOf(s.current.value, parent) then {s.current.value.pid} else {}
    case _ => {}
  }

  ghost function Arrives(op: Op): set<nat> {
    if op.Add? then {op.process.pid} else {}
  }

  lemma SamePids(q: seq<Process>, r: seq<Process>)
    requires |q| == |r| && forall i :: 0 <= i < |q| ==> q[i].pid == r[i].pid
    ensures QueuePids(q) == QueuePids(r)
  {
    forall x
      ensures x in QueuePids(q) <==> x in QueuePids(r)
    {
      if x in QueuePids(q) {
        var i :| 0 <= i < |q| && q[i].pid == x;
        assert r[i].pid == x;
      }
      if x in QueuePids(r) {
        var i :| 0 <= i < |r| && r[i].pid == x;
        assert q[i].pid == x;
      }
    }
  }

  lemma OnePid(p: Process)
    ensures QueuePids([p]) == {p.pid}
  {
    assert [p][0].pid in QueuePids([p]);
  }

  lemma JoinPids(q: seq<Process>, r: seq<Process>)
    ensures QueuePids(q + r) == QueuePids(q) + QueuePids(r)
  {
    forall x
      ensures x in QueuePids(q + r) <==> x in QueuePids(q) || x in QueuePids(r)
    {
      if x in QueuePids(q + r) {
        var i :| 0 <= i < |q + r| && (q + r)[i].pid == x;
        assert if i < |q| then q[i].pid == x else r[i - |q|].pid == x;
      }
      if x in QueuePids(q) {
        var i :| 0 <= i < |q| && q[i].pid == x;
        assert (q + r)[i].pid == x;
      }
      if x in QueuePids(r) {
        var i :| 0 <= i < |r| && r[i].pid == x;
        assert (q + r)[|q| + i].pid == x;
      }
    }
  }

  lemma PickedPids(q: seq<Process>)
    ensures Pids(Picked(q)) == QueuePids(q)
  {
    var i := FirstRunnable(q);
    if i < |q| {
      JoinPids(q[i + 1..], q[..i]);
      JoinPids(q[..i] + [q[i]], q[i + 1..]);
      JoinPids(q[..i], [q[i]]);
      assert q == q[..i] + [q[i]] + q[i + 1..];
      OnePid(q[i]);
    }
  }

  lemma RequeuedPids(s: Sched)
    requires Inv(s)
    ensures QueuePids(Requeued(s)) == Pids(s) - Departs(s, Schedule)
  {
    if s.current.Some? && Departs(s, Schedule) == {} {
      var (p, action) := s.current.value.DeliverSignals();
      var q := Requeued(s);
      assert q[..|s.queue|] + [q[|s.queue|]] == q;
      SamePids(q[..|s.queue|], s.queue);
      JoinPids(q[..|s.queue|], [q[|s.queue|]]);
      OnePid(q[|s.queue|]);
    } else if s.current.Some? {
      assert s.current.value.pid !in QueuePids(s.queue);
    }
  }

  /** Processes leave only after exit, by reaping or by SIGINT at a switch, and arrive only by being added. */
  lemma Conservation(s: Sched, op: Op)
    requires Inv(s) && Allowed(s, op)
    ensures Pids(Apply(s, op)) == Pids(s) + Arrives(op) - Departs(s, op)
  {
    hide QueuePids;
    match op
    case Schedule =>
      hide Picked, Requeued, Departs;
      RequeuedPids(s);
      PickedPids(Requeued(s));
    case Add(p) =>
      JoinPids(s.queue, [p]);
      OnePid(p);
    case RemoveExited =>
      AliveAll(s.queue);
      CurrentApart(s);
    case WakeFor(child) => SamePids(s.queue, Apply(s, op).queue);
    case SignalGroup(pgid, signal) => SamePids(s.queue, Apply(s, op).queue);
    case ReapZombie(parent) =>
      CurrentApart(s);
      assert Apply(s, op).queue == s.queue;
    case _ =>
  }

  lemma CurrentApart(s: Sched)
    requires Inv(s)
    ensures s.current.Some? ==> s.current.value.pid !in QueuePids(s.queue)
  {
  }

  /** Ctrl+C ends the running process at the next switch, unless SIGCONT or SIGTSTP comes first. */
  lemma InterruptEnds(s: Sched)
    requires Inv(s) && s.current.Some? && SIGINT in s.current.value.pending
    requires {SIGCONT, SIGTSTP} !! s.current.value.pending
    ensures s.current.value.pid !in Pids(Apply(s, Schedule))
  {
    Conservation(s, Schedule);
  }

  lemma {:induction false} DepartureAt(s: Sched, ops: seq<Op>, pid: nat) returns (n: nat)
    requires Inv(s) && Runs(s, ops) && pid in Pids(s) && pid !in Pids(After(s, ops))
    ensures n < |ops| && pid in Departs(After(s, ops[..n]), ops[n])
    decreases |ops|
  {
    Conservation(s, ops[0]);
    StepKeepsInv(s, ops[0]);
    if pid in Pids(Apply(s, ops[0])) {
      n := DepartureAt(Apply(s, ops[0]), ops[1..], pid);
      assert ops[..n + 1][1..] == ops[1..][..n];
      n := n + 1;
    } else {
      n := 0;
      assert ops[..0] == [];
    }
  }

  lemma {:induction false} ArrivalAt(s: Sched, ops: seq<Op>, pid: nat) returns (n: nat)
    requires Inv(s) && Runs(s, ops) && pid !in Pids(s) && pid in Pids(After(s, ops))
    ensures n < |ops| && pid in Arrives(ops[n])
    decreases |ops|
  {
    Conservation(s, ops[0]);
    StepKeepsInv(s, ops[0]);
    n := 0;
    if pid !in Pids(Apply(s, ops[0])) {
      n := ArrivalAt(Apply(s, ops[0]), ops[1..], pid);
      n := n + 1;
    }
  }

  /** Over any run: who is gone departed at some call by exit, reaping or SIGINT, and who is new was added. */
  lemma RunConservation(s: Sched, ops: seq<Op>, pid: nat)
    requires Inv(s) && Runs(s, ops)
    ensures pid in Pids(s) && pid !in Pids(After(s, ops)) ==>
              exists n :: 0 <= n < |ops| && pid in Departs(After(s, ops[..n]), ops[n])
    ensures pid !in Pids(s) && pid in Pids(After(s, ops)) ==>
              exists n :: 0 <= n < |ops| && ops[n].Add? && ops[n].process.pid == pid
  {
    if pid in Pids(s) && pid !in Pids(After(s, ops)) {
      var n := DepartureAt(s, ops, pid);
    } else if pid !in Pids(s) && pid in Pids(After(s, ops)) {
      var n := ArrivalAt(s, ops, pid);
    }
  }

  // ---------- Stopping ----------

  ghost predicate IsStoppedIn(s: Sched, pid: nat) {
    exists i :: 0 <= i < |s.queue| && s.queue[i].pid == pid && s.queue[i].IsStopped()
  }

  lemma ScheduleKeepsStopped(s: Sched, i: nat)
    requires Inv(s) && i < |s.queue| && s.queue[i].IsStopped()
    ensures IsStoppedIn(Apply(s, Schedule), s.queue[i].pid)
  {
    var q := Requeued(s);
    assert q[i].pid == s.queue[i].pid && q[i].IsStopped();
    var f := FirstRunnable(q);
    if f < |q| {
      assert i != f;
      assert Picked(q).queue[if i < f then |q| - f - 1 + i else i - f - 1] == q[i];
    }
  }

  lemma StepKeepsStopped(s: Sched, op: Op, pid: nat)
    requires Inv(s) && IsStoppedIn(s, pid)
    ensures IsStoppedIn(Apply(s, op), pid)
  {
    var i :| 0 <= i < |s.queue| && s.queue[i].pid == pid && s.queue[i].IsStopped();
    match op
    case Schedule => ScheduleKeepsStopped(s, i);
    case RemoveExited => AliveAll(s.queue);
    case ReapZombie(parent) => assert Apply(s, op).queue == s.queue;
    case Add(p) => assert Apply(s, op).queue[i] == s.queue[i];
    case WakeFor(child) => assert Apply(s, op).queue[i] == s.queue[i].WokenFor(child);
    case SignalGroup(pgid, signal) => assert Apply(s, op).queue[i] == Signalled(s.queue[i], pgid, signal);
    case _ =>
  }

  /** Over any run a stopped process stays stopped, SIGCONT or not: only the running process has signals delivered. */
  lemma {:induction false} StoppedStays(s: Sched, ops: seq<Op>, pid: nat)
    requires Inv(s) && Runs(s, ops) && IsStoppedIn(s, pid)
    ensures IsStoppedIn(After(s, ops), pid)
    decreases |ops|
  {
    if ops != [] {
      StepKeepsInv(s, ops[0]);
      StepKeepsStopped(s, ops[0], pid);
      StoppedStays(Apply(s, ops[0]), ops[1..], pid);
    }
  }

  ghost predicate Reaches(s: Sched, ops: seq<Op>, t: Sched) {
    Runs(s, ops) && After(s, ops) == t
  }

  lemma ReachesFirst(s: Sched, op: Op, s1: Sched, ops: seq<Op>, t: Sched)
    requires Allowed(s, op) && Apply(s, op) == s1 && Reaches(s1, ops, t)
    ensures Reaches(s, [op] + ops, t)
  {
    hide Apply, Allowed;
    assert ([op] + ops)[1..] == ops;
  }

  lemma PickFirst(q: seq<Process>, i: nat)
    requires i < |q| && q[i].IsRunnable() && forall j :: 0 <= j < i ==> !q[j].IsRunnable()
    ensures Picked(q) == Sched(q[i + 1..] + q[..i], Some(q[i].(state := Running)))
  {
  }

  lemma ReachesNothing(s: Sched)
    ensures Reaches(s, [], s)
  {
  }

  /** Two ready processes with nothing pending and different numbers and groups. */
  ghost predicate Fresh(p: Process, q: Process) {
    && p.state.Ready? && q.state.Ready? && p.pending == q.pending == {} && p.pid != q.pid && p.pgid != q.pgid
    && p.waitState.NotWaiting? && q.waitState.NotWaiting?
  }

  /** The first process runs and is sent SIGTSTP; the second one is added. */
  lemma FirstSteps(p: Process, q: Process)
    requires Fresh(p, q)
    ensures var runs, asked := p.(state := Running), p.(state := Running, pending := {SIGTSTP});
            && Apply(Sched([], None), Add(p)) == Sched([p], None)
            && Apply(Sched([p], None), Schedule) == Sched([], Some(runs))
            && Apply(Sched([], Some(runs)), SignalGroup(p.pgid, SIGTSTP)) == Sched([], Some(asked))
            && Apply(Sched([], Some(asked)), Add(q)) == Sched([q], Some(asked))
  {
    hide Picked;
    PickFirst([p], 0);
    assert SignalAll([], p.pgid, SIGTSTP) == [];
    assert {} + {SIGTSTP} == {SIGTSTP};
  }

  /** The first process stops when it leaves the processor, and SIGCONT stays pending. */
  lemma LaterSteps(p: Process, q: Process)
    requires Fresh(p, q)
    ensures var asked, stopped := p.(state := Running, pending := {SIGTSTP}), p.(state := Stopped);
            var waits, runs := p.(state := Stopped, pending := {SIGCONT}), q.(state := Running);
            && Apply(Sched([q], Some(asked)), Schedule) == Sched([stopped], Some(runs))
            && Apply(Sched([stopped], Some(runs)), SignalGroup(p.pgid, SIGCONT)) == Sched([waits], Some(runs))
            && Apply(Sched([waits], Some(runs)), Schedule) == Sched([waits], Some(runs))
  {
    hide Picked;
    var stopped, waits := p.(state := Stopped), p.(state := Stopped, pending := {SIGCONT});
    assert {SIGTSTP} - {SIGTSTP} == {};
    assert WakeAll([q] + [stopped], p.pid) == [q, stopped];
    PickFirst([q, stopped], 0);
    assert {} + {SIGCONT} == {SIGCONT};
    assert SignalAll([stopped], p.pgid, SIGCONT) == [waits];
    PickFirst([waits] + [q], 1);
  }

  /** From an empty scheduler: a process is stopped, then sent SIGCONT, and is still stopped with the signal pending. */
  lemma StoppedStaysExample()
    ensures var p, q := Process(1, 1, None, Ready, NotWaiting, {}), Process(2, 2, None, Ready, NotWaiting, {});
            var stop, go := SignalGroup(1, SIGTSTP), SignalGroup(1, SIGCONT);
            Reaches(Sched([], None), [Add(p), Schedule, stop, Add(q), Schedule, go, Schedule],
                    Sched([p.(state := Stopped, pending := {SIGCONT})], Some(q.(state := Running))))
  {
    hide Reaches, Apply;
    var p, q := Process(1, 1, None, Ready, NotWaiting, {}), Process(2, 2, None, Ready, NotWaiting, {});
    FirstSteps(p, q);
    LaterSteps(p, q);
    var asked, runs := p.(state := Running, pending := {SIGTSTP}), Some(q.(state := Running));
    var last := Sched([p.(state := Stopped, pending := {SIGCONT})], runs);
    ReachesNothing(last);
    ReachesFirst(last, Schedule, last, [], last);
    var late := [SignalGroup(1, SIGCONT)] + ([Schedule] + []);
    ReachesFirst(Sched([p.(state := Stopped)], runs), SignalGroup(1, SIGCONT), last, [Schedule] + [], last);
    ReachesFirst(Sched([q], Some(asked)), Schedule, Sched([p.(state := Stopped)], runs), late, last);
    ReachesFirst(Sched([], Some(asked)), Add(q), Sched([q], Some(asked)), [Schedule] + late, last);
    var more := [Add(q)] + ([Schedule] + late);
    ReachesFirst(Sched([], Some(p.(state := Running))), SignalGroup(1, SIGTSTP), Sched([], Some(asked)), more, last);
    var all := [SignalGroup(1, SIGTSTP)] + more;
    ReachesFirst(Sched([p], None), Schedule, Sched([], Some(p.(state := Running))), all, last);
    ReachesFirst(Sched([], None), Add(p), Sched([p], None), [Schedule] + all, last);
    assert [Add(p)] + ([Schedule] + all)
           == [Add(p), Schedule, SignalGroup(1, SIGTSTP), Add(q), Schedule, SignalGroup(1, SIGCONT), Schedule];
  }
}
