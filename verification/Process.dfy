/** Processes as the scheduler sees them: run state, wait state and pending signals. */
module Processes {
  import opened Wrappers

  datatype Signal = SIGINT | SIGCONT | SIGTSTP

  datatype SignalAction = NoAction | Terminate | Stop | Continue

  datatype WaitState = NotWaiting | WaitingForAnyChild | WaitingForChild(child: nat)

  datatype ProcessState = Ready | Running | Stopped | Exited(code: int) | Zombie(code: int)

  datatype Process = Process(
    pid: nat,
    pgid: nat,
    parentPid: Option<nat>,
    state: ProcessState,
    waitState: WaitState,
    pending: set<Signal>)
  {
    predicate IsExited() {
      state.Exited? || state.Zombie?
    }

    predicate IsZombie() {
      state.Zombie?
    }

    predicate IsStopped() {
      state.Stopped?
    }

    predicate IsBlocked() {
      !waitState.NotWaiting?
    }

    /** Neither blocked nor stopped: `schedule_next` may pick it. */
    predicate IsRunnable() {
      !IsBlocked() && !IsStopped()
    }

    function Wake(): Process {
      this.(waitState := NotWaiting)
    }

    function Resume(): Process {
      if IsStopped() then this.(state := Ready) else this
    }

    function SendSignal(signal: Signal): Process {
      this.(pending := pending + {signal})
    }

    predicate ShouldWakeOnChildExit(child: nat) {
      match waitState
      case WaitingForAnyChild => true
      case WaitingForChild(pid) => pid == child
      case NotWaiting => false
    }

    function WokenFor(child: nat): Process {
      if ShouldWakeOnChildExit(child) then Wake() else this
    }

    /** At most one pending signal is taken per call: SIGCONT before SIGTSTP before SIGINT. */
    function DeliverSignals(): (Process, SignalAction) {
      if SIGCONT in pending then (this.(pending := pending - {SIGCONT}).Resume(), Continue)
      else if SIGTSTP in pending then (this.(pending := pending - {SIGTSTP}), Stop)
      else if SIGINT in pending then (this.(pending := pending - {SIGINT}), Terminate)
      else (this, NoAction)
    }
  }
}
