/** The hand-off of PAM messages from the authentication thread to the main loop.

    The worker puts a request record on its own stack, queues an idle callback and waits on a
    condition variable; the callback fills in the record and signals. Each thread is a program
    counter, each action is one atomic step of one thread, and a run is any interleaving. */
module Handoff {
  import opened Options

  datatype Thread = Worker | Gui

  /** gs_auth_run_message_handler, by the statement that is next. */
  datatype WorkerPc =
    | Idle        // not called
    | Lock        // g_mutex_lock
    | Queue       // g_idle_add
    | Wait        // g_cond_wait, entering
    | Waiting     // in g_cond_wait, not woken
    | Woken       // in g_cond_wait, woken, needs the mutex
    | Unlock      // g_mutex_unlock
    | Return      // read the verdict and pop the frame

  /** gs_auth_queued_message_handler, by the statement that is next; r is its argument. */
  datatype GuiPc =
    | MainLoop
    | GuiLock(r: nat)
    | Call(r: nat)
    | Write(r: nat, verdict: bool)
    | Signal(r: nat)
    | GuiUnlock(r: nat)

  datatype State = State(
    worker: WorkerPc,
    gui: GuiPc,
    mutex: Option<Thread>,
    queue: seq<nat>,              // idle callbacks, by record
    records: map<nat, bool>,      // live stack records: should_interrupt_stack
    next: nat,                    // requests made so far
    handled: seq<(nat, bool)>,    // callbacks that ran, with what they answered
    returned: seq<bool>,          // what the worker was told, request by request
    wild: bool)                   // a record was used after its frame was popped

  datatype Action = WorkerStep | GuiStep(verdict: bool) | Spurious

  const INITIAL: State := State(Idle, MainLoop, None, [], map[], 0, [], [], false)

  function StepWorker(s: State): State {
    var r := s.next - 1;
    match s.worker
    case Idle => s.(worker := Lock, records := s.records[s.next := true], next := s.next + 1)
    case Lock => if s.mutex.None? then s.(worker := Queue, mutex := Some(Worker)) else s
    case Queue => if r >= 0 then s.(worker := Wait, queue := s.queue + [r]) else s
    case Wait => s.(worker := Waiting, mutex := None)
    case Waiting => s
    case Woken => if s.mutex.None? then s.(worker := Unlock, mutex := Some(Worker)) else s
    case Unlock => s.(worker := Return, mutex := None)
    case Return =>
      if r in s.records then
        s.(worker := Idle, returned := s.returned + [!s.records[r]], records := s.records - {r})
      else s
  }

  /** The callback decides; a record that is gone makes the access wild. */
  function StepGui(s: State, verdict: bool): State {
    match s.gui
    case MainLoop =>
      if s.queue == [] then s else s.(gui := GuiLock(s.queue[0]), queue := s.queue[1..])
    case GuiLock(r) => if s.mutex.None? then s.(gui := Call(r), mutex := Some(Gui)) else s
    case Call(r) =>
      s.(gui := Write(r, verdict), handled := s.handled + [(r, verdict)], wild := s.wild || r !in s.records)
    case Write(r, v) =>
      if r in s.records then s.(gui := Signal(r), records := s.records[r := !v])
      else s.(gui := Signal(r), wild := true)
    case Signal(r) => s.(gui := GuiUnlock(r), worker := if s.worker.Waiting? then Woken else s.worker)
    case GuiUnlock(r) => s.(gui := MainLoop, mutex := None)
  }

  function Step(s: State, a: Action): State {
    match a
    case WorkerStep => StepWorker(s)
    case GuiStep(verdict) => StepGui(s, verdict)
    case Spurious => if s.worker.Waiting? then s.(worker := Woken) else s
  }

  function Run(s: State, acts: seq<Action>): State
    decreases acts
  {
    if acts == [] then s else Run(Step(s, acts[0]), acts[1..])
  }

  /** No thread is woken but by a signal. */
  predicate NoSpurious(acts: seq<Action>) {
    forall a :: a in acts ==> !a.Spurious?
  }

  /** The worker could be woken without a signal and take the mutex: the callback does not have it. */
  predicate Exposed(s: State) {
    s.worker.Waiting? && s.mutex != Some(Gui)
  }

  /** Along the run the condition variable never wakes an exposed worker without a signal. */
  predicate Harmless(s: State, acts: seq<Action>)
    decreases acts
  {
    acts != [] ==> !(acts[0].Spurious? && Exposed(s)) && Harmless(Step(s, acts[0]), acts[1..])
  }

  // ---------------------------------------------------------------- invariant

  /** The current request has not reached the main loop, is with it, or is done with. */
  predicate Pending(s: State, r: nat) {
    (s.queue == [r] && s.gui == MainLoop) || (s.queue == [] && s.gui == GuiLock(r))
  }

  predicate InHandler(s: State, r: nat) {
    s.queue == [] && (s.gui == Call(r) || (s.gui.Write? && s.gui.r == r))
  }

  predicate Quiet(s: State) {
    s.queue == [] && s.gui == MainLoop
  }

  predicate HoldsMutex(s: State, t: Thread) {
    match t
    case Worker => s.worker.Queue? || s.worker.Wait? || s.worker.Unlock?
    case Gui => s.gui.Call? || s.gui.Write? || s.gui.Signal? || s.gui.GuiUnlock?
  }

  /** The callback for the current request has run. */
  predicate Answered(s: State) {
    || s.gui.Write? || s.gui.Signal? || s.gui.GuiUnlock?
    || (s.worker.Woken? && !s.gui.Call?) || s.worker.Unlock? || s.worker.Return?
  }

  /** Its answer is in the record. */
  predicate Written(s: State) {
    Answered(s) && !s.gui.Write?
  }

  predicate Inv(s: State) {
    var r: int := s.next - 1;
    && !s.wild
    && (s.mutex == Some(Worker) <==> HoldsMutex(s, Worker))
    && (s.mutex == Some(Gui) <==> HoldsMutex(s, Gui))
    && (s.worker.Idle? ==> Quiet(s) && s.records == map[])
    && (!s.worker.Idle? ==> r >= 0 && s.records.Keys == {r})
    && (match s.worker
        case Idle => true
        case Lock => Quiet(s)
        case Queue => Quiet(s)
        case Wait => Pending(s, r)
        case Waiting => Pending(s, r) || InHandler(s, r) || (s.queue == [] && s.gui == Signal(r))
        case Woken => Quiet(s) || InHandler(s, r) || (s.queue == [] && (s.gui == Signal(r) || s.gui == GuiUnlock(r)))
        case Unlock => Quiet(s)
        case Return => Quiet(s))
    && |s.returned| == (if s.worker.Idle? then s.next else r)
    && |s.handled| == |s.returned| + (if Answered(s) then 1 else 0)
    && (forall i :: 0 <= i < |s.handled| ==> s.handled[i].0 == i)
    && (forall i :: 0 <= i < |s.returned| ==> s.handled[i].1 == s.returned[i])
    && (s.gui.Write? ==> s.handled[r].1 == s.gui.verdict)
    && (!s.worker.Idle? ==> s.records[r] == if Written(s) then !s.handled[r].1 else true)
  }

  lemma WorkerKeepsInv(s: State)
    requires Inv(s)
    ensures Inv(StepWorker(s))
  {
    if s.worker.Queue? {
      assert s.queue + [s.next - 1] == [s.next - 1];
    }
  }

  lemma GuiKeepsInv(s: State, verdict: bool)
    requires Inv(s)
    ensures Inv(StepGui(s, verdict))
  {
  }

  /** A worker that wakes while the callback has the mutex still waits for the mutex. */
  lemma SpuriousKeepsInv(s: State)
    requires Inv(s) && !Exposed(s)
    ensures Inv(Step(s, Spurious))
  {
  }

  lemma {:induction false} RunKeepsInv(s: State, acts: seq<Action>)
    requires Inv(s) && Harmless(s, acts)
    ensures Inv(Run(s, acts))
    decreases acts
  {
    if acts != [] {
      match acts[0] {
        case WorkerStep => WorkerKeepsInv(s);
        case GuiStep(verdict) => GuiKeepsInv(s, verdict);
        case Spurious => SpuriousKeepsInv(s);
      }
      RunKeepsInv(Step(s, acts[0]), acts[1..]);
    }
  }

  // ---------------------------------------------------------------- theorems

  /** HAND-OFF. In every interleaving whose spurious wakeups, if any, are harmless: at most one
      request is outstanding; every request that returned was handled exactly once, in order, and
      returned what its handler answered; the main loop never used a record whose frame was gone,
      and holds no record at all while no request is outstanding. */
  lemma EveryRequestOnce(acts: seq<Action>)
    requires Harmless(INITIAL, acts)
    ensures var s := Run(INITIAL, acts);
            && !s.wild && |s.records| <= 1 && |s.queue| <= 1
            && |s.returned| <= |s.handled| <= |s.returned| + 1
            && |s.returned| <= s.next <= |s.returned| + 1
            && (forall i :: 0 <= i < |s.handled| ==> s.handled[i].0 == i)
            && (forall i :: 0 <= i < |s.returned| ==> s.returned[i] == s.handled[i].1)
            && (s.worker.Idle? ==> s.gui.MainLoop? && s.queue == [] && |s.handled| == s.next)
  {
    RunKeepsInv(INITIAL, acts);
    var s := Run(INITIAL, acts);
    if !s.worker.Idle? {
      var r: nat := s.next - 1;
      assert s.records == map[r := s.records[r]];
    }
  }

  /** No wakeup is lost: when the callback signals, the worker is waiting for it or has been woken
      already and waits for the mutex. */
  lemma SignalFindsWaiter(s: State)
    requires Inv(s) && s.gui.Signal?
    ensures (s.worker.Waiting? || s.worker.Woken?) && StepGui(s, true).worker.Woken?
  {
  }

  lemma MutexIsOwned(s: State)
    requires Inv(s)
    ensures s.mutex.None? || HoldsMutex(s, Worker) || HoldsMutex(s, Gui)
  {
    if s.mutex.Some? {
      assert s.mutex == Some(s.mutex.value) && (s.mutex.value.Worker? || s.mutex.value.Gui?);
    }
  }

  const MAX_STEPS: nat := 13

  /** How many steps of either thread the current request still needs. */
  function Distance(s: State): nat {
    var gui := match s.gui
      case MainLoop => if s.queue == [] then 0 else 6
      case GuiLock(_) => 5
      case Call(_) => 4
      case Write(_, _) => 3
      case Signal(_) => 2
      case GuiUnlock(_) => 1;
    match s.worker
    case Idle => 0
    case Lock => 13
    case Queue => 12
    case Wait => 5 + gui
    case Waiting => 3 + gui
    case Woken => 3 + gui
    case Unlock => 2
    case Return => 1
  }

  /** A step counts if it is not one of a thread that has to wait. */
  predicate Enabled(s: State, a: Action) {
    Step(s, a) != s
  }

  /** No deadlock, and no livelock: while a request is outstanding some thread can step, and every
      such step brings the return nearer, so a request takes at most a fixed number of steps. */
  lemma RequestProgresses(s: State, verdict: bool)
    requires Inv(s) && !s.worker.Idle?
    ensures Enabled(s, WorkerStep) || Enabled(s, GuiStep(verdict))
    ensures Enabled(s, WorkerStep) ==> Distance(StepWorker(s)) < Distance(s)
    ensures Enabled(s, GuiStep(verdict)) ==> Distance(StepGui(s, verdict)) < Distance(s)
    ensures Distance(s) <= MAX_STEPS
  {
    MutexIsOwned(s);
    if s.worker.Waiting? || (s.worker.Woken? && !s.gui.MainLoop?) {
      assert StepGui(s, verdict).gui != s.gui;
    } else {
      assert StepWorker(s).worker != s.worker;
    }
  }

  // ---------------------------------------------------------------- spurious wakeups

  lemma {:induction false} RunAppend(s: State, acts: seq<Action>, a: Action)
    ensures Run(s, acts + [a]) == Step(Run(s, acts), a)
    decreases acts
  {
    if acts == [] {
      assert acts + [a] == [a] && [a][1..] == [];
    } else {
      assert (acts + [a])[1..] == acts[1..] + [a];
      RunAppend(Step(s, acts[0]), acts[1..], a);
    }
  }

  lemma {:induction false} QuietRunIsHarmless(s: State, acts: seq<Action>)
    requires NoSpurious(acts)
    ensures Harmless(s, acts)
    decreases acts
  {
    if acts != [] {
      assert acts[0] in acts;
      QuietRunIsHarmless(Step(s, acts[0]), acts[1..]);
    }
  }

  /** One spurious wakeup of an exposed worker lets it return, with a verdict nobody gave, and pop
      its record before the callback uses it. */
  lemma SpuriousWakeupIsWild(s: State) returns (acts: seq<Action>)
    requires Inv(s) && Exposed(s)
    ensures NoSpurious(acts) && Run(Step(s, Spurious), acts).wild
    ensures Run(Step(s, Spurious), acts).returned == s.returned + [false]
  {
    var r: nat := s.next - 1;
    MutexIsOwned(s);
    var s0 := Step(s, Spurious);
    var worker := [WorkerStep] + [WorkerStep] + [WorkerStep];
    RunAppend(s0, [], WorkerStep);
    RunAppend(s0, [WorkerStep], WorkerStep);
    RunAppend(s0, [WorkerStep] + [WorkerStep], WorkerStep);
    var s1 := Run(s0, worker);
    assert [] + [WorkerStep] == [WorkerStep];
    assert s1 == s0.(worker := Idle, mutex := None, returned := s.returned + [false], records := s.records - {r});
    var go := GuiStep(true);
    RunAppend(s0, worker, go);
    RunAppend(s0, worker + [go], go);
    RunAppend(s0, worker + [go] + [go], go);
    acts := worker + [go] + [go] + [go];
  }

  /** EXACT CONDITION. A spurious wakeup can lead to the use of a popped record if and only if it
      hits a worker that waits while the callback does not have the mutex. */
  lemma WildIffExposed(s: State)
    requires Inv(s)
    ensures Exposed(s) <==> exists acts :: NoSpurious(acts) && Run(Step(s, Spurious), acts).wild
  {
    if Exposed(s) {
      var acts := SpuriousWakeupIsWild(s);
      assert NoSpurious(acts) && Run(Step(s, Spurious), acts).wild;
    } else {
      SpuriousKeepsInv(s);
      forall acts | NoSpurious(acts) ensures !Run(Step(s, Spurious), acts).wild {
        QuietRunIsHarmless(Step(s, Spurious), acts);
        RunKeepsInv(Step(s, Spurious), acts);
      }
    }
  }
}
