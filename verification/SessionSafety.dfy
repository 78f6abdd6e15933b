/** What the screen lock is for: theorems about whole runs. */
module SessionSafety {
  import opened Session
  import opened SessionInvariant
  import opened SessionSteps
  import opened Options
  import opened Wire
  import Dialog

  predicate Locked(s: State) {
    s.manager.active && s.manager.lockActive
  }

  // ---------------------------------------------------------------- every run

  /** A dialog of this window is about to start or alive. */
  predicate HasDialog(w: WindowState) {
    w.popupQueued || w.child
  }

  /** AGREEMENT. After every event of every run the objects agree with each other, every monitor
      has its window, and at most one dialog exists; only its window takes events. */
  lemma EveryRun(prefs: Prefs, monitors: nat, now: nat, es: seq<Event>)
    requires prefs.lockTimeout < UINT_RANGE && monitors > 0
    ensures var s := Run(Initial(prefs, monitors, now), es);
            var m, ws := s.manager, s.manager.windows;
            && Inv(s)
            && s.listener.active == m.active == !s.watcher.active
            && (s.listener.active ==> s.listener.sessionIdle)
            && (m.lockActive ==> m.active)
            && m.lockEnabled == (s.prefs.lockEnabled && !s.prefs.lockDisabled)
            && |ws| == (if m.active then s.monitors else 0)
            && (forall i :: 0 <= i < |ws| ==> ws[i].monitor == i && ws[i].lockEnabled == m.lockActive)
            && (forall i, j :: 0 <= i < j < |ws| ==> !(HasDialog(ws[i]) && HasDialog(ws[j])))
            && (m.dialogUp <==> exists i :: 0 <= i < |ws| && HasDialog(ws[i]))
            && (forall i :: 0 <= i < |ws| ==> ws[i].sensitive == (!m.dialogUp || HasDialog(ws[i])))
  {
    InitialInv(prefs, monitors, now);
    RunKeepsInv(Initial(prefs, monitors, now), es);
    var m := Run(Initial(prefs, monitors, now), es).manager;
    DialogUpIsDialog(m);
  }

  lemma DialogUpIsDialog(m: ManagerState)
    requires DialogsMatch(m)
    ensures forall i :: 0 <= i < |m.windows| ==> m.windows[i].dialogUp == HasDialog(m.windows[i])
    ensures m.dialogUp <==> exists i :: 0 <= i < |m.windows| && HasDialog(m.windows[i])
    ensures forall i, j :: 0 <= i < j < |m.windows| ==> !(HasDialog(m.windows[i]) && HasDialog(m.windows[j]))
  {
    forall i | 0 <= i < |m.windows| ensures m.windows[i].dialogUp == HasDialog(m.windows[i]) {
    }
  }

  // ---------------------------------------------------------------- what ends a lock

  predicate SaysOk(e: Event) {
    e.ReadLine? && Interpret(e.line) == Some(ResponseOk)
  }

  /** The three requests that deactivate whatever is on the screen. */
  predicate Dismisses(e: Event) {
    (e.SetActiveCall? && !e.on) || e.SessionUnlock? || e.QuitCall?
  }

  predicate StaysLocked(s: State, r: State) {
    Locked(r) && (NoneQueued(s.manager) ==> NoneQueued(r.manager))
  }

  lemma LockKeepsLocked(s: State, grab: bool)
    requires Inv(s) && Locked(s)
    ensures LockScreen(s, grab) == s && SetActive(s, true, grab).0 == s
  {
  }

  lemma RequestKeepsLocked(s: State, p: int)
    requires Inv(s) && Locked(s)
    ensures StaysLocked(s, RequestUnlock(s, p))
  {
    RequestUnlockKeeps(s, p);
  }

  lemma PrefKeepsLocked(s: State, key: PrefKey)
    requires Inv(s) && Locked(s)
    ensures StaysLocked(s, Step(s, PrefChanged(key)))
  {
    PrefForm(s, key);
    SetLockTimeoutKeeps(PrefNoted(s, key), PrefNoted(s, key).prefs.lockTimeout);
  }

  lemma AnswerKeepsLocked(s: State, i: nat, said: Option<Message>)
    requires Inv(s) && Locked(s) && i < |s.manager.windows|
    ensures Locked(Answer(s, i, said))
    ensures said != Some(ResponseOk) && NoneQueued(s.manager) ==> NoneQueued(Answer(s, i, said).manager)
  {
    if said == Some(ResponseOk) || said == Some(ResponseCancel) {
      FinishDialogKeeps(s, i, said == Some(ResponseOk));
    }
  }

  lemma EndOfFileKeepsLocked(s: State, i: nat)
    requires Inv(s) && Locked(s) && i < |s.manager.windows|
    ensures StaysLocked(s, FinishDialog(s, i))
  {
    EndOfFileAnswer(s, i);
    FinishDialogKeeps(s, i, s.manager.windows[i].responseOk);
  }

  lemma DeactivatedIdleEnds(s: State)
    requires Inv(s) && Locked(s)
    ensures Locked(Step(s, DeactivatedIdle)) <==> s.manager.deactivations == 0
    ensures s.manager.deactivations == 0 ==> Step(s, DeactivatedIdle) == s
  {
    if s.manager.deactivations > 0 {
      DeactivatedIdleKeeps(s);
    }
  }

  lemma DismissEnds(s: State)
    requires Inv(s) && Locked(s)
    ensures !Locked(SetActive(s, false, true).0)
  {
    DeactivateSteps(s, true);
  }

  lemma SourcesKeepLocked(s: State, e: Event)
    requires Inv(s) && Locked(s)
    requires e.Tick? || e.LockTimer? || e.PopupIdle? || e.PlugRemoved? || e.EmitDeactivated?
    ensures StaysLocked(s, Step(s, e))
  {
  }

  lemma RequestsKeepLocked(s: State, e: Event)
    requires Inv(s) && Locked(s)
    requires e.LockCall? || e.PrepareForSleep? || e.SimulateUserActivity? || e.ShowMessage? || e.Input?
          || e.Presence? || e.IdleTimer? || (e.SetActiveCall? && e.on)
    ensures StaysLocked(s, Step(s, e))
  {
    match e
    case SetActiveCall(_, grab) => LockKeepsLocked(s, grab);
    case LockCall(grab) => LockKeepsLocked(s, grab);
    case PrepareForSleep(grab) => LockKeepsLocked(s, grab);
    case SimulateUserActivity(p) => RequestKeepsLocked(s, p);
    case ShowMessage(p) => RequestKeepsLocked(s, p);
    case Input(_, p) => RequestKeepsLocked(s, p);
    case Presence(status) => IdleWhileActive(s, status, true);
    case IdleTimer(grab) => IdleWhileActive(s, 0, grab);
  }

  /** One dispatch ends a lock exactly when it is a dismissal, or carries out a deactivation that
      was queued before; and only an OK from a dialog queues one. */
  lemma WhatEndsALock(s: State, e: Event)
    requires Inv(s) && Locked(s)
    ensures !Locked(Step(s, e)) <==> Dismisses(e) || (e.DeactivatedIdle? && s.manager.deactivations > 0)
    ensures NoneQueued(s.manager) && !SaysOk(e) && !Dismisses(e) ==> NoneQueued(Step(s, e).manager)
  {
    if Dismisses(e) {
      DismissEnds(s);
      if e.SetActiveCall? { DeactivateSteps(s, e.grab); }
    } else if e.PrefChanged? {
      PrefKeepsLocked(s, e.key);
    } else if e.Monitors? {
      if e.n > 0 { MonitorsChangedKeeps(s, e.n, e.pointer); }
    } else if e.ReadLine? {
      if e.window < |s.manager.windows| { AnswerKeepsLocked(s, e.window, Interpret(e.line)); }
    } else if e.EndOfFile? {
      if e.window < |s.manager.windows| { EndOfFileKeepsLocked(s, e.window); }
    } else if e.DeactivatedIdle? {
      DeactivatedIdleEnds(s);
    } else if e.Tick? || e.LockTimer? || e.PopupIdle? || e.PlugRemoved? || e.EmitDeactivated? {
      SourcesKeepLocked(s, e);
    } else {
      RequestsKeepLocked(s, e);
    }
  }

  // ---------------------------------------------------------------- lock safety over whole runs

  /** Any events but a dismissal and a dialog line that says OK. */
  predicate Protected(es: seq<Event>) {
    forall e :: e in es ==> !SaysOk(e) && !Dismisses(e)
  }

  ghost predicate LockedThroughout(s: State) {
    forall es :: Protected(es) ==> Locked(Run(s, es))
  }

  lemma {:induction false} LockHolds(s: State, es: seq<Event>)
    requires Inv(s) && Locked(s) && NoneQueued(s.manager) && Protected(es)
    ensures Locked(Run(s, es)) && NoneQueued(Run(s, es).manager)
    decreases es
  {
    if es != [] {
      assert es[0] in es;
      WhatEndsALock(s, es[0]);
      StepKeepsInv(s, es[0]);
      LockHolds(Step(s, es[0]), es[1..]);
    }
  }

  lemma QueuedWindowEnds(s: State, i: nat)
    requires Inv(s) && Locked(s) && i < |s.manager.windows| && s.manager.windows[i].deactivations > 0
    ensures !Locked(Run(s, [EmitDeactivated(i), DeactivatedIdle]))
  {
    var s1 := Step(s, EmitDeactivated(i));
    StepKeepsInv(s, EmitDeactivated(i));
    DeactivatedIdleEnds(s1);
    var es := [EmitDeactivated(i), DeactivatedIdle];
    assert es[1..] == [DeactivatedIdle] && es[1..][1..] == [];
    assert Run(s, es) == Run(s1, [DeactivatedIdle]) == Step(s1, DeactivatedIdle);
  }

  /** LOCK SAFETY. From a locked state every run without a dismissal and without an OK from a
      dialog stays locked, if and only if no deactivation was queued when the run began. */
  lemma LockSafety(s: State)
    requires Inv(s) && Locked(s)
    ensures LockedThroughout(s) <==> NoneQueued(s.manager)
  {
    if NoneQueued(s.manager) {
      forall es | Protected(es) ensures Locked(Run(s, es)) {
        LockHolds(s, es);
      }
    } else if s.manager.deactivations > 0 {
      DeactivatedIdleEnds(s);
      var es := [DeactivatedIdle];
      assert es[1..] == [] && Run(s, es) == Run(Step(s, DeactivatedIdle), []);
      assert Protected(es) && !Locked(Run(s, es));
    } else {
      var i :| 0 <= i < |s.manager.windows| && s.manager.windows[i].deactivations != 0;
      QueuedWindowEnds(s, i);
      assert Protected([EmitDeactivated(i), DeactivatedIdle]);
    }
  }

  // ---------------------------------------------------------------- dialogs and passwords

  lemma {:induction false} DecodeAt(lines: seq<string>, k: nat)
    requires k < |lines|
    ensures |Decode(lines)| == |lines| && Decode(lines)[k] == Interpret(lines[k])
  {
    if |lines| > 1 {
      DecodeAt(lines[1..], if k > 0 then k - 1 else 0);
    }
  }

  lemma {:induction false} SomesAt(ms: seq<Message>, k: nat)
    requires k < |ms|
    ensures |Somes(ms)| == |ms| && Somes(ms)[k] == Some(ms[k])
  {
    if |ms| > 1 {
      SomesAt(ms[1..], if k > 0 then k - 1 else 0);
    }
  }

  /** The lines a window reads of a dialog: those up to the first response. */
  function DialogLines(lockable: bool, actions: seq<Dialog.Action>, id: nat): seq<string> {
    ReadLines(Lines(Text(Dialog.Transcript(lockable, actions, id))))
  }

  /** After a response nothing more is read from the dialog, whatever it goes on to print. */
  lemma NothingIsReadAfterwards(s: State, i: nat, line: string, more: string)
    requires Inv(s) && i < |s.manager.windows| && s.manager.windows[i].watched && IsResponse(Interpret(line))
    ensures var r := Step(s, ReadLine(i, line));
            i < |r.manager.windows| && !r.manager.windows[i].child && Step(r, ReadLine(i, more)) == r
  {
    var said := Interpret(line);
    FinishDialogKeeps(s, i, said == Some(ResponseOk));
    assert Step(s, ReadLine(i, line)) == Answer(s, i, said);
  }

  predicate PassesInTime(actions: seq<Dialog.Action>) {
    Dialog.PassesWithin(actions, 5)
  }

  /** The window reads an OK from a dialog exactly when locking is impossible there or the user
      passes one of the first five attempts: the bytes in between neither hide nor invent one. */
  lemma PasswordDecides(lockable: bool, actions: seq<Dialog.Action>, id: nat)
    requires id <= UINT32_MAX
    ensures (exists l :: l in DialogLines(lockable, actions, id) && Interpret(l) == Some(ResponseOk))
       <==> !lockable || PassesInTime(actions)
  {
    var ms, lines := Heard(Dialog.Transcript(lockable, actions, id)), DialogLines(lockable, actions, id);
    Dialog.WindowReadsTranscript(lockable, actions, id);
    Dialog.SaysOk(lockable, actions, id);
    ReadLinesSayHeard(Lines(Text(Dialog.Transcript(lockable, actions, id))), Dialog.Transcript(lockable, actions, id));
    assert Decode(lines) == Somes(ms);
    LengthOfDecode(lines);
    LengthOfSomes(ms);
    forall k | 0 <= k < |lines| ensures Interpret(lines[k]) == Some(ms[k]) {
      DecodeAt(lines, k);
      SomesAt(ms, k);
    }
    if ResponseOk in ms {
      var k :| 0 <= k < |ms| && ms[k] == ResponseOk;
      assert lines[k] in lines;
    }
  }

  lemma LengthOfDecode(lines: seq<string>)
    ensures |Decode(lines)| == |lines|
  {
    if lines != [] { DecodeAt(lines, 0); }
  }

  lemma LengthOfSomes(ms: seq<Message>)
    ensures |Somes(ms)| == |ms|
  {
    if ms != [] { SomesAt(ms, 0); }
  }

  /** The line comes from a dialog in which nobody has passed in time. */
  ghost predicate FromFailedDialog(line: string) {
    exists actions, id: nat ::
      id <= UINT32_MAX && !PassesInTime(actions) && line in DialogLines(true, actions, id)
  }

  /** Failed passwords never unlock: whatever else happens, in whatever order, and whatever any
      number of dialogs prints, the screen stays locked as long as nobody passes a dialog and
      nobody dismisses the screen. */
  lemma FailedPasswordsKeepTheLock(s: State, es: seq<Event>)
    requires Inv(s) && Locked(s) && NoneQueued(s.manager)
    requires forall e :: e in es ==> !Dismisses(e) && (e.ReadLine? ==> FromFailedDialog(e.line))
    ensures Locked(Run(s, es))
  {
    forall e | e in es ensures !SaysOk(e) {
      if e.ReadLine? {
        var actions, id: nat :|
          id <= UINT32_MAX && !PassesInTime(actions) && e.line in DialogLines(true, actions, id);
        PasswordDecides(true, actions, id);
      }
    }
    LockHolds(s, es);
  }

  // ---------------------------------------------------------------- locking and unlocking undo each other

  lemma StoppedForgetsDialogs(s: State, r: State)
    requires OnlyDialogs(s, r)
    ensures Stopped(r) == Stopped(s)
  {
  }

  /** A deactivation that a window has queued takes two callbacks to the monitor. */
  lemma DeactivationArrives(s: State, i: nat)
    requires Inv(s) && s.manager.active && s.manager.deactivations == 0
    requires i < |s.manager.windows| && s.manager.windows[i].deactivations > 0
    ensures Step(Step(s, EmitDeactivated(i)), DeactivatedIdle) == Stopped(s)
  {
    var s1 := Step(s, EmitDeactivated(i));
    StepKeepsInv(s, EmitDeactivated(i));
    StopForgetsWindows(s1.(manager := s1.manager.(deactivations := 0)));
  }

  /** An OK read from the dialog of a locked screen, and the two callbacks it queues, bring the
      screen down completely. */
  lemma OkUnlocks(s: State, i: nat, line: string)
    requires Inv(s) && Locked(s) && NoneQueued(s.manager)
    requires i < |s.manager.windows| && s.manager.windows[i].watched && Interpret(line) == Some(ResponseOk)
    ensures Step(Step(Step(s, ReadLine(i, line)), EmitDeactivated(i)), DeactivatedIdle) == Stopped(s)
  {
    FinishDialogKeeps(s, i, true);
    var s1 := Step(s, ReadLine(i, line));
    assert s1 == Answer(s, i, Some(ResponseOk));
    StepKeepsInv(s, ReadLine(i, line));
    DeactivationArrives(s1, i);
    StoppedForgetsDialogs(s, s1);
  }

  /** A dialog can always be had on a locked screen: activity, then the queued popup. */
  lemma ActivityOpensDialog(s: State, p: int)
    requires Inv(s) && Locked(s) && !s.manager.dialogUp
    ensures var i := WindowAt(s.manager.windows, p);
            var r := Step(Step(s, SimulateUserActivity(p)), PopupIdle(i));
            && Inv(r) && OnlyDialogs(s, r) && SameDeactivations(s.manager, r.manager)
            && r.manager.windows[i].watched && r.manager.windows[i].child
  {
    var i := WindowAt(s.manager.windows, p);
    RequestUnlockKeeps(s, p);
    assert !s.manager.windows[i].dialogUp;
    var s1 := Step(s, SimulateUserActivity(p));
    StepKeepsInv(s, SimulateUserActivity(p));
    StepKeepsInv(s1, PopupIdle(i));
    assert s1.manager.windows[i].popupQueued;
  }

  /** Input at any window of a locked screen counts as activity until a dialog is up, and then it
      changes nothing. */
  lemma AnyInputCounts(s: State, i: nat, p: int)
    requires Inv(s) && Locked(s) && i < |s.manager.windows|
    ensures Step(s, Input(i, p)) == if s.manager.dialogUp then s else Step(s, SimulateUserActivity(p))
    ensures Step(s, ShowMessage(p)) == Step(s, SimulateUserActivity(p))
  {
    var w := s.manager.windows[i];
    assert w.socket ==> w.dialogUp;
  }

  /** Activity on a screen that is active but not locked, and the two callbacks it queues, bring
      the screen down without a dialog. */
  lemma UnlockedActivityDismisses(s: State, p: int)
    requires Inv(s) && s.manager.active && !s.manager.lockActive && !s.manager.dialogUp && NoneQueued(s.manager)
    ensures s.manager.windows != []
    ensures var i := WindowAt(s.manager.windows, p);
            Step(Step(Step(s, SimulateUserActivity(p)), EmitDeactivated(i)), DeactivatedIdle) == Stopped(s)
  {
    var i := WindowAt(s.manager.windows, p);
    assert !s.manager.windows[i].dialogUp;
    var s1 := Step(s, SimulateUserActivity(p));
    assert s1 == QueueDeactivation(s, i);
    StepKeepsInv(s, SimulateUserActivity(p));
    DeactivationArrives(s1, i);
  }

  /** Activity, the popup, an OK and two callbacks: a locked screen without a dialog comes down. */
  function UnlockEvents(s: State, p: int, line: string): seq<Event>
    requires s.manager.windows != []
  {
    var i := WindowAt(s.manager.windows, p);
    [SimulateUserActivity(p), PopupIdle(i), ReadLine(i, line), EmitDeactivated(i), DeactivatedIdle]
  }

  lemma UnlockBringsDown(s: State, p: int, line: string)
    requires Inv(s) && Locked(s) && NoneQueued(s.manager) && !s.manager.dialogUp
    requires Interpret(line) == Some(ResponseOk)
    ensures s.manager.windows != [] && Run(s, UnlockEvents(s, p, line)) == Stopped(s)
  {
    ActivityOpensDialog(s, p);
    var i := WindowAt(s.manager.windows, p);
    var s2 := Step(Step(s, SimulateUserActivity(p)), PopupIdle(i));
    OkUnlocks(s2, i, line);
    StoppedForgetsDialogs(s, s2);
    RunFive(s, UnlockEvents(s, p, line));
  }

  lemma StoppedRunning(s: State, lock: bool)
    requires Inv(s) && !s.manager.active
    ensures Stopped(Running(s, lock))
         == s.(listener := s.listener.(sessionIdle := false),
               watcher := WatcherState(true, true, false, false),
               loop := s.loop.(nextId := s.loop.nextId + s.monitors))
  {
    assert s.manager.activateTime == 0 && s.loop.timers == map[];
  }

  lemma FreshScreen(s: State)
    requires Inv(s) && !s.manager.active && s.manager.deactivations == 0
    ensures var r := Running(s, true).manager; NoneQueued(r) && !r.dialogUp
  {
    RunningKeeps(s, true);
    var ws := Running(s, true).manager.windows;
    assert forall i :: 0 <= i < |ws| ==> ws[i] == FreshWindow(i, true).(visible := true);
  }

  /** Locking an idle screen and unlocking it with the right password gives the state back, but
      for the idle flags, which are cleared, and the ids used up by the lock timer. */
  lemma LockUnlockRoundTrip(s: State, p: int, line: string)
    requires Inv(s) && !s.manager.active && !s.prefs.lockDisabled && s.manager.deactivations == 0
    requires Interpret(line) == Some(ResponseOk)
    ensures var locked := Step(s, LockCall(true));
            && Locked(locked) && locked.manager.windows != []
            && Run(locked, UnlockEvents(locked, p, line))
               == s.(listener := s.listener.(sessionIdle := false),
                     watcher := WatcherState(true, true, false, false),
                     loop := s.loop.(nextId := s.loop.nextId + s.monitors))
  {
    LockInactive(s, true);
    RunningKeeps(s, true);
    FreshScreen(s);
    UnlockBringsDown(Running(s, true), p, line);
    StoppedRunning(s, true);
  }

  lemma RunFive(s: State, es: seq<Event>)
    requires |es| == 5
    ensures Run(s, es) == Step(Step(Step(Step(Step(s, es[0]), es[1]), es[2]), es[3]), es[4])
  {
    var s1 := Step(s, es[0]);
    var s2 := Step(s1, es[1]);
    var s3 := Step(s2, es[2]);
    var s4 := Step(s3, es[3]);
    assert Run(s, es) == Run(s1, es[1..]) == Run(s2, es[2..]) by {
      assert es[1..][1..] == es[2..];
    }
    assert Run(s2, es[2..]) == Run(s3, es[3..]) == Run(s4, es[4..]) by {
      assert es[2..][1..] == es[3..] && es[3..][1..] == es[4..];
    }
    assert es[4..][1..] == [];
    assert Run(s4, es[4..]) == Step(s4, es[4]);
  }
}
