/** What each event does to a state of the invariant, said without the functions that compute it:
    which fields change, to what, and that no other does. */
module SessionEvents {
  import opened Session
  import opened SessionFrames
  import opened SessionInvariant
  import opened SessionSteps
  import opened Options
  import opened Wire

  // ---------------------------------------------------------------- requests from the bus

  /** SetActive(TRUE) brings an inactive screen up unlocked, or clears the idle state if the grab
      fails; SetActive(FALSE) takes an active one down, locked or not; the rest changes nothing. */
  lemma SetActiveDoes(s: State, on: bool, grab: bool)
    requires Inv(s)
    ensures Step(s, SetActiveCall(on, grab))
         == if s.manager.active then (if on then s else Stopped(s))
            else if !on then s
            else if grab then Running(s, false)
            else s.(listener := s.listener.(sessionIdle := false))
  {
    assert s.manager.active || s.(manager := s.manager.(lockActive := false)) == s;
    if s.manager.active {
      DeactivateSteps(s, grab);
    } else {
      ActivateSteps(s, false);
    }
  }

  lemma DismissalsDo(s: State)
    requires Inv(s)
    ensures Step(s, SessionUnlock) == Step(s, QuitCall) == if s.manager.active then Stopped(s) else s
  {
    if s.manager.active {
      DeactivateSteps(s, true);
    }
  }

  /** The lock flag of the manager and of every window is on; nothing else changes. */
  predicate OnlyLocks(s: State, r: State) {
    && r == s.(manager := s.manager.(lockActive := true, windows := r.manager.windows))
    && |r.manager.windows| == |s.manager.windows|
    && forall i :: 0 <= i < |s.manager.windows| ==>
         r.manager.windows[i] == s.manager.windows[i].(lockEnabled := true)
  }

  lemma LockNow(s: State)
    requires Inv(s) && s.manager.active
    ensures OnlyLocks(s, SetLockActive(s, true))
    ensures SetLockActive(s, true).manager.windows == SetLocks(s.manager.windows, true)
  {
    SetLocksKeeps(s.manager.windows, true);
    assert s.manager.lockActive ==> SetLocks(s.manager.windows, true) == s.manager.windows;
  }

  /** Lock obeys the administrator; suspending obeys the lock setting as well. */
  lemma LockDoes(s: State, grab: bool)
    requires Inv(s)
    ensures var r := Step(s, LockCall(grab));
            if s.prefs.lockDisabled then r == s
            else if s.manager.active then OnlyLocks(s, r)
            else r == if grab then Running(s, true) else s.(listener := s.listener.(sessionIdle := false))
    ensures Step(s, PrepareForSleep(grab)) == if s.prefs.lockEnabled then Step(s, LockCall(grab)) else s
  {
    if s.manager.active {
      LockNow(s);
    } else {
      LockInactive(s, grab);
    }
  }

  // ---------------------------------------------------------------- activity

  /** The window on the pointer's monitor, or the first one if it is on none. */
  function AtPointer(monitors: nat, pointer: int): (i: nat) {
    if 0 <= pointer < monitors then pointer else 0
  }

  lemma PointerWindow(s: State, p: int)
    requires InOrder(s.manager, s.monitors) && s.monitors > 0
    ensures s.manager.windows != [] && WindowAt(s.manager.windows, p) == AtPointer(s.monitors, p)
  {
    WindowAtIsLast(s.manager.windows, p);
    if 0 <= p < s.monitors {
      assert s.manager.windows[p].monitor == p;
    }
  }

  /** A dialog is about to start on window t; only that window takes events. */
  predicate DialogAt(s: State, r: State, t: nat) {
    && t < |s.manager.windows|
    && r == s.(manager := s.manager.(dialogUp := true, windows := r.manager.windows))
    && |r.manager.windows| == |s.manager.windows|
    && r.manager.windows[t] == s.manager.windows[t].(popupQueued := true, dialogUp := true)
    && forall j :: 0 <= j < |s.manager.windows| && j != t ==>
         r.manager.windows[j] == s.manager.windows[j].(sensitive := false)
  }

  /** Window t has one more deactivation to hand on, and that is all. */
  predicate DeactivationAt(s: State, r: State, t: nat) {
    && t < |s.manager.windows|
    && r == s.(manager := s.manager.(windows := r.manager.windows))
    && |r.manager.windows| == |s.manager.windows|
    && r.manager.windows[t] == s.manager.windows[t].(deactivations := s.manager.windows[t].deactivations + 1)
    && forall j :: 0 <= j < |s.manager.windows| && j != t ==> r.manager.windows[j] == s.manager.windows[j]
  }

  /** What activity with the pointer on monitor p makes of a state. */
  predicate AnswersActivity(s: State, r: State, p: int) {
    var t := AtPointer(s.monitors, p);
    if !s.manager.active || s.manager.dialogUp then r == s
    else if s.manager.lockActive then DialogAt(s, r, t)
    else DeactivationAt(s, r, t)
  }

  lemma RequestDoes(s: State, p: int)
    requires Core(s) && s.monitors > 0 && InOrder(s.manager, if s.manager.active then s.monitors else 0)
    ensures AnswersActivity(s, RequestUnlock(s, p), p)
  {
    if s.manager.active && !s.manager.dialogUp {
      PointerWindow(s, p);
      assert !s.manager.windows[AtPointer(s.monitors, p)].dialogUp;
    }
  }

  /** Simulated activity, a message to show and input at any window all count as activity. */
  lemma ActivityDoes(s: State, i: nat, p: int)
    requires Inv(s)
    ensures AnswersActivity(s, Step(s, SimulateUserActivity(p)), p)
    ensures AnswersActivity(s, Step(s, ShowMessage(p)), p)
    ensures if i < |s.manager.windows| then AnswersActivity(s, Step(s, Input(i, p)), p) else Step(s, Input(i, p)) == s
  {
    RequestDoes(s, p);
    if i < |s.manager.windows| {
      assert s.manager.windows[i].socket ==> s.manager.windows[i].dialogUp;
    }
  }

  // ---------------------------------------------------------------- timers and idleness

  lemma TickDoes(s: State, ms: nat)
    ensures Step(s, Tick(ms)) == s.(loop := LoopState(s.loop.now + ms, s.loop.timers, s.loop.nextId))
  {
  }

  /** A timer that is due goes away and locks, if it may; no other timer does anything. */
  lemma LockTimerDoes(s: State, id: nat)
    requires Inv(s)
    ensures var r := Step(s, LockTimer(id));
            if id !in s.loop.timers || s.loop.timers[id] > s.loop.now then r == s else
            var s1 := s.(manager := s.manager.(timerId := 0), loop := s.loop.(timers := map[]));
            if s.prefs.lockEnabled && !s.prefs.lockDisabled then OnlyLocks(s1, r) else r == s1
  {
    LockTimerKeeps(s, id);
    if id in s.loop.timers && s.loop.timers[id] <= s.loop.now {
      LockNow(s);
    }
  }

  /** The idle timer on an inactive screen. Idleness that was known already is not news; otherwise
      it is noted, or brings the screen up if it may, or is forgotten if that fails. */
  lemma IdleTimerDoes(s: State, grab: bool)
    requires Inv(s)
    ensures var r := Step(s, IdleTimer(grab));
            var quiet := s.(watcher := s.watcher.(idleNotice := false));
            if s.manager.active then r == s
            else if s.watcher.idle || s.listener.sessionIdle then r == quiet
            else if !s.listener.activationEnabled then
              r == s.(listener := s.listener.(sessionIdle := true), watcher := WatcherState(true, true, true, false))
            else if grab then r == Running(s, false).(watcher := WatcherState(true, false, true, false))
            else r == quiet
  {
    if s.manager.active {
      IdleWhileActive(s, 0, grab);
    } else {
      IdleTimeoutInactive(s, grab);
    }
  }

  /** Status 3 is idle. While the user is away the notice is on, if idle activation allows it; coming
      back takes it off and, if it was on, ends an idle session. */
  lemma PresenceDoes(s: State, status: nat)
    requires Inv(s)
    ensures var r := Step(s, Presence(status));
            var back := status != 3 && s.watcher.idleNotice && s.watcher.idle;
            if s.manager.active then r == s
            else r == s.(
              listener := s.listener.(sessionIdle := s.listener.sessionIdle && !back),
              watcher := WatcherState(true, true, s.watcher.idle && !(back && s.listener.sessionIdle),
                                      status == 3 && (s.watcher.idleNotice || s.listener.activationEnabled)))
  {
    if s.manager.active {
      IdleWhileActive(s, status, true);
    }
  }

  // ---------------------------------------------------------------- settings

  /** Each key sets its own preference, to what it says, and no other. */
  lemma SettingIsStored(s: State, key: PrefKey)
    requires Inv(s)
    ensures var p, r := s.prefs, Step(s, PrefChanged(key)).prefs;
            match key
            case LockDelay(seconds) =>
              r == Prefs(p.lockEnabled, p.lockDisabled, p.idleActivation, ClampDelay(seconds))
            case IdleActivationEnabled(b) => r == Prefs(p.lockEnabled, p.lockDisabled, b, p.lockTimeout)
            case LockEnabled(b) => r == Prefs(b, p.lockDisabled, p.idleActivation, p.lockTimeout)
            case DisableLockScreen(b) => r == Prefs(p.lockEnabled, b, p.idleActivation, p.lockTimeout)
            case Other => r == p
  {
    PrefForm(s, key);
    SetLockTimeoutKeeps(PrefNoted(s, key), PrefNoted(s, key).prefs.lockTimeout);
  }

  /** A key other than the delay changes nothing else but the permission to lock and idle activation. */
  lemma SettingDoes(s: State, key: PrefKey)
    requires Inv(s) && !key.LockDelay?
    ensures var r := Step(s, PrefChanged(key));
            r == s.(prefs := r.prefs,
                    manager := s.manager.(lockEnabled := r.prefs.lockEnabled && !r.prefs.lockDisabled),
                    listener := s.listener.(activationEnabled := r.prefs.idleActivation))
  {
    PrefForm(s, key);
  }

  /** A new delay: the timer of an active unlocked screen is set to what is left of it, counted from
      the last show; if nothing is left the screen locks at once, if it may. */
  lemma DelayDoes(s: State, seconds: nat)
    requires Inv(s)
    ensures var r, timeout := Step(s, PrefChanged(LockDelay(seconds))), ClampDelay(seconds);
            var s1 := s.(prefs := s.prefs.(lockTimeout := timeout), manager := s.manager.(lockTimeout := timeout));
            var left := timeout - (s.loop.now / 1000 - s.manager.activateTime) * 1000;
            var id := s.loop.nextId;
            if timeout == s.prefs.lockTimeout || !s.manager.active || s.manager.lockActive then r == s1
            else if left > 0 then
              r == s1.(manager := s1.manager.(timerId := id),
                       loop := LoopState(s.loop.now, map[id := s.loop.now + left], id + 1))
            else
              var s2 := s1.(manager := s1.manager.(timerId := 0), loop := s.loop.(timers := map[]));
              if s.prefs.lockEnabled && !s.prefs.lockDisabled then OnlyLocks(s2, r) else r == s2
  {
    PrefForm(s, LockDelay(seconds));
    var s1 := PrefNoted(s, LockDelay(seconds));
    var timeout := ClampDelay(seconds);
    if timeout != s.prefs.lockTimeout && s.manager.active && !s.manager.lockActive {
      NewDelayForm(s1, timeout);
      SetLocksKeeps(s.manager.windows, true);
    }
  }

  // ---------------------------------------------------------------- dialogs

  /** The popup that was queued becomes a child that is read. */
  lemma PopupDoes(s: State, i: nat)
    ensures var r, ws := Step(s, PopupIdle(i)), s.manager.windows;
            if i >= |ws| || !ws[i].popupQueued then r == s
            else r == s.(manager := s.manager.(windows :=
              ws[i := ws[i].(popupQueued := false, watched := true, child := true)]))
  {
  }

  /** The dialog of window i is gone, and it has queued a deactivation if asked to. */
  predicate DialogEnds(s: State, r: State, i: nat, ok: bool) {
    var ws, rs := s.manager.windows, r.manager.windows;
    && r == s.(manager := s.manager.(dialogUp := false, windows := rs))
    && |rs| == |ws| && i < |ws|
    && (forall j :: 0 <= j < |ws| && j != i ==> rs[j] == ws[j].(sensitive := true))
    && rs[i] == ws[i].(dialogUp := false, popupQueued := false, watched := false, child := false, socket := false,
                       sensitive := true, responseOk := ok,
                       deactivations := ws[i].deactivations + if ok then 1 else 0)
  }

  lemma FinishDoes(s: State, i: nat, ok: bool)
    requires Core(s) && i < |s.manager.windows| && s.manager.windows[i].watched
    ensures DialogEnds(s, FinishDialog(SetWindow(s, i, s.manager.windows[i].(responseOk := ok)), i), i, ok)
  {
    FinishDialogForm(s, i, ok);
    PopdownForm(s, i);
    assert s.manager.windows[i].dialogUp && s.manager.dialogUp;
  }

  /** A line: the id of the dialog's window embeds it, a response ends the dialog, the rest is
      without consequence. Lines are read only from dialogs that are watched. */
  lemma ReadLineDoes(s: State, i: nat, line: string)
    requires Inv(s)
    ensures var r, ws, said := Step(s, ReadLine(i, line)), s.manager.windows, Interpret(line);
            if i >= |ws| || !ws[i].watched then r == s
            else if said == Some(ResponseOk) || said == Some(ResponseCancel) then
              DialogEnds(s, r, i, said == Some(ResponseOk))
            else if said.Some? && said.value.WindowId? then
              r == s.(manager := s.manager.(windows := ws[i := ws[i].(socket := true)]))
            else r == s
  {
    if i < |s.manager.windows| && s.manager.windows[i].watched {
      AnswerDoes(s, i, Interpret(line));
    }
  }

  lemma AnswerDoes(s: State, i: nat, said: Option<Message>)
    requires Inv(s) && i < |s.manager.windows| && s.manager.windows[i].watched
    ensures var r, ws := Answer(s, i, said), s.manager.windows;
            if said == Some(ResponseOk) || said == Some(ResponseCancel) then
              DialogEnds(s, r, i, said == Some(ResponseOk))
            else if said.Some? && said.value.WindowId? then
              r == s.(manager := s.manager.(windows := ws[i := ws[i].(socket := true)]))
            else r == s
  {
    FinishDoes(s, i, true);
    FinishDoes(s, i, false);
  }

  /** End of file ends the dialog with the response that is remembered. */
  lemma EndOfFileDoes(s: State, i: nat)
    requires Inv(s)
    ensures var r, ws := Step(s, EndOfFile(i)), s.manager.windows;
            if i >= |ws| || !ws[i].watched then r == s else DialogEnds(s, r, i, ws[i].responseOk)
  {
    if i < |s.manager.windows| && s.manager.windows[i].watched {
      EndOfFileAnswer(s, i);
      FinishDoes(s, i, s.manager.windows[i].responseOk);
    }
  }

  lemma PlugRemovedDoes(s: State, i: nat)
    ensures var r, ws := Step(s, PlugRemoved(i)), s.manager.windows;
            r == if i >= |ws| then s
                 else s.(manager := s.manager.(windows := ws[i := ws[i].(socket := false)]))
  {
  }

  /** One deactivation moves from the window to the manager. */
  lemma EmitDeactivatedDoes(s: State, i: nat)
    ensures var r, ws := Step(s, EmitDeactivated(i)), s.manager.windows;
            if i >= |ws| || ws[i].deactivations == 0 then r == s
            else r == s.(manager := s.manager.(
              deactivations := s.manager.deactivations + 1,
              windows := ws[i := ws[i].(deactivations := ws[i].deactivations - 1)]))
  {
  }

  /** One deactivation reaches the monitor, which takes an active screen down. */
  lemma DeactivatedIdleDoes(s: State)
    requires Inv(s)
    ensures var r := Step(s, DeactivatedIdle);
            var s1 := s.(manager := s.manager.(deactivations :=
                           if s.manager.deactivations == 0 then 0 else s.manager.deactivations - 1));
            if s.manager.deactivations == 0 then r == s
            else r == if s.manager.active then Stopped(s1) else s1
  {
    if s.manager.deactivations > 0 && s.manager.active {
      StopForgetsWindows(s.(manager := s.manager.(deactivations := s.manager.deactivations - 1)));
    }
  }

  /** Input at any window of an active, unlocked and quiet screen, and the two callbacks it queues,
      take the screen down. */
  lemma InputDismisses(s: State, i: nat, p: int)
    requires Inv(s) && s.manager.active && !s.manager.lockActive && !s.manager.dialogUp && NoneQueued(s.manager)
    requires i < |s.manager.windows|
    ensures Step(Step(Step(s, Input(i, p)), EmitDeactivated(AtPointer(s.monitors, p))), DeactivatedIdle) == Stopped(s)
  {
    var t := AtPointer(s.monitors, p);
    ActivityDoes(s, i, p);
    var s1 := Step(s, Input(i, p));
    var s2 := Step(s1, EmitDeactivated(t));
    StepKeepsInv(s, Input(i, p));
    StepKeepsInv(s1, EmitDeactivated(t));
    EmitDeactivatedDoes(s1, t);
    DeactivatedIdleDoes(s2);
  }
}
