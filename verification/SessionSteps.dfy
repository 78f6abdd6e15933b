/** Every dispatch keeps the invariant, and what the main ones do in one formula. */
module SessionSteps {
  import opened Session
  import opened SessionInvariant
  import opened Options
  import opened Wire

  // ---------------------------------------------------------------- activation and deactivation

  /** The screen just came up on an inactive state, with the lock flag given. */
  function Running(s: State, lock: bool): State
    requires s.monitors > 0
  {
    var on := s.(
      listener := s.listener.(active := true, sessionIdle := true),
      manager := s.manager.(active := true, lockActive := lock),
      watcher := WatcherState(true, false, false, false));
    Shown(on, NewWindows(0, s.monitors, lock, true), s.monitors)
  }

  /** The screen just went away. */
  function Stopped(s: State): State {
    s.(listener := s.listener.(active := false, sessionIdle := false),
       manager := s.manager.(active := false, lockActive := false, dialogUp := false,
                             activateTime := 0, timerId := 0, windows := []),
       watcher := WatcherState(true, true, false, false),
       loop := s.loop.(timers := map[]))
  }

  lemma ActivateSteps(s: State, lock: bool)
    requires Inv(s) && !s.manager.active
    ensures SetActive(s.(manager := s.manager.(lockActive := lock)), true, true) == (Running(s, lock), true)
  {
    ActivateForm(s.(manager := s.manager.(lockActive := lock)));
  }

  lemma RunningKeeps(s: State, lock: bool)
    requires Inv(s) && !s.manager.active
    ensures Inv(Running(s, lock))
  {
    var r := Running(s, lock);
    assert forall i :: 0 <= i < |r.manager.windows| ==>
      r.manager.windows[i] == FreshWindow(i, lock).(visible := true);
    assert r.loop.timers[r.manager.timerId] == s.loop.now + s.manager.lockTimeout;
  }

  lemma DeactivateSteps(s: State, grab: bool)
    requires Inv(s) && s.manager.active
    ensures SetActive(s, false, grab) == (Stopped(s), true)
    ensures Inv(Stopped(s))
  {
    assert RemoveLockTimer(s).loop.timers == map[];
  }

  /** Locking an inactive screen either brings it up locked or, when the grab fails, leaves
      nothing behind but a cleared idle state: the lock flag is rolled back. */
  lemma LockInactive(s: State, grab: bool)
    requires Inv(s) && !s.manager.active
    ensures LockScreen(s, grab)
         == if grab then Running(s, true) else s.(listener := s.listener.(sessionIdle := false))
  {
    ActivateSteps(s, true);
    assert SetLockActive(s, true) == s.(manager := s.manager.(lockActive := true));
    if !grab {
      var s1 := s.(manager := s.manager.(lockActive := true));
      var s2 := SetActive(s1, true, false).0;
      assert s2 == s1.(listener := s1.listener.(sessionIdle := false));
      assert SetLocks([], false) == [];
    }
  }

  /** Changing the lock flag of every window changes nothing about their dialogs. */
  lemma SetLocksKeeps(ws: seq<WindowState>, lock: bool)
    ensures forall i :: 0 <= i < |ws| ==> SetLocks(ws, lock)[i] == ws[i].(lockEnabled := lock)
    ensures var r := SetLocks(ws, lock);
            (exists i :: 0 <= i < |ws| && ws[i].dialogUp) <==> exists i :: 0 <= i < |ws| && r[i].dialogUp
  {
    var r := SetLocks(ws, lock);
    assert forall i :: 0 <= i < |ws| ==> r[i].dialogUp == ws[i].dialogUp;
  }

  lemma SetLockActiveKeeps(s: State)
    requires Core(s) && s.manager.active
    ensures Core(SetLockActive(s, true))
    ensures OnlyDialogs(s.(manager := s.manager.(lockActive := true)), SetLockActive(s, true))
    ensures SameDeactivations(s.manager, SetLockActive(s, true).manager)
  {
    SetLocksKeeps(s.manager.windows, true);
  }

  lemma LockScreenKeeps(s: State, grab: bool)
    requires Inv(s)
    ensures Inv(LockScreen(s, grab))
  {
    if s.manager.active {
      SetLockActiveKeeps(s);
    } else {
      LockInactive(s, grab);
      RunningKeeps(s, true);
    }
  }

  lemma SetActiveKeeps(s: State, on: bool, grab: bool)
    requires Inv(s)
    ensures Inv(SetActive(s, on, grab).0)
  {
    if on && !s.manager.active {
      if grab {
        assert s.(manager := s.manager.(lockActive := false)) == s;
        ActivateSteps(s, false);
        RunningKeeps(s, false);
      }
    } else if !on && s.manager.active {
      DeactivateSteps(s, grab);
    }
  }

  // ---------------------------------------------------------------- lock timer and preferences

  lemma LockTimerKeeps(s: State, id: nat)
    requires Inv(s)
    ensures var r := Step(s, LockTimer(id));
            && Inv(r)
            && (if id in s.loop.timers && s.loop.timers[id] <= s.loop.now
                then r.loop.timers == map[] && r.manager.timerId == 0 else r == s)
  {
    if id in s.loop.timers && s.loop.timers[id] <= s.loop.now {
      assert id == s.manager.timerId;
      if s.manager.lockEnabled && !s.manager.lockActive {
        SetLockActiveKeeps(s);
      }
      var r := Step(s, LockTimer(id));
      assert r.loop.timers.Keys == {};
    }
  }

  function ClearTimer(s: State): State {
    s.(manager := s.manager.(timerId := 0), loop := s.loop.(timers := map[]))
  }

  lemma NewDelayForm(s: State, timeout: nat)
    requires OneTimer(s) && timeout < UINT_RANGE
    requires s.manager.active && !s.manager.lockActive && s.manager.lockTimeout != timeout
    requires 0 <= s.manager.activateTime * 1000 <= s.loop.now
    ensures var s1 := ClearTimer(s.(manager := s.manager.(lockTimeout := timeout)));
            var left := timeout - (s.loop.now / 1000 - s.manager.activateTime) * 1000;
            SetLockTimeout(s, timeout)
            == if left <= 0 then ActivateLockTimeout(s1)
               else s1.(manager := s1.manager.(timerId := s.loop.nextId),
                        loop := LoopState(s.loop.now, map[s.loop.nextId := s.loop.now + left], s.loop.nextId + 1))
  {
    var s1 := s.(manager := s.manager.(lockTimeout := timeout));
    assert RemoveLockTimer(s1) == ClearTimer(s1) by {
      assert RemoveLockTimer(s1).loop.timers == map[];
    }
  }

  lemma TimeoutLocks(s: State)
    requires Core(s) && s.manager.active && s.manager.timerId == 0
    ensures var r := ActivateLockTimeout(s);
            Core(r) && SameButLock(s.manager, r.manager)
  {
    if s.manager.lockEnabled {
      SetLocksKeeps(s.manager.windows, true);
    }
  }

  predicate SameButLock(m: ManagerState, r: ManagerState) {
    && r.active == m.active && r.lockEnabled == m.lockEnabled && r.lockTimeout == m.lockTimeout
    && r.deactivations == m.deactivations && r.dialogUp == m.dialogUp
    && (m.lockActive ==> r.lockActive)
    && (r.lockActive && !m.lockActive ==> m.lockEnabled)
    && |r.windows| == |m.windows|
    && forall i :: 0 <= i < |m.windows| ==> r.windows[i] == m.windows[i].(lockEnabled := r.lockActive)
  }

  /** A new delay leaves a timer for the time that is left, or locks at once. */
  lemma SetLockTimeoutKeeps(s: State, timeout: nat)
    requires Core(s) && timeout < UINT_RANGE
    ensures var r := SetLockTimeout(s, timeout);
            && Core(r)
            && SameButLock(s.manager.(lockTimeout := timeout), r.manager)
            && r.listener == s.listener && r.watcher == s.watcher && r.prefs == s.prefs
            && r.monitors == s.monitors
  {
    var m := s.manager;
    if m.lockTimeout != timeout && m.active && !m.lockActive {
      NewDelayForm(s, timeout);
      var s1 := ClearTimer(s.(manager := m.(lockTimeout := timeout)));
      if timeout - (s.loop.now / 1000 - m.activateTime) * 1000 <= 0 {
        TimeoutLocks(s1);
      }
    }
  }

  /** The state in which a changed key reaches the lock delay. */
  function PrefNoted(s: State, key: PrefKey): State {
    var p := SetPref(s.prefs, key);
    s.(prefs := p, manager := s.manager.(lockEnabled := p.lockEnabled && !p.lockDisabled))
  }

  lemma PrefForm(s: State, key: PrefKey)
    requires Inv(s)
    ensures var s1 := PrefNoted(s, key);
            && Core(s1) && s1.prefs.lockTimeout < UINT_RANGE
            && var r := SetLockTimeout(s1, s1.prefs.lockTimeout);
               Step(s, PrefChanged(key)) == r.(listener := r.listener.(activationEnabled := s1.prefs.idleActivation))
  {
    var s1 := PrefNoted(s, key);
    assert Core(s1);
    SetLockTimeoutKeeps(s1, s1.prefs.lockTimeout);
  }

  lemma PrefChangedKeeps(s: State, key: PrefKey)
    requires Inv(s)
    ensures Inv(Step(s, PrefChanged(key)))
  {
    PrefForm(s, key);
    var s1 := PrefNoted(s, key);
    SetLockTimeoutKeeps(s1, s1.prefs.lockTimeout);
  }

  // ---------------------------------------------------------------- hot-plug

  lemma AppendKeeps(m: ManagerState, k: nat, n: nat, r: ManagerState)
    requires k <= n && InOrder(m, k) && WindowsReady(m) && DialogsMatch(m) && ResponsesPending(m)
    requires !m.dialogUp && !r.dialogUp && r.lockActive == m.lockActive && r.deactivations == m.deactivations
    requires r.windows == m.windows + NewWindows(k, n, m.lockActive, true)
    ensures InOrder(r, n) && WindowsReady(r) && DialogsMatch(r) && ResponsesPending(r)
    ensures NoneQueued(m) ==> NoneQueued(r)
  {
    var added := NewWindows(k, n, m.lockActive, true);
    forall i | 0 <= i < n
      ensures r.windows[i] == if i < k then m.windows[i] else FreshWindow(i, m.lockActive).(visible := true)
      ensures !r.windows[i].dialogUp
    {
      if i < k {
        assert m.windows[i].dialogUp ==> m.dialogUp;
      } else {
        assert r.windows[i] == added[i - k];
      }
    }
  }

  lemma AddWindowsKeeps(s: State, k: nat, n: nat)
    requires Core(s) && InOrder(s.manager, k) && k < n
    requires s.manager.active && !s.manager.dialogUp
    ensures var r := CreateWindows(s, k, n);
            && Core(r) && InOrder(r.manager, n)
            && r.listener == s.listener && r.watcher == s.watcher && r.prefs == s.prefs && r.monitors == s.monitors
            && r.manager.lockActive == s.manager.lockActive && r.manager.active
            && r.manager.lockEnabled == s.manager.lockEnabled && r.manager.lockTimeout == s.manager.lockTimeout
            && (NoneQueued(s.manager) ==> NoneQueued(r.manager))
  {
    CreateShownForm(s, k, n);
    var r := CreateWindows(s, k, n);
    AppendKeeps(s.manager, k, n, r.manager);
    assert r.loop.timers[r.manager.timerId] == s.loop.now + s.manager.lockTimeout;
  }

  /** What a change of the number of monitors promises. */
  predicate Replugged(s: State, n: nat, r: State) {
    && Inv(r) && r.monitors == n
    && r.prefs == s.prefs && r.listener == s.listener && r.watcher == s.watcher
    && r.manager.active == s.manager.active && r.manager.lockActive == s.manager.lockActive
    && (s.manager.active && s.manager.lockActive && n != s.monitors ==> r.manager.dialogUp)
    && (s.manager.lockActive && NoneQueued(s.manager) ==> NoneQueued(r.manager))
  }

  lemma RequestAfterReplug(s: State, p: int)
    requires Inv(s) && s.manager.active
    ensures var r := RequestUnlock(s, p);
            && Replugged(s, s.monitors, r)
            && (s.manager.lockActive ==> r.manager.dialogUp)
  {
    RequestUnlockKeeps(s, p);
  }

  lemma PlugKeeps(s: State, n: nat, p: int)
    requires Inv(s) && 0 < |s.manager.windows| < n
    ensures Replugged(s, n, MonitorsChanged(s, n, p))
  {
    var s1 := s.(monitors := n);
    CancelUnlocksKeeps(s1, 0);
    var s2 := CancelUnlocks(s1, 0);
    AddWindowsKeeps(s2, s.monitors, n);
    RequestAfterReplug(CreateWindows(s2, s.monitors, n), p);
  }

  lemma UnplugKeeps(s: State, n: nat, p: int)
    requires Inv(s) && 0 < n <= |s.manager.windows|
    ensures Replugged(s, n, MonitorsChanged(s, n, p))
  {
    var s1 := s.(monitors := n);
    DestroyExtraWindowsKeeps(s1, n, 0);
    var s2 := DestroyExtraWindows(s1, n, 0);
    assert Inv(s2);
    RequestAfterReplug(s2, p);
  }

  /** After any change of the number of monitors there is one window per monitor again, and a
      locked screen ends a change with a dialog up. */
  lemma MonitorsChangedKeeps(s: State, n: nat, p: int)
    requires Inv(s) && n > 0
    ensures Replugged(s, n, MonitorsChanged(s, n, p))
  {
    if 0 < |s.manager.windows| < n {
      PlugKeeps(s, n, p);
    } else if s.manager.windows != [] {
      UnplugKeeps(s, n, p);
    }
  }

  lemma DestroyClosed(s: State, i: nat)
    requires i < |s.manager.windows| && s.manager.windows[i] == PoppedDown(s.manager.windows[i])
    ensures var ws := s.manager.windows;
            DestroyWindow(s, i) == s.(manager := s.manager.(windows := ws[..i] + ws[i + 1..]))
  {
    PopdownForm(s, i);
    assert PoppedWindows(s.manager.windows, i) == s.manager.windows;
  }

  /** Nothing at all happens to the windows that stay. */
  lemma {:induction false} DialogSurvives(s: State, n: nat, i: nat)
    requires i <= n <= |s.manager.windows| && i <= |s.manager.windows|
    requires forall j :: 0 <= j < |s.manager.windows| ==>
               if j < n then s.manager.windows[j].monitor == j
               else s.manager.windows[j].monitor >= n && s.manager.windows[j] == PoppedDown(s.manager.windows[j])
    ensures DestroyExtraWindows(s, n, i) == s.(manager := s.manager.(windows := s.manager.windows[..n]))
    decreases |s.manager.windows| - i
  {
    var ws := s.manager.windows;
    if i < |ws| {
      if ws[i].monitor >= n {
        DestroyClosed(s, i);
        DialogSurvives(DestroyWindow(s, i), n, i);
      } else {
        DialogSurvives(s, n, i + 1);
      }
    } else {
      assert ws[..n] == ws;
    }
  }

  /** Unplugging other monitors leaves a dialog alone: it stays up, with its child. */
  lemma UnplugKeepsDialog(s: State, n: nat, p: int, k: nat)
    requires Inv(s) && k < n <= |s.manager.windows| && s.manager.windows[k].dialogUp
    ensures MonitorsChanged(s, n, p)
         == s.(monitors := n, manager := s.manager.(windows := s.manager.windows[..n]))
  {
    var ws := s.manager.windows;
    forall j | n <= j < |ws| ensures ws[j] == PoppedDown(ws[j]) {
      assert !ws[j].dialogUp;
    }
    DialogSurvives(s.(monitors := n), n, 0);
  }

  // ---------------------------------------------------------------- idleness

  /** While the screen is active neither the presence service nor the idle timer, which may fire
      late, has any effect. */
  lemma IdleWhileActive(s: State, status: nat, grab: bool)
    requires Inv(s) && s.manager.active
    ensures PresenceStatus(s, status) == s && IdleTimeout(s, grab) == s
  {
  }

  /** On an inactive screen the idle timer activates it, unless idle activation is off, the idle
      state is already known, or the grab fails. */
  lemma IdleTimeoutInactive(s: State, grab: bool)
    requires Inv(s) && !s.manager.active
    ensures var r := IdleTimeout(s, grab);
            && Inv(r)
            && (r.manager.active <==>
                  grab && s.listener.activationEnabled && !s.listener.sessionIdle && !s.watcher.idle)
            && !r.manager.lockActive
            && (r.manager.active ==> r == Running(s, false).(watcher := WatcherState(true, false, true, false)))
  {
    if !s.watcher.idle && !s.listener.sessionIdle && s.listener.activationEnabled {
      var s1 := s.(listener := s.listener.(sessionIdle := true));
      assert s1.(manager := s1.manager.(lockActive := false)) == s1;
      if grab {
        ActivateSteps(s1, false);
        RunningKeeps(s1, false);
        assert Running(s1, false) == Running(s, false);
      }
    }
  }

  /** On an inactive screen presence only moves the idle flags: the notice is on while the user is
      away and idle activation allows it, and coming back ends an idle session. */
  lemma PresenceInactive(s: State, status: nat)
    requires Inv(s) && !s.manager.active
    ensures var r := PresenceStatus(s, status);
            var back := status != PRESENCE_IDLE && s.watcher.idleNotice && s.watcher.idle;
            && r.manager == s.manager && r.loop == s.loop
            && r.watcher.idleNotice
               == (status == PRESENCE_IDLE && (s.watcher.idleNotice || s.listener.activationEnabled))
            && r.listener.sessionIdle == (s.listener.sessionIdle && !back)
            && r.watcher.idle == (s.watcher.idle && !(back && s.listener.sessionIdle))
  {
  }

  lemma IdleKeeps(s: State, status: nat, grab: bool)
    requires Inv(s)
    ensures Inv(PresenceStatus(s, status)) && Inv(IdleTimeout(s, grab))
  {
    if s.manager.active {
      IdleWhileActive(s, status, grab);
    } else {
      IdleTimeoutInactive(s, grab);
    }
  }

  // ---------------------------------------------------------------- the dialog process

  /** Windows that agree on their dialogs are equally well off. */
  lemma SameDialogs(m: ManagerState, r: ManagerState)
    requires DialogsMatch(m) && r.dialogUp == m.dialogUp && |r.windows| == |m.windows|
    requires forall i :: 0 <= i < |m.windows| ==>
      && r.windows[i].dialogUp == m.windows[i].dialogUp
      && r.windows[i].sensitive == m.windows[i].sensitive
      && (r.windows[i].popupQueued || r.windows[i].watched) == m.windows[i].dialogUp
      && !(r.windows[i].popupQueued && r.windows[i].watched)
      && r.windows[i].child == r.windows[i].watched
      && (r.windows[i].socket ==> r.windows[i].watched)
    ensures DialogsMatch(r)
  {
    if m.dialogUp {
      var k :| 0 <= k < |m.windows| && m.windows[k].dialogUp;
      assert r.windows[k].dialogUp;
    }
  }

  lemma SetWindowKeeps(s: State, i: nat, w: WindowState)
    requires Core(s) && i < |s.manager.windows|
    requires var v := s.manager.windows[i];
             && w.visible && w.lockEnabled == v.lockEnabled
             && w.dialogUp == v.dialogUp && w.sensitive == v.sensitive
             && (w.popupQueued || w.watched) == v.dialogUp && !(w.popupQueued && w.watched)
             && w.child == w.watched && (w.socket ==> w.watched)
    ensures var r := SetWindow(s, i, w);
            Agreement(r) && WindowsReady(r.manager) && DialogsMatch(r.manager) && TimerMatches(r)
  {
    SameDialogs(s.manager, SetWindow(s, i, w).manager);
  }

  function Answered(w: WindowState, ok: bool): WindowState {
    w.(responseOk := ok, deactivations := w.deactivations + if ok then 1 else 0)
  }

  lemma PoppedAnswer(ws: seq<WindowState>, i: nat, ok: bool)
    requires i < |ws|
    ensures var ps := PoppedWindows(ws, i);
            PoppedWindows(ws[i := ws[i].(responseOk := ok)], i) == ps[i := ps[i].(responseOk := ok)]
  {
  }

  lemma FinishDialogForm(s: State, i: nat, ok: bool)
    requires i < |s.manager.windows|
    ensures var r := Popdown(s, i);
            FinishDialog(SetWindow(s, i, s.manager.windows[i].(responseOk := ok)), i)
            == SetWindow(r, i, Answered(r.manager.windows[i], ok))
  {
    PoppedWithAnswer(s, i, ok);
    var r := Popdown(s, i);
    SetTwice(r, i, r.manager.windows[i].(responseOk := ok), Answered(r.manager.windows[i], ok));
  }

  lemma PoppedWithAnswer(s: State, i: nat, ok: bool)
    requires i < |s.manager.windows|
    ensures var r := Popdown(s, i);
            Popdown(SetWindow(s, i, s.manager.windows[i].(responseOk := ok)), i)
            == SetWindow(r, i, r.manager.windows[i].(responseOk := ok))
  {
    PopdownForm(s, i);
    PopdownForm(SetWindow(s, i, s.manager.windows[i].(responseOk := ok)), i);
    PoppedAnswer(s.manager.windows, i, ok);
  }

  lemma SetTwice(s: State, i: nat, v: WindowState, w: WindowState)
    requires i < |s.manager.windows|
    ensures SetWindow(s, i, v).manager.windows[i] == v
    ensures SetWindow(SetWindow(s, i, v), i, w) == SetWindow(s, i, w)
  {
    assert s.manager.windows[i := v][i := w] == s.manager.windows[i := w];
  }

  /** Whatever the dialog answered, it is closed, and an OK is queued for this window alone. */
  lemma FinishDialogKeeps(s: State, i: nat, ok: bool)
    requires Core(s) && i < |s.manager.windows|
    ensures var r := FinishDialog(SetWindow(s, i, s.manager.windows[i].(responseOk := ok)), i);
            && Core(r) && OnlyDialogs(s, r)
            && !r.manager.windows[i].dialogUp
            && r.manager.deactivations == s.manager.deactivations
            && forall j :: 0 <= j < |s.manager.windows| ==>
                 r.manager.windows[j].deactivations
                 == s.manager.windows[j].deactivations + if j == i && ok then 1 else 0
  {
    FinishDialogForm(s, i, ok);
    PopdownForm(s, i);
    PopdownKeeps(s, i);
    var p := Popdown(s, i);
    SetWindowKeeps(p, i, Answered(p.manager.windows[i], ok));
  }

  /** Reading end of file leaves the answer as it was. */
  lemma EndOfFileAnswer(s: State, i: nat)
    requires i < |s.manager.windows|
    ensures var w := s.manager.windows[i];
            SetWindow(s, i, w.(responseOk := w.responseOk)) == s
  {
    assert s.manager.windows[i := s.manager.windows[i]] == s.manager.windows;
  }

  lemma EndOfFileKeeps(s: State, i: nat)
    requires Inv(s) && i < |s.manager.windows|
    ensures Inv(FinishDialog(s, i))
  {
    EndOfFileAnswer(s, i);
    FinishDialogKeeps(s, i, s.manager.windows[i].responseOk);
  }

  lemma SocketKeeps(s: State, i: nat)
    requires Core(s) && i < |s.manager.windows| && s.manager.windows[i].watched
    ensures Core(SetWindow(s, i, s.manager.windows[i].(socket := true)))
  {
    SetWindowKeeps(s, i, s.manager.windows[i].(socket := true));
  }

  lemma AnswerKeeps(s: State, i: nat, said: Option<Message>)
    requires Inv(s) && i < |s.manager.windows| && s.manager.windows[i].watched
    ensures Inv(Answer(s, i, said))
  {
    if said.Some? {
      if said.value.WindowId? {
        SocketKeeps(s, i);
      } else if said.value.ResponseOk? || said.value.ResponseCancel? {
        FinishDialogKeeps(s, i, said.value.ResponseOk?);
      }
    }
  }

  lemma PopupIdleKeeps(s: State, i: nat)
    requires Inv(s)
    ensures Inv(Step(s, PopupIdle(i)))
  {
    if i < |s.manager.windows| && s.manager.windows[i].popupQueued {
      SetWindowKeeps(s, i, s.manager.windows[i].(popupQueued := false, watched := true, child := true));
    }
  }

  lemma PlugRemovedKeeps(s: State, i: nat)
    requires Inv(s)
    ensures Inv(Step(s, PlugRemoved(i)))
  {
    if i < |s.manager.windows| {
      SetWindowKeeps(s, i, s.manager.windows[i].(socket := false));
    }
  }

  lemma EmitDeactivatedKeeps(s: State, i: nat)
    requires Inv(s)
    ensures Inv(Step(s, EmitDeactivated(i)))
  {
    if i < |s.manager.windows| && s.manager.windows[i].deactivations > 0 {
      var w := s.manager.windows[i].(deactivations := s.manager.windows[i].deactivations - 1);
      SetWindowKeeps(s, i, w);
      SameDialogs(SetWindow(s, i, w).manager, Step(s, EmitDeactivated(i)).manager);
    }
  }

  lemma DeactivatedIdleKeeps(s: State)
    requires Inv(s) && s.manager.deactivations > 0
    ensures Inv(Step(s, DeactivatedIdle)) && !Step(s, DeactivatedIdle).manager.active
  {
    var m := s.manager.(deactivations := s.manager.deactivations - 1);
    if s.manager.active {
      StopForgetsWindows(s.(manager := m));
      assert Stopped(s.(manager := m)) == Stopped(s).(manager := Stopped(s).manager.(deactivations := m.deactivations));
      DeactivateSteps(s, true);
    }
  }

  /** Deactivation does not depend on what the windows were doing. */
  lemma StopForgetsWindows(s: State)
    requires s.manager.active && s.listener.active && OneTimer(s)
    requires s.watcher.enabled && !s.watcher.active
    ensures SetActive(s, false, true) == (Stopped(s), true)
  {
    assert RemoveLockTimer(s).loop.timers == map[];
  }

  lemma WindowEventKeeps(s: State, e: Event)
    requires Inv(s) && (e.PopupIdle? || e.ReadLine? || e.EndOfFile? || e.PlugRemoved? || e.EmitDeactivated?)
    ensures Inv(Step(s, e))
  {
    var i := e.window;
    if e.PopupIdle? {
      PopupIdleKeeps(s, i);
    } else if e.PlugRemoved? {
      PlugRemovedKeeps(s, i);
    } else if e.EmitDeactivated? {
      EmitDeactivatedKeeps(s, i);
    } else if i < |s.manager.windows| && s.manager.windows[i].watched {
      if e.ReadLine? {
        AnswerKeeps(s, i, Interpret(e.line));
      } else {
        EndOfFileKeeps(s, i);
      }
    }
  }

  lemma RequestEventKeeps(s: State, e: Event)
    requires Inv(s)
    requires e.SetActiveCall? || e.SessionUnlock? || e.QuitCall? || e.LockCall? || e.PrepareForSleep?
          || e.SimulateUserActivity? || e.ShowMessage? || e.Input?
    ensures Inv(Step(s, e))
  {
    if e.LockCall? || e.PrepareForSleep? {
      LockScreenKeeps(s, e.grab);
    } else if e.SetActiveCall? {
      SetActiveKeeps(s, e.on, e.grab);
    } else if e.SessionUnlock? || e.QuitCall? {
      SetActiveKeeps(s, false, true);
    } else {
      RequestUnlockKeeps(s, e.pointer);
    }
  }

  lemma TickKeeps(s: State, ms: nat)
    requires Inv(s)
    ensures Inv(Step(s, Tick(ms)))
  {
  }

  /** The invariant survives every dispatch. */
  lemma StepKeepsInv(s: State, e: Event)
    requires Inv(s)
    ensures Inv(Step(s, e))
  {
    match e
    case Tick(ms) => TickKeeps(s, ms);
    case Presence(status) => IdleKeeps(s, status, true);
    case IdleTimer(grab) => IdleKeeps(s, 0, grab);
    case PrefChanged(key) => PrefChangedKeeps(s, key);
    case Monitors(n, p) => if n > 0 { MonitorsChangedKeeps(s, n, p); }
    case LockTimer(id) => LockTimerKeeps(s, id);
    case DeactivatedIdle => if s.manager.deactivations > 0 { DeactivatedIdleKeeps(s); }
    case PopupIdle(_) => WindowEventKeeps(s, e);
    case ReadLine(_, _) => WindowEventKeeps(s, e);
    case EndOfFile(_) => WindowEventKeeps(s, e);
    case PlugRemoved(_) => WindowEventKeeps(s, e);
    case EmitDeactivated(_) => WindowEventKeeps(s, e);
    case _ => RequestEventKeeps(s, e);
  }

  lemma {:induction false} RunKeepsInv(s: State, es: seq<Event>)
    requires Inv(s)
    ensures Inv(Run(s, es))
    decreases es
  {
    if es != [] {
      StepKeepsInv(s, es[0]);
      RunKeepsInv(Step(s, es[0]), es[1..]);
    }
  }

  /** So does it hold throughout every run of the program. At first the screen is inactive, the
      watcher is on, and nothing is known to be idle or queued. */
  lemma InitialInv(prefs: Prefs, monitors: nat, now: nat)
    requires prefs.lockTimeout < UINT_RANGE && monitors > 0
    ensures var s := Initial(prefs, monitors, now);
            && Inv(s) && s.prefs == prefs && s.monitors == monitors && s.loop.now == now
            && !s.manager.active && s.manager.deactivations == 0
            && !s.listener.sessionIdle && s.watcher == WatcherState(true, true, false, false)
  {
  }
}
