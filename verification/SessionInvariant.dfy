/** What every dispatch of the lock protocol keeps. */
module SessionInvariant {
  import opened Session
  import opened Wire

  // ---------------------------------------------------------------- the invariant

  /** Listener, manager and watcher tell the same story. */
  predicate Agreement(s: State) {
    && s.listener.active == s.manager.active
    && s.watcher.enabled
    && s.watcher.active == !s.listener.active
    && (!s.watcher.active ==> !s.watcher.idleNotice)
    && (s.listener.active ==> s.listener.sessionIdle)
    && (s.manager.lockActive ==> s.manager.active)
  }

  /** The manager and the listener follow the settings; the administrator's word is final. */
  predicate ObeysPrefs(s: State) {
    && s.manager.lockEnabled == (s.prefs.lockEnabled && !s.prefs.lockDisabled)
    && s.manager.lockTimeout == s.prefs.lockTimeout
    && s.listener.activationEnabled == s.prefs.idleActivation
  }

  predicate WindowsReady(m: ManagerState) {
    forall i :: 0 <= i < |m.windows| ==>
      m.windows[i].visible && m.windows[i].lockEnabled == m.lockActive
  }

  predicate InOrder(m: ManagerState, n: nat) {
    && |m.windows| == n
    && forall i :: 0 <= i < n ==> m.windows[i].monitor == i
  }

  /** At most one dialog; it is either about to start or has a child that is being read; while it
      is up its window alone is sensitive. */
  predicate DialogsMatch(m: ManagerState) {
    var ws := m.windows;
    && (forall i :: 0 <= i < |ws| ==>
          && ws[i].dialogUp == (ws[i].popupQueued || ws[i].watched)
          && !(ws[i].popupQueued && ws[i].watched)
          && ws[i].child == ws[i].watched
          && (ws[i].socket ==> ws[i].watched)
          && ws[i].sensitive == (m.dialogUp ==> ws[i].dialogUp))
    && (forall i, j :: 0 <= i < |ws| && 0 <= j < |ws| && ws[i].dialogUp && ws[j].dialogUp ==> i == j)
    && (m.dialogUp <==> exists i :: 0 <= i < |ws| && ws[i].dialogUp)
  }

  /** An OK that a window remembers is still on its way to the manager or to the monitor. */
  predicate ResponsesPending(m: ManagerState) {
    forall i :: 0 <= i < |m.windows| && m.windows[i].responseOk ==>
      m.windows[i].deactivations > 0 || m.deactivations > 0
  }

  /** No request to deactivate is queued anywhere. */
  predicate NoneQueued(m: ManagerState) {
    m.deactivations == 0 && forall i :: 0 <= i < |m.windows| ==> m.windows[i].deactivations == 0
  }

  /** When the lock is due: the lock delay after the last show, in milliseconds. */
  function Deadline(m: ManagerState): int {
    m.activateTime * 1000 + m.lockTimeout
  }

  /** The manager's timer is the only one, and while the screen is active and unlocked it fires
      within a second of the deadline; without a timer the deadline has passed. */
  predicate TimerMatches(s: State) {
    var m, l := s.manager, s.loop;
    && m.timerId < l.nextId
    && l.timers.Keys == (if m.timerId == 0 then {} else {m.timerId})
    && 0 <= m.lockTimeout < UINT_RANGE
    && (m.timerId != 0 ==> m.active)
    && (if m.active then 0 <= m.activateTime * 1000 <= l.now else m.activateTime == 0)
    && (m.active && !m.lockActive ==>
          if m.timerId == 0 then Deadline(m) <= l.now
          else Deadline(m) <= l.timers[m.timerId] < Deadline(m) + 1000)
  }

  predicate Core(s: State) {
    && Agreement(s)
    && WindowsReady(s.manager)
    && DialogsMatch(s.manager)
    && ResponsesPending(s.manager)
    && TimerMatches(s)
  }

  /** Between two dispatches there is also exactly one window per monitor, in order, while the
      screen is active, and none otherwise. */
  predicate Inv(s: State) {
    && s.monitors > 0
    && Core(s)
    && ObeysPrefs(s)
    && InOrder(s.manager, if s.manager.active then s.monitors else 0)
  }

  // ---------------------------------------------------------------- dialogs

  function PoppedDown(w: WindowState): WindowState {
    w.(dialogUp := false, popupQueued := false, watched := false, child := false, socket := false)
  }

  function PoppedWindows(ws: seq<WindowState>, i: nat): (r: seq<WindowState>)
    requires i < |ws|
    ensures |r| == |ws|
  {
    seq(|ws|, j requires 0 <= j < |ws| =>
      (if j == i then PoppedDown(ws[j]) else ws[j]).(sensitive := ws[j].sensitive || ws[i].dialogUp))
  }

  /** What the seven assignments of popping down come to. */
  lemma PopdownForm(s: State, i: nat)
    requires i < |s.manager.windows|
    ensures var m := s.manager;
            Popdown(s, i) == s.(manager := m.(dialogUp := m.dialogUp && !m.windows[i].dialogUp,
                                              windows := PoppedWindows(m.windows, i)))
  {
    var r := Popdown(s, i);
    assert r.manager.windows == PoppedWindows(s.manager.windows, i);
  }

  lemma PopdownKeeps(s: State, i: nat)
    requires i < |s.manager.windows| && Core(s)
    ensures Core(Popdown(s, i)) && !Popdown(s, i).manager.windows[i].dialogUp
  {
    PopdownForm(s, i);
    var r := Popdown(s, i);
    if !s.manager.windows[i].dialogUp && r.manager.dialogUp {
      var k :| 0 <= k < |s.manager.windows| && s.manager.windows[k].dialogUp;
      assert r.manager.windows[k].dialogUp;
    }
  }

  /** Only the dialogs change. */
  predicate OnlyDialogs(s: State, r: State) {
    var m, n := s.manager, r.manager;
    && r == s.(manager := m.(dialogUp := n.dialogUp, windows := n.windows))
    && |n.windows| == |m.windows|
    && forall j :: 0 <= j < |m.windows| ==> n.windows[j].monitor == m.windows[j].monitor
  }

  predicate SameDeactivations(m: ManagerState, n: ManagerState) {
    && n.deactivations == m.deactivations
    && |n.windows| <= |m.windows|
    && forall j :: 0 <= j < |n.windows| ==> n.windows[j].deactivations == m.windows[j].deactivations
  }

  /** The dialog goes to the last window on the pointer's monitor, and to the first window if no
      window is there. */
  lemma {:induction false} WindowAtIsLast(ws: seq<WindowState>, p: int)
    requires ws != []
    ensures var i := WindowAt(ws, p);
            if exists j :: 0 <= j < |ws| && ws[j].monitor == p
            then ws[i].monitor == p && forall j :: i < j < |ws| ==> ws[j].monitor != p
            else i == 0
  {
    var last := |ws| - 1;
    if last > 0 {
      WindowAtIsLast(ws[..last], p);
      assert forall j :: 0 <= j < last ==> ws[..last][j] == ws[j];
    }
  }

  /** With the lock on, a request that finds no dialog puts one up; nothing is queued. */
  lemma RequestUnlockKeeps(s: State, p: int)
    requires Core(s)
    ensures var r := RequestUnlock(s, p);
            && Core(r) && OnlyDialogs(s, r)
            && (s.manager.active && s.manager.lockActive ==>
                  && SameDeactivations(s.manager, r.manager)
                  && (s.manager.windows != [] ==> r.manager.dialogUp))
  {
    var m := s.manager;
    if m.active && !m.dialogUp && m.windows != [] {
      var i := WindowAt(m.windows, p);
      assert !m.windows[i].dialogUp;
      var r := RequestUnlock(s, p);
      if m.lockActive {
        assert r.manager.windows[i].dialogUp;
      }
    }
  }

  lemma {:induction false} CancelUnlocksKeeps(s: State, i: nat)
    requires i <= |s.manager.windows| && Core(s)
    requires forall j :: 0 <= j < i ==> !s.manager.windows[j].dialogUp
    ensures var r := CancelUnlocks(s, i);
            && Core(r) && !r.manager.dialogUp && OnlyDialogs(s, r) && SameDeactivations(s.manager, r.manager)
    decreases |s.manager.windows| - i
  {
    if i < |s.manager.windows| {
      PopdownForm(s, i);
      PopdownKeeps(s, i);
      CancelUnlocksKeeps(Popdown(s, i), i + 1);
    }
  }

  lemma RemoveClosedWindow(m: ManagerState, i: nat, r: ManagerState)
    requires i < |m.windows| && DialogsMatch(m) && !m.windows[i].dialogUp
    requires WindowsReady(m) && ResponsesPending(m)
    requires r == m.(windows := m.windows[..i] + m.windows[i + 1..])
    ensures DialogsMatch(r) && WindowsReady(r) && ResponsesPending(r)
    ensures forall j :: 0 <= j < i ==> r.windows[j] == m.windows[j]
    ensures forall j :: i <= j < |r.windows| ==> r.windows[j] == m.windows[j + 1]
  {
    var ws, rs := m.windows, r.windows;
    assert forall j :: 0 <= j < i ==> rs[j] == ws[j];
    assert forall j :: i <= j < |rs| ==> rs[j] == ws[j + 1];
    if m.dialogUp {
      var k :| 0 <= k < |ws| && ws[k].dialogUp;
      assert rs[if k < i then k else k - 1].dialogUp;
    }
  }

  /** The dialog is popped down, the window is taken out, and the others keep everything but their
      sensitivity. */
  lemma DestroyWindowForm(s: State, i: nat)
    requires i < |s.manager.windows|
    ensures var m, ws := s.manager, PoppedWindows(s.manager.windows, i);
            DestroyWindow(s, i) == s.(manager := m.(dialogUp := m.dialogUp && !m.windows[i].dialogUp,
                                                    windows := ws[..i] + ws[i + 1..]))
    ensures var ws, rs := s.manager.windows, DestroyWindow(s, i).manager.windows;
            && |rs| == |ws| - 1
            && forall j :: 0 <= j < |rs| ==> rs[j] == ws[if j < i then j else j + 1].(sensitive := rs[j].sensitive)
  {
    PopdownForm(s, i);
  }

  lemma DestroyWindowKeeps(s: State, i: nat)
    requires i < |s.manager.windows| && Core(s)
    ensures var r := DestroyWindow(s, i);
            var m, n := s.manager, r.manager;
            && Core(r)
            && r == s.(manager := m.(dialogUp := n.dialogUp, windows := n.windows))
            && (forall j :: 0 <= j < i ==>
                  n.windows[j].monitor == m.windows[j].monitor
                  && n.windows[j].deactivations == m.windows[j].deactivations)
            && (forall j :: i <= j < |n.windows| ==> n.windows[j].monitor == m.windows[j + 1].monitor)
  {
    PopdownForm(s, i);
    PopdownKeeps(s, i);
    RemoveClosedWindow(Popdown(s, i).manager, i, DestroyWindow(s, i).manager);
  }

  /** Unplugging removes exactly the windows of the monitors that are gone. */
  lemma {:induction false} DestroyExtraWindowsKeeps(s: State, n: nat, i: nat)
    requires Core(s) && i <= |s.manager.windows| && i <= n
    requires forall j :: 0 <= j < i ==> s.manager.windows[j].monitor == j
    requires forall j :: i <= j < |s.manager.windows| ==>
               if j < n then s.manager.windows[j].monitor == j else s.manager.windows[j].monitor >= n
    ensures var r := DestroyExtraWindows(s, n, i);
            && Core(r)
            && r == s.(manager := s.manager.(dialogUp := r.manager.dialogUp, windows := r.manager.windows))
            && SameDeactivations(s.manager, r.manager)
            && InOrder(r.manager, if |s.manager.windows| < n then |s.manager.windows| else n)
    decreases |s.manager.windows| - i
  {
    if i < |s.manager.windows| {
      if s.manager.windows[i].monitor >= n {
        DestroyWindowKeeps(s, i);
        DestroyExtraWindowsKeeps(DestroyWindow(s, i), n, i);
      } else {
        DestroyExtraWindowsKeeps(s, n, i + 1);
      }
    }
  }

  // ---------------------------------------------------------------- showing windows

  predicate OneTimer(s: State) {
    && s.manager.timerId < s.loop.nextId
    && s.loop.timers.Keys == (if s.manager.timerId == 0 then {} else {s.manager.timerId})
  }

  function NewWindows(k: nat, n: nat, lock: bool, visible: bool): (r: seq<WindowState>)
    requires k <= n
    ensures |r| == n - k
  {
    seq(n - k, i requires 0 <= i < n - k => FreshWindow(k + i, lock).(visible := visible))
  }

  /** The state after showing some windows one after the other: each restarted the timer. */
  function Shown(s: State, ws: seq<WindowState>, count: nat): State
    requires s.loop.nextId + count > 0
  {
    var id := s.loop.nextId + count - 1;
    if count == 0 then s.(manager := s.manager.(windows := ws)) else
    s.(manager := s.manager.(windows := ws, activateTime := s.loop.now / 1000, timerId := id),
       loop := LoopState(s.loop.now, map[id := s.loop.now + s.manager.lockTimeout], id + 1))
  }

  lemma RestartTimer(s: State)
    requires OneTimer(s) && 0 <= s.manager.lockTimeout < UINT_RANGE
    ensures var id, due := s.loop.nextId, s.loop.now + s.manager.lockTimeout;
            AddLockTimer(RemoveLockTimer(s), s.manager.lockTimeout)
            == s.(manager := s.manager.(timerId := id), loop := LoopState(s.loop.now, map[id := due], id + 1))
  {
    assert RemoveLockTimer(s).loop.timers == map[];
  }

  lemma ShowWindowForm(s: State, i: nat)
    requires i < |s.manager.windows| && !s.manager.windows[i].visible
    requires OneTimer(s) && 0 <= s.manager.lockTimeout < UINT_RANGE
    ensures var ws := s.manager.windows;
            ShowWindow(s, i) == Shown(s, ws[i := ws[i].(visible := true)], 1)
            && OneTimer(ShowWindow(s, i))
  {
    var s1 := SetWindow(s, i, s.manager.windows[i].(visible := true));
    RestartTimer(s1.(manager := s1.manager.(activateTime := s.loop.now / 1000)));
  }

  lemma ShownTwice(s: State, ws1: seq<WindowState>, ws2: seq<WindowState>, n: nat)
    ensures ws1 == ws2 || n > 0 ==> Shown(Shown(s, ws1, 1), ws2, n) == Shown(s, ws2, n + 1)
  {
  }

  lemma {:induction false} ShowWindowsForm(s: State, i: nat)
    requires i <= |s.manager.windows|
    requires forall j :: i <= j < |s.manager.windows| ==> !s.manager.windows[j].visible
    requires OneTimer(s) && 0 <= s.manager.lockTimeout < UINT_RANGE
    ensures var ws, r := s.manager.windows, ShowWindows(s, i);
            && |r.manager.windows| == |ws|
            && (forall j :: 0 <= j < i ==> r.manager.windows[j] == ws[j])
            && (forall j :: i <= j < |ws| ==> r.manager.windows[j] == ws[j].(visible := true))
            && r == Shown(s, r.manager.windows, |ws| - i)
            && OneTimer(r)
    decreases |s.manager.windows| - i
  {
    var ws := s.manager.windows;
    if i < |ws| {
      ShowWindowForm(s, i);
      ShowWindowsForm(ShowWindow(s, i), i + 1);
      ShownTwice(s, ws[i := ws[i].(visible := true)], ShowWindows(s, i).manager.windows, |ws| - i - 1);
    } else {
      assert s == Shown(s, ws, 0);
    }
  }

  lemma {:induction false} CreateHiddenForm(s: State, k: nat, n: nat)
    requires k <= n && !s.manager.active
    ensures CreateWindows(s, k, n)
         == s.(manager := s.manager.(windows := s.manager.windows + NewWindows(k, n, s.manager.lockActive, false)))
    decreases n - k
  {
    var m := s.manager;
    if k < n {
      CreateHiddenForm(CreateWindow(s, k), k + 1, n);
      FirstNewWindow(m.windows, k, n, m.lockActive, false);
    } else {
      assert m.windows + NewWindows(k, n, m.lockActive, false) == m.windows;
    }
  }

  lemma CreateWindowForm(s: State, k: nat)
    requires s.manager.active && OneTimer(s) && 0 <= s.manager.lockTimeout < UINT_RANGE
    ensures var w := FreshWindow(k, s.manager.lockActive).(visible := true);
            CreateWindow(s, k) == Shown(s, s.manager.windows + [w], 1) && OneTimer(CreateWindow(s, k))
  {
    var m := s.manager;
    var w := FreshWindow(k, m.lockActive);
    ShowWindowForm(s.(manager := m.(windows := m.windows + [w])), |m.windows|);
    assert (m.windows + [w])[|m.windows| := w.(visible := true)] == m.windows + [w.(visible := true)];
  }

  lemma FirstNewWindow(ws: seq<WindowState>, k: nat, n: nat, lock: bool, visible: bool)
    requires k < n
    ensures ws + NewWindows(k, n, lock, visible)
         == ws + [FreshWindow(k, lock).(visible := visible)] + NewWindows(k + 1, n, lock, visible)
  {
  }

  lemma {:induction false} CreateShownForm(s: State, k: nat, n: nat)
    requires k <= n && s.manager.active
    requires OneTimer(s) && 0 <= s.manager.lockTimeout < UINT_RANGE
    ensures CreateWindows(s, k, n)
         == Shown(s, s.manager.windows + NewWindows(k, n, s.manager.lockActive, true), n - k)
    ensures OneTimer(CreateWindows(s, k, n))
    decreases n - k
  {
    var ws, lock := s.manager.windows, s.manager.lockActive;
    var w := FreshWindow(k, lock).(visible := true);
    if k < n {
      CreateWindowForm(s, k);
      CreateShownForm(CreateWindow(s, k), k + 1, n);
      FirstNewWindow(ws, k, n, lock, true);
      if k + 1 == n {
        assert ws + NewWindows(k, n, lock, true) == ws + [w];
      }
      ShownTwice(s, ws + [w], ws + NewWindows(k, n, lock, true), n - k - 1);
    } else {
      assert ws + NewWindows(k, n, lock, true) == ws;
    }
  }

  lemma ShowNewWindows(s: State, n: nat)
    requires s.manager.windows == NewWindows(0, n, s.manager.lockActive, false)
    requires OneTimer(s) && 0 <= s.manager.lockTimeout < UINT_RANGE
    ensures ShowWindows(s, 0) == Shown(s, NewWindows(0, n, s.manager.lockActive, true), n)
  {
    ShowWindowsForm(s, 0);
    assert ShowWindows(s, 0).manager.windows == NewWindows(0, n, s.manager.lockActive, true);
  }

  /** Activation of a screen that has no windows, in one step. */
  lemma ActivateForm(s: State)
    requires !s.manager.active && s.manager.windows == [] && s.monitors > 0
    requires OneTimer(s) && 0 <= s.manager.lockTimeout < UINT_RANGE
    ensures var on := s.(manager := s.manager.(active := true));
            Activate(s, true) == (Shown(on, NewWindows(0, s.monitors, s.manager.lockActive, true), s.monitors), true)
  {
    var lock, n := s.manager.lockActive, s.monitors;
    CreateHiddenForm(s, 0, n);
    assert [] + NewWindows(0, n, lock, false) == NewWindows(0, n, lock, false);
    var s1 := CreateWindows(s, 0, n);
    ShowNewWindows(s1.(manager := s1.manager.(active := true)), n);
  }
}
