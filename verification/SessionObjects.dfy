/** The objects of the lock protocol, with their fields and their nested signal handlers.

    Every method is proved against the state machine of module Session: if the objects show state
    s before the call, they show the state the specification gives after it. The state s is a
    ghost argument, so that a handler deep inside a dispatch can say which state it started in. */
module SessionObjects {
  import opened Session
  import opened Options
  import opened Wire
  import opened SessionFrames
  import SessionInvariant

  /** What GLib and GDK provide: the clock, the timeout sources and the number of monitors. */
  class World {
    var now: nat
    var timers: map<nat, int>
    var nextId: nat
    var monitors: nat

    constructor (now: nat, monitors: nat)
      ensures View() == LoopState(now, map[], 1) && this.monitors == monitors
    {
      this.now, timers, nextId, this.monitors := now, map[], 1, monitors;
    }

    function View(): LoopState
      reads this
    {
      LoopState(now, timers, nextId)
    }

    /** g_timeout_add; the delay arrives as an unsigned 32-bit number. */
    method AddTimeout(delay: int) returns (id: nat)
      modifies this
      ensures id == old(nextId) && monitors == old(monitors)
      ensures View() == LoopState(old(now), old(timers)[id := old(now) + delay % UINT_RANGE], id + 1)
    {
      id := nextId;
      timers := timers[id := now + delay % UINT_RANGE];
      nextId := nextId + 1;
    }

    method RemoveSource(id: nat)
      modifies this
      ensures View() == old(View()).(timers := old(timers) - {id}) && monitors == old(monitors)
    {
      timers := timers - {id};
    }
  }

  class Window {
    const monitor: int
    var visible: bool
    var sensitive: bool
    var lockEnabled: bool
    var dialogUp: bool
    var popupQueued: bool
    var watched: bool
    var child: bool
    var socket: bool
    var responseOk: bool
    var deactivations: nat

    constructor (monitor: int, lock: bool)
      ensures View() == FreshWindow(monitor, lock)
    {
      this.monitor := monitor;
      visible, sensitive, lockEnabled, dialogUp := false, true, lock, false;
      popupQueued, watched, child, socket, responseOk, deactivations := false, false, false, false, false, 0;
    }

    function View(): WindowState
      reads this
    {
      WindowState(monitor, visible, sensitive, lockEnabled, dialogUp, popupQueued, watched, child, socket,
                  responseOk, deactivations)
    }

    method SetLockEnabled(lock: bool)
      modifies this`lockEnabled
      ensures lockEnabled == lock
    {
      if lockEnabled != lock {
        lockEnabled := lock;
      }
    }

    /** window_set_dialog_up; the notification reaches the manager before it returns. */
    method SetDialogUp(up: bool, manager: Manager, ghost k: nat, ghost s: State)
      requires manager.Valid() && manager.Shows(s) && k < |manager.windows| && manager.windows[k] == this
      modifies manager, manager.windows
      ensures manager.Kept(old(manager.windows))
      ensures manager.Shows(Session.SetDialogUp(s, k, up))
    {
      if dialogUp == up {
        return;
      }
      MarkDialog(up, manager, k, s);
      if up {
        manager.HandleDialogUp(this, k);
      } else {
        manager.HandleDialogDown();
      }
    }

    method MarkDialog(up: bool, manager: Manager, ghost k: nat, ghost s: State)
      requires manager.Valid() && manager.Shows(s) && k < |manager.windows| && manager.windows[k] == this
      modifies this`dialogUp
      ensures manager.Shows(SetWindow(s, k, s.manager.windows[k].(dialogUp := up)))
    {
      dialogUp := up;
      manager.ShowsWindow(k, s);
    }

    /** The child is signalled and waited for. */
    method DialogFinish(manager: Manager, ghost k: nat, ghost s: State)
      requires manager.Valid() && manager.Shows(s) && k < |manager.windows| && manager.windows[k] == this
      modifies this`child
      ensures manager.Shows(SetWindow(s, k, s.manager.windows[k].(child := false)))
    {
      child := false;
      manager.ShowsWindow(k, s);
    }

    /** The socket goes with its box, and the idle source and the watch are removed. */
    method RemoveSources(manager: Manager, ghost k: nat, ghost s: State)
      requires manager.Valid() && manager.Shows(s) && k < |manager.windows| && manager.windows[k] == this
      modifies this`socket, this`popupQueued, this`watched
      ensures var w := s.manager.windows[k];
              manager.Shows(SetWindow(s, k, w.(socket := false, popupQueued := false, watched := false)))
    {
      socket, popupQueued, watched := false, false, false;
      manager.ShowsWindow(k, s);
    }

    method AddEmitDeactivatedIdle(manager: Manager, ghost k: nat, ghost s: State)
      requires manager.Valid() && manager.Shows(s) && k < |manager.windows| && manager.windows[k] == this
      modifies this`deactivations
      ensures manager.Shows(QueueDeactivation(s, k))
    {
      deactivations := deactivations + 1;
      manager.ShowsWindow(k, s);
    }

    method AddPopupDialogIdle(manager: Manager, ghost k: nat, ghost s: State)
      requires manager.Valid() && manager.Shows(s) && k < |manager.windows| && manager.windows[k] == this
      modifies this`popupQueued
      ensures manager.Shows(SetWindow(s, k, s.manager.windows[k].(popupQueued := true)))
    {
      if !popupQueued {
        popupQueued := true;
      }
      manager.ShowsWindow(k, s);
    }

    method CreateLockSocket(manager: Manager, ghost k: nat, ghost s: State)
      requires manager.Valid() && manager.Shows(s) && k < |manager.windows| && manager.windows[k] == this
      modifies this`socket
      ensures manager.Shows(SetWindow(s, k, s.manager.windows[k].(socket := true)))
    {
      socket := true;
      manager.ShowsWindow(k, s);
    }

    method SetResponse(ok: bool, manager: Manager, ghost k: nat, ghost s: State)
      requires manager.Valid() && manager.Shows(s) && k < |manager.windows| && manager.windows[k] == this
      modifies this`responseOk
      ensures manager.Shows(SetWindow(s, k, s.manager.windows[k].(responseOk := ok)))
    {
      responseOk := ok;
      manager.ShowsWindow(k, s);
    }

    /** popup_dialog_idle: the dialog is spawned and watched, then the idle source is gone. */
    method PopupDialogIdle(manager: Manager, ghost k: nat, ghost s: State)
      requires manager.Valid() && manager.Shows(s) && k < |manager.windows| && manager.windows[k] == this
      modifies this`child, this`watched, this`popupQueued
      ensures var w := s.manager.windows[k];
              manager.Shows(SetWindow(s, k, w.(popupQueued := false, watched := true, child := true)))
    {
      child, watched := true, true;
      popupQueued := false;
      manager.ShowsWindow(k, s);
    }

    method LockPlugRemoved(manager: Manager, ghost k: nat, ghost s: State)
      requires manager.Valid() && manager.Shows(s) && k < |manager.windows| && manager.windows[k] == this
      modifies this`socket
      ensures manager.Shows(SetWindow(s, k, s.manager.windows[k].(socket := false)))
    {
      socket := false;
      manager.ShowsWindow(k, s);
    }

    method TakeDeactivation(manager: Manager, ghost k: nat, ghost s: State)
      requires manager.Valid() && manager.Shows(s) && k < |manager.windows| && manager.windows[k] == this
      requires deactivations > 0
      modifies this`deactivations
      ensures var w := s.manager.windows[k];
              manager.Shows(SetWindow(s, k, w.(deactivations := w.deactivations - 1)))
    {
      deactivations := deactivations - 1;
      manager.ShowsWindow(k, s);
    }

    method Popdown(manager: Manager, ghost k: nat, ghost s: State)
      requires manager.Valid() && manager.Shows(s) && k < |manager.windows| && manager.windows[k] == this
      modifies manager, manager.windows
      ensures manager.Kept(old(manager.windows))
      ensures manager.Shows(Session.Popdown(s, k))
    {
      DialogFinish(manager, k, s);
      ghost var s1 := SetWindow(s, k, s.manager.windows[k].(child := false));
      SetDialogUp(false, manager, k, s1);
      RemoveSources(manager, k, Session.SetDialogUp(s1, k, false));
    }

    method RequestUnlock(manager: Manager, ghost k: nat, ghost s: State)
      requires manager.Valid() && manager.Shows(s) && k < |manager.windows| && manager.windows[k] == this
      modifies manager, manager.windows
      ensures manager.Kept(old(manager.windows))
      ensures manager.Shows(WindowRequestUnlock(s, k))
    {
      if !visible || watched {
        return;
      }
      if !lockEnabled {
        AddEmitDeactivatedIdle(manager, k, s);
        return;
      }
      AddPopupDialogIdle(manager, k, s);
      SetDialogUp(true, manager, k, SetWindow(s, k, s.manager.windows[k].(popupQueued := true)));
    }

    /** The end of lock_command_watch: the dialog is gone, and an OK asks for deactivation. */
    method Finish(manager: Manager, ghost k: nat, ghost s: State)
      requires manager.Valid() && manager.Shows(s) && k < |manager.windows| && manager.windows[k] == this
      modifies manager, manager.windows
      ensures manager.Kept(old(manager.windows))
      ensures manager.Shows(FinishDialog(s, k))
    {
      Popdown(manager, k, s);
      if responseOk {
        AddEmitDeactivatedIdle(manager, k, Session.Popdown(s, k));
      }
    }

    method ReadLine(line: string, manager: Manager, ghost k: nat, ghost s: State)
      requires manager.Valid() && manager.Shows(s) && k < |manager.windows| && manager.windows[k] == this
      modifies manager, manager.windows
      ensures manager.Kept(old(manager.windows))
      ensures manager.Shows(Answer(s, k, Interpret(line)))
    {
      var said := Interpret(line);
      if said.Some? {
        if said.value.WindowId? {
          CreateLockSocket(manager, k, s);
        } else if said.value.ResponseOk? || said.value.ResponseCancel? {
          var ok := said.value.ResponseOk?;
          SetResponse(ok, manager, k, s);
          Finish(manager, k, SetWindow(s, k, s.manager.windows[k].(responseOk := ok)));
        }
      }
    }
  }

  class Manager {
    const world: World
    var active: bool
    var lockActive: bool
    var lockEnabled: bool
    var dialogUp: bool
    var lockTimeout: int
    var activateTime: int
    var lockTimeoutId: nat
    var windows: seq<Window>
    var deactivations: nat

    constructor (world: World)
      ensures Valid() && this.world == world && windows == []
      ensures View() == ManagerState(false, false, false, false, 0, 0, 0, [], 0)
    {
      this.world := world;
      active, lockActive, lockEnabled, dialogUp := false, false, false, false;
      lockTimeout, activateTime, lockTimeoutId, windows, deactivations := 0, 0, 0, [], 0;
    }

    ghost predicate Valid()
      reads this
    {
      forall i, j :: 0 <= i < j < |windows| ==> windows[i] != windows[j]
    }

    ghost function Views(): (r: seq<WindowState>)
      reads this, windows
      ensures |r| == |windows| && forall i :: 0 <= i < |r| ==> r[i] == windows[i].View()
    {
      seq(|windows|, i requires 0 <= i < |windows| reads this, windows => windows[i].View())
    }

    ghost function View(): ManagerState
      reads this, windows
    {
      ManagerState(active, lockActive, lockEnabled, dialogUp, lockTimeout, activateTime, lockTimeoutId,
                   Views(), deactivations)
    }

    /** The manager, its windows and the main loop show state s. */
    ghost predicate Shows(s: State)
      reads this, windows, world
    {
      s.manager == View() && s.loop == world.View() && s.monitors == world.monitors
    }

    /** The same windows as before. */
    ghost predicate Kept(ws: seq<Window>)
      reads this
    {
      Valid() && windows == ws
    }

    /** The objects show s but for window k, which may look different by now. */
    lemma ShowsWindow(k: nat, s: State)
      requires |s.manager.windows| == |windows| && k < |windows|
      requires View().(windows := []) == s.manager.(windows := [])
      requires forall j :: 0 <= j < |windows| && j != k ==> windows[j].View() == s.manager.windows[j]
      requires s.loop == world.View() && s.monitors == world.monitors
      ensures Shows(SetWindow(s, k, windows[k].View()))
    {
      assert Views() == s.manager.windows[k := windows[k].View()];
    }

    method HandleDialogUp(window: Window, ghost k: nat)
      requires Valid() && k < |windows| && windows[k] == window
      modifies this`dialogUp, windows`sensitive
      ensures dialogUp && Views() == SensitiveOnly(old(Views()), k)
    {
      dialogUp := true;
      for i := 0 to |windows|
        invariant dialogUp
        invariant forall j :: i <= j < |windows| ==> windows[j].sensitive == old(windows[j].sensitive)
        invariant forall j :: 0 <= j < i ==> windows[j].sensitive == (j == k && old(windows[j].sensitive))
      {
        if windows[i] != window {
          windows[i].sensitive := false;
        }
      }
    }

    method HandleDialogDown()
      requires Valid()
      modifies this`dialogUp, windows`sensitive
      ensures !dialogUp && Views() == AllSensitive(old(Views()))
    {
      for i := 0 to |windows|
        invariant forall j :: 0 <= j < i ==> windows[j].sensitive
      {
        windows[i].sensitive := true;
      }
      dialogUp := false;
    }

    // -------------------------------------------------------------- lock flag and lock timer

    method SetLockActive(lock: bool, ghost s: State)
      requires Valid() && Shows(s)
      modifies this`lockActive, windows
      ensures Shows(Session.SetLockActive(s, lock))
    {
      if lockActive != lock {
        lockActive := lock;
        for i := 0 to |windows|
          invariant lockActive == lock
          invariant forall j :: i <= j < |windows| ==> windows[j].View() == s.manager.windows[j]
          invariant forall j :: 0 <= j < i ==> windows[j].View() == s.manager.windows[j].(lockEnabled := lock)
        {
          windows[i].SetLockEnabled(lock);
        }
        assert Views() == SetLocks(s.manager.windows, lock);
      }
    }

    method SetLockEnabled(lock: bool, ghost s: State)
      requires Valid() && Shows(s)
      modifies this`lockEnabled
      ensures Shows(s.(manager := s.manager.(lockEnabled := lock)))
    {
      if lockEnabled != lock {
        lockEnabled := lock;
      }
    }

    method RemoveLockTimer(ghost s: State)
      requires Valid() && Shows(s)
      modifies this`lockTimeoutId, world
      ensures Shows(Session.RemoveLockTimer(s))
    {
      if lockTimeoutId != 0 {
        world.RemoveSource(lockTimeoutId);
        lockTimeoutId := 0;
      }
    }

    method AddLockTimer(delay: int, ghost s: State)
      requires Valid() && Shows(s)
      modifies this`lockTimeoutId, world
      ensures Shows(Session.AddLockTimer(s, delay))
    {
      lockTimeoutId := world.AddTimeout(delay);
    }

    method ActivateLockTimeout(ghost s: State)
      requires Valid() && Shows(s)
      modifies this`lockActive, this`lockTimeoutId, windows
      ensures Shows(Session.ActivateLockTimeout(s))
    {
      if lockEnabled {
        SetLockActive(true, s);
      }
      lockTimeoutId := 0;
    }

    method SetLockTimeout(timeout: int, ghost s: State)
      requires Valid() && Shows(s)
      modifies this`lockTimeout, this`lockActive, this`lockTimeoutId, windows, world
      ensures Shows(Session.SetLockTimeout(s, timeout))
    {
      if lockTimeout != timeout {
        lockTimeout := timeout;
        ghost var s1 := s.(manager := s.manager.(lockTimeout := timeout));
        if active && !lockActive && timeout >= 0 {
          var elapsed := (world.now / 1000 - activateTime) * 1000;
          RemoveLockTimer(s1);
          if elapsed >= timeout {
            ActivateLockTimeout(Session.RemoveLockTimer(s1));
          } else {
            AddLockTimer(timeout - elapsed, Session.RemoveLockTimer(s1));
          }
        }
      }
    }

    // -------------------------------------------------------------- showing and creating windows

    /** The handler of a window's show signal. */
    method ManagerShowWindow(ghost s: State)
      requires Valid() && Shows(s)
      modifies this`activateTime, this`lockTimeoutId, world
      ensures var s1 := s.(manager := s.manager.(activateTime := s.loop.now / 1000));
              Shows(if s1.manager.lockTimeout >= 0
                    then Session.AddLockTimer(Session.RemoveLockTimer(s1), s1.manager.lockTimeout) else s1)
    {
      activateTime := world.now / 1000;
      ghost var s1 := s.(manager := s.manager.(activateTime := s.loop.now / 1000));
      if lockTimeout >= 0 {
        RemoveLockTimer(s1);
        AddLockTimer(lockTimeout, Session.RemoveLockTimer(s1));
      }
    }

    /** gtk_widget_show: the signal is emitted for hidden windows only. */
    method ShowWindow(k: nat, ghost s: State)
      requires Valid() && Shows(s) && k < |windows|
      modifies this`activateTime, this`lockTimeoutId, world, windows
      ensures Shows(Session.ShowWindow(s, k))
    {
      if !windows[k].visible {
        windows[k].visible := true;
        ShowsWindow(k, s);
        ManagerShowWindow(SetWindow(s, k, s.manager.windows[k].(visible := true)));
      }
    }

    method ShowWindows(ghost s: State)
      requires Valid() && Shows(s)
      modifies this`activateTime, this`lockTimeoutId, world, windows
      ensures Shows(Session.ShowWindows(s, 0))
    {
      ghost var t, goal := s, Session.ShowWindows(s, 0);
      for i := 0 to |windows|
        invariant Shows(t) && Session.ShowWindows(t, i) == goal
      {
        ShowWindow(i, t);
        t := Session.ShowWindow(t, i);
      }
    }

    method CreateWindowForMonitor(k: nat, ghost s: State)
      requires Valid() && Shows(s)
      modifies this, world, windows
      ensures Valid() && Shows(Session.CreateWindow(s, k))
      ensures |windows| == |old(windows)| + 1 && fresh(windows[|old(windows)|])
      ensures forall j :: 0 <= j < |old(windows)| ==> windows[j] == old(windows)[j]
    {
      var window := new Window(k, lockActive);
      windows := windows + [window];
      ghost var m := s.manager;
      ghost var s1 := s.(manager := m.(windows := m.windows + [FreshWindow(k, m.lockActive)]));
      assert Views() == s1.manager.windows;
      if active {
        ShowWindow(|windows| - 1, s1);
      }
    }

    method CreateWindows(k: nat, n: nat, ghost s: State)
      requires Valid() && Shows(s)
      modifies this, world, windows
      ensures Valid() && Shows(Session.CreateWindows(s, k, n))
      ensures |old(windows)| <= |windows| && forall j :: 0 <= j < |old(windows)| ==> windows[j] == old(windows)[j]
      ensures forall j :: |old(windows)| <= j < |windows| ==> fresh(windows[j])
    {
      ghost var t, goal := s, Session.CreateWindows(s, k, n);
      var i := k;
      while i < n
        invariant Valid() && Shows(t) && Session.CreateWindows(t, i, n) == goal
        invariant |old(windows)| <= |windows| && forall j :: 0 <= j < |old(windows)| ==> windows[j] == old(windows)[j]
        invariant forall j :: |old(windows)| <= j < |windows| ==> fresh(windows[j])
        decreases n - i
      {
        CreateWindowForMonitor(i, t);
        t := Session.CreateWindow(t, i);
        i := i + 1;
      }
    }

    // -------------------------------------------------------------- dialogs

    /** find_window_at_pointer: the last window on the pointer's monitor, or the first window. */
    method FindWindowAtPointer(pointer: int) returns (k: nat)
      requires windows != []
      ensures k == WindowAt(Views(), pointer)
    {
      var found, best := false, 0;
      for i := 0 to |windows|
        invariant best < |windows|
        invariant if found then windows[best].monitor == pointer else best == 0
        invariant forall j :: (if found then best + 1 else 0) <= j < i ==> windows[j].monitor != pointer
      {
        if windows[i].monitor == pointer {
          found, best := true, i;
        }
      }
      SessionInvariant.WindowAtIsLast(Views(), pointer);
      assert found ==> Views()[best].monitor == pointer;
      k := best;
    }

    method RequestUnlock(pointer: int, ghost s: State)
      requires Valid() && Shows(s)
      modifies this, windows
      ensures Kept(old(windows)) && Shows(Session.RequestUnlock(s, pointer))
    {
      if !active || dialogUp || windows == [] {
        return;
      }
      var k := FindWindowAtPointer(pointer);
      windows[k].RequestUnlock(this, k, s);
    }

    method CancelUnlockRequests(ghost s: State)
      requires Valid() && Shows(s)
      modifies this, windows
      ensures Kept(old(windows)) && Shows(CancelUnlocks(s, 0))
    {
      ghost var t, goal := s, CancelUnlocks(s, 0);
      var i := 0;
      while i < |windows|
        invariant Kept(old(windows)) && 0 <= i <= |windows|
        invariant Shows(t) && CancelUnlocks(t, i) == goal
      {
        windows[i].Popdown(this, i, t);
        t := Session.Popdown(t, i);
        i := i + 1;
      }
    }

    /** window_deactivated_cb: the monitor hears of it from an idle callback. */
    method WindowDeactivated(ghost s: State)
      requires Valid() && Shows(s)
      modifies this`deactivations
      ensures Shows(s.(manager := s.manager.(deactivations := s.manager.deactivations + 1)))
    {
      deactivations := deactivations + 1;
    }

    method TakeDeactivation(ghost s: State)
      requires Valid() && Shows(s) && deactivations > 0
      modifies this`deactivations
      ensures Shows(s.(manager := s.manager.(deactivations := s.manager.deactivations - 1)))
    {
      deactivations := deactivations - 1;
    }

    // -------------------------------------------------------------- destroying windows

    method DestroyWindow(i: nat, ghost s: State)
      requires Valid() && Shows(s) && i < |windows|
      modifies this, windows
      ensures Valid() && |windows| == |old(windows)| - 1
      ensures forall j :: 0 <= j < |windows| ==> windows[j] == old(windows)[if j < i then j else j + 1]
      ensures Shows(Session.DestroyWindow(s, i))
    {
      windows[i].Popdown(this, i, s);
      DeleteLink(i, Session.Popdown(s, i));
    }

    method DeleteLink(i: nat, ghost s: State)
      requires Valid() && Shows(s) && i < |windows|
      modifies this`windows
      ensures Valid() && |windows| == |old(windows)| - 1
      ensures forall j :: 0 <= j < |windows| ==> windows[j] == old(windows)[if j < i then j else j + 1]
      ensures var ws := s.manager.windows;
              Shows(s.(manager := s.manager.(windows := ws[..i] + ws[i + 1..])))
    {
      windows := windows[..i] + windows[i + 1..];
      assert Views() == s.manager.windows[..i] + s.manager.windows[i + 1..];
    }

    method DestroyExtraWindows(n: nat, ghost s: State)
      requires Valid() && Shows(s)
      modifies this, windows
      ensures Valid() && Shows(Session.DestroyExtraWindows(s, n, 0))
      ensures forall j :: 0 <= j < |windows| ==> windows[j] in old(windows)
    {
      ghost var t, goal := s, Session.DestroyExtraWindows(s, n, 0);
      var i := 0;
      while i < |windows|
        invariant Valid() && 0 <= i <= |windows|
        invariant Shows(t) && Session.DestroyExtraWindows(t, n, i) == goal
        invariant forall j :: 0 <= j < |windows| ==> windows[j] in old(windows)
        decreases |windows| - i
      {
        if windows[i].monitor >= n {
          DestroyWindow(i, t);
          t := Session.DestroyWindow(t, i);
        } else {
          i := i + 1;
        }
      }
    }

    /** All windows go; their notifications only touch what goes with them. */
    method DestroyWindows(ghost s: State)
      requires Valid() && Shows(s)
      modifies this, windows
      ensures Valid() && windows == []
      ensures Shows(s.(manager := s.manager.(windows := [], dialogUp := dialogUp)))
    {
      ghost var t, goal := s, CancelUnlocks(s, 0);
      var i := 0;
      while i < |windows|
        invariant Kept(old(windows)) && 0 <= i <= |windows|
        invariant Shows(t) && CancelUnlocks(t, i) == goal
      {
        windows[i].Popdown(this, i, t);
        t := Session.Popdown(t, i);
        i := i + 1;
      }
      CancelUnlocksFrame(s, 0);
      windows := [];
    }

    // -------------------------------------------------------------- activation and hot-plug

    method Activate(grab: bool, ghost s: State) returns (res: bool)
      requires Valid() && Shows(s)
      modifies this, world, windows
      ensures forall w :: w in windows ==> w in old(windows) || fresh(w)
      ensures !res ==> windows == old(windows)
      ensures Valid() && Shows(Session.Activate(s, grab).0) && res == Session.Activate(s, grab).1
    {
      if active || !grab {
        return false;
      }
      ghost var s1 := if s.manager.windows == [] then Session.CreateWindows(s, 0, s.monitors) else s;
      if windows == [] {
        CreateWindows(0, world.monitors, s);
      }
      active := true;
      ShowWindows(s1.(manager := s1.manager.(active := true)));
      return true;
    }

    method Deactivate(ghost s: State) returns (res: bool)
      requires Valid() && Shows(s)
      modifies this, world, windows
      ensures forall w :: w in windows ==> w in old(windows) || fresh(w)
      ensures !res ==> windows == old(windows)
      ensures Valid() && Shows(Session.Deactivate(s).0) && res == Session.Deactivate(s).1
    {
      if !active {
        return false;
      }
      RemoveLockTimer(s);
      DestroyWindows(Session.RemoveLockTimer(s));
      active, activateTime, lockActive, dialogUp := false, 0, false, false;
      return true;
    }

    method SetActive(on: bool, grab: bool, ghost s: State) returns (res: bool)
      requires Valid() && Shows(s)
      modifies this, world, windows
      ensures forall w :: w in windows ==> w in old(windows) || fresh(w)
      ensures !res ==> windows == old(windows)
      ensures Valid()
      ensures var (r, ok) := if on then Session.Activate(s, grab) else Session.Deactivate(s);
              Shows(r) && res == ok
    {
      if on {
        res := Activate(grab, s);
      } else {
        res := Deactivate(s);
      }
    }

    /** The handler of the screen's monitors-changed signal. */
    method OnMonitorsChanged(n: nat, pointer: int, ghost s: State)
      requires Valid() && Shows(s.(monitors := n)) && windows != []
      modifies this, world, windows
      ensures forall w :: w in windows ==> w in old(windows) || fresh(w)
      ensures Valid() && Shows(Session.MonitorsChanged(s, n, pointer))
    {
      ghost var s1 := s.(monitors := n);
      var k := |windows|;
      if n > k {
        CancelUnlockRequests(s1);
        CreateWindows(k, n, CancelUnlocks(s1, 0));
        RequestUnlock(pointer, Session.CreateWindows(CancelUnlocks(s1, 0), k, n));
      } else {
        DestroyExtraWindows(n, s1);
        if k > n {
          RequestUnlock(pointer, Session.DestroyExtraWindows(s1, n, 0));
        }
      }
    }
  }

  class Watcher {
    var enabled: bool
    var active: bool
    var idle: bool
    var idleNotice: bool

    constructor ()
      ensures View() == WatcherState(true, false, false, false)
    {
      enabled, active, idle, idleNotice := true, false, false, false;
    }

    function View(): WatcherState
      reads this
    {
      WatcherState(enabled, active, idle, idleNotice)
    }

    method SetActive(on: bool) returns (res: bool)
      modifies this
      ensures View() == WatcherSetActive(old(View()), on)
      ensures res == (old(active) != on && enabled)
    {
      if active == on || !enabled {
        return false;
      }
      idle, idleNotice := false, false;
      active := on;
      return true;
    }

    /** Only ever called with on true. */
    method SetEnabled(on: bool)
      modifies this
      ensures on ==> View() == old(View()).(enabled := true)
    {
      if enabled != on {
        var wasActive := active;
        enabled := on;
        if !on && wasActive {
          idle, idleNotice, active := false, false, false;
        }
      }
    }

    method SetSessionIdle(isIdle: bool, grab: bool, monitor: Monitor, ghost s: State)
      requires monitor.Valid() && monitor.Shows(s) && monitor.watcher == this
      modifies monitor.Objects(), monitor.manager.windows
      ensures forall w :: w in monitor.manager.windows ==> w in old(monitor.manager.windows) || fresh(w)
      ensures monitor.Valid() && monitor.Shows(WatcherSetIdle(s, isIdle, grab))
    {
      if isIdle != idle {
        var res := monitor.listener.SetSessionIdle(isIdle, grab, monitor, s);
        if res {
          idle := isIdle;
        }
      }
    }

    method SetSessionIdleNotice(inEffect: bool, monitor: Monitor, ghost s: State)
      requires monitor.Valid() && monitor.Shows(s) && monitor.watcher == this
      modifies this`idleNotice
      ensures monitor.Shows(WatcherSetNotice(s, inEffect))
    {
      if inEffect != idleNotice {
        var handled := monitor.WatcherIdleNotice(inEffect);
        if handled {
          idleNotice := inEffect;
        }
      }
    }

    method OnIdleTimeout(grab: bool, monitor: Monitor, ghost s: State)
      requires monitor.Valid() && monitor.Shows(s) && monitor.watcher == this
      modifies monitor.Objects(), monitor.manager.windows
      ensures forall w :: w in monitor.manager.windows ==> w in old(monitor.manager.windows) || fresh(w)
      ensures monitor.Valid() && monitor.Shows(IdleTimeout(s, grab))
    {
      SetSessionIdle(true, grab, monitor, s);
      SetSessionIdleNotice(false, monitor, WatcherSetIdle(s, true, grab));
    }

    method SetStatus(status: nat, monitor: Monitor, ghost s: State)
      requires monitor.Valid() && monitor.Shows(s) && monitor.watcher == this
      modifies monitor.Objects(), monitor.manager.windows
      ensures forall w :: w in monitor.manager.windows ==> w in old(monitor.manager.windows) || fresh(w)
      ensures monitor.Valid() && monitor.Shows(PresenceStatus(s, status))
    {
      if !active {
        return;
      }
      var isIdle := status == PRESENCE_IDLE;
      if !isIdle && !idleNotice {
        return;
      }
      if isIdle {
        SetSessionIdleNotice(true, monitor, s);
      } else {
        SetSessionIdle(false, true, monitor, s);
        SetSessionIdleNotice(false, monitor, WatcherSetIdle(s, false, true));
      }
    }
  }

  class Listener {
    var active: bool
    var sessionIdle: bool
    var activationEnabled: bool

    constructor ()
      ensures View() == ListenerState(false, false, false)
    {
      active, sessionIdle, activationEnabled := false, false, false;
    }

    function View(): ListenerState
      reads this
    {
      ListenerState(active, sessionIdle, activationEnabled)
    }

    /** Emits active-changed; the monitor's handler answers whether the change took place. */
    method SetActive(on: bool, grab: bool, monitor: Monitor, ghost s: State) returns (res: bool)
      requires monitor.Valid() && monitor.Shows(s) && monitor.listener == this
      modifies monitor.Objects(), monitor.manager.windows
      ensures forall w :: w in monitor.manager.windows ==> w in old(monitor.manager.windows) || fresh(w)
      ensures !res ==> monitor.manager.windows == old(monitor.manager.windows)
      ensures monitor.Valid()
      ensures monitor.Shows(Session.SetActive(s, on, grab).0) && res == Session.SetActive(s, on, grab).1
    {
      if active == on {
        return false;
      }
      res := monitor.ListenerActiveChanged(on, grab, s);
      if !res {
        if on {
          sessionIdle := false;
        }
        return false;
      }
      active := on;
      if sessionIdle != on {
        sessionIdle := on;
      }
    }

    method CheckActivation(grab: bool, monitor: Monitor, ghost s: State) returns (res: bool)
      requires monitor.Valid() && monitor.Shows(s) && monitor.listener == this
      modifies monitor.Objects(), monitor.manager.windows
      ensures forall w :: w in monitor.manager.windows ==> w in old(monitor.manager.windows) || fresh(w)
      ensures monitor.Valid()
      ensures monitor.Shows(Session.CheckActivation(s, grab).0) && res == Session.CheckActivation(s, grab).1
    {
      if !activationEnabled {
        return true;
      }
      if !sessionIdle {
        return true;
      }
      res := SetActive(true, grab, monitor, s);
    }

    method SetSessionIdle(isIdle: bool, grab: bool, monitor: Monitor, ghost s: State) returns (res: bool)
      requires monitor.Valid() && monitor.Shows(s) && monitor.listener == this
      modifies monitor.Objects(), monitor.manager.windows
      ensures forall w :: w in monitor.manager.windows ==> w in old(monitor.manager.windows) || fresh(w)
      ensures monitor.Valid()
      ensures monitor.Shows(Session.SetSessionIdle(s, isIdle, grab).0)
      ensures res == Session.SetSessionIdle(s, isIdle, grab).1
    {
      if sessionIdle == isIdle {
        return false;
      }
      sessionIdle := isIdle;
      res := CheckActivation(grab, monitor, s.(listener := s.listener.(sessionIdle := isIdle)));
      if res {
        sessionIdle := isIdle;
      } else {
        sessionIdle := !isIdle;
      }
    }
  }

  class Monitor {
    const world: World
    const listener: Listener
    const manager: Manager
    const watcher: Watcher
    var prefs: Prefs

    ghost predicate Valid()
      reads this, manager
    {
      manager.world == world && manager.Valid()
    }

    ghost function Objects(): set<object> {
      {this, world, listener, manager, watcher}
    }

    ghost function View(): State
      reads this, world, listener, manager, watcher, manager.windows
    {
      State(listener.View(), manager.View(), watcher.View(), prefs, world.View(), world.monitors)
    }

    ghost predicate Shows(s: State)
      reads this, world, listener, manager, watcher, manager.windows
    {
      s == View()
    }

    /** gs_monitor_init */
    constructor (prefs: Prefs, monitors: nat, now: nat)
      ensures fresh(Objects()) && manager.windows == []
      ensures Valid() && View() == Initial(prefs, monitors, now)
    {
      var w := new World(now, monitors);
      var l := new Listener();
      var m := new Manager(w);
      var a := new Watcher();
      world, listener, manager, watcher, this.prefs := w, l, m, a, prefs;
      new;
      UpdateFromPrefs(View());
    }

    /** The notice is handled when it ends, or when idle activation is on. */
    method WatcherIdleNotice(inEffect: bool) returns (handled: bool)
      ensures handled == (!inEffect || listener.activationEnabled)
    {
      handled := false;
      if inEffect {
        if listener.activationEnabled {
          handled := true;
        }
      } else {
        handled := true;
      }
    }

    /** The manager first, then the watcher, if the manager agreed. */
    method ListenerActiveChanged(on: bool, grab: bool, ghost s: State) returns (ret: bool)
      requires Valid() && Shows(s)
      modifies world, manager, watcher, manager.windows
      ensures forall w :: w in manager.windows ==> w in old(manager.windows) || fresh(w)
      ensures !ret ==> manager.windows == old(manager.windows)
      ensures Valid()
      ensures var (r, ok) := if on then Activate(s, grab) else Deactivate(s);
              ret == ok && Shows(if ok && r.watcher.enabled
                                 then r.(watcher := WatcherSetActive(r.watcher, !on)) else r)
    {
      ret := manager.SetActive(on, grab, s);
      SetActiveFrame(s, on, grab);
      if ret && watcher.enabled {
        var _ := watcher.SetActive(!on);
      }
    }

    /** A failed activation restores the lock flag. */
    method ActivateOrRestore(locked: bool, grab: bool, ghost s: State)
      requires Valid() && Shows(s)
      modifies Objects(), manager.windows
      ensures forall w :: w in manager.windows ==> w in old(manager.windows) || fresh(w)
      ensures Valid()
      ensures var (r, ok) := SetActive(s, true, grab); Shows(if ok then r else Session.SetLockActive(r, locked))
    {
      var res := listener.SetActive(true, grab, this, s);
      if !res {
        manager.SetLockActive(locked, SetActive(s, true, grab).0);
      }
    }

    method LockScreen(grab: bool, ghost s: State)
      requires Valid() && Shows(s)
      modifies Objects(), manager.windows
      ensures forall w :: w in manager.windows ==> w in old(manager.windows) || fresh(w)
      ensures Valid() && Shows(Session.LockScreen(s, grab))
    {
      var locked := manager.lockActive;
      manager.SetLockActive(true, s);
      ghost var s1 := Session.SetLockActive(s, true);
      if !manager.active {
        ActivateOrRestore(locked, grab, s1);
      }
    }

    method UpdateManager(ghost s: State)
      requires Valid() && Shows(s)
      modifies manager, world, manager.windows
      ensures manager.windows == old(manager.windows)
      ensures Valid()
      ensures var lock := s.prefs.lockEnabled && !s.prefs.lockDisabled;
              Shows(SetLockTimeout(s.(manager := s.manager.(lockEnabled := lock)), s.prefs.lockTimeout))
    {
      manager.SetLockEnabled(prefs.lockEnabled && !prefs.lockDisabled, s);
      ghost var s1 := s.(manager := s.manager.(lockEnabled := s.prefs.lockEnabled && !s.prefs.lockDisabled));
      manager.SetLockTimeout(prefs.lockTimeout, s1);
      SetLockTimeoutFrame(s1, prefs.lockTimeout);
    }

    method UpdateListener(ghost s: State)
      requires Valid() && Shows(s)
      modifies listener
      ensures Shows(s.(listener := s.listener.(activationEnabled := s.prefs.idleActivation)))
    {
      listener.activationEnabled := prefs.idleActivation;
    }

    /** Idle detection is always enabled; it is started unless the screen is active. */
    method UpdateWatcher(ghost s: State)
      requires Valid() && Shows(s)
      modifies watcher
      ensures var w := s.watcher.(enabled := true);
              Shows(s.(watcher := if s.manager.active || w.active then w else WatcherSetActive(w, true)))
    {
      watcher.SetEnabled(true);
      if !manager.active && !watcher.active {
        var _ := watcher.SetActive(true);
      }
    }

    method UpdateFromPrefs(ghost s: State)
      requires Valid() && Shows(s)
      modifies Objects(), manager.windows
      ensures manager.windows == old(manager.windows)
      ensures Valid() && Shows(Session.UpdateFromPrefs(s))
    {
      UpdateManager(s);
      ghost var lock := s.prefs.lockEnabled && !s.prefs.lockDisabled;
      ghost var s2 := SetLockTimeout(s.(manager := s.manager.(lockEnabled := lock)), s.prefs.lockTimeout);
      UpdateListener(s2);
      UpdateWatcher(s2.(listener := s2.listener.(activationEnabled := s2.prefs.idleActivation)));
    }

    // -------------------------------------------------------------- dispatching

    method OnSetActive(on: bool, grab: bool)
      requires Valid()
      modifies Objects(), manager.windows
      ensures forall w :: w in manager.windows ==> w in old(manager.windows) || fresh(w)
      ensures Valid() && View() == SetActive(old(View()), on, grab).0
    {
      var _ := listener.SetActive(on, grab, this, View());
    }

    method OnLock(grab: bool, suspending: bool)
      requires Valid()
      modifies Objects(), manager.windows
      ensures forall w :: w in manager.windows ==> w in old(manager.windows) || fresh(w)
      ensures Valid()
      ensures View() == Step(old(View()), if suspending then PrepareForSleep(grab) else LockCall(grab))
    {
      if !prefs.lockDisabled {
        if !suspending || prefs.lockEnabled {
          LockScreen(grab, View());
        }
      }
    }

    method OnActivity(pointer: int)
      requires Valid()
      modifies manager, manager.windows
      ensures manager.windows == old(manager.windows)
      ensures Valid() && View() == RequestUnlock(old(View()), pointer)
    {
      ghost var s := View();
      manager.RequestUnlock(pointer, s);
      RequestUnlockFrame(s, pointer);
    }

    method OnPrefChanged(key: PrefKey)
      requires Valid()
      modifies Objects(), manager.windows
      ensures manager.windows == old(manager.windows)
      ensures Valid() && View() == Session.UpdateFromPrefs(old(View()).(prefs := SetPref(old(prefs), key)))
    {
      prefs := SetPref(prefs, key);
      UpdateFromPrefs(View());
    }

    method OnMonitors(n: nat, pointer: int)
      requires Valid() && n > 0
      modifies Objects(), manager.windows
      ensures forall w :: w in manager.windows ==> w in old(manager.windows) || fresh(w)
      ensures Valid() && View() == Step(old(View()), Monitors(n, pointer))
    {
      ghost var s := View();
      world.monitors := n;
      if manager.windows != [] {
        manager.OnMonitorsChanged(n, pointer, s);
        MonitorsChangedFrame(s, n, pointer);
      }
    }

    method OnLockTimer(id: nat)
      requires Valid()
      modifies Objects(), manager.windows
      ensures manager.windows == old(manager.windows)
      ensures Valid() && View() == Step(old(View()), LockTimer(id))
    {
      if id in world.timers && world.timers[id] <= world.now {
        LockTimerFires(id, View());
      }
    }

    /** The callback returns FALSE, which removes its source. */
    method LockTimerFires(id: nat, ghost s: State)
      requires Valid() && Shows(s)
      modifies manager, world, manager.windows
      ensures manager.windows == old(manager.windows)
      ensures Valid()
      ensures var r := ActivateLockTimeout(s); Shows(r.(loop := r.loop.(timers := r.loop.timers - {id})))
    {
      manager.ActivateLockTimeout(s);
      world.RemoveSource(id);
    }

    method OnInput(i: nat, pointer: int)
      requires Valid()
      modifies Objects(), manager.windows
      ensures manager.windows == old(manager.windows)
      ensures Valid() && View() == Step(old(View()), Input(i, pointer))
    {
      if i < |manager.windows| && !manager.windows[i].socket && manager.windows[i].sensitive {
        OnActivity(pointer);
      }
    }

    method OnPopupIdle(i: nat)
      requires Valid()
      modifies manager.windows
      ensures Valid() && View() == Step(old(View()), PopupIdle(i))
    {
      if i < |manager.windows| && manager.windows[i].popupQueued {
        manager.windows[i].PopupDialogIdle(manager, i, View());
      }
    }

    method OnPlugRemoved(i: nat)
      requires Valid()
      modifies manager.windows
      ensures Valid() && View() == Step(old(View()), PlugRemoved(i))
    {
      if i < |manager.windows| {
        manager.windows[i].LockPlugRemoved(manager, i, View());
      }
    }

    method OnEmitDeactivated(i: nat)
      requires Valid()
      modifies manager, manager.windows
      ensures manager.windows == old(manager.windows)
      ensures Valid() && View() == Step(old(View()), EmitDeactivated(i))
    {
      ghost var s := View();
      if i < |manager.windows| && manager.windows[i].deactivations > 0 {
        manager.windows[i].TakeDeactivation(manager, i, s);
        manager.WindowDeactivated(
          SetWindow(s, i, s.manager.windows[i].(deactivations := s.manager.windows[i].deactivations - 1)));
      }
    }

    method OnReadLine(i: nat, line: string)
      requires Valid()
      modifies manager, manager.windows
      ensures manager.windows == old(manager.windows)
      ensures Valid() && View() == Step(old(View()), ReadLine(i, line))
    {
      ghost var s := View();
      if i < |manager.windows| && manager.windows[i].watched {
        AnswerFrame(s, i, Interpret(line));
        manager.windows[i].ReadLine(line, manager, i, s);
      }
    }

    method OnEndOfFile(i: nat)
      requires Valid()
      modifies manager, manager.windows
      ensures manager.windows == old(manager.windows)
      ensures Valid() && View() == Step(old(View()), EndOfFile(i))
    {
      ghost var s := View();
      if i < |manager.windows| && manager.windows[i].watched {
        FinishFrame(s, i);
        manager.windows[i].Finish(manager, i, s);
      }
    }

    method OnDeactivatedIdle()
      requires Valid()
      modifies Objects(), manager.windows
      ensures forall w :: w in manager.windows ==> w in old(manager.windows) || fresh(w)
      ensures Valid() && View() == Step(old(View()), DeactivatedIdle)
    {
      if manager.deactivations > 0 {
        manager.TakeDeactivation(View());
        OnSetActive(false, true);
      }
    }

    method OnIdleEvent(e: Event)
      requires Valid() && (e.Presence? || e.IdleTimer?)
      modifies Objects(), manager.windows
      ensures forall w :: w in manager.windows ==> w in old(manager.windows) || fresh(w)
      ensures Valid() && View() == Step(old(View()), e)
    {
      if e.Presence? {
        watcher.SetStatus(e.status, this, View());
      } else {
        watcher.OnIdleTimeout(e.grab, this, View());
      }
    }

    method OnRequest(e: Event)
      requires Valid()
      requires e.SetActiveCall? || e.SessionUnlock? || e.QuitCall?
            || e.SimulateUserActivity? || e.ShowMessage? || e.Input?
      modifies Objects(), manager.windows
      ensures forall w :: w in manager.windows ==> w in old(manager.windows) || fresh(w)
      ensures Valid() && View() == Step(old(View()), e)
    {
      if e.SetActiveCall? {
        OnSetActive(e.on, e.grab);
      } else if e.SessionUnlock? || e.QuitCall? {
        OnSetActive(false, true);
      } else if e.SimulateUserActivity? {
        OnActivity(e.pointer);
      } else if e.ShowMessage? {
        if listener.active {
          OnActivity(e.pointer);
        }
      } else {
        OnInput(e.window, e.pointer);
      }
    }

    /** One dispatch of the main loop is one step of the state machine. */
    method Dispatch(e: Event)
      requires Valid()
      modifies Objects(), manager.windows
      ensures forall w :: w in manager.windows ==> w in old(manager.windows) || fresh(w)
      ensures Valid() && View() == Step(old(View()), e)
    {
      match e
      case Tick(ms) => world.now := world.now + ms;
      case LockCall(grab) => OnLock(grab, false);
      case PrepareForSleep(grab) => OnLock(grab, true);
      case Presence(_) => OnIdleEvent(e);
      case IdleTimer(_) => OnIdleEvent(e);
      case PrefChanged(key) => OnPrefChanged(key);
      case Monitors(n, p) => if n > 0 { OnMonitors(n, p); }
      case LockTimer(id) => OnLockTimer(id);
      case PopupIdle(i) => OnPopupIdle(i);
      case PlugRemoved(i) => OnPlugRemoved(i);
      case EmitDeactivated(i) => OnEmitDeactivated(i);
      case ReadLine(i, line) => OnReadLine(i, line);
      case EndOfFile(i) => OnEndOfFile(i);
      case DeactivatedIdle => OnDeactivatedIdle();
      case _ => OnRequest(e);
    }

    /** Any number of dispatches, one after the other, are a run of the state machine. */
    method DispatchAll(es: seq<Event>)
      requires Valid()
      modifies Objects(), manager.windows
      ensures forall w :: w in manager.windows ==> w in old(manager.windows) || fresh(w)
      ensures Valid() && View() == Run(old(View()), es)
    {
      ghost var goal := Run(View(), es);
      for i := 0 to |es|
        invariant Valid() && Run(View(), es[i..]) == goal
        invariant forall j :: 0 <= j < |manager.windows| ==>
          manager.windows[j] in old(manager.windows) || fresh(manager.windows[j])
      {
        assert es[i..][1..] == es[i + 1..];
        Dispatch(es[i]);
      }
    }
  }
}
