/** The lock protocol as one state machine.

    A state holds what the listener, the manager with its windows, the watcher, the
    preferences and the main loop remember between two dispatches. An event is one dispatch of
    the main loop; Step gives the state after all the synchronous signal handlers it runs. */
module Session {
  import opened Options
  import opened Wire

  datatype WindowState = WindowState(
    monitor: int,
    visible: bool,
    sensitive: bool,
    lockEnabled: bool,
    dialogUp: bool,
    popupQueued: bool,    // popup_dialog_idle_id != 0
    watched: bool,        // lock_watch_id != 0
    child: bool,          // lock_pid > 0
    socket: bool,         // lock_socket != NULL
    responseOk: bool,     // dialog_response
    deactivations: nat)   // queued calls of emit_deactivated_idle

  datatype ManagerState = ManagerState(
    active: bool,
    lockActive: bool,
    lockEnabled: bool,
    dialogUp: bool,
    lockTimeout: int,     // milliseconds
    activateTime: int,    // seconds
    timerId: nat,         // lock_timeout_id
    windows: seq<WindowState>,
    deactivations: nat)   // queued calls of window_deactivated_idle

  datatype ListenerState = ListenerState(active: bool, sessionIdle: bool, activationEnabled: bool)

  datatype WatcherState = WatcherState(enabled: bool, active: bool, idle: bool, idleNotice: bool)

  /** Timeout sources by id with the time they are due; the clock is in milliseconds. */
  datatype LoopState = LoopState(now: nat, timers: map<nat, int>, nextId: nat)

  datatype Prefs = Prefs(lockEnabled: bool, lockDisabled: bool, idleActivation: bool, lockTimeout: nat)

  datatype State = State(
    listener: ListenerState,
    manager: ManagerState,
    watcher: WatcherState,
    prefs: Prefs,
    loop: LoopState,
    monitors: nat)

  const UINT_RANGE: nat := 0x1_0000_0000

  // ---------------------------------------------------------------- windows and dialogs

  function FreshWindow(monitor: int, lock: bool): WindowState {
    WindowState(monitor, false, true, lock, false, false, false, false, false, false, 0)
  }

  function SetWindow(s: State, i: nat, w: WindowState): State
    requires i < |s.manager.windows|
  {
    s.(manager := s.manager.(windows := s.manager.windows[i := w]))
  }

  function SetLocks(ws: seq<WindowState>, lock: bool): (r: seq<WindowState>)
    ensures |r| == |ws|
  {
    seq(|ws|, i requires 0 <= i < |ws| => ws[i].(lockEnabled := lock))
  }

  /** While the dialog of window k is up only that window takes events. */
  function SensitiveOnly(ws: seq<WindowState>, k: nat): (r: seq<WindowState>)
    ensures |r| == |ws|
  {
    seq(|ws|, i requires 0 <= i < |ws| => if i == k then ws[i] else ws[i].(sensitive := false))
  }

  function AllSensitive(ws: seq<WindowState>): (r: seq<WindowState>)
    ensures |r| == |ws|
  {
    seq(|ws|, i requires 0 <= i < |ws| => ws[i].(sensitive := true))
  }

  /** window_set_dialog_up and the manager's handler for the notification. */
  function SetDialogUp(s: State, i: nat, up: bool): (r: State)
    requires i < |s.manager.windows|
    ensures |r.manager.windows| == |s.manager.windows|
  {
    var m := s.manager;
    if m.windows[i].dialogUp == up then s else
    var ws := m.windows[i := m.windows[i].(dialogUp := up)];
    s.(manager := m.(dialogUp := up, windows := if up then SensitiveOnly(ws, i) else AllSensitive(ws)))
  }

  /** popdown_dialog: the child is waited for first, the sources are removed last. */
  function Popdown(s: State, i: nat): (r: State)
    requires i < |s.manager.windows|
    ensures |r.manager.windows| == |s.manager.windows|
  {
    var s1 := SetDialogUp(SetWindow(s, i, s.manager.windows[i].(child := false)), i, false);
    SetWindow(s1, i, s1.manager.windows[i].(socket := false, popupQueued := false, watched := false))
  }

  /** The window showing monitor p, or the first one. */
  function WindowAt(ws: seq<WindowState>, p: int): (i: nat)
    requires ws != []
    ensures i < |ws|
  {
    var last := |ws| - 1;
    if ws[last].monitor == p then last
    else if last == 0 then 0
    else
      var i := WindowAt(ws[..last], p);
      if ws[i].monitor == p then i else 0
  }

  function QueueDeactivation(s: State, i: nat): State
    requires i < |s.manager.windows|
  {
    SetWindow(s, i, s.manager.windows[i].(deactivations := s.manager.windows[i].deactivations + 1))
  }

  function WindowRequestUnlock(s: State, i: nat): State
    requires i < |s.manager.windows|
  {
    var w := s.manager.windows[i];
    if !w.visible || w.watched then s
    else if !w.lockEnabled then QueueDeactivation(s, i)
    else SetDialogUp(SetWindow(s, i, w.(popupQueued := true)), i, true)
  }

  function RequestUnlock(s: State, p: int): State {
    var m := s.manager;
    if !m.active || m.dialogUp || m.windows == [] then s
    else WindowRequestUnlock(s, WindowAt(m.windows, p))
  }

  function CancelUnlocks(s: State, i: nat): State
    decreases |s.manager.windows| - i
  {
    if i >= |s.manager.windows| then s else CancelUnlocks(Popdown(s, i), i + 1)
  }

  // ---------------------------------------------------------------- lock flag and lock timer

  function SetLockActive(s: State, lock: bool): State {
    var m := s.manager;
    if m.lockActive == lock then s
    else s.(manager := m.(lockActive := lock, windows := SetLocks(m.windows, lock)))
  }

  function RemoveLockTimer(s: State): State {
    if s.manager.timerId == 0 then s
    else s.(manager := s.manager.(timerId := 0),
            loop := s.loop.(timers := s.loop.timers - {s.manager.timerId}))
  }

  /** The delay is converted to an unsigned int on its way into the main loop. */
  function AddLockTimer(s: State, delay: int): State {
    var l := s.loop;
    s.(manager := s.manager.(timerId := l.nextId),
       loop := l.(timers := l.timers[l.nextId := l.now + delay % UINT_RANGE], nextId := l.nextId + 1))
  }

  function ActivateLockTimeout(s: State): State {
    var s1 := if s.manager.lockEnabled then SetLockActive(s, true) else s;
    s1.(manager := s1.manager.(timerId := 0))
  }

  function SetLockTimeout(s: State, timeout: int): State {
    var m := s.manager;
    if m.lockTimeout == timeout then s else
    var s1 := s.(manager := m.(lockTimeout := timeout));
    if m.active && !m.lockActive && timeout >= 0 then
      var elapsed := (s.loop.now / 1000 - m.activateTime) * 1000;
      var s2 := RemoveLockTimer(s1);
      if elapsed >= timeout then ActivateLockTimeout(s2) else AddLockTimer(s2, timeout - elapsed)
    else s1
  }

  // ---------------------------------------------------------------- activation

  /** Showing a window that is not visible yet restarts the lock delay. */
  function ShowWindow(s: State, i: nat): (r: State)
    requires i < |s.manager.windows|
    ensures |r.manager.windows| == |s.manager.windows|
  {
    var w := s.manager.windows[i];
    if w.visible then s else
    var s1 := SetWindow(s, i, w.(visible := true));
    var s2 := s1.(manager := s1.manager.(activateTime := s.loop.now / 1000));
    if s2.manager.lockTimeout >= 0 then AddLockTimer(RemoveLockTimer(s2), s2.manager.lockTimeout) else s2
  }

  function ShowWindows(s: State, i: nat): State
    decreases |s.manager.windows| - i
  {
    if i >= |s.manager.windows| then s else ShowWindows(ShowWindow(s, i), i + 1)
  }

  function CreateWindow(s: State, k: nat): State {
    var m := s.manager;
    var s1 := s.(manager := m.(windows := m.windows + [FreshWindow(k, m.lockActive)]));
    if m.active then ShowWindow(s1, |m.windows|) else s1
  }

  function CreateWindows(s: State, k: nat, n: nat): State
    decreases n - k
  {
    if k >= n then s else CreateWindows(CreateWindow(s, k), k + 1, n)
  }

  /** gs_manager_activate. The grab is the one thing that can fail. */
  function Activate(s: State, grab: bool): (State, bool) {
    if s.manager.active || !grab then (s, false) else
    var s1 := if s.manager.windows == [] then CreateWindows(s, 0, s.monitors) else s;
    (ShowWindows(s1.(manager := s1.manager.(active := true)), 0), true)
  }

  function Deactivate(s: State): (State, bool) {
    if !s.manager.active then (s, false) else
    var s1 := RemoveLockTimer(s);
    (s1.(manager := s1.manager.(active := false, lockActive := false, dialogUp := false,
                                activateTime := 0, windows := [])), true)
  }

  function WatcherSetActive(w: WatcherState, active: bool): WatcherState {
    if w.active == active || !w.enabled then w
    else w.(active := active, idle := false, idleNotice := false)
  }

  /** gs_listener_set_active: the monitor drives the manager and the watcher before the listener
      itself changes, and a refused activation clears the idle state. */
  function SetActive(s: State, on: bool, grab: bool): (State, bool) {
    if s.listener.active == on then (s, false) else
    var (s1, ok) := if on then Activate(s, grab) else Deactivate(s);
    if ok then
      var watcher := if s1.watcher.enabled then WatcherSetActive(s1.watcher, !on) else s1.watcher;
      (s1.(watcher := watcher, listener := s1.listener.(active := on, sessionIdle := on)), true)
    else if on then (s1.(listener := s1.listener.(sessionIdle := false)), false)
    else (s1, false)
  }

  /** gs_monitor_lock_screen: raise the lock flag, activate, lower it again if that failed. */
  function LockScreen(s: State, grab: bool): State {
    var s1 := SetLockActive(s, true);
    if s1.manager.active then s1 else
    var (s2, ok) := SetActive(s1, true, grab);
    if ok then s2 else SetLockActive(s2, s.manager.lockActive)
  }

  // ---------------------------------------------------------------- idleness

  function CheckActivation(s: State, grab: bool): (State, bool) {
    if !s.listener.activationEnabled || !s.listener.sessionIdle then (s, true)
    else SetActive(s, true, grab)
  }

  function SetSessionIdle(s: State, idle: bool, grab: bool): (State, bool) {
    if s.listener.sessionIdle == idle then (s, false) else
    var (s1, ok) := CheckActivation(s.(listener := s.listener.(sessionIdle := idle)), grab);
    (s1.(listener := s1.listener.(sessionIdle := if ok then idle else !idle)), ok)
  }

  function WatcherSetIdle(s: State, idle: bool, grab: bool): State {
    if idle == s.watcher.idle then s else
    var (s1, ok) := SetSessionIdle(s, idle, grab);
    if ok then s1.(watcher := s1.watcher.(idle := idle)) else s1
  }

  /** A notice is refused while idle activation is off; its end is always accepted. */
  function WatcherSetNotice(s: State, notice: bool): State {
    if notice == s.watcher.idleNotice then s
    else if notice && !s.listener.activationEnabled then s
    else s.(watcher := s.watcher.(idleNotice := notice))
  }

  function IdleTimeout(s: State, grab: bool): State {
    WatcherSetNotice(WatcherSetIdle(s, true, grab), false)
  }

  const PRESENCE_IDLE: nat := 3

  function PresenceStatus(s: State, status: nat): State {
    if !s.watcher.active then s
    else if status == PRESENCE_IDLE then WatcherSetNotice(s, true)
    else if !s.watcher.idleNotice then s
    else WatcherSetNotice(WatcherSetIdle(s, false, true), false)
  }

  // ---------------------------------------------------------------- preferences and hot-plug

  datatype PrefKey =
    | LockDelay(seconds: nat)
    | IdleActivationEnabled(b: bool)
    | LockEnabled(b: bool)
    | DisableLockScreen(b: bool)
    | Other

  function ClampDelay(seconds: nat): (ms: nat)
    ensures ms < UINT_RANGE && ms <= seconds * 1000
    ensures ms == if seconds <= 4294967 then seconds * 1000 else 4294967000
  {
    var limit := (UINT_RANGE - 1) / 1000;
    (if seconds > limit then limit else seconds) * 1000
  }

  function SetPref(p: Prefs, key: PrefKey): Prefs {
    match key
    case LockDelay(seconds) => p.(lockTimeout := ClampDelay(seconds))
    case IdleActivationEnabled(b) => p.(idleActivation := b)
    case LockEnabled(b) => p.(lockEnabled := b)
    case DisableLockScreen(b) => p.(lockDisabled := b)
    case Other => p
  }

  function UpdateFromPrefs(s: State): State {
    var p := s.prefs;
    var s1 := s.(manager := s.manager.(lockEnabled := p.lockEnabled && !p.lockDisabled));
    var s2 := SetLockTimeout(s1, p.lockTimeout);
    var w := s2.watcher.(enabled := true);
    s2.(listener := s2.listener.(activationEnabled := p.idleActivation),
        watcher := if s2.manager.active || w.active then w else WatcherSetActive(w, true))
  }

  /** gs_window_destroy and the removal of the window from the list. */
  function DestroyWindow(s: State, i: nat): (r: State)
    requires i < |s.manager.windows|
    ensures |r.manager.windows| == |s.manager.windows| - 1
  {
    var s1 := Popdown(s, i);
    s1.(manager := s1.manager.(windows := s1.manager.windows[..i] + s1.manager.windows[i + 1..]))
  }

  function DestroyExtraWindows(s: State, n: nat, i: nat): State
    decreases |s.manager.windows| - i
  {
    if i >= |s.manager.windows| then s
    else if s.manager.windows[i].monitor >= n then DestroyExtraWindows(DestroyWindow(s, i), n, i)
    else DestroyExtraWindows(s, n, i + 1)
  }

  /** on_screen_monitors_changed, connected as long as there are windows. */
  function MonitorsChanged(s: State, n: nat, p: int): State {
    var s1 := s.(monitors := n);
    var k := |s.manager.windows|;
    if k == 0 then s1
    else if n > k then RequestUnlock(CreateWindows(CancelUnlocks(s1, 0), k, n), p)
    else
      var s2 := DestroyExtraWindows(s1, n, 0);
      if k > n then RequestUnlock(s2, p) else s2
  }

  // ---------------------------------------------------------------- the dialog process

  /** The end of a dialog: an OK, given now or left over, asks for deactivation. */
  function FinishDialog(s: State, i: nat): State
    requires i < |s.manager.windows|
  {
    var s1 := Popdown(s, i);
    if s1.manager.windows[i].responseOk then QueueDeactivation(s1, i) else s1
  }

  /** lock_command_watch, once the line has been read. */
  function Answer(s: State, i: nat, said: Option<Message>): State
    requires i < |s.manager.windows|
  {
    var w := s.manager.windows[i];
    match said
    case Some(WindowId(_)) => SetWindow(s, i, w.(socket := true))
    case Some(ResponseOk) => FinishDialog(SetWindow(s, i, w.(responseOk := true)), i)
    case Some(ResponseCancel) => FinishDialog(SetWindow(s, i, w.(responseOk := false)), i)
    case _ => s
  }

  // ---------------------------------------------------------------- events

  datatype Event =
    | Tick(ms: nat)
    | SetActiveCall(on: bool, grab: bool)
    | LockCall(grab: bool)
    | PrepareForSleep(grab: bool)
    | SessionUnlock
    | QuitCall
    | SimulateUserActivity(pointer: int)
    | ShowMessage(pointer: int)
    | Presence(status: nat)
    | IdleTimer(grab: bool)
    | PrefChanged(key: PrefKey)
    | Monitors(n: nat, pointer: int)
    | LockTimer(id: nat)
    | Input(window: nat, pointer: int)
    | PopupIdle(window: nat)
    | ReadLine(window: nat, line: string)
    | EndOfFile(window: nat)
    | PlugRemoved(window: nat)
    | EmitDeactivated(window: nat)
    | DeactivatedIdle

  /** Sources that are not installed and windows that are gone dispatch nothing. */
  function Step(s: State, e: Event): State {
    var ws := s.manager.windows;
    match e
    case Tick(ms) => s.(loop := s.loop.(now := s.loop.now + ms))
    case SetActiveCall(on, grab) => SetActive(s, on, grab).0
    case LockCall(grab) => if s.prefs.lockDisabled then s else LockScreen(s, grab)
    case PrepareForSleep(grab) =>
      if s.prefs.lockDisabled || !s.prefs.lockEnabled then s else LockScreen(s, grab)
    case SessionUnlock => SetActive(s, false, true).0
    case QuitCall => SetActive(s, false, true).0
    case SimulateUserActivity(p) => RequestUnlock(s, p)
    case ShowMessage(p) => if s.listener.active then RequestUnlock(s, p) else s
    case Presence(status) => PresenceStatus(s, status)
    case IdleTimer(grab) => IdleTimeout(s, grab)
    case PrefChanged(key) => UpdateFromPrefs(s.(prefs := SetPref(s.prefs, key)))
    case Monitors(n, p) => if n == 0 then s else MonitorsChanged(s, n, p)
    case LockTimer(id) =>
      if id in s.loop.timers && s.loop.timers[id] <= s.loop.now then
        var s1 := ActivateLockTimeout(s);
        s1.(loop := s1.loop.(timers := s1.loop.timers - {id}))
      else s
    case Input(i, p) => if i < |ws| && !ws[i].socket && ws[i].sensitive then RequestUnlock(s, p) else s
    case PopupIdle(i) =>
      if i < |ws| && ws[i].popupQueued then
        SetWindow(s, i, ws[i].(popupQueued := false, watched := true, child := true))
      else s
    case ReadLine(i, line) => if i < |ws| && ws[i].watched then Answer(s, i, Interpret(line)) else s
    case EndOfFile(i) => if i < |ws| && ws[i].watched then FinishDialog(s, i) else s
    case PlugRemoved(i) => if i < |ws| then SetWindow(s, i, ws[i].(socket := false)) else s
    case EmitDeactivated(i) =>
      if i < |ws| && ws[i].deactivations > 0 then
        var s1 := SetWindow(s, i, ws[i].(deactivations := ws[i].deactivations - 1));
        s1.(manager := s1.manager.(deactivations := s1.manager.deactivations + 1))
      else s
    case DeactivatedIdle =>
      if s.manager.deactivations > 0 then
        SetActive(s.(manager := s.manager.(deactivations := s.manager.deactivations - 1)), false, true).0
      else s
  }

  function Run(s: State, es: seq<Event>): State
    decreases es
  {
    if es == [] then s else Run(Step(s, es[0]), es[1..])
  }

  /** What gs_monitor_init leaves behind. */
  function Initial(prefs: Prefs, monitors: nat, now: nat): State {
    UpdateFromPrefs(State(
      ListenerState(false, false, false),
      ManagerState(false, false, false, false, 0, 0, 0, [], 0),
      WatcherState(true, false, false, false),
      prefs,
      LoopState(now, map[], 1),
      monitors))
  }
}
