# Verification of the screen locker's core

This project models the stateful core of budgie-screensaver in Dafny and proves what a screen
locker is for: that nothing but a password or an explicit dismissal takes a lock away, that the
objects agree with each other after every event, that the lock comes in time unless its timer was
taken away while locking was off, that it never comes against the administrator's will, and that
the algorithms around it (the PAM thread hand-off, the message repair, the gamma fade, the window
geometry, the pixel conversion, the layout numbering) do what they promise on every input.

`dafny verify dfyconfig.toml` checks everything.

## How it is organised

- `Session.dfy` is the lock protocol as one state machine: an event is one dispatch of the main
  loop (a D-Bus request, a timer, a preference, a hot-plug, input, a line from a dialog), and
  `Step` is the state after all the synchronous signal handlers it sets off.
- `SessionInvariant.dfy` and `SessionSteps.dfy` prove that every step keeps a global invariant, and
  bring the nested handlers into closed forms. `SessionSafety.dfy`, `SessionTiming.dfy` and
  `SessionIdle.dfy` hold the theorems about whole runs. `SessionEvents.dfy` and
  `SessionHotplug.dfy` say what each event does to every field, and `SessionLockdown.dfy` follows
  the administrator's setting from its event through any run.
- `SessionObjects.dfy` has the objects themselves: classes for the listener, monitor, manager,
  watcher and windows whose methods nest and loop as the program does, each proved against the
  state machine. A method has a ghost argument `s`, the state the objects show when it is entered,
  so that a handler deep inside a dispatch can be specified by what it makes of `s`.
  `SessionFrames.dfy` has the lemmas about what the specification leaves alone. `SessionRuns.dfy`
  carries the theorems about runs over to the fields of the objects.
- `Wire.dfy`, `Dialog.dfy`, `DialogTranscript.dfy` and `KeyQueue.dfy`: the line protocol between the
  dialog process and its window, the dialog process and what a run of it prints, and the keys typed
  before the dialog is there.
- `Utf8.dfy`, `Conversation.dfy`, `Handoff.dfy`: the PAM side, with its memory and its two threads.
- `Fade.dfy` (state machine and theorems) and `FadeObjects.dfy` (the object and its loops).
- `Geometry.dfy`, `Pixels.dfy`, `Layouts.dfy`: the stand-alone algorithms.

## Properties that hold only under a condition

- Lock safety: `gs_window_request_unlock` and an OK line both act through queued callbacks, so a
  deactivation that is still queued when the screen gets locked takes the lock down later.
  `SessionSafety.LockSafety` proves that an empty queue is exactly the condition.
- The lock deadline: a timer that expires while locking is switched off is gone, and switching
  locking on again does not bring it back, so an active screen can stay unlocked past its deadline
  (`SessionTiming.MissedDeadline`). `SessionTiming.ArmedIff` gives the exact events that take the
  timer away and bring it back, and `SessionTiming.LockDeadline` says for every run that the
  deadline holds exactly if the last of the former was followed by one of the latter.
- The hand-off waits on its condition variable without a loop. `Handoff.WildIffExposed`: a wakeup
  without a signal does harm exactly if it comes while the worker waits and the callback does not
  have the mutex. `Handoff.EveryRequestOnce` holds for all interleavings without such a wakeup.
- The division by alpha wraps around when a colour is larger than alpha. `Pixels.RecoverableIff`
  and `Pixels.FitsIff` give the exact condition.
- "Watcher inactive implies not idle" is false: `idle` is written after the nested activation has
  turned the watcher off. `SessionIdle.IdleButOffIff` says exactly when: from the moment the idle
  timer activates the screen until the screen goes away. The notice flag, not the idle flag, is
  clear while the watcher is inactive.

`docs/dbus-interface.xml` describes GetSessionIdle, GetSessionIdleTime and SessionIdleChanged,
which the program does not implement; the model follows the program.

## Model

| member | source | states |
|---|---|---|
| SessionSafety.EveryRun | src/gs-monitor.c:265-295 | After every event of every run from start-up: listener, manager and inverted watcher agree on being active; active implies session idle; locked implies active; lock_enabled is what the settings and the administrator allow; one window per monitor in order, each with the manager's lock flag; at most one dialog starting or alive, manager.dialog_up iff there is one, and then only its window is sensitive |
| SessionEvents.SetActiveDoes | src/gs-listener-dbus.c:243-273 | SetActive(TRUE) brings an inactive screen up unlocked, or only clears the idle state if the grab fails; SetActive(FALSE) takes an active one down, locked or not; the rest changes nothing |
| SessionEvents.DismissalsDo | src/gs-listener-dbus.c:860-868 | A session Unlock and Quit take an active screen down completely, locked or not, and leave an inactive one |
| SessionEvents.LockDoes | src/gs-monitor.c:171-237 | Lock, unless the administrator forbids it, sets nothing but the lock of manager and windows on an active screen, and brings an inactive one up locked or clears its idle state; suspending does the same if the lock setting is on, and else nothing |
| SessionEvents.ActivityDoes | src/gs-window-x11.c:1813-1827 | Simulated activity, a message and input at any window do nothing while the screen is inactive or has a dialog; otherwise a locked screen gets its dialog, and an unlocked one a deactivation, on the window at the pointer (the first if it is on none), and no other window is touched but for its sensitivity |
| SessionEvents.InputDismisses | src/gs-window-x11.c:1536-1540 | Input at any window of an active, unlocked and quiet screen, and the two callbacks it queues, take the screen down completely |
| SessionEvents.LockTimerDoes | src/gs-manager.c:212-222 | A timer that is due goes away and locks exactly if settings and administrator allow it; any other does nothing |
| SessionEvents.IdleTimerDoes | src/gs-watcher-x11.c:211-231 | The whole state after the idle timer, in each case: known already, not allowed, activated, refused |
| SessionEvents.PresenceDoes | src/gs-watcher-x11.c:335-369 | The whole state after a presence change: nothing on an active screen, and else only the idle flags |
| SessionEvents.SettingIsStored | src/gs-prefs.c:266-360 | Each key sets its own preference to what it says, and no other: disable-lock-screen TRUE forbids locking |
| SessionEvents.SettingDoes | src/gs-monitor.c:307-362 | A key other than the delay changes nothing else but the permission to lock and idle activation |
| SessionEvents.DelayDoes | src/gs-manager.c:242-267 | A new delay sets the timer of an active unlocked screen to what is left since the last show, or locks at once if nothing is left and locking is allowed |
| SessionEvents.ReadLineDoes | src/gs-window-x11.c:1358-1425 | A line read from a watched dialog: a response ends the dialog and queues a deactivation exactly on OK, a window id embeds it, anything else changes nothing |
| SessionEvents.EndOfFileDoes | src/gs-window-x11.c:1394-1421 | End of file ends the dialog with the remembered response |
| SessionEvents.PopupDoes | src/gs-window-x11.c:1512-1519 | A queued popup becomes a child that is read, and nothing else changes |
| SessionEvents.PlugRemovedDoes | src/gs-window-x11.c:958-967 | Removing the plug takes the socket away and nothing else |
| SessionEvents.EmitDeactivatedDoes | src/gs-window-x11.c:489-500 | One deactivation moves from the window to the manager |
| SessionEvents.DeactivatedIdleDoes | src/gs-manager.c:613-624 | One deactivation is delivered: an active screen is taken down, an inactive one is not affected |
| SessionHotplug.MonitorsDo | src/gs-manager.c:1011-1074 | The whole state after a hot-plug: an unchanged count changes nothing; a dialog whose monitor stays is left alone; otherwise dialogs are closed, windows come or go, the delay starts again if windows came, and the screen acts as on activity at the pointer |
| SessionHotplug.DialogFollowsPointer | src/gs-manager.c:1040-1069 | A locked screen ends a change with its dialog on the window at the pointer, and on no other, unless a dialog survives on another window when monitors are unplugged |
| SessionHotplug.UnplugForm | src/gs-manager.c:1046-1062 | Without a dialog on what stays, unplugging leaves the first windows as they were, closed and sensitive |
| SessionHotplug.PlugForm | src/gs-manager.c:1023-1041 | Plugging closes every dialog, keeps the old windows in all else, and adds shown ones with one new timer |
| SessionHotplug.SurvivorsKept | src/gs-manager.c:1046-1062 | A window that stays keeps all but its sensitivity |
| SessionSafety.WhatEndsALock | src/gs-manager.c:613-636 | One dispatch takes a locked screen down if and only if it is SetActive(FALSE), a session Unlock, Quit, or the delivery of a deactivation queued earlier; and from an empty queue only a RESPONSE=OK line leaves one queued |
| SessionSafety.LockSafety | src/gs-window-x11.c:1348-1425 | Lock safety with its exact condition: every run without dismissal and without an OK line stays locked, if and only if no deactivation was queued when the run began |
| SessionSafety.LockHolds | src/gs-window-x11.c:1521-1548 | The same along one run, with the queue staying empty: input, hot-plug, Lock, timers, preferences, cancelled dialogs, failed logins and end of file, in any order |
| SessionSafety.QueuedWindowEnds | src/gs-window-x11.c:489-500 | Why the condition is needed: a deactivation that any window has queued ends the lock in two callbacks |
| SessionSafety.PasswordDecides | src/gnome-screensaver-dialog.c:357-387 | Over the pipe: among the lines the window reads of a dialog, those up to the first response, there is an OK if and only if locking is unavailable there or one of the first five attempts passes before a cancel |
| SessionSafety.NothingIsReadAfterwards | src/gs-window-x11.c:1412-1421 | After a response nothing more is read from that dialog, whatever it goes on to print |
| SessionSafety.FailedPasswordsKeepTheLock | src/gnome-screensaver-dialog.c:294-323 | Composition of dialog, pipe and session: any run whose dialog lines all come from dialogs nobody passed stays locked, whatever else happens |
| SessionSafety.DeactivationArrives | src/gs-manager.c:613-636 | A deactivation queued by one window brings the whole screen down after its two idle callbacks, to a fully specified state |
| SessionSafety.OkUnlocks | src/gs-window-x11.c:1409-1419 | An OK line from the running dialog and the two callbacks bring a locked screen down completely, timer and windows included |
| SessionSafety.ActivityOpensDialog | src/gs-manager.c:1316-1348 | A locked screen without a dialog always gets one: after activity and the queued popup the window at the pointer has a child that is read, and nothing else changed |
| SessionSafety.AnyInputCounts | src/gs-window-x11.c:1813-1827 | Input that counts as activity acts, at any window of a locked screen, like SimulateUserActivity until a dialog is up, and then changes nothing; ShowMessage acts the same |
| SessionSafety.UnlockedActivityDismisses | src/gs-window-x11.c:1536-1540 | Activity on an active screen that is not locked brings it down without a dialog |
| SessionSafety.UnlockBringsDown | src/gs-window-x11.c:1521-1548 | Activity, popup, OK and two callbacks take any quiet locked screen to the stopped state |
| SessionSafety.LockUnlockRoundTrip | src/gs-monitor.c:172-194 | Round trip: Lock, then unlocking with an OK, gives back the whole state before the Lock except the idle flags and the used-up source ids |
| SessionTiming.WhatStartsALock | src/gs-manager.c:212-267 | One dispatch locks an unlocked screen if and only if it is Lock where the administrator allows it, or suspend, the expired lock timer or a new delay already over where the lock setting allows it too |
| SessionTiming.Lockdown | src/gs-monitor.c:206-237 | Administrator lockdown: through any run segment with lock_disabled set, nothing takes lock_active from false to true |
| SessionLockdown.DisablingForbids | src/gs-prefs.c:292-297 | Lockdown from the event on: once disable-lock-screen is set, no run in which it is not cleared again locks an unlocked screen, and locking stays disabled |
| SessionLockdown.AllowingAllows | src/gs-prefs.c:292-297 | Clearing it allows locking: Lock then locks |
| SessionLockdown.OnlySettingsSet | src/gs-prefs.c:266-360 | No event but a changed setting changes a preference |
| SessionTiming.LockDeadline | src/gs-manager.c:212-267 | After every run: an active unlocked screen has exactly one live timer, due less than a second after the last show plus the current delay and never before it, if and only if every event that took its timer away was followed by one that helps; otherwise there is no timer and the delay is over |
| SessionTiming.ArmedIff | src/gs-manager.c:212-267 | The exact condition for one dispatch: an unlocked screen loses its timer iff the timer expires, or a new delay is over, while locking is not allowed; and it is armed again iff it is locked, ends, shows a new window or gets a new delay that is not over or may lock. Allowing the lock again does not re-arm it |
| SessionTiming.DeadlineFromStart | src/gs-manager.c:212-267 | The deadline is met by every run from start-up in which no timer is taken away |
| SessionTiming.MissedDeadline | src/gs-manager.c:212-222 | The run that misses it: from any armed state, locking off, the timer expiring, locking on again leaves an active unlocked screen without a timer a second after the deadline |
| SessionTiming.OverdueTimerLocks | src/gs-manager.c:212-222 | A second after the deadline some timer locks when it is dispatched, if and only if locking is allowed and the timer has not been taken away |
| SessionTiming.LockIsNotEarly | src/gs-manager.c:255-264 | The timer and a new delay lock only after the delay counted from the second of the last show |
| SessionTiming.MonitorsArmed | src/gs-manager.c:1012-1040 | A hot-plug re-arms an active screen if and only if monitors are added |
| SessionTiming.PrefStarts | src/gs-monitor.c:307-362 | A changed preference locks exactly when locking is allowed, the screen is active, and the new delay is different and over |
| SessionTiming.DialogsKeepTiming | src/gs-window-x11.c:1348-1425 | Activity, input and everything a dialog does touch neither the lock flag nor the lock timer, the listener or the watcher |
| SessionIdle.IdleButOffIff | src/gs-watcher-x11.c:211-231 | The watcher is off and still remembers idleness after a dispatch if and only if the idle timer has just activated the screen, or it did so before and the screen is still active |
| SessionIdle.IdleButOffAfterRun | src/gs-watcher-x11.c:211-231 | Over every run the flag tells whether the idle timer brought up the screen that is active |
| SessionSteps.StepKeepsInv | src/gs-monitor.c:265-295 | The global invariant of all objects survives every dispatch |
| SessionSteps.RunKeepsInv | src/gs-monitor.c:265-295 | It survives every run |
| SessionSteps.InitialInv | src/gs-monitor.c:455-476 | After start-up, for every clamped preference and monitor count: the invariant, an inactive screen, the watcher on, nothing idle and nothing queued |
| SessionSteps.LockInactive | src/gs-monitor.c:172-194 | Locking an inactive screen either brings it up locked or, when activation fails, leaves only the idle state cleared: the raised lock flag is rolled back |
| SessionSteps.LockScreenKeeps | src/gs-monitor.c:172-194 | The invariant survives locking, whether or not the grab works |
| SessionSteps.SetActiveKeeps | src/gs-listener-dbus.c:243-273 | The invariant survives gs_listener_set_active through the nested monitor, manager and watcher handlers, including refusal |
| SessionSteps.ActivateSteps | src/gs-manager.c:1218-1260 | The nested creation and showing of windows comes to one closed form: a visible window per monitor and a single fresh timer |
| SessionSteps.DeactivateSteps | src/gs-manager.c:1263-1289 | Deactivation of any active state gives one closed form: no windows, no timer, watcher on, listener inactive |
| SessionSteps.IdleTimeoutInactive | src/gs-watcher-x11.c:321-332 | The idle timer activates an inactive screen if and only if idle activation is on, the session was not known to be idle and the grab works; it never locks; the watcher ends inactive with idle set |
| SessionSteps.IdleWhileActive | src/gs-watcher-x11.c:335-369 | On an active screen presence changes and a late idle timer have no effect |
| SessionSteps.LockTimerKeeps | src/gs-manager.c:212-222 | The invariant survives the lock timer; an expired one leaves no timer, any other changes nothing |
| SessionSteps.NewDelayForm | src/gs-manager.c:242-267 | A new delay on an active unlocked screen replaces the timer by one for exactly the time left, or locks at once |
| SessionSteps.SetLockTimeoutKeeps | src/gs-manager.c:242-267 | A new delay keeps the invariant and changes nothing but the lock flag (upwards, if allowed) and the timer |
| SessionSteps.PrefChangedKeeps | src/gs-monitor.c:307-362 | The invariant, including obedience to the settings, survives every preference change |
| SessionSteps.MonitorsChangedKeeps | src/gs-manager.c:1012-1074 | After any change to n monitors the invariant holds with windows 0..n-1 in order; activity and lock are as before and a locked screen queues nothing (SessionHotplug.MonitorsDo has the whole state) |
| SessionSteps.UnplugKeepsDialog | src/gs-manager.c:1044-1069 | Unplugging other monitors leaves a dialog on a surviving window untouched, child included |
| SessionSteps.FinishDialogKeeps | src/gs-window-x11.c:1412-1421 | The end of a dialog closes it, keeps the invariant, and queues one deactivation for this window exactly on OK |
| SessionSteps.AnswerKeeps | src/gs-window-x11.c:1358-1393 | The invariant survives every line a dialog can print |
| SessionSteps.EndOfFileKeeps | src/gs-window-x11.c:1394-1396 | The invariant survives end of file, where the remembered response counts |
| SessionSteps.PopupIdleKeeps | src/gs-window-x11.c:1456-1519 | The invariant survives the start of the dialog process |
| SessionSteps.EmitDeactivatedKeeps | src/gs-window-x11.c:489-500 | The invariant survives handing a deactivation on to the manager |
| SessionSteps.DeactivatedIdleKeeps | src/gs-manager.c:613-624 | Delivering a deactivation makes the screen inactive and keeps the invariant |
| SessionInvariant.PopdownForm | src/gs-window-x11.c:1324-1346 | The nested assignments of popdown_dialog and the manager's handler come to one simultaneous update |
| SessionInvariant.PopdownKeeps | src/gs-window-x11.c:1324-1346 | Popping down keeps the invariant and leaves no dialog on the window |
| SessionInvariant.RequestUnlockKeeps | src/gs-manager.c:1316-1348 | A request keeps the invariant, changes dialogs only, and with the lock on always ends with a dialog and queues nothing |
| SessionInvariant.CancelUnlocksKeeps | src/gs-manager.c:1025-1035 | Cancelling on every window leaves no dialog anywhere and changes nothing else |
| SessionInvariant.DestroyWindowForm | src/gs-window-x11.c:791-798 | Destroying a window pops its dialog down and takes it out; every other window keeps all but its sensitivity |
| SessionInvariant.DestroyWindowKeeps | src/gs-window-x11.c:791-798 | Destroying a window keeps the invariant and the monitors of the others in order |
| SessionInvariant.DestroyExtraWindowsKeeps | src/gs-manager.c:1046-1062 | The deleting walk over the list removes exactly the windows of monitors that are gone and keeps the order |
| SessionInvariant.ShowWindowsForm | src/gs-manager.c:1197-1204 | Showing windows one by one, each restarting the timer, comes to all visible and one timer for the last |
| SessionInvariant.ActivateForm | src/gs-manager.c:1218-1260 | gs_manager_activate without windows, with its nested show handlers, in closed form |
| SessionInvariant.CreateShownForm | src/gs-manager.c:978-1009 | Windows added to an active screen are shown with the current lock flag and leave one timer |
| Session.ClampDelay | src/gs-prefs.c:94-103 | The delay is the seconds in milliseconds, 4294967 seconds at most, so that it fits an unsigned 32-bit value |
| SessionInvariant.WindowAtIsLast | src/gs-manager.c:639-673 | The dialog goes to the last window on the pointer's monitor, and to the first window exactly when none is there |
| SessionSteps.PresenceInactive | src/gs-watcher-x11.c:335-369 | On an inactive screen presence moves only the idle flags: the notice is on iff the user is away and idle activation allowed it, and coming back ends an idle session |
| SessionObjects.Monitor.Dispatch | src/gs-monitor.c:171-194 | Refinement: one dispatch of the objects, with all nested handlers, is one step of the state machine that the theorems are about; the windows afterwards are old or new ones |
| SessionObjects.Monitor.DispatchAll | src/gs-monitor.c:171-194 | Refinement of runs: any sequence of dispatches on the objects is the run of the state machine |
| SessionRuns.HandleEvents | src/gs-monitor.c:265-295 | Any events keep the objects consistent, and their fields agree: listener, manager and watcher, one window per monitor with the manager's lock, one dialog, sensitivity |
| SessionRuns.RunProgram | src/gs-monitor.c:455-476 | The same from construction on, for any preferences, monitors and events |
| SessionRuns.RunLocked | src/gs-window-x11.c:1348-1425 | Lock safety on the objects: with nothing under way, manager and every window stay locked through any events but a dismissal or an OK |
| SessionRuns.RunForbidden | src/gs-monitor.c:206-237 | Administrator lockdown on the objects |
| SessionRuns.ForbidAndRun | src/gs-prefs.c:292-297 | Lockdown on the objects, from the event that sets disable-lock-screen on |
| SessionRuns.ConsistentAgrees | src/gs-monitor.c:265-295 | What consistency says about the fields of the objects |
| SessionObjects.Monitor.constructor | src/gs-monitor.c:455-476 | The objects are new and start in the initial state of the state machine, without windows |
| SessionObjects.Monitor.LockScreen | src/gs-monitor.c:172-194 | Raise the lock flag, activate, roll back on failure: refines the specification on the objects |
| SessionObjects.Monitor.ActivateOrRestore | src/gs-monitor.c:183-192 | The roll-back half: a refused activation restores the saved flag on manager and windows |
| SessionObjects.Monitor.ListenerActiveChanged | src/gs-monitor.c:265-295 | The handler drives manager, then watcher if the manager agreed, and answers whether it did |
| SessionObjects.Monitor.OnLock | src/gs-monitor.c:206-237 | Lock and suspend requests obey the settings |
| SessionObjects.Monitor.OnActivity | src/gs-monitor.c:197-204 | Simulated activity asks the manager for the dialog |
| SessionObjects.Monitor.UpdateManager | src/gs-monitor.c:307-329 | lock_enabled and the delay follow the settings |
| SessionObjects.Monitor.UpdateWatcher | src/gs-monitor.c:335-350 | The watcher is enabled, and started unless the screen is active |
| SessionObjects.Monitor.UpdateFromPrefs | src/gs-monitor.c:307-362 | The lock and idle settings reach manager, listener and watcher as specified |
| SessionObjects.Monitor.WatcherIdleNotice | src/gs-monitor.c:121-169 | A notice is accepted exactly when it ends or idle activation is on |
| SessionObjects.Monitor.OnPrefChanged | src/gs-prefs.c:267-360 | A changed key is one step |
| SessionObjects.Monitor.OnMonitors | src/gs-manager.c:1012-1074 | A hot-plug is one step |
| SessionObjects.Monitor.OnLockTimer | src/gs-manager.c:212-222 | The expiry of the lock timer is one step, after which its source is gone |
| SessionObjects.Monitor.OnInput | src/gs-window-x11.c:1813-1827 | Input is taken only without a socket and by a sensitive window |
| SessionObjects.Monitor.OnReadLine | src/gs-window-x11.c:1348-1425 | A line read from a dialog is one step |
| SessionObjects.Monitor.OnEndOfFile | src/gs-window-x11.c:1394-1421 | End of file from a dialog is one step |
| SessionObjects.Monitor.OnEmitDeactivated | src/gs-window-x11.c:489-500 | A queued deactivation reaches the manager |
| SessionObjects.Monitor.OnDeactivatedIdle | src/gs-monitor.c:81-88 | and then the monitor, which deactivates the listener |
| SessionObjects.Listener.SetActive | src/gs-listener-dbus.c:243-273 | The listener changes only after its handlers agreed; a refused activation clears session idle |
| SessionObjects.Listener.CheckActivation | src/gs-listener-dbus.c:185-203 | Idle activation, when enabled and idle |
| SessionObjects.Listener.SetSessionIdle | src/gs-listener-dbus.c:276-303 | Session idle is set, activation is tried, and the change is undone if it is refused |
| SessionObjects.Watcher.SetActive | src/gs-watcher-x11.c:245-286 | Turning the watcher on or off clears idle and notice; repeated or disabled requests are refused |
| SessionObjects.Watcher.SetSessionIdle | src/gs-watcher-x11.c:211-231 | idle is written after the nested activation, and only if that was accepted |
| SessionObjects.Watcher.SetSessionIdleNotice | src/gs-watcher-x11.c:188-208 | The notice flag follows the handler's answer |
| SessionObjects.Watcher.OnIdleTimeout | src/gs-watcher-x11.c:321-332 | Idle, then the end of the notice |
| SessionObjects.Watcher.SetStatus | src/gs-watcher-x11.c:335-369 | Presence changes are ignored while inactive |
| SessionObjects.Manager.SetLockActive | src/gs-manager.c:121-137 | The flag and the lock of every window change together |
| SessionObjects.Manager.SetLockEnabled | src/gs-manager.c:152-162 | Only the permission to lock changes |
| SessionObjects.Manager.RemoveLockTimer | src/gs-manager.c:225-231 | The pending source is removed and forgotten |
| SessionObjects.Manager.AddLockTimer | src/gs-manager.c:234-240 | A timer is due after the delay as an unsigned 32-bit number |
| SessionObjects.Manager.ActivateLockTimeout | src/gs-manager.c:212-222 | The timer locks if locking is enabled |
| SessionObjects.Manager.SetLockTimeout | src/gs-manager.c:242-267 | A new delay re-times the lock or locks at once |
| SessionObjects.Manager.ManagerShowWindow | src/gs-manager.c:812-829 | A shown window restarts the lock delay |
| SessionObjects.Manager.ShowWindows | src/gs-manager.c:1197-1204 | The loop shows every window of the list |
| SessionObjects.Manager.CreateWindowForMonitor | src/gs-manager.c:978-1009 | A new window is appended with the current lock flag and shown on an active screen |
| SessionObjects.Manager.CreateWindows | src/gs-manager.c:1139-1162 | The loop adds one window per monitor |
| SessionObjects.Manager.HandleDialogUp | src/gs-manager.c:845-874 | Every other window becomes insensitive |
| SessionObjects.Manager.HandleDialogDown | src/gs-manager.c:877-900 | Every window becomes sensitive |
| SessionObjects.Manager.FindWindowAtPointer | src/gs-manager.c:639-673 | The search loop finds the last window at the pointer, or else the first window |
| SessionObjects.Manager.RequestUnlock | src/gs-manager.c:1316-1348 | The guards and the choice of the window are those of the specification |
| SessionObjects.Manager.CancelUnlockRequests | src/gs-manager.c:1351-1357 | The loop pops down every dialog |
| SessionObjects.Manager.DestroyWindow | src/gs-window-x11.c:791-798 | The window leaves the list after its dialog is popped down; the others keep their order |
| SessionObjects.Manager.DestroyExtraWindows | src/gs-manager.c:1046-1062 | The deleting walk refines the recursive specification |
| SessionObjects.Manager.DestroyWindows | src/gs-manager.c:1077-1100 | All windows go; nothing but the list and dialog_up changes |
| SessionObjects.Manager.Activate | src/gs-manager.c:1218-1260 | Fails without effect when active or when the grab fails; otherwise windows, flag, show |
| SessionObjects.Manager.Deactivate | src/gs-manager.c:1263-1289 | Fails without effect when inactive; otherwise timer, windows and all flags are reset |
| SessionObjects.Manager.OnMonitorsChanged | src/gs-manager.c:1012-1074 | Both branches of a monitor change refine the specification |
| SessionObjects.Window.SetDialogUp | src/gs-window-x11.c:1312-1321 | The notification reaches the manager's handler before the call returns |
| SessionObjects.Window.Popdown | src/gs-window-x11.c:1324-1346 | The child first, then the flag with its nested handler, then the sources |
| SessionObjects.Window.RequestUnlock | src/gs-window-x11.c:1521-1548 | Invisible or watched: nothing; no lock: deactivate; otherwise queue the dialog and raise the flag |
| SessionObjects.Window.Finish | src/gs-window-x11.c:1412-1421 | Pop down, then queue a deactivation if the remembered response is OK |
| SessionObjects.Window.ReadLine | src/gs-window-x11.c:1358-1393 | Dispatch on the decoded line |
| Wire.RoundTrip | src/gs-window-x11.c:1363-1392 | Splitting into lines and decoding the concatenated output of any sequence of dialog messages gives back the sequence, despite the substring dispatch |
| Wire.LinesAreTheStream | src/gs-window-x11.c:1363-1367 | Reading in lines loses and adds nothing, and every line but the last ends at its first newline |
| Wire.ContainsIff | src/gs-window-x11.c:1369-1388 | A pattern is found exactly if it stands somewhere in the line |
| Wire.GarbageIsRejected | src/gs-window-x11.c:1372-1374 | A number followed by anything but white space is not an id |
| Wire.ScanPrinted | src/gs-window-x11.c:1369-1374 | The scanf pattern reads back every 32-bit id that was printed |
| Wire.InterpretPrinted | src/gnome-screensaver-dialog.c:90-120 | Every printed message is decoded as itself |
| Wire.ValueOfDecimal | src/gnome-screensaver-dialog.c:90-106 | Decimal printing and reading are inverse |
| Wire.MissingCharacter | src/gs-window-x11.c:1363-1392 | A pattern with a character that does not occur cannot match: why the dispatch is unambiguous on printed lines |
| Wire.FirstLine | src/gs-window-x11.c:1360-1367 | Reading a line takes exactly the bytes up to the first newline |
| Wire.Truncate | src/gs-window-x11.c:1369-1374 | A 32-bit number is kept, its negation is taken modulo 2^32, and any other ends up in 32 bits |
| Dialog.SaysOk | src/gnome-screensaver-dialog.c:357-387 | Up to its first response a dialog run says OK exactly when locking is unavailable or one of the first five attempts passes after failures only; what a cancelled process still prints does not matter |
| DialogTranscript.TranscriptIs | src/gnome-screensaver-dialog.c:293-387 | The whole transcript, without the loop: one failure notice for each failed attempt, five at most, a request to quit after the fifth or else the answer of the next attempt, and the window id just before what the first attempt that asks prints |
| DialogTranscript.OneId | src/gnome-screensaver-dialog.c:390-396 | At most one window id is printed, it is the process's own, and it stands at position k exactly if attempt k is made and is the first that asks |
| Dialog.WindowReadsTranscript | src/gnome-screensaver-dialog.c:90-120 | The window decodes the whole transcript of any dialog run |
| Dialog.Process.Show | src/gnome-screensaver-dialog.c:390-396 | The first show of the plug prints its id |
| Dialog.Process.AuthCheckIdle | src/gnome-screensaver-dialog.c:357-387 | One attempt prints what the transcript says, including anything after a cancel, and retries exactly after fewer than five failures |
| Dialog.HeardAttempt | src/gnome-screensaver-dialog.c:293-335 | What the window hears of one attempt: an OK iff it passes, or fails and what follows says OK; nothing after a cancel |
| Wire.ReadLinesSayHeard | src/gs-window-x11.c:1363-1421 | The lines up to the first response say exactly the messages up to the first response |
| Dialog.Process.AuthLoop | src/gnome-screensaver-dialog.c:357-387 | The retry loop prints the transcript of the attempts |
| Dialog.Process.RunProcess | src/gnome-screensaver-dialog.c:495-622 | The process prints the transcript; without the means to lock it answers OK at once |
| KeyQueue.Queue.QueueKeyEvent | src/gs-window-x11.c:1788-1811 | The newest-first list always holds the reversed replay of the keys typed since the last flush |
| KeyQueue.Queue.ForwardKeyEvents | src/gs-window-x11.c:999-1013 | A flush forwards exactly the replay, in typed order, and empties the queue |
| KeyQueue.Queue.RemoveKeyEvents | src/gs-window-x11.c:1015-1027 | A discard empties the queue |
| KeyQueue.ReplayAppend | src/gs-window-x11.c:1788-1811 | One more key extends the replay exactly when it is not a leading Return, KP_Enter, Escape or space, not Tab, Up or Down, and not the seventeenth |
| KeyQueue.ReplayIsSubsequence | src/gs-window-x11.c:1788-1811 | The replay is a subsequence of what was typed, has no navigation key, starts with no waking key and has at most sixteen keys |
| Utf8.RepairInPlace | src/gs-auth-pam.c:275-286 | The in-place loop terminates, stays in bounds and leaves the buffer equal to the recursion: copy a character, else write ? and advance one byte |
| Utf8.RepairIsWellFormed | src/gs-auth-pam.c:275-286 | The repaired text is well-formed UTF-8 (section 4 of RFC 3629) |
| Utf8.RepairFixes | src/gs-auth-pam.c:275-286 | Text is unchanged if and only if it was well formed |
| Utf8.RepairIs | src/gs-auth-pam.c:275-286 | A character is kept, and a byte at which none starts becomes a question mark: the repair by its defining equations |
| Utf8.CharIffEncoded | src/gs-auth-pam.c:281-285 | The characters are exactly the encodings of the code points of RFC 3629: nothing overlong, no surrogate, nothing beyond U+10FFFF |
| Utf8.RepairTwice | src/gs-auth-pam.c:275-286 | Repairing twice is repairing once |
| Utf8.RepairReplaces | src/gs-auth-pam.c:281-285 | Only bytes outside ASCII are replaced, each by one ? |
| Utf8.ValidPrefixIsAll | src/gs-auth-pam.c:281-285 | Scanning reaches the end exactly on well-formed text |
| Utf8.Validate | src/gs-auth-pam.c:281-285 | The validator passes exactly the characters: what is before the position it returns is well formed, no character starts there, and it says valid iff the rest of the buffer is well formed |
| Utf8.PrefixIsWellFormed | src/gs-auth-pam.c:281-285 | The part the validator passes is well-formed UTF-8 |
| Utf8.RepairGoesOn | src/gs-auth-pam.c:282-285 | Overwriting the one byte where the validator stopped is one round of the repair: what is done, followed by what is left, still repairs to the same text |
| Conversation.Pam.Converse | src/gs-auth-pam.c:252-329 | Either success with one reply slot per message filled in order, all new memory owned by the caller, or an error with a null array every block it allocated freed exactly once; the messages shown are those up to and including the refused one; a failed allocation touches nothing |
| Conversation.Pam.ConverseLoop | src/gs-auth-pam.c:259-324 | The loop stops at the first refusal and either owns exactly the array and the answers or has given everything back |
| Conversation.Pam.Exchange | src/gs-auth-pam.c:289-323 | One round adds exactly one owned slot, or frees all answers and the array |
| Conversation.Pam.FreeReplies | src/gs-auth-pam.c:308-321 | Each answer and the array are given back once, and nothing else |
| Conversation.Pam.DisplayText | src/gs-auth-pam.c:267-287 | The text shown is the conversion or the repaired bytes |
| Conversation.Pam.Ask | src/gs-auth-pam.c:289-306 | One message is shown as its text and leaves one new block for the text and one for an answer, if any |
| Conversation.Heap.Free | src/gs-auth-pam.c:308-321 | Freeing demands a live block, so no block is freed twice |
| Conversation.OwnsOneMore | src/gs-auth-pam.c:289-310 | Adding an answer keeps ownership exact |
| Conversation.ShownIsWellFormed | src/gs-auth-pam.c:267-287 | Everything shown to the user is well-formed UTF-8 |
| Conversation.EachIsShown | src/gs-auth-pam.c:263-287 | Each message is shown in its own style, converted if that works, else unchanged exactly if it is well-formed UTF-8 and repaired at the same length otherwise |
| Conversation.HeardIsTexts | src/gs-auth-pam.c:259-307 | The messages heard are the texts of a prefix of the messages, in order |
| Handoff.EveryRequestOnce | src/gs-auth-pam.c:171-238 | In every interleaving, including spurious wakeups that come while the callback has the mutex: one outstanding request at most, each handled exactly once in order, each return with its handler's verdict, and no access to a record whose frame is gone |
| Handoff.RunKeepsInv | src/gs-auth-pam.c:171-238 | The invariant of both threads over every interleaving whose spurious wakeups are harmless |
| Handoff.SpuriousKeepsInv | src/gs-auth-pam.c:229-231 | A spurious wakeup is harmless while the callback has the mutex |
| Handoff.SignalFindsWaiter | src/gs-auth-pam.c:190-194 | No wakeup is lost: when the callback signals, the worker waits or has been woken already |
| Handoff.RequestProgresses | src/gs-auth-pam.c:204-238 | No deadlock and no livelock: some thread can step and every such step brings the return nearer, by at most thirteen steps in all |
| Handoff.SpuriousWakeupIsWild | src/gs-auth-pam.c:229-231 | One spurious wakeup of a worker that waits while the callback does not have the mutex has a continuation with a verdict nobody gave and a use of the popped record |
| Handoff.WildIffExposed | src/gs-auth-pam.c:229-231 | The exact condition, in every state of the invariant: a spurious wakeup can lead to the use of a popped record if and only if the worker waits and the callback does not have the mutex |
| Fade.ResetRestores | src/gs-fade.c:857-881 | After any run the hardware shows the originals dimmed by the clamped alpha where a copy is saved and exactly the originals elsewhere, a fade is active iff its timer is live, and a reset restores all of them exactly |
| Fade.RunShowsScaled | src/gs-fade.c:522-554 | In every run each ramp with a copy is shown with every entry times alpha, truncated, for an alpha between 0 and 1 (zero below, unchanged above), and every other ramp as it was |
| Fade.SetupCopies | src/gs-fade.c:465-520 | A first setup copies exactly the ramps of the CRTCs with a mode, up to the first that cannot be read, and works iff there is none |
| Fade.FadeLowers | src/gs-fade.c:647-772 | A fade of N = timeout * 60 / 1000 steps lowers alpha by exactly 1/N per tick, and is over exactly when less than a hundredth was left |
| Fade.FirstFadeShows | src/gs-fade.c:522-772 | After n ticks of a first fade each CRTC with a mode shows its ramp times 1 - n/N, and each other its own |
| Fade.AsyncDoes | src/gs-fade.c:795-821 | Starting leaves the screen and alpha as they are; a fade runs exactly if it can; its callback joins those that wait, or all are called at once without RandR |
| Fade.FinishDoes | src/gs-fade.c:677-691 | Finishing stops an active fade where it is and calls what is pending; an inactive one is left alone |
| Fade.TickDoes | src/gs-fade.c:647-707 | A tick lowers alpha, or ends the fade and calls what is pending; without a timer nothing happens |
| Fade.ResetDoes | src/gs-fade.c:857-881 | A reset restores the originals and stops the fade without calling anybody |
| Fade.StepKeepsInv | src/gs-fade.c:465-581 | Restoration, single timer and callback accounting survive every call and tick, failed and partial setups included |
| Fade.RunKeepsInv | src/gs-fade.c:465-581 | and every run |
| Fade.CallbacksOnce | src/gs-fade.c:780-821 | In every run each registered callback has been called once, in order, or is pending; a fade that completes leaves none pending |
| Fade.FadeEnds | src/gs-fade.c:647-772 | A fade that can start, with N steps and from any alpha, left alone is over after N + 1 ticks with all callbacks run and less than a hundredth of the light left |
| Fade.TicksDim | src/gs-fade.c:648-661 | After n ticks a fade is over or alpha has gone down n times |
| Fade.TickDims | src/gs-fade.c:648-661 | A tick never makes an entry of any ramp brighter |
| Fade.DimKeepsOrder | src/gs-fade.c:543-547 | Sorted ramps stay sorted and a smaller ratio never gives a larger entry |
| Fade.ResetKeeps | src/gs-fade.c:857-881 | A reset ends with the original ramps, no copy and no timer |
| Fade.SetupKeeps | src/gs-fade.c:465-520 | A setup, complete or failing part-way, saves copies of undimmed ramps only |
| Fade.Dim | src/gs-fade.c:543-547 | The entry times the ratio, truncated: d <= v * ratio < d + 1 |
| FadeObjects.Crtc.WhackGamma | src/gs-fade.c:522-554 | The three filling loops set the hardware ramps to the copy dimmed by the clamped ratio; an empty copy changes nothing |
| FadeObjects.Fade.Setup | src/gs-fade.c:465-520 | The loop over CRTCs saves a copy of each with a mode, up to the first failure, and never overwrites an existing copy |
| FadeObjects.Fade.SetAlpha | src/gs-fade.c:556-645 | The loop over CRTCs dims each from its own copy and no other |
| FadeObjects.Fade.EmitFaded | src/gs-fade.c:780-793 | The emission calls every pending callback once, in order of registration |
| FadeObjects.Fade.Finish | src/gs-fade.c:678-691 | Only an active fade finishes, and it is stopped before its callbacks run |
| FadeObjects.Fade.Start | src/gs-fade.c:727-772 | Starting refines the specification, including the failed setup that does not start |
| FadeObjects.Fade.Async | src/gs-fade.c:796-821 | A running fade is stopped, the callback is registered, and the fade starts |
| FadeObjects.Fade.FadeIter | src/gs-fade.c:648-661 | One dimming, or none when alpha is below one hundredth |
| FadeObjects.Fade.Timer | src/gs-fade.c:694-707 | One tick refines the state machine |
| FadeObjects.Fade.Reset | src/gs-fade.c:857-881 | Resetting refines the state machine: restore first, then drop the copies |
| Geometry.Window.GetOutsideRegion | src/gs-window-x11.c:258-281 | The accumulated region is exactly the points of all lower-numbered monitors |
| Geometry.Window.UpdateGeometry | src/gs-window-x11.c:284-319 | The window gets the extents of exactly the points that its monitor shows and no lower one does |
| Geometry.GetExtents | src/gs-window-x11.c:303-306 | The extents are the smallest rectangle around the points, touching all four sides, or an empty one |
| Geometry.CreateWindows | src/gs-manager.c:1139-1162 | One window per monitor, in order, and every point of every monitor lies in some window |
| Geometry.Covered | src/gs-window-x11.c:257-319 | Coverage for any layout, overlapping or mirrored |
| Geometry.StaysInside | src/gs-window-x11.c:284-319 | A window never reaches outside its monitor |
| Geometry.Smallest | src/gs-window-x11.c:284-319 | Any rectangle around a monitor's own points contains the window |
| Geometry.DisjointGetsAll | src/gs-window-x11.c:284-319 | A monitor that shares no point with a lower one gets exactly its own rectangle |
| Geometry.FirstAndMirrored | src/gs-window-x11.c:284-319 | The first window covers its monitor exactly, and the window of a monitor that mirrors a lower one is empty |
| Geometry.EmptyIffHidden | src/gs-window-x11.c:284-319 | A window is empty if and only if lower monitors show all of its monitor |
| Pixels.Convert | src/gs-lock-plug.c:621-680 | For either byte order and any width, height and stride of at least 4 * width, both branches stay in bounds, turn each pixel into its converted pixel and leave every byte of padding untouched |
| Pixels.ConvertInPlace | src/gs-lock-plug.c:635-657 | The in-place loops meet that specification although source and destination are the same bytes |
| Pixels.ConvertCopy | src/gs-lock-plug.c:658-678 | So do the copying loops with their two pointers |
| Pixels.SamePixels | src/gs-lock-plug.c:635-678 | Both branches give the same pixels, whatever the destination held |
| Pixels.Determined | src/gs-lock-plug.c:621-680 | The specification determines every byte of the result |
| Pixels.OnePixel | src/gs-lock-plug.c:635-678 | Writing one pixel disturbs no other pixel and no padding |
| Pixels.FitsIff | src/gs-lock-plug.c:633-633 | The quotient fits a byte if and only if the colour is at most alpha |
| Pixels.UnmulIs | src/gs-lock-plug.c:633-633 | The bounds of the quotient for a colour up to alpha, and zero without alpha |
| Pixels.ClearAndOpaque | src/gs-lock-plug.c:635-678 | For either byte order a transparent pixel becomes zero, an opaque one keeps its colours in their new places, and alpha is kept |
| Pixels.RecoverableIff | src/gs-lock-plug.c:633-633 | Multiplying by alpha and rounding up recovers the colour if and only if it was at most alpha |
| Pixels.PixelRoundTrip | src/gs-lock-plug.c:635-678 | A converted pixel gives back its cairo pixel if and only if none of its colours was larger than alpha |
| Layouts.BuildIsNumbered | src/gs-lock-plug.c:1503-1531 | Although only the nearest earlier duplicate is updated: a source is unique iff no other has its name, and its subscript is one plus the number of earlier ones with its name |
| Layouts.BuildLists | src/gs-lock-plug.c:1502-1531 | The sources are exactly the xkb entries, in order, each with its position as index |
| Layouts.Chosen | src/gs-lock-plug.c:1499-1502 | Positions of the xkb entries: all of them, nothing else, strictly increasing |
| Layouts.LabelsDiffer | src/gs-lock-plug.c:1449-1474 | Name and subscript pairs are distinct and no two sources are shown by the same label |
| Layouts.LabelTells | src/gs-lock-plug.c:1462-1470 | A source alone with its name is shown by the bare name, one of several with its number among them |
| Layouts.BuildAtCurrent | src/gs-lock-plug.c:1524-1526 | The remembered position is that of the source the setting names, or the first |
| Layouts.NewIsNumbered | src/gs-lock-plug.c:1508-1522 | The new source is numbered correctly from the nearest duplicate alone |
| Layouts.OldStaysNumbered | src/gs-lock-plug.c:1514-1522 | Marking only the nearest duplicate keeps all earlier sources right |
| Layouts.LockPlug.InitInputSources | src/gs-lock-plug.c:1477-1539 | The nested loops with back-patching of earlier objects build exactly the specified list and position |
| Layouts.LockPlug.NumberAfterLast | src/gs-lock-plug.c:1514-1522 | The backward search stops at the nearest duplicate, marks it, and numbers the new source after it |
| Layouts.LockPlug.CurrentChanged | src/gs-lock-plug.c:1449-1474 | The label is that of the first source with the current index, and unchanged if there is none |
| Layouts.LockPlug.Clicked | src/gs-lock-plug.c:1542-1559 | A click moves on by one around the list, writes that source's index and shows its label |
| Layouts.RoundTheList | src/gs-lock-plug.c:1542-1559 | Of as many clicks as sources exactly one, a known one, gets to each position, and the last gets back |
| Layouts.LockPlug.ClickRound | src/gs-lock-plug.c:1542-1559 | As many clicks as sources write the index of every source exactly once and end at the source where they began, with its label shown |
| Layouts.OpenAndClickRound | src/gs-lock-plug.c:1477-1559 | The same from construction on: the list that was built meets what clicking demands |
| Layouts.BuildIncreases | src/gs-lock-plug.c:1499-1531 | The indices of a built list strictly increase |

## Left out

- D-Bus connection, match rules, introspection, ConsoleKit and logind plumbing: only the resulting events are modelled.
- GTK widgets, drawing, the clock, the info bar, CSS and the user's picture: no state properties.
- The X11 grab: activation gets its result as a parameter; moving a grab to a window is taken to succeed, and retries and sleeps are not modelled.
- `session_idle_start`, `active_start` and GetActiveTime: bookkeeping that nothing else reads.
- The command channel: the dialog process is taken to start, and reads end in lines or end of file, because a failed spawn or a read error leaves `dialog_up` set.
- Lines end at the newline character; the other line terminators that GLib's channel would accept do not occur in what the dialog prints.
- Destroyed windows are inert: idle callbacks that are pending for them do nothing.
- SessionObjects.Window.ReadLine: does not shake the dialog after AUTH FAILED or kill it after REQUEST QUIT; the nested main loop is not modelled, each handler is atomic, and the child ends with end of file.
- SessionSafety.AnyInputCounts: an input event is one that counts; the motion threshold and the ignored brightness keys, which only remove events, and the key queue, which is modelled on its own, are not part of it.
- SessionObjects.Monitor.OnInput: likewise.
- The embedded keyboard, the logout command and user switching.
- SessionObjects.Monitor.WatcherIdleNotice: does not start the fade, the offscreen grab and its delayed release; only whether the notice is accepted is modelled.
- The manager's `fading` flag: activation never fades, so it stays false.
- Several screens: there is one, with at least one monitor at all times, because destroying an empty window list skips its disconnect.
- SessionObjects.Watcher.OnIdleTimeout: does not return whether to retry; the idle timer is an event that may come at any time, and nothing is claimed about when.
- SessionObjects.Watcher.SetStatus: does not queue and remove the idle timer, for the same reason.
- SessionObjects.Monitor.UpdateFromPrefs: does not pass on the logout, keyboard, user-switch and status message settings, which have no bearing on the lock.
- PAM modules, the setuid code, bsd_auth, child processes and signals. Unknown PAM message styles abort the program and are not modelled; `resp_retcode` is always success.
- Dialog.Process.AuthCheckIdle: what a process prints between a cancel and its end is arbitrary (it raises SIGTERM, unless PAM finished in the same round of the main loop); the attempts it might still make then are part of that.
- The XF86 gamma-number path, whose floor of 0.1 breaks exact restoration, and gs_fade_sync, which nothing calls.
- Fade.FadeEnds: alpha and ratio are real numbers, not floating point; the step of a fade with no steps, infinite in the program, is a finite number that takes any alpha below zero; callbacks do not start another fade; the list of CRTCs does not change during a fade.
- Geometry.GetExtents: where an empty window lies is not specified; a region is a set of points, not a list of boxes.
- Layouts.LockPlug.InitInputSources: the short names are given with the entries instead of being looked up in the keyboard database.
- Wire.Truncate: number conversion is that of glibc with a 64-bit long.
