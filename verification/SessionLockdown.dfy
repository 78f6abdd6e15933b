/** The administrator's setting, from the event that changes it to the end of any run. */
module SessionLockdown {
  import opened Session
  import opened SessionEvents
  import opened SessionHotplug
  import opened SessionInvariant
  import opened SessionSteps
  import opened SessionTiming
  import opened Wire

  lemma DialogEventsKeepPrefs(s: State, e: Event)
    requires Inv(s) && IsDialogEvent(e)
    ensures Step(s, e).prefs == s.prefs
  {
    if e.SimulateUserActivity? || e.ShowMessage? || e.Input? {
      ActivityDoes(s, if e.Input? then e.window else 0, e.pointer);
    } else if e.ReadLine? {
      ReadLineDoes(s, e.window, e.line);
    } else if e.EndOfFile? {
      EndOfFileDoes(s, e.window);
    } else if e.PopupIdle? {
      PopupDoes(s, e.window);
    } else if e.PlugRemoved? {
      PlugRemovedDoes(s, e.window);
    } else {
      EmitDeactivatedDoes(s, e.window);
    }
  }

  lemma SourceEventsKeepPrefs(s: State, e: Event)
    requires Inv(s)
    requires e.Tick? || e.Presence? || e.IdleTimer? || e.LockTimer? || e.DeactivatedIdle?
    ensures Step(s, e).prefs == s.prefs
  {
    match e
    case Tick(ms) => TickDoes(s, ms);
    case Presence(status) => PresenceDoes(s, status);
    case IdleTimer(grab) => IdleTimerDoes(s, grab);
    case LockTimer(id) => LockTimerDoes(s, id);
    case DeactivatedIdle => DeactivatedIdleDoes(s);
  }

  /** Nothing but a changed setting changes a preference. */
  lemma OnlySettingsSet(s: State, e: Event)
    requires Inv(s) && !e.PrefChanged?
    ensures Step(s, e).prefs == s.prefs
  {
    if IsDialogEvent(e) {
      DialogEventsKeepPrefs(s, e);
    } else if e.SetActiveCall? {
      SetActiveDoes(s, e.on, e.grab);
    } else if e.SessionUnlock? || e.QuitCall? {
      DismissalsDo(s);
    } else if e.LockCall? || e.PrepareForSleep? {
      LockDoes(s, e.grab);
    } else if e.Monitors? {
      if e.n > 0 { MonitorsDo(s, e.n, e.pointer); }
    } else {
      SourceEventsKeepPrefs(s, e);
    }
  }

  /** The administrator does not allow locking again. */
  predicate NeverAllows(es: seq<Event>) {
    PrefChanged(DisableLockScreen(false)) !in es
  }

  lemma StaysForbidden(s: State, e: Event)
    requires Inv(s) && s.prefs.lockDisabled && e != PrefChanged(DisableLockScreen(false))
    ensures Step(s, e).prefs.lockDisabled
  {
    if e.PrefChanged? {
      SettingIsStored(s, e.key);
    } else {
      OnlySettingsSet(s, e);
    }
  }

  lemma {:induction false} ForbiddenUntilAllowed(s: State, es: seq<Event>)
    requires Inv(s) && s.prefs.lockDisabled && NeverAllows(es)
    ensures ForbiddenThroughout(s, es) && Run(s, es).prefs.lockDisabled
    decreases es
  {
    if es != [] {
      StaysForbidden(s, es[0]);
      StepKeepsInv(s, es[0]);
      assert forall e :: e in es[1..] ==> e in es;
      ForbiddenUntilAllowed(Step(s, es[0]), es[1..]);
    }
  }

  /** LOCKDOWN. Once the administrator has disabled the lock screen, an unlocked screen is not locked
      by any run in which that is not taken back. */
  lemma DisablingForbids(s: State, es: seq<Event>)
    requires Inv(s) && !s.manager.lockActive && NeverAllows(es)
    ensures var r := Run(Step(s, PrefChanged(DisableLockScreen(true))), es);
            r.prefs.lockDisabled && !r.manager.lockActive && !r.manager.lockEnabled
  {
    var e := PrefChanged(DisableLockScreen(true));
    var s1 := Step(s, e);
    SettingIsStored(s, DisableLockScreen(true));
    SettingDoes(s, DisableLockScreen(true));
    StepKeepsInv(s, e);
    ForbiddenUntilAllowed(s1, es);
    Lockdown(s1, es);
    RunKeepsInv(s1, es);
  }

  /** And taking it back allows locking again: Lock then locks. */
  lemma AllowingAllows(s: State)
    requires Inv(s)
    ensures var r := Step(Step(s, PrefChanged(DisableLockScreen(false))), LockCall(true));
            !r.prefs.lockDisabled && r.manager.active && r.manager.lockActive
  {
    var e := PrefChanged(DisableLockScreen(false));
    SettingIsStored(s, DisableLockScreen(false));
    StepKeepsInv(s, e);
    LockDoes(Step(s, e), true);
    OnlySettingsSet(Step(s, e), LockCall(true));
  }
}
