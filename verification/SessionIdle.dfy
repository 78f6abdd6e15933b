/** When the watcher remembers the session as idle although it has been turned off.

    The watcher writes its idle flag after the activation it asked for, and that activation turns
    the watcher off and clears the flag before. */
module SessionIdle {
  import opened Session
  import opened SessionInvariant
  import opened SessionSteps
  import opened SessionTiming

  predicate IdleButOff(s: State) {
    !s.watcher.active && s.watcher.idle
  }

  /** The idle timer brings the screen up. */
  predicate IdleActivates(s: State, e: Event) {
    && e.IdleTimer? && e.grab
    && !s.manager.active && s.listener.activationEnabled && !s.listener.sessionIdle && !s.watcher.idle
  }

  lemma ActivationClearsIdle(s: State, on: bool, grab: bool)
    requires Inv(s)
    ensures var r := SetActive(s, on, grab).0; IdleButOff(r) <==> IdleButOff(s) && r.manager.active
    ensures var r := LockScreen(s, grab); IdleButOff(r) <==> IdleButOff(s) && r.manager.active
  {
    assert s.(manager := s.manager.(lockActive := s.manager.lockActive)) == s;
    if s.manager.active {
      DeactivateSteps(s, grab);
    } else {
      ActivateSteps(s, false);
      LockInactive(s, grab);
    }
  }

  lemma IdlenessAndIdle(s: State, status: nat, grab: bool)
    requires Inv(s)
    ensures IdleButOff(PresenceStatus(s, status)) <==> IdleButOff(s)
    ensures IdleButOff(IdleTimeout(s, grab)) <==> IdleActivates(s, IdleTimer(grab)) || IdleButOff(s)
    ensures s.manager.active ==> PresenceStatus(s, status).manager.active && IdleTimeout(s, grab).manager.active
  {
    if s.manager.active {
      IdleWhileActive(s, status, grab);
    } else {
      PresenceInactive(s, status);
      IdleTimeoutInactive(s, grab);
      IdleKeeps(s, status, grab);
    }
  }

  lemma SettingsKeepIdle(s: State, key: PrefKey)
    requires Inv(s)
    ensures var r := Step(s, PrefChanged(key)); r.watcher == s.watcher && r.manager.active == s.manager.active
  {
    PrefForm(s, key);
    SetLockTimeoutKeeps(PrefNoted(s, key), PrefNoted(s, key).prefs.lockTimeout);
  }

  lemma CallbackClearsIdle(s: State)
    requires Inv(s) && s.manager.deactivations > 0
    ensures !IdleButOff(Step(s, DeactivatedIdle)) && !Step(s, DeactivatedIdle).manager.active
  {
    DeactivatedIdleKeeps(s);
    StepKeepsInv(s, DeactivatedIdle);
  }

  /** The watcher is off and remembers idleness after a dispatch exactly if the idle timer has just
      activated the screen, or it did so before and the screen is still active. */
  lemma IdleButOffIff(s: State, e: Event)
    requires Inv(s)
    ensures IdleButOff(Step(s, e)) <==> IdleActivates(s, e) || (IdleButOff(s) && Step(s, e).manager.active)
  {
    if e.Presence? || e.IdleTimer? {
      IdlenessAndIdle(s, if e.Presence? then e.status else 0, e.IdleTimer? && e.grab);
    } else if e.PrefChanged? {
      SettingsKeepIdle(s, e.key);
    } else if e.Monitors? {
      if e.n > 0 { MonitorsChangedKeeps(s, e.n, e.pointer); }
    } else if e.SetActiveCall? {
      ActivationClearsIdle(s, e.on, e.grab);
    } else if e.LockCall? || e.PrepareForSleep? {
      ActivationClearsIdle(s, true, e.grab);
    } else if e.SessionUnlock? || e.QuitCall? {
      ActivationClearsIdle(s, false, true);
    } else if e.DeactivatedIdle? {
      if s.manager.deactivations > 0 { CallbackClearsIdle(s); }
    } else if IsDialogEvent(e) {
      DialogsKeepTiming(s, e);
    }
  }

  /** The screen has been active ever since the idle timer last brought it up. */
  predicate UpByIdle(s: State, es: seq<Event>, up: bool)
    decreases es
  {
    if es == [] then up
    else var r := Step(s, es[0]); UpByIdle(r, es[1..], IdleActivates(s, es[0]) || (up && r.manager.active))
  }

  /** Over every run: the flag tells whether the idle timer brought up the screen that is active. */
  lemma {:induction false} IdleButOffAfterRun(s: State, es: seq<Event>)
    requires Inv(s)
    ensures IdleButOff(Run(s, es)) <==> UpByIdle(s, es, IdleButOff(s))
    decreases es
  {
    if es != [] {
      IdleButOffIff(s, es[0]);
      StepKeepsInv(s, es[0]);
      IdleButOffAfterRun(Step(s, es[0]), es[1..]);
    }
  }
}
