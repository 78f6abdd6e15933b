/** When the lock comes on: who may start it, and by when. */
module SessionTiming {
  import opened Session
  import opened SessionInvariant
  import opened SessionSteps
  import opened Options
  import opened Wire

  /** The lock delay is over for a timeout of this many milliseconds. */
  predicate Elapsed(s: State, timeout: int) {
    (s.loop.now / 1000 - s.manager.activateTime) * 1000 >= timeout
  }

  predicate MayLock(p: Prefs) {
    p.lockEnabled && !p.lockDisabled
  }

  /** The only ways to an active lock: the Lock request, the suspend request, the timer, and a new
      delay that is already over. The administrator can forbid all of them. */
  predicate Starts(s: State, e: Event) {
    match e
    case LockCall(grab) => !s.prefs.lockDisabled && (s.manager.active || grab)
    case PrepareForSleep(grab) => MayLock(s.prefs) && (s.manager.active || grab)
    case LockTimer(id) => MayLock(s.prefs) && id in s.loop.timers && s.loop.timers[id] <= s.loop.now
    case PrefChanged(LockDelay(seconds)) =>
      && MayLock(s.prefs) && s.manager.active
      && ClampDelay(seconds) != s.manager.lockTimeout && Elapsed(s, ClampDelay(seconds))
    case _ => false
  }

  lemma LockScreenStarts(s: State, grab: bool)
    requires Inv(s) && !s.manager.lockActive
    ensures LockScreen(s, grab).manager.lockActive <==> s.manager.active || grab
  {
    if !s.manager.active {
      LockInactive(s, grab);
    }
  }

  lemma PrefStarts(s: State, key: PrefKey)
    requires Inv(s) && !s.manager.lockActive
    ensures Step(s, PrefChanged(key)).manager.lockActive <==> Starts(s, PrefChanged(key))
  {
    var p := SetPref(s.prefs, key);
    var s1 := s.(prefs := p, manager := s.manager.(lockEnabled := MayLock(p)));
    if s.manager.active && p.lockTimeout != s.manager.lockTimeout {
      NewDelayForm(s1, p.lockTimeout);
    }
  }

  lemma MonitorsNeverStart(s: State, n: nat, p: int)
    requires Inv(s) && !s.manager.lockActive
    ensures !Step(s, Monitors(n, p)).manager.lockActive
  {
    if n > 0 {
      MonitorsChangedKeeps(s, n, p);
    }
  }

  lemma ActivationNeverStarts(s: State, on: bool, grab: bool)
    requires Inv(s) && !s.manager.lockActive
    ensures !SetActive(s, on, grab).0.manager.lockActive
    ensures !IdleTimeout(s, grab).manager.lockActive
  {
    assert s.(manager := s.manager.(lockActive := false)) == s;
    if s.manager.active {
      IdleWhileActive(s, 0, grab);
      DeactivateSteps(s, grab);
    } else {
      ActivateSteps(s, false);
      IdleTimeoutInactive(s, grab);
    }
  }

  /** Input and dialogs touch neither the lock flag nor the lock timer, the listener or the watcher. */
  predicate SameTiming(s: State, r: State) {
    && r.listener == s.listener && r.watcher == s.watcher
    && r.manager.active == s.manager.active && r.manager.lockActive == s.manager.lockActive
    && r.manager.timerId == s.manager.timerId && r.loop == s.loop
  }

  lemma RequestsKeepTiming(s: State, p: int)
    requires Inv(s)
    ensures SameTiming(s, RequestUnlock(s, p))
  {
    RequestUnlockKeeps(s, p);
  }

  lemma FinishKeepsTiming(s: State, i: nat)
    requires i < |s.manager.windows|
    ensures SameTiming(s, FinishDialog(s, i))
  {
    PopdownForm(s, i);
  }

  lemma AnswersKeepTiming(s: State, i: nat, said: Option<Message>)
    requires i < |s.manager.windows|
    ensures SameTiming(s, Answer(s, i, said))
  {
    var w := s.manager.windows[i];
    FinishKeepsTiming(SetWindow(s, i, w.(responseOk := true)), i);
    FinishKeepsTiming(SetWindow(s, i, w.(responseOk := false)), i);
  }

  predicate IsDialogEvent(e: Event) {
    e.SimulateUserActivity? || e.ShowMessage? || e.Input? || e.ReadLine? || e.EndOfFile?
    || e.PopupIdle? || e.PlugRemoved? || e.EmitDeactivated?
  }

  lemma DialogsKeepTiming(s: State, e: Event)
    requires Inv(s) && IsDialogEvent(e)
    ensures SameTiming(s, Step(s, e))
  {
    if e.SimulateUserActivity? || e.ShowMessage? || e.Input? {
      RequestsKeepTiming(s, e.pointer);
    } else if e.ReadLine? {
      if e.window < |s.manager.windows| { AnswersKeepTiming(s, e.window, Interpret(e.line)); }
    } else if e.EndOfFile? {
      if e.window < |s.manager.windows| { FinishKeepsTiming(s, e.window); }
    }
  }

  lemma IdleDeactivationNeverStarts(s: State)
    requires Inv(s) && !s.manager.lockActive
    ensures !Step(s, DeactivatedIdle).manager.lockActive
  {
    if s.manager.deactivations > 0 {
      DeactivatedIdleKeeps(s);
      StepKeepsInv(s, DeactivatedIdle);
    }
  }

  lemma WhatStartsALock(s: State, e: Event)
    requires Inv(s) && !s.manager.lockActive
    ensures Step(s, e).manager.lockActive <==> Starts(s, e)
  {
    if e.LockCall? || e.PrepareForSleep? {
      LockScreenStarts(s, e.grab);
    } else if e.PrefChanged? {
      PrefStarts(s, e.key);
    } else if e.Monitors? {
      MonitorsNeverStart(s, e.n, e.pointer);
    } else if e.SetActiveCall? {
      ActivationNeverStarts(s, e.on, e.grab);
    } else if e.IdleTimer? {
      ActivationNeverStarts(s, true, e.grab);
    } else if e.SessionUnlock? || e.QuitCall? {
      ActivationNeverStarts(s, false, true);
    } else if e.DeactivatedIdle? {
      IdleDeactivationNeverStarts(s);
    } else if IsDialogEvent(e) {
      DialogsKeepTiming(s, e);
    }
  }

  // ---------------------------------------------------------------- administrator lockdown

  /** Locking is forbidden before each of the events. */
  predicate ForbiddenThroughout(s: State, es: seq<Event>)
    decreases es
  {
    es != [] ==> s.prefs.lockDisabled && ForbiddenThroughout(Step(s, es[0]), es[1..])
  }

  /** LOCKDOWN. While the administrator forbids locking nothing locks the screen. */
  lemma {:induction false} Lockdown(s: State, es: seq<Event>)
    requires Inv(s) && !s.manager.lockActive && ForbiddenThroughout(s, es)
    ensures !Run(s, es).manager.lockActive
    decreases es
  {
    if es != [] {
      WhatStartsALock(s, es[0]);
      StepKeepsInv(s, es[0]);
      Lockdown(Step(s, es[0]), es[1..]);
    }
  }

  // ---------------------------------------------------------------- the lock deadline

  /** An active screen is locked already or has its lock timer running. */
  predicate Armed(m: ManagerState) {
    m.active ==> m.lockActive || m.timerId != 0
  }

  /** What takes the timer of an unlocked screen away without locking it: it expires, or a new
      delay turns out to be over, while locking is not allowed. */
  predicate Disarms(s: State, e: Event) {
    && s.manager.active && !s.manager.lockActive && s.manager.timerId != 0 && !MayLock(s.prefs)
    && match e
       case LockTimer(id) => id in s.loop.timers && s.loop.timers[id] <= s.loop.now
       case PrefChanged(LockDelay(seconds)) =>
         ClampDelay(seconds) != s.manager.lockTimeout && Elapsed(s, ClampDelay(seconds))
       case _ => false
  }

  /** What helps an active, unlocked screen without a timer: a lock, the end of the screen, a window
      that is shown, or a new delay, unless that is over and locking is not allowed. Allowing the
      lock again is not among them. */
  predicate Rearms(s: State, e: Event) {
    match e
    case LockCall(_) => !s.prefs.lockDisabled
    case PrepareForSleep(_) => MayLock(s.prefs)
    case SetActiveCall(on, _) => !on
    case SessionUnlock => true
    case QuitCall => true
    case DeactivatedIdle => s.manager.deactivations > 0
    case Monitors(n, _) => n > s.monitors
    case PrefChanged(LockDelay(seconds)) =>
      ClampDelay(seconds) != s.manager.lockTimeout && (MayLock(s.prefs) || !Elapsed(s, ClampDelay(seconds)))
    case _ => false
  }

  /** Whether the screen is armed after one more event. */
  predicate ArmedNext(s: State, armed: bool, e: Event) {
    if armed then !Disarms(s, e) else Rearms(s, e)
  }

  lemma PrefArmed(s: State, key: PrefKey)
    requires Inv(s)
    ensures Armed(Step(s, PrefChanged(key)).manager) <==> ArmedNext(s, Armed(s.manager), PrefChanged(key))
  {
    var p := SetPref(s.prefs, key);
    var s1 := s.(prefs := p, manager := s.manager.(lockEnabled := MayLock(p)));
    if s.manager.active && !s.manager.lockActive && p.lockTimeout != s.manager.lockTimeout {
      NewDelayForm(s1, p.lockTimeout);
    }
  }

  lemma MonitorsArmed(s: State, n: nat, p: int)
    requires Inv(s) && n > 0
    ensures Armed(MonitorsChanged(s, n, p).manager) <==> Armed(s.manager) || n > s.monitors
  {
    var s1 := s.(monitors := n);
    var k := |s.manager.windows|;
    if 0 < k < n {
      CancelUnlocksKeeps(s1, 0);
      var s2 := CancelUnlocks(s1, 0);
      CreateShownForm(s2, k, n);
      AddWindowsKeeps(s2, k, n);
      RequestUnlockKeeps(CreateWindows(s2, k, n), p);
    } else if k > 0 {
      DestroyExtraWindowsKeeps(s1, n, 0);
      RequestUnlockKeeps(DestroyExtraWindows(s1, n, 0), p);
    }
  }

  lemma ActivationArmed(s: State, on: bool, grab: bool)
    requires Inv(s)
    ensures Armed(SetActive(s, on, grab).0.manager) <==> Armed(s.manager) || !on
    ensures Armed(IdleTimeout(s, grab).manager) <==> Armed(s.manager)
    ensures Armed(LockScreen(s, grab).manager)
  {
    assert s.(manager := s.manager.(lockActive := s.manager.lockActive)) == s;
    if s.manager.active {
      IdleWhileActive(s, 0, grab);
      DeactivateSteps(s, grab);
    } else {
      ActivateSteps(s, false);
      IdleTimeoutInactive(s, grab);
      LockInactive(s, grab);
    }
  }

  lemma SourcesArmed(s: State, e: Event)
    requires Inv(s) && (e.Tick? || e.Presence? || e.LockTimer? || e.DeactivatedIdle?)
    ensures Armed(Step(s, e).manager) <==> ArmedNext(s, Armed(s.manager), e)
  {
    if e.Presence? && s.manager.active {
      IdleWhileActive(s, e.status, true);
    } else if e.DeactivatedIdle? && s.manager.deactivations > 0 {
      DeactivatedIdleKeeps(s);
    }
  }

  /** One dispatch takes a lock timer away, or brings one back, in exactly these cases. */
  lemma ArmedIff(s: State, e: Event)
    requires Inv(s)
    ensures Armed(Step(s, e).manager) <==> ArmedNext(s, Armed(s.manager), e)
  {
    if e.PrefChanged? {
      PrefArmed(s, e.key);
    } else if e.Monitors? {
      if e.n > 0 { MonitorsArmed(s, e.n, e.pointer); }
    } else if e.SetActiveCall? {
      ActivationArmed(s, e.on, e.grab);
    } else if e.LockCall? || e.PrepareForSleep? || e.IdleTimer? {
      ActivationArmed(s, true, e.grab);
    } else if e.SessionUnlock? || e.QuitCall? {
      ActivationArmed(s, false, true);
    } else if IsDialogEvent(e) {
      DialogsKeepTiming(s, e);
    } else {
      SourcesArmed(s, e);
    }
  }

  /** Whether a run ends armed, by the guards of its disarming and rearming events. */
  predicate EndsArmed(s: State, armed: bool, es: seq<Event>)
    decreases es
  {
    if es == [] then armed else EndsArmed(Step(s, es[0]), ArmedNext(s, armed, es[0]), es[1..])
  }

  predicate NeverDisarms(s: State, es: seq<Event>)
    decreases es
  {
    es != [] ==> !Disarms(s, es[0]) && NeverDisarms(Step(s, es[0]), es[1..])
  }

  lemma {:induction false} NeverDisarmed(s: State, es: seq<Event>)
    requires NeverDisarms(s, es)
    ensures EndsArmed(s, true, es)
    decreases es
  {
    if es != [] {
      NeverDisarmed(Step(s, es[0]), es[1..]);
    }
  }

  /** LOCK DEADLINE. After every run an active screen that is not locked has exactly one live timer,
      due within a second of the last show plus the current delay, if and only if the last event
      that took its timer away was followed by one that helps. Otherwise there is no timer at all
      and the delay is over. */
  lemma {:induction false} LockDeadline(s: State, es: seq<Event>)
    requires Inv(s)
    ensures var r := Run(s, es);
            var m := r.manager;
            && Inv(r)
            && (Armed(m) <==> EndsArmed(s, Armed(s.manager), es))
            && (m.active && !m.lockActive ==>
                  if Armed(m) then
                    && r.loop.timers.Keys == {m.timerId}
                    && Deadline(m) <= r.loop.timers[m.timerId] < Deadline(m) + 1000
                  else r.loop.timers == map[] && Deadline(m) <= r.loop.now)
    decreases es
  {
    if es != [] {
      ArmedIff(s, es[0]);
      StepKeepsInv(s, es[0]);
      LockDeadline(Step(s, es[0]), es[1..]);
    }
  }

  /** In particular the deadline is met by every run from start-up without a disarming event. */
  lemma DeadlineFromStart(prefs: Prefs, monitors: nat, now: nat, es: seq<Event>)
    requires prefs.lockTimeout < UINT_RANGE && monitors > 0
    requires NeverDisarms(Initial(prefs, monitors, now), es)
    ensures var r := Run(Initial(prefs, monitors, now), es);
            var m := r.manager;
            m.active && !m.lockActive ==>
              && r.loop.timers.Keys == {m.timerId}
              && Deadline(m) <= r.loop.timers[m.timerId] < Deadline(m) + 1000
  {
    InitialInv(prefs, monitors, now);
    NeverDisarmed(Initial(prefs, monitors, now), es);
    LockDeadline(Initial(prefs, monitors, now), es);
  }

  /** A second after the deadline there is a timer whose dispatch locks, exactly if locking is
      allowed and the timer has not been taken away. */
  lemma OverdueTimerLocks(s: State)
    requires Inv(s) && s.manager.active && !s.manager.lockActive
    requires s.loop.now >= Deadline(s.manager) + 1000
    ensures (exists id :: Step(s, LockTimer(id)).manager.lockActive) <==> MayLock(s.prefs) && Armed(s.manager)
  {
    forall id ensures Step(s, LockTimer(id)).manager.lockActive <==> Starts(s, LockTimer(id)) {
      WhatStartsALock(s, LockTimer(id));
    }
    if MayLock(s.prefs) && Armed(s.manager) {
      assert Step(s, LockTimer(s.manager.timerId)).manager.lockActive;
    }
  }

  /** The run that misses its deadline: the timer expires while locking is off for a moment. */
  function MissedEvents(s: State, ms: nat): seq<Event> {
    [PrefChanged(LockEnabled(false)), Tick(ms), LockTimer(s.manager.timerId), PrefChanged(LockEnabled(true))]
  }

  lemma MissedDeadline(s: State, ms: nat)
    requires Inv(s) && MayLock(s.prefs)
    requires s.manager.active && !s.manager.lockActive && s.manager.timerId != 0
    requires s.loop.now + ms >= Deadline(s.manager) + 1000
    ensures var r := Run(s, MissedEvents(s, ms));
            var m := r.manager;
            && Inv(r) && MayLock(r.prefs) && m.active && !m.lockActive && m.timerId == 0
            && r.loop.timers == map[] && r.loop.now >= Deadline(m) + 1000
  {
    var es := MissedEvents(s, ms);
    RunFour(s, es);
    RunKeepsInv(s, es);
    var s1 := Step(s, es[0]);
    assert s1 == s.(prefs := s.prefs.(lockEnabled := false), manager := s.manager.(lockEnabled := false));
    var s2 := Step(s1, es[1]);
    var s3 := Step(s2, es[2]);
    assert s3 == s2.(manager := s2.manager.(timerId := 0), loop := s2.loop.(timers := map[]));
  }

  lemma RunFour(s: State, es: seq<Event>)
    requires |es| == 4
    ensures Run(s, es) == Step(Step(Step(Step(s, es[0]), es[1]), es[2]), es[3])
  {
    var s1 := Step(s, es[0]);
    var s2 := Step(s1, es[1]);
    var s3 := Step(s2, es[2]);
    assert es[1..][1..] == es[2..] && es[2..][1..] == es[3..] && es[3..][1..] == [];
    assert Run(s, es) == Run(s1, es[1..]) == Run(s2, es[2..]) == Run(s3, es[3..]) == Run(Step(s3, es[3]), []);
  }

  /** No lock comes early: the timer and a new delay lock only after the delay, counted from the
      second in which a window was last shown. */
  lemma LockIsNotEarly(s: State, e: Event)
    requires Inv(s) && !s.manager.lockActive && Step(s, e).manager.lockActive
    requires e.LockTimer? || e.PrefChanged?
    ensures s.manager.active && Deadline(Step(s, e).manager) <= s.loop.now
  {
    WhatStartsALock(s, e);
    if e.PrefChanged? {
      var p := SetPref(s.prefs, e.key);
      NewDelayForm(s.(prefs := p, manager := s.manager.(lockEnabled := MayLock(p))), p.lockTimeout);
    }
  }
}
