/** Whole runs of the objects: what the theorems about the state machine say about their fields. */
module SessionRuns {
  import opened Session
  import opened SessionInvariant
  import opened SessionLockdown
  import opened SessionObjects
  import opened SessionSafety
  import opened SessionSteps
  import opened SessionTiming

  /** All the objects together are in a state that a run can lead to. */
  ghost predicate Consistent(m: Monitor)
    reads m, m.Objects(), m.manager.windows
  {
    m.Valid() && Inv(m.View())
  }

  /** The fields of the objects agree with each other. */
  ghost predicate Agrees(m: Monitor)
    reads m, m.Objects(), m.manager.windows
  {
    var ws := m.manager.windows;
    && m.listener.active == m.manager.active == !m.watcher.active
    && (m.listener.active ==> m.listener.sessionIdle)
    && (m.manager.lockActive ==> m.manager.active)
    && m.manager.lockEnabled == (m.prefs.lockEnabled && !m.prefs.lockDisabled)
    && |ws| == (if m.manager.active then m.world.monitors else 0)
    && (forall i :: 0 <= i < |ws| ==> ws[i].monitor == i && ws[i].lockEnabled == m.manager.lockActive)
    && (forall i :: 0 <= i < |ws| ==> ws[i].dialogUp == (ws[i].popupQueued || ws[i].child))
    && (forall i, j :: 0 <= i < j < |ws| ==> !(ws[i].dialogUp && ws[j].dialogUp))
    && (m.manager.dialogUp <==> exists i :: 0 <= i < |ws| && ws[i].dialogUp)
    && (forall i :: 0 <= i < |ws| ==> ws[i].sensitive == (!m.manager.dialogUp || ws[i].dialogUp))
  }

  lemma ConsistentAgrees(m: Monitor)
    requires Consistent(m)
    ensures Agrees(m)
  {
    var s := m.View();
    assert forall i :: 0 <= i < |m.manager.windows| ==> m.manager.windows[i].View() == s.manager.windows[i];
  }

  /** No window and no idle callback has a deactivation under way. */
  ghost predicate NoneUnderWay(m: Manager)
    reads m, m.windows
  {
    m.deactivations == 0 && forall i :: 0 <= i < |m.windows| ==> m.windows[i].deactivations == 0
  }

  lemma NoneUnderWayShows(m: Manager)
    ensures NoneUnderWay(m) <==> NoneQueued(m.View())
  {
    assert forall i :: 0 <= i < |m.windows| ==> m.Views()[i] == m.windows[i].View();
  }

  method HandleEvents(m: Monitor, es: seq<Event>)
    requires Consistent(m)
    modifies m.Objects(), m.manager.windows
    ensures forall w :: w in m.manager.windows ==> w in old(m.manager.windows) || fresh(w)
    ensures Consistent(m) && Agrees(m) && m.View() == Run(old(m.View()), es)
  {
    RunKeepsInv(m.View(), es);
    m.DispatchAll(es);
    ConsistentAgrees(m);
  }

  /** From start-up on, after any events, the objects agree. */
  method RunProgram(prefs: Prefs, monitors: nat, now: nat, es: seq<Event>) returns (m: Monitor)
    requires prefs.lockTimeout < UINT_RANGE && monitors > 0
    ensures fresh(m) && Consistent(m) && Agrees(m)
    ensures m.View() == Run(Initial(prefs, monitors, now), es)
  {
    m := new Monitor(prefs, monitors, now);
    InitialInv(prefs, monitors, now);
    HandleEvents(m, es);
  }

  /** A locked screen with nothing under way is locked after any events but a dismissal or an OK,
      and so is each of its windows. */
  method RunLocked(m: Monitor, es: seq<Event>)
    requires Consistent(m) && m.manager.lockActive && NoneUnderWay(m.manager)
    requires Protected(es)
    modifies m.Objects(), m.manager.windows
    ensures Consistent(m) && m.manager.active && m.manager.lockActive && NoneUnderWay(m.manager)
    ensures |m.manager.windows| == m.world.monitors
    ensures forall w :: w in m.manager.windows ==> w.visible && w.lockEnabled
  {
    NoneUnderWayShows(m.manager);
    LockHolds(m.View(), es);
    HandleEvents(m, es);
    NoneUnderWayShows(m.manager);
    ShownAndLocked(m);
  }

  lemma ShownAndLocked(m: Monitor)
    requires Consistent(m) && m.manager.lockActive
    ensures forall w :: w in m.manager.windows ==> w.visible && w.lockEnabled
  {
    forall w | w in m.manager.windows ensures w.visible && w.lockEnabled {
      var i :| 0 <= i < |m.manager.windows| && m.manager.windows[i] == w;
      assert m.View().manager.windows[i] == w.View();
    }
  }

  /** While the administrator forbids locking no events lock the screen. */
  method RunForbidden(m: Monitor, es: seq<Event>)
    requires Consistent(m) && !m.manager.lockActive && ForbiddenThroughout(m.View(), es)
    modifies m.Objects(), m.manager.windows
    ensures Consistent(m) && !m.manager.lockActive
  {
    Lockdown(m.View(), es);
    HandleEvents(m, es);
  }

  /** From the event on: once the administrator disables the lock screen, an unlocked screen is not
      locked by any events in which that is not taken back. */
  method ForbidAndRun(m: Monitor, es: seq<Event>)
    requires Consistent(m) && !m.manager.lockActive && NeverAllows(es)
    modifies m.Objects(), m.manager.windows
    ensures Consistent(m) && m.prefs.lockDisabled && !m.manager.lockActive && !m.manager.lockEnabled
  {
    ghost var s := m.View();
    var e := PrefChanged(DisableLockScreen(true));
    DisablingForbids(s, es);
    assert ([e] + es)[0] == e && ([e] + es)[1..] == es;
    HandleEvents(m, [e] + es);
  }
}
