/** Where the windows and the dialog are after monitors come and go. */
module SessionHotplug {
  import opened Session
  import opened SessionEvents
  import opened SessionInvariant
  import opened SessionSteps

  /** The same windows, without a dialog. */
  function Closed(ws: seq<WindowState>): (r: seq<WindowState>)
    ensures |r| == |ws|
  {
    seq(|ws|, i requires 0 <= i < |ws| => PoppedDown(ws[i]).(sensitive := true))
  }

  /** A window that stays keeps all but its sensitivity. */
  lemma {:induction false} SurvivorsKept(s: State, n: nat, i: nat)
    requires i <= n && i <= |s.manager.windows|
    requires forall j :: 0 <= j < |s.manager.windows| ==>
               if j < n then s.manager.windows[j].monitor == j else s.manager.windows[j].monitor >= n
    ensures var ws, rs := s.manager.windows, DestroyExtraWindows(s, n, i).manager.windows;
            && |rs| == (if |ws| < n then |ws| else n)
            && forall j :: 0 <= j < |rs| ==> rs[j] == ws[j].(sensitive := rs[j].sensitive)
    decreases |s.manager.windows| - i
  {
    if i < |s.manager.windows| {
      if s.manager.windows[i].monitor >= n {
        DestroyWindowForm(s, i);
        SurvivorsKept(DestroyWindow(s, i), n, i);
      } else {
        SurvivorsKept(s, n, i + 1);
      }
    }
  }

  predicate OnlyOnePopped(ws: seq<WindowState>, ps: seq<WindowState>, i: nat) {
    && |ps| == |ws|
    && (forall j :: 0 <= j < |ws| && j != i ==> ps[j] == ws[j].(sensitive := ps[j].sensitive))
    && (i < |ws| ==> ps[i] == PoppedDown(ws[i]).(sensitive := ps[i].sensitive))
  }

  predicate PoppedFrom(ws: seq<WindowState>, rs: seq<WindowState>, i: nat) {
    && |rs| == |ws|
    && (forall j :: 0 <= j < i && j < |ws| ==> rs[j] == ws[j].(sensitive := rs[j].sensitive))
    && (forall j :: i <= j < |ws| ==> rs[j] == PoppedDown(ws[j]).(sensitive := rs[j].sensitive))
  }

  lemma OneMorePopped(ws: seq<WindowState>, ps: seq<WindowState>, rs: seq<WindowState>, i: nat)
    requires i < |ws| && OnlyOnePopped(ws, ps, i) && PoppedFrom(ps, rs, i + 1)
    ensures PoppedFrom(ws, rs, i)
  {
  }

  lemma {:induction false} CancelledAll(s: State, i: nat)
    requires i <= |s.manager.windows|
    ensures PoppedFrom(s.manager.windows, CancelUnlocks(s, i).manager.windows, i)
    decreases |s.manager.windows| - i
  {
    if i < |s.manager.windows| {
      PopdownForm(s, i);
      var p := Popdown(s, i);
      CancelledAll(p, i + 1);
      OneMorePopped(s.manager.windows, p.manager.windows, CancelUnlocks(p, i + 1).manager.windows, i);
    }
  }

  lemma CancelledForm(s: State)
    requires Core(s)
    ensures CancelUnlocks(s, 0) == s.(manager := s.manager.(dialogUp := false, windows := Closed(s.manager.windows)))
  {
    CancelUnlocksKeeps(s, 0);
    CancelledAll(s, 0);
    assert CancelUnlocks(s, 0).manager.windows == Closed(s.manager.windows);
  }

  /** Monitors n and up are gone; none of the dialogs is left. */
  function Unplugged(s: State, n: nat): State
    requires n <= |s.manager.windows|
  {
    s.(monitors := n, manager := s.manager.(dialogUp := false, windows := Closed(s.manager.windows[..n])))
  }

  lemma UnplugForm(s: State, n: nat)
    requires Inv(s) && s.manager.active && 0 < n < s.monitors
    requires forall j :: 0 <= j < n ==> !s.manager.windows[j].dialogUp
    ensures DestroyExtraWindows(s.(monitors := n), n, 0) == Unplugged(s, n)
    ensures Core(Unplugged(s, n)) && InOrder(Unplugged(s, n).manager, n)
  {
    var s1 := s.(monitors := n);
    var r := DestroyExtraWindows(s1, n, 0);
    DestroyExtraWindowsKeeps(s1, n, 0);
    SurvivorsKept(s1, n, 0);
    assert !r.manager.dialogUp;
    forall j | 0 <= j < n ensures r.manager.windows[j] == Closed(s.manager.windows[..n])[j] {
      assert !s.manager.windows[j].dialogUp;
    }
    assert r.manager.windows == Closed(s.manager.windows[..n]);
  }

  /** Windows for the monitors up to n are added, hidden ones shown, and the lock delay starts again;
      the dialog, if there was one, is gone. */
  function Plugged(s: State, n: nat): State
    requires |s.manager.windows| < n && s.loop.nextId > 0
  {
    var m, k := s.manager, |s.manager.windows|;
    var id := s.loop.nextId + n - k - 1;
    s.(monitors := n,
       manager := m.(dialogUp := false, activateTime := s.loop.now / 1000, timerId := id,
                     windows := Closed(m.windows) + NewWindows(k, n, m.lockActive, true)),
       loop := LoopState(s.loop.now, map[id := s.loop.now + m.lockTimeout], id + 1))
  }

  lemma ShownIsPlugged(s: State, n: nat)
    requires |s.manager.windows| < n && s.loop.nextId > 0
    ensures var m, k := s.manager, |s.manager.windows|;
            var s2 := s.(monitors := n, manager := m.(dialogUp := false, windows := Closed(m.windows)));
            Shown(s2, Closed(m.windows) + NewWindows(k, n, m.lockActive, true), n - k) == Plugged(s, n)
  {
  }

  lemma PlugForm(s: State, n: nat)
    requires Inv(s) && s.manager.active && n > s.monitors
    ensures CreateWindows(CancelUnlocks(s.(monitors := n), 0), s.monitors, n) == Plugged(s, n)
  {
    CancelledForm(s.(monitors := n));
    var s2 := CancelUnlocks(s.(monitors := n), 0);
    CreateShownForm(s2, s.monitors, n);
    ShownIsPlugged(s, n);
  }

  lemma PluggedKeeps(s: State, n: nat)
    requires Inv(s) && s.manager.active && n > s.monitors
    ensures Core(Plugged(s, n)) && InOrder(Plugged(s, n).manager, n)
  {
    PlugForm(s, n);
    CancelUnlocksKeeps(s.(monitors := n), 0);
    AddWindowsKeeps(CancelUnlocks(s.(monitors := n), 0), s.monitors, n);
  }

  lemma {:induction false} NothingUnplugged(s: State, n: nat, i: nat)
    requires forall j :: 0 <= j < |s.manager.windows| ==> s.manager.windows[j].monitor < n
    ensures DestroyExtraWindows(s, n, i) == s
    decreases |s.manager.windows| - i
  {
    if i < |s.manager.windows| {
      NothingUnplugged(s, n, i + 1);
    }
  }

  lemma PlugDoes(s: State, n: nat, p: int)
    requires Inv(s) && s.manager.active && n > s.monitors
    ensures AnswersActivity(Plugged(s, n), MonitorsChanged(s, n, p), p)
  {
    PlugForm(s, n);
    PluggedKeeps(s, n);
    RequestDoes(Plugged(s, n), p);
  }

  lemma UnplugDoes(s: State, n: nat, p: int)
    requires Inv(s) && s.manager.active && 0 < n < s.monitors
    requires forall j :: 0 <= j < n ==> !s.manager.windows[j].dialogUp
    ensures AnswersActivity(Unplugged(s, n), MonitorsChanged(s, n, p), p)
  {
    UnplugForm(s, n);
    RequestDoes(Unplugged(s, n), p);
  }

  /** HOT-PLUG. An unchanged count changes nothing. A dialog whose monitor stays when others are
      unplugged is left alone. After any other change the dialogs are gone, there is a window for
      each monitor, and the screen acts as on activity at the pointer: a locked one gets its dialog
      there, an unlocked one has a deactivation queued there. */
  lemma MonitorsDo(s: State, n: nat, p: int)
    requires Inv(s) && n > 0
    ensures var r, ws := Step(s, Monitors(n, p)), s.manager.windows;
            if !s.manager.active then r == s.(monitors := n)
            else if n == s.monitors then r == s
            else if n > s.monitors then AnswersActivity(Plugged(s, n), r, p)
            else if exists k :: 0 <= k < n && ws[k].dialogUp then
              r == s.(monitors := n, manager := s.manager.(windows := ws[..n]))
            else AnswersActivity(Unplugged(s, n), r, p)
  {
    var ws := s.manager.windows;
    if s.manager.active {
      if n == s.monitors {
        NothingUnplugged(s, n, 0);
      } else if n > s.monitors {
        PlugDoes(s, n, p);
      } else if k :| 0 <= k < n && ws[k].dialogUp {
        UnplugKeepsDialog(s, n, p, k);
      } else {
        UnplugDoes(s, n, p);
      }
    }
  }

  /** So a locked screen ends a change with its dialog on the window at the pointer, unless that is
      on another window that stays when monitors are unplugged. */
  lemma DialogFollowsPointer(s: State, n: nat, p: int)
    requires Inv(s) && s.manager.lockActive && n > 0 && n != s.monitors
    ensures var ws, rs := s.manager.windows, Step(s, Monitors(n, p)).manager.windows;
            && |rs| == n
            && forall i :: 0 <= i < n ==>
                 (rs[i].dialogUp <==>
                   if exists k :: 0 <= k < n && n < s.monitors && ws[k].dialogUp then ws[i].dialogUp
                   else i == AtPointer(n, p))
  {
    MonitorsDo(s, n, p);
    if n > s.monitors {
      PluggedKeeps(s, n);
    } else if forall k :: 0 <= k < n ==> !s.manager.windows[k].dialogUp {
      UnplugForm(s, n);
    }
  }
}
