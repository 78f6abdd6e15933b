/** Which parts of the state the functions of the lock protocol leave alone. */
module SessionFrames {
  import opened Session
  import opened SessionInvariant
  import opened Options
  import opened Wire

  lemma FinishFrame(s: State, i: nat)
    requires i < |s.manager.windows|
    ensures var r := FinishDialog(s, i); r == s.(manager := r.manager)
  {
    PopdownForm(s, i);
  }

  lemma AnswerFrame(s: State, i: nat, said: Option<Message>)
    requires i < |s.manager.windows|
    ensures var r := Answer(s, i, said); r == s.(manager := r.manager)
  {
    var w := s.manager.windows[i];
    FinishFrame(SetWindow(s, i, w.(responseOk := true)), i);
    FinishFrame(SetWindow(s, i, w.(responseOk := false)), i);
  }

  lemma {:induction false} CancelUnlocksFrame(s: State, i: nat)
    ensures var r := CancelUnlocks(s, i);
            r == s.(manager := s.manager.(dialogUp := r.manager.dialogUp, windows := r.manager.windows))
    decreases |s.manager.windows| - i
  {
    if i < |s.manager.windows| {
      PopdownForm(s, i);
      CancelUnlocksFrame(Popdown(s, i), i + 1);
    }
  }

  lemma SetLockTimeoutFrame(s: State, timeout: int)
    ensures var r := SetLockTimeout(s, timeout); r == s.(manager := r.manager, loop := r.loop)
  {
  }

  lemma {:induction false} ShowWindowsFrame(s: State, i: nat)
    ensures var r := ShowWindows(s, i); r == s.(manager := r.manager, loop := r.loop)
    decreases |s.manager.windows| - i
  {
    if i < |s.manager.windows| {
      ShowWindowsFrame(ShowWindow(s, i), i + 1);
    }
  }

  lemma {:induction false} CreateWindowsFrame(s: State, k: nat, n: nat)
    ensures var r := CreateWindows(s, k, n); r == s.(manager := r.manager, loop := r.loop)
    decreases n - k
  {
    if k < n {
      CreateWindowsFrame(CreateWindow(s, k), k + 1, n);
    }
  }

  lemma SetActiveFrame(s: State, on: bool, grab: bool)
    ensures var r := (if on then Activate(s, grab) else Deactivate(s)).0;
            r == s.(manager := r.manager, loop := r.loop)
  {
    if on && grab && !s.manager.active {
      CreateWindowsFrame(s, 0, s.monitors);
      var s1 := if s.manager.windows == [] then CreateWindows(s, 0, s.monitors) else s;
      ShowWindowsFrame(s1.(manager := s1.manager.(active := true)), 0);
    }
  }

  lemma RequestUnlockFrame(s: State, p: int)
    ensures var r := RequestUnlock(s, p); r == s.(manager := r.manager)
  {
  }

  lemma {:induction false} DestroyExtraWindowsFrame(s: State, n: nat, i: nat)
    ensures var r := DestroyExtraWindows(s, n, i); r == s.(manager := r.manager)
    decreases |s.manager.windows| - i
  {
    if i < |s.manager.windows| {
      if s.manager.windows[i].monitor >= n {
        PopdownForm(s, i);
        DestroyExtraWindowsFrame(DestroyWindow(s, i), n, i);
      } else {
        DestroyExtraWindowsFrame(s, n, i + 1);
      }
    }
  }

  lemma MonitorsChangedFrame(s: State, n: nat, p: int)
    ensures var r := MonitorsChanged(s, n, p); r == s.(manager := r.manager, loop := r.loop, monitors := n)
  {
    var s1 := s.(monitors := n);
    var k := |s.manager.windows|;
    CancelUnlocksFrame(s1, 0);
    CreateWindowsFrame(CancelUnlocks(s1, 0), k, n);
    RequestUnlockFrame(CreateWindows(CancelUnlocks(s1, 0), k, n), p);
    DestroyExtraWindowsFrame(s1, n, 0);
    RequestUnlockFrame(DestroyExtraWindows(s1, n, 0), p);
  }
}
