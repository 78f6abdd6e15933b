/** What a run of the dialog prints, message by message, said without the loop that prints it. */
module DialogTranscript {
  import opened Dialog
  import opened Wire

  predicate Fails(a: Action) {
    a.Check? && !a.passes
  }

  /** How many attempts fail before the first that does not, n at most. */
  function Failed(actions: seq<Action>, n: nat): (f: nat)
    ensures f <= n && f <= |actions|
    ensures forall j :: 0 <= j < f ==> Fails(actions[j])
    ensures f < n && f < |actions| ==> !Fails(actions[f])
  {
    if n == 0 || actions == [] || !Fails(actions[0]) then 0 else 1 + Failed(actions[1..], n - 1)
  }

  /** How many attempts are made: the failed ones, and the one after them if there is one. */
  function Made(actions: seq<Action>, n: nat): (m: nat)
    ensures m <= |actions| && m <= n
  {
    var f := Failed(actions, n);
    if f < n && f < |actions| then f + 1 else f
  }

  /** The first of m attempts that asks something; m if none does. */
  function FirstAsk(actions: seq<Action>, m: nat): (k: nat)
    requires m <= |actions|
    ensures k <= m
    ensures forall j :: 0 <= j < k ==> !actions[j].asks
    ensures k < m ==> actions[k].asks
  {
    if m == 0 || actions[0].asks then 0 else 1 + FirstAsk(actions[1..], m - 1)
  }

  function Notices(f: nat): (r: seq<Message>)
    ensures |r| == f && forall i :: 0 <= i < f ==> r[i] == AuthFailed
  {
    if f == 0 then [] else [AuthFailed] + Notices(f - 1)
  }

  /** What comes after the failed attempts. */
  function Ending(actions: seq<Action>, n: nat): seq<Message> {
    var f := Failed(actions, n);
    if f == n then [RequestQuit]
    else if f == |actions| then []
    else if actions[f].Check? then [ResponseOk]
    else [ResponseCancel] + actions[f].tail
  }

  /** The run but for the window id: one notice for each failed attempt, and the end. */
  function Plain(actions: seq<Action>, n: nat): (r: seq<Message>)
    ensures |r| >= Failed(actions, n)
  {
    Notices(Failed(actions, n)) + Ending(actions, n)
  }

  function Insert(ms: seq<Message>, k: nat, m: Message): seq<Message>
    requires k <= |ms|
  {
    ms[..k] + [m] + ms[k..]
  }

  lemma InsertShifts(first: Message, ms: seq<Message>, k: nat, m: Message)
    requires k <= |ms|
    ensures [first] + Insert(ms, k, m) == Insert([first] + ms, k + 1, m)
  {
    assert ([first] + ms)[..k + 1] == [first] + ms[..k] && ([first] + ms)[k + 1..] == ms[k..];
  }

  lemma InsertFirst(ms: seq<Message>, m: Message)
    ensures Insert(ms, 0, m) == [m] + ms
  {
    assert ms[..0] == [] && ms[0..] == ms;
  }

  /** The id of the window stands where the first attempt that asks begins to print. */
  function WithId(actions: seq<Action>, n: nat, shown: bool, id: nat): seq<Message> {
    var k := FirstAsk(actions, Made(actions, n));
    if shown || k == Made(actions, n) then Plain(actions, n) else Insert(Plain(actions, n), k, WindowId(id))
  }

  lemma FailedFirst(actions: seq<Action>, n: nat)
    requires n > 1 && actions != [] && Fails(actions[0])
    ensures Plain(actions, n) == [AuthFailed] + Plain(actions[1..], n - 1)
    ensures Made(actions, n) == 1 + Made(actions[1..], n - 1)
  {
    var rest := actions[1..];
    assert Ending(actions, n) == Ending(rest, n - 1);
    assert Notices(Failed(actions, n)) == [AuthFailed] + Notices(Failed(rest, n - 1));
  }

  lemma FailedFirstWithId(actions: seq<Action>, n: nat, shown: bool, id: nat)
    requires n > 1 && actions != [] && Fails(actions[0])
    ensures var a := actions[0];
            WithId(actions, n, shown, id)
            == ShowId(a.asks, shown, id) + [AuthFailed] + WithId(actions[1..], n - 1, shown || a.asks, id)
  {
    var rest, p := actions[1..], Plain(actions[1..], n - 1);
    FailedFirst(actions, n);
    if !shown && actions[0].asks {
      InsertFirst([AuthFailed] + p, WindowId(id));
      assert [WindowId(id)] + ([AuthFailed] + p) == [WindowId(id)] + [AuthFailed] + p;
    } else {
      var k := FirstAsk(rest, Made(rest, n - 1));
      assert ShowId(actions[0].asks, shown, id) + [AuthFailed] == [AuthFailed];
      if !shown && k < Made(rest, n - 1) {
        InsertShifts(AuthFailed, p, k, WindowId(id));
      }
    }
  }

  lemma LastWithId(actions: seq<Action>, n: nat, shown: bool, id: nat)
    requires n > 0 && actions != [] && (Fails(actions[0]) ==> n == 1)
    ensures var a := actions[0];
            WithId(actions, n, shown, id) == ShowId(a.asks, shown, id) + Plain(actions, n)
    ensures Plain(actions, n)
         == if Fails(actions[0]) then [AuthFailed, RequestQuit]
            else if actions[0].Check? then [ResponseOk]
            else [ResponseCancel] + actions[0].tail
  {
    InsertFirst(Plain(actions, n), WindowId(id));
    assert Notices(0) == [];
    if Fails(actions[0]) {
      assert Failed(actions, 1) == 1 && Notices(1) == [AuthFailed] + Notices(0);
    }
  }

  lemma {:induction false} AttemptsForm(actions: seq<Action>, n: nat, shown: bool, id: nat)
    requires 0 < n <= MAX_FAILURES
    ensures Attempts(actions, MAX_FAILURES - n, shown, id) == WithId(actions, n, shown, id)
    decreases actions
  {
    if actions == [] {
      assert Plain(actions, n) == [];
    } else if Fails(actions[0]) && n > 1 {
      FailedFirstWithId(actions, n, shown, id);
      AttemptsForm(actions[1..], n - 1, shown || actions[0].asks, id);
    } else {
      LastWithId(actions, n, shown, id);
    }
  }

  /** TRANSCRIPT. A lockable run prints one failure notice for each failed attempt, five at most; a
      request to quit after the fifth, and otherwise the answer of the next attempt, if one is made.
      The window id stands just before what the first attempt that asks prints, and is not printed
      if no attempt that is made asks. */
  lemma TranscriptIs(actions: seq<Action>, id: nat)
    ensures var f := Failed(actions, 5);
            var k := FirstAsk(actions, Made(actions, 5));
            var plain := Notices(f) + (if f == 5 then [RequestQuit]
                                       else if f == |actions| then []
                                       else if actions[f].Check? then [ResponseOk]
                                       else [ResponseCancel] + actions[f].tail);
            Transcript(true, actions, id)
            == if k < Made(actions, 5) then plain[..k] + [WindowId(id)] + plain[k..] else plain
    ensures Transcript(false, actions, id) == [ResponseOk]
  {
    AttemptsForm(actions, 5, false, id);
  }

  lemma PlainHasNoId(actions: seq<Action>, n: nat)
    ensures forall i :: 0 <= i < |Plain(actions, n)| ==> !Plain(actions, n)[i].WindowId?
  {
    var notices, ending := Notices(Failed(actions, n)), Ending(actions, n);
    forall i | 0 <= i < |ending| ensures !ending[i].WindowId? {
      assert ending[i] in ending;
    }
    assert Plain(actions, n) == notices + ending;
  }

  lemma OnlyInserted(ms: seq<Message>, k: nat, m: Message, i: nat)
    requires k <= |ms| && m.WindowId? && i < |Insert(ms, k, m)|
    requires forall j :: 0 <= j < |ms| ==> !ms[j].WindowId?
    ensures Insert(ms, k, m)[i].WindowId? <==> i == k
    ensures Insert(ms, k, m)[k] == m
  {
  }

  /** At most one window id is printed, and it is the id of the process: at position k exactly if
      attempt k is made and is the first that asks. */
  lemma OneId(actions: seq<Action>, id: nat, i: nat)
    requires i < |Transcript(true, actions, id)|
    ensures Transcript(true, actions, id)[i].WindowId?
        <==> i < Made(actions, 5) && i == FirstAsk(actions, Made(actions, 5))
    ensures Transcript(true, actions, id)[i].WindowId? ==> Transcript(true, actions, id)[i] == WindowId(id)
  {
    AttemptsForm(actions, 5, false, id);
    PlainHasNoId(actions, 5);
    var k := FirstAsk(actions, Made(actions, 5));
    if k < Made(actions, 5) {
      OnlyInserted(Plain(actions, 5), k, WindowId(id), i);
    }
  }
}
