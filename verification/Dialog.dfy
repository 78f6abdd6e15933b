/** The unlock dialog process: what it prints over one whole run. */
module Dialog {
  import opened Options
  import opened Wire

  const MAX_FAILURES: nat := 5

  /** What a process may print when the window has stopped reading: anything but a new id. */
  type Afterwards = ms: seq<Message> | forall m :: m in ms ==> !m.WindowId?

  /** What the user and PAM do, one authentication attempt at a time. An attempt that asks
      something shows the dialog first. Cancelling quits the main loop the attempt runs in, which
      ends the process, unless PAM has just finished: the tail is what it prints then, before the
      window kills it. */
  datatype Action = Check(asks: bool, passes: bool) | Cancel(asks: bool, tail: Afterwards)

  /** The first show of the plug prints its id. */
  function ShowId(asks: bool, shown: bool, id: nat): seq<Message> {
    if asks && !shown then [WindowId(id)] else []
  }

  function Outcome(a: Action, failures: nat): seq<Message> {
    match a
    case Cancel(_, tail) => [ResponseCancel] + tail
    case Check(_, passes) =>
      if passes then [ResponseOk]
      else if failures + 1 < MAX_FAILURES then [AuthFailed]
      else [AuthFailed, RequestQuit]
  }

  /** The messages of one attempt, after some failed ones. */
  function Attempt(a: Action, failures: nat, shown: bool, id: nat): seq<Message> {
    ShowId(a.asks, shown, id) + Outcome(a, failures)
  }

  predicate TriesAgain(a: Action, failures: nat) {
    a.Check? && !a.passes && failures + 1 < MAX_FAILURES
  }

  function Attempts(actions: seq<Action>, failures: nat, shown: bool, id: nat): seq<Message> {
    if actions == [] then [] else
    var a := actions[0];
    Attempt(a, failures, shown, id) +
    if TriesAgain(a, failures) then Attempts(actions[1..], failures + 1, shown || a.asks, id) else []
  }

  /** A whole run. Without the means to lock, the dialog gives way at once. */
  function Transcript(lockable: bool, actions: seq<Action>, id: nat): seq<Message> {
    if lockable then Attempts(actions, 0, false, id) else [ResponseOk]
  }

  /** Attempt k is made, and is the first one to pass. */
  predicate FirstPass(actions: seq<Action>, k: nat) {
    && k < |actions| && actions[k].Check? && actions[k].passes
    && forall j :: 0 <= j < k ==> actions[j].Check? && !actions[j].passes
  }

  /** The same run, seen from the terminal: what is on it already, and then the attempts. */
  function PrintAttempts(printed: seq<Message>, actions: seq<Action>, failures: nat, shown: bool, id: nat)
    : seq<Message>
    decreases actions
  {
    if actions == [] then printed else
    var a := actions[0];
    var next := printed + Attempt(a, failures, shown, id);
    if TriesAgain(a, failures) then PrintAttempts(next, actions[1..], failures + 1, shown || a.asks, id)
    else next
  }

  lemma {:induction false} PrintAttemptsAppends(printed: seq<Message>, actions: seq<Action>,
                                                failures: nat, shown: bool, id: nat)
    ensures PrintAttempts(printed, actions, failures, shown, id)
         == printed + Attempts(actions, failures, shown, id)
    decreases actions
  {
    if actions != [] {
      var a := actions[0];
      var one := Attempt(a, failures, shown, id);
      if TriesAgain(a, failures) {
        PrintAttemptsAppends(printed + one, actions[1..], failures + 1, shown || a.asks, id);
      }
    }
  }

  /** Every message is one printf and one flush: the pipe carries Text(printed). */
  class Process {
    var printed: seq<Message>
    var failures: nat   // loop_counter
    var shown: bool
    const id: nat

    constructor (id: nat)
      ensures printed == [] && failures == 0 && !shown && this.id == id
    {
      printed, failures, shown, this.id := [], 0, false, id;
    }

    method Print(m: Message)
      modifies this`printed
      ensures printed == old(printed) + [m]
    {
      printed := printed + [m];
    }

    method PrintAll(ms: seq<Message>)
      modifies this`printed
      ensures printed == old(printed) + ms
    {
      for i := 0 to |ms|
        invariant printed == old(printed) + ms[..i]
      {
        Print(ms[i]);
        assert ms[..i + 1] == ms[..i] + [ms[i]];
      }
      assert ms[..|ms|] == ms;
    }

    /** The first show of the plug prints its id. */
    method Show()
      modifies this`printed, this`shown
      ensures shown && printed == old(printed) + if old(shown) then [] else [WindowId(id)]
    {
      if !shown {
        shown := true;
        Print(WindowId(id));
      }
    }

    /** The end of an attempt; the result says whether to try again. */
    method Conclude(a: Action) returns (again: bool)
      modifies this`printed, this`failures
      ensures printed == old(printed) + Outcome(a, old(failures))
      ensures again == TriesAgain(a, old(failures))
      ensures again ==> failures == old(failures) + 1
    {
      match a
      case Cancel(_, tail) =>
        Print(ResponseCancel);
        PrintAll(tail);
        again := false;
      case Check(_, passes) =>
        if passes {
          Print(ResponseOk);
          again := false;
        } else {
          Print(AuthFailed);
          failures := failures + 1;
          again := failures < MAX_FAILURES;
          if !again {
            Print(RequestQuit);
          }
        }
    }

    /** One attempt; the result says whether to try again. */
    method AuthCheckIdle(a: Action) returns (again: bool)
      modifies this
      ensures printed == old(printed) + Attempt(a, old(failures), old(shown), id)
      ensures again == TriesAgain(a, old(failures))
      ensures again ==> failures == old(failures) + 1 && shown == (old(shown) || a.asks)
    {
      if a.asks {
        Show();
      }
      again := Conclude(a);
    }

    /** Attempts follow each other until one passes, the user cancels, or five have failed. */
    method AuthLoop(actions: seq<Action>)
      modifies this
      ensures printed == old(printed) + Attempts(actions, old(failures), old(shown), id)
    {
      PrintAttemptsAppends(printed, actions, failures, shown, id);
      var i, again := 0, true;
      while again && i < |actions|
        invariant 0 <= i <= |actions|
        invariant PrintAttempts(old(printed), actions, old(failures), old(shown), id)
               == if again then PrintAttempts(printed, actions[i..], failures, shown, id) else printed
      {
        assert actions[i..][1..] == actions[i + 1..];
        again := AuthCheckIdle(actions[i]);
        i := i + 1;
      }
    }

    /** The whole process. */
    method RunProcess(lockable: bool, actions: seq<Action>)
      requires failures == 0 && !shown
      modifies this
      ensures printed == old(printed) + Transcript(lockable, actions, id)
    {
      if lockable {
        AuthLoop(actions);
      } else {
        Print(ResponseOk);
      }
    }
  }

  /** After a first failed attempt, the first to pass is one attempt nearer. */
  lemma FirstPassShifts(actions: seq<Action>, k: nat)
    requires actions != [] && actions[0].Check? && !actions[0].passes
    ensures FirstPass(actions, k) <==> k > 0 && FirstPass(actions[1..], k - 1)
  {
    if k > 0 && FirstPass(actions, k) {
      forall j | 0 <= j < k - 1 ensures actions[1..][j].Check? && !actions[1..][j].passes {
        assert actions[1..][j] == actions[j + 1];
      }
    }
    if k > 0 && FirstPass(actions[1..], k - 1) {
      forall j | 0 <= j < k ensures actions[j].Check? && !actions[j].passes {
        if j > 0 { assert actions[j] == actions[1..][j - 1]; }
      }
    }
  }

  predicate PassesWithin(actions: seq<Action>, n: int) {
    exists k: nat :: k < n && FirstPass(actions, k)
  }

  lemma PassesWithinShifts(actions: seq<Action>, n: nat)
    requires n > 0 && actions != [] && actions[0].Check? && !actions[0].passes
    ensures PassesWithin(actions, n) <==> PassesWithin(actions[1..], n - 1)
  {
    if PassesWithin(actions, n) {
      var k: nat :| k < n && FirstPass(actions, k);
      FirstPassShifts(actions, k);
    }
    if PassesWithin(actions[1..], n - 1) {
      var k: nat :| k < n - 1 && FirstPass(actions[1..], k);
      FirstPassShifts(actions, k + 1);
    }
  }

  lemma NonePass(actions: seq<Action>)
    requires actions == [] || actions[0].Cancel?
    ensures forall n :: !PassesWithin(actions, n)
  {
    assert forall k: nat :: !FirstPass(actions, k);
  }

  /** What the window hears of an attempt and what follows it. */
  lemma HeardAttempt(a: Action, failures: nat, shown: bool, id: nat, rest: seq<Message>)
    ensures var heard := Heard(Attempt(a, failures, shown, id) + rest);
            ResponseOk in heard <==> a.Check? && (a.passes || ResponseOk in Heard(rest))
  {
    var ids := ShowId(a.asks, shown, id);
    var one := Attempt(a, failures, shown, id);
    match a
    case Cancel(_, tail) => HeardUpTo(ids, ResponseCancel, tail + rest, one + rest);
    case Check(_, passes) =>
      if passes {
        HeardUpTo(ids, ResponseOk, rest, one + rest);
      } else {
        HeardAppend(one, rest);
      }
  }

  lemma HeardUpTo(before: seq<Message>, m: Message, after: seq<Message>, all: seq<Message>)
    requires all == before + ([m] + after) && IsResponse(Some(m))
    requires forall b :: b in before ==> !IsResponse(Some(b))
    ensures Heard(all) == before + [m]
  {
    HeardAppend(before, [m] + after);
  }

  lemma AttemptsSayOkNext(actions: seq<Action>, failures: nat, shown: bool, id: nat)
    requires actions != []
    ensures var a := actions[0];
            (ResponseOk in Heard(Attempts(actions, failures, shown, id))) ==
            ((a.Check? && a.passes)
             || (TriesAgain(a, failures)
                 && ResponseOk in Heard(Attempts(actions[1..], failures + 1, shown || a.asks, id))))
  {
    var a := actions[0];
    var rest := if TriesAgain(a, failures) then Attempts(actions[1..], failures + 1, shown || a.asks, id) else [];
    HeardAttempt(a, failures, shown, id, rest);
  }

  predicate Passes(actions: seq<Action>, n: nat) {
    n > 0 && actions != [] && actions[0].Check? && (actions[0].passes || Passes(actions[1..], n - 1))
  }

  lemma {:induction false} PassesIsPassesWithin(actions: seq<Action>, n: nat)
    ensures Passes(actions, n) <==> PassesWithin(actions, n)
  {
    if actions == [] || actions[0].Cancel? {
      NonePass(actions);
    } else if n > 0 && actions[0].passes {
      assert FirstPass(actions, 0);
    } else if n > 0 {
      PassesWithinShifts(actions, n);
      PassesIsPassesWithin(actions[1..], n - 1);
    }
  }

  lemma {:induction false} AttemptsSayOk(actions: seq<Action>, failures: nat, shown: bool, id: nat)
    requires failures < MAX_FAILURES
    ensures ResponseOk in Heard(Attempts(actions, failures, shown, id)) <==> Passes(actions, MAX_FAILURES - failures)
  {
    if actions != [] {
      var again := TriesAgain(actions[0], failures);
      if again {
        AttemptsSayOk(actions[1..], failures + 1, shown || actions[0].asks, id);
      }
      AttemptsSayOkNext(actions, failures, shown, id);
      assert Passes(actions, MAX_FAILURES - failures)
          == (actions[0].Check? && (actions[0].passes || Passes(actions[1..], MAX_FAILURES - failures - 1)));
    }
  }

  /** Up to its first response the dialog says OK exactly when locking is unavailable, or one of the
      first five attempts passes and nothing but failed attempts came before it. */
  lemma SaysOk(lockable: bool, actions: seq<Action>, id: nat)
    ensures ResponseOk in Heard(Transcript(lockable, actions, id))
       <==> !lockable || PassesWithin(actions, 5)
  {
    if lockable {
      AttemptsSayOk(actions, 0, false, id);
      PassesIsPassesWithin(actions, MAX_FAILURES);
    }
  }

  lemma {:induction false} AttemptsPrintable(actions: seq<Action>, failures: nat, shown: bool, id: nat)
    requires id <= UINT32_MAX
    ensures forall m :: m in Attempts(actions, failures, shown, id) ==> Printable(m)
  {
    if actions != [] && actions[0].Check? && !actions[0].passes {
      AttemptsPrintable(actions[1..], failures + 1, shown || actions[0].asks, id);
    }
  }

  /** What the window reads of a run is the run: no byte is lost or misread on the way. */
  lemma WindowReadsTranscript(lockable: bool, actions: seq<Action>, id: nat)
    requires id <= UINT32_MAX
    ensures Decode(Lines(Text(Transcript(lockable, actions, id)))) == Somes(Transcript(lockable, actions, id))
  {
    if lockable {
      AttemptsPrintable(actions, 0, false, id);
    }
    RoundTrip(Transcript(lockable, actions, id));
  }
}
