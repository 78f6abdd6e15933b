/** The keys typed at a locked screen before its dialog is there to take them. */
module KeyQueue {

  datatype Key = Return | KPEnter | Escape | Space | Tab | Up | Down | Other(keyval: nat)

  const MAX_QUEUED_EVENTS: nat := 16

  /** Keys that only wake the screen: the first of them are eaten. */
  predicate Wakes(k: Key) {
    k.Return? || k.KPEnter? || k.Escape? || k.Space?
  }

  /** Keys that would move the focus in the dialog. */
  predicate Navigates(k: Key) {
    k.Tab? || k.Up? || k.Down?
  }

  function DropNavigation(ks: seq<Key>): seq<Key> {
    if ks == [] then []
    else if Navigates(ks[0]) then DropNavigation(ks[1..])
    else [ks[0]] + DropNavigation(ks[1..])
  }

  function DropLeadingWakes(ks: seq<Key>): seq<Key> {
    if ks != [] && Wakes(ks[0]) then DropLeadingWakes(ks[1..]) else ks
  }

  function First(ks: seq<Key>, n: nat): seq<Key> {
    if |ks| <= n then ks else ks[..n]
  }

  /** What the dialog gets of the keys typed since the last flush. */
  function Replay(typed: seq<Key>): seq<Key> {
    First(DropLeadingWakes(DropNavigation(typed)), MAX_QUEUED_EVENTS)
  }

  function Reversed(ks: seq<Key>): (r: seq<Key>)
    ensures |r| == |ks| && forall i :: 0 <= i < |ks| ==> r[i] == ks[|ks| - 1 - i]
  {
    seq(|ks|, i requires 0 <= i < |ks| => ks[|ks| - 1 - i])
  }

  lemma {:induction false} DropNavigationAppend(ks: seq<Key>, k: Key)
    ensures DropNavigation(ks + [k]) == DropNavigation(ks) + if Navigates(k) then [] else [k]
  {
    if ks == [] {
      assert ks + [k] == [k] && [k][1..] == [];
    } else {
      assert (ks + [k])[1..] == ks[1..] + [k];
      DropNavigationAppend(ks[1..], k);
    }
  }

  lemma {:induction false} DropLeadingWakesAppend(ks: seq<Key>, k: Key)
    ensures DropLeadingWakes(ks + [k])
         == if DropLeadingWakes(ks) == [] && Wakes(k) then [] else DropLeadingWakes(ks) + [k]
  {
    if ks == [] {
      assert ks + [k] == [k] && [k][1..] == [];
    } else {
      assert (ks + [k])[1..] == ks[1..] + [k];
      DropLeadingWakesAppend(ks[1..], k);
    }
  }

  /** One more key: eaten, dropped, kept, or too late. */
  lemma ReplayAppend(typed: seq<Key>, k: Key)
    ensures var r := Replay(typed);
            Replay(typed + [k])
            == if r == [] && k in {Return, KPEnter, Escape, Space} then r
               else if k in {Tab, Up, Down} || |r| >= 16 then r
               else r + [k]
    ensures Replay([]) == []
  {
    DropNavigationAppend(typed, k);
    var kept := DropNavigation(typed);
    if Navigates(k) {
      assert DropNavigation(typed + [k]) == kept;
    } else {
      DropLeadingWakesAppend(kept, k);
      var d := DropLeadingWakes(kept);
      if |d| < MAX_QUEUED_EVENTS {
        assert First(d, MAX_QUEUED_EVENTS) == d;
      } else {
        assert (d + [k])[..MAX_QUEUED_EVENTS] == d[..MAX_QUEUED_EVENTS];
      }
    }
  }

  /** The key_events field of a window, newest first. */
  class Queue {
    var keyEvents: seq<Key>

    constructor ()
      ensures Shows([])
    {
      keyEvents := [];
    }

    /** The queue after these keys since the last flush or discard. */
    ghost predicate Shows(typed: seq<Key>)
      reads this
    {
      keyEvents == Reversed(Replay(typed))
    }

    method QueueKeyEvent(k: Key, ghost typed: seq<Key>)
      requires Shows(typed)
      modifies this
      ensures Shows(typed + [k])
    {
      ReplayAppend(typed, k);
      if keyEvents == [] && Wakes(k) {
        return;
      }
      if |keyEvents| < MAX_QUEUED_EVENTS && !Navigates(k) {
        keyEvents := [k] + keyEvents;
      }
    }

    /** Sends the queue to the dialog, oldest key first. */
    method ForwardKeyEvents(ghost typed: seq<Key>) returns (forwarded: seq<Key>)
      requires Shows(typed)
      modifies this
      ensures forwarded == Replay(typed) && Shows([])
    {
      forwarded := Drain(Replay(typed));
    }

    method Drain(ghost keys: seq<Key>) returns (forwarded: seq<Key>)
      requires keyEvents == Reversed(keys)
      modifies this
      ensures forwarded == keys && keyEvents == []
    {
      keyEvents := Reversed(keyEvents);
      forwarded := [];
      assert keyEvents == keys;
      while keyEvents != []
        invariant |forwarded| <= |keys|
        invariant forwarded == keys[..|forwarded|] && keyEvents == keys[|forwarded|..]
        decreases |keyEvents|
      {
        forwarded := forwarded + [keyEvents[0]];
        keyEvents := keyEvents[1..];
      }
    }

    method RemoveKeyEvents()
      modifies this
      ensures Shows([])
    {
      keyEvents := Reversed(keyEvents);
      while keyEvents != []
        decreases |keyEvents|
      {
        keyEvents := keyEvents[1..];
      }
    }
  }

  /** The keys of ks that stand at the given positions. */
  function At(ks: seq<Key>, positions: seq<nat>): seq<Key>
    requires forall i :: 0 <= i < |positions| ==> positions[i] < |ks|
  {
    seq(|positions|, i requires 0 <= i < |positions| => ks[positions[i]])
  }

  predicate Increasing(positions: seq<nat>) {
    forall i, j :: 0 <= i < j < |positions| ==> positions[i] < positions[j]
  }

  /** Nothing is invented, repeated or reordered, no navigation key gets through, the first key
      is not one that merely wakes, and at most sixteen keys are sent. */
  lemma {:induction false} ReplayIsSubsequence(typed: seq<Key>) returns (positions: seq<nat>)
    ensures Increasing(positions) && forall i :: 0 <= i < |positions| ==> positions[i] < |typed|
    ensures Replay(typed) == At(typed, positions)
    ensures forall k :: k in Replay(typed) ==> k !in {Tab, Up, Down}
    ensures Replay(typed) != [] ==> Replay(typed)[0] !in {Return, KPEnter, Escape, Space}
    ensures |Replay(typed)| <= 16
  {
    positions := [];
    if typed != [] {
      var n := |typed| - 1;
      var before := typed[..n];
      positions := ReplayIsSubsequence(before);
      ReplayAppend(before, typed[n]);
      assert typed == before + [typed[n]];
      assert At(before, positions) == At(typed, positions);
      if Replay(typed) != Replay(before) {
        positions := positions + [n];
        assert Replay(typed) == At(typed, positions);
      }
    }
  }
}
