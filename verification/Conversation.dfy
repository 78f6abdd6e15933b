/** The PAM conversation function: one reply slot per message, and who owns the memory. */
module Conversation {
  import opened Options
  import opened Utf8

  datatype Style = PromptEchoOn | PromptEchoOff | ErrorMsg | TextInfo

  /** A message, and what the conversion from the locale makes of it, if it can. */
  datatype Prompt = Prompt(style: Style, raw: seq<byte>, converted: Option<seq<byte>>)

  /** What the user interface does with one message: an answer or none, and whether to go on. */
  datatype Reply = Reply(goOn: bool, answer: Option<seq<byte>>)

  datatype Shown = Shown(style: Style, text: seq<byte>)

  /** What the caller finds in its out-parameter. */
  datatype Out = Untouched | Null | Replies(block: nat, slots: seq<nat>)

  const NULL: nat := 0

  /** The text that is shown: converted, or else taken for UTF-8 and repaired. */
  function Text(p: Prompt): seq<byte> {
    match p.converted
    case Some(t) => t
    case None => Repair(p.raw)
  }

  function Texts(ps: seq<Prompt>): (r: seq<Shown>)
    ensures |r| == |ps|
  {
    seq(|ps|, i requires 0 <= i < |ps| => Shown(ps[i].style, Text(ps[i])))
  }

  /** The messages the user interface has been shown after r rounds: all of them, in order. */
  function Heard(before: seq<Shown>, prompts: seq<Prompt>, callback: Option<seq<Reply>>, r: nat): seq<Shown>
    requires r <= |prompts|
  {
    if r == 0 || callback.None? then before
    else Heard(before, prompts, callback, r - 1) + [Texts(prompts)[r - 1]]
  }

  lemma {:induction false} HeardIsTexts(before: seq<Shown>, prompts: seq<Prompt>, rs: seq<Reply>, r: nat)
    requires r <= |prompts|
    ensures Heard(before, prompts, Some(rs), r) == before + Texts(prompts)[..r]
  {
    if r > 0 {
      HeardIsTexts(before, prompts, rs, r - 1);
      OneMore(before, Texts(prompts), r);
    }
  }

  lemma ShownIs(before: seq<Shown>, prompts: seq<Prompt>, callback: Option<seq<Reply>>, r: nat)
    requires r <= |prompts|
    ensures Heard(before, prompts, callback, r) == before + if callback.None? then [] else Texts(prompts)[..r]
    ensures Texts(prompts)[..|prompts|] == Texts(prompts)
  {
    if callback.Some? {
      HeardIsTexts(before, prompts, callback.value, r);
    }
  }

  lemma OneMore(before: seq<Shown>, all: seq<Shown>, r: nat)
    requires 0 < r <= |all|
    ensures before + all[..r - 1] + [all[r - 1]] == before + all[..r]
  {
  }

  /** The first message the user interface refuses, or the number of messages. */
  function FirstRefusal(replies: seq<Reply>, from: nat): (k: nat)
    requires from <= |replies|
    ensures from <= k <= |replies|
    ensures forall i :: from <= i < k ==> replies[i].goOn
    ensures k < |replies| ==> !replies[k].goOn
    decreases |replies| - from
  {
    if from == |replies| || !replies[from].goOn then from else FirstRefusal(replies, from + 1)
  }

  /** Memory blocks. An id is never reused, so a block that was freed stays freed. */
  class Heap {
    var live: map<nat, seq<byte>>
    var next: nat
    var freed: seq<nat>

    ghost predicate Valid()
      reads this
    {
      && NULL < next
      && (forall p :: p in live ==> NULL < p < next)
      && (forall p :: p in freed ==> NULL < p < next && p !in live)
      && (forall i, j :: 0 <= i < j < |freed| ==> freed[i] != freed[j])
      && (forall p :: NULL < p < next ==> p in live || p in freed)
    }

    method Alloc(contents: seq<byte>) returns (p: nat)
      requires Valid()
      modifies this
      ensures Valid() && p == old(next) && next == p + 1 && freed == old(freed)
      ensures live == old(live)[p := contents]
    {
      p := next;
      live := live[p := contents];
      next := next + 1;
    }

    /** free, which must be given a live block or NULL. */
    method Free(p: nat)
      requires Valid() && (p == NULL || p in live)
      modifies this
      ensures Valid() && live == old(live) - {p} && next == old(next)
      ensures freed == if p == NULL then old(freed) else old(freed) + [p]
    {
      if p != NULL {
        live := live - {p};
        freed := freed + [p];
      }
    }
  }

  function Pointers(slots: seq<nat>): set<nat> {
    set p | p in slots && p != NULL
  }

  /** Slot by slot, the strings that are live and say what the user answered. */
  ghost predicate Holds(slots: seq<nat>, replies: seq<Reply>, live: map<nat, seq<byte>>) {
    && |slots| <= |replies|
    && (forall i :: 0 <= i < |slots| ==>
          match replies[i].answer
          case None => slots[i] == NULL
          case Some(t) => slots[i] != NULL && slots[i] in live && live[slots[i]] == t)
    && (forall i, j :: 0 <= i < j < |slots| && slots[i] != NULL ==> slots[i] != slots[j])
  }

  /** Without a callback nobody refuses and nobody answers. */
  function Outcomes(callback: Option<seq<Reply>>, n: nat): (rs: seq<Reply>)
    requires callback.Some? ==> |callback.value| == n
    ensures |rs| == n
  {
    match callback
    case Some(rs) => rs
    case None => seq(n, _ => Reply(true, None))
  }

  /** The messages that are shown: up to and including the refused one. */
  function Asked(k: nat, n: nat): (m: nat)
    requires k <= n
    ensures m <= n
  {
    if k == n then n else k + 1
  }

  /** The caller owns the array and one string for each answer, all of them new; what was live
      before is live and unchanged, and nothing else is live. */
  ghost predicate Owns(live: map<nat, seq<byte>>, base: map<nat, seq<byte>>,
                       block: nat, slots: seq<nat>, rs: seq<Reply>)
  {
    && Holds(slots, rs, live)
    && block != NULL && block !in base && block !in slots && Pointers(slots) !! base.Keys
    && live.Keys == base.Keys + {block} + Pointers(slots)
    && live[block] == []
    && forall p :: p in base ==> live[p] == base[p]
  }

  lemma OwnsOneMore(before: map<nat, seq<byte>>, after: map<nat, seq<byte>>, base: map<nat, seq<byte>>,
                    block: nat, slots: seq<nat>, rs: seq<Reply>, slot: nat)
    requires Owns(before, base, block, slots, rs) && |slots| < |rs|
    requires match rs[|slots|].answer
             case None => slot == NULL && after == before
             case Some(t) => slot != NULL && slot !in before && after == before[slot := t]
    ensures Owns(after, base, block, slots + [slot], rs)
  {
    assert Pointers(slots + [slot]) == Pointers(slots) + if slot == NULL then {} else {slot};
    assert forall i :: 0 <= i < |slots| && slots[i] != NULL ==> slots[i] in Pointers(slots) && slots[i] in before;
  }

  /** Once the text of the message is given back, one more reply is owned; once the replies and the
      array are given back too, nothing new is live. */
  lemma AnswerIsOwned(before: map<nat, seq<byte>>, live: map<nat, seq<byte>>, base: map<nat, seq<byte>>, block: nat,
                      slots: seq<nat>, rs: seq<Reply>, text: seq<byte>, utf8: nat, slot: nat)
    requires Owns(before, base, block, slots, rs) && |slots| < |rs|
    requires utf8 !in before && utf8 != NULL && utf8 != slot
    requires match rs[|slots|].answer
             case None => slot == NULL && live == before[utf8 := text]
             case Some(t) => slot != NULL && slot !in before && live == before[utf8 := text][slot := t]
    ensures Owns(live - {utf8}, base, block, slots + [slot], rs)
    ensures utf8 in live && utf8 !in Pointers(slots + [slot]) && utf8 != block
    ensures live - Pointers(slots + [slot]) - {block} - {utf8} == base
  {
    var all, after := slots + [slot], live - {utf8};
    assert after == if slot == NULL then before else before[slot := rs[|slots|].answer.value];
    OwnsOneMore(before, after, base, block, slots, rs, slot);
    GivenBack(after, base, block, all, rs);
    assert live - Pointers(all) - {block} - {utf8} == after - Pointers(all) - {block};
  }

  lemma GivenBack(live: map<nat, seq<byte>>, base: map<nat, seq<byte>>, block: nat, slots: seq<nat>, rs: seq<Reply>)
    requires Owns(live, base, block, slots, rs)
    ensures live - Pointers(slots) - {block} == base
  {
    assert (live - Pointers(slots) - {block}).Keys == base.Keys;
  }

  /** What giving back the replies needs to know. */
  lemma OwnsPointers(live: map<nat, seq<byte>>, base: map<nat, seq<byte>>, block: nat, slots: seq<nat>, rs: seq<Reply>)
    requires Owns(live, base, block, slots, rs)
    ensures block in live && block != NULL && block !in slots
    ensures forall p :: p in Pointers(slots) ==> p in live
    ensures forall i, j :: 0 <= i < j < |slots| && slots[i] != NULL ==> slots[i] != slots[j]
  {
  }

  class Pam {
    const heap: Heap
    var shown: seq<Shown>

    constructor (heap: Heap)
      ensures this.heap == heap && shown == []
    {
      this.heap, shown := heap, [];
    }

    /** Gives back every answer so far and the array. */
    method FreeReplies(slots: seq<nat>, block: nat)
      requires heap.Valid()
      requires block in heap.live && block != NULL && block !in slots
      requires forall p :: p in Pointers(slots) ==> p in heap.live
      requires forall i, j :: 0 <= i < j < |slots| && slots[i] != NULL ==> slots[i] != slots[j]
      modifies heap
      ensures heap.Valid() && heap.next == old(heap.next)
      ensures heap.live == old(heap.live) - Pointers(slots) - {block}
    {
      for i := 0 to |slots|
        invariant heap.Valid() && heap.next == old(heap.next)
        invariant heap.live == old(heap.live) - Pointers(slots[..i])
      {
        assert slots[..i + 1] == slots[..i] + [slots[i]];
        assert slots[i] != NULL ==> slots[i] in Pointers(slots) && slots[i] !in Pointers(slots[..i]);
        heap.Free(slots[i]);
      }
      assert slots[..|slots|] == slots;
      heap.Free(block);
    }

    /** The message as the user interface gets it. */
    method DisplayText(p: Prompt) returns (text: seq<byte>)
      ensures text == Text(p)
    {
      match p.converted
      case Some(t) => text := t;
      case None =>
        var buffer := new byte[|p.raw|](i requires 0 <= i < |p.raw| => p.raw[i]);
        assert buffer[..] == p.raw;
        RepairInPlace(buffer);
        text := buffer[..];
    }

    /** One round of the loop, up to the answer: the text and the answer are two new blocks. */
    method Ask(prompt: Prompt, reply: Option<Reply>) returns (utf8: nat, slot: nat)
      requires heap.Valid()
      modifies heap, this`shown
      ensures heap.Valid() && utf8 == old(heap.next) && heap.next > utf8
      ensures shown == old(shown) + if reply.Some? then [Shown(prompt.style, Text(prompt))] else []
      ensures var answer := if reply.Some? then reply.value.answer else None;
              match answer
              case None => slot == NULL && heap.live == old(heap.live)[utf8 := Text(prompt)]
              case Some(t) => slot == utf8 + 1 && heap.live == old(heap.live)[utf8 := Text(prompt)][slot := t]
    {
      var text := DisplayText(prompt);
      utf8 := heap.Alloc(text);
      slot := NULL;
      if reply.Some? {
        shown := shown + [Shown(prompt.style, text)];
        if reply.value.answer.Some? {
          slot := heap.Alloc(reply.value.answer.value);
        }
      }
    }

    /** One round of the loop: one slot more, or everything given back. */
    method Exchange(prompt: Prompt, reply: Option<Reply>, ghost base: map<nat, seq<byte>>,
                    block: nat, slots: seq<nat>, ghost rs: seq<Reply>) returns (success: bool, all: seq<nat>)
      requires heap.Valid() && |slots| < |rs| && Owns(heap.live, base, block, slots, rs)
      requires rs[|slots|] == if reply.Some? then reply.value else Reply(true, None)
      modifies heap, this`shown
      ensures heap.Valid() && success == rs[|slots|].goOn
      ensures shown == old(shown) + if reply.Some? then [Shown(prompt.style, Text(prompt))] else []
      ensures success ==> |all| == |slots| + 1 && Owns(heap.live, base, block, all, rs)
      ensures !success ==> heap.live == base
    {
      ghost var before := heap.live;
      var utf8, slot := Ask(prompt, reply);
      all := slots + [slot];
      AnswerIsOwned(before, heap.live, base, block, slots, rs, Text(prompt), utf8, slot);
      OwnsPointers(heap.live - {utf8}, base, block, all, rs);
      success := true;
      if reply.Some? && !reply.value.goOn {
        FreeReplies(all, block);
        success := false;
      }
      heap.Free(utf8);
    }

    /** The loop over the messages. */
    method ConverseLoop(prompts: seq<Prompt>, callback: Option<seq<Reply>>, block: nat,
                        ghost base: map<nat, seq<byte>>) returns (success: bool, slots: seq<nat>)
      requires callback.Some? ==> |callback.value| == |prompts|
      requires heap.Valid() && Owns(heap.live, base, block, [], Outcomes(callback, |prompts|))
      modifies this, heap
      ensures heap.Valid()
      ensures var rs := Outcomes(callback, |prompts|);
              var k := FirstRefusal(rs, 0);
              && success == (k == |prompts|)
              && shown == Heard(old(shown), prompts, callback, Asked(k, |prompts|))
              && (success ==> |slots| == |prompts| && Owns(heap.live, base, block, slots, rs))
              && (!success ==> heap.live == base)
    {
      ghost var rs, shown0 := Outcomes(callback, |prompts|), shown;
      slots := [];
      success := true;
      var r := 0;
      while r < |prompts| && success
        invariant 0 <= r <= |prompts| && heap.Valid()
        invariant shown == Heard(shown0, prompts, callback, r)
        invariant success ==> |slots| == r && Owns(heap.live, base, block, slots, rs)
        invariant success ==> FirstRefusal(rs, 0) >= r
        invariant !success ==> heap.live == base && FirstRefusal(rs, 0) == r - 1 < |prompts|
      {
        success, slots := Exchange(prompts[r], if callback.Some? then Some(callback.value[r]) else None,
                                   base, block, slots, rs);
        r := r + 1;
      }
    }

    /** pam_conversation. Without a callback every message is passed over in silence; calloc fails
        when enough is false, and then the out-parameter is not written. */
    method Converse(prompts: seq<Prompt>, callback: Option<seq<Reply>>, enough: bool)
      returns (success: bool, out: Out)
      requires heap.Valid()
      requires callback.Some? ==> |callback.value| == |prompts|
      modifies this, heap
      ensures heap.Valid()
      ensures !enough ==> !success && out == Untouched && heap.live == old(heap.live) && shown == old(shown)
      ensures enough ==>
        var rs := Outcomes(callback, |prompts|);
        var k := FirstRefusal(rs, 0);
        && success == (k == |prompts|)
        && shown == old(shown) + (if callback.None? then []
                                  else if k == |prompts| then Texts(prompts) else Texts(prompts)[..k + 1])
        && (success ==> out.Replies? && |out.slots| == |prompts|
                        && Owns(heap.live, old(heap.live), out.block, out.slots, rs))
        && (callback.None? ==> success && forall p :: p in out.slots ==> p == NULL)
        && (!success ==> out == Null && heap.live == old(heap.live)
                         && forall p :: old(heap.next) <= p < heap.next ==> p in heap.freed)
    {
      if !enough {
        return false, Untouched;
      }
      ghost var base := heap.live;
      var block := heap.Alloc([]);
      var slots;
      success, slots := ConverseLoop(prompts, callback, block, base);
      ShownIs(old(shown), prompts, callback, Asked(FirstRefusal(Outcomes(callback, |prompts|), 0), |prompts|));
      out := if success then Replies(block, slots) else Null;
    }
  }

  /** Everything shown is well-formed UTF-8, whatever bytes the PAM modules send, if the locale
      conversion only produces well-formed UTF-8. */
  lemma ShownIsWellFormed(prompts: seq<Prompt>)
    requires forall p :: p in prompts && p.converted.Some? ==> WellFormed(p.converted.value)
    ensures forall t :: t in Texts(prompts) ==> WellFormed(t.text)
  {
    forall i | 0 <= i < |prompts| ensures WellFormed(Texts(prompts)[i].text) {
      assert prompts[i] in prompts;
      RepairIsWellFormed(prompts[i].raw);
    }
  }

  /** Each message is shown in its own style: converted from the locale if that works, and else the
      bytes as they are if they are well-formed UTF-8, or of the same length and well formed. */
  lemma EachIsShown(prompts: seq<Prompt>, i: nat)
    requires i < |prompts|
    ensures var p, t := prompts[i], Texts(prompts)[i];
            && t.style == p.style
            && match p.converted
               case Some(text) => t.text == text
               case None => |t.text| == |p.raw| && WellFormed(t.text) && (WellFormed(p.raw) <==> t.text == p.raw)
  {
    RepairIsWellFormed(prompts[i].raw);
    RepairFixes(prompts[i].raw);
  }
}
