/** The repair of PAM messages that are not valid UTF-8.

    Well-formedness is that of section 4 of RFC 3629. Strings are given without their
    terminating NUL, so no byte is zero. */
module Utf8 {

  newtype byte = b: int | 0 <= b < 0x100

  const QUESTION_MARK: byte := 0x3F

  // ---------------------------------------------------------------- RFC 3629

  predicate Tail(b: byte) {
    0x80 <= b <= 0xBF
  }

  /** UTF8-char, by length. */
  predicate IsChar(s: seq<byte>) {
    match |s|
    case 1 => s[0] <= 0x7F
    case 2 => 0xC2 <= s[0] <= 0xDF && Tail(s[1])
    case 3 =>
      && (|| (s[0] == 0xE0 && 0xA0 <= s[1] <= 0xBF)
          || (0xE1 <= s[0] <= 0xEC && Tail(s[1]))
          || (s[0] == 0xED && 0x80 <= s[1] <= 0x9F)
          || (0xEE <= s[0] <= 0xEF && Tail(s[1])))
      && Tail(s[2])
    case 4 =>
      && (|| (s[0] == 0xF0 && 0x90 <= s[1] <= 0xBF)
          || (0xF1 <= s[0] <= 0xF3 && Tail(s[1]))
          || (s[0] == 0xF4 && 0x80 <= s[1] <= 0x8F))
      && Tail(s[2]) && Tail(s[3])
    case _ => false
  }

  /** UTF8-octets: a string that can be cut into characters. */
  ghost predicate WellFormed(s: seq<byte>)
    decreases |s|
  {
    s == [] || exists n :: 1 <= n <= 4 && n <= |s| && IsChar(s[..n]) && WellFormed(s[n..])
  }

  // ---------------------------------------------------------------- scanning

  /** The length, k or more, of the character s starts with, or 0. */
  function LengthFrom(s: seq<byte>, k: nat): (n: nat)
    requires k >= 1
    ensures n <= 4 && n <= |s|
    ensures n > 0 ==> n >= k && IsChar(s[..n])
    ensures n == 0 ==> forall j :: k <= j <= |s| ==> !IsChar(s[..j])
    decreases 5 - k
  {
    if k > 4 || k > |s| then 0 else if IsChar(s[..k]) then k else LengthFrom(s, k + 1)
  }

  function CharLength(s: seq<byte>): (n: nat)
    ensures n <= 4 && n <= |s|
  {
    LengthFrom(s, 1)
  }

  /** Where g_utf8_validate stops: the end of the longest run of characters. */
  function ValidPrefix(s: seq<byte>): (q: nat)
    ensures q <= |s|
  {
    var n := CharLength(s);
    if n == 0 then 0 else n + ValidPrefix(s[n..])
  }

  /** Copy a character, or write a question mark for one byte. */
  function Repair(s: seq<byte>): (r: seq<byte>)
    ensures |r| == |s|
  {
    if s == [] then [] else
    var n := CharLength(s);
    if n > 0 then s[..n] + Repair(s[n..]) else [QUESTION_MARK] + Repair(s[1..])
  }

  // ---------------------------------------------------------------- lemmas

  /** A string starts with at most one character. */
  lemma CharLengthIsUnique(s: seq<byte>, k: nat)
    requires 1 <= k <= |s| && IsChar(s[..k])
    ensures CharLength(s) == k
  {
    var n := CharLength(s);
    assert n > 0 && s[..n][0] == s[..k][0];
    if n > 1 && k > 1 {
      assert s[..n][1] == s[..k][1];
    }
  }

  lemma {:induction false} ValidPrefixIsAll(s: seq<byte>)
    ensures WellFormed(s) <==> ValidPrefix(s) == |s|
    decreases |s|
  {
    var n := CharLength(s);
    if n > 0 {
      ValidPrefixIsAll(s[n..]);
    }
    if s != [] && WellFormed(s) {
      var k :| 1 <= k <= 4 && k <= |s| && IsChar(s[..k]) && WellFormed(s[k..]);
      CharLengthIsUnique(s, k);
    }
  }

  lemma {:induction false} CharThenRest(c: seq<byte>, rest: seq<byte>)
    requires 1 <= |c| <= 4 && IsChar(c)
    ensures CharLength(c + rest) == |c|
    ensures (c + rest)[|c|..] == rest && (c + rest)[..|c|] == c
  {
    assert (c + rest)[..|c|] == c;
    CharLengthIsUnique(c + rest, |c|);
  }

  /** The result is well formed. */
  lemma {:induction false} RepairIsWellFormed(s: seq<byte>)
    ensures WellFormed(Repair(s))
    decreases |s|
  {
    if s != [] {
      var n := CharLength(s);
      var c, rest := if n > 0 then s[..n] else [QUESTION_MARK], if n > 0 then s[n..] else s[1..];
      RepairIsWellFormed(rest);
      CharThenRest(c, Repair(rest));
      assert Repair(s) == c + Repair(rest);
      assert IsChar(Repair(s)[..|c|]) && WellFormed(Repair(s)[|c|..]);
    }
  }

  lemma {:induction false} RepairOfWellFormed(s: seq<byte>)
    requires ValidPrefix(s) == |s|
    ensures Repair(s) == s
    decreases |s|
  {
    if s != [] {
      var n := CharLength(s);
      RepairOfWellFormed(s[n..]);
      assert s == s[..n] + s[n..];
    }
  }

  /** Exactly the well-formed strings are left alone. */
  lemma RepairFixes(s: seq<byte>)
    ensures Repair(s) == s <==> WellFormed(s)
  {
    RepairIsWellFormed(s);
    ValidPrefixIsAll(s);
    if WellFormed(s) {
      RepairOfWellFormed(s);
    }
  }

  lemma RepairTwice(s: seq<byte>)
    ensures Repair(Repair(s)) == Repair(s)
  {
    RepairIsWellFormed(s);
    RepairFixes(Repair(s));
  }

  lemma AsciiStarts(s: seq<byte>)
    requires s != [] && s[0] < 0x80
    ensures CharLength(s) > 0
  {
    assert IsChar(s[..1]);
  }

  /** The bytes of c stand for the first bytes of s, which is followed by rest. */
  predicate StandsFor(s: seq<byte>, c: seq<byte>, rest: seq<byte>) {
    && 1 <= |c| <= |s| && rest == s[|c|..]
    && (c == s[..|c|] || (c == [QUESTION_MARK] && s[0] >= 0x80))
  }

  /** What the first round of the repair makes of the first bytes. */
  lemma FirstPart(s: seq<byte>) returns (c: seq<byte>, rest: seq<byte>)
    requires s != []
    ensures StandsFor(s, c, rest) && Repair(s) == c + Repair(rest)
  {
    var n := CharLength(s);
    if n > 0 {
      c, rest := s[..n], s[n..];
    } else {
      c, rest := [QUESTION_MARK], s[1..];
      if s[0] < 0x80 { AsciiStarts(s); }
    }
  }

  predicate Replaces(s: seq<byte>, r: seq<byte>) {
    |r| == |s| && forall i :: 0 <= i < |s| ==> r[i] == s[i] || (r[i] == QUESTION_MARK && s[i] >= 0x80)
  }

  lemma ReplacesInParts(s: seq<byte>, c: seq<byte>, rest: seq<byte>, r: seq<byte>)
    requires StandsFor(s, c, rest) && Replaces(rest, r)
    ensures Replaces(s, c + r)
  {
    assert forall i :: |c| <= i < |s| ==> s[i] == rest[i - |c|];
  }

  /** Only bytes outside ASCII are replaced, each by a question mark; the others stay put. */
  lemma {:induction false} RepairReplaces(s: seq<byte>)
    ensures Replaces(s, Repair(s))
    decreases |s|
  {
    if s != [] {
      var c, rest := FirstPart(s);
      RepairReplaces(rest);
      ReplacesInParts(s, c, rest, Repair(rest));
    }
  }

  /** The repair character by character: a character is kept, and a byte at which none starts becomes
      a question mark. */
  lemma RepairIs(s: seq<byte>, n: nat)
    ensures Repair([]) == []
    ensures 1 <= n <= |s| && IsChar(s[..n]) ==> Repair(s) == s[..n] + Repair(s[n..])
    ensures s != [] && (forall k :: 1 <= k <= |s| ==> !IsChar(s[..k])) ==> Repair(s) == ['?' as byte] + Repair(s[1..])
  {
    if 1 <= n <= |s| && IsChar(s[..n]) {
      CharLengthIsUnique(s, n);
    }
  }

  // ---------------------------------------------------------------- characters as code points

  /** The code points that UTF-8 can encode: no surrogates, and none beyond U+10FFFF. */
  predicate IsScalar(c: nat) {
    c <= 0x10FFFF && !(0xD800 <= c <= 0xDFFF)
  }

  function Low(c: nat): byte {
    (0x80 + c % 0x40) as byte
  }

  /** Section 3 of RFC 3629: six bits in each byte but the first. */
  function Encode(c: nat): seq<byte>
    requires IsScalar(c)
  {
    var c1 := c / 0x40;
    var c2 := c1 / 0x40;
    if c < 0x80 then [c as byte]
    else if c < 0x800 then [(0xC0 + c1) as byte, Low(c)]
    else if c < 0x10000 then [(0xE0 + c2) as byte, Low(c1), Low(c)]
    else [(0xF0 + c2 / 0x40) as byte, Low(c2), Low(c1), Low(c)]
  }

  function Append6(c: nat, b: byte): nat
    requires b >= 0x80
  {
    c * 0x40 + (b as nat - 0x80)
  }

  function CodePoint(s: seq<byte>): nat
    requires IsChar(s)
  {
    match |s|
    case 1 => s[0] as nat
    case 2 => Append6(s[0] as nat - 0xC0, s[1])
    case 3 => Append6(Append6(s[0] as nat - 0xE0, s[1]), s[2])
    case _ => Append6(Append6(Append6(s[0] as nat - 0xF0, s[1]), s[2]), s[3])
  }

  lemma LowAppends(c: nat)
    ensures Append6(c / 0x40, Low(c)) == c && Tail(Low(c))
  {
  }

  lemma AppendLow(c: nat, b: byte)
    requires Tail(b)
    ensures Append6(c, b) / 0x40 == c && Low(Append6(c, b)) == b
  {
  }

  lemma EncodeIsChar(c: nat)
    requires IsScalar(c)
    ensures IsChar(Encode(c)) && CodePoint(Encode(c)) == c
  {
    LowAppends(c);
    LowAppends(c / 0x40);
    LowAppends(c / 0x40 / 0x40);
  }

  lemma CharIsEncoded(s: seq<byte>)
    requires IsChar(s)
    ensures IsScalar(CodePoint(s)) && Encode(CodePoint(s)) == s
  {
    match |s|
    case 1 =>
    case 2 => AppendLow(s[0] as nat - 0xC0, s[1]);
    case 3 =>
      var c := Append6(s[0] as nat - 0xE0, s[1]);
      AppendLow(s[0] as nat - 0xE0, s[1]);
      AppendLow(c, s[2]);
    case _ =>
      var c := Append6(s[0] as nat - 0xF0, s[1]);
      AppendLow(s[0] as nat - 0xF0, s[1]);
      AppendLow(c, s[2]);
      AppendLow(Append6(c, s[2]), s[3]);
  }

  /** The characters are exactly the encodings of code points: nothing overlong, no surrogate, nothing
      beyond the last plane. */
  lemma CharIffEncoded(s: seq<byte>)
    ensures IsChar(s) <==> exists c :: IsScalar(c) && Encode(c) == s
  {
    if IsChar(s) {
      CharIsEncoded(s);
    }
    if c: nat :| IsScalar(c) && Encode(c) == s {
      EncodeIsChar(c);
    }
  }

  lemma {:induction false} ValidPrefixStops(s: seq<byte>)
    ensures CharLength(s[ValidPrefix(s)..]) == 0
    decreases |s|
  {
    var n := CharLength(s);
    if n > 0 {
      ValidPrefixStops(s[n..]);
      assert s[ValidPrefix(s)..] == s[n..][ValidPrefix(s[n..])..];
    } else {
      assert s[0..] == s;
    }
  }

  lemma Assoc(a: seq<byte>, b: seq<byte>, c: seq<byte>)
    ensures a + b + c == a + (b + c)
  {
  }

  lemma SplitTwice(s: seq<byte>, n: nat, q: nat)
    requires n + q <= |s|
    ensures s[n..][q..] == s[n + q..] && s[..n] + s[n..][..q] == s[..n + q]
  {
  }

  /** The same repair, behind what has been repaired already. */
  function RepairOnto(done: seq<byte>, s: seq<byte>): seq<byte>
    decreases |s|
  {
    if s == [] then done else
    var n := CharLength(s);
    if n > 0 then RepairOnto(done + s[..n], s[n..]) else RepairOnto(done + [QUESTION_MARK], s[1..])
  }

  lemma {:induction false} RepairOntoAppends(done: seq<byte>, s: seq<byte>)
    ensures RepairOnto(done, s) == done + Repair(s)
    decreases |s|
  {
    if s == [] {
      assert done + Repair(s) == done;
    } else {
      var n := CharLength(s);
      var c := if n > 0 then s[..n] else [QUESTION_MARK];
      var rest := if n > 0 then s[n..] else s[1..];
      RepairOntoAppends(done + c, rest);
      Assoc(done, c, Repair(rest));
    }
  }

  /** What comes before the first invalid byte is copied. */
  lemma {:induction false} RepairSkipsValid(done: seq<byte>, s: seq<byte>)
    ensures var q := ValidPrefix(s); RepairOnto(done, s) == RepairOnto(done + s[..q], s[q..])
    decreases |s|
  {
    var n := CharLength(s);
    if n > 0 {
      var c, rest := s[..n], s[n..];
      var q := ValidPrefix(rest);
      RepairSkipsValid(done + c, rest);
      SplitTwice(s, n, q);
      Assoc(done, c, rest[..q]);
    } else {
      assert done + s[..0] == done && s[0..] == s;
    }
  }

  /** One round of the loop: the valid run, a question mark, and the rest. */
  lemma RepairRound(done: seq<byte>, s: seq<byte>, done': seq<byte>, s': seq<byte>)
    requires ValidPrefix(s) < |s|
    requires done' == done + s[..ValidPrefix(s)] + [QUESTION_MARK] && s' == s[ValidPrefix(s) + 1..]
    ensures RepairOnto(done', s') == RepairOnto(done, s)
  {
    var q := ValidPrefix(s);
    RepairSkipsValid(done, s);
    ValidPrefixStops(s);
    assert s[q..][1..] == s';
  }

  // ---------------------------------------------------------------- the loop

  lemma MarkAt(s: seq<byte>, p: nat, k: nat)
    requires p + k < |s|
    ensures var t := s[p + k := QUESTION_MARK];
            && t[..p + k + 1] == s[..p] + s[p..][..k] + [QUESTION_MARK]
            && t[p + k + 1..] == s[p..][k + 1..]
  {
  }

  /** The part that was passed is well formed. */
  lemma {:induction false} PrefixIsWellFormed(s: seq<byte>)
    ensures WellFormed(s[..ValidPrefix(s)])
    decreases |s|
  {
    var n := CharLength(s);
    if n > 0 {
      var c, rest := s[..n], s[n..];
      var done := rest[..ValidPrefix(rest)];
      PrefixIsWellFormed(rest);
      SplitTwice(s, n, ValidPrefix(rest));
      CharThenRest(c, done);
      assert s[..ValidPrefix(s)] == c + done;
      assert IsChar((c + done)[..n]) && WellFormed((c + done)[n..]);
    }
  }

  lemma ScanOneMore(s: seq<byte>, k: nat)
    requires k <= |s| && CharLength(s[k..]) > 0
    ensures ValidPrefix(s[k..]) == CharLength(s[k..]) + ValidPrefix(s[k + CharLength(s[k..])..])
  {
    assert s[k..][CharLength(s[k..])..] == s[k + CharLength(s[k..])..];
  }

  /** g_utf8_validate from position p of the buffer: everything before q is made of characters and
      no character starts at q, so that the text is valid exactly if it was passed to its end. */
  method Validate(a: array<byte>, p: nat) returns (valid: bool, q: nat)
    requires p <= a.Length
    ensures p <= q <= a.Length
    ensures WellFormed(a[p..q]) && CharLength(a[q..]) == 0
    ensures valid <==> q == a.Length
    ensures valid <==> WellFormed(a[p..])
    ensures q == p + ValidPrefix(a[..][p..])
  {
    q := p;
    var n := CharLength(a[q..]);
    while n > 0
      invariant p <= q <= a.Length && n == CharLength(a[q..])
      invariant p + ValidPrefix(a[p..]) == q + ValidPrefix(a[q..])
      decreases a.Length - q
    {
      ScanOneMore(a[..], q);
      assert a[..][q..] == a[q..] && a[..][q + n..] == a[q + n..];
      q := q + n;
      n := CharLength(a[q..]);
    }
    valid := q == a.Length;
    PrefixIsWellFormed(a[p..]);
    ValidPrefixIsAll(a[p..]);
    assert a[p..q] == a[p..][..q - p] && a[..][p..] == a[p..];
  }

  lemma RepairStarts(s: seq<byte>)
    ensures RepairOnto(s[..0], s[0..]) == Repair(s)
  {
    assert s[..0] == [] && s[0..] == s;
    RepairOntoAppends([], s);
  }

  lemma RepairEnds(s: seq<byte>, p: nat)
    requires p <= |s| && ValidPrefix(s[p..]) == |s| - p
    ensures RepairOnto(s[..p], s[p..]) == s
  {
    RepairOntoAppends(s[..p], s[p..]);
    RepairOfWellFormed(s[p..]);
  }

  lemma RepairGoesOn(s: seq<byte>, t: seq<byte>, p: nat, q: nat)
    requires p <= q < |s| && q == p + ValidPrefix(s[p..]) && t == s[q := QUESTION_MARK]
    ensures RepairOnto(t[..q + 1], t[q + 1..]) == RepairOnto(s[..p], s[p..])
  {
    MarkAt(s, p, q - p);
    RepairRound(s[..p], s[p..], t[..q + 1], t[q + 1..]);
  }

  /** Writes a question mark over every byte that does not start a character, in place. */
  method RepairInPlace(a: array<byte>)
    modifies a
    ensures a[..] == Repair(old(a[..]))
  {
    ghost var now, goal := a[..], Repair(a[..]);
    RepairStarts(now);
    var p := 0;
    var valid, q := Validate(a, p);
    while p < a.Length && !valid
      invariant p <= a.Length && a[..] == now
      invariant RepairOnto(now[..p], now[p..]) == goal
      invariant q == p + ValidPrefix(now[p..]) && valid == (q == a.Length)
      decreases a.Length - p
    {
      a[q] := QUESTION_MARK;
      RepairGoesOn(now, a[..], p, q);
      now := a[..];
      p := q + 1;
      valid, q := Validate(a, p);
    }
    RepairEnds(now, p);
  }
}
