/** The text protocol between the unlock dialog and the lock window.

    The dialog process prints one line per message on its standard output; the window reads
    the other end of the pipe line by line and dispatches on substrings. */
module Wire {
  import opened Options

  /** What one line can tell the window. */
  datatype Message =
    | WindowId(id: nat)
    | AuthFailed
    | ResponseOk
    | ResponseCancel
    | RequestQuit

  const UINT32_MAX: nat := 0xFFFF_FFFF
  const ULONG_MAX: nat := 0xFFFF_FFFF_FFFF_FFFF

  /** X window ids are 32-bit; every other message is always printable. */
  predicate Printable(m: Message) {
    m.WindowId? ==> m.id <= UINT32_MAX
  }

  // ---------------------------------------------------------------- printing

  function Digit(d: nat): (c: char)
    requires d < 10
    ensures IsDigit(c) && DigitValue(c) == d
  {
    '0' + d as char
  }

  predicate IsDigit(c: char) {
    '0' <= c <= '9'
  }

  function DigitValue(c: char): nat
    requires IsDigit(c)
  {
    c as nat - '0' as nat
  }

  /** The decimal numeral that %u prints. */
  function Decimal(n: nat): (s: string)
    ensures |s| > 0 && forall i :: 0 <= i < |s| ==> IsDigit(s[i])
  {
    if n < 10 then [Digit(n)] else Decimal(n / 10) + [Digit(n % 10)]
  }

  /** The bytes the dialog prints for one message. */
  function Line(m: Message): string {
    match m
    case WindowId(id) => "WINDOW ID=" + (Decimal(id) + "\n")
    case AuthFailed => "NOTICE=AUTH FAILED\n"
    case ResponseOk => "RESPONSE=OK\n"
    case ResponseCancel => "RESPONSE=CANCEL\n"
    case RequestQuit => "REQUEST QUIT\n"
  }

  function Text(ms: seq<Message>): string {
    if ms == [] then "" else Line(ms[0]) + Text(ms[1..])
  }

  // ---------------------------------------------------------------- reading

  /** strstr(s, pattern) != NULL */
  predicate Contains(s: string, pattern: string) {
    pattern <= s || (s != "" && Contains(s[1..], pattern))
  }

  /** isspace() in the C locale. */
  predicate IsSpace(c: char) {
    c == ' ' || c == '\t' || c == '\n' || c == '\r' || c == 11 as char || c == 12 as char
  }

  /** A white-space directive of scanf: any amount of white space, including none. */
  function SkipSpace(s: string): string {
    if s != "" && IsSpace(s[0]) then SkipSpace(s[1..]) else s
  }

  /** How many digits s starts with. */
  function DigitRun(s: string): (n: nat)
    ensures n <= |s| && forall i :: 0 <= i < n ==> IsDigit(s[i])
  {
    if s != "" && IsDigit(s[0]) then 1 + DigitRun(s[1..]) else 0
  }

  function Value(digits: string): nat
    requires forall i :: 0 <= i < |digits| ==> IsDigit(digits[i])
  {
    if digits == "" then 0
    else 10 * Value(digits[..|digits| - 1]) + DigitValue(digits[|digits| - 1])
  }

  /** %u as glibc converts it: strtoul on a 64-bit long (saturating, a minus sign negates), then
      a truncating store into 32 bits. */
  function Truncate(value: nat, negative: bool): (id: nat)
    ensures id <= UINT32_MAX
    ensures value <= UINT32_MAX && !negative ==> id == value
    ensures 0 < value <= UINT32_MAX && negative ==> id == UINT32_MAX + 1 - value
  {
    var long := if value > ULONG_MAX then ULONG_MAX
                else if negative then (ULONG_MAX + 1 - value) % (ULONG_MAX + 1)
                else value;
    long % (UINT32_MAX + 1)
  }

  /** The tail " %u %c" of the pattern, matching the number and nothing after it but white space. */
  function ScanLastNumber(s: string): Option<nat> {
    var c := SkipSpace(s);
    var negative := c != "" && c[0] == '-';
    var digits := if c != "" && (c[0] == '-' || c[0] == '+') then c[1..] else c;
    var n := DigitRun(digits);
    if n == 0 || SkipSpace(digits[n..]) != "" then None
    else Some(Truncate(Value(digits[..n]), negative))
  }

  /** A literal in the pattern: it must come next. */
  function After(s: string, literal: string): Option<string> {
    if literal <= s then Some(s[|literal|..]) else None
  }

  /** sscanf (line, " WINDOW ID= %u %c", &id, &c) == 1 */
  function ScanWindowId(line: string): Option<nat> {
    match After(SkipSpace(line), "WINDOW")
    case None => None
    case Some(a) =>
      match After(SkipSpace(a), "ID=")
      case None => None
      case Some(b) => ScanLastNumber(b)
  }

  /** The substring dispatch of the window, in its order. A NOTICE other than AUTH FAILED and a
      WINDOW ID line that does not scan have no effect. */
  function Interpret(line: string): Option<Message> {
    if Contains(line, "WINDOW ID=") then
      match ScanWindowId(line)
      case Some(id) => Some(WindowId(id))
      case None => None
    else if Contains(line, "NOTICE=") then
      if Contains(line, "NOTICE=AUTH FAILED") then Some(AuthFailed) else None
    else if Contains(line, "RESPONSE=") then
      if Contains(line, "RESPONSE=OK") then Some(ResponseOk) else Some(ResponseCancel)
    else if Contains(line, "REQUEST QUIT") then Some(RequestQuit)
    else None
  }

  /** The length of the first line of a non-empty stream, terminator included. */
  function LineLength(s: string): (n: nat)
    requires s != ""
    ensures 1 <= n <= |s|
  {
    if s[0] == '\n' || |s| == 1 then 1 else 1 + LineLength(s[1..])
  }

  function Lines(s: string): seq<string> {
    if s == "" then []
    else [s[..LineLength(s)]] + Lines(s[LineLength(s)..])
  }

  function Decode(lines: seq<string>): seq<Option<Message>> {
    if lines == [] then [] else [Interpret(lines[0])] + Decode(lines[1..])
  }

  function Somes(ms: seq<Message>): seq<Option<Message>> {
    if ms == [] then [] else [Some(ms[0])] + Somes(ms[1..])
  }

  // ---------------------------------------------------------------- round trip

  lemma {:induction false} ValueOfDecimal(n: nat)
    ensures Value(Decimal(n)) == n
  {
    if n >= 10 {
      ValueOfDecimal(n / 10);
      var s := Decimal(n);
      assert s[..|s| - 1] == Decimal(n / 10);
    } else {
      assert Decimal(n)[..0] == "";
    }
  }

  lemma {:induction false} DigitRunStops(digits: string, rest: string)
    requires forall i :: 0 <= i < |digits| ==> IsDigit(digits[i])
    requires rest != "" && !IsDigit(rest[0])
    ensures DigitRun(digits + rest) == |digits|
  {
    if digits == "" {
      assert digits + rest == rest;
    } else {
      assert (digits + rest)[1..] == digits[1..] + rest;
      DigitRunStops(digits[1..], rest);
    }
  }

  lemma ScanDigits(digits: string, tail: string)
    requires digits != "" && forall i :: 0 <= i < |digits| ==> IsDigit(digits[i])
    requires tail != "" && !IsDigit(tail[0]) && SkipSpace(tail) == ""
    ensures ScanLastNumber(digits + tail) == Some(Truncate(Value(digits), false))
  {
    var c := digits + tail;
    assert c[0] == digits[0];
    DigitRunStops(digits, tail);
    assert c[..|digits|] == digits && c[|digits|..] == tail;
  }

  /** A number with something after it that is not white space is not an id. */
  lemma GarbageIsRejected(digits: string, tail: string)
    requires digits != "" && forall i :: 0 <= i < |digits| ==> IsDigit(digits[i])
    requires tail != "" && !IsDigit(tail[0]) && SkipSpace(tail) != ""
    ensures ScanLastNumber(digits + tail) == None
  {
    var c := digits + tail;
    assert c[0] == digits[0];
    DigitRunStops(digits, tail);
    assert c[|digits|..] == tail;
  }

  lemma AfterLiteral(literal: string, rest: string)
    ensures After(literal + rest, literal) == Some(rest)
  {
    assert (literal + rest)[|literal|..] == rest;
  }

  lemma SplitHeader(number: string)
    ensures "WINDOW ID=" + number == "WINDOW" + (" " + ("ID=" + number))
  {
    assert "WINDOW ID=" == "WINDOW" + (" " + "ID=");
  }

  lemma ScanHeader(number: string)
    ensures ScanWindowId("WINDOW ID=" + number) == ScanLastNumber(number)
  {
    SplitHeader(number);
    var b := "ID=" + number;
    var a := " " + b;
    AfterLiteral("WINDOW", a);
    AfterLiteral("ID=", number);
    assert SkipSpace("WINDOW" + a) == "WINDOW" + a;
    assert a[0] == ' ' && a[1..] == b && SkipSpace(b) == b;
    assert SkipSpace(a) == b;
  }

  lemma NewlineIsSpace()
    ensures SkipSpace("\n") == ""
  {
    assert "\n"[1..] == "";
  }

  lemma ScanPrintedNumber(id: nat, digits: string, newline: string)
    requires id <= UINT32_MAX && digits == Decimal(id) && newline == "\n"
    ensures ScanLastNumber(digits + newline) == Some(id)
  {
    NewlineIsSpace();
    ValueOfDecimal(id);
    ScanDigits(digits, newline);
  }

  /** The scanf pattern reads back every 32-bit id that was printed. */
  lemma ScanPrinted(id: nat)
    requires id <= UINT32_MAX
    ensures ScanWindowId(Line(WindowId(id))) == Some(id)
  {
    var digits := Decimal(id);
    ScanPrintedNumber(id, digits, "\n");
    ScanHeader(digits + "\n");
  }

  /** A pattern with a character that does not occur in s does not occur in s. */
  lemma {:induction false} MissingCharacter(s: string, pattern: string, k: nat)
    requires k < |pattern| && pattern[k] !in s
    ensures !Contains(s, pattern)
  {
    if s != "" {
      MissingCharacter(s[1..], pattern, k);
    }
  }

  lemma InterpretWindowId(l: string, id: nat)
    requires id <= UINT32_MAX && l == Line(WindowId(id))
    ensures Interpret(l) == Some(WindowId(id))
  {
    ScanPrinted(id);
    assert "WINDOW ID=" <= l;
  }

  lemma InterpretNotice(l: string)
    requires l == "NOTICE=AUTH FAILED\n"
    ensures Interpret(l) == Some(AuthFailed)
  {
    MissingCharacter(l, "WINDOW ID=", 0);
    assert "NOTICE=AUTH FAILED" <= l;
  }

  lemma InterpretOk(l: string)
    requires l == "RESPONSE=OK\n"
    ensures Interpret(l) == Some(ResponseOk)
  {
    MissingCharacter(l, "WINDOW ID=", 0);
    MissingCharacter(l, "NOTICE=", 2);
    assert "RESPONSE=" <= l;
    assert "RESPONSE=OK" <= l;
  }

  lemma InterpretCancel(l: string)
    requires l == "RESPONSE=CANCEL\n"
    ensures Interpret(l) == Some(ResponseCancel)
  {
    MissingCharacter(l, "WINDOW ID=", 0);
    MissingCharacter(l, "NOTICE=", 2);
    assert "RESPONSE=" <= l;
    MissingCharacter(l, "RESPONSE=OK", 10);
  }

  lemma InterpretRequestQuit(l: string)
    requires l == "REQUEST QUIT\n"
    ensures Interpret(l) == Some(RequestQuit)
  {
    MissingCharacter(l, "WINDOW ID=", 0);
    MissingCharacter(l, "NOTICE=", 6);
    MissingCharacter(l, "RESPONSE=", 8);
    assert "REQUEST QUIT" <= l;
  }

  lemma InterpretPrinted(m: Message)
    requires Printable(m)
    ensures Interpret(Line(m)) == Some(m)
  {
    match m
    case WindowId(id) => InterpretWindowId(Line(m), id);
    case AuthFailed => InterpretNotice(Line(m));
    case ResponseOk => InterpretOk(Line(m));
    case ResponseCancel => InterpretCancel(Line(m));
    case RequestQuit => InterpretRequestQuit(Line(m));
  }

  lemma {:induction false} FirstLine(body: string, rest: string)
    requires '\n' !in body
    ensures LineLength(body + "\n" + rest) == |body| + 1
  {
    var s := body + "\n" + rest;
    if body == "" {
      assert s[0] == '\n';
    } else {
      assert s[0] == body[0];
      assert s[1..] == body[1..] + "\n" + rest;
      FirstLine(body[1..], rest);
    }
  }

  lemma LineShape(m: Message)
    ensures |Line(m)| > 0
    ensures '\n' !in Line(m)[..|Line(m)| - 1]
    ensures Line(m) == Line(m)[..|Line(m)| - 1] + "\n"
  {
    match m
    case WindowId(id) =>
      var body := "WINDOW ID=" + Decimal(id);
      assert Line(m)[..|Line(m)| - 1] == body;
      forall i | 0 <= i < |body| ensures body[i] != '\n' {
        if i >= 10 {
          assert body[i] == Decimal(id)[i - 10];
        }
      }
    case AuthFailed => assert Line(m)[..|Line(m)| - 1] == "NOTICE=AUTH FAILED";
    case ResponseOk => assert Line(m)[..|Line(m)| - 1] == "RESPONSE=OK";
    case ResponseCancel => assert Line(m)[..|Line(m)| - 1] == "RESPONSE=CANCEL";
    case RequestQuit => assert Line(m)[..|Line(m)| - 1] == "REQUEST QUIT";
  }

  /** Splitting and decoding what any sequence of messages printed gives the sequence back. */
  lemma {:induction false} RoundTrip(ms: seq<Message>)
    requires forall m :: m in ms ==> Printable(m)
    ensures Decode(Lines(Text(ms))) == Somes(ms)
  {
    if ms != [] {
      var first, rest := Line(ms[0]), Text(ms[1..]);
      var body := first[..|first| - 1];
      LineShape(ms[0]);
      assert Text(ms) == body + "\n" + rest;
      FirstLine(body, rest);
      assert Text(ms)[..|body| + 1] == first && Text(ms)[|body| + 1..] == rest;
      InterpretPrinted(ms[0]);
      RoundTrip(ms[1..]);
      var lines := Lines(Text(ms));
      assert lines == [first] + Lines(rest);
      assert lines[1..] == Lines(rest);
    }
  }

  /** A pattern is contained in s if it stands somewhere in s. */
  lemma {:induction false} ContainsIff(s: string, pattern: string)
    ensures Contains(s, pattern) <==> exists i :: 0 <= i <= |s| && pattern <= s[i..]
  {
    assert s[0..] == s;
    if s != "" {
      ContainsIff(s[1..], pattern);
      forall i | 0 < i <= |s| ensures s[i..] == s[1..][i - 1..] {
      }
      if i :| 0 <= i <= |s[1..]| && pattern <= s[1..][i..] {
        assert s[1..][i..] == s[i + 1..];
      }
    }
  }

  function Joined(lines: seq<string>): string {
    if lines == [] then "" else lines[0] + Joined(lines[1..])
  }

  /** Reading in lines neither loses nor adds anything, and every line but the last ends at its first
      newline. */
  lemma {:induction false} LinesAreTheStream(s: string)
    ensures Joined(Lines(s)) == s
    ensures forall i :: 0 <= i < |Lines(s)| ==> Lines(s)[i] != "" && '\n' !in Lines(s)[i][..|Lines(s)[i]| - 1]
    ensures forall i :: 0 <= i < |Lines(s)| - 1 ==> Lines(s)[i][|Lines(s)[i]| - 1] == '\n'
    decreases |s|
  {
    if s != "" {
      var n := LineLength(s);
      LinesAreTheStream(s[n..]);
      LineEnds(s);
      assert Lines(s) == [s[..n]] + Lines(s[n..]) && Lines(s)[1..] == Lines(s[n..]);
      assert s == s[..n] + s[n..];
    }
  }

  lemma {:induction false} LineEnds(s: string)
    requires s != ""
    ensures '\n' !in s[..LineLength(s) - 1]
    ensures LineLength(s) < |s| ==> s[LineLength(s) - 1] == '\n'
  {
    if s[0] != '\n' && |s| > 1 {
      LineEnds(s[1..]);
      assert s[..LineLength(s) - 1] == [s[0]] + s[1..][..LineLength(s[1..]) - 1];
    }
  }

  // ---------------------------------------------------------------- up to the response

  /** The window stops reading a dialog at its first response. */
  predicate IsResponse(m: Option<Message>) {
    m == Some(ResponseOk) || m == Some(ResponseCancel)
  }

  function Heard(ms: seq<Message>): seq<Message> {
    if ms == [] then []
    else if IsResponse(Some(ms[0])) then [ms[0]]
    else [ms[0]] + Heard(ms[1..])
  }

  function ReadLines(lines: seq<string>): seq<string> {
    if lines == [] then []
    else if IsResponse(Interpret(lines[0])) then [lines[0]]
    else [lines[0]] + ReadLines(lines[1..])
  }

  lemma DecodeOne(line: string, rest: seq<string>)
    ensures Decode([line] + rest) == [Interpret(line)] + Decode(rest)
  {
    assert ([line] + rest)[1..] == rest;
  }

  lemma SomesOne(m: Message, rest: seq<Message>)
    ensures Somes([m] + rest) == [Some(m)] + Somes(rest)
  {
    assert ([m] + rest)[1..] == rest;
  }

  lemma SplitDecoded(said: Option<Message>, rest: seq<Option<Message>>, m: Message, others: seq<Option<Message>>)
    requires [said] + rest == [Some(m)] + others
    ensures said == Some(m) && rest == others
  {
    assert ([said] + rest)[0] == said && ([said] + rest)[1..] == rest;
    assert ([Some(m)] + others)[1..] == others;
  }

  /** If the lines say the messages, then so do the lines and messages up to the first response. */
  lemma {:induction false} ReadLinesSayHeard(lines: seq<string>, ms: seq<Message>)
    requires Decode(lines) == Somes(ms)
    ensures Decode(ReadLines(lines)) == Somes(Heard(ms))
  {
    if lines == [] || ms == [] {
      assert lines == [] && ms == [];
    } else {
      SplitDecoded(Interpret(lines[0]), Decode(lines[1..]), ms[0], Somes(ms[1..]));
      var stop := IsResponse(Some(ms[0]));
      var rest, others := if stop then [] else ReadLines(lines[1..]), if stop then [] else Heard(ms[1..]);
      ReadLinesSayHeard(lines[1..], ms[1..]);
      assert ReadLines(lines) == [lines[0]] + rest && Heard(ms) == [ms[0]] + others;
      DecodeOne(lines[0], rest);
      SomesOne(ms[0], others);
    }
  }

  lemma {:induction false} HeardAppend(a: seq<Message>, b: seq<Message>)
    requires forall m :: m in a ==> !IsResponse(Some(m))
    ensures Heard(a + b) == a + Heard(b)
  {
    if a == [] {
      assert a + b == b;
    } else {
      assert (a + b)[1..] == a[1..] + b;
      HeardAppend(a[1..], b);
    }
  }
}
