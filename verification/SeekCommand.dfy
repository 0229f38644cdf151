/** The textual seek command of the server and its parser, decimal conversion included. */
module SeekCommands {
  import opened Bytes
  import opened MachineInts

  const MATCH_CMD: seq<byte> := "AESDCHAR_IOCSEEKTO:"
  const DIGITS_SIZE := 1024

  // ---- library functions ----

  predicate Matches(hay: seq<byte>, needle: seq<byte>, k: nat) {
    k + |needle| <= |hay| && hay[k..k + |needle|] == needle
  }

  /** strstr: the first occurrence of needle at or after i. */
  function Find(hay: seq<byte>, needle: seq<byte>, i: nat): (r: Option<nat>)
    ensures r.Some? ==> i <= r.value && Matches(hay, needle, r.value)
    ensures forall k: nat | i <= k && (r.Some? ==> k < r.value) :: !Matches(hay, needle, k)
    decreases |hay| - i
  {
    if i + |needle| > |hay| then None
    else if Matches(hay, needle, i) then Some(i)
    else Find(hay, needle, i + 1)
  }

  predicate IsSpace(c: byte) {
    c == ' ' || '\t' <= c <= '\r'
  }

  predicate IsDigit(c: byte) {
    '0' <= c <= '9'
  }

  function DigitValue(c: byte): nat
    requires IsDigit(c)
  {
    c as int - '0' as int
  }

  /** The first index from i on that holds no space. */
  function SkipSpaces(s: seq<byte>, i: nat): (k: nat)
    requires i <= |s|
    ensures i <= k <= |s|
    decreases |s| - i
  {
    if i < |s| && IsSpace(s[i]) then SkipSpaces(s, i + 1) else i
  }

  /** The end of the run of digits that starts at i. */
  function DigitsEnd(s: seq<byte>, i: nat): (k: nat)
    requires i <= |s|
    ensures i <= k <= |s| && forall j | i <= j < k :: IsDigit(s[j])
    ensures k < |s| ==> !IsDigit(s[k])
    decreases |s| - i
  {
    if i < |s| && IsDigit(s[i]) then DigitsEnd(s, i + 1) else i
  }

  /** The value of the digits s[i..k]. */
  function DecimalValue(s: seq<byte>, i: nat, k: nat): nat
    requires i <= k <= |s| && forall j | i <= j < k :: IsDigit(s[j])
    decreases k
  {
    if i == k then 0 else 10 * DecimalValue(s, i, k - 1) + DigitValue(s[k - 1])
  }

  datatype ULong = ULong(value: nat, erange: bool)

  /** strtoul in base 10 with a 64-bit unsigned long: section 7.22.1.4 of ISO C11. */
  function StrToUL(s: seq<byte>): ULong {
    var i := SkipSpaces(s, 0);
    var signed := i < |s| && (s[i] == '-' || s[i] == '+');
    var j := if signed then i + 1 else i;
    var v := DecimalValue(s, j, DigitsEnd(s, j));
    if v > ULONG_MAX then ULong(ULONG_MAX, true)
    else if signed && s[i] == '-' && v > 0 then ULong(ULONG_MAX + 1 - v, false)
    else ULong(v, false)
  }

  // ---- the parser ----

  datatype Parsed = Rejected | Seekto(x: uint32, y: uint32)

  /** The second number; when its text is empty, y keeps whatever the stack held. */
  function ParseSecond(text: seq<byte>, x: uint32, stackY: uint32): Parsed {
    if CStr(text) == [] then Seekto(x, stackY)
    else
      var v := StrToUL(CStr(text));
      if v.erange then Rejected else Seekto(x, v.value % UINT32_MODULUS)
  }

  function ParsePair(first: seq<byte>, second: seq<byte>, stackY: uint32): Parsed {
    var v := StrToUL(CStr(first));
    if v.erange then Rejected else ParseSecond(second, v.value % UINT32_MODULUS, stackY)
  }

  /** What follows the keyword. Without a comma, x keeps whatever the stack held. */
  function ParseText(text: seq<byte>, stackX: uint32, stackY: uint32): Parsed {
    var c := IndexOf(text, ',');
    if c == |text| then ParseSecond(text, stackX, stackY)
    else ParsePair(text[..c], text[c + 1..], stackY)
  }

  /** The bytes the loop reads after a keyword found at p: p of them lie behind the string. */
  function TextAt(mem: seq<byte>, size: nat, p: nat): seq<byte>
    requires p + |MATCH_CMD| <= size && p + size <= |mem|
  {
    mem[p + |MATCH_CMD|..p + size]
  }

  /** The first number is out of range, and the parser returns at the comma. */
  predicate StopsAtComma(text: seq<byte>) {
    var c := IndexOf(text, ',');
    c < |text| && StrToUL(CStr(text[..c])).erange
  }

  /** Both runs of bytes, if the loop comes to the second, fit the digit array with room for its NUL. */
  predicate DigitsFit(text: seq<byte>) {
    var c := IndexOf(text, ',');
    c < DIGITS_SIZE && (|text| - c <= DIGITS_SIZE || StopsAtComma(text))
  }

  /** The loop's index into the digit array, and whether the comma has been seen, after i bytes. */
  function Cursor(text: seq<byte>, i: nat): (nat, bool)
    requires i <= |text|
  {
    if i == 0 then (0, false)
    else
      var (j, seenComma) := Cursor(text, i - 1);
      if !seenComma && text[i - 1] == ',' then (0, true) else (j + 1, seenComma)
  }

  lemma {:induction false} CursorIs(text: seq<byte>, i: nat)
    requires i <= |text|
    ensures var c := IndexOf(text, ',');
      Cursor(text, i) == if i <= c then (i, false) else (i - c - 1, true)
  {
    if i > 0 { CursorIs(text, i - 1); }
  }

  /** How many bytes the loop comes to store or skip. */
  function Reached(text: seq<byte>): (n: nat)
    ensures n <= |text|
  {
    if StopsAtComma(text) then IndexOf(text, ',') else |text|
  }

  /** The loop's index never leaves the digit array, and a NUL is left over, exactly if the runs fit. */
  lemma IndexIsSafeIff(text: seq<byte>)
    ensures (forall i: nat | i <= Reached(text) :: Cursor(text, i).0 < DIGITS_SIZE) <==> DigitsFit(text)
  {
    CursorIs(text, IndexOf(text, ','));
    CursorIs(text, Reached(text));
    if DigitsFit(text) {
      forall i: nat | i <= Reached(text) ensures Cursor(text, i).0 < DIGITS_SIZE {
        CursorIs(text, i);
      }
    }
  }

  /** What the parser needs of its caller's memory. */
  predicate Parseable(mem: seq<byte>, size: nat) {
    && size < |mem| && mem[size] == NUL
    && match Find(mem[..size], MATCH_CMD, 0)
       case None => true
       case Some(p) => p + size <= |mem| && DigitsFit(TextAt(mem, size, p))
  }

  function Parse(mem: seq<byte>, size: nat, stackX: uint32, stackY: uint32): Parsed
    requires Parseable(mem, size)
  {
    match Find(mem[..size], MATCH_CMD, 0)
    case None => Rejected
    case Some(p) => ParseText(TextAt(mem, size, p), stackX, stackY)
  }

  lemma PaddedCStr(block: seq<byte>, s: seq<byte>)
    requires |s| < |block| && block[..|s|] == s
    requires forall k | |s| <= k < |block| :: block[k] == NUL
    ensures CStr(block) == CStr(s)
  {
    var n := IndexOf(s, NUL);
    assert forall k | 0 <= k < n :: block[k] == block[..|s|][k] == s[k];
    if n < |s| { assert block[n] == block[..|s|][n]; }
    IndexOfIs(block, NUL, n);
  }

  method ParseSeektoCmd(mem: seq<byte>, size: nat, stackX: uint32, stackY: uint32)
    returns (rc: int, seekX: uint32, seekY: uint32)
    requires Parseable(mem, size)
    ensures match Parse(mem, size, stackX, stackY)
      case Rejected => rc == -1
      case Seekto(x, y) => rc == 0 && seekX == x && seekY == y
  {
    var cmd := Find(mem[..size], MATCH_CMD, 0);
    if cmd.None? {
      return -1, 0, 0;
    }
    rc, seekX, seekY := ParseNumbers(TextAt(mem, size, cmd.value), stackX, stackY);
  }

  /** What the first number decides when the loop comes to the comma. */
  lemma AtComma(text: seq<byte>, stackX: uint32, stackY: uint32)
    requires IndexOf(text, ',') < |text| && DigitsFit(text)
    ensures var c := IndexOf(text, ',');
      var v := StrToUL(CStr(text[..c]));
      if v.erange then ParseText(text, stackX, stackY) == Rejected
      else
        && |text| - c <= DIGITS_SIZE
        && ParseText(text, stackX, stackY) == ParseSecond(text[c + 1..], v.value % UINT32_MODULUS, stackY)
  {
  }

  /**
   * The loop over the bytes after the keyword, through the fixed digit array. Its index j is `Cursor`;
   * in the end the array holds the second number, or the only one, unless the first was out of range.
   */
  method FillDigits(text: seq<byte>, stackX: uint32)
    returns (ok: bool, digits: array<byte>, x: uint32, ghost run: seq<byte>)
    requires DigitsFit(text)
    ensures ok ==> |run| < digits.Length && digits[..|run|] == run
    ensures ok ==> forall k | |run| <= k < digits.Length :: digits[k] == NUL
    ensures var c := IndexOf(text, ',');
      if c == |text| then ok && run == text && x == stackX
      else ok == !StopsAtComma(text)
           && (ok ==> run == text[c + 1..] && x == StrToUL(CStr(text[..c])).value % UINT32_MODULUS)
  {
    ok, x := true, stackX;
    digits := new byte[DIGITS_SIZE](_ => NUL);
    var i, j, seenComma := 0, 0, false;
    ghost var c := IndexOf(text, ',');
    ghost var second := if c < |text| then text[c + 1..] else [];
    run := text[..c];
    while i < |text|
      invariant digits.Length == DIGITS_SIZE && fresh(digits) && ok
      invariant i <= |text| && (seenComma <==> c < i) && i == j + if seenComma then c + 1 else 0
      invariant seenComma ==> !StopsAtComma(text)
      invariant run == if seenComma then second else text[..c]
      invariant j <= |run| && digits[..j] == run[..j]
      invariant forall k | j <= k < DIGITS_SIZE :: digits[k] == NUL
      invariant x == if seenComma then StrToUL(CStr(text[..c])).value % UINT32_MODULUS else stackX
    {
      if !seenComma && text[i] == ',' {
        assert i == c && digits[..j] == text[..c];
        seenComma, j := true, 0;
        ok, x := ReadNumber(digits, text[..c]);
        if !ok {
          return;
        }
        digits := new byte[DIGITS_SIZE](_ => NUL);
        run := second;
      } else {
        assert text[i] == run[j];
        digits[j] := text[i];
        j := j + 1;
      }
      i := i + 1;
    }
    assert !seenComma ==> run == text;
  }

  method ParseNumbers(text: seq<byte>, stackX: uint32, stackY: uint32)
    returns (rc: int, seekX: uint32, seekY: uint32)
    requires DigitsFit(text)
    ensures match ParseText(text, stackX, stackY)
      case Rejected => rc == -1
      case Seekto(x, y) => rc == 0 && seekX == x && seekY == y
  {
    var ok, digits, x, run := FillDigits(text, stackX);
    if IndexOf(text, ',') < |text| { AtComma(text, stackX, stackY); }
    if !ok {
      return -1, 0, 0;
    }
    rc, seekX, seekY := ParseLast(digits, run, x, stackY);
  }

  /** After the loop: the digit array holds the second number, or nothing. */
  method ParseLast(digits: array<byte>, ghost run: seq<byte>, x: uint32, stackY: uint32)
    returns (rc: int, seekX: uint32, seekY: uint32)
    requires |run| < digits.Length && digits[..|run|] == run
    requires forall k | |run| <= k < digits.Length :: digits[k] == NUL
    ensures match ParseSecond(run, x, stackY)
      case Rejected => rc == -1
      case Seekto(x', y') => rc == 0 && seekX == x' && seekY == y'
  {
    var y := stackY;
    if digits[0] != NUL {
      var ok;
      ok, y := ReadNumber(digits, run);
      if !ok {
        return -1, 0, 0;
      }
    }
    return 0, x, y;
  }

  /** strtoul on the digit array, stored to 32 bits. */
  method ReadNumber(digits: array<byte>, ghost run: seq<byte>) returns (ok: bool, n: uint32)
    requires |run| < digits.Length && digits[..|run|] == run
    requires forall k | |run| <= k < digits.Length :: digits[k] == NUL
    ensures ok <==> !StrToUL(CStr(run)).erange
    ensures n == StrToUL(CStr(run)).value % UINT32_MODULUS
  {
    PaddedCStr(digits[..], run);
    var v := StrToUL(CStr(digits[..]));
    return !v.erange, v.value % UINT32_MODULUS;
  }

  // ---- printing a command, and the round trip ----

  predicate AllDigits(s: seq<byte>) {
    s != [] && forall k | 0 <= k < |s| :: IsDigit(s[k])
  }

  function ValueOf(s: seq<byte>): nat
    requires AllDigits(s)
  {
    DecimalValue(s, 0, |s|)
  }

  /** A run of digits has the same value wherever it stands. */
  lemma {:induction false} ValueOfWindow(s: seq<byte>, at: nat, d: seq<byte>, k: nat)
    requires k <= |d| && at + |d| <= |s|
    requires forall j | 0 <= j < |d| :: s[at + j] == d[j] && IsDigit(d[j])
    ensures forall j | at <= j < at + k :: IsDigit(s[j])
    ensures DecimalValue(s, at, at + k) == DecimalValue(d, 0, k)
  {
    if k > 0 {
      ValueOfWindow(s, at, d, k - 1);
      assert s[at + (k - 1)] == d[k - 1];
    }
  }

  function DigitChar(d: nat): (c: byte)
    requires d < 10
    ensures IsDigit(c) && DigitValue(c) == d
  {
    ('0' as int + d) as char
  }

  function Decimal(n: nat): (s: seq<byte>)
    ensures AllDigits(s) && ValueOf(s) == n
  {
    if n < 10 then
      var s := [DigitChar(n)];
      assert DecimalValue(s, 0, 0) == 0;
      s
    else
      var s := Decimal(n / 10) + [DigitChar(n % 10)];
      ValueOfWindow(s, 0, Decimal(n / 10), |s| - 1);
      s
  }

  lemma {:induction false} DecimalLength(n: nat, bound: nat)
    requires bound > 0 && n < Pow10(bound)
    ensures |Decimal(n)| <= bound
  {
    if n >= 10 { DecimalLength(n / 10, bound - 1); }
  }

  function Pow10(k: nat): nat {
    if k == 0 then 1 else 10 * Pow10(k - 1)
  }

  lemma DecimalFits(n: nat)
    requires n <= ULONG_MAX
    ensures |Decimal(n)| <= 20
  {
    assert Pow10(10) == 10_000_000_000;
    assert Pow10(15) == 1_000_000_000_000_000;
    assert Pow10(20) == 100_000_000_000_000_000_000;
    DecimalLength(n, 20);
  }

  lemma {:induction false} DigitsEndIs(s: seq<byte>, i: nat, k: nat)
    requires i <= k <= |s| && forall j | i <= j < k :: IsDigit(s[j])
    requires k < |s| ==> !IsDigit(s[k])
    ensures DigitsEnd(s, i) == k
    decreases k - i
  {
    if i < k { DigitsEndIs(s, i + 1, k); }
  }

  lemma {:induction false} SkipSpacesIs(s: seq<byte>, i: nat, k: nat)
    requires i <= k <= |s| && forall j | i <= j < k :: IsSpace(s[j])
    requires k < |s| ==> !IsSpace(s[k])
    ensures SkipSpaces(s, i) == k
    decreases k - i
  {
    if i < k { SkipSpacesIs(s, i + 1, k); }
  }

  /**
   * The conversion of any text there is: white space up to i, an optional sign up to j, digits up to
   * e, and no digit behind them. No digits give 0; a value out of range is an error; a minus sign
   * negates in unsigned arithmetic.
   */
  lemma StrToULConverts(s: seq<byte>, i: nat, j: nat, e: nat)
    requires i <= j <= e <= |s| && (forall k | 0 <= k < i :: IsSpace(s[k])) && (i < |s| ==> !IsSpace(s[i]))
    requires if i < |s| && (s[i] == '+' || s[i] == '-') then j == i + 1 else j == i
    requires forall k | j <= k < e :: IsDigit(s[k])
    requires e < |s| ==> !IsDigit(s[e])
    ensures var v := DecimalValue(s, j, e);
      StrToUL(s) == if v > ULONG_MAX then ULong(ULONG_MAX, true)
                    else if i < j && s[i] == '-' && v > 0 then ULong(ULONG_MAX + 1 - v, false)
                    else ULong(v, false)
  {
    SkipSpacesIs(s, 0, i);
    DigitsEndIs(s, j, e);
  }

  /** The characters that count as white space and as digits, and the value of each digit. */
  lemma CharacterClasses(c: byte, d: nat)
    ensures IsSpace(c) <==> c in {' ', '\t', '\n', 11 as char, 12 as char, '\r'}
    ensures IsDigit(c) <==> c in "0123456789"
    ensures d < 10 ==> DigitValue("0123456789"[d]) == d && DigitChar(d) == "0123456789"[d]
  {
    if IsDigit(c) { assert "0123456789"[DigitValue(c)] == c; }
  }

  /** Digits followed by something that is no digit convert to their value. */
  lemma DigitsConvert(d: seq<byte>, rest: seq<byte>)
    requires AllDigits(d) && ValueOf(d) <= ULONG_MAX
    requires rest == [] || !IsDigit(rest[0])
    ensures StrToUL(d + rest) == ULong(ValueOf(d), false)
  {
    var s := d + rest;
    assert forall k | 0 <= k < |d| :: s[k] == d[k];
    ValueOfWindow(s, 0, d, |d|);
    StrToULConverts(s, 0, 0, |d|);
  }

  // ---- when the parser rejects, and when it depends on the stack ----

  /** A number that is read does not fit an unsigned long. */
  predicate RangeError(text: seq<byte>) {
    var c := IndexOf(text, ',');
    if c == |text| then CStr(text) != [] && StrToUL(CStr(text)).erange
    else StrToUL(CStr(text[..c])).erange
         || (CStr(text[c + 1..]) != [] && StrToUL(CStr(text[c + 1..])).erange)
  }

  /** Both numbers are there, or the text is rejected before a missing one matters. */
  predicate StackFree(text: seq<byte>) {
    var c := IndexOf(text, ',');
    if c == |text| then CStr(text) != [] && StrToUL(CStr(text)).erange
    else StrToUL(CStr(text[..c])).erange || CStr(text[c + 1..]) != []
  }

  /** The parser rejects what follows a keyword exactly on a range error. */
  lemma RejectedIff(text: seq<byte>, stackX: uint32, stackY: uint32)
    ensures ParseText(text, stackX, stackY) == Rejected <==> RangeError(text)
  {
  }

  /** The result is the same for every content of the stack exactly if no number is missing. */
  lemma StackFreeIff(text: seq<byte>)
    ensures (forall a: uint32, b: uint32, c: uint32, d: uint32 :: ParseText(text, a, b) == ParseText(text, c, d))
            <==> StackFree(text)
  {
    if !StackFree(text) {
      assert ParseText(text, 0, 0) != ParseText(text, 1, 1);
    }
  }

  /** For example a 5 and no comma: the command number is what the stack held. */
  lemma NoCommaReadsTheStack(stackX: uint32, stackY: uint32)
    ensures ParseText(['5', NEWLINE], stackX, stackY) == Seekto(stackX, 5)
  {
    var text: seq<byte> := ['5', NEWLINE];
    assert CStr(text) == ['5'] + [NEWLINE];
    assert DecimalValue(['5'], 0, 0) == 0;
    DigitsConvert(['5'], [NEWLINE]);
  }

  /** For example any number above ULONG_MAX. */
  lemma LargeNumberFails(n: nat)
    requires n > ULONG_MAX
    ensures RangeError(Decimal(n) + [NEWLINE])
  {
    LargeDigitsFail(Decimal(n));
  }

  lemma LargeDigitsFail(d: seq<byte>)
    requires AllDigits(d) && ValueOf(d) > ULONG_MAX
    ensures RangeError(d + [NEWLINE])
  {
    var text := d + [NEWLINE];
    assert forall k | 0 <= k < |d| :: text[k] == d[k];
    ValueOfWindow(text, 0, d, |d|);
    StrToULConverts(text, 0, 0, |d|);
    WholeText(text);
  }

  lemma WholeText(text: seq<byte>)
    requires forall k | 0 <= k < |text| :: IsDigit(text[k]) || text[k] == NEWLINE
    ensures IndexOf(text, ',') == |text| && CStr(text) == text
  {
  }

  function SeekText(x: nat, y: nat): seq<byte> {
    Decimal(x) + [','] + Decimal(y) + [NEWLINE]
  }

  function SeekLine(x: nat, y: nat): seq<byte> {
    MATCH_CMD + SeekText(x, y)
  }

  /** The numbers of a command as they are stored. */
  function Stored(x: nat, y: nat): Parsed {
    Seekto(x % UINT32_MODULUS, y % UINT32_MODULUS)
  }

  /** Numbers that fit their field are stored as they are. */
  lemma StoredAsIs(x: uint32, y: uint32)
    ensures Stored(x, y) == Seekto(x, y)
  {
  }

  /**
   * Round trip: wherever the first keyword of the buffer is, if a printed command starts there and
   * ends the string, the parser returns its two numbers, cut to 32 bits, whatever lies behind the
   * string or was on the stack.
   */
  lemma ParseRoundTrip(lead: seq<byte>, x: nat, y: nat, behind: seq<byte>, stackX: uint32, stackY: uint32)
    requires x <= ULONG_MAX && y <= ULONG_MAX
    requires Find(lead + SeekLine(x, y), MATCH_CMD, 0) == Some(|lead|)
    requires |lead| <= |behind| + 1 && |Decimal(y)| + |lead| + 2 <= DIGITS_SIZE
    ensures var mem, size := lead + SeekLine(x, y) + [NUL] + behind, |lead + SeekLine(x, y)|;
      Parseable(mem, size) && Parse(mem, size, stackX, stackY) == Stored(x, y)
  {
    var mem, size := lead + SeekLine(x, y) + [NUL] + behind, |lead + SeekLine(x, y)|;
    Layout(lead, MATCH_CMD, SeekText(x, y), behind);
    SeekTextParses(x, y, ([NUL] + behind)[..|lead|], stackX, stackY);
    assert TextAt(mem, size, |lead|) == SeekText(x, y) + ([NUL] + behind)[..|lead|];
  }

  lemma SeekTextParses(x: nat, y: nat, after: seq<byte>, stackX: uint32, stackY: uint32)
    requires x <= ULONG_MAX && y <= ULONG_MAX
    requires (after == [] || after[0] == NUL) && |Decimal(y)| + |after| + 2 <= DIGITS_SIZE
    ensures DigitsFit(SeekText(x, y) + after)
    ensures ParseText(SeekText(x, y) + after, stackX, stackY) == Stored(x, y)
  {
    DecimalFits(x);
    ParseDigits(Decimal(x), Decimal(y), after, stackX, stackY);
    Shape(Decimal(x), Decimal(y), after);
  }

  /** A comma and no digits: the numbers are 0, not what the stack held, since the line ends in a newline. */
  lemma NoDigitsAreZero(stackX: uint32, stackY: uint32)
    ensures ParseText([',', NEWLINE], stackX, stackY) == Seekto(0, 0)
  {
    var text, rest := [',', NEWLINE], [NEWLINE];
    IndexOfIs(text, ',', 0);
    assert text[..0] == [] && text[1..] == rest && CStr([]) == [] && CStr(rest) == rest;
    StrToULConverts([], 0, 0, 0);
    StrToULConverts(rest, 1, 1, 1);
    ParseAtComma(text, [], rest, stackX, stackY);
  }

  lemma Shape(a: seq<byte>, b: seq<byte>, after: seq<byte>)
    ensures a + [','] + b + [NEWLINE] + after == a + ([','] + (b + ([NEWLINE] + after)))
  {
  }

  lemma Layout(lead: seq<byte>, keyword: seq<byte>, text: seq<byte>, behind: seq<byte>)
    requires |lead| <= |behind| + 1
    ensures var line := lead + (keyword + text);
      var mem := line + [NUL] + behind;
      && mem[..|line|] == line && mem[|line|] == NUL
      && mem[|lead| + |keyword|..|lead| + |line|] == text + ([NUL] + behind)[..|lead|]
  {
  }

  lemma ParseDigits(a: seq<byte>, b: seq<byte>, after: seq<byte>, stackX: uint32, stackY: uint32)
    requires AllDigits(a)
    requires AllDigits(b)
    requires ValueOf(a) <= ULONG_MAX && ValueOf(b) <= ULONG_MAX
    requires after == [] || after[0] == NUL
    ensures var text := a + ([','] + (b + ([NEWLINE] + after)));
      && IndexOf(text, ',') == |a|
      && ParseText(text, stackX, stackY) == Stored(ValueOf(a), ValueOf(b))
  {
    var rest := b + ([NEWLINE] + after);
    SplitAtComma(a, rest);
    ParseAtComma(a + ([','] + rest), a, rest, stackX, stackY);
    FirstNumber(a);
    SecondNumber(b, after, ValueOf(a) % UINT32_MODULUS, stackY);
  }

  lemma ParseAtComma(text: seq<byte>, a: seq<byte>, rest: seq<byte>, stackX: uint32, stackY: uint32)
    requires IndexOf(text, ',') == |a| < |text| && text[..|a|] == a && text[|a| + 1..] == rest
    ensures ParseText(text, stackX, stackY) == ParsePair(a, rest, stackY)
  {
  }

  /** Only the digits count: what follows a number up to the comma, and behind the second, is ignored. */
  lemma TwoNumbers(a: seq<byte>, more: seq<byte>, b: seq<byte>, rest: seq<byte>, stackX: uint32, stackY: uint32)
    requires AllDigits(a) && AllDigits(b) && ValueOf(a) <= ULONG_MAX && ValueOf(b) <= ULONG_MAX
    requires ',' !in more && (more == [] || !IsDigit(more[0])) && (rest == [] || !IsDigit(rest[0]))
    ensures ParseText((a + more) + ([','] + (b + rest)), stackX, stackY) == Stored(ValueOf(a), ValueOf(b))
  {
    var text := (a + more) + ([','] + (b + rest));
    IndexOfIs(text, ',', |a + more|);
    assert text[..|a + more|] == a + more && text[|a + more| + 1..] == b + rest;
    ParseAtComma(text, a + more, b + rest, stackX, stackY);
    NumberThen(a, more);
    NumberThen(b, rest);
  }

  /** Without a comma the number is the offset, and the command what the stack held. */
  lemma OneNumber(b: seq<byte>, rest: seq<byte>, stackX: uint32, stackY: uint32)
    requires AllDigits(b) && ValueOf(b) <= ULONG_MAX && ',' !in rest && (rest == [] || !IsDigit(rest[0]))
    ensures ParseText(b + rest, stackX, stackY) == Seekto(stackX, ValueOf(b) % UINT32_MODULUS)
  {
    assert forall k | 0 <= k < |b + rest| :: (b + rest)[k] != ',';
    NumberThen(b, rest);
  }

  lemma NumberThen(d: seq<byte>, rest: seq<byte>)
    requires AllDigits(d) && ValueOf(d) <= ULONG_MAX && (rest == [] || !IsDigit(rest[0]))
    ensures CStr(d + rest) != [] && StrToUL(CStr(d + rest)) == ULong(ValueOf(d), false)
  {
    CStrOfDigits(d, rest);
    DigitsConvert(d, CStr(rest));
  }

  lemma SplitAtComma(a: seq<byte>, rest: seq<byte>)
    requires forall k | 0 <= k < |a| :: IsDigit(a[k])
    ensures var text := a + ([','] + rest);
      IndexOf(text, ',') == |a| && text[..|a|] == a && text[|a| + 1..] == rest
  {
    IndexOfIs(a + ([','] + rest), ',', |a|);
  }

  lemma FirstNumber(a: seq<byte>)
    requires AllDigits(a)
    requires ValueOf(a) <= ULONG_MAX
    ensures StrToUL(CStr(a)) == ULong(ValueOf(a), false)
  {
    assert a + [] == a;
    CStrOfDigits(a, []);
    DigitsConvert(a, []);
  }

  lemma SecondNumber(b: seq<byte>, after: seq<byte>, x: uint32, stackY: uint32)
    requires AllDigits(b)
    requires ValueOf(b) <= ULONG_MAX
    requires after == [] || after[0] == NUL
    ensures ParseSecond(b + ([NEWLINE] + after), x, stackY) == Seekto(x, ValueOf(b) % UINT32_MODULUS)
  {
    CStrOfDigits(b, [NEWLINE] + after);
    CStrOfNewline(after);
    DigitsConvert(b, [NEWLINE]);
  }

  lemma CStrOfNewline(after: seq<byte>)
    requires after == [] || after[0] == NUL
    ensures CStr([NEWLINE] + after) == [NEWLINE]
  {
    if after != [] { IndexOfIs([NEWLINE] + after, NUL, 1); }
  }

  lemma CStrOfDigits(d: seq<byte>, rest: seq<byte>)
    requires forall k | 0 <= k < |d| :: IsDigit(d[k])
    ensures CStr(d + rest) == d + CStr(rest)
  {
    var n := |d| + IndexOf(rest, NUL);
    if n < |d + rest| {
      IndexOfIs(d + rest, NUL, n);
    }
  }
}
