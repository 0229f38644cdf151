/**
 * The seek parser on the line buffer's block. A keyword found at byte p makes the parser read p bytes
 * behind the string: what earlier lines left in the block, or what lies behind the block.
 */
module ParsedBlocks {
  import opened Bytes
  import opened LineBuffers
  import opened MachineInts
  import opened SeekCommands

  /** What follows the first seek keyword of a flush, if there is one. */
  function SeekTextOf(line: seq<byte>): Option<seq<byte>> {
    match Find(line, MATCH_CMD, 0)
    case None => None
    case Some(p) => Some(line[p + |MATCH_CMD|..])
  }

  /** A block of the given size that holds the line as a C string; what lies behind is arbitrary. */
  predicate BlockOf(mem: seq<byte>, line: seq<byte>, capacity: nat) {
    |mem| == capacity && |line| < capacity && CStr(mem) == line
  }

  /** Both runs fit the digit array with any p bytes behind the text. */
  predicate DigitsFitBefore(text: seq<byte>, p: nat) {
    var c := IndexOf(text, ',');
    if c < |text| then c < DIGITS_SIZE && (|text| + p - c <= DIGITS_SIZE || StopsAtComma(text))
    else |text| + p < DIGITS_SIZE
  }

  /** The parser stays inside the block and inside its digit array. */
  predicate SafelyRead(line: seq<byte>, capacity: nat) {
    match Find(line, MATCH_CMD, 0)
    case None => true
    case Some(p) => (p == 0 || p + |line| <= capacity) && DigitsFitBefore(line[p + |MATCH_CMD|..], p)
  }

  /** Nothing behind the string can change what the parser makes of it. */
  predicate Settled(line: seq<byte>) {
    match Find(line, MATCH_CMD, 0)
    case None => true
    case Some(p) =>
      var text := line[p + |MATCH_CMD|..];
      p <= 1 || ',' in text || RangeError(text)
  }

  /** A flush whose parse is safe in a block of `capacity` bytes and depends on the flush alone. */
  predicate WellPlaced(line: seq<byte>, capacity: nat) {
    SafelyRead(line, capacity) && Settled(line)
  }

  /** What the parser makes of such a flush. */
  function ParseLine(line: seq<byte>, stack: (uint32, uint32)): Parsed {
    match SeekTextOf(line)
    case None => Rejected
    case Some(text) => ParseText(text, stack.0, stack.1)
  }

  /** What it makes of the string of n bytes in a block. */
  function ParseIn(mem: seq<byte>, n: nat, stack: (uint32, uint32)): Parsed
    requires Parseable(mem, n)
  {
    Parse(mem, n, stack.0, stack.1)
  }

  // ---- the text, and the bytes behind it ----

  /** Behind the string there is a NUL first, so the second number ends with the string. */
  lemma NothingBehindMatters(text: seq<byte>, behind: seq<byte>, stack: (uint32, uint32))
    requires NUL !in text && IndexOf(text, ',') < |text|
    requires behind != [] && behind[0] == NUL
    ensures IndexOf(text + behind, ',') == IndexOf(text, ',')
    ensures ParseText(text + behind, stack.0, stack.1) == ParseText(text, stack.0, stack.1)
  {
    var c := IndexOf(text, ',');
    var all := text + behind;
    IndexOfIs(all, ',', c);
    assert all[..c] == text[..c] && all[c + 1..] == text[c + 1..] + behind;
    CStrUpToNul(text[c + 1..], behind);
    SameSecond(all[c + 1..], text[c + 1..]);
  }

  lemma CStrUpToNul(s: seq<byte>, behind: seq<byte>)
    requires NUL !in s && behind != [] && behind[0] == NUL
    ensures CStr(s + behind) == s == CStr(s)
  {
    IndexOfIs(s + behind, NUL, |s|);
  }

  lemma SameSecond(s: seq<byte>, t: seq<byte>)
    requires CStr(s) == CStr(t)
    ensures forall x: uint32, y: uint32 :: ParseSecond(s, x, y) == ParseSecond(t, x, y)
  {
  }

  /** Where the comma is when the text has none. */
  lemma CommaBehindText(text: seq<byte>, behind: seq<byte>)
    requires ',' !in text
    ensures IndexOf(text + behind, ',') == |text| + IndexOf(behind, ',')
  {
    var j := IndexOf(behind, ',');
    var all := text + behind;
    if j < |behind| {
      IndexOfIs(all, ',', |text| + j);
    } else {
      assert forall k | 0 <= k < |all| :: all[k] != ',';
    }
  }

  /** Without a comma in the text, one behind it makes the text the first number. */
  lemma ParseWithCommaBehind(text: seq<byte>, behind: seq<byte>, j: nat, stack: (uint32, uint32))
    requires NUL !in text && ',' !in text && behind != [] && behind[0] == NUL
    requires j == IndexOf(behind, ',') < |behind|
    ensures ParseText(text + behind, stack.0, stack.1)
         == if StrToUL(text).erange then Rejected
            else ParseSecond(behind[j + 1..], StrToUL(text).value % UINT32_MODULUS, stack.1)
  {
    CommaBehindText(text, behind);
    CutBehind(text, behind, j);
    ParseAtComma(text + behind, text + behind[..j], behind[j + 1..], stack.0, stack.1);
    CStrUpToNul(text, behind[..j]);
  }

  lemma CutBehind<T>(s: seq<T>, t: seq<T>, j: nat)
    requires j < |t|
    ensures (s + t)[..|s| + j] == s + t[..j] && (s + t)[|s| + j + 1..] == t[j + 1..]
  {
  }

  lemma ParseWithoutComma(text: seq<byte>, behind: seq<byte>, stack: (uint32, uint32))
    requires NUL !in text && ',' !in text && ',' !in behind && behind != [] && behind[0] == NUL
    ensures ParseText(text + behind, stack.0, stack.1) == ParseText(text, stack.0, stack.1)
  {
    CommaBehindText(text, behind);
    CStrUpToNul(text, behind);
    SameSecond(text + behind, text);
  }

  lemma CStrOfText(text: seq<byte>)
    requires NUL !in text
    ensures CStr(text) == text
  {
  }

  lemma SameParse(text: seq<byte>, behind: seq<byte>, stack: (uint32, uint32))
    requires NUL !in text && (behind != [] ==> behind[0] == NUL)
    requires |behind| <= 1 || ',' in text || RangeError(text)
    ensures ParseText(text + behind, stack.0, stack.1) == ParseText(text, stack.0, stack.1)
  {
    if behind == [] {
      assert text + behind == text;
    } else if ',' in text {
      NothingBehindMatters(text, behind, stack);
    } else if ',' !in behind {
      ParseWithoutComma(text, behind, stack);
    } else {
      ParseWithCommaBehind(text, behind, IndexOf(behind, ','), stack);
      CStrOfText(text);
    }
  }

  lemma FitsWithBehind(text: seq<byte>, behind: seq<byte>)
    requires DigitsFitBefore(text, |behind|)
    ensures DigitsFit(text + behind)
  {
    if ',' in text {
      IndexOfIs(text + behind, ',', IndexOf(text, ','));
      assert (text + behind)[..IndexOf(text, ',')] == text[..IndexOf(text, ',')];
    } else {
      CommaBehindText(text, behind);
    }
  }

  lemma FitsOnlySo(text: seq<byte>, behind: seq<byte>)
    requires DigitsFit(text + behind) && ',' !in behind
    ensures DigitsFitBefore(text, |behind|)
  {
    if ',' in text {
      IndexOfIs(text + behind, ',', IndexOf(text, ','));
      assert (text + behind)[..IndexOf(text, ',')] == text[..IndexOf(text, ',')];
    } else {
      CommaBehindText(text, behind);
    }
  }

  // ---- the line in its block ----

  lemma SuffixAvoids(s: seq<byte>, i: nat, b: byte)
    requires i <= |s| && b !in s
    ensures b !in s[i..]
  {
  }

  /** What the parser reads after a keyword at p: the rest of the string, and p bytes behind it. */
  lemma TextInBlock(mem: seq<byte>, line: seq<byte>, p: nat)
    requires |line| < |mem| && CStr(mem) == line
    requires p + |MATCH_CMD| <= |line| && p + |line| <= |mem|
    ensures NUL !in line && mem[..|line|] == line && mem[|line|] == NUL
    ensures TextAt(mem, |line|, p) == line[p + |MATCH_CMD|..] + mem[|line|..p + |line|]
    ensures NUL !in line[p + |MATCH_CMD|..]
  {
    SuffixAvoids(line, p + |MATCH_CMD|, NUL);
  }

  /** A block that holds the line, with byte b in the second place behind it and NUL in all others. */
  function Padded(line: seq<byte>, capacity: nat, b: byte): (mem: seq<byte>)
    ensures |mem| == capacity
  {
    seq(capacity, k requires 0 <= k < capacity =>
      if k < |line| then line[k] else if k == |line| + 1 then b else NUL)
  }

  lemma PaddedHolds(line: seq<byte>, capacity: nat, b: byte)
    requires NUL !in line && |line| < capacity
    ensures BlockOf(Padded(line, capacity, b), line, capacity)
  {
    IndexOfIs(Padded(line, capacity, b), NUL, |line|);
    assert Padded(line, capacity, b)[..|line|] == line;
  }

  lemma SafelyReadParses(mem: seq<byte>, line: seq<byte>, capacity: nat)
    requires BlockOf(mem, line, capacity) && SafelyRead(line, capacity)
    ensures Parseable(mem, |line|)
  {
    assert mem[..|line|] == line;
    if Find(line, MATCH_CMD, 0).Some? {
      var p := Find(line, MATCH_CMD, 0).value;
      TextInBlock(mem, line, p);
      FitsWithBehind(line[p + |MATCH_CMD|..], mem[|line|..p + |line|]);
    }
  }

  /** The parser is safe on every block of a size that holds the line, exactly under that condition. */
  lemma SafelyReadIff(line: seq<byte>, capacity: nat)
    requires NUL !in line && |line| < capacity
    ensures (forall mem: seq<byte> | BlockOf(mem, line, capacity) :: Parseable(mem, |line|))
            <==> SafelyRead(line, capacity)
  {
    if SafelyRead(line, capacity) {
      forall mem: seq<byte> | BlockOf(mem, line, capacity) ensures Parseable(mem, |line|) {
        SafelyReadParses(mem, line, capacity);
      }
    } else {
      PaddedHolds(line, capacity, NUL);
      UnsafeOnPadded(Padded(line, capacity, NUL), line);
    }
  }

  lemma UnsafeOnPadded(mem: seq<byte>, line: seq<byte>)
    requires BlockOf(mem, line, |mem|) && !SafelyRead(line, |mem|)
    requires forall k | |line| <= k < |mem| :: mem[k] == NUL
    ensures !Parseable(mem, |line|)
  {
    var p := Find(line, MATCH_CMD, 0).value;
    assert mem[..|line|] == line;
    if p + |line| <= |mem| {
      TextInBlock(mem, line, p);
      if DigitsFit(TextAt(mem, |line|, p)) {
        FitsOnlySo(line[p + |MATCH_CMD|..], mem[|line|..p + |line|]);
      }
    }
  }

  /** A parse in any block, by the text and the bytes behind it. */
  lemma ParseInBlock(mem: seq<byte>, line: seq<byte>, capacity: nat, p: nat, stack: (uint32, uint32))
    requires BlockOf(mem, line, capacity) && SafelyRead(line, capacity) && Find(line, MATCH_CMD, 0) == Some(p)
    ensures Parseable(mem, |line|) && p + |line| <= |mem| && NUL !in line[p + |MATCH_CMD|..]
    ensures p > 0 ==> mem[|line|] == NUL
    ensures ParseIn(mem, |line|, stack)
         == ParseText(line[p + |MATCH_CMD|..] + mem[|line|..p + |line|], stack.0, stack.1)
  {
    SafelyReadParses(mem, line, capacity);
    TextInBlock(mem, line, p);
  }

  lemma ParseOfWellPlaced(mem: seq<byte>, line: seq<byte>, stack: (uint32, uint32))
    requires WellPlaced(line, |mem|) && CStr(mem) == line && |line| < |mem|
    ensures Parseable(mem, |line|) && ParseIn(mem, |line|, stack) == ParseLine(line, stack)
  {
    match Find(line, MATCH_CMD, 0)
    case None => NoKeyword(mem, line, stack);
    case Some(p) =>
      ParseInBlock(mem, line, |mem|, p, stack);
      SameParse(line[p + |MATCH_CMD|..], mem[|line|..p + |line|], stack);
  }

  lemma NoKeyword(mem: seq<byte>, line: seq<byte>, stack: (uint32, uint32))
    requires BlockOf(mem, line, |mem|) && Find(line, MATCH_CMD, 0).None?
    ensures Parseable(mem, |line|) && ParseIn(mem, |line|, stack) == Rejected
  {
    assert mem[..|line|] == line;
  }

  // ---- when bytes behind the string decide ----

  /** A stack on which the two blocks give different commands. */
  function TellTale(text: seq<byte>): (stack: (uint32, uint32)) {
    if StrToUL(text).value % UINT32_MODULUS == 0 then (1, 0) else (0, 0)
  }

  lemma UnsettledDiffers(text: seq<byte>, zeros: seq<byte>, comma: seq<byte>)
    requires NUL !in text && ',' !in text && !RangeError(text)
    requires |zeros| == |comma| >= 2 && zeros[0] == NUL && ',' !in zeros
    requires comma[0] == NUL && comma[1] == ',' && CStr(comma[2..]) == []
    ensures var stack := TellTale(text);
      ParseText(text + zeros, stack.0, stack.1) != ParseText(text + comma, stack.0, stack.1)
  {
    var stack := TellTale(text);
    ParseWithoutComma(text, zeros, stack);
    IndexOfIs(comma, ',', 1);
    ParseWithCommaBehind(text, comma, 1, stack);
    CStrOfText(text);
    if text == [] { EmptyConverts(); }
  }

  lemma EmptyConverts()
    ensures StrToUL([]) == ULong(0, false)
  {
  }

  lemma ZerosBehind(mem: seq<byte>, n: nat, p: nat)
    requires 2 <= p && p + n <= |mem| && forall k | n <= k < p + n :: mem[k] == NUL
    ensures var behind := mem[n..p + n];
      |behind| == p && behind[0] == NUL && ',' !in behind
  {
  }

  lemma CommaBehind(mem: seq<byte>, n: nat, p: nat)
    requires 2 <= p && p + n <= |mem| && forall k | n <= k < p + n :: mem[k] == if k == n + 1 then ',' else NUL
    ensures var behind := mem[n..p + n];
      |behind| == p && behind[0] == NUL && behind[1] == ',' && CStr(behind[2..]) == []
  {
    var behind := mem[n..p + n];
    assert forall k | 0 <= k < p :: behind[k] == mem[n + k];
    if p > 2 { IndexOfIs(behind[2..], NUL, 0); }
  }

  /** Two blocks that differ in one byte behind the line. */
  lemma UnsettledInBlocks(line: seq<byte>, zeros: seq<byte>, comma: seq<byte>, p: nat)
    requires 2 <= p && Find(line, MATCH_CMD, 0) == Some(p) && SafelyRead(line, |zeros|)
    requires ',' !in line[p + |MATCH_CMD|..] && !RangeError(line[p + |MATCH_CMD|..])
    requires |zeros| == |comma| && BlockOf(zeros, line, |zeros|) && BlockOf(comma, line, |zeros|)
    requires forall k | |line| <= k < p + |line| :: zeros[k] == NUL
    requires forall k | |line| <= k < p + |line| :: comma[k] == if k == |line| + 1 then ',' else NUL
    ensures var stack := TellTale(line[p + |MATCH_CMD|..]);
      && Parseable(zeros, |line|) && Parseable(comma, |line|)
      && ParseIn(zeros, |line|, stack) != ParseIn(comma, |line|, stack)
  {
    var text := line[p + |MATCH_CMD|..];
    ParseInBlock(zeros, line, |zeros|, p, TellTale(text));
    ParseInBlock(comma, line, |zeros|, p, TellTale(text));
    ZerosBehind(zeros, |line|, p);
    CommaBehind(comma, |line|, p);
    UnsettledDiffers(text, zeros[|line|..p + |line|], comma[|line|..p + |line|]);
  }

  lemma UnsettledPadded(line: seq<byte>, capacity: nat) returns (stack: (uint32, uint32))
    requires NUL !in line && |line| < capacity && SafelyRead(line, capacity) && !Settled(line)
    ensures var zeros, comma := Padded(line, capacity, NUL), Padded(line, capacity, ',');
      && BlockOf(zeros, line, capacity) && BlockOf(comma, line, capacity)
      && Parseable(zeros, |line|) && Parseable(comma, |line|)
      && ParseIn(zeros, |line|, stack) != ParseIn(comma, |line|, stack)
  {
    var p := Find(line, MATCH_CMD, 0).value;
    PaddedHolds(line, capacity, NUL);
    PaddedHolds(line, capacity, ',');
    UnsettledInBlocks(line, Padded(line, capacity, NUL), Padded(line, capacity, ','), p);
    stack := TellTale(line[p + |MATCH_CMD|..]);
  }

  /**
   * The parse of a line is the same in all blocks that hold it, for each content of the stack, exactly
   * if its first keyword is at the start or next to it, or is followed by a comma, or by a number that
   * fails.
   */
  lemma SameInAllBlocksIff(line: seq<byte>, capacity: nat)
    requires NUL !in line && |line| < capacity && SafelyRead(line, capacity)
    ensures forall mem: seq<byte> | BlockOf(mem, line, capacity) :: Parseable(mem, |line|)
    ensures (forall mem: seq<byte>, mem': seq<byte>, stack: (uint32, uint32) |
               BlockOf(mem, line, capacity) && BlockOf(mem', line, capacity) ::
               ParseIn(mem, |line|, stack) == ParseIn(mem', |line|, stack))
            <==> Settled(line)
  {
    SafelyReadIff(line, capacity);
    if Settled(line) {
      forall mem: seq<byte>, mem': seq<byte>, stack: (uint32, uint32) |
        BlockOf(mem, line, capacity) && BlockOf(mem', line, capacity)
        ensures ParseIn(mem, |line|, stack) == ParseIn(mem', |line|, stack)
      {
        ParseOfWellPlaced(mem, line, stack);
        ParseOfWellPlaced(mem', line, stack);
      }
    } else {
      var stack := UnsettledPadded(line, capacity);
    }
  }

  /** It is the same in all blocks and for all stacks exactly if no number is missing from the line. */
  lemma SameEverywhereIff(line: seq<byte>, capacity: nat)
    requires NUL !in line && |line| < capacity && SafelyRead(line, capacity)
    ensures forall mem: seq<byte> | BlockOf(mem, line, capacity) :: Parseable(mem, |line|)
    ensures (forall mem: seq<byte>, mem': seq<byte>, s: (uint32, uint32), t: (uint32, uint32) |
               BlockOf(mem, line, capacity) && BlockOf(mem', line, capacity) ::
               ParseIn(mem, |line|, s) == ParseIn(mem', |line|, t))
            <==> SeekTextOf(line).None? || StackFree(SeekTextOf(line).value)
  {
    SafelyReadIff(line, capacity);
    if SeekTextOf(line).None? || StackFree(SeekTextOf(line).value) {
      forall mem: seq<byte>, mem': seq<byte>, s: (uint32, uint32), t: (uint32, uint32) |
        BlockOf(mem, line, capacity) && BlockOf(mem', line, capacity)
        ensures ParseIn(mem, |line|, s) == ParseIn(mem', |line|, t)
      {
        SameEverywhere(mem, mem', line, s, t);
      }
    } else {
      PaddedHolds(line, capacity, NUL);
      StackMatters(Padded(line, capacity, NUL), line, Find(line, MATCH_CMD, 0).value);
    }
  }

  lemma SameEverywhere(mem: seq<byte>, mem': seq<byte>, line: seq<byte>, s: (uint32, uint32), t: (uint32, uint32))
    requires BlockOf(mem, line, |mem|) && BlockOf(mem', line, |mem|) && SafelyRead(line, |mem|)
    requires SeekTextOf(line).None? || StackFree(SeekTextOf(line).value)
    ensures Parseable(mem, |line|) && Parseable(mem', |line|)
    ensures ParseIn(mem, |line|, s) == ParseIn(mem', |line|, t)
  {
    ParseOfWellPlaced(mem, line, s);
    ParseOfWellPlaced(mem', line, t);
    if SeekTextOf(line).Some? { StackFreeIff(SeekTextOf(line).value); }
  }

  lemma StackMatters(mem: seq<byte>, line: seq<byte>, p: nat)
    requires BlockOf(mem, line, |mem|) && SafelyRead(line, |mem|)
    requires Find(line, MATCH_CMD, 0) == Some(p) && !StackFree(line[p + |MATCH_CMD|..])
    requires forall k | |line| <= k < |mem| :: mem[k] == NUL
    ensures Parseable(mem, |line|) && ParseIn(mem, |line|, (0, 0)) != ParseIn(mem, |line|, (1, 1))
  {
    var text := line[p + |MATCH_CMD|..];
    ParseInBlock(mem, line, |mem|, p, (0, 0));
    ParseInBlock(mem, line, |mem|, p, (1, 1));
    PlainBehind(text, mem[|line|..p + |line|], (0, 0));
    PlainBehind(text, mem[|line|..p + |line|], (1, 1));
    MissingNumber(text);
  }

  lemma MissingNumber(text: seq<byte>)
    requires !StackFree(text)
    ensures ParseText(text, 0, 0) != ParseText(text, 1, 1)
  {
  }

  lemma PlainBehind(text: seq<byte>, behind: seq<byte>, stack: (uint32, uint32))
    requires NUL !in text && ',' !in behind && (behind != [] ==> behind[0] == NUL)
    ensures ParseText(text + behind, stack.0, stack.1) == ParseText(text, stack.0, stack.1)
  {
    if |behind| <= 1 || ',' in text {
      SameParse(text, behind, stack);
    } else {
      ParseWithoutComma(text, behind, stack);
    }
  }

  // ---- an input ----

  lemma NoMatchAt(hay: seq<byte>, key: seq<byte>, k: nat)
    requires key != [] && k < |hay| && hay[k] != key[0]
    ensures !Matches(hay, key, k)
  {
    if k + |key| <= |hay| { assert hay[k..k + |key|][0] == hay[k]; }
  }

  lemma FindBehind(lead: seq<byte>, key: seq<byte>, text: seq<byte>)
    requires key != [] && key[0] !in lead
    ensures Find(lead + (key + text), key, 0) == Some(|lead|)
    ensures (lead + (key + text))[|lead| + |key|..] == text
  {
    var line := lead + (key + text);
    assert line[|lead|..|lead| + |key|] == key;
    assert Matches(line, key, |lead|);
    forall k | 0 <= k < |lead| ensures !Matches(line, key, k) {
      NoMatchAt(line, key, k);
    }
  }

  lemma KeywordBehind(lead: seq<byte>, text: seq<byte>)
    requires 'A' !in lead
    ensures Find(lead + (MATCH_CMD + text), MATCH_CMD, 0) == Some(|lead|)
    ensures (lead + (MATCH_CMD + text))[|lead| + |MATCH_CMD|..] == text
  {
    FindBehind(lead, MATCH_CMD, text);
  }

  lemma KeywordFirst(text: seq<byte>)
    ensures Find(MATCH_CMD + text, MATCH_CMD, 0) == Some(0)
    ensures (MATCH_CMD + text)[|MATCH_CMD|..] == text
  {
    assert Matches(MATCH_CMD + text, MATCH_CMD, 0);
  }

  /** With the keyword at byte 2 and no comma, the second byte behind the string decides what the number is. */
  lemma SecondByteDecides(mem: seq<byte>, line: seq<byte>, text: seq<byte>, stack: (uint32, uint32))
    requires BlockOf(mem, line, |mem|) && SafelyRead(line, |mem|) && Find(line, MATCH_CMD, 0) == Some(2)
    requires text == line[2 + |MATCH_CMD|..] && text != [] && ',' !in text && !StrToUL(text).erange
    ensures Parseable(mem, |line|) && |line| + 2 <= |mem|
    ensures var v := StrToUL(text).value % UINT32_MODULUS;
      ParseIn(mem, |line|, stack)
      == if mem[|line| + 1] == ',' then Seekto(v, stack.1) else Seekto(stack.0, v)
  {
    ParseInBlock(mem, line, |mem|, 2, stack);
    TwoBytes(mem, |line|);
    TwoBehind(text, mem[|line|..2 + |line|], mem[|line| + 1], stack);
  }

  lemma TwoBytes(mem: seq<byte>, n: nat)
    requires n + 2 <= |mem|
    ensures mem[n..2 + n] == [mem[n], mem[n + 1]]
  {
  }

  lemma TwoBehind(text: seq<byte>, behind: seq<byte>, b: byte, stack: (uint32, uint32))
    requires NUL !in text && text != [] && ',' !in text && !StrToUL(text).erange && behind == [NUL, b]
    ensures var v := StrToUL(text).value % UINT32_MODULUS;
      ParseText(text + behind, stack.0, stack.1) == if b == ',' then Seekto(v, stack.1) else Seekto(stack.0, v)
  {
    CStrOfText(text);
    if b == ',' {
      IndexOfIs(behind, ',', 1);
      ParseWithCommaBehind(text, behind, 1, stack);
    } else {
      ParseWithoutComma(text, behind, stack);
    }
  }

  const FIVE: seq<byte> := "5\n"

  /** Two bytes, the keyword, a 5, and no comma. */
  const AB_SEEK_5: seq<byte> := "ab" + (MATCH_CMD + FIVE)

  lemma FiveConverts()
    ensures StrToUL(FIVE) == ULong(5, false)
  {
    assert FIVE == ['5'] + [NEWLINE];
    assert DecimalValue(['5'], 0, 0) == 0;
    DigitsConvert(['5'], [NEWLINE]);
  }

  lemma AbSeek5()
    ensures |AB_SEEK_5| == 23 && |FIVE| == 2 && ',' !in FIVE
    ensures Find(AB_SEEK_5, MATCH_CMD, 0) == Some(2) && AB_SEEK_5[2 + |MATCH_CMD|..] == FIVE
  {
    KeywordBehind("ab", FIVE);
  }

  /** What the 5 is, the byte at 24 of the block decides, which an earlier line has left there. */
  lemma CommaBehindDecides(mem: seq<byte>, stack: (uint32, uint32))
    requires |mem| >= 25 && BlockOf(mem, AB_SEEK_5, |mem|)
    ensures |AB_SEEK_5| == 23 && Parseable(mem, 23)
    ensures ParseIn(mem, 23, stack) == if mem[24] == ',' then Seekto(5, stack.1) else Seekto(stack.0, 5)
  {
    AbSeek5();
    FiveConverts();
    SecondByteDecides(mem, AB_SEEK_5, FIVE, stack);
  }

  /** In the code: a first line that the block held before, and then this one. */
  method SeekAfterAnotherLine(first: seq<byte>, stackX: uint32, stackY: uint32)
    returns (rc: int, x: uint32, y: uint32)
    requires 25 <= |first| < BUFFER_SIZE && NUL !in first
    ensures rc == 0
    ensures if first[24] == ',' then x == 5 && y == stackY else x == stackX && y == 5
  {
    var b := new LineBuffer.Init();
    b.AppendString(0, first, |first|);
    assert first[..|first|] == first;
    CStrOfText(first);
    assert b.Str() == first;
    assert b.buf[24] == b.buf[..][..|first|][24] == first[24];
    b.Clear();
    var second := AB_SEEK_5;
    b.AppendString(0, second, |second|);
    assert second[..|second|] == second;
    CStrOfText(second);
    CommaBehindDecides(b.buf[..], (stackX, stackY));
    var n := b.Strlen();
    rc, x, y := ParseSeektoCmd(b.buf[..], n, stackX, stackY);
  }
}
