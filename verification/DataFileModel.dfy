/** The regular data file as bytes, and one flush on either kind of store, as values. */
module DataFileModel {
  import opened Addressing
  import opened Bytes
  import opened DeviceModel
  import opened Framing
  import opened MachineInts
  import opened ParsedBlocks
  import opened SeekCommands

  /** write(2) at a position inside or at the end of a file opened without O_APPEND. */
  function WriteAt(bytes: seq<byte>, pos: nat, data: seq<byte>): seq<byte>
    requires pos <= |bytes|
  {
    bytes[..pos] + data + if pos + |data| < |bytes| then bytes[pos + |data|..] else []
  }

  /** What stands where behind a positioned write, and how long the file then is. */
  lemma WriteAtBytes(bytes: seq<byte>, pos: nat, data: seq<byte>)
    requires pos <= |bytes|
    ensures var now, end := WriteAt(bytes, pos, data), pos + |data|;
      && now[..pos] == bytes[..pos] && now[pos..end] == data
      && (if end < |bytes| then |now| == |bytes| && now[end..] == bytes[end..] else |now| == end)
  {
  }

  /** An append keeps everything exactly when the position is still the end of the file. */
  lemma WriteAppendsIff(bytes: seq<byte>, pos: nat, data: seq<byte>)
    requires pos <= |bytes| && data != []
    ensures WriteAt(bytes, pos, data) == bytes + data <==> pos == |bytes|
    ensures |bytes| <= |WriteAt(bytes, pos, data)|
  {
    if pos < |bytes| {
      assert |WriteAt(bytes, pos, data)| < |bytes + data|;
    }
  }

  /** A flush becomes a seek request if it parses as one, and is written as it is otherwise. */
  function RequestFrom(line: seq<byte>, parsed: Parsed): Request {
    match parsed
    case Rejected => WriteLine(line)
    case Seekto(x, y) => SeekTo(x, y)
  }

  function AsRequest(line: seq<byte>, stack: (uint32, uint32)): Request {
    RequestFrom(line, ParseLine(line, stack))
  }

  /** A flush is stored as a line exactly if it has no keyword, or a number that does not fit. */
  lemma StoredIff(line: seq<byte>, stack: (uint32, uint32))
    ensures AsRequest(line, stack).WriteLine?
       <==> SeekTextOf(line).None? || RangeError(SeekTextOf(line).value)
    ensures AsRequest(line, stack).WriteLine? ==> AsRequest(line, stack) == WriteLine(line)
  {
    if SeekTextOf(line).Some? { RejectedIff(SeekTextOf(line).value, stack.0, stack.1); }
  }

  /** For example a command number above ULONG_MAX, behind a keyword. */
  lemma OutOfRangeIsStored(n: nat, stack: (uint32, uint32))
    requires n > ULONG_MAX
    ensures var line := MATCH_CMD + (Decimal(n) + [NEWLINE]);
      AsRequest(line, stack) == WriteLine(line)
  {
    LargeNumberFails(n);
    FailingTextIsStored(Decimal(n) + [NEWLINE], stack);
  }

  lemma FailingTextIsStored(text: seq<byte>, stack: (uint32, uint32))
    requires RangeError(text)
    ensures AsRequest(MATCH_CMD + text, stack) == WriteLine(MATCH_CMD + text)
  {
    KeywordFirst(text);
    StoredIff(MATCH_CMD + text, stack);
  }

  /** What a flush asks for is the same for every stack exactly if no number is missing from it. */
  lemma RequestStackFreeIff(line: seq<byte>)
    ensures (forall s: (uint32, uint32), t: (uint32, uint32) :: AsRequest(line, s) == AsRequest(line, t))
            <==> (SeekTextOf(line).None? || StackFree(SeekTextOf(line).value))
  {
    if SeekTextOf(line).Some? {
      var text := SeekTextOf(line).value;
      StackFreeIff(text);
      if StackFree(text) {
        forall s: (uint32, uint32), t: (uint32, uint32) ensures AsRequest(line, s) == AsRequest(line, t) {
          assert ParseText(text, s.0, s.1) == ParseText(text, t.0, t.1);
        }
      } else {
        assert AsRequest(line, (0, 0)) != AsRequest(line, (1, 1));
      }
    }
  }

  /** The requests of a connection; `stack` is the stack garbage the parser finds at each flush. */
  function Requests(flushes: seq<seq<byte>>, stack: nat -> (uint32, uint32)): seq<Request> {
    seq(|flushes|, k requires 0 <= k < |flushes| => AsRequest(flushes[k], stack(k)))
  }

  lemma RequestsOneMore(flushes: seq<seq<byte>>, stack: nat -> (uint32, uint32), line: seq<byte>)
    ensures Requests(flushes + [line], stack) == Requests(flushes, stack) + [AsRequest(line, stack(|flushes|))]
  {
  }

  /**
   * End to end: the line `AESDCHAR_IOCSEEKTO:x,y` and a newline, parsed, passed to the ioctl and
   * answered by the read loop, leaves the device alone and delivers byte y of the x-th oldest line
   * onwards, the offset cut to 32 bits and the command to 8; nothing if the slot wraps; everything if
   * the request is rejected.
   */
  lemma SeekEndToEnd(d: Dev, x: nat, y: nat, stack: (uint32, uint32))
    requires d.WellFormed() && |d.Contents()| < 0x4000_0000_0000_0000
    requires x <= ULONG_MAX && y <= ULONG_MAX
    ensures forall capacity: nat :: WellPlaced(SeekLine(x, y), capacity)
    ensures var n, o, ls := x % 256, y % UINT32_MODULUS, d.ring.items;
      var req := AsRequest(SeekLine(x, y), stack);
      && After(d, req) == d
      && Answer(d, req) == if n >= |ls| || o >= |ls[n]| then d.Contents()
                           else if d.ring.start + n < CAPACITY then ls[n][o..] + Flatten(ls[n + 1..])
                           else []
  {
    KeywordFirst(SeekText(x, y));
    DecimalFits(y);
    SeekTextParses(x, y, [], stack.0, stack.1);
    assert SeekText(x, y) + [] == SeekText(x, y);
    SeekDelivers(d, x % UINT32_MODULUS, y % UINT32_MODULUS);
    CutTwice(x);
  }

  lemma CutTwice(x: nat)
    ensures (x % UINT32_MODULUS) % 256 == x % 256
  {
  }

  // ---- the server feeding the device ----

  predicate NoSeek(flushes: seq<seq<byte>>) {
    forall l :: l in flushes ==> Find(l, MATCH_CMD, 0).None?
  }

  /** NUL-free, at most one newline a chunk, and no seek keyword. */
  predicate PlainStream(chunks: seq<seq<byte>>) {
    NulFree(chunks) && AtMostOneEach(chunks) && NoSeek(ReceiveAll(chunks).flushes)
  }

  /**
   * Server and driver compose. Let a NUL-free connection without seek requests reach an empty device.
   * If no chunk brings more than one newline, the device ends with the last ten lines of the stream,
   * nothing pending, and the k-th line is answered with the last ten lines up to it.
   */
  lemma ConnectionKeepsLastTenLines(chunks: seq<seq<byte>>, stack: nat -> (uint32, uint32))
    requires PlainStream(chunks)
    ensures var reqs, lines := Requests(ReceiveAll(chunks).flushes, stack), Lines(Flatten(chunks));
      && |reqs| == |lines|
      && AfterAll(EMPTY_DEVICE, reqs).ring.items == LastN(lines, CAPACITY)
      && AfterAll(EMPTY_DEVICE, reqs).pending == []
      && forall k | 0 <= k < |lines| ::
           AnswerAt(EMPTY_DEVICE, reqs, k) == Flatten(LastN(lines[..k + 1], CAPACITY))
  {
    var reqs, lines := Requests(ReceiveAll(chunks).flushes, stack), Lines(Flatten(chunks));
    PlainRequests(chunks, stack);
    LinesPushed(reqs, lines);
    forall k | 0 <= k < |lines|
      ensures AnswerAt(EMPTY_DEVICE, reqs, k) == Flatten(LastN(lines[..k + 1], CAPACITY))
    {
      LineAnswered(reqs, lines, k);
    }
  }

  lemma PlainRequests(chunks: seq<seq<byte>>, stack: nat -> (uint32, uint32))
    requires PlainStream(chunks)
    ensures var reqs, lines := Requests(ReceiveAll(chunks).flushes, stack), Lines(Flatten(chunks));
      |reqs| == |lines| && forall k | 0 <= k < |lines| :: IsLine(lines[k]) && reqs[k] == WriteLine(lines[k])
  {
    var flushes, lines := ReceiveAll(chunks).flushes, Lines(Flatten(chunks));
    FlushesAreTheLinesIff(chunks);
    LinesAreLines(Flatten(chunks));
    forall k | 0 <= k < |lines| ensures IsLine(lines[k]) && Requests(flushes, stack)[k] == WriteLine(lines[k]) {
      PlainFlush(flushes, stack, k);
    }
  }

  lemma LineAnswered(reqs: seq<Request>, lines: seq<seq<byte>>, k: nat)
    requires k < |reqs| == |lines|
    requires forall j | 0 <= j < |lines| :: IsLine(lines[j]) && reqs[j] == WriteLine(lines[j])
    ensures AnswerAt(EMPTY_DEVICE, reqs, k) == Flatten(LastN(lines[..k + 1], CAPACITY))
  {
    WriteIsAnswered(EMPTY_DEVICE, reqs, k);
    LinesPushed(reqs[..k + 1], lines[..k + 1]);
  }

  /**
   * The lines a NUL-free connection without seek requests pushes are the lines of its stream exactly
   * if no chunk brings more than one newline.
   */
  lemma LinesPushedIff(chunks: seq<seq<byte>>, stack: nat -> (uint32, uint32))
    requires NulFree(chunks) && NoSeek(ReceiveAll(chunks).flushes)
    ensures LineWrites(Requests(ReceiveAll(chunks).flushes, stack))
    ensures FirstLines(Requests(ReceiveAll(chunks).flushes, stack)) == Lines(Flatten(chunks))
            <==> AtMostOneEach(chunks)
  {
    FlushesAreLineWrites(chunks, stack);
    FlushesAreCounted(chunks);
    CountLines(Flatten(chunks));
    if AtMostOneEach(chunks) {
      PlainRequests(chunks, stack);
      WholeLines(Requests(ReceiveAll(chunks).flushes, stack), Lines(Flatten(chunks)));
    }
  }

  lemma FlushesAreLineWrites(chunks: seq<seq<byte>>, stack: nat -> (uint32, uint32))
    requires NulFree(chunks) && NoSeek(ReceiveAll(chunks).flushes)
    ensures LineWrites(Requests(ReceiveAll(chunks).flushes, stack))
  {
    var flushes := ReceiveAll(chunks).flushes;
    FlushedUpToNewline(chunks);
    forall r | r in Requests(flushes, stack) ensures r.WriteLine? && NEWLINE in r.bytes {
      var k :| 0 <= k < |flushes| && Requests(flushes, stack)[k] == r;
      PlainFlush(flushes, stack, k);
    }
  }

  /**
   * Two lines in a chunk, and one in the next: the flushes are the first line, and the second with
   * the third behind it, of which the device takes only the second. The third line is lost.
   */
  lemma ThirdLineIsLost(a: seq<byte>, b: seq<byte>, c: seq<byte>, stack: nat -> (uint32, uint32))
    requires IsLine(a) && IsLine(b) && IsLine(c) && NulFree([a + b, c]) && NoSeek([a, b + c])
    ensures Lines(Flatten([a + b, c])) == [a, b, c]
    ensures ReceiveAll([a + b, c]).flushes == [a, b + c]
    ensures AfterAll(EMPTY_DEVICE, Requests([a, b + c], stack)) == Dev(Ring(CAPACITY, [a, b], 0), [])
  {
    ThreeLines(a, b, c);
    assert [a + b, c][0] in [a + b, c] && [a + b, c][1] in [a + b, c];
    FlushesOfTwoChunks(a + b, a, b, c);
    TwoFlushesServed(a, b, c, [a, b + c], stack);
  }

  lemma TwoFlushesServed(a: seq<byte>, b: seq<byte>, c: seq<byte>, flushes: seq<seq<byte>>,
                         stack: nat -> (uint32, uint32))
    requires IsLine(a) && IsLine(b) && flushes == [a, b + c] && NoSeek(flushes)
    ensures AfterAll(EMPTY_DEVICE, Requests(flushes, stack)) == Dev(Ring(CAPACITY, [a, b], 0), [])
  {
    PlainFlush(flushes, stack, 0);
    PlainFlush(flushes, stack, 1);
    TwoRequests(Requests(flushes, stack), a, b, c);
  }

  lemma TwoRequests(reqs: seq<Request>, a: seq<byte>, b: seq<byte>, c: seq<byte>)
    requires IsLine(a) && IsLine(b) && reqs == [WriteLine(a), WriteLine(b + c)]
    ensures AfterAll(EMPTY_DEVICE, reqs) == Dev(Ring(CAPACITY, [a, b], 0), [])
  {
    AcceptedWhole(a);
    IndexOfIs(b + c, NEWLINE, |b| - 1);
    assert (b + c)[..|b|] == b;
    assert FirstLines(reqs) == [a, b];
    WritesPushOneLineEach(EMPTY_DEVICE, reqs);
    LastItems(CAPACITY, [a, b]);
  }

  lemma ThreeLines(a: seq<byte>, b: seq<byte>, c: seq<byte>)
    requires IsLine(a) && IsLine(b) && IsLine(c)
    ensures Lines(Flatten([a + b, c])) == [a, b, c]
  {
    var ls := [a, b, c];
    LinesOfLines(ls);
    assert ls == [a] + ([b] + [c]) && [a + b, c] == [a + b] + [c];
    FlattenCons(a, [b] + [c]);
    FlattenCons(b, [c]);
    FlattenCons(a + b, [c]);
    Assoc(a, b, Flatten([c]));
  }

  lemma FlushesOfTwoChunks(ab: seq<byte>, a: seq<byte>, b: seq<byte>, c: seq<byte>)
    requires IsLine(a) && IsLine(b) && IsLine(c) && ab == a + b && NUL !in ab && NUL !in c
    ensures ReceiveAll([ab, c]).flushes == [a, b + c]
  {
    ReceiveTwo(ab, c);
    TwoChunks(ab, a, b, c);
  }

  lemma TwoChunks(ab: seq<byte>, a: seq<byte>, b: seq<byte>, c: seq<byte>)
    requires IsLine(a) && IsLine(b) && IsLine(c) && ab == a + b && NUL !in ab && NUL !in c
    ensures Receive(Receive(Frame([], []), ab), c) == Frame([a, b + c], [])
  {
    Units(a);
    Units([a]);
    Units(c);
    Pair(a, b + c);
    ReceiveSplit([], [], a, b, ab);
    ReceiveSplit([a], b, c, [], c);
  }

  lemma Units<T>(s: seq<T>)
    ensures [] + s == s && s + [] == s
  {
  }

  lemma Pair<T>(x: T, y: T)
    ensures [x] + [y] == [x, y]
  {
  }

  lemma ReceiveTwo(x: seq<byte>, y: seq<byte>)
    ensures ReceiveAll([x, y]) == Receive(Receive(Frame([], []), x), y)
  {
    assert [x][..0] == [];
    assert ReceiveAll([x]) == Receive(ReceiveAll([]), x);
    assert [x, y][..1] == [x];
  }

  /** A chunk that is a line and some more, none of it NUL. */
  lemma ReceiveSplit(flushes: seq<seq<byte>>, held: seq<byte>, line: seq<byte>, more: seq<byte>, chunk: seq<byte>)
    requires IsLine(line) && chunk == line + more && NUL !in chunk
    ensures Receive(Frame(flushes, held), chunk) == Frame(flushes + [held + line], more)
  {
    IndexOfIs(chunk, NEWLINE, |line| - 1);
    assert Head(chunk) == line && Leftover(chunk) == more;
    assert forall x :: x in line || x in more ==> x in chunk;
    CStrOfNulFree(line);
    CStrOfNulFree(more);
  }

  /** The shortest such chunks. */
  lemma TwoLinesInAChunk(stack: nat -> (uint32, uint32))
    ensures ReceiveAll(["a\nb\n", "c\n"]).flushes == ["a\n", "b\nc\n"]
    ensures AfterAll(EMPTY_DEVICE, Requests(["a\n", "b\nc\n"], stack))
         == Dev(Ring(CAPACITY, ["a\n", "b\n"], 0), [])
  {
    var a: seq<byte>, b: seq<byte>, c: seq<byte> := "a\n", "b\n", "c\n";
    IndexOfIs(a, NEWLINE, 1);
    IndexOfIs(b, NEWLINE, 1);
    IndexOfIs(c, NEWLINE, 1);
    assert a + b == "a\nb\n" && b + c == "b\nc\n";
    ShortIsNoSeek(a);
    ShortIsNoSeek(b + c);
    ThirdLineIsLost(a, b, c, stack);
  }

  lemma ShortIsNoSeek(l: seq<byte>)
    requires |l| < |MATCH_CMD|
    ensures Find(l, MATCH_CMD, 0).None?
  {
  }

  lemma PlainFlush(flushes: seq<seq<byte>>, stack: nat -> (uint32, uint32), k: nat)
    requires NoSeek(flushes) && k < |flushes|
    ensures Requests(flushes, stack)[k] == WriteLine(flushes[k])
    ensures flushes[k] in flushes
  {
    assert flushes[k] in flushes;
    assert ParseLine(flushes[k], stack(k)) == Rejected;
    assert Requests(flushes, stack)[k] == AsRequest(flushes[k], stack(k));
  }

  /** A write call takes a whole line. */
  lemma AcceptedWhole(l: seq<byte>)
    requires IsLine(l)
    ensures NEWLINE in l && l[..Accepted(l)] == l
  {
  }

  /** Requests that are just lines push these lines. */
  lemma WholeLines(reqs: seq<Request>, lines: seq<seq<byte>>)
    requires |reqs| == |lines|
    requires forall k | 0 <= k < |lines| :: IsLine(lines[k]) && reqs[k] == WriteLine(lines[k])
    ensures LineWrites(reqs) && FirstLines(reqs) == lines
  {
    forall r | r in reqs ensures r.WriteLine? && NEWLINE in r.bytes {
      var k :| 0 <= k < |reqs| && reqs[k] == r;
      AcceptedWhole(lines[k]);
    }
    forall k | 0 <= k < |lines| ensures FirstLines(reqs)[k] == lines[k] {
      AcceptedWhole(lines[k]);
    }
  }

  lemma LinesPushed(reqs: seq<Request>, lines: seq<seq<byte>>)
    requires |reqs| == |lines|
    requires forall k | 0 <= k < |lines| :: IsLine(lines[k]) && reqs[k] == WriteLine(lines[k])
    ensures AfterAll(EMPTY_DEVICE, reqs).ring.items == LastN(lines, CAPACITY)
    ensures AfterAll(EMPTY_DEVICE, reqs).pending == []
  {
    WholeLines(reqs, lines);
    WritesPushOneLineEach(EMPTY_DEVICE, reqs);
    LastItems(CAPACITY, lines);
  }
}
