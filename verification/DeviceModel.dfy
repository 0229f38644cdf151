/**
 * The character device as a value: the kept lines, the unfinished line, and what each file
 * operation does to them. CharDriver proves the driver's code against these functions; the laws of
 * the device over whole runs are proved here.
 */
module DeviceModel {
  import opened Addressing
  import opened Bytes
  import opened MachineInts

  const CAPACITY := 10

  /** The size of the server's read buffer. */
  const READ_SIZE := 102400

  datatype Dev = Dev(ring: Ring<seq<byte>>, pending: seq<byte>) {
    ghost predicate WellFormed() {
      && ring.WellFormed() && ring.cap == CAPACITY
      && (forall l :: l in ring.items ==> IsLine(l))
      && NEWLINE !in pending
    }

    function Contents(): seq<byte> {
      Flatten(ring.items)
    }

    function LineSizes(): seq<nat> {
      seq(|ring.items|, k requires 0 <= k < |ring.items| => |ring.items[k]|)
    }

    /** One write call, on the bytes it was given. */
    function Write(buf: seq<byte>): Dev
      requires ring.WellFormed()
    {
      var line := pending + buf[..Accepted(buf)];
      if NEWLINE in buf then Dev(ring.Push(line), []) else Dev(ring, line)
    }

    /** The bytes one read call at `pos` delivers: the rest of the line `pos` falls in. */
    function ReadChunk(pos: nat): seq<byte> {
      match Locate(LineSizes(), 0, pos)
      case None => []
      case Some((k, o)) => ring.items[k][o..]
    }

    /** The seek ioctl: a new position, or a negative error. The command number is cut to 8 bits. */
    function Seek(writeCmd: nat, offset: nat): int {
      var n := writeCmd % 256;
      if n >= |ring.items| || offset >= |ring.items[n]| then -EINVAL
      else Signed64(JumpPosition(ring.cap, LineSizes(), ring.start, n, offset))
    }
  }

  const EMPTY_DEVICE := Dev(Ring(CAPACITY, [], 0), [])

  /** The (possibly short) count a write call returns: up to the first newline. */
  function Accepted(buf: seq<byte>): (n: nat)
    ensures n <= |buf|
    ensures buf != [] ==> 1 <= n
  {
    if NEWLINE in buf then IndexOf(buf, NEWLINE) + 1 else |buf|
  }

  /** A buffer without a newline is taken whole, and of any other the first line is. */
  lemma AcceptedIs(buf: seq<byte>, line: seq<byte>, rest: seq<byte>)
    ensures NEWLINE !in buf ==> Accepted(buf) == |buf|
    ensures IsLine(line) ==> Accepted(line + rest) == |line|
  {
    if IsLine(line) { IndexOfIs(line + rest, NEWLINE, |line| - 1); }
  }

  // ---- writing: only the byte stream matters, not how it was cut ----

  /** The caller's resubmit loop: offer a buffer again and again, minus what was accepted. */
  function Submit(d: Dev, buf: seq<byte>): Dev
    requires d.ring.WellFormed()
    decreases |buf|
  {
    if buf == [] then d else Submit(d.Write(buf), buf[Accepted(buf)..])
  }

  function SubmitAll(d: Dev, chunks: seq<seq<byte>>): Dev
    requires d.ring.WellFormed()
    ensures SubmitAll(d, chunks).ring.WellFormed()
    decreases chunks
  {
    if chunks == [] then d
    else (SubmitKeepsRing(d, chunks[0]); SubmitAll(Submit(d, chunks[0]), chunks[1..]))
  }

  lemma {:induction false} SubmitKeepsRing(d: Dev, buf: seq<byte>)
    requires d.ring.WellFormed()
    ensures Submit(d, buf).ring.WellFormed()
    decreases |buf|
  {
    if buf != [] { SubmitKeepsRing(d.Write(buf), buf[Accepted(buf)..]); }
  }

  /** What a stream does to the device, said without any write call. */
  function Absorb(d: Dev, stream: seq<byte>): Dev
    requires d.ring.WellFormed()
  {
    Dev(d.ring.PushAll(Lines(d.pending + stream)), Tail(d.pending + stream))
  }

  lemma {:induction false} LinesOfOneLine(l: seq<byte>)
    requires IsLine(l)
    ensures Lines(l) == [l] && Tail(l) == []
  {
    SplitIsUnique([l], []);
    FlattenOne(l);
  }

  lemma {:induction false} LinesOfNoLine(s: seq<byte>)
    requires NEWLINE !in s
    ensures Lines(s) == [] && Tail(s) == s
  {
  }

  lemma WriteIsAbsorb(d: Dev, buf: seq<byte>)
    requires d.WellFormed()
    ensures d.Write(buf) == Absorb(d, buf[..Accepted(buf)])
    ensures d.Write(buf).WellFormed()
  {
    var line := d.pending + buf[..Accepted(buf)];
    if NEWLINE in buf {
      IndexOfIs(line, NEWLINE, |line| - 1);
      LinesOfOneLine(line);
      assert d.ring.PushAll([line]) == d.ring.Push(line) by { assert [line][1..] == []; }
    } else {
      LinesOfNoLine(line);
    }
  }

  lemma WriteKeepsWellFormed(d: Dev, buf: seq<byte>)
    requires d.WellFormed()
    ensures d.Write(buf).WellFormed()
  {
    WriteIsAbsorb(d, buf);
  }

  lemma AbsorbTwice(d: Dev, a: seq<byte>, b: seq<byte>)
    requires d.WellFormed()
    ensures Absorb(d, a).WellFormed()
    ensures Absorb(Absorb(d, a), b) == Absorb(d, a + b)
  {
    var s := d.pending + a;
    SplitPiecewise(s, b);
    Assoc(d.pending, a, b);
    SplitLosesNothing(s);
    LinesAreLines(s);
    PushAllConcat(d.ring, Lines(s), Lines(Tail(s) + b));
    PushAllMembers(d.ring, Lines(s));
  }

  lemma {:induction false} PushAllMembers(r: Ring<seq<byte>>, ls: seq<seq<byte>>)
    requires r.WellFormed()
    ensures r.PushAll(ls).WellFormed() && r.PushAll(ls).cap == r.cap
    ensures forall l :: l in r.PushAll(ls).items ==> l in r.items || l in ls
    decreases |ls|
  {
    if ls != [] { PushAllMembers(r.Push(ls[0]), ls[1..]); }
  }

  lemma {:induction false} SubmitIsAbsorb(d: Dev, buf: seq<byte>)
    requires d.WellFormed()
    ensures Submit(d, buf) == Absorb(d, buf)
    ensures Submit(d, buf).WellFormed()
    decreases |buf|
  {
    if buf == [] {
      assert d.pending + [] == d.pending;
      LinesOfNoLine(d.pending);
    } else {
      var n := Accepted(buf);
      WriteIsAbsorb(d, buf);
      SubmitIsAbsorb(d.Write(buf), buf[n..]);
      AbsorbTwice(d, buf[..n], buf[n..]);
      assert buf == buf[..n] + buf[n..];
    }
  }

  /** Chunking independence: however the stream is cut into writes, the device ends the same. */
  lemma {:induction false} ChunkingIndependence(d: Dev, chunks: seq<seq<byte>>)
    requires d.WellFormed()
    ensures SubmitAll(d, chunks) == Absorb(d, Flatten(chunks))
    ensures SubmitAll(d, chunks).WellFormed()
    decreases |chunks|
  {
    if chunks == [] {
      assert d.pending + [] == d.pending;
      LinesOfNoLine(d.pending);
    } else {
      SubmitIsAbsorb(d, chunks[0]);
      ChunkingIndependence(Submit(d, chunks[0]), chunks[1..]);
      AbsorbTwice(d, chunks[0], Flatten(chunks[1..]));
    }
  }

  /** The last ten lines of a stream, the slot the oldest of them sits in, and the tail. */
  function AfterStream(stream: seq<byte>): Dev {
    var lines := Lines(stream);
    Dev(Ring(CAPACITY, LastN(lines, CAPACITY), if |lines| <= CAPACITY then 0 else |lines| % CAPACITY),
        Tail(stream))
  }

  lemma AbsorbFromEmpty(stream: seq<byte>)
    ensures Absorb(EMPTY_DEVICE, stream) == AfterStream(stream)
  {
    EmptyFirst(stream);
    LastItems(CAPACITY, Lines(stream));
  }

  lemma EmptyFirst<T>(s: seq<T>)
    ensures [] + s == s
  {
  }

  /** From an empty device: the last ten lines of the stream, and the rest of it as pending. */
  lemma DeviceHoldsLastTenLines(chunks: seq<seq<byte>>)
    ensures SubmitAll(EMPTY_DEVICE, chunks) == AfterStream(Flatten(chunks))
    ensures SubmitAll(EMPTY_DEVICE, chunks).WellFormed()
  {
    ChunkingIndependence(EMPTY_DEVICE, chunks);
    AbsorbFromEmpty(Flatten(chunks));
  }

  // ---- reading ----

  lemma {:induction false} FlattenSize(ls: seq<seq<byte>>, sizes: seq<nat>, k: nat)
    requires |sizes| == |ls| && forall i | 0 <= i < |ls| :: sizes[i] == |ls[i]|
    requires k <= |ls|
    ensures |Flatten(ls[..k])| == PrefixSize(sizes, k)
  {
    if k > 0 {
      FlattenSize(ls, sizes, k - 1);
      assert ls[..k] == ls[..k - 1] + [ls[k - 1]];
      FlattenConcat(ls[..k - 1], [ls[k - 1]]);
      FlattenOne(ls[k - 1]);
    }
  }

  lemma FlattenFrom(ls: seq<seq<byte>>, sizes: seq<nat>, k: nat)
    requires |sizes| == |ls| && forall i | 0 <= i < |ls| :: sizes[i] == |ls[i]|
    requires k <= |ls|
    ensures |Flatten(ls)| == TotalSize(sizes)
    ensures PrefixSize(sizes, k) <= TotalSize(sizes)
    ensures Flatten(ls)[PrefixSize(sizes, k)..] == Flatten(ls[k..])
  {
    FlattenSize(ls, sizes, k);
    FlattenSize(ls, sizes, |ls|);
    FlattenConcat(ls[..k], ls[k..]);
    assert ls == ls[..k] + ls[k..] && ls[..|ls|] == ls;
  }

  lemma DropTwice<T>(s: seq<T>, i: nat, j: nat)
    requires i + j <= |s|
    ensures s[i..][j..] == s[i + j..]
  {
  }

  /** The contents from byte o of line k on. */
  lemma ContentsFrom(d: Dev, k: nat, o: nat)
    requires k < |d.ring.items| && o <= |d.ring.items[k]|
    ensures PrefixSize(d.LineSizes(), k) + o <= PrefixSize(d.LineSizes(), k + 1) <= |d.Contents()|
    ensures d.Contents()[PrefixSize(d.LineSizes(), k) + o..]
         == d.ring.items[k][o..] + Flatten(d.ring.items[k + 1..])
  {
    var sizes, ls := d.LineSizes(), d.ring.items;
    FlattenFrom(ls, sizes, k);
    FlattenFrom(ls, sizes, k + 1);
    assert ls[k..][0] == ls[k] && ls[k..][1..] == ls[k + 1..];
    DropTwice(Flatten(ls), PrefixSize(sizes, k), o);
    assert (ls[k] + Flatten(ls[k + 1..]))[o..] == ls[k][o..] + Flatten(ls[k + 1..]);
  }

  /** One read: from (k, o) to the end of line k, which is where line k + 1 begins. */
  lemma ReadEndsOnLineBoundary(d: Dev, pos: nat)
    ensures var chunk := d.ReadChunk(pos);
      match Locate(d.LineSizes(), 0, pos)
      case None => pos >= |d.Contents()| && chunk == []
      case Some((k, o)) =>
        && chunk != []
        && pos + |chunk| == PrefixSize(d.LineSizes(), k + 1) <= |d.Contents()|
        && d.Contents()[pos..] == chunk + Flatten(d.ring.items[k + 1..])
  {
    FlattenFrom(d.ring.items, d.LineSizes(), 0);
    match Locate(d.LineSizes(), 0, pos) {
      case None =>
      case Some((k, o)) => ContentsFrom(d, k, o);
    }
  }

  /** The lines a reader at `pos` has still to see, the one `pos` falls in included. */
  function LinesLeft(d: Dev, pos: nat): (n: nat)
    ensures n <= |d.ring.items|
  {
    match Locate(d.LineSizes(), 0, pos)
    case None => 0
    case Some((k, _)) => |d.ring.items| - k
  }

  lemma ReadUsesUpALine(d: Dev, pos: nat)
    requires d.ReadChunk(pos) != []
    ensures LinesLeft(d, pos + |d.ReadChunk(pos)|) < LinesLeft(d, pos)
  {
    ReadEndsOnLineBoundary(d, pos);
    LocateBehind(d.LineSizes(), Locate(d.LineSizes(), 0, pos).value.0, pos + |d.ReadChunk(pos)|);
  }

  /** The contents from `pos` on. */
  function Remaining(d: Dev, pos: nat): seq<byte> {
    if pos <= |d.Contents()| then d.Contents()[pos..] else []
  }

  /** Read-back: one read takes the next piece of what remains, and is empty only at the end. */
  lemma ReadTakesAPiece(d: Dev, pos: nat)
    ensures var chunk := d.ReadChunk(pos);
      && Remaining(d, pos) == chunk + Remaining(d, pos + |chunk|)
      && (chunk == [] <==> Remaining(d, pos) == [])
      && (chunk != [] ==> LinesLeft(d, pos + |chunk|) < LinesLeft(d, pos))
  {
    var chunk := d.ReadChunk(pos);
    ReadEndsOnLineBoundary(d, pos);
    if chunk != [] {
      DropTwice(d.Contents(), pos, |chunk|);
      ReadUsesUpALine(d, pos);
    }
  }

  /** Every kept line fits a reader's buffer of `size` bytes. */
  predicate FitsReader(d: Dev, size: nat) {
    forall l :: l in d.ring.items ==> |l| <= size
  }

  /** No read at `pos` or behind it overruns a buffer of `size` bytes. */
  ghost predicate ReadsFit(d: Dev, pos: nat, size: nat) {
    forall q: nat | pos <= q :: |d.ReadChunk(q)| <= size
  }

  /** The driver copies the rest of a line whatever the reader asked for: no read overruns exactly then. */
  lemma ReadsFitIff(d: Dev, size: nat)
    ensures ReadsFit(d, 0, size) <==> FitsReader(d, size)
  {
    var sizes, ls := d.LineSizes(), d.ring.items;
    if !FitsReader(d, size) {
      var l :| l in ls && |l| > size;
      var k :| 0 <= k < |ls| && ls[k] == l;
      LocateInverts(sizes, k, 0);
      assert |d.ReadChunk(PrefixSize(sizes, k))| > size;
    } else {
      forall pos: nat | 0 <= pos ensures |d.ReadChunk(pos)| <= size {
        match Locate(sizes, 0, pos)
        case None =>
        case Some((k, _)) => assert ls[k] in ls;
      }
    }
  }

  /** For example behind one long line. */
  lemma LongLineOverruns(l: seq<byte>, size: nat)
    requires IsLine(l) && |l| > size
    ensures !ReadsFit(SubmitAll(EMPTY_DEVICE, [l]), 0, size)
  {
    DeviceHoldsLastTenLines([l]);
    FlattenOne(l);
    LinesOfOneLine(l);
    assert SubmitAll(EMPTY_DEVICE, [l]).ring.items == [l];
    assert l in [l];
    ReadsFitIff(SubmitAll(EMPTY_DEVICE, [l]), size);
  }

  // ---- seeking ----

  /** What a client asks for with one flushed line. */
  datatype Request = WriteLine(bytes: seq<byte>) | SeekTo(writeCmd: nat, offset: nat)

  function After(d: Dev, req: Request): (d': Dev)
    requires d.ring.WellFormed()
    ensures d'.ring.WellFormed()
  {
    if req.WriteLine? then d.Write(req.bytes) else d
  }

  /** The file position after a request; a rejected seek leaves it at 0. */
  function Position(d: Dev, req: Request): nat {
    match req
    case WriteLine(_) => 0
    case SeekTo(writeCmd, offset) =>
      var p := d.Seek(writeCmd, offset);
      if p < 0 then 0 else p
  }

  /** What the read loop behind a request sends. */
  function Answer(d: Dev, req: Request): seq<byte>
    requires d.ring.WellFormed()
  {
    Remaining(After(d, req), Position(d, req))
  }

  /** The reads behind a request fit the response buffer. */
  ghost predicate AnswerFits(d: Dev, req: Request, size: nat)
    requires d.ring.WellFormed()
  {
    ReadsFit(After(d, req), Position(d, req), size)
  }

  /** They do as long as no kept line, and no line the request can complete, is longer than the buffer. */
  lemma ShortLinesFit(d: Dev, req: Request, size: nat)
    requires d.ring.WellFormed() && FitsReader(d, size)
    requires req.WriteLine? ==> |d.pending| + |req.bytes| <= size
    ensures FitsReader(After(d, req), size) && AnswerFits(d, req, size)
  {
    ReadsFitIff(After(d, req), size);
  }

  lemma OffsetFits(d: Dev, n: nat, o: nat)
    requires n < |d.ring.items| && o < |d.ring.items[n]|
    ensures PrefixSize(d.LineSizes(), n) + o < |d.Contents()|
    ensures TotalSize(d.LineSizes()) == |d.Contents()|
  {
    ContentsFrom(d, n, o + 1);
    FlattenFrom(d.ring.items, d.LineSizes(), n);
  }

  lemma SeekPosition(d: Dev, writeCmd: nat, o: nat)
    requires d.WellFormed() && |d.Contents()| < 0x4000_0000_0000_0000
    requires writeCmd % 256 < |d.ring.items| && o < |d.ring.items[writeCmd % 256]|
    ensures d.Seek(writeCmd, o) == o + if d.ring.start + writeCmd % 256 < CAPACITY
                                       then PrefixSize(d.LineSizes(), writeCmd % 256)
                                       else |d.Contents()|
  {
    OffsetFits(d, writeCmd % 256, o);
  }

  /**
   * An accepted seek delivers byte o of the n-th oldest line onwards as long as the slot does not
   * wrap, and nothing at all when it does; any other request is an error and changes nothing.
   */
  lemma SeekDelivers(d: Dev, writeCmd: nat, o: nat)
    requires d.WellFormed() && |d.Contents()| < 0x4000_0000_0000_0000
    ensures var n, ls := writeCmd % 256, d.ring.items;
      if n >= |ls| || o >= |ls[n]| then
        d.Seek(writeCmd, o) == -EINVAL && Answer(d, SeekTo(writeCmd, o)) == d.Contents()
      else
        && d.Seek(writeCmd, o) >= 0
        && Answer(d, SeekTo(writeCmd, o))
           == if d.ring.start + n < CAPACITY then ls[n][o..] + Flatten(ls[n + 1..]) else []
  {
    var n := writeCmd % 256;
    if n < |d.ring.items| && o < |d.ring.items[n]| {
      SeekPosition(d, writeCmd, o);
      ContentsFrom(d, n, o);
    }
  }

  /** What a seek promises on some kept lines: the bytes from offset o of the n-th on, or an error. */
  function Promised(lines: seq<seq<byte>>, n: nat, o: nat): Option<seq<byte>> {
    if n < |lines| && o < |lines[n]| then Some(lines[n][o..] + Flatten(lines[n + 1..])) else None
  }

  /** What a client gets. */
  function Given(d: Dev, n: nat, o: nat): Option<seq<byte>>
    requires d.ring.WellFormed()
  {
    if d.Seek(n, o) < 0 then None else Some(Answer(d, SeekTo(n, o)))
  }

  /** Line n, or after the cut to 8 bits another line, has a byte o. */
  predicate HasByte(lines: seq<seq<byte>>, n: nat, o: nat) {
    n < |lines| && o < |lines[n]|
  }

  lemma SeekIsRight(d: Dev, n: nat, o: nat)
    requires d.WellFormed() && |d.Contents()| < 0x4000_0000_0000_0000
    ensures var ls := d.ring.items;
      Given(d, n, o) == Promised(ls, n, o)
      <==> if HasByte(ls, n, o) then d.ring.start + n < CAPACITY else n < 256 || !HasByte(ls, n % 256, o)
  {
    SeekDelivers(d, n, o);
    if HasByte(d.ring.items, n, o) { NonEmptySuffix(d.ring.items[n], o, Flatten(d.ring.items[n + 1..])); }
  }

  lemma NonEmptySuffix(l: seq<byte>, o: nat, rest: seq<byte>)
    requires o < |l|
    ensures l[o..] + rest != []
  {
    assert |l[o..]| > 0;
  }

  /**
   * In terms of the lines ever written, for every command number and offset: the client gets what
   * the seek promises if and only if the requested slot does not wrap, or, for a byte that does not
   * exist, the cut of the command number to 8 bits does not name one that does.
   */
  lemma SeekIsRightIff(chunks: seq<seq<byte>>, n: nat, o: nat)
    requires |Flatten(LastN(Lines(Flatten(chunks)), CAPACITY))| < 0x4000_0000_0000_0000
    ensures
      var m := |Lines(Flatten(chunks))|;
      var kept := LastN(Lines(Flatten(chunks)), CAPACITY);
      Given(SubmitAll(EMPTY_DEVICE, chunks), n, o) == Promised(kept, n, o)
      <==> if HasByte(kept, n, o) then m <= CAPACITY || m % CAPACITY + n < CAPACITY
           else n < 256 || !HasByte(kept, n % 256, o)
  {
    DeviceHoldsLastTenLines(chunks);
    SeekIsRight(SubmitAll(EMPTY_DEVICE, chunks), n, o);
  }

  /** For example command 256: no such line is kept, and the client gets everything from line 0 on. */
  lemma Command256IsCommand0(d: Dev)
    requires d.WellFormed() && |d.Contents()| < 0x4000_0000_0000_0000 && d.ring.items != []
    ensures Promised(d.ring.items, 256, 0) == None
    ensures d.Seek(256, 0) == d.Seek(0, 0) && Given(d, 256, 0) == Some(d.Contents())
  {
    assert d.ring.items[0] in d.ring.items;
    SeekDelivers(d, 256, 0);
    assert d.ring.items[0][0..] == d.ring.items[0];
  }

  /** For example after eleven lines: a seek to the last one is accepted, and delivers nothing. */
  lemma SeekPastTheWrap(lines: seq<seq<byte>>)
    requires |lines| == 11 && |Flatten(lines)| < 0x4000_0000_0000_0000
    requires forall l :: l in lines ==> IsLine(l)
    ensures var d := SubmitAll(EMPTY_DEVICE, lines);
      && d.ring.items == lines[1..]
      && d.Seek(9, 0) >= 0 && Answer(d, SeekTo(9, 0)) == [] && lines[10] != []
  {
    DeviceHoldsLastTenLines(lines);
    LinesOfLines(lines);
    FlattenCons(lines[0], lines[1..]);
    assert lines == [lines[0]] + lines[1..];
    SeekNinthWrapped(SubmitAll(EMPTY_DEVICE, lines));
    assert lines[10] in lines;
  }

  lemma SeekNinthWrapped(d: Dev)
    requires d.WellFormed() && |d.Contents()| < 0x4000_0000_0000_0000
    requires |d.ring.items| == 10 && d.ring.start > 0
    ensures d.Seek(9, 0) >= 0 && Answer(d, SeekTo(9, 0)) == []
  {
    assert d.ring.items[9] in d.ring.items;
    SeekDelivers(d, 9, 0);
  }

  lemma LinesOfLines(lines: seq<seq<byte>>)
    requires forall l :: l in lines ==> IsLine(l)
    ensures Lines(Flatten(lines)) == lines && Tail(Flatten(lines)) == []
  {
    SplitIsUnique(lines, []);
    assert Flatten(lines) + [] == Flatten(lines);
  }

  // ---- a sequence of requests ----

  function AfterAll(d: Dev, reqs: seq<Request>): (d': Dev)
    requires d.ring.WellFormed()
    ensures d'.ring.WellFormed()
  {
    if reqs == [] then d else After(AfterAll(d, reqs[..|reqs| - 1]), reqs[|reqs| - 1])
  }

  /** The answer to the k-th request of a sequence. */
  function AnswerAt(d: Dev, reqs: seq<Request>, k: nat): seq<byte>
    requires d.ring.WellFormed() && k < |reqs|
  {
    Answer(AfterAll(d, reqs[..k]), reqs[k])
  }

  /** A device and responses that some requests, served in order from d0, lead to. */
  ghost predicate Answered(d0: Dev, reqs: seq<Request>, d: Dev, responses: seq<seq<byte>>)
    requires d0.ring.WellFormed()
  {
    && d == AfterAll(d0, reqs) && |responses| == |reqs|
    && forall k | 0 <= k < |reqs| :: responses[k] == AnswerAt(d0, reqs, k)
  }

  lemma AnsweredOneMore(d0: Dev, reqs: seq<Request>, d: Dev, responses: seq<seq<byte>>, req: Request)
    requires d0.ring.WellFormed() && Answered(d0, reqs, d, responses)
    ensures Answered(d0, reqs + [req], After(d, req), responses + [Answer(d, req)])
  {
    var n, all := |reqs|, reqs + [req];
    assert all[..n] == reqs;
    forall k | 0 <= k < n ensures AnswerAt(d0, all, k) == (responses + [Answer(d, req)])[k] {
      assert all[..k] == reqs[..k];
      assert responses[k] == AnswerAt(d0, reqs, k);
    }
  }

  /** Writes that end in newlines. */
  predicate LineWrites(reqs: seq<Request>) {
    forall r :: r in reqs ==> r.WriteLine? && NEWLINE in r.bytes
  }

  /** Only the first line of a written buffer reaches the device: its write is offered once. */
  function FirstLines(reqs: seq<Request>): seq<seq<byte>>
    requires LineWrites(reqs)
  {
    seq(|reqs|, k requires 0 <= k < |reqs| => reqs[k].bytes[..Accepted(reqs[k].bytes)])
  }

  lemma WritePushes(d: Dev, bytes: seq<byte>)
    requires d.WellFormed() && d.pending == [] && NEWLINE in bytes
    ensures d.Write(bytes) == Dev(d.ring.Push(bytes[..Accepted(bytes)]), [])
    ensures d.Write(bytes).WellFormed()
  {
    WriteKeepsWellFormed(d, bytes);
    assert [] + bytes[..Accepted(bytes)] == bytes[..Accepted(bytes)];
  }

  /** Writes that end in newlines push one line each, and leave nothing pending. */
  lemma {:induction false} WritesPushOneLineEach(d: Dev, reqs: seq<Request>)
    requires d.WellFormed() && d.pending == [] && LineWrites(reqs)
    ensures AfterAll(d, reqs) == Dev(d.ring.PushAll(FirstLines(reqs)), [])
    ensures AfterAll(d, reqs).WellFormed()
  {
    if reqs != [] {
      var before, last := reqs[..|reqs| - 1], reqs[|reqs| - 1];
      WritesPushOneLineEach(d, before);
      assert last in reqs;
      var line := last.bytes[..Accepted(last.bytes)];
      WritePushes(AfterAll(d, before), last.bytes);
      assert FirstLines(reqs) == FirstLines(before) + [line];
      PushAllOne(d.ring, FirstLines(before), line);
    }
  }

  /** A write is answered with the device's contents right after it. */
  lemma WriteIsAnswered(d: Dev, reqs: seq<Request>, k: nat)
    requires d.ring.WellFormed() && k < |reqs| && reqs[k].WriteLine?
    ensures AnswerAt(d, reqs, k) == AfterAll(d, reqs[..k + 1]).Contents()
  {
    assert reqs[..k + 1][..k] == reqs[..k];
  }

  lemma PushAllOne(r: Ring<seq<byte>>, ls: seq<seq<byte>>, l: seq<byte>)
    requires r.WellFormed()
    ensures r.PushAll(ls).WellFormed()
    ensures r.PushAll(ls + [l]) == r.PushAll(ls).Push(l)
  {
    PushAllConcat(r, ls, [l]);
    assert [l][1..] == [];
  }
}
