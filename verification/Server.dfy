/** One connection of the server: the receive loop, in file mode and in device mode. */
module Server {
  import opened Bytes
  import opened CharDriver
  import opened DataFileModel
  import opened DeviceModel
  import opened Framing
  import opened LineBuffers
  import opened MachineInts
  import opened ParsedBlocks
  import opened SeekCommands

  // ---- the line buffer of a connection, chunk by chunk ----

  /** The string, the length the handler tracks for it, and the size of its block. */
  datatype Track = Track(held: seq<byte>, buflen: nat, capacity: nat)

  /** The chunk up to its first newline has been appended. */
  function WithHead(t: Track, chunk: seq<byte>): Track {
    var n := |Head(chunk)|;
    Track(t.held + CStr(Head(chunk)), t.buflen + n, Grown(t.capacity, t.buflen, n))
  }

  /** The buffer has been emptied, and the bytes behind the newline start the next line. */
  function WithLeftover(capacity: nat, chunk: seq<byte>): Track {
    var n := |Leftover(chunk)|;
    Track(CStr(Leftover(chunk)), n, Grown(capacity, n, n))
  }

  function Tracked(t: Track, chunk: seq<byte>): Track {
    var h := WithHead(t, chunk);
    if NEWLINE in chunk then WithLeftover(h.capacity, chunk) else h
  }

  function TrackAll(chunks: seq<seq<byte>>): Track {
    if chunks == [] then Track([], 0, BUFFER_SIZE)
    else Tracked(TrackAll(chunks[..|chunks| - 1]), chunks[|chunks| - 1])
  }

  /** The appends that some chunks cause: tracked length and number of bytes of each. */
  function CallsOf(chunks: seq<seq<byte>>): seq<(nat, nat)> {
    if chunks == [] then []
    else
      var before, chunk := chunks[..|chunks| - 1], chunks[|chunks| - 1];
      var head := CallsOf(before) + [(TrackAll(before).buflen, |Head(chunk)|)];
      if NEWLINE in chunk then head + [(|Leftover(chunk)|, |Leftover(chunk)|)] else head
  }

  lemma GrowthOneMore(calls: seq<(nat, nat)>, buflen: nat, n: nat)
    ensures Growths(calls + [(buflen, n)]).maxbuflen == Grown(Growths(calls).maxbuflen, buflen, n)
  {
    assert (calls + [(buflen, n)])[..|calls|] == calls;
  }

  /** The buffer holds what the framing says it holds, in the block its appends have grown. */
  lemma {:induction false} TrackedBuffer(chunks: seq<seq<byte>>)
    ensures TrackAll(chunks).held == ReceiveAll(chunks).held
    ensures TrackAll(chunks).capacity == Growths(CallsOf(chunks)).maxbuflen
  {
    if chunks != [] {
      var before, chunk := chunks[..|chunks| - 1], chunks[|chunks| - 1];
      TrackedBuffer(before);
      var t, n := TrackAll(before), |Leftover(chunk)|;
      GrowthOneMore(CallsOf(before), t.buflen, |Head(chunk)|);
      GrowthOneMore(CallsOf(before) + [(t.buflen, |Head(chunk)|)], n, n);
    }
  }

  /** The tracked length counts the bytes since the last flush, those that the string lost included. */
  lemma {:induction false} TrackedLength(chunks: seq<seq<byte>>)
    ensures TrackAll(chunks).buflen == |HeldSuffix(chunks)|
  {
    if chunks != [] { TrackedLength(chunks[..|chunks| - 1]); }
  }

  lemma TrackOneMore(chunks: seq<seq<byte>>, i: nat)
    requires i < |chunks|
    ensures TrackAll(chunks[..i + 1]) == Tracked(TrackAll(chunks[..i]), chunks[i])
    ensures ReceiveAll(chunks[..i + 1]) == Receive(ReceiveAll(chunks[..i]), chunks[i])
  {
    assert chunks[..i + 1][..i] == chunks[..i];
  }

  lemma {:induction false} CallsAreBounded(chunks: seq<seq<byte>>, longest: nat, largest: nat)
    requires forall c :: c in chunks ==> |c| <= largest
    requires forall i | 0 <= i <= |chunks| :: TrackAll(chunks[..i]).buflen <= longest
    ensures forall c :: c in CallsOf(chunks) ==> c.0 <= longest && c.1 <= largest
  {
    if chunks != [] {
      var before, chunk := chunks[..|chunks| - 1], chunks[|chunks| - 1];
      assert forall i | 0 <= i <= |before| :: before[..i] == chunks[..i];
      CallsAreBounded(before, longest, largest);
      assert chunk in chunks && before[..|before|] == before && chunks[..|chunks|] == chunks;
    }
  }

  /**
   * The block of a connection at least doubles with each reallocation, and stays linear in the longest
   * tracked length and the largest chunk.
   */
  lemma ConnectionGrowth(chunks: seq<seq<byte>>, longest: nat, largest: nat)
    requires forall c :: c in chunks ==> |c| <= largest
    requires forall i | 0 <= i <= |chunks| :: TrackAll(chunks[..i]).buflen <= longest
    ensures var bound := 2 * longest + 3 * largest;
      Pow2(Growths(CallsOf(chunks)).reallocs) * BUFFER_SIZE <= TrackAll(chunks).capacity
      <= if bound < BUFFER_SIZE then BUFFER_SIZE else bound
  {
    CallsAreBounded(chunks, longest, largest);
    GrowthIsGeometric(CallsOf(chunks), longest, largest);
    TrackedBuffer(chunks);
  }

  class Connection {
    const buffer: LineBuffer
    var buflen: nat

    ghost predicate Valid()
      reads this, buffer, buffer.buf
    {
      buffer.Valid() && |buffer.Str()| <= buflen < buffer.maxbuflen
    }

    ghost function State(): Track
      reads this, buffer, buffer.buf
    {
      Track(buffer.Str(), buflen, buffer.maxbuflen)
    }

    constructor Init()
      ensures Valid() && fresh(buffer) && fresh(buffer.buf) && State() == TrackAll([])
    {
      buffer := new LineBuffer.Init();
      buflen := 0;
    }

    /** Looks for the first newline of the chunk and appends the chunk up to it. */
    method TakeHead(chunk: seq<byte>) returns (hasNl: bool, k: nat)
      requires Valid() && chunk != []
      modifies this, buffer, buffer.buf
      ensures Valid() && (fresh(buffer.buf) || buffer.buf == old(buffer.buf))
      ensures State() == old(WithHead(State(), chunk))
      ensures hasNl == (NEWLINE in chunk) && k == IndexOf(chunk, NEWLINE)
    {
      var n := |chunk|;
      k, hasNl := 0, false;
      while k < n
        invariant k <= n && !hasNl && forall j | 0 <= j < k :: chunk[j] != NEWLINE
      {
        if chunk[k] == NEWLINE {
          hasNl := true;
          break;
        }
        k := k + 1;
      }
      var currlen := n;
      if k + 1 < n {
        currlen := k + 1;
      }
      assert chunk[..currlen] == Head(chunk);
      buffer.AppendString(buflen, chunk, currlen);
      buflen := buflen + currlen;
    }

    method Reset()
      requires Valid()
      modifies this, buffer.buf
      ensures Valid() && State() == old(Track([], 0, buffer.maxbuflen))
    {
      buffer.Clear();
      buflen := 0;
    }

    /** After a flush the bytes behind the newline start the next line. */
    method CarryOver(chunk: seq<byte>, k: nat)
      requires Valid() && buffer.Str() == []
      requires k < |chunk| && k == IndexOf(chunk, NEWLINE)
      modifies this, buffer, buffer.buf
      ensures Valid() && (fresh(buffer.buf) || buffer.buf == old(buffer.buf))
      ensures State() == WithLeftover(old(buffer.maxbuflen), chunk)
    {
      buflen := |chunk| - k - 1;
      assert chunk[k + 1..][..buflen] == Leftover(chunk);
      buffer.AppendString(buflen, chunk[k + 1..], buflen);
    }
  }

  // ---- file mode ----

  class DataFile {
    var bytes: seq<byte>

    constructor Create()
      ensures bytes == []
    {
      bytes := [];
    }

    /** A write at `pos` by a handle opened without O_APPEND. */
    method Write(pos: nat, data: seq<byte>)
      requires pos <= |bytes|
      modifies this
      ensures bytes == WriteAt(old(bytes), pos, data)
    {
      bytes := bytes[..pos] + data + if pos + |data| < |bytes| then bytes[pos + |data|..] else [];
    }

    method Read(pos: nat, size: nat) returns (data: seq<byte>)
      requires pos <= |bytes| && size > 0
      ensures pos + |data| <= |bytes| && data == bytes[pos..pos + |data|]
      ensures |data| == if pos + size < |bytes| then size else |bytes| - pos
    {
      data := bytes[pos..if pos + size < |bytes| then pos + size else |bytes|];
    }

    /** Rewinds, and sends the file until a read returns nothing. */
    method SendResponse() returns (sent: seq<byte>)
      ensures sent == bytes
    {
      var pos := 0;
      sent := [];
      var data := Read(pos, READ_SIZE);
      while data != []
        invariant pos <= |bytes| && sent == bytes[..pos]
        invariant pos + |data| <= |bytes| && data == bytes[pos..pos + |data|]
        invariant data == [] <==> pos == |bytes|
        decreases |bytes| - pos
      {
        sent := sent + data;
        pos := pos + |data|;
        data := Read(pos, READ_SIZE);
      }
    }
  }

  /** One flush: append at `pos`, empty the buffer, answer with the file. */
  method FlushToFile(conn: Connection, file: DataFile, pos: nat) returns (response: seq<byte>)
    requires conn.Valid() && pos == |file.bytes|
    modifies conn, conn.buffer.buf, file
    ensures conn.Valid() && conn.State() == old(Track([], 0, conn.buffer.maxbuflen))
    ensures conn.buffer.buf == old(conn.buffer.buf)
    ensures file.bytes == old(file.bytes + conn.buffer.Str()) && response == file.bytes
  {
    var n := conn.buffer.Strlen();
    file.Write(pos, conn.buffer.buf[..n]);
    conn.Reset();
    response := file.SendResponse();
  }

  /** The file and the responses after some flushes, from a file that held `before`. */
  ghost predicate FileAnswered(before: seq<byte>, flushes: seq<seq<byte>>, bytes: seq<byte>,
                               responses: seq<seq<byte>>)
  {
    && bytes == before + Flatten(flushes) && |responses| == |flushes|
    && forall j | 0 <= j < |responses| :: responses[j] == FileAfter(before, flushes, j + 1)
  }

  function FileAfter(before: seq<byte>, flushes: seq<seq<byte>>, count: nat): seq<byte>
    requires count <= |flushes|
  {
    before + Flatten(flushes[..count])
  }

  lemma AnswerOneMore(before: seq<byte>, flushes: seq<seq<byte>>, bytes: seq<byte>,
                      responses: seq<seq<byte>>, line: seq<byte>)
    requires FileAnswered(before, flushes, bytes, responses)
    ensures FileAnswered(before, flushes + [line], bytes + line, responses + [bytes + line])
  {
    FlattenConcat(flushes, [line]);
    FlattenOne(line);
    Assoc(before, Flatten(flushes), line);
    var all := flushes + [line];
    assert all[..|all|] == all;
    forall j | 0 <= j < |responses|
      ensures (responses + [bytes + line])[j] == FileAfter(before, all, j + 1)
    {
      assert all[..j + 1] == flushes[..j + 1];
      assert responses[j] == FileAfter(before, flushes, j + 1);
    }
  }

  /** The handler stores the position of the end of the file in an `int`, and goes on only if it is not negative. */
  predicate EndFits(bytes: seq<byte>) {
    Signed32(|bytes|) > -1
  }

  /** It is not negative below 2 GiB, and again in every other stretch of 2 GiB above. */
  lemma EndFitsIff(bytes: seq<byte>)
    ensures EndFits(bytes) <==> |bytes| % 0x1_0000_0000 < 0x8000_0000
  {
  }

  /** One round of the receive loop, unless it is left. */
  method ReceiveIntoFile(conn: Connection, file: DataFile, chunk: seq<byte>)
    returns (left: bool, response: Option<seq<byte>>)
    requires conn.Valid() && chunk != []
    modifies conn, conn.buffer, conn.buffer.buf, file
    ensures conn.Valid() && (fresh(conn.buffer.buf) || conn.buffer.buf == old(conn.buffer.buf))
    ensures left <==> !EndFits(old(file.bytes))
    ensures left ==> response == None && file.bytes == old(file.bytes) && conn.State() == old(conn.State())
    ensures !left ==>
      && conn.State() == old(Tracked(conn.State(), chunk))
      && var f := Receive(Frame([], old(conn.buffer.Str())), chunk);
        file.bytes == old(file.bytes) + Flatten(f.flushes)
        && response == if f.flushes == [] then None else Some(file.bytes)
  {
    var pos := |file.bytes|;
    left, response := Signed32(pos) <= -1, None;
    if left { return; }
    var hasNl, k := conn.TakeHead(chunk);
    if hasNl {
      FlattenOne(conn.buffer.Str());
      var sent := FlushToFile(conn, file, pos);
      conn.CarryOver(chunk, k);
      response := Some(sent);
    }
  }

  lemma ReceiveIsLocal(f: Frame, chunk: seq<byte>)
    ensures var g := Receive(Frame([], f.held), chunk);
      Receive(f, chunk) == Frame(f.flushes + g.flushes, g.held)
  {
  }

  /** The file after the flushes of some chunks. */
  function FileAfterChunks(before: seq<byte>, chunks: seq<seq<byte>>): seq<byte> {
    before + Flatten(ReceiveAll(chunks).flushes)
  }

  /** The file and the responses when the first n chunks have been served, each having found an end that fits. */
  ghost predicate FileServed(before: seq<byte>, chunks: seq<seq<byte>>, n: nat, bytes: seq<byte>,
                             responses: seq<seq<byte>>)
    requires n <= |chunks|
  {
    && FileAnswered(before, ReceiveAll(chunks[..n]).flushes, bytes, responses)
    && forall i | 0 <= i < n :: EndFits(FileAfterChunks(before, chunks[..i]))
  }

  /** The next chunk: what it flushes is appended and answered. */
  lemma ServeFileOneMore(before: seq<byte>, chunks: seq<seq<byte>>, n: nat, bytes: seq<byte>, responses: seq<seq<byte>>)
    requires n < |chunks| && EndFits(bytes) && FileServed(before, chunks, n, bytes, responses)
    ensures TrackAll(chunks[..n + 1]) == Tracked(TrackAll(chunks[..n]), chunks[n])
    ensures var g := Receive(Frame([], TrackAll(chunks[..n]).held), chunks[n]);
      var now := bytes + Flatten(g.flushes);
      FileServed(before, chunks, n + 1, now, if g.flushes == [] then responses else responses + [now])
  {
    TrackOneMore(chunks, n);
    TrackedBuffer(chunks[..n]);
    FlushesAnswered(before, ReceiveAll(chunks[..n]), chunks[n], bytes, responses);
  }

  lemma FlushesAnswered(before: seq<byte>, f: Frame, chunk: seq<byte>, bytes: seq<byte>, responses: seq<seq<byte>>)
    requires FileAnswered(before, f.flushes, bytes, responses)
    ensures var g := Receive(Frame([], f.held), chunk);
      var now := bytes + Flatten(g.flushes);
      FileAnswered(before, Receive(f, chunk).flushes, now, if g.flushes == [] then responses else responses + [now])
  {
    var g := Receive(Frame([], f.held), chunk);
    ReceiveIsLocal(f, chunk);
    if g.flushes != [] {
      FlattenOne(g.flushes[0]);
      AnswerOneMore(before, f.flushes, bytes, responses, g.flushes[0]);
    } else {
      assert f.flushes + [] == f.flushes && bytes + [] == bytes;
    }
  }

  /** The flushes of some chunks are no longer than all chunks. */
  lemma FlushesFit(chunks: seq<seq<byte>>, n: nat)
    requires n <= |chunks|
    ensures |Flatten(ReceiveAll(chunks[..n]).flushes)| <= |Flatten(chunks)|
  {
    KeptIsNoLonger(chunks[..n]);
    FlattenConcat(chunks[..n], chunks[n..]);
    assert chunks == chunks[..n] + chunks[n..];
  }

  /** As long as file and stream stay below 2 GiB nothing is left out. */
  lemma SmallFileIsServed(before: seq<byte>, chunks: seq<seq<byte>>, n: nat, bytes: seq<byte>,
                          responses: seq<seq<byte>>)
    requires n <= |chunks| && FileServed(before, chunks, n, bytes, responses)
    requires n < |chunks| ==> !EndFits(bytes)
    ensures |before| + |Flatten(chunks)| < 0x8000_0000 ==> n == |chunks|
    ensures |before| + |Flatten(chunks)| < 0x8000_0000 && NulFree(chunks) ==>
      bytes == before + FlushedPrefix(chunks)
  {
    FlushesFit(chunks, n);
    EndFitsIff(bytes);
    if n == |chunks| && NulFree(chunks) {
      assert chunks[..n] == chunks;
      FlushedUpToNewline(chunks);
    }
  }

  /** The receive loop. */
  method ReceiveLoop(conn: Connection, file: DataFile, chunks: seq<seq<byte>>)
    returns (responses: seq<seq<byte>>, served: nat)
    requires conn.Valid() && conn.State() == TrackAll([]) && forall c :: c in chunks ==> c != []
    modifies conn, conn.buffer, conn.buffer.buf, file
    ensures conn.Valid() && served <= |chunks| && conn.State() == TrackAll(chunks[..served])
    ensures served < |chunks| ==> !EndFits(file.bytes)
    ensures FileServed(old(file.bytes), chunks, served, file.bytes, responses)
  {
    responses, served := [], 0;
    ghost var before := file.bytes;
    while served < |chunks|
      invariant served <= |chunks|
      invariant conn.Valid() && (fresh(conn.buffer.buf) || conn.buffer.buf == old(conn.buffer.buf))
      invariant conn.State() == TrackAll(chunks[..served])
      invariant FileServed(before, chunks, served, file.bytes, responses)
    {
      assert chunks[served] in chunks;
      if EndFits(file.bytes) { ServeFileOneMore(before, chunks, served, file.bytes, responses); }
      var left, response := ReceiveIntoFile(conn, file, chunks[served]);
      if left { break; }
      if response.Some? {
        responses := responses + [response.value];
      }
      served := served + 1;
    }
  }

  /**
   * A connection in file mode, alone on the file: the flushes are appended in order, and each is
   * answered with the whole file up to and including it. The loop is left before the first chunk that
   * finds the end of the file at a position an `int` reads as negative, and at no other.
   */
  method ServeFile(file: DataFile, chunks: seq<seq<byte>>)
    returns (responses: seq<seq<byte>>, served: nat, ghost last: Track)
    requires forall c :: c in chunks ==> c != []
    modifies file
    ensures served <= |chunks| && (served < |chunks| ==> !EndFits(file.bytes))
    ensures FileServed(old(file.bytes), chunks, served, file.bytes, responses)
    ensures last == TrackAll(chunks[..served])
    ensures |old(file.bytes)| + |Flatten(chunks)| < 0x8000_0000 ==> served == |chunks|
    ensures |old(file.bytes)| + |Flatten(chunks)| < 0x8000_0000 && NulFree(chunks) ==>
      file.bytes == old(file.bytes) + FlushedPrefix(chunks)
  {
    ghost var before := file.bytes;
    var conn := new Connection.Init();
    responses, served := ReceiveLoop(conn, file, chunks);
    SmallFileIsServed(before, chunks, served, file.bytes, responses);
    last := conn.State();
  }

  // ---- device mode ----

  /** One read of the response loop on the device d takes the next piece of what remains. */
  ghost predicate Piece(d: Dev, pos: nat, data: seq<byte>, next: nat) {
    && pos <= next && Remaining(d, pos) == data + Remaining(d, next)
    && if data == [] then Remaining(d, next) == [] else LinesLeft(d, next) < LinesLeft(d, pos)
  }

  lemma ReadIsAPiece(d: Dev, pos: nat, data: seq<byte>)
    requires data == d.ReadChunk(pos)
    ensures Piece(d, pos, data, pos + |data|)
  {
    ReadTakesAPiece(d, pos);
  }

  method ReadChunk(dev: AesdDevice, ghost d: Dev, f: OpenFile) returns (m: int, data: seq<byte>)
    requires dev.Valid() && dev.state == d && ReadsFit(d, f.fPos, READ_SIZE)
    modifies f
    ensures dev.Valid() && dev.state == d && m == |data|
    ensures data == d.ReadChunk(old(f.fPos)) && f.fPos == old(f.fPos) + |data|
  {
    m, data := dev.Read(f, READ_SIZE, false, false);
  }

  method ReadPiece(dev: AesdDevice, ghost d: Dev, f: OpenFile) returns (m: int, data: seq<byte>)
    requires dev.Valid() && dev.state == d && ReadsFit(d, f.fPos, READ_SIZE)
    modifies f
    ensures dev.Valid() && dev.state == d && m == |data|
    ensures Piece(d, old(f.fPos), data, f.fPos)
  {
    ghost var pos := f.fPos;
    m, data := ReadChunk(dev, d, f);
    ReadIsAPiece(d, pos, data);
  }

  /**
   * The response loop after some calls: `sent` is out, `data` has been read and comes next, and the
   * handle stands at `pos`. There are no more calls than there were lines to read, and one.
   */
  ghost predicate Sending(d: Dev, start: nat, sent: seq<byte>, data: seq<byte>, pos: nat, calls: nat) {
    && start <= pos
    && Remaining(d, start) == sent + (data + Remaining(d, pos))
    && (data == [] ==> Remaining(d, pos) == [])
    && calls + (if data == [] then 0 else LinesLeft(d, pos)) <= LinesLeft(d, start) + if data == [] then 1 else 0
  }

  lemma FirstPiece(d: Dev, start: nat, data: seq<byte>, pos: nat)
    requires Piece(d, start, data, pos)
    ensures Sending(d, start, [], data, pos, 1)
  {
    assert [] + (data + Remaining(d, pos)) == data + Remaining(d, pos);
  }

  lemma NextPiece(d: Dev, start: nat, sent: seq<byte>, data: seq<byte>, pos: nat, calls: nat,
                  next: seq<byte>, pos': nat)
    requires Sending(d, start, sent, data, pos, calls) && data != [] && Piece(d, pos, next, pos')
    ensures Sending(d, start, sent + data, next, pos', calls + 1)
    ensures next != [] ==> LinesLeft(d, pos') < LinesLeft(d, pos)
  {
    Assoc(sent, data, Remaining(d, pos));
  }

  lemma LastPiece(d: Dev, start: nat, sent: seq<byte>, pos: nat, calls: nat)
    requires Sending(d, start, sent, [], pos, calls)
    ensures sent == Remaining(d, start) && calls <= LinesLeft(d, start) + 1
  {
    assert sent + ([] + []) == sent;
  }

  /** The read loop: one entry per read, until a read returns nothing. */
  method SendFromDevice(dev: AesdDevice, ghost d: Dev, f: OpenFile) returns (sent: seq<byte>, calls: nat)
    requires dev.Valid() && dev.state == d && ReadsFit(d, f.fPos, READ_SIZE)
    modifies f
    ensures dev.Valid() && dev.state == d
    ensures sent == Remaining(d, old(f.fPos))
    ensures calls <= LinesLeft(d, old(f.fPos)) + 1 <= CAPACITY + 1
  {
    ghost var start := f.fPos;
    sent, calls := [], 1;
    var m, data := ReadPiece(dev, d, f);
    FirstPiece(d, start, data, f.fPos);
    while m > 0
      invariant dev.Valid() && dev.state == d && m == |data|
      invariant Sending(d, start, sent, data, f.fPos, calls)
      decreases if m > 0 then LinesLeft(d, f.fPos) + 1 else 0
    {
      ghost var before, read, pos := sent, data, f.fPos;
      sent := sent + data;
      m, data := ReadPiece(dev, d, f);
      NextPiece(d, start, before, read, pos, calls, data, f.fPos);
      calls := calls + 1;
    }
    LastPiece(d, start, sent, f.fPos, calls);
  }

  /** append_datafile in device mode: a seek request goes to the ioctl, anything else is written. */
  method AppendDatafile(dev: AesdDevice, f: OpenFile, mem: seq<byte>, size: nat,
                        slack: seq<byte>, stack: (uint32, uint32))
    requires dev.Valid() && f.fPos == 0
    requires size == |CStr(mem)| > 0 && Parseable(mem, size) && NUL in slack
    modifies dev, dev.ring, dev.ring.entry, dev.heap, f
    ensures dev.Valid()
    ensures var req := RequestFrom(CStr(mem), Parse(mem, size, stack.0, stack.1));
      dev.state == After(old(dev.state), req) && f.fPos == Position(old(dev.state), req)
  {
    var rc, x, y := ParseSeektoCmd(mem, size, stack.0, stack.1);
    if rc != -1 {
      var _ := dev.UnlockedIoctl(f, AESDCHAR_IOCSEEKTO, x, y, false, false);
    } else {
      assert mem[..size] == CStr(mem);
      SlackStops(CStr(mem), slack);
      var _ := dev.Write(f, mem[..size], slack, false, false);
    }
  }

  /** What the parser, the write call and the read loop presuppose of a flush in the buffer. */
  ghost predicate CanFlush(t: Track, d: Dev, stack: (uint32, uint32))
    requires d.ring.WellFormed()
  {
    t.held != [] && WellPlaced(t.held, t.capacity) && AnswerFits(d, AsRequest(t.held, stack), READ_SIZE)
  }

  /** A string in the buffer is delivered through a fresh handle. */
  method Deliver(dev: AesdDevice, mem: seq<byte>, size: nat, slack: seq<byte>, stack: (uint32, uint32))
    returns (f: OpenFile)
    requires dev.Valid() && size == |CStr(mem)| > 0 && NUL in slack
    requires size < |mem| && WellPlaced(CStr(mem), |mem|)
    modifies dev, dev.ring, dev.ring.entry, dev.heap
    ensures dev.Valid() && fresh(f)
    ensures var req := AsRequest(CStr(mem), stack);
      dev.state == After(old(dev.state), req) && f.fPos == Position(old(dev.state), req)
  {
    f := new OpenFile.Open();
    ParseOfWellPlaced(mem, CStr(mem), stack);
    AppendDatafile(dev, f, mem, size, slack, stack);
  }

  /** One flush: deliver the line, empty the buffer, and answer with what then remains to read. */
  method FlushToDevice(conn: Connection, dev: AesdDevice, slack: seq<byte>, stack: (uint32, uint32))
    returns (response: seq<byte>)
    requires conn.Valid() && dev.Valid() && NUL in slack
    requires CanFlush(conn.State(), dev.state, stack)
    modifies conn, conn.buffer.buf, dev, dev.ring, dev.ring.entry, dev.heap
    ensures conn.Valid() && conn.State() == old(Track([], 0, conn.buffer.maxbuflen))
    ensures conn.buffer.buf == old(conn.buffer.buf)
    ensures dev.Valid()
    ensures var req := AsRequest(old(conn.State().held), stack);
      dev.state == After(old(dev.state), req) && response == Answer(old(dev.state), req)
  {
    ghost var d, req := dev.state, AsRequest(conn.State().held, stack);
    var n := conn.buffer.Strlen();
    var f := Deliver(dev, conn.buffer.buf[..], n, slack, stack);
    response := EmptyAndRespond(conn, dev, After(d, req), f);
  }

  method EmptyAndRespond(conn: Connection, dev: AesdDevice, ghost d: Dev, f: OpenFile) returns (response: seq<byte>)
    requires conn.Valid() && dev.Valid() && dev.state == d && ReadsFit(d, f.fPos, READ_SIZE)
    modifies conn, conn.buffer.buf, f
    ensures conn.Valid() && conn.State() == old(Track([], 0, conn.buffer.maxbuflen))
    ensures conn.buffer.buf == old(conn.buffer.buf)
    ensures dev.Valid() && dev.state == d && response == Remaining(d, old(f.fPos))
  {
    conn.Reset();
    var calls;
    response, calls := SendFromDevice(dev, d, f);
  }

  method FlushAndCarryOver(conn: Connection, dev: AesdDevice, chunk: seq<byte>, k: nat, slack: seq<byte>,
                           stack: (uint32, uint32))
    returns (response: seq<byte>)
    requires conn.Valid() && dev.Valid() && NUL in slack && CanFlush(conn.State(), dev.state, stack)
    requires k < |chunk| && k == IndexOf(chunk, NEWLINE)
    modifies conn, conn.buffer, conn.buffer.buf, dev, dev.ring, dev.ring.entry, dev.heap
    ensures conn.Valid() && (fresh(conn.buffer.buf) || conn.buffer.buf == old(conn.buffer.buf))
    ensures conn.State() == WithLeftover(old(conn.buffer.maxbuflen), chunk)
    ensures dev.Valid()
    ensures var req := AsRequest(old(conn.State().held), stack);
      dev.state == After(old(dev.state), req) && response == Answer(old(dev.state), req)
  {
    response := FlushToDevice(conn, dev, slack, stack);
    conn.CarryOver(chunk, k);
  }

  /** One round of the receive loop. */
  method ReceiveIntoDevice(conn: Connection, dev: AesdDevice, chunk: seq<byte>, slack: seq<byte>,
                           stack: (uint32, uint32))
    returns (response: Option<seq<byte>>)
    requires conn.Valid() && dev.Valid() && chunk != [] && NUL in slack
    requires NEWLINE in chunk ==> CanFlush(WithHead(conn.State(), chunk), dev.state, stack)
    modifies conn, conn.buffer, conn.buffer.buf, dev, dev.ring, dev.ring.entry, dev.heap
    ensures conn.Valid() && (fresh(conn.buffer.buf) || conn.buffer.buf == old(conn.buffer.buf))
    ensures dev.Valid() && conn.State() == old(Tracked(conn.State(), chunk))
    ensures NEWLINE !in chunk ==> dev.state == old(dev.state) && response == None
    ensures NEWLINE in chunk ==>
      var req := AsRequest(old(WithHead(conn.State(), chunk).held), stack);
      dev.state == After(old(dev.state), req) && response == Some(Answer(old(dev.state), req))
  {
    response := None;
    ghost var h := WithHead(conn.State(), chunk);
    var hasNl, k := conn.TakeHead(chunk);
    if hasNl {
      assert conn.State() == h;
      var sent := FlushAndCarryOver(conn, dev, chunk, k, slack, stack);
      response := Some(sent);
    }
  }

  /** The flush that chunk i causes, if it causes one, can be made on a device that was d0 at the start. */
  ghost predicate CanServe(d0: Dev, chunks: seq<seq<byte>>, i: nat, stack: nat -> (uint32, uint32))
    requires d0.ring.WellFormed() && i < |chunks|
  {
    var flushes := ReceiveAll(chunks[..i]).flushes;
    NEWLINE in chunks[i] ==>
      CanFlush(WithHead(TrackAll(chunks[..i]), chunks[i]), AfterAll(d0, Requests(flushes, stack)), stack(|flushes|))
  }

  /** A connection in device mode: every flush is one request, answered before the next is taken. */
  method ServeDevice(dev: AesdDevice, chunks: seq<seq<byte>>, slack: seq<byte>, stack: nat -> (uint32, uint32))
    returns (responses: seq<seq<byte>>, ghost last: Track)
    requires dev.Valid() && NUL in slack
    requires forall c :: c in chunks ==> c != []
    requires forall i | 0 <= i < |chunks| :: CanServe(dev.state, chunks, i, stack)
    modifies dev, dev.ring, dev.ring.entry, dev.heap
    ensures dev.Valid()
    ensures Answered(old(dev.state), Requests(ReceiveAll(chunks).flushes, stack), dev.state, responses)
    ensures last == TrackAll(chunks)
  {
    var conn := new Connection.Init();
    responses := [];
    ghost var d0 := dev.state;
    var i := 0;
    while i < |chunks|
      invariant i <= |chunks|
      invariant conn.Valid() && fresh(conn) && fresh(conn.buffer) && fresh(conn.buffer.buf)
      invariant conn.State() == TrackAll(chunks[..i])
      invariant dev.Valid()
      invariant ServedSoFar(d0, chunks[..i], stack, dev.state, responses)
    {
      assert chunks[i] in chunks && CanServe(d0, chunks, i, stack);
      ServeOneMore(d0, chunks, i, stack, dev.state, responses);
      var response := ReceiveIntoDevice(conn, dev, chunks[i], slack, stack(|responses|));
      if response.Some? {
        responses := responses + [response.value];
      }
      i := i + 1;
    }
    assert chunks[..i] == chunks;
    last := conn.State();
  }

  /** The device and the responses when some chunks have been received. */
  ghost predicate ServedSoFar(d0: Dev, chunks: seq<seq<byte>>, stack: nat -> (uint32, uint32),
                              d: Dev, responses: seq<seq<byte>>)
    requires d0.ring.WellFormed()
  {
    Answered(d0, Requests(ReceiveAll(chunks).flushes, stack), d, responses)
  }

  lemma ServeOneMore(d0: Dev, chunks: seq<seq<byte>>, i: nat, stack: nat -> (uint32, uint32),
                     d: Dev, responses: seq<seq<byte>>)
    requires d0.ring.WellFormed() && i < |chunks|
    requires ServedSoFar(d0, chunks[..i], stack, d, responses)
    ensures d.ring.WellFormed() && |responses| == |ReceiveAll(chunks[..i]).flushes|
    ensures d == AfterAll(d0, Requests(ReceiveAll(chunks[..i]).flushes, stack))
    ensures TrackAll(chunks[..i + 1]) == Tracked(TrackAll(chunks[..i]), chunks[i])
    ensures NEWLINE !in chunks[i] ==> ServedSoFar(d0, chunks[..i + 1], stack, d, responses)
    ensures NEWLINE in chunks[i] ==>
      var req := AsRequest(WithHead(TrackAll(chunks[..i]), chunks[i]).held, stack(|responses|));
      ServedSoFar(d0, chunks[..i + 1], stack, After(d, req), responses + [Answer(d, req)])
  {
    var f := ReceiveAll(chunks[..i]);
    TrackOneMore(chunks, i);
    TrackedBuffer(chunks[..i]);
    if NEWLINE in chunks[i] {
      var line := WithHead(TrackAll(chunks[..i]), chunks[i]).held;
      RequestsOneMore(f.flushes, stack, line);
      AnsweredOneMore(d0, Requests(f.flushes, stack), d, responses, AsRequest(line, stack(|responses|)));
    }
  }

  // ---- server and driver together ----

  lemma {:induction false} FlushesGrow(chunks: seq<seq<byte>>, i: nat)
    requires i <= |chunks|
    ensures forall l :: l in ReceiveAll(chunks[..i]).flushes ==> l in ReceiveAll(chunks).flushes
    decreases |chunks| - i
  {
    if i == |chunks| {
      assert chunks[..i] == chunks;
    } else {
      TrackOneMore(chunks, i);
      FlushesGrow(chunks, i + 1);
    }
  }

  /** A plain stream with no line longer than the response buffer. */
  predicate Plain(chunks: seq<seq<byte>>) {
    PlainStream(chunks) && forall l :: l in ReceiveAll(chunks).flushes ==> |l| <= READ_SIZE
  }

  /** For example lines without a keyword that fit, each sent as one chunk. */
  lemma PlainLines(lines: seq<seq<byte>>)
    requires NulFree(lines) && NoSeek(lines)
    requires forall l :: l in lines ==> IsLine(l) && |l| <= READ_SIZE
    ensures Plain(lines) && Lines(Flatten(lines)) == lines
  {
    forall l | l in lines ensures Newlines(l) <= 1 {
      OneNewline(l);
    }
    LinesOfLines(lines);
    FlushesAreTheLinesIff(lines);
  }

  lemma PlainSoFar(chunks: seq<seq<byte>>, i: nat)
    requires i <= |chunks| && Plain(chunks)
    ensures Plain(chunks[..i])
  {
    FlushesGrow(chunks, i);
    assert forall c :: c in chunks[..i] ==> c in chunks;
  }

  /** The device that the first i chunks of such a connection leave. */
  lemma PlainDevice(chunks: seq<seq<byte>>, stack: nat -> (uint32, uint32))
    requires Plain(chunks)
    ensures var d := AfterAll(EMPTY_DEVICE, Requests(ReceiveAll(chunks).flushes, stack));
      d.pending == [] && FitsReader(d, READ_SIZE)
  {
    ConnectionKeepsLastTenLines(chunks, stack);
    FlushesAreTheLinesIff(chunks);
  }

  /** Every flush of such a connection can be served. */
  lemma PlainCanServe(chunks: seq<seq<byte>>, i: nat, stack: nat -> (uint32, uint32))
    requires i < |chunks| && Plain(chunks)
    ensures CanServe(EMPTY_DEVICE, chunks, i, stack)
  {
    if NEWLINE in chunks[i] {
      var flushes := ReceiveAll(chunks[..i]).flushes;
      PlainSoFar(chunks, i);
      PlainDevice(chunks[..i], stack);
      PlainFlushed(chunks, i);
      var t, d := WithHead(TrackAll(chunks[..i]), chunks[i]), AfterAll(EMPTY_DEVICE, Requests(flushes, stack));
      ShortLinesFit(d, WriteLine(t.held), READ_SIZE);
    }
  }

  lemma PlainFlushed(chunks: seq<seq<byte>>, i: nat)
    requires i < |chunks| && Plain(chunks) && NEWLINE in chunks[i]
    ensures var line := WithHead(TrackAll(chunks[..i]), chunks[i]).held;
      line != [] && |line| <= READ_SIZE && Find(line, MATCH_CMD, 0).None?
  {
    TrackOneMore(chunks, i);
    TrackedBuffer(chunks[..i]);
    FlushesGrow(chunks, i + 1);
    PlainSoFar(chunks, i + 1);
    FlushedUpToNewline(chunks[..i + 1]);
    var flushes := ReceiveAll(chunks[..i + 1]).flushes;
    assert flushes[|flushes| - 1] in flushes;
  }

  /**
   * Server and driver compose in the code: such a connection leaves on an empty device the last ten
   * lines of its stream, nothing pending, and its k-th line is answered with the last ten up to it.
   */
  method ServePlain(dev: AesdDevice, chunks: seq<seq<byte>>, slack: seq<byte>, stack: nat -> (uint32, uint32))
    returns (responses: seq<seq<byte>>)
    requires dev.Valid() && dev.state == EMPTY_DEVICE && NUL in slack
    requires (forall c :: c in chunks ==> c != []) && Plain(chunks)
    modifies dev, dev.ring, dev.ring.entry, dev.heap
    ensures dev.Valid() && dev.state.pending == []
    ensures dev.state.ring.items == LastN(Lines(Flatten(chunks)), CAPACITY)
    ensures |responses| == |Lines(Flatten(chunks))|
    ensures forall k | 0 <= k < |responses| ::
              responses[k] == Flatten(LastN(Lines(Flatten(chunks))[..k + 1], CAPACITY))
  {
    forall i | 0 <= i < |chunks| ensures CanServe(EMPTY_DEVICE, chunks, i, stack) {
      PlainCanServe(chunks, i, stack);
    }
    ConnectionKeepsLastTenLines(chunks, stack);
    ghost var last;
    responses, last := ServeDevice(dev, chunks, slack, stack);
  }
}
