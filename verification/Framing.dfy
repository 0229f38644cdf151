/**
 * The receive loop of one connection, as what it does to the byte stream: a chunk goes into the
 * line buffer up to its first newline, the buffer is flushed, and the rest of the chunk starts the
 * next buffer. The buffer is a C string, so every piece loses what follows its first NUL.
 */
module Framing {
  import opened Bytes

  /** What has been flushed so far, and what the line buffer holds. */
  datatype Frame = Frame(flushes: seq<seq<byte>>, held: seq<byte>)

  /** A received chunk up to and including its first newline, or all of it. */
  function Head(chunk: seq<byte>): seq<byte> {
    var k := IndexOf(chunk, NEWLINE);
    if k < |chunk| then chunk[..k + 1] else chunk
  }

  /** The bytes behind the first newline. */
  function Leftover(chunk: seq<byte>): seq<byte> {
    chunk[|Head(chunk)|..]
  }

  /** A chunk that is a line and some more is cut behind the line, and one without a newline not at all. */
  lemma HeadIsTheLine(line: seq<byte>, rest: seq<byte>, chunk: seq<byte>)
    ensures IsLine(line) ==> Head(line + rest) == line && Leftover(line + rest) == rest
    ensures NEWLINE !in chunk ==> Head(chunk) == chunk && Leftover(chunk) == []
  {
    if IsLine(line) { IndexOfIs(line + rest, NEWLINE, |line| - 1); }
  }

  function Receive(f: Frame, chunk: seq<byte>): Frame {
    var line := f.held + CStr(Head(chunk));
    if NEWLINE in chunk then Frame(f.flushes + [line], CStr(Leftover(chunk)))
    else Frame(f.flushes, line)
  }

  function ReceiveAll(chunks: seq<seq<byte>>): Frame {
    if chunks == [] then Frame([], []) else Receive(ReceiveAll(chunks[..|chunks| - 1]), chunks[|chunks| - 1])
  }

  predicate NulFree(chunks: seq<seq<byte>>) {
    forall c :: c in chunks ==> NUL !in c
  }

  lemma ChunkInTwo(chunk: seq<byte>)
    ensures chunk == Head(chunk) + Leftover(chunk)
    ensures NEWLINE !in chunk ==> Leftover(chunk) == []
  {
  }

  lemma CStrOfNulFree(s: seq<byte>)
    ensures |CStr(s)| <= |s|
    ensures |CStr(s)| == |s| <==> NUL !in s
    ensures NUL !in s ==> CStr(s) == s
    ensures NUL !in CStr(s)
  {
  }

  /** The bytes that got through: flushed ones, then held ones. */
  function Kept(f: Frame): seq<byte> {
    Flatten(f.flushes) + f.held
  }

  lemma OneChunkKept(f: Frame, chunk: seq<byte>)
    ensures Kept(Receive(f, chunk)) == Kept(f) + (CStr(Head(chunk)) + CStr(Leftover(chunk)))
  {
    ChunkInTwo(chunk);
    var head, left := CStr(Head(chunk)), CStr(Leftover(chunk));
    FlattenConcat(f.flushes, [f.held + head]);
    FlattenOne(f.held + head);
    if NEWLINE in chunk {
      Assoc(Flatten(f.flushes), f.held + head, left);
      Assoc(f.held, head, left);
      Assoc(Flatten(f.flushes), f.held, head + left);
    } else {
      assert left == [];
      Assoc(Flatten(f.flushes), f.held, head);
      assert head + [] == head;
    }
  }

  lemma FlattenSnoc(chunks: seq<seq<byte>>)
    requires chunks != []
    ensures Flatten(chunks) == Flatten(chunks[..|chunks| - 1]) + chunks[|chunks| - 1]
  {
    var last := chunks[|chunks| - 1];
    assert chunks == chunks[..|chunks| - 1] + [last];
    FlattenConcat(chunks[..|chunks| - 1], [last]);
    FlattenOne(last);
  }

  lemma ChunkKept(chunk: seq<byte>)
    ensures var kept := CStr(Head(chunk)) + CStr(Leftover(chunk));
      && |kept| <= |chunk| && (|kept| == |chunk| ==> NUL !in chunk) && (NUL !in chunk ==> kept == chunk)
  {
    ChunkInTwo(chunk);
    CStrOfNulFree(Head(chunk));
    CStrOfNulFree(Leftover(chunk));
    assert NUL in chunk <==> NUL in Head(chunk) || NUL in Leftover(chunk);
  }

  lemma NulFreeOneMore(chunks: seq<seq<byte>>)
    requires chunks != []
    ensures NulFree(chunks) <==> NulFree(chunks[..|chunks| - 1]) && NUL !in chunks[|chunks| - 1]
  {
    assert forall c :: c in chunks <==> c in chunks[..|chunks| - 1] || c == chunks[|chunks| - 1];
  }

  lemma {:induction false} KeptIsNoLonger(chunks: seq<seq<byte>>)
    ensures |Kept(ReceiveAll(chunks))| <= |Flatten(chunks)|
    ensures |Kept(ReceiveAll(chunks))| == |Flatten(chunks)| ==> NulFree(chunks)
    ensures NulFree(chunks) ==> Kept(ReceiveAll(chunks)) == Flatten(chunks)
  {
    if chunks != [] {
      var before, chunk := chunks[..|chunks| - 1], chunks[|chunks| - 1];
      KeptIsNoLonger(before);
      OneChunkKept(ReceiveAll(before), chunk);
      FlattenSnoc(chunks);
      ChunkKept(chunk);
      NulFreeOneMore(chunks);
    }
  }

  /** Stream conservation: no received byte is lost or reordered, exactly if none of them is NUL. */
  lemma StreamConserved(chunks: seq<seq<byte>>)
    ensures Kept(ReceiveAll(chunks)) == Flatten(chunks) <==> NulFree(chunks)
  {
    KeptIsNoLonger(chunks);
  }

  /** The held bytes start after the first newline of the latest chunk that had one. */
  function HeldSuffix(chunks: seq<seq<byte>>): seq<byte> {
    if chunks == [] then []
    else
      var last := chunks[|chunks| - 1];
      if NEWLINE in last then Leftover(last) else HeldSuffix(chunks[..|chunks| - 1]) + last
  }

  /** The stream up to that newline. */
  function FlushedPrefix(chunks: seq<seq<byte>>): seq<byte> {
    if chunks == [] then []
    else
      var before, last := chunks[..|chunks| - 1], chunks[|chunks| - 1];
      if NEWLINE in last then Flatten(before) + Head(last) else FlushedPrefix(before)
  }

  /** What was flushed is the stream up to the first newline of the latest chunk that had one. */
  lemma {:induction false} FlushedUpToNewline(chunks: seq<seq<byte>>)
    requires NulFree(chunks)
    ensures Flatten(ReceiveAll(chunks).flushes) == FlushedPrefix(chunks)
    ensures ReceiveAll(chunks).held == HeldSuffix(chunks)
    ensures forall l :: l in ReceiveAll(chunks).flushes ==> l != [] && l[|l| - 1] == NEWLINE && NUL !in l
    ensures NUL !in HeldSuffix(chunks)
  {
    if chunks != [] {
      var before, chunk := chunks[..|chunks| - 1], chunks[|chunks| - 1];
      var f := ReceiveAll(before);
      assert chunk in chunks && NUL !in chunk;
      FlushedUpToNewline(before);
      ChunkInTwo(chunk);
      CStrOfNulFree(Head(chunk));
      CStrOfNulFree(Leftover(chunk));
      if NEWLINE in chunk {
        var line := f.held + Head(chunk);
        FlattenConcat(f.flushes, [line]);
        FlattenOne(line);
        KeptIsNoLonger(before);
        Assoc(Flatten(f.flushes), f.held, Head(chunk));
        assert line[|line| - 1] == NEWLINE;
      }
    }
  }

  // ---- chunks with at most one newline ----

  /** The number of newlines among the first k bytes. */
  function NewlinesIn(s: seq<byte>, k: nat): nat
    requires k <= |s|
  {
    if k == 0 then 0 else NewlinesIn(s, k - 1) + if s[k - 1] == NEWLINE then 1 else 0
  }

  function Newlines(s: seq<byte>): nat {
    NewlinesIn(s, |s|)
  }

  lemma {:induction false} NewlinesInConcat(a: seq<byte>, b: seq<byte>, k: nat)
    requires k <= |a| + |b|
    ensures NewlinesIn(a + b, k) == if k <= |a| then NewlinesIn(a, k) else Newlines(a) + NewlinesIn(b, k - |a|)
  {
    if k > 0 { NewlinesInConcat(a, b, k - 1); }
  }

  lemma NewlinesConcat(a: seq<byte>, b: seq<byte>)
    ensures Newlines(a + b) == Newlines(a) + Newlines(b)
  {
    NewlinesInConcat(a, b, |a| + |b|);
    NewlinesInConcat(a, b, |a|);
  }

  lemma {:induction false} NoNewlinesIn(s: seq<byte>, k: nat)
    requires k <= |s|
    ensures NewlinesIn(s, k) == 0 <==> forall j | 0 <= j < k :: s[j] != NEWLINE
  {
    if k > 0 { NoNewlinesIn(s, k - 1); }
  }

  lemma NoNewlines(s: seq<byte>)
    ensures Newlines(s) == 0 <==> NEWLINE !in s
  {
    NoNewlinesIn(s, |s|);
  }

  lemma OneNewline(l: seq<byte>)
    requires IsLine(l)
    ensures Newlines(l) == 1
  {
    NoNewlinesIn(l, |l| - 1);
  }

  lemma FirstLineCounts(s: seq<byte>, k: nat)
    requires k == IndexOf(s, NEWLINE) < |s|
    ensures Newlines(s) == 1 + Newlines(s[k + 1..])
  {
    var line, rest := s[..k + 1], s[k + 1..];
    IndexOfIs(line, NEWLINE, k);
    OneNewline(line);
    NewlinesConcat(line, rest);
    assert s == line + rest;
  }

  lemma {:induction false} CountLines(s: seq<byte>)
    ensures |Lines(s)| == Newlines(s)
    decreases |s|
  {
    var k := IndexOf(s, NEWLINE);
    if k < |s| {
      FirstLineCounts(s, k);
      CountLines(s[k + 1..]);
    } else {
      NoNewlines(s);
    }
  }

  predicate AtMostOneEach(chunks: seq<seq<byte>>) {
    forall c :: c in chunks ==> Newlines(c) <= 1
  }

  lemma {:induction false} FlushesAreCounted(chunks: seq<seq<byte>>)
    ensures |ReceiveAll(chunks).flushes| <= Newlines(Flatten(chunks))
    ensures |ReceiveAll(chunks).flushes| == Newlines(Flatten(chunks)) <==> AtMostOneEach(chunks)
  {
    if chunks != [] {
      var before, chunk := chunks[..|chunks| - 1], chunks[|chunks| - 1];
      FlushesAreCounted(before);
      FlattenSnoc(chunks);
      NewlinesConcat(Flatten(before), chunk);
      NoNewlines(chunk);
      assert forall c :: c in chunks <==> c in before || c == chunk;
    }
  }

  lemma {:induction false} SingleNewlineFlushes(chunks: seq<seq<byte>>)
    requires NulFree(chunks) && AtMostOneEach(chunks)
    ensures forall l :: l in ReceiveAll(chunks).flushes ==> IsLine(l)
    ensures NEWLINE !in ReceiveAll(chunks).held
  {
    if chunks != [] {
      var before, chunk := chunks[..|chunks| - 1], chunks[|chunks| - 1];
      assert chunk in chunks && NUL !in chunk && Newlines(chunk) <= 1;
      SingleNewlineFlushes(before);
      ChunkInTwo(chunk);
      CStrOfNulFree(Head(chunk));
      CStrOfNulFree(Leftover(chunk));
      if NEWLINE in chunk {
        var line := ReceiveAll(before).held + Head(chunk);
        IndexOfIs(line, NEWLINE, |line| - 1);
        IndexOfIs(Head(chunk), NEWLINE, |Head(chunk)| - 1);
        OneNewline(Head(chunk));
        NewlinesConcat(Head(chunk), Leftover(chunk));
        NoNewlines(Leftover(chunk));
      }
    }
  }

  /** The flushes are the lines of the stream, exactly if no chunk brought more than one newline. */
  lemma FlushesAreTheLinesIff(chunks: seq<seq<byte>>)
    requires NulFree(chunks)
    ensures ReceiveAll(chunks).flushes == Lines(Flatten(chunks)) <==> AtMostOneEach(chunks)
  {
    FlushesAreCounted(chunks);
    CountLines(Flatten(chunks));
    if AtMostOneEach(chunks) {
      SingleNewlineFlushes(chunks);
      KeptIsNoLonger(chunks);
      SplitIsUnique(ReceiveAll(chunks).flushes, ReceiveAll(chunks).held);
    }
  }
}
