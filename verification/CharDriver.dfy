/** The driver's file operations on the device structure, with every allocation accounted for. */
module CharDriver {
  import opened Bytes
  import opened Addressing
  import opened CircularBuffers
  import opened DeviceModel
  import opened KernelHeaps
  import opened MachineInts

  const EFAULT := 14
  const ENOTTY := 25
  const ERESTARTSYS := 512

  const AESD_IOC_MAGIC := 0x16
  const AESDCHAR_IOC_MAXNR := 1
  /** Both directions, a record of eight bytes, the magic number, command 1. */
  const AESDCHAR_IOCSEEKTO := 0xC008_1601

  // ---- ownership ----

  /** Every block but the pending one belongs to an entry. */
  ghost predicate Covered(items: seq<Entry>, tmpbuf: nat, blocks: map<nat, seq<byte>>) {
    forall p | p in blocks && p != tmpbuf :: exists k :: 0 <= k < |items| && items[k].buffptr == p
  }

  /** The blocks are exactly those of the ring entries and the pending buffer, all distinct. */
  ghost predicate Owns(items: seq<Entry>, tmpbuf: nat, blocks: map<nat, seq<byte>>) {
    && (forall k {:trigger items[k].buffptr} | 0 <= k < |items| ::
          && items[k].buffptr != NULL && items[k].buffptr != tmpbuf
          && items[k].buffptr in blocks && |blocks[items[k].buffptr]| == items[k].size)
    && (forall j, k {:trigger items[j].buffptr, items[k].buffptr} | 0 <= j < k < |items| ::
          items[j].buffptr != items[k].buffptr)
    && (tmpbuf != NULL ==> tmpbuf in blocks)
    && Covered(items, tmpbuf, blocks)
  }

  function Block(blocks: map<nat, seq<byte>>, p: nat): seq<byte> {
    if p in blocks then blocks[p] else []
  }

  /** The bytes of the ring entries. */
  function Texts(items: seq<Entry>, blocks: map<nat, seq<byte>>): seq<seq<byte>> {
    seq(|items|, k requires 0 <= k < |items| => Block(blocks, items[k].buffptr))
  }

  /** The pending buffer is replaced by a larger block. */
  lemma OwnsAfterRealloc(items: seq<Entry>, tmpbuf: nat, blocks: map<nat, seq<byte>>, q: nat, s: seq<byte>)
    requires Owns(items, tmpbuf, blocks) && q !in blocks && q != NULL
    ensures var after := (blocks - {tmpbuf})[q := s];
      Owns(items, q, after) && Texts(items, after) == Texts(items, blocks)
  {
    var after := (blocks - {tmpbuf})[q := s];
    forall p | p in after && p != q ensures exists k :: 0 <= k < |items| && items[k].buffptr == p {
      assert p in blocks && p != tmpbuf;
    }
  }

  /** The pointer a push evicts. */
  function Evicted(r: Ring<Entry>): nat
    requires r.WellFormed()
  {
    if |r.items| < r.cap then NULL else r.items[0].buffptr
  }

  lemma OwnsWithoutFirst(items: seq<Entry>, tmpbuf: nat, blocks: map<nat, seq<byte>>)
    requires items != [] && Owns(items, tmpbuf, blocks)
    ensures Owns(items[1..], tmpbuf, blocks - {items[0].buffptr})
  {
    var rest, first := items[1..], items[0].buffptr;
    forall p | p in blocks - {first} && p != tmpbuf ensures exists k :: 0 <= k < |rest| && rest[k].buffptr == p {
      var k :| 0 <= k < |items| && items[k].buffptr == p;
      assert rest[k - 1].buffptr == p;
    }
  }

  lemma OwnsWithPending(items: seq<Entry>, tmpbuf: nat, blocks: map<nat, seq<byte>>)
    requires Owns(items, tmpbuf, blocks) && tmpbuf != NULL
    ensures Owns(items + [Entry(tmpbuf, |blocks[tmpbuf]|)], NULL, blocks)
  {
    var all := items + [Entry(tmpbuf, |blocks[tmpbuf]|)];
    forall p | p in blocks && p != NULL ensures exists k :: 0 <= k < |all| && all[k].buffptr == p {
      if p == tmpbuf {
        assert all[|items|].buffptr == p;
      } else {
        var k :| 0 <= k < |items| && items[k].buffptr == p;
        assert all[k].buffptr == p;
      }
    }
  }

  /** The pending buffer moves into the ring, and the block of the entry it evicts is freed. */
  lemma OwnsAfterPush(r: Ring<Entry>, tmpbuf: nat, blocks: map<nat, seq<byte>>)
    requires r.WellFormed() && Owns(r.items, tmpbuf, blocks) && tmpbuf != NULL
    ensures Owns(r.Push(Entry(tmpbuf, |blocks[tmpbuf]|)).items, NULL, blocks - {Evicted(r)})
  {
    if |r.items| < r.cap {
      OwnsWithPending(r.items, tmpbuf, blocks);
      NullIsNoBlock(r.items, tmpbuf, blocks);
    } else {
      OwnsWithoutFirst(r.items, tmpbuf, blocks);
      OwnsWithPending(r.items[1..], tmpbuf, blocks - {Evicted(r)});
    }
  }

  lemma NullIsNoBlock(items: seq<Entry>, tmpbuf: nat, blocks: map<nat, seq<byte>>)
    requires Owns(items, tmpbuf, blocks) && tmpbuf != NULL
    ensures NULL !in blocks && blocks - {NULL} == blocks
  {
  }

  lemma TextsAfterPush(r: Ring<Entry>, tmpbuf: nat, blocks: map<nat, seq<byte>>)
    requires r.WellFormed() && Owns(r.items, tmpbuf, blocks) && tmpbuf != NULL
    ensures Texts(r.Push(Entry(tmpbuf, |blocks[tmpbuf]|)).items, blocks - {Evicted(r)})
         == Ring(r.cap, Texts(r.items, blocks), r.start).Push(blocks[tmpbuf]).items
  {
  }

  /** The device that a ring of entries and a pending buffer make up. */
  function DevOf(r: Ring<Entry>, tmpbuf: nat, blocks: map<nat, seq<byte>>): Dev {
    Dev(Ring(r.cap, Texts(r.items, blocks), r.start), Block(blocks, tmpbuf))
  }

  /** That they make up d, said entry by entry. */
  ghost predicate Shows(r: Ring<Entry>, tmpbuf: nat, blocks: map<nat, seq<byte>>, d: Dev) {
    && d.ring.cap == r.cap && d.ring.start == r.start && |d.ring.items| == |r.items|
    && (forall k {:trigger r.items[k].buffptr} | 0 <= k < |r.items| ::
          d.ring.items[k] == Block(blocks, r.items[k].buffptr))
    && d.pending == Block(blocks, tmpbuf)
  }

  /** The driver's fields and allocations hold d, and every allocation is accounted for. */
  ghost predicate Linked(r: Ring<Entry>, tmpbuf: nat, tmpbufSize: nat, blocks: map<nat, seq<byte>>, d: Dev) {
    && r.cap == CAPACITY && d.WellFormed() && tmpbufSize == |Block(blocks, tmpbuf)|
    && Owns(r.items, tmpbuf, blocks) && Shows(r, tmpbuf, blocks, d)
  }

  lemma ShowsIsDevOf(r: Ring<Entry>, tmpbuf: nat, blocks: map<nat, seq<byte>>, d: Dev)
    ensures Shows(r, tmpbuf, blocks, d) <==> d == DevOf(r, tmpbuf, blocks)
  {
    if Shows(r, tmpbuf, blocks, d) {
      assert forall k | 0 <= k < |r.items| :: d.ring.items[k] == Texts(r.items, blocks)[k];
      assert d.ring.items == Texts(r.items, blocks);
    }
  }

  lemma PushMovesPending(r: Ring<Entry>, tmpbuf: nat, blocks: map<nat, seq<byte>>)
    requires r.WellFormed() && Owns(r.items, tmpbuf, blocks) && tmpbuf != NULL
    ensures DevOf(r.Push(Entry(tmpbuf, |blocks[tmpbuf]|)), NULL, blocks - {Evicted(r)})
         == Dev(DevOf(r, tmpbuf, blocks).ring.Push(DevOf(r, tmpbuf, blocks).pending), [])
  {
    TextsAfterPush(r, tmpbuf, blocks);
    assert NULL !in blocks;
  }

  /** Ownership seen from the slots: what the module-exit loop relies on. */
  ghost predicate SlotsOwn(slots: seq<Entry>, tmpbuf: nat, blocks: map<nat, seq<byte>>) {
    && (forall k | 0 <= k < |slots| && slots[k].buffptr != NULL ::
          slots[k].buffptr in blocks && slots[k].buffptr != tmpbuf)
    && (forall j, k | 0 <= j < k < |slots| && slots[j].buffptr != NULL :: slots[j].buffptr != slots[k].buffptr)
    && Covered(slots, tmpbuf, blocks)
  }

  lemma OwnsBySlots(slots: seq<Entry>, inOffs: nat, outOffs: nat, full: bool, size: nat,
                    tmpbuf: nat, blocks: map<nat, seq<byte>>)
    requires Consistent(slots, inOffs, outOffs, full, size)
    requires Owns(ItemsOf(slots, inOffs, outOffs, full), tmpbuf, blocks)
    ensures SlotsOwn(slots, tmpbuf, blocks)
  {
    forall k | 0 <= k < |slots| && slots[k].buffptr != NULL
      ensures slots[k].buffptr in blocks && slots[k].buffptr != tmpbuf
    {
      ItemOfSlot(slots, inOffs, outOffs, full, k);
    }
    forall j, k | 0 <= j < k < |slots| && slots[j].buffptr != NULL ensures slots[j].buffptr != slots[k].buffptr {
      if slots[k].buffptr != NULL {
        ItemOfSlot(slots, inOffs, outOffs, full, j);
        ItemOfSlot(slots, inOffs, outOffs, full, k);
        assert RankOf(j, |slots|, outOffs) != RankOf(k, |slots|, outOffs);
      }
    }
    SlotsCovered(slots, inOffs, outOffs, full, tmpbuf, blocks);
  }

  lemma SlotsCovered(slots: seq<Entry>, inOffs: nat, outOffs: nat, full: bool,
                     tmpbuf: nat, blocks: map<nat, seq<byte>>)
    requires inOffs < |slots| && outOffs < |slots| && (!full ==> outOffs == 0)
    requires Covered(ItemsOf(slots, inOffs, outOffs, full), tmpbuf, blocks)
    ensures Covered(slots, tmpbuf, blocks)
  {
    var items := ItemsOf(slots, inOffs, outOffs, full);
    forall p | p in blocks && p != tmpbuf ensures exists k :: 0 <= k < |slots| && slots[k].buffptr == p {
      var j :| 0 <= j < |items| && items[j].buffptr == p;
      assert slots[Wrap(outOffs + j, |slots|)] == items[j];
    }
  }

  lemma ItemOfSlot(slots: seq<Entry>, inOffs: nat, outOffs: nat, full: bool, k: nat)
    requires k < |slots| && slots[k].buffptr != NULL && inOffs < |slots| && outOffs < |slots|
    requires full ==> inOffs == outOffs
    requires !full ==> outOffs == 0 && forall k | inOffs <= k < |slots| :: slots[k] == EMPTY_ENTRY
    ensures var j := RankOf(k, |slots|, outOffs);
      var items := ItemsOf(slots, inOffs, outOffs, full);
      j < |items| && items[j] == slots[k]
  {
  }

  lemma FreeSlot(slots: seq<Entry>, tmpbuf: nat, blocks: map<nat, seq<byte>>)
    requires slots != [] && SlotsOwn(slots, tmpbuf, blocks)
    ensures SlotsOwn(slots[1..], tmpbuf, blocks - {slots[0].buffptr})
  {
    forall p | p in blocks - {slots[0].buffptr} && p != tmpbuf
      ensures exists k :: 0 <= k < |slots[1..]| && slots[1..][k].buffptr == p
    {
      var k :| 0 <= k < |slots| && slots[k].buffptr == p;
      assert slots[1..][k - 1].buffptr == p;
    }
  }

  /** The age of slot k in a ring of n slots whose oldest is `start`. */
  function RankOf(k: nat, n: nat, start: nat): nat
    requires k < n && start < n
  {
    if start <= k then k - start else k + n - start
  }

  class OpenFile {
    var fPos: nat

    constructor Open()
      ensures fPos == 0
    {
      fPos := 0;
    }
  }

  /** `find_char` stops at the character, or at a NUL at or after `size`. One of them must come. */
  ghost predicate ScanStops(data: seq<byte>, ch: byte, size: nat) {
    exists s :: 0 <= s < |data| && (data[s] == ch || (size <= s && data[s] == NUL))
  }

  lemma SlackStops(buf: seq<byte>, slack: seq<byte>)
    requires NUL in slack
    ensures ScanStops(buf + slack, NEWLINE, |buf|)
  {
    var s :| 0 <= s < |slack| && slack[s] == NUL;
    assert (buf + slack)[|buf| + s] == NUL;
  }

  method FindChar(data: seq<byte>, ch: byte, size: nat) returns (found: bool, index: nat)
    requires size <= |data| && ScanStops(data, ch, size)
    ensures found <==> ch in data[..size]
    ensures found ==> index == IndexOf(data[..size], ch)
  {
    var pos := 0;
    ghost var stop :| 0 <= stop < |data| && (data[stop] == ch || (size <= stop && data[stop] == NUL));
    while pos < size || data[pos] != NUL
      invariant pos <= stop
      invariant forall j | 0 <= j < pos :: data[j] != ch
      decreases stop - pos
    {
      if data[pos] == ch { break; }
      pos := pos + 1;
    }
    if pos < size {
      IndexOfIs(data[..size], ch, pos);
      return true, pos;
    } else {
      return false, 0;
    }
  }

  function PushedIfComplete(d: Dev): Dev
    requires d.ring.WellFormed() && d.pending != []
  {
    if d.pending[|d.pending| - 1] == NEWLINE then Dev(d.ring.Push(d.pending), []) else d
  }

  /** The accepted bytes end in a newline exactly when the buffer had one. */
  lemma LastByteTells(d: Dev, buf: seq<byte>)
    requires d.ring.WellFormed() && buf != []
    ensures d.Write(buf) == PushedIfComplete(d.(pending := d.pending + buf[..Accepted(buf)]))
  {
  }

  lemma TakenWhole(d: Dev, buf: seq<byte>)
    requires d.ring.WellFormed()
    ensures NEWLINE !in buf ==> Accepted(buf) == |buf| && d.Write(buf) == Dev(d.ring, d.pending + buf)
    ensures NEWLINE in buf ==>
      && Accepted(buf) == IndexOf(buf, NEWLINE) + 1 && IsLine(buf[..Accepted(buf)])
      && d.Write(buf) == Dev(d.ring.Push(d.pending + buf[..IndexOf(buf, NEWLINE) + 1]), [])
  {
    if NEWLINE in buf {
      IndexOfIs(buf[..Accepted(buf)], NEWLINE, IndexOf(buf, NEWLINE));
    } else {
      assert buf[..|buf|] == buf;
    }
  }

  class AesdDevice {
    const ring: CircularBuffer
    const heap: KernelHeap
    var tmpbuf: nat
    var tmpbufSize: nat
    ghost var state: Dev  // the device as a value

    ghost function StateOver(blocks: map<nat, seq<byte>>): Dev
      reads `tmpbuf, `tmpbufSize, ring, ring.entry
    {
      DevOf(Ring(ring.entry.Length, ring.Items(), ring.outOffs), tmpbuf, blocks)
    }

    /** The device invariant, were `blocks` the live allocations. */
    ghost predicate ValidOver(blocks: map<nat, seq<byte>>)
      reads `tmpbuf, `tmpbufSize, ring, ring.entry
    {
      && ring.Valid() && ring.entry.Length == CAPACITY
      && Owns(ring.Items(), tmpbuf, blocks)
      && tmpbufSize == |Block(blocks, tmpbuf)|
      && StateOver(blocks).WellFormed()
    }

    ghost predicate Valid()
      reads this, ring, ring.entry, heap
    {
      heap.Valid() && ring.Valid() && Linked(ring.State(), tmpbuf, tmpbufSize, heap.blocks, state)
    }

    lemma ValidIsOver()
      ensures Valid() <==> heap.Valid() && ValidOver(heap.blocks) && state == StateOver(heap.blocks)
    {
      ShowsIsDevOf(ring.State(), tmpbuf, heap.blocks, state);
    }

    constructor Init()
      ensures Valid() && state == EMPTY_DEVICE && heap.next == 1
      ensures fresh(ring) && fresh(ring.entry) && fresh(heap)
    {
      ring := new CircularBuffer.Init(CAPACITY);
      heap := new KernelHeap.Init();
      tmpbuf, tmpbufSize, state := NULL, 0, EMPTY_DEVICE;
    }

    /**
     * One write call. `slack` is what memory holds behind the kernel's copy of the buffer, which the
     * newline search may read; the outcome does not depend on it.
     */
    method Write(f: OpenFile, buf: seq<byte>, slack: seq<byte>, interrupted: bool, fault: bool)
      returns (retval: int)
      requires Valid()
      requires interrupted || fault || (buf != [] && ScanStops(buf + slack, NEWLINE, |buf|))
      modifies this, ring, ring.entry, heap, f
      ensures Valid()
      ensures interrupted ==> retval == -ERESTARTSYS && state == old(state) && f.fPos == old(f.fPos)
      ensures !interrupted && fault ==> retval == -EFAULT && state == old(state) && f.fPos == 0
      ensures !interrupted && !fault ==>
        retval == Accepted(buf) && state == old(state).Write(buf) && f.fPos == 0
      ensures !interrupted && !fault && NEWLINE !in buf ==>
        retval == |buf| && state == old(Dev(state.ring, state.pending + buf))
      ensures !interrupted && !fault && NEWLINE in buf ==>
        && 0 < retval <= |buf| && IsLine(buf[..retval])
        && state == old(Dev(state.ring.Push(state.pending + buf[..IndexOf(buf, NEWLINE) + 1]), []))
      ensures heap.next == old(heap.next) + if interrupted then 0 else if fault then 1 else 2
    {
      if interrupted {
        return -ERESTARTSYS;
      }
      if fault {
        FailToCopy(|buf|);
        f.fPos := 0;
        return -EFAULT;
      }
      TakenWhole(state, buf);
      retval := WriteCopied(buf, slack);
      f.fPos := 0;
    }

    method FailToCopy(count: nat)
      requires Valid()
      modifies heap
      ensures Valid() && heap.next == old(heap.next) + 1
    {
      var data := heap.Kmalloc(count);
      assert heap.blocks - {data} == old(heap.blocks);
      heap.Kfree(data);
    }

    method WriteCopied(buf: seq<byte>, slack: seq<byte>) returns (retval: int)
      requires Valid()
      requires buf != [] && ScanStops(buf + slack, NEWLINE, |buf|)
      modifies this, ring, ring.entry, heap
      ensures Valid() && retval == Accepted(buf) && state == old(state).Write(buf)
      ensures heap.next == old(heap.next) + 2
    {
      var data := CopyIn(buf);
      var dataInd := LastAccepted(heap.blocks[data], slack);
      Consume(data, dataInd);
      Record();
      retval := dataInd + 1;
    }

    ghost method Record()
      requires heap.Valid() && ValidOver(heap.blocks)
      modifies this`state
      ensures Valid() && state == old(StateOver(heap.blocks))
    {
      state := StateOver(heap.blocks);
      ValidIsOver();
    }

    method CopyIn(buf: seq<byte>) returns (data: nat)
      requires Valid()
      modifies heap
      ensures heap.Valid() && heap.next == old(heap.next) + 1
      ensures data in heap.blocks && heap.blocks[data] == buf
      ensures data != NULL && data != tmpbuf
      ensures ValidOver(heap.blocks - {data}) && StateOver(heap.blocks - {data}) == state
    {
      ValidIsOver();
      data := heap.Kmalloc(|buf|);
      heap.CopyFromUser(data, buf);
      assert heap.blocks - {data} == old(heap.blocks);
    }

    /** The first newline of the buffer, or its last byte when there is none. */
    static method LastAccepted(data: seq<byte>, slack: seq<byte>) returns (dataInd: nat)
      requires data != [] && ScanStops(data + slack, NEWLINE, |data|)
      ensures dataInd + 1 == Accepted(data)
    {
      var found;
      found, dataInd := FindChar(data + slack, NEWLINE, |data|);
      assert (data + slack)[..|data|] == data;
      if !found {
        dataInd := |data| - 1;
      }
    }

    /** The copied bytes up to dataInd join the pending buffer, which is pushed if it ends a line. */
    method Consume(data: nat, dataInd: nat)
      requires data != NULL && data != tmpbuf && heap.Valid() && data in heap.blocks
      requires ValidOver(heap.blocks - {data})
      requires dataInd + 1 == Accepted(heap.blocks[data])
      modifies this`tmpbuf, this`tmpbufSize, ring, ring.entry, heap
      ensures heap.Valid() && heap.next == old(heap.next) + 1 && ValidOver(heap.blocks)
      ensures StateOver(heap.blocks) == old(StateOver(heap.blocks - {data}).Write(heap.blocks[data]))
    {
      ghost var d, buf := StateOver(heap.blocks - {data}), heap.blocks[data];
      WriteKeepsWellFormed(d, buf);
      GrowPending(data, dataInd);
      LastByteTells(d, buf);
      PushIfComplete();
    }

    /** A pending buffer that ends in a newline becomes a ring entry. */
    method PushIfComplete()
      requires ring.Valid() && ring.entry.Length == CAPACITY && heap.Valid()
      requires Owns(ring.Items(), tmpbuf, heap.blocks) && tmpbuf != NULL
      requires 0 < tmpbufSize == |Block(heap.blocks, tmpbuf)|
      modifies this`tmpbuf, this`tmpbufSize, ring, ring.entry, heap
      ensures ring.Valid() && heap.Valid() && heap.next == old(heap.next)
      ensures Owns(ring.Items(), tmpbuf, heap.blocks) && tmpbufSize == |Block(heap.blocks, tmpbuf)|
      ensures StateOver(heap.blocks) == old(PushedIfComplete(StateOver(heap.blocks)))
    {
      if heap.blocks[tmpbuf][tmpbufSize - 1] == NEWLINE {
        PushPending();
      }
    }

    /** Moves the accepted bytes from the kernel's copy to the pending buffer and frees the copy. */
    method GrowPending(data: nat, dataInd: nat)
      requires data != NULL && data != tmpbuf && heap.Valid() && data in heap.blocks
      requires dataInd < |heap.blocks[data]|
      requires Owns(ring.Items(), tmpbuf, heap.blocks - {data})
      requires tmpbufSize == |Block(heap.blocks, tmpbuf)|
      modifies this`tmpbuf, this`tmpbufSize, heap
      ensures heap.Valid() && heap.next == old(heap.next) + 1
      ensures tmpbuf != NULL && Owns(ring.Items(), tmpbuf, heap.blocks)
      ensures StateOver(heap.blocks)
           == old(StateOver(heap.blocks - {data}).(pending := StateOver(heap.blocks - {data}).pending
                                                              + heap.blocks[data][..dataInd + 1]))
      ensures tmpbufSize == |Block(heap.blocks, tmpbuf)|
    {
      ghost var before := heap.blocks - {data};
      var q := heap.Krealloc(tmpbuf, tmpbufSize + dataInd + 1);
      tmpbuf := q;
      CopyBytes(data, dataInd);
      heap.Kfree(data);
      OwnsAfterRealloc(ring.Items(), old(tmpbuf), before, q, heap.blocks[q]);
      assert heap.blocks == (before - {old(tmpbuf)})[q := heap.blocks[q]];
    }

    method CopyBytes(data: nat, dataInd: nat)
      requires heap.Valid() && data != tmpbuf && data in heap.blocks && tmpbuf in heap.blocks
      requires dataInd < |heap.blocks[data]| && |heap.blocks[tmpbuf]| == tmpbufSize + dataInd + 1
      modifies this`tmpbufSize, heap`blocks
      ensures heap.Valid() && tmpbufSize == old(tmpbufSize) + dataInd + 1
      ensures heap.blocks == old(heap.blocks[tmpbuf := heap.blocks[tmpbuf][..tmpbufSize]
                                                       + heap.blocks[data][..dataInd + 1]])
    {
      ghost var blocks, n := heap.blocks, tmpbufSize;
      var i := 0;
      while i <= dataInd
        invariant i <= dataInd + 1 && tmpbufSize == n + i
        invariant heap.Valid() && tmpbuf in heap.blocks && |heap.blocks[tmpbuf]| == n + dataInd + 1
        invariant heap.blocks == blocks[tmpbuf := heap.blocks[tmpbuf]]
        invariant heap.blocks[tmpbuf][..n + i] == blocks[tmpbuf][..n] + blocks[data][..i]
      {
        heap.Store(tmpbuf, tmpbufSize, heap.blocks[data][i]);
        tmpbufSize := tmpbufSize + 1;
        i := i + 1;
      }
      assert heap.blocks[tmpbuf] == heap.blocks[tmpbuf][..n + i];
    }

    /** The pending buffer becomes a ring entry; the evicted entry's buffer, if any, is freed. */
    method PushPending()
      requires ring.Valid() && ring.entry.Length == CAPACITY && heap.Valid()
      requires Owns(ring.Items(), tmpbuf, heap.blocks) && tmpbuf != NULL
      requires tmpbufSize == |Block(heap.blocks, tmpbuf)|
      modifies this`tmpbuf, this`tmpbufSize, ring, ring.entry, heap
      ensures ring.Valid() && heap.Valid() && heap.next == old(heap.next)
      ensures Owns(ring.Items(), tmpbuf, heap.blocks)
      ensures tmpbuf == NULL && tmpbufSize == 0
      ensures StateOver(heap.blocks)
           == Dev(old(StateOver(heap.blocks).ring.Push(StateOver(heap.blocks).pending)), [])
    {
      ghost var r, blocks := ring.State(), heap.blocks;
      OwnsAfterPush(r, tmpbuf, blocks);
      PushMovesPending(r, tmpbuf, blocks);
      MovePending();
    }

    /** The pending buffer moves into the ring, and what it evicts is freed. */
    method MovePending()
      requires ring.Valid() && heap.Valid() && tmpbuf != NULL
      requires Evicted(ring.State()) == NULL || Evicted(ring.State()) in heap.blocks
      modifies this`tmpbuf, this`tmpbufSize, ring, ring.entry, heap
      ensures ring.Valid() && heap.Valid() && heap.next == old(heap.next)
      ensures ring.State() == old(ring.State().Push(Entry(tmpbuf, tmpbufSize)))
      ensures heap.blocks == old(heap.blocks - {Evicted(ring.State())})
      ensures tmpbuf == NULL && tmpbufSize == 0
    {
      var entry := Entry(tmpbuf, tmpbufSize);
      tmpbuf := NULL;
      tmpbufSize := 0;
      ghost var evicted := Evicted(ring.State());
      var oldData := ring.AddEntry(entry);
      assert oldData == evicted;
      if oldData != NULL {
        heap.Kfree(oldData);
      }
      assert heap.blocks == old(heap.blocks) - {evicted};
    }

    lemma SizesAgree()
      requires Valid()
      ensures Sizes(ring.Items()) == state.LineSizes()
    {
    }

    /**
     * One read call. The code never consults `count`: when the rest of the entry is longer it writes
     * past the reader's buffer, and the call has no outcome here.
     */
    method Read(f: OpenFile, count: nat, interrupted: bool, fault: bool) returns (retval: int, data: seq<byte>)
      requires Valid()
      requires interrupted || |state.ReadChunk(f.fPos)| <= count
      modifies f
      ensures Valid()
      ensures interrupted ==> retval == -ERESTARTSYS && data == [] && f.fPos == old(f.fPos)
      ensures !interrupted ==>
        var chunk := state.ReadChunk(old(f.fPos));
        if chunk != [] && fault then retval == -EFAULT && data == [] && f.fPos == old(f.fPos)
        else retval == |chunk| && data == chunk && f.fPos == old(f.fPos) + |chunk|
    {
      retval, data := 0, [];
      if interrupted {
        return -ERESTARTSYS, [];
      }
      var found, rest := EntryRest(f.fPos);
      if found {
        retval := |rest|;
        if fault {
          return -EFAULT, [];
        }
        data := rest;
        f.fPos := f.fPos + retval;
      }
    }

    /** The entry at a position, from that position on. */
    method EntryRest(pos: nat) returns (found: bool, rest: seq<byte>)
      requires Valid()
      ensures rest == state.ReadChunk(pos) && (found <==> rest != [])
    {
      SizesAgree();
      var at := ring.FindEntryOffsetForFpos(pos);
      if at.NotFound? {
        return false, [];
      }
      var entry := ring.entry[at.ind];
      EntryText(pos, entry, at.offset);
      return true, heap.blocks[entry.buffptr][at.offset..];
    }

    /** The entry a position falls in holds the line it falls in. */
    lemma EntryText(pos: nat, e: Entry, o: nat)
      requires Valid() && Locate(state.LineSizes(), 0, pos).Some?
      requires ring.Items()[Locate(state.LineSizes(), 0, pos).value.0] == e
      requires o == Locate(state.LineSizes(), 0, pos).value.1
      ensures e.buffptr in heap.blocks && o < |heap.blocks[e.buffptr]|
      ensures heap.blocks[e.buffptr][o..] == state.ReadChunk(pos)
    {
      var k := Locate(state.LineSizes(), 0, pos).value.0;
      assert ring.Items()[k].buffptr == e.buffptr;
      assert heap.blocks[e.buffptr] == state.ring.items[k];
    }

    lemma JumpIsSeek(writeCmd: nat, offset: nat)
      requires Valid()
      ensures Jump(ring.State(), writeCmd % 256, offset) == state.Seek(writeCmd, offset)
    {
      SizesAgree();
      assert forall k | 0 <= k < |ring.Items()| ::
          ring.Items()[k].buffptr != NULL && ring.Items()[k].size == |state.ring.items[k]|;
    }

    method SeekPosition(writeCmd: uint32, offset: uint32) returns (pos: int)
      requires Valid()
      ensures pos == state.Seek(writeCmd, offset)
    {
      JumpIsSeek(writeCmd, offset);
      pos := ring.JmpEntryOffset(writeCmd % 256, offset);
    }

    /** The seek moves the position exactly if it is accepted. */
    method SeekTo(f: OpenFile, writeCmd: uint32, offset: uint32) returns (retval: int)
      requires Valid()
      modifies f
      ensures Valid()
      ensures var pos := state.Seek(writeCmd, offset);
        retval == (if pos < 0 then pos else 0) && f.fPos == if retval == 0 then pos else old(f.fPos)
    {
      var pos := SeekPosition(writeCmd, offset);
      if pos < 0 {
        return pos;
      } else {
        f.fPos := pos;
        return 0;
      }
    }

    /** The ioctl. Its command number and argument record come from the caller. */
    method UnlockedIoctl(f: OpenFile, cmd: uint32, writeCmd: uint32, writeCmdOffset: uint32,
                         interrupted: bool, fault: bool)
      returns (retval: int)
      requires Valid()
      modifies f
      ensures Valid()
      ensures cmd != AESDCHAR_IOCSEEKTO ==> retval == -ENOTTY
      ensures cmd == AESDCHAR_IOCSEEKTO ==>
        var pos := state.Seek(writeCmd, writeCmdOffset);
        retval == if fault then -EFAULT else if interrupted then -ERESTARTSYS else if pos < 0 then pos else 0
      ensures f.fPos == if retval == 0 then state.Seek(writeCmd, writeCmdOffset) else old(f.fPos)
    {
      if (cmd / 256) % 256 != AESD_IOC_MAGIC { return -ENOTTY; }
      if cmd % 256 > AESDCHAR_IOC_MAXNR { return -ENOTTY; }
      if cmd == AESDCHAR_IOCSEEKTO {
        if fault { return -EFAULT; }
        if interrupted { return -ERESTARTSYS; }
        retval := SeekTo(f, writeCmd, writeCmdOffset);
      } else {
        return -ENOTTY;
      }
    }

    /** Module exit: afterwards every allocation of the device's life has been freed exactly once. */
    method CleanupModule()
      requires Valid()
      modifies heap
      ensures heap.blocks == map[] && heap.next == old(heap.next)
      ensures forall p: nat :: heap.freed[p] == if 1 <= p < heap.next then 1 else 0
    {
      OwnsBySlots(ring.entry[..], ring.inOffs, ring.outOffs, ring.full, ring.size, tmpbuf, heap.blocks);
      FreeEntries();
      if tmpbuf != NULL {
        heap.Kfree(tmpbuf);
      }
      assert heap.blocks == map[];
    }

    /** The traversal of all slots; a slot never used holds a null pointer. */
    method FreeEntries()
      requires heap.Valid() && SlotsOwn(ring.entry[..], tmpbuf, heap.blocks)
      requires tmpbuf != NULL ==> tmpbuf in heap.blocks
      modifies heap
      ensures heap.Valid() && heap.next == old(heap.next)
      ensures heap.blocks.Keys == if tmpbuf == NULL then {} else {tmpbuf}
    {
      ghost var slots := ring.entry[..];
      var index := 0;
      while index < ring.entry.Length
        invariant index <= ring.entry.Length && heap.Valid() && heap.next == old(heap.next)
        invariant SlotsOwn(slots[index..], tmpbuf, heap.blocks)
        invariant tmpbuf != NULL ==> tmpbuf in heap.blocks
      {
        FreeSlot(slots[index..], tmpbuf, heap.blocks);
        heap.Kfree(ring.entry[index].buffptr);
        assert slots[index..][1..] == slots[index + 1..];
        index := index + 1;
      }
    }
  }

  // ---- whole runs ----

  datatype Op =
    | OpWrite(buf: seq<byte>, slack: seq<byte>, interrupted: bool, fault: bool)
    | OpRead(room: nat, interrupted: bool, fault: bool)  // a buffer with `room` bytes to spare
    | OpIoctl(cmd: uint32, writeCmd: uint32, writeCmdOffset: uint32, interrupted: bool, fault: bool)

  ghost predicate Allowed(op: Op) {
    (op.OpWrite? && !op.interrupted && !op.fault) ==>
      (op.buf != [] && ScanStops(op.buf + op.slack, NEWLINE, |op.buf|))
  }

  /** All calls are, but for a write of no bytes: the kernel's copy has a NUL somewhere behind it. */
  lemma AllowedIfNotEmpty(op: Op)
    requires op.OpWrite? && !op.interrupted && !op.fault ==> op.buf != [] && NUL in op.slack
    ensures Allowed(op)
  {
    if op.OpWrite? && !op.interrupted && !op.fault { SlackStops(op.buf, op.slack); }
  }

  /** Only a write that is neither interrupted nor faulted changes the device. */
  function Effect(d: Dev, op: Op): (d': Dev)
    requires d.ring.WellFormed()
    ensures d'.ring.WellFormed()
  {
    if op.OpWrite? && !op.interrupted && !op.fault then d.Write(op.buf) else d
  }

  /** The device after a run. */
  function RunState(d: Dev, ops: seq<Op>): (d': Dev)
    requires d.ring.WellFormed()
    ensures d'.ring.WellFormed()
  {
    if ops == [] then d else Effect(RunState(d, ops[..|ops| - 1]), ops[|ops| - 1])
  }

  /** The bytes the calls of a run accepted, in order. */
  function AcceptedBytes(ops: seq<Op>): seq<byte> {
    if ops == [] then []
    else
      var op := ops[|ops| - 1];
      AcceptedBytes(ops[..|ops| - 1])
      + if op.OpWrite? && !op.interrupted && !op.fault then op.buf[..Accepted(op.buf)] else []
  }

  /** After any run the device holds the last ten lines of the accepted bytes, and their tail. */
  lemma RunKeepsLastTenLines(ops: seq<Op>)
    ensures RunState(EMPTY_DEVICE, ops) == AfterStream(AcceptedBytes(ops))
    ensures RunState(EMPTY_DEVICE, ops).WellFormed()
  {
    RunAbsorbs(ops);
    AbsorbFromEmpty(AcceptedBytes(ops));
  }

  lemma {:induction false} RunAbsorbs(ops: seq<Op>)
    ensures RunState(EMPTY_DEVICE, ops) == Absorb(EMPTY_DEVICE, AcceptedBytes(ops))
    ensures RunState(EMPTY_DEVICE, ops).WellFormed()
  {
    if ops != [] {
      var before, op := ops[..|ops| - 1], ops[|ops| - 1];
      RunAbsorbs(before);
      var d, s := RunState(EMPTY_DEVICE, before), AcceptedBytes(before);
      if op.OpWrite? && !op.interrupted && !op.fault {
        WriteIsAbsorb(d, op.buf);
        AbsorbTwice(EMPTY_DEVICE, s, op.buf[..Accepted(op.buf)]);
      } else {
        assert s + [] == s;
      }
    }
  }

  /** The allocations of a call: a write copies its buffer in, and then enlarges the pending one. */
  function Allocated(op: Op): nat {
    if !op.OpWrite? || op.interrupted then 0 else if op.fault then 1 else 2
  }

  function Allocations(ops: seq<Op>): nat {
    if ops == [] then 0 else Allocations(ops[..|ops| - 1]) + Allocated(ops[|ops| - 1])
  }

  /** What a call returns, the bytes it delivers, and where it leaves the file position. */
  datatype Outcome = Outcome(retval: int, data: seq<byte>, fPos: nat)

  function OutcomeOf(d: Dev, fPos: nat, op: Op): Outcome {
    match op
    case OpWrite(buf, _, interrupted, fault) =>
      if interrupted then Outcome(-ERESTARTSYS, [], fPos)
      else Outcome(if fault then -EFAULT else Accepted(buf), [], 0)
    case OpRead(_, interrupted, fault) =>
      var chunk := d.ReadChunk(fPos);
      if interrupted then Outcome(-ERESTARTSYS, [], fPos)
      else if fault && chunk != [] then Outcome(-EFAULT, [], fPos)
      else Outcome(|chunk|, chunk, fPos + |chunk|)
    case OpIoctl(cmd, writeCmd, offset, interrupted, fault) =>
      var pos := d.Seek(writeCmd, offset);
      if cmd != AESDCHAR_IOCSEEKTO then Outcome(-ENOTTY, [], fPos)
      else if fault then Outcome(-EFAULT, [], fPos)
      else if interrupted then Outcome(-ERESTARTSYS, [], fPos)
      else if pos < 0 then Outcome(pos, [], fPos)
      else Outcome(0, [], pos)
  }

  /** The file position after a run through one handle, and all the bytes its reads have delivered. */
  function RunOutcome(ops: seq<Op>): (nat, seq<byte>) {
    if ops == [] then (0, [])
    else
      var before, (fPos, data) := ops[..|ops| - 1], RunOutcome(ops[..|ops| - 1]);
      var out := OutcomeOf(RunState(EMPTY_DEVICE, before), fPos, ops[|ops| - 1]);
      (out.fPos, data + out.data)
  }

  /** A read with a buffer that has `room` bytes to spare. */
  method ExecuteRead(dev: AesdDevice, f: OpenFile, room: nat, interrupted: bool, fault: bool)
    returns (retval: int, data: seq<byte>)
    requires dev.Valid()
    modifies f
    ensures dev.Valid()
    ensures Outcome(retval, data, f.fPos) == OutcomeOf(dev.state, old(f.fPos), OpRead(room, interrupted, fault))
  {
    var _, rest := dev.EntryRest(f.fPos);
    retval, data := dev.Read(f, |rest| + room, interrupted, fault);
  }

  method Execute(dev: AesdDevice, f: OpenFile, op: Op) returns (retval: int, data: seq<byte>)
    requires dev.Valid() && Allowed(op)
    modifies dev, dev.ring, dev.ring.entry, dev.heap, f
    ensures dev.Valid() && dev.state == Effect(old(dev.state), op)
    ensures Outcome(retval, data, f.fPos) == OutcomeOf(old(dev.state), old(f.fPos), op)
    ensures dev.heap.next == old(dev.heap.next) + Allocated(op)
  {
    data := [];
    match op
    case OpWrite(buf, slack, interrupted, fault) =>
      retval := dev.Write(f, buf, slack, interrupted, fault);
    case OpRead(room, interrupted, fault) =>
      retval, data := ExecuteRead(dev, f, room, interrupted, fault);
    case OpIoctl(cmd, writeCmd, writeCmdOffset, interrupted, fault) =>
      retval := dev.UnlockedIoctl(f, cmd, writeCmd, writeCmdOffset, interrupted, fault);
  }

  /** The device, the count of its allocations, the file position and the bytes read, after a run. */
  ghost predicate Ran(ops: seq<Op>, d: Dev, next: nat, fPos: nat, data: seq<byte>) {
    d == RunState(EMPTY_DEVICE, ops) && next == 1 + Allocations(ops) && (fPos, data) == RunOutcome(ops)
  }

  lemma RanOneMore(ops: seq<Op>, i: nat, d: Dev, next: nat, fPos: nat, data: seq<byte>)
    requires i < |ops| && Ran(ops[..i], d, next, fPos, data)
    ensures d.ring.WellFormed()
    ensures var out := OutcomeOf(d, fPos, ops[i]);
      Ran(ops[..i + 1], Effect(d, ops[i]), next + Allocated(ops[i]), out.fPos, data + out.data)
  {
    assert ops[..i + 1][..i] == ops[..i];
  }

  method ExecuteAll(dev: AesdDevice, f: OpenFile, ops: seq<Op>) returns (data: seq<byte>)
    requires dev.Valid() && dev.state == EMPTY_DEVICE && dev.heap.next == 1 && f.fPos == 0
    requires forall op :: op in ops ==> Allowed(op)
    modifies dev, dev.ring, dev.ring.entry, dev.heap, f
    ensures dev.Valid() && dev.state == RunState(EMPTY_DEVICE, ops)
    ensures dev.heap.next == 1 + Allocations(ops) && (f.fPos, data) == RunOutcome(ops)
  {
    var i := 0;
    data := [];
    while i < |ops|
      invariant i <= |ops|
      invariant dev.Valid()
      invariant Ran(ops[..i], dev.state, dev.heap.next, f.fPos, data)
    {
      RanOneMore(ops, i, dev.state, dev.heap.next, f.fPos, data);
      var _, more := Execute(dev, f, ops[i]);
      data := data + more;
      i := i + 1;
    }
    assert ops[..i] == ops;
  }

  /**
   * Any run of the driver, from module init to module exit: the calls make just the allocations that
   * `Allocations` counts, and in the end each of these has been freed once, and nothing else.
   */
  method Lifetime(ops: seq<Op>) returns (heap: KernelHeap, data: seq<byte>, ghost last: Dev)
    requires forall op :: op in ops ==> Allowed(op)
    ensures last == RunState(EMPTY_DEVICE, ops) && data == RunOutcome(ops).1
    ensures heap.next == 1 + Allocations(ops) && heap.blocks == map[]
    ensures forall p: nat :: heap.freed[p] == if 1 <= p <= Allocations(ops) then 1 else 0
  {
    var dev := new AesdDevice.Init();
    var f := new OpenFile.Open();
    data := ExecuteAll(dev, f, ops);
    last := dev.state;
    dev.CleanupModule();
    return dev.heap, data, last;
  }
}
