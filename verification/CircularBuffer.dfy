/** The driver's circular buffer: an array, two 8-bit offsets, a full flag and a running size. */
module CircularBuffers {
  import opened Addressing
  import opened Bytes
  import opened MachineInts

  datatype Entry = Entry(buffptr: nat, size: nat)

  const EMPTY_ENTRY := Entry(NULL, 0)

  function Sizes(items: seq<Entry>): seq<nat> {
    seq(|items|, k requires 0 <= k < |items| => items[k].size)
  }

  lemma TotalAfterPush(r: Ring<Entry>, e: Entry)
    requires r.WellFormed()
    ensures TotalSize(Sizes(r.Push(e).items)) == TotalSize(Sizes(r.items)) + e.size
          - if |r.items| < r.cap then 0 else r.items[0].size
  {
    var sizes := Sizes(r.items);
    if |r.items| < r.cap {
      assert Sizes(r.items + [e]) == sizes + [e.size];
      PrefixOfConcat(sizes, [e.size], |sizes| + 1);
      TotalOfOne(e.size);
    } else {
      assert Sizes(r.items[1..] + [e]) == sizes[1..] + [e.size];
      PrefixOfConcat(sizes[1..], [e.size], |sizes|);
      TotalOfOne(e.size);
      TotalOfOne(sizes[0]);
      assert sizes == [sizes[0]] + sizes[1..];
      PrefixOfConcat([sizes[0]], sizes[1..], |sizes|);
    }
  }

  /** The result of the seek request, error cases included. */
  function Jump(r: Ring<Entry>, n: nat, o: nat): int {
    if n >= |r.items| || r.items[n].buffptr == NULL || o >= r.items[n].size then -EINVAL
    else Signed64(JumpPosition(r.cap, Sizes(r.items), r.start, n, o))
  }

  /** The occupied slots, oldest first. */
  function ItemsOf(slots: seq<Entry>, inOffs: nat, outOffs: nat, full: bool): seq<Entry> {
    if full && outOffs < |slots| then slots[outOffs..] + slots[..outOffs]
    else if inOffs < |slots| then slots[..inOffs]
    else []
  }

  /** The invariant of the fields. */
  ghost predicate Consistent(slots: seq<Entry>, inOffs: nat, outOffs: nat, full: bool, size: nat) {
    && inOffs < |slots| && outOffs < |slots|
    && (full ==> inOffs == outOffs)
    && (!full ==> outOffs == 0 && forall k | inOffs <= k < |slots| :: slots[k] == EMPTY_ENTRY)
    && size == TotalSize(Sizes(ItemsOf(slots, inOffs, outOffs, full))) % SIZE_MODULUS
  }

  /** The running size after an add, in size_t arithmetic. */
  function SizeAfter(size: nat, added: nat, removed: nat): size_t {
    (size + (added - removed) % SIZE_MODULUS) % SIZE_MODULUS
  }

  lemma StoreIsPush(slots: seq<Entry>, inOffs: nat, outOffs: nat, full: bool, e: Entry)
    requires inOffs < |slots| && outOffs < |slots|
    requires if full then inOffs == outOffs else outOffs == 0
    ensures
      var n := |slots|;
      var in', out' := Wrap(inOffs + 1, n), if full then Wrap(outOffs + 1, n) else outOffs;
      && ItemsOf(slots[inOffs := e], in', out', in' == out')
         == Ring(n, ItemsOf(slots, inOffs, outOffs, full), outOffs).Push(e).items
  {
  }

  lemma OldestSlot(slots: seq<Entry>, inOffs: nat, outOffs: nat, full: bool, size: nat)
    requires Consistent(slots, inOffs, outOffs, full, size)
    ensures var items := ItemsOf(slots, inOffs, outOffs, full);
      if full then |items| == |slots| && items[0] == slots[inOffs] else |items| < |slots|
  {
  }

  /** Storing at inOffs and advancing the offsets is a push on the queue, and the size keeps up. */
  lemma StoreStaysConsistent(slots: seq<Entry>, inOffs: nat, outOffs: nat, full: bool, size: nat, e: Entry)
    requires Consistent(slots, inOffs, outOffs, full, size)
    ensures
      var n := |slots|;
      var in', out' := Wrap(inOffs + 1, n), if full then Wrap(outOffs + 1, n) else outOffs;
      && Consistent(slots[inOffs := e], in', out', in' == out', SizeAfter(size, e.size, slots[inOffs].size))
      && Ring(n, ItemsOf(slots[inOffs := e], in', out', in' == out'), out')
         == Ring(n, ItemsOf(slots, inOffs, outOffs, full), outOffs).Push(e)
  {
    var r := Ring(|slots|, ItemsOf(slots, inOffs, outOffs, full), outOffs);
    StoreIsPush(slots, inOffs, outOffs, full, e);
    TotalAfterPush(r, e);
    RunningSize(TotalSize(Sizes(r.items)), e.size - slots[inOffs].size, TotalSize(Sizes(r.Push(e).items)));
  }

  lemma RunningSize(t: int, d: int, total: int)
    requires total == t + d
    ensures (t % SIZE_MODULUS + d % SIZE_MODULUS) % SIZE_MODULUS == total % SIZE_MODULUS
  {
  }

  lemma JumpUnfolds(r: Ring<Entry>, n: nat, o: nat)
    requires n < |r.items| && r.items[n].buffptr != NULL && o < r.items[n].size
    ensures Jump(r, n, o) == Signed64(Signed64(
              if r.start + n < r.cap then PrefixSize(Sizes(r.items), n) else TotalSize(Sizes(r.items))) + o)
  {
    SignedSum(if r.start + n < r.cap then PrefixSize(Sizes(r.items), n) else TotalSize(Sizes(r.items)), o);
  }

  /** The loop boundary of a full buffer, in uint8 arithmetic. */
  function FullBoundary(inOffs: nat, capacity: nat): uint8 {
    (inOffs + capacity) % 256
  }

  /** The boundary never wraps exactly for capacities up to 128. */
  lemma BoundaryFitsIff(capacity: nat)
    ensures (forall inOffs: nat | inOffs < capacity :: FullBoundary(inOffs, capacity) == inOffs + capacity)
            <==> capacity <= 128
  {
    if capacity > 128 { assert FullBoundary(capacity - 1, capacity) < 256; }
  }

  datatype Found = NotFound | Found(ind: nat, offset: nat)

  class CircularBuffer {
    const entry: array<Entry>
    var inOffs: uint8
    var outOffs: uint8
    var full: bool
    var size: size_t

    ghost function Items(): seq<Entry>
      reads this, entry
    {
      ItemsOf(entry[..], inOffs, outOffs, full)
    }

    ghost function State(): Ring<Entry>
      reads this, entry
    {
      Ring(entry.Length, Items(), outOffs)
    }

    ghost predicate Valid()
      reads this, entry
    {
      && 1 <= entry.Length <= 128
      && Consistent(entry[..], inOffs, outOffs, full, size)
    }

    constructor Init(capacity: nat)
      requires 1 <= capacity <= 128
      ensures Valid() && fresh(entry)
      ensures State() == Ring(capacity, [], 0)
    {
      entry := new Entry[capacity](_ => EMPTY_ENTRY);
      inOffs, outOffs, full, size := 0, 0, false, 0;
    }

    /** Walking from outOffs with wrapped indices visits the items oldest first. */
    lemma Walk(k: nat)
      requires Valid() && k < |Items()|
      ensures Items()[k] == entry[Wrap(outOffs + k, entry.Length)]
    {
    }

    /** As long as the stored bytes fit a size_t, a position holds a byte exactly if it is below size. */
    lemma SizeBoundsPositions(pos: nat)
      requires Valid() && TotalSize(Sizes(Items())) < SIZE_MODULUS
      ensures Locate(Sizes(Items()), 0, pos).Some? <==> pos < size
    {
      assert PrefixSize(Sizes(Items()), 0) == 0;
    }

    method UpperBoundary() returns (boundary: uint8)
      requires Valid()
      ensures boundary == outOffs + |Items()|
    {
      boundary := inOffs;
      if full {
        boundary := FullBoundary(boundary, entry.Length);
      }
    }

    method FindEntryOffsetForFpos(fpos: nat) returns (r: Found)
      requires Valid()
      ensures match Locate(Sizes(Items()), 0, fpos)
        case None => r == NotFound
        case Some((k, o)) => r == Found(Wrap(outOffs + k, entry.Length), o) && entry[r.ind] == Items()[k]
    {
      var charOffset := fpos;
      var i := outOffs;
      var upper := UpperBoundary();
      ghost var sizes, k := Sizes(Items()), 0;
      while i < upper
        invariant k <= |sizes| && i == outOffs + k
        invariant Locate(sizes, 0, fpos) == Locate(sizes, k, charOffset)
      {
        Walk(k);
        var ind := Modulo(i, entry.Length);
        var blockLen := entry[ind].size;
        if charOffset < blockLen {
          return Found(ind, charOffset);
        } else {
          charOffset := charOffset - blockLen;
        }
        i, k := i + 1, k + 1;
      }
      return NotFound;
    }

    /** The scan of the seek: it stops at slot `ind`, which it compares with the unwrapped index. */
    method SizeBefore(ind: nat, ghost n: nat) returns (pos: int)
      requires Valid() && n < |Items()| && ind == Wrap(outOffs + n, entry.Length)
      ensures pos == Signed64(if outOffs + n < entry.Length then PrefixSize(Sizes(Items()), n)
                              else TotalSize(Sizes(Items())))
    {
      pos := 0;
      var upper := UpperBoundary();
      var i := outOffs;
      ghost var sizes, k := Sizes(Items()), 0;
      while i < upper && i != ind
        invariant k <= |sizes| && i == outOffs + k
        invariant outOffs <= ind ==> k <= n
        invariant pos == Signed64(PrefixSize(sizes, k))
      {
        var at := Modulo(i, entry.Length);
        Walk(k);
        SignedSum(PrefixSize(sizes, k), sizes[k]);
        pos := Signed64(pos + entry[at].size);
        i, k := i + 1, k + 1;
      }
    }

    /** The slot of the n-th oldest entry, a zeroed one when there are fewer. */
    method EntryAt(n: nat) returns (ind: nat)
      requires Valid() && n < entry.Length
      ensures ind == Wrap(outOffs + n, entry.Length)
      ensures entry[ind] == if n < |Items()| then Items()[n] else EMPTY_ENTRY
    {
      ind := Modulo(outOffs + n, entry.Length);
      if n < |Items()| { Walk(n); }
    }

    method JmpEntryOffset(entrynum: uint8, offset: nat) returns (r: int)
      requires Valid()
      ensures r == Jump(State(), entrynum, offset)
    {
      if entrynum >= entry.Length {
        return -EINVAL;
      }
      var ind := EntryAt(entrynum);
      if entry[ind].buffptr == NULL || entry[ind].size == 0 || offset >= entry[ind].size {
        return -EINVAL;
      }
      var pos := SizeBefore(ind, entrynum);
      JumpUnfolds(State(), entrynum, offset);
      return Signed64(pos + offset);
    }

    method AddEntry(e: Entry) returns (oldBuf: nat)
      requires Valid()
      modifies this, entry
      ensures Valid()
      ensures State() == old(State()).Push(e)
      ensures oldBuf == if old(|Items()|) == entry.Length then old(Items()[0].buffptr) else NULL
    {
      oldBuf := NULL;
      OldestSlot(entry[..], inOffs, outOffs, full, size);
      StoreStaysConsistent(entry[..], inOffs, outOffs, full, size, e);
      if full {
        oldBuf := entry[inOffs].buffptr;
        outOffs := Modulo(outOffs + 1, entry.Length);
      }
      size := SizeAfter(size, e.size, entry[inOffs].size);
      entry[inOffs] := e;
      assert entry[..] == old(entry[..])[inOffs := e];
      inOffs := Modulo(inOffs + 1, entry.Length);
      full := inOffs == outOffs;
    }
  }
}
