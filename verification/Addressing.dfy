/**
 * The circular buffer as a value: the stored items oldest first, and the slot of the oldest. The
 * two address maps (flat position to item, item to flat position) are defined on the item sizes.
 */
module Addressing {
  import opened Bytes
  import opened MachineInts

  const EINVAL := 22

  /** An index below 2n brought into an array of n slots. */
  function Wrap(i: nat, n: nat): nat {
    if i < n then i else i - n
  }

  /** Wrap is what the remainder operator computes on those indices. */
  method Modulo(i: nat, n: nat) returns (r: nat)
    requires i < 2 * n
    ensures r == Wrap(i, n)
  {
    r := i % n;
    if i >= n { ModIs(i, n, 1, i - n); } else { ModIs(i, n, 0, i); }
  }

  // ---- the queue ----

  datatype Ring<T> = Ring(cap: nat, items: seq<T>, start: nat) {
    predicate WellFormed() {
      && 1 <= cap && |items| <= cap && start < cap
      && (|items| < cap ==> start == 0)
    }

    function Push(x: T): Ring<T>
      requires WellFormed()
    {
      if |items| < cap then Ring(cap, items + [x], start)
      else Ring(cap, items[1..] + [x], Wrap(start + 1, cap))
    }

    function PushAll(xs: seq<T>): Ring<T>
      requires WellFormed()
      decreases xs
    {
      if xs == [] then this
      else
        assert Push(xs[0]).WellFormed();
        Push(xs[0]).PushAll(xs[1..])
    }
  }

  lemma ModIs(a: int, n: nat, q: int, r: nat)
    requires r < n && a == n * q + r
    ensures a % n == r
  {
    var d := a / n - q;
    assert n * (a / n) == n * q + n * d;
    if d > 0 {
      MulGrows(n, d);
    } else if d < 0 {
      MulGrows(n, -d);
    }
  }

  lemma MulGrows(n: nat, d: nat)
    requires d > 0
    ensures n * d >= n
  {
  }

  lemma ModIncrement(a: nat, n: nat)
    requires n > 0
    ensures Wrap(a % n + 1, n) == (a + 1) % n
  {
    var q, r := a / n, a % n;
    assert a == n * q + r;
    if r + 1 < n {
      ModIs(a + 1, n, q, r + 1);
    } else {
      assert n * (q + 1) == n * q + n;
      ModIs(a + 1, n, q + 1, 0);
    }
  }

  lemma {:induction false} PushAllConcat<T>(r: Ring<T>, a: seq<T>, b: seq<T>)
    requires r.WellFormed()
    ensures r.PushAll(a).WellFormed()
    ensures r.PushAll(a + b) == r.PushAll(a).PushAll(b)
    decreases |a|
  {
    if a == [] {
      assert a + b == b;
    } else {
      assert (a + b)[1..] == a[1..] + b;
      PushAllConcat(r.Push(a[0]), a[1..], b);
    }
  }

  /** After any sequence of adds the ring holds the last `cap` of them, and `start` is known. */
  lemma {:induction false} LastItems<T>(cap: nat, xs: seq<T>)
    requires 1 <= cap
    ensures Ring(cap, [], 0).PushAll(xs)
         == Ring(cap, LastN(xs, cap), if |xs| <= cap then 0 else (|xs| - cap) % cap)
  {
    var r := Ring(cap, [], 0);
    if xs != [] {
      var n := |xs| - 1;
      LastItems(cap, xs[..n]);
      PushAllConcat(r, xs[..n], [xs[n]]);
      assert xs == xs[..n] + [xs[n]];
      var p := r.PushAll(xs[..n]);
      assert p.PushAll([xs[n]]) == p.Push(xs[n]) by { assert [xs[n]][1..] == []; }
      assert p.Push(xs[n]).items == LastN(xs, cap);
      if n >= cap { NextStart(cap, n); }
    }
  }

  lemma NextStart(cap: nat, n: nat)
    requires 1 <= cap
    requires n >= cap
    ensures Wrap((if n == cap then 0 else (n - cap) % cap) + 1, cap) == (n + 1 - cap) % cap
  {
    ModIs(0, cap, 0, 0);
    ModIncrement(n - cap, cap);
  }

  // ---- positions ----

  /** Total size of the first k items. */
  function PrefixSize(sizes: seq<nat>, k: nat): nat
    requires k <= |sizes|
  {
    if k == 0 then 0 else PrefixSize(sizes, k - 1) + sizes[k - 1]
  }

  function TotalSize(sizes: seq<nat>): nat {
    PrefixSize(sizes, |sizes|)
  }

  lemma TotalOfOne(x: nat)
    ensures TotalSize([x]) == x
  {
    assert PrefixSize([x], 0) == 0;
  }

  lemma {:induction false} PrefixMonotone(sizes: seq<nat>, j: nat, k: nat)
    requires j <= k <= |sizes|
    ensures PrefixSize(sizes, j) <= PrefixSize(sizes, k)
  {
    if j < k { PrefixMonotone(sizes, j, k - 1); }
  }

  lemma {:induction false} PrefixOfConcat(a: seq<nat>, b: seq<nat>, k: nat)
    requires k <= |a| + |b|
    ensures PrefixSize(a + b, k)
         == if k <= |a| then PrefixSize(a, k) else TotalSize(a) + PrefixSize(b, k - |a|)
  {
    if k > 0 { PrefixOfConcat(a, b, k - 1); }
  }

  /** The item and offset of a flat position, scanning from item k. */
  function Locate(sizes: seq<nat>, k: nat, pos: nat): (r: Option<(nat, nat)>)
    requires k <= |sizes|
    ensures r.Some? <==> PrefixSize(sizes, k) + pos < TotalSize(sizes)
    ensures r.Some? ==>
      && r.value.0 < |sizes| && r.value.1 < sizes[r.value.0]
      && PrefixSize(sizes, r.value.0) + r.value.1 == PrefixSize(sizes, k) + pos
    decreases |sizes| - k
  {
    if k == |sizes| then None
    else if pos < sizes[k] then (PrefixMonotone(sizes, k + 1, |sizes|); Some((k, pos)))
    else Locate(sizes, k + 1, pos - sizes[k])
  }

  /** A position at or behind the end of item k falls in a later one. */
  lemma LocateBehind(sizes: seq<nat>, k: nat, pos: nat)
    requires k < |sizes| && PrefixSize(sizes, k + 1) <= pos
    ensures Locate(sizes, 0, pos).Some? ==> Locate(sizes, 0, pos).value.0 > k
  {
    var at := Locate(sizes, 0, pos);
    if at.Some? && at.value.0 <= k { PrefixMonotone(sizes, at.value.0 + 1, k + 1); }
  }

  /** No two (item, offset) pairs share a position, so Locate is the inverse of the prefix sums. */
  lemma LocateInverts(sizes: seq<nat>, n: nat, o: nat)
    requires n < |sizes| && o < sizes[n]
    ensures Locate(sizes, 0, PrefixSize(sizes, n) + o) == Some((n, o))
  {
    PrefixMonotone(sizes, n + 1, |sizes|);
    var (k, p) := Locate(sizes, 0, PrefixSize(sizes, n) + o).value;
    if k < n { PrefixMonotone(sizes, k + 1, n); }
    if n < k { PrefixMonotone(sizes, n + 1, k); }
  }

  /**
   * Where the seek to byte o of item n lands. The loop stops at the item's slot only when that slot
   * is not below `start`; otherwise it runs over the whole buffer.
   */
  function JumpPosition(cap: nat, sizes: seq<nat>, start: nat, n: nat, o: nat): nat
    requires n < |sizes|
  {
    (if start + n < cap then PrefixSize(sizes, n) else TotalSize(sizes)) + o
  }

  /** A seek followed by a lookup finds the requested byte exactly when the slot did not wrap. */
  lemma JumpThenLocate(cap: nat, sizes: seq<nat>, start: nat, n: nat, o: nat)
    requires n < |sizes| && o < sizes[n]
    ensures Locate(sizes, 0, JumpPosition(cap, sizes, start, n, o))
         == if start + n < cap then Some((n, o)) else None
  {
    if start + n < cap { LocateInverts(sizes, n, o); }
  }

  /** The converse: a position looked up and jumped back to is kept exactly when nothing wraps. */
  lemma LocateThenJump(cap: nat, sizes: seq<nat>, start: nat, p: nat)
    requires p < TotalSize(sizes)
    ensures var (n, o) := Locate(sizes, 0, p).value;
      JumpPosition(cap, sizes, start, n, o) == p <==> start + n < cap
  {
    var (n, o) := Locate(sizes, 0, p).value;
    PrefixMonotone(sizes, n + 1, |sizes|);
  }

  // ---- the seek with both sides wrapped ----

  /**
   * The scan of the seek as it would be with the running index wrapped before it is compared: the
   * size of the items from k on that lie before slot `ind`.
   */
  function WrappedScan(cap: nat, sizes: seq<nat>, start: nat, ind: nat, k: nat): nat
    requires k <= |sizes|
    decreases |sizes| - k
  {
    if k == |sizes| || Wrap(start + k, cap) == ind then 0
    else sizes[k] + WrappedScan(cap, sizes, start, ind, k + 1)
  }

  function WrappedJump(cap: nat, sizes: seq<nat>, start: nat, n: nat, o: nat): nat {
    WrappedScan(cap, sizes, start, Wrap(start + n, cap), 0) + o
  }

  lemma {:induction false} WrappedScanStops(cap: nat, sizes: seq<nat>, start: nat, n: nat, k: nat)
    requires |sizes| <= cap && start < cap && k <= n < |sizes|
    ensures PrefixSize(sizes, k) + WrappedScan(cap, sizes, start, Wrap(start + n, cap), k) == PrefixSize(sizes, n)
    decreases n - k
  {
    if k < n { WrappedScanStops(cap, sizes, start, n, k + 1); }
  }

  /** With that change the two address maps are inverse to each other, wherever the ring starts. */
  lemma WrappedJumpIsInverse(cap: nat, sizes: seq<nat>, start: nat)
    requires |sizes| <= cap && start < cap
    ensures forall n: nat, o: nat | n < |sizes| && o < sizes[n] ::
              Locate(sizes, 0, WrappedJump(cap, sizes, start, n, o)) == Some((n, o))
    ensures forall p: nat | p < TotalSize(sizes) ::
              var at := Locate(sizes, 0, p);
              at.Some? && WrappedJump(cap, sizes, start, at.value.0, at.value.1) == p
  {
    forall n: nat, o: nat | n < |sizes| && o < sizes[n]
      ensures Locate(sizes, 0, WrappedJump(cap, sizes, start, n, o)) == Some((n, o))
    {
      WrappedScanStops(cap, sizes, start, n, 0);
      LocateInverts(sizes, n, o);
    }
    forall p: nat | p < TotalSize(sizes)
      ensures var at := Locate(sizes, 0, p);
        at.Some? && WrappedJump(cap, sizes, start, at.value.0, at.value.1) == p
    {
      WrappedScanStops(cap, sizes, start, Locate(sizes, 0, p).value.0, 0);
    }
  }
}
