/**
 * The kernel allocator as the driver uses it. A pointer names one allocation and is never reused,
 * so that `freed` can count how often each allocation was given back.
 */
module KernelHeaps {
  import opened Bytes

  class KernelHeap {
    var blocks: map<nat, seq<byte>>  // the live allocations
    var next: nat
    ghost var freed: multiset<nat>

    /** Every allocation ever made is live, or has been freed exactly once; nothing else was freed. */
    ghost predicate Valid()
      reads this
    {
      && 1 <= next
      && (forall p :: p in blocks ==> 1 <= p < next)
      && (forall p: nat :: freed[p] == if 1 <= p < next && p !in blocks then 1 else 0)
    }

    constructor Init()
      ensures Valid() && blocks == map[] && next == 1
    {
      blocks, next, freed := map[], 1, multiset{};
    }

    method Kmalloc(n: nat) returns (p: nat)
      requires Valid()
      modifies this
      ensures Valid() && p == old(next) && next == p + 1
      ensures p in blocks && |blocks[p]| == n && blocks == old(blocks)[p := blocks[p]]
    {
      p := next;
      blocks := blocks[p := seq(n, _ => NUL)];
      next := next + 1;
    }

    method Kfree(p: nat)
      requires Valid()
      requires p == NULL || p in blocks
      modifies this
      ensures Valid() && next == old(next)
      ensures blocks == old(blocks) - {p}
    {
      if p != NULL {
        blocks := blocks - {p};
        freed := freed + multiset{p};
      }
    }

    method Krealloc(p: nat, n: nat) returns (q: nat)
      requires Valid()
      requires p == NULL || (p in blocks && |blocks[p]| <= n)
      modifies this
      ensures Valid() && q == old(next) && next == q + 1
      ensures q in blocks && |blocks[q]| == n && blocks == (old(blocks) - {p})[q := blocks[q]]
      ensures p != NULL ==> blocks[q][..|old(blocks)[p]|] == old(blocks)[p]
    {
      var kept := if p == NULL then [] else blocks[p];
      q := Kmalloc(n);
      blocks := blocks[q := kept + seq(n - |kept|, _ => NUL)];
      Kfree(p);
    }

    method CopyFromUser(p: nat, buf: seq<byte>)
      requires Valid() && p in blocks && |blocks[p]| == |buf|
      modifies this`blocks
      ensures Valid() && blocks == old(blocks)[p := buf]
    {
      blocks := blocks[p := buf];
    }

    method Store(p: nat, i: nat, b: byte)
      requires Valid() && p in blocks && i < |blocks[p]|
      modifies this`blocks
      ensures Valid() && blocks == old(blocks)[p := old(blocks)[p][i := b]]
    {
      blocks := blocks[p := blocks[p][i := b]];
    }
  }
}
