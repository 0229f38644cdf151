/** The connection's growing line buffer: a C string in a block that append_string reallocates. */
module LineBuffers {
  import opened Bytes

  const BUFFER_SIZE := 128

  /** The capacity after an append of n bytes to a string tracked as buflen bytes long. */
  function Grown(maxbuflen: nat, buflen: nat, n: nat): nat {
    if maxbuflen < buflen + n + 1 then maxbuflen + buflen + 2 * n else maxbuflen
  }

  class LineBuffer {
    var buf: array<byte>
    var maxbuflen: nat

    ghost predicate Valid()
      reads this, buf
    {
      maxbuflen == buf.Length && NUL in buf[..]
    }

    ghost function Str(): seq<byte>
      reads this, buf
    {
      CStr(buf[..])
    }

    constructor Init()
      ensures Valid() && fresh(buf) && Str() == [] && maxbuflen == BUFFER_SIZE
    {
      buf := new byte[BUFFER_SIZE](_ => NUL);
      maxbuflen := BUFFER_SIZE;
      new;
      assert buf[..][0] == NUL;
    }

    method Clear()
      requires Valid()
      modifies buf
      ensures Valid() && Str() == [] && forall j | 1 <= j < buf.Length :: buf[j] == old(buf[j])
    {
      assert buf.Length > 0;
      buf[0] := NUL;
      assert buf[..][0] == NUL;
    }

    method Strlen() returns (n: nat)
      requires Valid()
      ensures n == |Str()|
    {
      n := 0;
      while buf[n] != NUL
        invariant n <= |Str()|
        decreases |Str()| - n
      {
        n := n + 1;
      }
    }

    /** Appends the first n bytes of src, or those before its first NUL if that comes earlier. */
    method Strncat(src: seq<byte>, n: nat)
      requires Valid() && n <= |src|
      requires |Str()| + |CStr(src[..n])| + 1 <= buf.Length
      modifies buf
      ensures Valid() && Str() == old(Str()) + CStr(src[..n])
      ensures forall j | |Str()| < j < buf.Length :: buf[j] == old(buf[j])
    {
      var len := Strlen();
      ghost var s, t := Str(), CStr(src[..n]);
      var i := 0;
      while i < n && src[i] != NUL
        invariant i <= |t| && buf[..len + i] == s + t[..i]
        invariant forall j | len + i < j < buf.Length :: buf[j] == old(buf[j])
        decreases |t| - i
      {
        buf[len + i] := src[i];
        i := i + 1;
      }
      assert i == |t|;
      buf[len + i] := NUL;
      assert buf[..len + i] == s + t;
      assert forall j | 0 <= j < len + i :: buf[..][j] == (s + t)[j];
      IndexOfIs(buf[..], NUL, len + i);
    }

    method Realloc(size: nat)
      requires Valid() && buf.Length <= size
      modifies this
      ensures Valid() && fresh(buf) && buf.Length == size && Str() == old(Str())
    {
      ghost var s := Str();
      var from, bigger := buf, new byte[size](_ => NUL);
      var i := 0;
      while i < from.Length
        invariant i <= from.Length && bigger[..i] == from[..i]
      {
        bigger[i] := from[i];
        i := i + 1;
      }
      assert forall j | 0 <= j < from.Length :: bigger[j] == bigger[..i][j] == from[j];
      IndexOfIs(bigger[..], NUL, |s|);
      assert bigger[..][..|s|] == s;
      buf, maxbuflen := bigger, size;
    }

    method AppendString(buflen: nat, inBuf: seq<byte>, n: nat)
      requires Valid() && n <= |inBuf|
      requires |Str()| <= buflen
      modifies this, buf
      ensures Valid() && (fresh(buf) || buf == old(buf))
      ensures Str() == old(Str()) + CStr(inBuf[..n])
      ensures maxbuflen == Grown(old(maxbuflen), buflen, n)
      ensures |Str()| <= buflen + n < maxbuflen
      ensures buflen + n < old(maxbuflen) ==>
        buf == old(buf) && forall j | |Str()| < j < buf.Length :: buf[j] == old(buf[j])
    {
      if maxbuflen < buflen + n + 1 {
        Realloc(maxbuflen + (buflen + 2 * n));
      }
      assert |CStr(inBuf[..n])| <= n;
      Strncat(inBuf, n);
    }
  }

  // ---- growth over any number of appends ----

  datatype Growth = Growth(maxbuflen: nat, reallocs: nat)

  /** The capacity, and the reallocations made, after appends (tracked length, added bytes). */
  function Growths(calls: seq<(nat, nat)>): Growth {
    if calls == [] then Growth(BUFFER_SIZE, 0)
    else
      var g, (buflen, n) := Growths(calls[..|calls| - 1]), calls[|calls| - 1];
      var grown := Grown(g.maxbuflen, buflen, n);
      Growth(grown, g.reallocs + if grown == g.maxbuflen then 0 else 1)
  }

  /** The block is left as it is exactly if the string, the addition and a NUL fit. */
  lemma GrownIffNeeded(maxbuflen: nat, buflen: nat, n: nat)
    ensures Grown(maxbuflen, buflen, n) == maxbuflen <==> buflen + n < maxbuflen || buflen + n == 0
    ensures Grown(maxbuflen, buflen, n) in {maxbuflen, maxbuflen + buflen + 2 * n}
  {
  }

  function Pow2(n: nat): nat {
    if n == 0 then 1 else 2 * Pow2(n - 1)
  }

  lemma {:induction false} Pow2Adds(m: nat, n: nat)
    ensures Pow2(1) == 2 && Pow2(m + n) == Pow2(m) * Pow2(n)
  {
    if m > 0 { Pow2Adds(m - 1, n); }
  }

  /**
   * Geometric growth: each reallocation at least doubles the block, and the block stays linear in
   * the longest string and the largest append, so reallocations are logarithmic in the two.
   */
  lemma {:induction false} GrowthIsGeometric(calls: seq<(nat, nat)>, longest: nat, largest: nat)
    requires forall c :: c in calls ==> c.0 <= longest && c.1 <= largest
    ensures var g, bound := Growths(calls), 2 * longest + 3 * largest;
      Pow2(g.reallocs) * BUFFER_SIZE <= g.maxbuflen <= if bound < BUFFER_SIZE then BUFFER_SIZE else bound
  {
    if calls != [] {
      var (buflen, n) := calls[|calls| - 1];
      assert (buflen, n) in calls;
      GrowthIsGeometric(calls[..|calls| - 1], longest, largest);
    }
  }
}
