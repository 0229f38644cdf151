/** Byte strings, the split of a stream into newline-terminated lines, and the last-N window. */
module Bytes {
  // The code never computes with a byte's value: it compares bytes with ASCII constants. Any
  // alphabet that holds those will do, so results over Dafny's char cover every 8-bit string.
  type byte = char

  const NEWLINE: byte := '\n'
  const NUL: byte := '\0'

  /** The null pointer. */
  const NULL: nat := 0

  datatype Option<+T> = None | Some(value: T)

  /** The index of the first `c` in `s`, or |s| when there is none. */
  function IndexOf(s: seq<byte>, c: byte): (k: nat)
    ensures k <= |s| && forall j | 0 <= j < k :: s[j] != c
    ensures k < |s| <==> c in s
    ensures k < |s| ==> s[k] == c
  {
    IndexFrom(s, c, 0)
  }

  function IndexFrom(s: seq<byte>, c: byte, i: nat): (k: nat)
    requires i <= |s|
    ensures i <= k <= |s| && forall j | i <= j < k :: s[j] != c
    ensures k < |s| ==> s[k] == c
    decreases |s| - i
  {
    if i == |s| || s[i] == c then i else IndexFrom(s, c, i + 1)
  }

  lemma IndexOfIs(s: seq<byte>, c: byte, k: nat)
    requires k < |s| && s[k] == c && forall j | 0 <= j < k :: s[j] != c
    ensures IndexOf(s, c) == k
  {
  }

  /** What a C string function sees of a block: everything before the first NUL. */
  function CStr(s: seq<byte>): seq<byte> {
    s[..IndexOf(s, NUL)]
  }

  /** That is a prefix without NUL, as long as can be. */
  lemma CStrEndsAtNul(s: seq<byte>)
    ensures CStr(s) <= s && NUL !in CStr(s)
    ensures |CStr(s)| < |s| ==> s[|CStr(s)|] == NUL
  {
  }

  function Flatten(ss: seq<seq<byte>>): seq<byte> {
    if ss == [] then [] else ss[0] + Flatten(ss[1..])
  }

  lemma {:induction false} FlattenConcat(a: seq<seq<byte>>, b: seq<seq<byte>>)
    ensures Flatten(a + b) == Flatten(a) + Flatten(b)
  {
    if a == [] {
      assert a + b == b;
    } else {
      assert (a + b)[1..] == a[1..] + b;
      FlattenConcat(a[1..], b);
    }
  }

  lemma FlattenCons(x: seq<byte>, xs: seq<seq<byte>>)
    ensures Flatten([x] + xs) == x + Flatten(xs)
  {
    assert ([x] + xs)[1..] == xs;
  }

  lemma FlattenOne(x: seq<byte>)
    ensures Flatten([x]) == x
  {
    assert [x][1..] == [];
  }

  lemma Assoc<T>(a: seq<T>, b: seq<T>, c: seq<T>)
    ensures (a + b) + c == a + (b + c)
  {
  }

  /** The last n elements, or all of them when there are fewer. */
  function LastN<T>(s: seq<T>, n: nat): seq<T> {
    if |s| <= n then s else s[|s| - n..]
  }

  /** That is a suffix of n elements, or everything. */
  lemma LastNIsSuffix<T>(s: seq<T>, n: nat)
    ensures var r := LastN(s, n);
      |r| <= n && |r| <= |s| && s[|s| - |r|..] == r && (|r| == n || r == s)
  {
  }

  /** The elements of a in order, with others between them, are b. */
  predicate IsSubsequence<T(==)>(a: seq<T>, b: seq<T>)
    decreases |b|
  {
    a == []
    || (b != []
        && (IsSubsequence(a, b[..|b| - 1])
            || (a[|a| - 1] == b[|b| - 1] && IsSubsequence(a[..|a| - 1], b[..|b| - 1]))))
  }

  lemma SubsequenceOneMore<T>(a: seq<T>, b: seq<T>, x: T)
    requires IsSubsequence(a, b)
    ensures IsSubsequence(a, b + [x]) && IsSubsequence(a + [x], b + [x])
  {
    assert (a + [x])[..|a|] == a && (b + [x])[..|b|] == b;
  }

  lemma SubsequenceMaybe<T>(a: seq<T>, b: seq<T>, x: T, taken: bool)
    requires IsSubsequence(a, b)
    ensures IsSubsequence(a + if taken then [x] else [], b + [x])
  {
    SubsequenceOneMore(a, b, x);
    assert a + [] == a;
  }

  lemma {:induction false} SubsequenceOfLonger<T>(a: seq<T>, b: seq<T>, c: seq<T>)
    requires IsSubsequence(a, b) && b <= c
    ensures IsSubsequence(a, c)
    decreases |c|
  {
    if a != [] && |b| < |c| {
      SubsequenceOfLonger(a, b, c[..|c| - 1]);
    } else if a != [] {
      assert b == c;
    }
  }

  lemma {:induction false} SubsequenceMembers<T>(a: seq<T>, b: seq<T>)
    requires IsSubsequence(a, b)
    ensures forall x :: x in a ==> x in b
    decreases |b|
  {
    if a != [] {
      var a', b' := a[..|a| - 1], b[..|b| - 1];
      assert a == a' + [a[|a| - 1]] && b == b' + [b[|b| - 1]];
      if IsSubsequence(a, b') {
        SubsequenceMembers(a, b');
      } else {
        SubsequenceMembers(a', b');
      }
    }
  }

  /** Where the elements of a subsequence stand: at ever higher indices. */
  lemma {:induction false} SubsequenceIndices<T>(a: seq<T>, b: seq<T>) returns (at: seq<nat>)
    requires IsSubsequence(a, b)
    ensures |at| == |a| && forall i | 0 <= i < |a| :: at[i] < |b| && b[at[i]] == a[i]
    ensures forall i, j | 0 <= i < j < |a| :: at[i] < at[j]
    decreases |b|
  {
    if a == [] {
      at := [];
    } else if IsSubsequence(a, b[..|b| - 1]) {
      at := SubsequenceIndices(a, b[..|b| - 1]);
    } else {
      at := SubsequenceIndices(a[..|a| - 1], b[..|b| - 1]);
      at := at + [|b| - 1];
    }
  }

  /** A line: exactly one newline, and it is the last byte. */
  predicate IsLine(l: seq<byte>) {
    l != [] && IndexOf(l, NEWLINE) == |l| - 1
  }

  /** The complete lines of a stream, oldest first. */
  function Lines(s: seq<byte>): seq<seq<byte>>
    decreases |s|
  {
    var k := IndexOf(s, NEWLINE);
    if k == |s| then [] else [s[..k + 1]] + Lines(s[k + 1..])
  }

  /** What follows the last newline of a stream. */
  function Tail(s: seq<byte>): seq<byte>
    decreases |s|
  {
    var k := IndexOf(s, NEWLINE);
    if k == |s| then s else Tail(s[k + 1..])
  }

  lemma SplitUnfolds(s: seq<byte>, k: nat)
    requires k == IndexOf(s, NEWLINE) < |s|
    ensures Flatten(Lines(s)) == s[..k + 1] + Flatten(Lines(s[k + 1..]))
    ensures Tail(s) == Tail(s[k + 1..])
  {
    FlattenCons(s[..k + 1], Lines(s[k + 1..]));
  }

  lemma Glue<T>(s: seq<T>, k: nat, lines: seq<T>, tail: seq<T>)
    requires k <= |s| && lines + tail == s[k..]
    ensures (s[..k] + lines) + tail == s
  {
    Assoc(s[..k], lines, tail);
    assert s[..k] + s[k..] == s;
  }

  lemma {:induction false} SplitKeepsAll(s: seq<byte>)
    ensures Flatten(Lines(s)) + Tail(s) == s
    decreases |s|
  {
    var k := IndexOf(s, NEWLINE);
    if k < |s| {
      SplitUnfolds(s, k);
      SplitKeepsAll(s[k + 1..]);
      Glue(s, k + 1, Flatten(Lines(s[k + 1..])), Tail(s[k + 1..]));
    }
  }

  lemma {:induction false} TailIsUnfinished(s: seq<byte>)
    ensures NEWLINE !in Tail(s)
    decreases |s|
  {
    var k := IndexOf(s, NEWLINE);
    if k < |s| { TailIsUnfinished(s[k + 1..]); }
  }

  lemma SplitLosesNothing(s: seq<byte>)
    ensures Flatten(Lines(s)) + Tail(s) == s
    ensures NEWLINE !in Tail(s)
  {
    SplitKeepsAll(s);
    TailIsUnfinished(s);
  }

  lemma {:induction false} LinesAreLines(s: seq<byte>)
    ensures forall l :: l in Lines(s) ==> IsLine(l)
    decreases |s|
  {
    var k := IndexOf(s, NEWLINE);
    if k < |s| {
      LinesAreLines(s[k + 1..]);
      IndexOfIs(s[..k + 1], NEWLINE, k);
    }
  }

  /** Any split into lines and a newline-free rest is the split: Lines and Tail are the only one. */
  lemma {:induction false} SplitIsUnique(ls: seq<seq<byte>>, t: seq<byte>)
    requires forall l :: l in ls ==> IsLine(l)
    requires NEWLINE !in t
    ensures Lines(Flatten(ls) + t) == ls && Tail(Flatten(ls) + t) == t
  {
    if ls == [] {
      assert Flatten(ls) + t == t;
    } else {
      var s, k := Flatten(ls) + t, |ls[0]| - 1;
      var rest := Flatten(ls[1..]) + t;
      assert s == ls[0] + rest;
      assert IsLine(ls[0]);
      IndexOfIs(s, NEWLINE, k);
      assert s[..k + 1] == ls[0] && s[k + 1..] == rest;
      SplitIsUnique(ls[1..], t);
      assert ls == [ls[0]] + ls[1..];
    }
  }

  /** Splitting can be done piecewise: only the unfinished line has to be carried over. */
  lemma SplitPiecewise(a: seq<byte>, b: seq<byte>)
    ensures Lines(a + b) == Lines(a) + Lines(Tail(a) + b)
    ensures Tail(a + b) == Tail(Tail(a) + b)
  {
    var r := Tail(a) + b;
    SplitLosesNothing(a);
    SplitLosesNothing(r);
    LinesAreLines(a);
    LinesAreLines(r);
    var ls := Lines(a) + Lines(r);
    FlattenConcat(Lines(a), Lines(r));
    Assoc(Flatten(Lines(a)), Flatten(Lines(r)), Tail(r));
    Assoc(Flatten(Lines(a)), Tail(a), b);
    SplitIsUnique(ls, Tail(r));
  }
}
