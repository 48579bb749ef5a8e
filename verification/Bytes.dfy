/** Bytes, byte strings and lists of byte chunks. */
module Bytes {
  type byte = x: int | 0 <= x < 256

  const U32_LIMIT: nat := 0x1_0000_0000
  const U64_MAX: nat := 0xFFFF_FFFF_FFFF_FFFF

  function Min(a: int, b: int): int {
    if a <= b then a else b
  }

  function Max(a: int, b: int): int {
    if a <= b then b else a
  }

  /** The bytes of a list of chunks, in order. */
  function Concat(chunks: seq<seq<byte>>): seq<byte> {
    if chunks == [] then [] else chunks[0] + Concat(chunks[1..])
  }

  lemma {:induction false} ConcatAppend(a: seq<seq<byte>>, b: seq<seq<byte>>)
    ensures Concat(a + b) == Concat(a) + Concat(b)
  {
    if a == [] {
      assert a + b == b;
    } else {
      assert (a + b)[1..] == a[1..] + b;
      ConcatAppend(a[1..], b);
    }
  }

  lemma ConcatSnoc(a: seq<seq<byte>>, c: seq<byte>)
    ensures Concat(a + [c]) == Concat(a) + c
  {
    ConcatAppend(a, [c]);
    assert Concat([c]) == c + Concat([]);
  }

  lemma PrefixTake(a: seq<byte>, m: nat, n: nat)
    requires n <= m <= |a|
    ensures a[..m][..n] == a[..n]
  {
  }

  lemma SliceOfSlice(a: seq<byte>, lo: nat, hi: nat, i: nat, j: nat)
    requires lo <= hi <= |a| && i <= j <= hi - lo
    ensures a[lo..hi][i..j] == a[lo + i..lo + j]
  {
    var s, t := a[lo..hi][i..j], a[lo + i..lo + j];
    forall k | 0 <= k < |s| ensures s[k] == t[k] {
      assert s[k] == a[lo..hi][i + k];
    }
  }

  lemma TakeMore(a: seq<byte>, n: nat, part: seq<byte>)
    requires n + |part| <= |a| && part == a[n..n + |part|]
    ensures a[..n] + part == a[..n + |part|]
  {
  }

  lemma JoinSlices(a: seq<byte>, lo: nat, mid: nat, hi: nat)
    requires lo <= mid <= hi <= |a|
    ensures a[lo..mid] + a[mid..hi] == a[lo..hi]
  {
  }

  lemma TakeTwice(a: seq<byte>, n: nat, k: nat)
    requires n + k <= |a|
    ensures a[..n] + a[n..][..k] == a[..n + k]
  {
  }

  lemma JoinAssociates(a: seq<byte>, b: seq<byte>, c: seq<byte>)
    ensures (a + b) + c == a + (b + c)
  {
  }

  predicate AllEmpty(chunks: seq<seq<byte>>) {
    forall i | 0 <= i < |chunks| :: chunks[i] == []
  }

  lemma {:induction false} EmptyConcat(chunks: seq<seq<byte>>)
    ensures Concat(chunks) == [] <==> AllEmpty(chunks)
  {
    if chunks != [] {
      EmptyConcat(chunks[1..]);
      if AllEmpty(chunks[1..]) && chunks[0] == [] {
        assert forall i | 0 < i < |chunks| :: chunks[i] == chunks[1..][i - 1];
      }
      if AllEmpty(chunks) {
        assert forall i | 0 <= i < |chunks| - 1 :: chunks[1..][i] == chunks[i + 1];
      }
    }
  }
}
