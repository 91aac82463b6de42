/** Go byte slices: a window [lo, hi) of a shared array. */
module Slices {
  import opened Machine

  datatype Slice = Slice(buf: array<u8>, lo: nat, hi: nat) {
    predicate Valid() {
      lo <= hi <= buf.Length <= MAX_INT
    }

    function Len(): nat
      requires Valid()
    {
      hi - lo
    }

    /** `dAtA[i]` */
    function At(i: int): u8
      requires Valid() && 0 <= i < Len()
      reads buf
    {
      buf[lo + i]
    }

    /** The bytes the slice shows now. */
    ghost function View(): (v: seq<u8>)
      requires Valid()
      reads buf
      ensures |v| == Len()
    {
      buf[lo..hi]
    }

    /** `dAtA[i:]` */
    function From(i: int): (s: Slice)
      requires Valid() && 0 <= i <= Len()
      reads buf
      ensures s.Valid() && s.buf == buf && s.View() == View()[i..]
    {
      SliceOfSlice(buf[..], lo, hi, i, hi - lo);
      Slice(buf, lo + i, hi)
    }

    /** `dAtA[:j]`; like Go, this may reach past the length, up to the capacity. */
    function To(j: int): (s: Slice)
      requires Valid() && 0 <= j <= buf.Length - lo
      reads buf
      ensures s.Valid() && s.buf == buf && s.Len() == j
      ensures j <= Len() ==> s.View() == View()[..j]
    {
      if j <= Len() then SliceOfSlice(buf[..], lo, hi, 0, j); Slice(buf, lo, lo + j) else Slice(buf, lo, lo + j)
    }

    /** `dAtA[i:j]` */
    function Sub(i: int, j: int): (s: Slice)
      requires Valid() && 0 <= i <= j <= Len()
      reads buf
      ensures s.Valid() && s.buf == buf && s.View() == View()[i..j]
    {
      SliceOfSlice(buf[..], lo, hi, i, j);
      Slice(buf, lo + i, lo + j)
    }

    /** Go's `string(dAtA)`: a copy of the bytes. */
    function Text(): (v: seq<u8>)
      requires Valid()
      reads buf
      ensures v == View()
    {
      buf[lo..hi]
    }
  }

  lemma SliceOfSlice(s: seq<u8>, lo: int, hi: int, i: int, j: int)
    requires 0 <= lo <= hi <= |s| && 0 <= i <= j <= hi - lo
    ensures s[lo..hi][i..j] == s[lo + i..lo + j]
  {
    var a, b := s[lo..hi][i..j], s[lo + i..lo + j];
    assert |a| == |b| == j - i;
    forall k | 0 <= k < j - i ensures a[k] == b[k] {
      assert a[k] == s[lo..hi][i + k] == s[lo + i + k];
    }
  }

  /** Two contents of one array that differ at most in [a, b). */
  ghost predicate SameOutside(now: seq<u8>, was: seq<u8>, a: int, b: int) {
    && |now| == |was| && 0 <= a <= b <= |now|
    && now[..a] == was[..a] && now[b..] == was[b..]
  }

  /** Of the array behind s, which held was, only the bytes s[i..j] may have changed. */
  ghost predicate OnlyChanged(s: Slice, was: seq<u8>, i: int, j: int)
    reads s.buf
  {
    SameOutside(s.buf[..], was, s.lo + i, s.lo + j)
  }

  /** Two writes next to each other, the second in front of the first. */
  lemma ChangedTwice(now: seq<u8>, mid: seq<u8>, was: seq<u8>, a: int, b: int, c: int)
    requires SameOutside(now, mid, a, b) && SameOutside(mid, was, b, c)
    ensures SameOutside(now, was, a, c)
  {
    assert mid[..a] == mid[..b][..a] && was[..a] == was[..b][..a];
    assert mid[c..] == mid[b..][c - b..] && now[c..] == now[b..][c - b..];
  }

  lemma NothingChanged(now: seq<u8>, a: int, b: int)
    requires 0 <= a <= b <= |now|
    ensures SameOutside(now, now, a, b)
  {
  }

  /** One more byte written inside the range. */
  lemma ChangedAt(now: seq<u8>, mid: seq<u8>, was: seq<u8>, a: int, p: int, c: int)
    requires SameOutside(mid, was, a, c) && a <= p < c && |now| == |mid| && now == mid[p := now[p]]
    ensures SameOutside(now, was, a, c)
  {
  }

  /** `dAtA[i] = b` */
  method Put(dAtA: Slice, i: int, b: u8)
    requires dAtA.Valid() && 0 <= i < dAtA.Len()
    modifies dAtA.buf
    ensures dAtA.buf[..] == old(dAtA.buf[..])[dAtA.lo + i := b]
  {
    dAtA.buf[dAtA.lo + i] := b;
  }

  /** The payload p written at a. */
  lemma Spliced(now: seq<u8>, was: seq<u8>, a: int, hi: int, p: seq<u8>)
    requires |now| == |was| && 0 <= a && a + |p| <= hi <= |now|
    requires forall k | 0 <= k < |p| :: now[a + k] == p[k]
    requires forall k | 0 <= k < a || a + |p| <= k < |now| :: now[k] == was[k]
    ensures now[a..hi] == p + was[a..hi][|p|..]
    ensures SameOutside(now, was, a, a + |p|)
  {
    assert now[a..hi] == now[a..a + |p|] + now[a + |p|..hi];
    assert now[a..a + |p|] == p;
    assert now[a + |p|..hi] == was[a + |p|..hi] == was[a..hi][|p|..];
  }

  /** Go's built-in `copy(dst, src)`. */
  method Copy(dst: Slice, src: seq<u8>) returns (n: nat)
    requires dst.Valid()
    modifies dst.buf
    ensures n == if |src| < dst.Len() then |src| else dst.Len()
    ensures dst.View() == src[..n] + old(dst.View())[n..]
    ensures OnlyChanged(dst, old(dst.buf[..]), 0, n)
  {
    hide SameOutside;
    ghost var was := dst.buf[..];
    n := if |src| < dst.Len() then |src| else dst.Len();
    forall k | 0 <= k < n {
      dst.buf[dst.lo + k] := src[k];
    }
    Spliced(dst.buf[..], was, dst.lo, dst.hi, src[..n]);
  }
}
