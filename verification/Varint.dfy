/** Base-128 varints: the loops that write and read them, and the digits they stand for. */
module Varint {
  import opened Machine
  import opened Results
  import opened Slices

  // ---- the notation -------------------------------------------------------------------------------------------

  /** One varint as it stands in the input: every byte but the last has its top bit set. */
  ghost predicate Digits(bs: seq<u8>) {
    |bs| > 0 && if |bs| == 1 then bs[0] < 128 else bs[0] >= 128 && Digits(bs[1..])
  }

  /** The varints that Go accepts: at most ten bytes, not necessarily the fewest. */
  ghost predicate IsVarint(bs: seq<u8>) {
    |bs| <= 10 && Digits(bs)
  }

  /** The number the digits write, least significant first; not cut to 64 bits. */
  ghost function Digit128(bs: seq<u8>): nat {
    if bs == [] then 0 else bs[0] % 128 + 128 * Digit128(bs[1..])
  }

  /** The `uint64` that a varint stands for. */
  ghost function Value(bs: seq<u8>): (v: nat)
    ensures v < TWO_64
  {
    UInt64(Digit128(bs))
  }

  /** The shortest varint for v. */
  function Encode(v: nat): (bs: seq<u8>) {
    if v < 128 then [v] else [v % 128 + 128] + Encode(v / 128)
  }

  /** `sovTx`: the number of bytes of the shortest varint, from the bit length. */
  function Sov(x: nat): nat {
    (Len64(BitOr(x, 1)) + 6) / 7
  }

  lemma {:induction false} SovIsLength(v: nat)
    ensures Sov(v) == |Encode(v)|
  {
    Len64OrOne(v);
    if v >= 128 {
      Len64Div128(v);
      Len64OrOne(v / 128);
      SovIsLength(v / 128);
    } else if v > 0 {
      Len64Small(v, 7);
    }
  }

  lemma {:induction false} EncodeDigits(v: nat)
    ensures Digits(Encode(v)) && Digit128(Encode(v)) == v
  {
    if v >= 128 {
      EncodeDigits(v / 128);
      assert Encode(v)[1..] == Encode(v / 128);
    }
  }

  lemma {:induction false} EncodeLength(v: nat, k: nat)
    requires v < Pow2(7 * k) && k > 0
    ensures |Encode(v)| <= k
  {
    if v >= 128 {
      Pow2Values();
      Pow2Plus7(7 * (k - 1));
      EncodeLength(v / 128, k - 1);
    }
  }

  /** Every `uint64` has a varint, and it reads back as that number. */
  lemma {:induction false} EncodeRoundTrip(v: nat)
    requires v < TWO_64
    ensures IsVarint(Encode(v)) && Value(Encode(v)) == v
  {
    EncodeDigits(v);
    Pow2Values();
    Pow2Plus7(63);
    EncodeLength(v, 10);
  }

  /** No varint for a number is shorter than the encoder's. */
  lemma {:induction false} EncodeIsShortest(bs: seq<u8>)
    requires Digits(bs)
    ensures Sov(Value(bs)) <= |bs|
  {
    DigitsBound(bs);
    var v := Value(bs);
    assert v <= Digit128(bs);
    EncodeLength(v, |bs|);
    SovIsLength(v);
  }

  lemma {:induction false} DigitsBound(bs: seq<u8>)
    ensures Digit128(bs) < Pow2(7 * |bs|)
  {
    if bs != [] {
      DigitsBound(bs[1..]);
      Pow2Plus7(7 * |bs[1..]|);
    }
  }

  // ---- reading ------------------------------------------------------------------------------------------------

  /** A number and the count of bytes it was read from. */
  datatype Token = Token(value: nat, size: nat)

  /** What reading digits does when k have been read already: the eleventh is an overflow before it is looked at. */
  function ReadDigits(s: seq<u8>, k: nat): (r: Result<Token>)
    ensures r.Ok? ==> 0 < r.value.size <= |s|
    decreases |s|
  {
    if k >= 10 then Err(IntOverflow)
    else if s == [] then Err(UnexpectedEOF)
    else if s[0] < 128 then Ok(Token(s[0], 1))
    else
      match ReadDigits(s[1..], k + 1)
      case Err(e) => Err(e)
      case Ok(t) => Ok(Token(s[0] % 128 + 128 * t.value, t.size + 1))
  }

  /** The varint that s starts with. */
  function Read(s: seq<u8>): (r: Result<Token>)
    ensures r.Ok? ==> 0 < r.value.size <= |s| && r.value.value < TWO_64
  {
    match ReadDigits(s, 0)
    case Err(e) => Err(e)
    case Ok(t) => Ok(Token(UInt64(t.value), t.size))
  }

  lemma {:induction false} ReadDigitsComplete(bs: seq<u8>, s: seq<u8>, k: nat)
    requires Digits(bs) && k + |bs| <= 10 && bs <= s
    ensures ReadDigits(s, k) == Ok(Token(Digit128(bs), |bs|))
  {
    assert s[0] == bs[0];
    if |bs| > 1 {
      assert bs[1..] <= s[1..];
      ReadDigitsComplete(bs[1..], s[1..], k + 1);
    } else {
      assert Digit128(bs[1..]) == 0;
    }
  }

  lemma {:induction false} ReadDigitsSound(s: seq<u8>, k: nat)
    requires ReadDigits(s, k).Ok?
    ensures var t := ReadDigits(s, k).value;
      k + t.size <= 10 && Digits(s[..t.size]) && Digit128(s[..t.size]) == t.value
  {
    var t := ReadDigits(s, k).value;
    if s[0] < 128 {
      assert s[..1][1..] == [];
    } else {
      ReadDigitsSound(s[1..], k + 1);
      assert s[..t.size][1..] == s[1..][..t.size - 1];
    }
  }

  /** Reading succeeds exactly on inputs that start with a varint, and returns its value and its length. */
  lemma ReadComplete(bs: seq<u8>, s: seq<u8>)
    requires IsVarint(bs) && bs <= s
    ensures Read(s) == Ok(Token(Value(bs), |bs|))
  {
    ReadDigitsComplete(bs, s, 0);
  }

  lemma ReadSound(s: seq<u8>)
    requires Read(s).Ok?
    ensures var t := Read(s).value; IsVarint(s[..t.size]) && Value(s[..t.size]) == t.value
  {
    ReadDigitsSound(s, 0);
  }

  /** A varint cut short is an end of input, never an overflow. */
  lemma {:induction false} ReadDigitsCut(bs: seq<u8>, cut: nat, k: nat)
    requires Digits(bs) && cut < |bs| && k + |bs| <= 10
    ensures ReadDigits(bs[..cut], k) == Err(UnexpectedEOF)
  {
    if cut > 0 {
      assert bs[..cut][1..] == bs[1..][..cut - 1];
      ReadDigitsCut(bs[1..], cut - 1, k + 1);
    }
  }

  lemma NothingToRead()
    ensures Read([]) == Err(UnexpectedEOF)
  {
  }

  /** Ten bytes that all announce another one. */
  ghost predicate Overlong(s: seq<u8>) {
    |s| >= 10 && forall j | 0 <= j < 10 :: s[j] >= 128
  }

  /** Reading overflows exactly on these, whether or not the input goes on. */
  lemma ReadOverflows(s: seq<u8>)
    ensures Read(s) == Err(IntOverflow) <==> Overlong(s)
  {
    OverlongDigits(s, 0);
  }

  lemma {:induction false} OverlongDigits(s: seq<u8>, k: nat)
    requires k <= 10
    ensures ReadDigits(s, k) == Err(IntOverflow) <==> |s| + k >= 10 && forall j | 0 <= j < 10 - k :: s[j] >= 128
    decreases |s|
  {
    if k < 10 && s != [] {
      OverlongDigits(s[1..], k + 1);
      assert forall j | 0 < j < |s| :: s[j] == s[1..][j - 1];
      assert forall j | 0 <= j < |s| - 1 :: s[1..][j] == s[j + 1];
    }
  }

  // ---- the loops ----------------------------------------------------------------------------------------------

  /** What reading from the start gives, when the first k digits amount to acc and the rest reads as r. */
  ghost function Extend(acc: nat, k: nat, r: Result<Token>): Result<Token> {
    match r
    case Err(e) => Err(e)
    case Ok(t) => Ok(Token(acc + Pow2(7 * k) * t.value, t.size + k))
  }

  /** One pass of the reading loop: or-ing in the k-th digit adds it, up to the bits lost by the shift. */
  lemma OrDigit(acc: nat, k: nat, d: nat, shift: nat, p: nat)
    requires k <= 9 && shift == 7 * k && p == Pow2(shift) && acc < p && d < 128
    ensures BitOr(acc, Shl64(d, shift)) == UInt64(acc + p * d)
    ensures k <= 8 ==> BitOr(acc, Shl64(d, shift)) < Pow2(shift + 7) && BitOr(acc, Shl64(d, shift)) == acc + p * d
  {
    if k == 9 {
      OrTenthDigit(acc, d, shift);
    } else {
      ShlLow(k, d, shift, p);
      OrDisjoint(acc, d, shift);
      Pow2Plus7(shift);
    }
  }

  lemma ShlLow(k: nat, d: nat, shift: nat, p: nat)
    requires k <= 8 && shift == 7 * k && p == Pow2(shift) && d < 128
    ensures Shl64(d, shift) == d * p == p * d <= 127 * p && 128 * p <= TWO_63
  {
    ShiftsInRange(k, shift);
    MulLe(p, d, 127);
  }

  lemma ShiftsInRange(k: nat, shift: nat)
    requires k <= 8 && shift == 7 * k
    ensures 128 * Pow2(shift) <= TWO_63
  {
    Pow2Values();
    assert k == 0 || k == 1 || k == 2 || k == 3 || k == 4 || k == 5 || k == 6 || k == 7 || k == 8;
  }

  /** Of the tenth digit only the lowest bit survives the shift by 63. */
  lemma OrTenthDigit(acc: nat, d: nat, k: nat)
    requires k == 63 && acc < Pow2(k) && d < 128
    ensures BitOr(acc, Shl64(d, k)) == UInt64(acc + Pow2(k) * d)
  {
    Pow2Values();
    TopBit(acc, d);
    OrDisjoint(acc, d % 2, k);
  }

  lemma TopBit(acc: nat, d: nat)
    requires acc < TWO_63
    ensures UInt64(d * TWO_63) == d % 2 * TWO_63
    ensures UInt64(acc + TWO_63 * d) == acc + d % 2 * TWO_63
  {
    var h := d / 2;
    assert d * TWO_63 == h * TWO_64 + d % 2 * TWO_63;
  }

  lemma MulLe(p: nat, x: nat, y: nat)
    requires x <= y
    ensures p * x <= p * y
  {
  }

  lemma ExtendStep(s: seq<u8>, acc: nat, k: nat)
    requires k < |s| && k <= 9
    ensures Extend(acc, k, ReadDigits(s[k..], k)) ==
      if s[k] < 128 then Ok(Token(acc + Pow2(7 * k) * s[k], k + 1))
      else Extend(acc + Pow2(7 * k) * (s[k] % 128), k + 1, ReadDigits(s[k + 1..], k + 1))
  {
    assert s[k..][1..] == s[k + 1..];
    var r := ReadDigits(s[k + 1..], k + 1);
    if r.Ok? {
      Pow2Plus7(7 * k);
      MulDigit(Pow2(7 * k), s[k] % 128, r.value.value);
    }
  }

  lemma MulDigit(p: nat, d: nat, v: nat)
    ensures p * (d + 128 * v) == p * d + 128 * p * v
  {
  }

  /** The loop invariant: after k digits, acc and the digits still to come determine the result. */
  ghost predicate Reading(s: seq<u8>, acc: nat, k: nat, shift: nat) {
    && k <= 10 && k <= |s| && shift == 7 * k
    && (k <= 9 ==> acc < Pow2(shift))
    && ReadDigits(s, 0) == Extend(acc, k, ReadDigits(s[k..], k))
  }

  lemma ReadStart(s: seq<u8>)
    ensures Reading(s, 0, 0, 0)
  {
    assert s[0..] == s;
  }

  lemma ReadStop(s: seq<u8>, acc: nat, k: nat, shift: nat)
    requires Reading(s, acc, k, shift) && (shift >= 64 || k == |s|)
    ensures Read(s) == Err(if shift >= 64 then IntOverflow else UnexpectedEOF)
  {
  }

  lemma ReadPass(s: seq<u8>, acc: nat, k: nat, shift: nat)
    requires Reading(s, acc, k, shift) && shift < 64 && k < |s|
    ensures var next := BitOr(acc, Shl64(s[k] % 128, shift));
      if s[k] < 128 then Read(s) == Ok(Token(next, k + 1)) else Reading(s, next, k + 1, shift + 7)
  {
    hide BitOr, Shl64, UInt64;
    OrDigit(acc, k, s[k] % 128, shift, Pow2(shift));
    ExtendStep(s, acc, k);
  }

  /** The loop that the generator writes out wherever a varint is read, starting at index iNdEx of dAtA. */
  method ReadVarint(dAtA: Slice, iNdEx: nat) returns (r: Result<Token>)
    requires dAtA.Valid() && iNdEx <= dAtA.Len()
    ensures r == Read(dAtA.View()[iNdEx..])
  {
    hide Reading, Read, BitOr, Shl64;
    ghost var s := dAtA.View()[iNdEx..];
    var l := dAtA.Len();
    var i, shift, wire: nat := iNdEx, 0, 0;
    ReadStart(s);
    while true
      invariant iNdEx <= i <= l && Reading(s, wire, i - iNdEx, shift)
      decreases l - i
    {
      if shift >= 64 {
        ReadStop(s, wire, i - iNdEx, shift);
        return Err(IntOverflow);
      }
      if i >= l {
        ReadStop(s, wire, i - iNdEx, shift);
        return Err(UnexpectedEOF);
      }
      var b := dAtA.At(i);
      ReadPass(s, wire, i - iNdEx, shift);
      i := i + 1;
      wire := BitOr(wire, Shl64(b % 128, shift));
      if b < 128 {
        return Ok(Token(wire, i - iNdEx));
      }
      shift := shift + 7;
    }
  }

  /** The loop invariant of the writer: what stands in now[a..p], and the digits of rest still to come. */
  ghost predicate Writing(now: seq<u8>, a: int, p: int, c: int, rest: nat, v: nat) {
    && 0 <= a <= p && p + |Encode(rest)| == c <= |now|
    && now[a..p] + Encode(rest) == Encode(v)
  }

  lemma WriteStart(now: seq<u8>, a: int, c: int, v: nat)
    requires 0 <= a && a + |Encode(v)| == c <= |now|
    ensures a < c && Writing(now, a, a, c, v, v)
  {
    assert now[a..a] + Encode(v) == Encode(v);
  }

  lemma WritePass(now: seq<u8>, mid: seq<u8>, a: int, p: int, c: int, rest: nat, v: nat)
    requires Writing(mid, a, p, c, rest, v) && |now| == |mid| && p < |mid|
    requires now == mid[p := if rest < 128 then rest else rest % 128 + 128]
    ensures if rest < 128 then p + 1 == c && now[a..c] == Encode(v)
            else p + 1 < c && Writing(now, a, p + 1, c, rest / 128, v)
  {
    assert now[a..p + 1] == mid[a..p] + [now[p]];
    if rest >= 128 {
      assert |Encode(rest / 128)| > 0;
      assert now[a..p + 1] + Encode(rest / 128) == mid[a..p] + Encode(rest);
    }
  }

  /** `encodeVarintTx`: writes v so that it ends just before offset, and returns where it begins. */
  method EncodeVarint(dAtA: Slice, offset: int, v: nat) returns (base: int)
    requires dAtA.Valid() && v < TWO_64
    requires Sov(v) <= offset <= dAtA.Len()
    modifies dAtA.buf
    ensures base == offset - Sov(v)
    ensures dAtA.buf[dAtA.lo + base..dAtA.lo + offset] == Encode(v)
    ensures OnlyChanged(dAtA, old(dAtA.buf[..]), base, offset)
  {
    hide SameOutside, Writing, Encode, Sov, BitOr, Len64, SetTop;
    ghost var was := dAtA.buf[..];
    ghost var c := dAtA.lo + offset;
    SovIsLength(v);
    var at := offset - Sov(v);
    base := at;
    var rest := v;
    NothingChanged(was, dAtA.lo + base, c);
    WriteStart(was, dAtA.lo + base, c, v);
    while rest >= 128
      invariant base <= at < offset
      invariant Writing(dAtA.buf[..], dAtA.lo + base, dAtA.lo + at, c, rest, v)
      invariant SameOutside(dAtA.buf[..], was, dAtA.lo + base, c)
      decreases rest
    {
      ghost var mid := dAtA.buf[..];
      Put(dAtA, at, SetTop(rest % 128));
      ChangedAt(dAtA.buf[..], mid, was, dAtA.lo + base, dAtA.lo + at, c);
      WritePass(dAtA.buf[..], mid, dAtA.lo + base, dAtA.lo + at, c, rest, v);
      rest := rest / 128;
      at := at + 1;
    }
    ghost var mid := dAtA.buf[..];
    Put(dAtA, at, rest);
    ChangedAt(dAtA.buf[..], mid, was, dAtA.lo + base, dAtA.lo + at, c);
    WritePass(dAtA.buf[..], mid, dAtA.lo + base, dAtA.lo + at, c, rest, v);
  }

  /** `v&0x7f | 0x80`, the top bit set on a seven-bit number. */
  function SetTop(d: nat): (b: u8)
    requires d < 128
    ensures b == d + 128
  {
    Pow2Values();
    OrDisjoint(d, 1, 7);
    BitOr(d, 128)
  }
}
