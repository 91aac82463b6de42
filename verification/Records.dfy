/** Length-delimited records, as the encoder writes them: the tag byte, the length, the payload. */
module Records {
  import opened Machine
  import opened Slices
  import opened Varint
  import opened Wire

  /** The tag of a length-delimited field with a one-byte tag. */
  function TagByte(number: nat): u8
    requires 0 < number < 16
  {
    number * 8 + LENGTH_DELIMITED
  }

  ghost function Record(number: nat, payload: GoBytes): seq<u8>
    requires 0 < number < 16
  {
    [TagByte(number)] + Encode(|payload|) + payload
  }

  /** A string field is left out when it is empty. */
  ghost function OptionalRecord(number: nat, payload: GoBytes): seq<u8>
    requires 0 < number < 16
  {
    if payload == [] then [] else Record(number, payload)
  }

  /** The summand of `Size` for a field that is always there. */
  function RecordSize(payload: GoBytes): nat {
    1 + |payload| + Sov(|payload|)
  }

  function OptionalSize(payload: GoBytes): nat {
    if |payload| > 0 then RecordSize(payload) else 0
  }

  lemma RecordLength(number: nat, payload: GoBytes)
    requires 0 < number < 16
    ensures |Record(number, payload)| == RecordSize(payload)
    ensures |OptionalRecord(number, payload)| == OptionalSize(payload)
  {
    SovIsLength(|payload|);
  }

  // ---- records as fields --------------------------------------------------------------------------------------

  ghost function RecordField(number: nat, payload: GoBytes): Field
    requires 0 < number < 16
  {
    Bytes([TagByte(number)], Encode(|payload|), payload)
  }

  ghost function OptionalField(number: nat, payload: GoBytes): seq<Field>
    requires 0 < number < 16
  {
    if payload == [] then [] else [RecordField(number, payload)]
  }

  lemma RecordIsField(number: nat, payload: GoBytes)
    requires 0 < number < 16
    ensures var f := RecordField(number, payload);
      f.Valid() && f.Number() == number && f.Text() == Record(number, payload)
  {
    hide Encode;
    EncodeRoundTrip(|payload|);
    OneByteTag(number);
  }

  lemma OneByteTag(number: nat)
    requires 0 < number < 16
    ensures var tag := [TagByte(number)];
      IsVarint(tag) && WireType(tag) == LENGTH_DELIMITED && FieldNumber(Value(tag)) == number
  {
    var tag := [TagByte(number)];
    assert Digit128(tag) == tag[0] + 128 * Digit128(tag[1..]);
    assert Value(tag) == number * 8 + 2;
  }

  /** The two forms of a field, side by side in a sequence. */
  lemma OptionalIsField(number: nat, payload: GoBytes)
    requires 0 < number < 16
    ensures AllValid(OptionalField(number, payload))
    ensures Flatten(OptionalField(number, payload)) == OptionalRecord(number, payload)
  {
    RecordIsField(number, payload);
    FlattenOne(RecordField(number, payload));
  }

  /** No field that carries this payload is shorter than the encoder's record. */
  lemma RecordIsShortest(f: Field)
    requires f.Valid() && f.Bytes?
    ensures RecordSize(f.payload) <= |f.Text()|
  {
    EncodeIsShortest(f.length);
  }

  // ---- writing from the back ----------------------------------------------------------------------------------

  /** The bytes of dAtA from i on are t. */
  ghost predicate EndsWith(dAtA: Slice, i: int, t: seq<u8>)
    requires dAtA.Valid() && 0 <= i <= dAtA.Len()
    reads dAtA.buf
  {
    dAtA.buf[dAtA.lo + i..dAtA.hi] == t
  }

  lemma HeaderBytes(now: seq<u8>, mid: seq<u8>, was: seq<u8>, i: int, end: int, hi: int)
    requires SameOutside(mid, was, i + 1, end) && 0 <= i && end <= hi <= |now| == |mid|
    requires now == mid[i := now[i]]
    ensures now[i..hi] == [now[i]] + mid[i + 1..end] + was[end..hi]
    ensures SameOutside(now, was, i, end)
  {
    assert now[i..hi] == [now[i]] + mid[i + 1..end] + mid[end..hi];
    assert mid[end..hi] == mid[end..][..hi - end] == was[end..][..hi - end] == was[end..hi];
    assert now[..i] == mid[..i + 1][..i] == was[..i];
    assert now[end..] == mid[end..];
  }

  /** Puts the length and the tag in front of a payload that begins at i. */
  method PutHeader(dAtA: Slice, end: int, number: nat, size: nat, ghost t: seq<u8>) returns (i: int)
    requires dAtA.Valid() && 0 < number < 16 && size < TWO_64
    requires 1 + Sov(size) <= end <= dAtA.Len() && EndsWith(dAtA, end, t)
    modifies dAtA.buf
    ensures i == end - 1 - Sov(size)
    ensures EndsWith(dAtA, i, [TagByte(number)] + Encode(size) + t)
    ensures OnlyChanged(dAtA, old(dAtA.buf[..]), i, end)
  {
    hide SameOutside, Encode, Sov;
    ghost var was := dAtA.buf[..];
    i := EncodeVarint(dAtA, end, size);
    ghost var mid := dAtA.buf[..];
    i := i - 1;
    Put(dAtA, i, TagByte(number));
    HeaderBytes(dAtA.buf[..], mid, was, dAtA.lo + i, dAtA.lo + end, dAtA.hi);
  }

  /** `i -= len(payload); copy(dAtA[i:], payload)` */
  method PutPayload(dAtA: Slice, end: int, payload: GoBytes, ghost t: seq<u8>) returns (i: int)
    requires dAtA.Valid() && |payload| <= end <= dAtA.Len() && EndsWith(dAtA, end, t)
    modifies dAtA.buf
    ensures i == end - |payload|
    ensures EndsWith(dAtA, i, payload + t)
    ensures OnlyChanged(dAtA, old(dAtA.buf[..]), i, end)
  {
    hide SameOutside;
    ghost var was := dAtA.buf[..];
    i := end - |payload|;
    var n := Copy(dAtA.From(i), payload);
    SliceOfSlice(was, dAtA.lo + i, dAtA.hi, n, dAtA.Len() - i);
    assert payload[..n] == payload;
  }

  /** Puts a record in front of what has been written so far. */
  method PutRecord(dAtA: Slice, end: int, number: nat, payload: GoBytes, ghost t: seq<u8>) returns (i: int)
    requires dAtA.Valid() && 0 < number < 16
    requires RecordSize(payload) <= end <= dAtA.Len() && EndsWith(dAtA, end, t)
    modifies dAtA.buf
    ensures i == end - RecordSize(payload)
    ensures EndsWith(dAtA, i, Record(number, payload) + t)
    ensures OnlyChanged(dAtA, old(dAtA.buf[..]), i, end)
  {
    hide EndsWith, SameOutside, Encode;
    ghost var was := dAtA.buf[..];
    var begin := PutPayload(dAtA, end, payload, t);
    ghost var mid := dAtA.buf[..];
    i := PutHeader(dAtA, begin, number, |payload|, payload + t);
    assert [TagByte(number)] + Encode(|payload|) + (payload + t) == Record(number, payload) + t;
    ChangedTwice(dAtA.buf[..], mid, was, dAtA.lo + i, dAtA.lo + begin, dAtA.lo + end);
  }

  lemma NothingWritten(dAtA: Slice)
    requires dAtA.Valid()
    ensures EndsWith(dAtA, dAtA.Len(), [])
    ensures OnlyChanged(dAtA, dAtA.buf[..], dAtA.Len(), dAtA.Len())
  {
  }

  /** PutRecord, carrying along what has been written since the array held was. */
  method PutNext(dAtA: Slice, end: int, number: nat, payload: GoBytes, ghost t: seq<u8>, ghost was: seq<u8>)
    returns (i: int, ghost written: seq<u8>)
    requires dAtA.Valid() && 0 < number < 16
    requires RecordSize(payload) <= end <= dAtA.Len() && EndsWith(dAtA, end, t)
    requires OnlyChanged(dAtA, was, end, dAtA.Len())
    modifies dAtA.buf
    ensures i == end - RecordSize(payload) && written == Record(number, payload) + t
    ensures EndsWith(dAtA, i, written) && OnlyChanged(dAtA, was, i, dAtA.Len())
  {
    hide EndsWith, SameOutside, Record;
    ghost var mid := dAtA.buf[..];
    i := PutRecord(dAtA, end, number, payload, t);
    written := Record(number, payload) + t;
    ChangedTwice(dAtA.buf[..], mid, was, dAtA.lo + i, dAtA.lo + end, dAtA.lo + dAtA.Len());
  }
}
