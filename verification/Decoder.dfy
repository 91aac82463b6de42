/** The loop that the generator writes into every `Unmarshal`, for any table of fields. */
module Decoder {
  import opened Machine
  import opened Results
  import opened Slices
  import opened Varint
  import opened Wire
  import opened SkipGrammar
  import opened Skipper

  /** What tells one message type's decoder from another's: the field numbers in its switch, and what each of these
      cases does with the payload. Every such field is length-delimited. */
  datatype Schema<!S> = Schema(known: int -> bool, store: (S, int, GoBytes) -> Outcome<S>)

  // ---- one pass of the loop -----------------------------------------------------------------------------------

  datatype Tag = Tag(number: int, wireType: nat, size: nat)

  datatype Span = Span(lo: nat, hi: nat)

  /** The head of a pass: the tag, and the two checks behind it. */
  function TagFrom(s: seq<u8>, i: nat): (r: Result<Tag>)
    requires i <= |s|
    ensures r.Ok? ==> 0 < r.value.size <= |s| - i && r.value.number > 0
  {
    match Read(s[i..])
    case Err(e) => Err(e)
    case Ok(t) =>
      if t.value % 8 == END_GROUP then Err(EndGroupForNonGroup)
      else if FieldNumber(t.value) <= 0 then Err(IllegalTag)
      else Ok(Tag(FieldNumber(t.value), t.value % 8, t.size))
  }

  /** A length and the payload behind it, with every check the generated code makes. */
  function SpanFrom(s: seq<u8>, j: nat): (r: Result<Span>)
    requires j <= |s| <= MAX_INT
    ensures r.Ok? ==> j < r.value.lo <= r.value.hi <= |s|
  {
    match Read(s[j..])
    case Err(e) => Err(e)
    case Ok(t) =>
      var length := Int64(t.value);
      if length < 0 then Err(InvalidLength)
      else
        var postIndex := Int64(j + t.size + length);
        if postIndex < 0 then Err(InvalidLength)
        else if postIndex > |s| then Err(UnexpectedEOF)
        else Ok(Span(j + t.size, postIndex))
  }

  /** The default case of the switch: the index behind the field that starts at i. */
  function SkipTo(s: seq<u8>, i: nat): (r: Result<nat>)
    requires i < |s| <= MAX_INT
    ensures r.Ok? ==> i < r.value <= |s|
  {
    match SkipFrom(s[i..], 0, 0)
    case Err(e) => Err(e)
    case Ok(skippy) =>
      if Int64(i + skippy) < 0 then Err(InvalidLength)
      else if Int64(i + skippy) > |s| then Err(UnexpectedEOF)
      else Ok(Int64(i + skippy))
  }

  datatype Pass<+S> = Next(index: nat, after: S) | Stop(error: Error, state: S)

  function DecodePass<S>(sc: Schema<S>, s: seq<u8>, i: nat, st: S): (p: Pass<S>)
    requires i < |s| <= MAX_INT
    ensures p.Next? ==> i < p.index <= |s|
  {
    match TagFrom(s, i)
    case Err(e) => Stop(e, st)
    case Ok(tag) =>
      if sc.known(tag.number) then
        if tag.wireType != LENGTH_DELIMITED then Stop(WrongWireType, st)
        else
          match SpanFrom(s, i + tag.size)
          case Err(e) => Stop(e, st)
          case Ok(span) =>
            match sc.store(st, tag.number, s[span.lo..span.hi])
            case Failed(e, after) => Stop(e, after)
            case Done(after) => Next(span.hi, after)
      else
        match SkipTo(s, i)
        case Err(e) => Stop(e, st)
        case Ok(next) => Next(next, st)
  }

  /** The loop from index i on. */
  function DecodeFrom<S>(sc: Schema<S>, s: seq<u8>, i: nat, st: S): (o: Outcome<S>)
    requires i <= |s| <= MAX_INT
    decreases |s| - i
  {
    if i == |s| then Done(st)
    else
      match DecodePass(sc, s, i, st)
      case Stop(e, after) => Failed(e, after)
      case Next(j, after) => DecodeFrom(sc, s, j, after)
  }

  function Decode<S>(sc: Schema<S>, s: seq<u8>, st: S): (o: Outcome<S>)
    requires |s| <= MAX_INT
  {
    DecodeFrom(sc, s, 0, st)
  }

  // ---- what a payload and a skipped field are -----------------------------------------------------------------

  /** At j stands a varint that ends at lo and says that the payload ends at hi, inside the input. */
  ghost predicate IsPayload(s: seq<u8>, j: nat, lo: nat, hi: nat) {
    j <= lo <= hi <= |s| && IsVarint(s[j..lo]) && Value(s[j..lo]) == hi - lo
  }

  /** r is the payload at j, if there is one. */
  ghost predicate FindsPayload(s: seq<u8>, j: nat, r: Result<Span>) {
    forall lo: nat, hi: nat :: r == Ok(Span(lo, hi)) <==> IsPayload(s, j, lo, hi)
  }

  /** The length checks, under wrapping arithmetic, let through exactly the payloads inside the input. */
  lemma SpanIsPayload(s: seq<u8>, j: nat)
    requires j <= |s| <= MAX_INT
    ensures FindsPayload(s, j, SpanFrom(s, j))
  {
    hide Read, IsVarint;
    if SpanFrom(s, j).Ok? {
      assert TagAt(s, j) == s[j..SpanFrom(s, j).value.lo];
    }
    forall lo: nat, hi: nat | IsPayload(s, j, lo, hi) ensures SpanFrom(s, j) == Ok(Span(lo, hi)) {
      assert s[j..lo] <= s[j..];
      ReadComplete(s[j..lo], s[j..]);
    }
  }

  /** r is the end of the field that starts at i, if there is one. */
  ghost predicate FindsField(s: seq<u8>, i: nat, r: Result<nat>)
    requires i <= |s|
  {
    forall n: nat | i <= n <= |s| :: r == Ok(n) <==> StartsWithField(s[i..], n - i)
  }

  /** Skipping from i ends at n, inside the input, exactly when the bytes between are one field of the grammar. */
  lemma SkipToIsField(s: seq<u8>, i: nat)
    requires i < |s| <= MAX_INT
    ensures FindsField(s, i, SkipTo(s, i))
  {
    hide SkipFrom, StartsWithField;
    SkipIsGrammar(s[i..]);
    forall n: nat | i <= n <= |s| ensures SkipTo(s, i) == Ok(n) <==> StartsWithField(s[i..], n - i) {
      assert SkipFrom(s[i..], 0, 0) == Ok(n - i) <==> StartsWithField(s[i..], n - i);
    }
  }

  // ---- the pieces as the program runs them --------------------------------------------------------------------

  method ReadTag(dAtA: Slice, iNdEx: nat) returns (r: Result<Tag>)
    requires dAtA.Valid() && iNdEx <= dAtA.Len()
    ensures r == TagFrom(dAtA.View(), iNdEx)
  {
    var wire := ReadVarint(dAtA, iNdEx);
    if wire.Err? {
      return Err(wire.error);
    }
    var fieldNum := FieldNumber(wire.value.value);
    var wireType := wire.value.value % 8;
    if wireType == END_GROUP {
      return Err(EndGroupForNonGroup);
    }
    if fieldNum <= 0 {
      return Err(IllegalTag);
    }
    return Ok(Tag(fieldNum, wireType, wire.value.size));
  }

  method ReadSpan(dAtA: Slice, j: nat) returns (r: Result<Span>)
    requires dAtA.Valid() && j <= dAtA.Len()
    ensures r == SpanFrom(dAtA.View(), j)
    ensures FindsPayload(dAtA.View(), j, r)
  {
    hide FindsPayload;
    SpanIsPayload(dAtA.View(), j);
    var read := ReadVarint(dAtA, j);
    if read.Err? {
      return Err(read.error);
    }
    var iNdEx := j + read.value.size;
    var length := Int64(read.value.value);
    if length < 0 {
      return Err(InvalidLength);
    }
    var postIndex := Int64(iNdEx + length);
    if postIndex < 0 {
      return Err(InvalidLength);
    }
    if postIndex > dAtA.Len() {
      return Err(UnexpectedEOF);
    }
    return Ok(Span(iNdEx, postIndex));
  }

  method SkipUnknown(dAtA: Slice, preIndex: nat) returns (r: Result<nat>)
    requires dAtA.Valid() && preIndex < dAtA.Len()
    ensures r == SkipTo(dAtA.View(), preIndex)
    ensures FindsField(dAtA.View(), preIndex, r)
  {
    hide FindsField, SkipsOneField;
    SkipToIsField(dAtA.View(), preIndex);
    var skippy := Skip(dAtA.From(preIndex));
    if skippy.Err? {
      return Err(skippy.error);
    }
    if skippy.value < 0 || Int64(preIndex + skippy.value) < 0 {
      return Err(InvalidLength);
    }
    if Int64(preIndex + skippy.value) > dAtA.Len() {
      return Err(UnexpectedEOF);
    }
    return Ok(Int64(preIndex + skippy.value));
  }
}
