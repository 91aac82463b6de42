/** The request to update the parameters, with `Params` nested in it. */
module UpdateMessage {
  import opened Machine
  import opened Results
  import opened Slices
  import opened Varint
  import opened Wire
  import opened Decoder
  import opened DecodeGrammar
  import opened DecodeLaws
  import opened Records
  import opened ParamsMessage

  datatype Update = Update(authority: GoBytes, params: ParamsValue)

  const ZERO := Update([], ParamsValue)

  const AUTHORITY := 1
  const PARAMS := 2

  function Store(m: Update, number: int, payload: GoBytes): Outcome<Update> {
    if number == AUTHORITY then Done(m.(authority := payload))
    else
      match Decode(ParamsSchema(), payload, m.params)
      case Done(params) => Done(m.(params := params))
      case Failed(e, params) => Failed(e, m.(params := params))
  }

  function UpdateSchema(): Schema<Update> {
    Schema(n => n == AUTHORITY || n == PARAMS, (m, n, p) => Store(m, n, p))
  }

  /** The encoding, from front to back; `Params` encodes to nothing, but its record is always there. */
  ghost function EncodeUpdate(m: Update): seq<u8> {
    OptionalRecord(AUTHORITY, m.authority) + Record(PARAMS, [])
  }

  /** The same, byte by byte. */
  lemma UpdateBytes(m: Update)
    ensures EncodeUpdate(m) ==
      (if m.authority == [] then [] else [0x0a] + Encode(|m.authority|) + m.authority) + [0x12, 0]
  {
  }

  function SizeOfUpdate(m: Update): nat {
    OptionalSize(m.authority) + RecordSize([])
  }

  lemma SizeIsLength(m: Update)
    ensures SizeOfUpdate(m) == |EncodeUpdate(m)|
  {
    RecordLength(AUTHORITY, m.authority);
    RecordLength(PARAMS, []);
  }

  // ---- the nested message -------------------------------------------------------------------------------------

  /** The decoder of the nested message decides on the payload, and nothing else does. */
  lemma ParamsPayload(f: Field, m: Update)
    requires f.Number() == PARAMS && f.Bytes?
    ensures Apply(UpdateSchema(), f, m).Done? <==> IsFieldList(f.payload)
    ensures Apply(UpdateSchema(), f, m).state == m
    ensures Apply(UpdateSchema(), f, m) ==
      match Decode(ParamsSchema(), f.payload, ParamsValue)
      case Done(_) => Done(m)
      case Failed(e, _) => Failed(e, m)
  {
    hide Decode, ParamsSchema, IsFieldList;
    ParamsRecognises(f.payload, m.params);
    var o := Decode(ParamsSchema(), f.payload, m.params);
    OneParams(o.state, m.params);
    OneParams(ParamsValue, m.params);
  }

  lemma OneParams(v: ParamsValue, w: ParamsValue)
    ensures v == w
  {
  }

  /** A field 2 with any payload that `Params` recognises may be inserted behind any accepted part of an input: the
      message, acceptance, and, unless an index overflows in the longer input only, the error stay the same. */
  lemma ParamsInserted(a: seq<u8>, f: Field, b: seq<u8>, m: Update)
    requires |a + f.Text() + b| <= MAX_INT && f.Valid() && f.Bytes? && f.Number() == PARAMS && IsFieldList(f.payload)
    requires Decode(UpdateSchema(), a, m).Done?
    ensures var demand := Demand(UpdateSchema(), b, 0, Decode(UpdateSchema(), a, m).state);
      SameAcross(Decode(UpdateSchema(), a + f.Text() + b, m), Decode(UpdateSchema(), a + b, m),
                 |a + f.Text()| + demand, |a| + demand)
  {
    hide Decode, Demand, Apply, Merge, IsFieldList, UpdateSchema;
    var sc := UpdateSchema();
    var mid := Decode(sc, a, m).state;
    FlattenOne(f);
    DecodeOfFields(sc, [f], mid);
    MergeOne(sc, f, mid);
    ParamsPayload(f, mid);
    NeutralInserted(sc, a, f.Text(), b, m);
  }

  // ---- where concatenation shows ------------------------------------------------------------------------------

  /** A length that reaches just up to the largest index when it stands at the front of the input. */
  const FAR := MAX_INT - 10

  /** An authority field of that length, without its payload. */
  ghost function Dangling(): (d: seq<u8>)
    ensures |d| == 10
  {
    DanglingLength();
    [TagByte(AUTHORITY)] + Encode(FAR)
  }

  lemma DanglingLength()
    ensures IsVarint(Encode(FAR)) && Value(Encode(FAR)) == FAR && |Encode(FAR)| == 9
  {
    EncodeRoundTrip(FAR);
    Pow2Values();
    EncodeLength(FAR, 9);
    DigitsBound(Encode(FAR));
    if |Encode(FAR)| <= 8 {
      Pow2Monotone(7 * |Encode(FAR)|, 56);
    }
  }

  /** The index that a length leads to depends on where the field stands: at the front of the input this one only
      runs past the end, behind any other byte the addition overflows. So a refused input may be refused with
      another error when it stands behind an accepted one. */
  lemma OffsetMatters(a: seq<u8>, m: Update)
    requires 0 < |a| <= MAX_INT - 10 && Decode(UpdateSchema(), a, m).Done?
    ensures var mid := Decode(UpdateSchema(), a, m).state;
      && Decode(UpdateSchema(), Dangling(), mid) == Failed(UnexpectedEOF, mid)
      && Decode(UpdateSchema(), a + Dangling(), m) == Failed(InvalidLength, mid)
  {
    hide DecodePass, Merge, Apply, UpdateSchema;
    var sc := UpdateSchema();
    var mid := Decode(sc, a, m).state;
    var b := Dangling();
    DanglingLength();
    PassOfDangling(b, 0, mid);
    PassOfDangling(a + b, |a|, mid);
    var fs := FieldsOfDecode(sc, a, 0, m);
    assert a[0..] == a && (a + b)[0..] == a + b;
    DecodeMergesFields(sc, a + b, 0, m, fs);
  }

  lemma PassOfDangling(s: seq<u8>, i: nat, m: Update)
    requires i < |s| <= MAX_INT && s[i..] == Dangling()
    ensures DecodePass(UpdateSchema(), s, i, m) == Stop(if i == 0 then UnexpectedEOF else InvalidLength, m)
  {
    hide SkipTo, SpanFrom, Store, Read, Encode;
    var tag := [TagByte(AUTHORITY)];
    DanglingLength();
    RecordIsField(AUTHORITY, []);
    assert tag <= s[i..];
    ReadComplete(tag, s[i..]);
    assert s[i + 1..] == Encode(FAR);
    SpanOfDangling(s, i);
    PassOfUpdate(s, i, m);
  }

  lemma SpanOfDangling(s: seq<u8>, i: nat)
    requires i < |s| <= MAX_INT && s[i + 1..] == Encode(FAR)
    ensures SpanFrom(s, i + 1) == Err(if i == 0 then UnexpectedEOF else InvalidLength)
  {
    hide Read, Encode;
    DanglingLength();
    ReadComplete(Encode(FAR), s[i + 1..]);
  }

  // ---- what a decoded message is ------------------------------------------------------------------------------

  /** Numbers are positive, the known fields are length-delimited, and every nested payload is a field list. */
  ghost predicate WellTyped(fs: seq<Field>) {
    forall f <- fs ::
      && f.Number() > 0
      && (f.Number() == 1 ==> f.Bytes?)
      && (f.Number() == 2 ==> f.Bytes? && IsFieldList(f.payload))
  }

  lemma {:induction false} MergeOfUpdate(fs: seq<Field>, m: Update)
    ensures var o := Merge(UpdateSchema(), fs, m);
      && (o.Done? <==> WellTyped(fs))
      && (o.Done? ==> o.state == Update(LastPayload(fs, 1, m.authority), m.params))
    decreases |fs|
  {
    hide IsFieldList, Decode;
    if fs != [] {
      var f := fs[0];
      assert fs == [f] + fs[1..];
      if f.Number() == PARAMS && f.Bytes? { ParamsPayload(f, m); }
      var o := Apply(UpdateSchema(), f, m);
      if o.Done? { MergeOfUpdate(fs[1..], o.state); }
    }
  }

  /** One field merged into a message, by the bits of its tag. */
  lemma UpdateField(f: Field, m: Update)
    ensures var number := Value(f.tag) / 8 % 0x1_0000_0000;
      Apply(UpdateSchema(), f, m) ==
        if number == 0 || number >= 0x8000_0000 then Failed(IllegalTag, m)
        else if number > 2 then Done(m)
        else if !f.Bytes? then Failed(WrongWireType, m)
        else if number == 1 then Done(Update(f.payload, m.params))
        else
          match Decode(ParamsSchema(), f.payload, ParamsValue)
          case Done(_) => Done(m)
          case Failed(e, _) => Failed(e, m)
  {
    hide Decode, ParamsSchema, IsFieldList;
    NumberFromBits(Value(f.tag));
    if f.Number() == 2 && f.Bytes? { ParamsPayload(f, m); }
  }

  /** A merge that fails, fails at its first refused field, with the message that the fields before it have made; of
      a nested payload, the error is that of `Params`. */
  lemma {:induction false} MergeOfUpdateFails(fs: seq<Field>, m: Update) returns (k: nat)
    requires Merge(UpdateSchema(), fs, m).Failed?
    ensures k < |fs| && WellTyped(fs[..k])
    ensures var o := Merge(UpdateSchema(), fs, m);
      && o.state == Update(LastPayload(fs[..k], 1, m.authority), m.params)
      && (if fs[k].Number() <= 0 then o.error == IllegalTag
          else if !fs[k].Bytes? then o.error == WrongWireType
          else Decode(ParamsSchema(), fs[k].payload, ParamsValue) == Failed(o.error, ParamsValue))
  {
    hide Apply, Merge, LastPayload, UpdateSchema;
    k := FirstRefused(UpdateSchema(), fs, m);
    MergeOfUpdate(fs[..k], m);
    ApplyFails(fs[k], Merge(UpdateSchema(), fs[..k], m).state);
  }

  lemma ApplyFails(f: Field, m: Update)
    requires Apply(UpdateSchema(), f, m).Failed?
    ensures var o := Apply(UpdateSchema(), f, m);
      && o.state == m
      && (if f.Number() <= 0 then o.error == IllegalTag
          else if !f.Bytes? then o.error == WrongWireType
          else Decode(ParamsSchema(), f.payload, ParamsValue) == Failed(o.error, ParamsValue))
  {
    hide Decode;
    OneParams(Decode(ParamsSchema(), if f.Bytes? then f.payload else [], ParamsValue).state, ParamsValue);
    if f.Number() == 2 && f.Bytes? { ParamsPayload(f, m); }
  }

  lemma UpdateFieldsAreIndependent()
    ensures Independent(UpdateSchema())
  {
    hide Decode;
  }

  // ---- decoding what was encoded ------------------------------------------------------------------------------

  ghost function FieldsOf(m: Update): seq<Field> {
    OptionalField(AUTHORITY, m.authority) + [RecordField(PARAMS, [])]
  }

  lemma EncodeWritesFields(m: Update)
    ensures Writes(EncodeUpdate(m), FieldsOf(m))
  {
    hide RecordField, Record, OptionalRecord, OptionalField;
    OptionalIsField(AUTHORITY, m.authority);
    RecordIsField(PARAMS, []);
    FlattenOne(RecordField(PARAMS, []));
    FlattenAppend(OptionalField(AUTHORITY, m.authority), [RecordField(PARAMS, [])]);
  }

  lemma EmptyIsFieldList()
    ensures IsFieldList([])
  {
    assert Writes([], []) && Positive([]);
  }

  /** Decoding an encoded message into any message lays it over. */
  lemma DecodeOfEncode(m: Update, into: Update)
    requires |EncodeUpdate(m)| <= MAX_INT
    ensures Decode(UpdateSchema(), EncodeUpdate(m), into) == Done(Update(Over(m.authority, into.authority), m.params))
  {
    hide Decode, Merge, EncodeUpdate, IsFieldList;
    var fs := FieldsOf(m);
    EncodeWritesFields(m);
    DecodeOfFields(UpdateSchema(), fs, into);
    MergeOfUpdate(fs, into);
    OneParams(m.params, into.params);
    EmptyIsFieldList();
    RecordIsField(AUTHORITY, m.authority);
    RecordIsField(PARAMS, []);
    LastOfTwo(m, into);
  }

  lemma LastOfTwo(m: Update, into: Update)
    ensures LastPayload(FieldsOf(m), AUTHORITY, into.authority) == Over(m.authority, into.authority)
  {
    var f, p := RecordField(AUTHORITY, m.authority), RecordField(PARAMS, []);
    RecordIsField(AUTHORITY, m.authority);
    RecordIsField(PARAMS, []);
    LastOfOne(p, AUTHORITY, into.authority);
    LastOfOne(p, AUTHORITY, m.authority);
    if m.authority != [] {
      assert FieldsOf(m)[1..] == [p];
    } else {
      assert FieldsOf(m) == [p];
    }
  }

  lemma LastOfOne(f: Field, n: int, before: GoBytes)
    ensures LastPayload([f], n, before) == if f.Number() == n && f.Bytes? then f.payload else before
  {
    assert [f][1..] == [];
  }

  /** Marshal, then Unmarshal into a fresh message: the message comes back. */
  lemma UpdateRoundTrip(m: Update)
    requires |EncodeUpdate(m)| <= MAX_INT
    ensures Decode(UpdateSchema(), EncodeUpdate(m), ZERO) == Done(m)
  {
    hide Decode, EncodeUpdate;
    DecodeOfEncode(m, ZERO);
  }

  /** The fields of an encoding, in any order, and with any fields of other numbers strewn in, decode to the same
      message. */
  lemma UpdateRearranged(m: Update, gs: seq<Field>)
    requires |EncodeUpdate(m)| <= MAX_INT
    requires AllValid(gs) && |Flatten(gs)| <= MAX_INT && SameByNumber(UpdateSchema(), FieldsOf(m), gs)
    ensures Decode(UpdateSchema(), Flatten(gs), ZERO) == Done(m)
  {
    hide Decode, EncodeUpdate, FieldsOf, Independent, SameByNumber;
    UpdateRoundTrip(m);
    EncodeWritesFields(m);
    UpdateFieldsAreIndependent();
    DecodeByNumber(UpdateSchema(), FieldsOf(m), gs, ZERO, m);
  }

  // ---- the encoding is the shortest ---------------------------------------------------------------------------

  lemma StoreGrows(f: Field, m: Update)
    requires f.Valid() && Apply(UpdateSchema(), f, m).Done?
    ensures SizeOfUpdate(Apply(UpdateSchema(), f, m).state) <= SizeOfUpdate(m) + |f.Text()|
  {
    hide Decode, RecordSize;
    if f.Bytes? {
      RecordIsShortest(f);
      if f.Number() == PARAMS { ParamsPayload(f, m); }
    }
  }

  lemma {:induction false} MergeGrows(fs: seq<Field>, m: Update)
    requires AllValid(fs) && Merge(UpdateSchema(), fs, m).Done?
    ensures SizeOfUpdate(Merge(UpdateSchema(), fs, m).state) <= SizeOfUpdate(m) + |Flatten(fs)|
    decreases |fs|
  {
    hide Apply, SizeOfUpdate;
    if fs != [] {
      StoreGrows(fs[0], m);
      MergeGrows(fs[1..], Apply(UpdateSchema(), fs[0], m).state);
    }
  }

  /** An input that decodes to m is at most by the always emitted record of `Params` shorter than m's encoding. */
  lemma EncodingIsMinimal(s: seq<u8>, m: Update, after: Update)
    requires |s| <= MAX_INT && Decode(UpdateSchema(), s, m) == Done(after)
    ensures SizeOfUpdate(after) <= SizeOfUpdate(m) + |s|
    ensures SizeOfUpdate(ZERO) == 2
  {
    hide Merge, SizeOfUpdate;
    var fs := FieldsOfDecode(UpdateSchema(), s, 0, m);
    assert s[0..] == s;
    MergeGrows(fs, m);
    ZeroSize();
  }

  lemma ZeroSize()
    ensures SizeOfUpdate(ZERO) == 2
  {
    SovIsLength(0);
  }

  // ---- normal forms -------------------------------------------------------------------------------------------

  /** What decoding into a fresh message gives. */
  ghost function Decoded(s: seq<u8>): Update
    requires |s| <= MAX_INT
  {
    Decode(UpdateSchema(), s, ZERO).state
  }

  /** Decoding and encoding again brings every accepted input to a normal form: it fits into a slice if the input
      leaves two bytes free, it is accepted, it means the same, and it is its own normal form. */
  lemma ReencodeNormalises(s: seq<u8>)
    requires |s| <= MAX_INT && Decode(UpdateSchema(), s, ZERO).Done?
    ensures var again := EncodeUpdate(Decoded(s));
      && |again| <= |s| + 2
      && (|again| <= MAX_INT ==>
            Decode(UpdateSchema(), again, ZERO) == Done(Decoded(s)) && EncodeUpdate(Decoded(again)) == again)
  {
    hide Decode, EncodeUpdate, SizeOfUpdate;
    var m := Decoded(s);
    EncodingIsMinimal(s, ZERO, m);
    SizeIsLength(m);
    if |EncodeUpdate(m)| <= MAX_INT { UpdateRoundTrip(m); }
  }

  // ---- truncated encodings ------------------------------------------------------------------------------------

  /** Truncation is detected. A proper prefix of an encoding that ends in front of one of its two fields, the empty
      prefix included, decodes to the message without the fields behind the cut; any other is refused as incomplete,
      and the message holds the authority if its record lies in front of the cut. The cut lies in front of or inside
      field k. */
  lemma TruncatedUpdate(m: Update, cut: nat) returns (k: nat)
    requires cut < |EncodeUpdate(m)| <= MAX_INT
    ensures k < |FieldsOf(m)|
    ensures |Flatten(FieldsOf(m)[..k])| <= cut < |Flatten(FieldsOf(m)[..k])| + |FieldsOf(m)[k].Text()|
    ensures var end := |OptionalRecord(AUTHORITY, m.authority)|;
      var kept := Update(if end <= cut then m.authority else [], ParamsValue);
      && (cut == 0 || cut == end <==> cut == |Flatten(FieldsOf(m)[..k])|)
      && Decode(UpdateSchema(), EncodeUpdate(m)[..cut], ZERO) ==
           if cut == 0 || cut == end then Done(kept) else Failed(UnexpectedEOF, kept)
  {
    hide Decode, Merge, EncodeUpdate, IsFieldList, UpdateSchema, RecordField, Record, Flatten, Field.Text;
    var sc := UpdateSchema();
    var a := OptionalField(AUTHORITY, m.authority);
    EncodeWritesFields(m);
    UpdateRoundTrip(m);
    DecodeOfFields(sc, FieldsOf(m), ZERO);
    OptionalIsField(AUTHORITY, m.authority);
    RecordIsField(AUTHORITY, m.authority);
    RecordIsField(PARAMS, []);
    PrefixesMerged(m);
    EncodingEnds(m);
    k := if cut < |OptionalRecord(AUTHORITY, m.authority)| then 0 else |a|;
    assert FieldsOf(m)[..k] == if k == 0 then [] else a;
    DecodeTruncated(sc, FieldsOf(m), k, cut, ZERO);
  }

  lemma EncodingEnds(m: Update)
    ensures |EncodeUpdate(m)| == |OptionalRecord(AUTHORITY, m.authority)| + |Record(PARAMS, [])|
  {
  }

  lemma PrefixesMerged(m: Update)
    ensures Flatten([]) == [] && Merge(UpdateSchema(), [], ZERO) == Done(ZERO)
    ensures Merge(UpdateSchema(), OptionalField(AUTHORITY, m.authority), ZERO) == Done(Update(m.authority, ParamsValue))
  {
    hide RecordField;
    RecordIsField(AUTHORITY, m.authority);
    IsBytes(AUTHORITY, m.authority);
    MergeOne(UpdateSchema(), RecordField(AUTHORITY, m.authority), ZERO);
  }

  lemma IsBytes(number: nat, payload: GoBytes)
    requires 0 < number < 16
    ensures RecordField(number, payload).Bytes? && RecordField(number, payload).payload == payload
  {
  }

  // ---- the message as the program has it ----------------------------------------------------------------------

  class MsgUpdateParams {
    var authority: GoBytes
    const params: Params

    constructor ()
      ensures Value() == ZERO
    {
      authority := [];
      params := new Params();
    }

    function Value(): Update
      reads this
    {
      Update(authority, params.Value())
    }

    /** An int sum, which does not overflow as long as the encoding fits into a slice. */
    method Size() returns (n: int)
      requires |EncodeUpdate(Value())| <= MAX_INT
      ensures n == |EncodeUpdate(Value())|
    {
      SizeIsLength(Value());
      n := 0;
      var l := |authority|;
      if l > 0 {
        n := Int64(n + 1 + l + Sov(l));
      }
      l := params.Size();
      n := Int64(n + 1 + l + Sov(l));
    }

    /** Fills dAtA from the end: the last bytes are the encoding, and no byte in front of it is touched. */
    method MarshalToSizedBuffer(dAtA: Slice) returns (n: int)
      requires dAtA.Valid() && |EncodeUpdate(Value())| <= dAtA.Len()
      modifies dAtA.buf
      ensures n == |EncodeUpdate(Value())|
      ensures EndsWith(dAtA, dAtA.Len() - n, EncodeUpdate(Value()))
      ensures OnlyChanged(dAtA, old(dAtA.buf[..]), dAtA.Len() - n, dAtA.Len())
    {
      hide EndsWith, SameOutside, Sov, Encode;
      SizeIsLength(Value());
      ghost var was := dAtA.buf[..];
      var i := dAtA.Len();
      NothingWritten(dAtA);
      var size := params.MarshalToSizedBuffer(dAtA.To(i));
      i := i - size;
      i := PutHeader(dAtA, i, PARAMS, size, []);
      ghost var t := Record(PARAMS, []);
      assert [TagByte(PARAMS)] + Encode(size) + [] == t;
      if |authority| > 0 {
        i, t := PutNext(dAtA, i, AUTHORITY, authority, t, was);
      }
      assert t == EncodeUpdate(Value());
      return dAtA.Len() - i;
    }

    /** Fills the first bytes of dAtA. */
    method MarshalTo(dAtA: Slice) returns (n: int)
      requires dAtA.Valid() && |EncodeUpdate(Value())| <= dAtA.buf.Length - dAtA.lo
      modifies dAtA.buf
      ensures n == |EncodeUpdate(Value())|
      ensures dAtA.buf[dAtA.lo..dAtA.lo + n] == EncodeUpdate(Value())
      ensures SameOutside(dAtA.buf[..], old(dAtA.buf[..]), dAtA.lo, dAtA.lo + n)
    {
      hide EncodeUpdate, SameOutside;
      var size := Size();
      n := MarshalToSizedBuffer(dAtA.To(size));
    }

    method Marshal() returns (dAtA: Slice)
      requires |EncodeUpdate(Value())| <= MAX_INT
      ensures dAtA.Valid() && fresh(dAtA.buf) && dAtA.View() == EncodeUpdate(Value())
    {
      hide EncodeUpdate;
      var size := Size();
      var buf := new u8[size];
      dAtA := Slice(buf, 0, size);
      var n := MarshalToSizedBuffer(dAtA.To(size));
      dAtA := dAtA.To(n);
    }

    /** Merges dAtA into the message. Accepted is exactly what the grammar and the merge accept; what is reported,
        and the message left behind, are those of the specification in every case. */
    method Unmarshal(dAtA: Slice) returns (err: Option<Error>)
      requires dAtA.Valid()
      modifies this
      ensures match Decode(UpdateSchema(), dAtA.View(), old(Value()))
        case Done(after) => err == None && Value() == after
        case Failed(e, after) => err == Some(e) && Value() == after
      ensures err.None? <==> MergesTo(UpdateSchema(), dAtA.View(), old(Value()), Value())
    {
      hide DecodePass, MergesTo, Store, UpdateSchema, ParamsSchema, TagFrom, SpanFrom, SkipTo, IsFieldList;
      ghost var s := dAtA.View();
      ghost var sc := UpdateSchema();
      ghost var before := Value();
      ghost var result := Decode(sc, s, before);
      DecodeIsMerge(sc, s, before, result.state);
      var l := dAtA.Len();
      var iNdEx := 0;
      while iNdEx < l
        invariant 0 <= iNdEx <= l
        invariant result == DecodeFrom(sc, s, iNdEx, Value())
      {
        var preIndex := iNdEx;
        ghost var m := Value();
        PassOfUpdate(s, iNdEx, m);
        var tag := ReadTag(dAtA, iNdEx);
        if tag.Err? {
          return Some(tag.error);
        }
        iNdEx := iNdEx + tag.value.size;
        var fieldNum := tag.value.number;
        if fieldNum == AUTHORITY || fieldNum == PARAMS {
          if tag.value.wireType != LENGTH_DELIMITED {
            return Some(WrongWireType);
          }
          var span := ReadSpan(dAtA, iNdEx);
          if span.Err? {
            return Some(span.error);
          }
          var stored := StoreField(fieldNum, dAtA.Sub(span.value.lo, span.value.hi));
          if stored.Some? {
            return stored;
          }
          iNdEx := span.value.hi;
        } else {
          var next := SkipUnknown(dAtA, preIndex);
          if next.Err? {
            return Some(next.error);
          }
          iNdEx := next.value;
        }
      }
      return None;
    }

    /** The cases of the decoder's switch, once their payload is found. */
    method StoreField(fieldNum: int, payload: Slice) returns (err: Option<Error>)
      requires payload.Valid() && (fieldNum == AUTHORITY || fieldNum == PARAMS)
      modifies this
      ensures match Store(old(Value()), fieldNum, payload.View())
        case Done(after) => err == None && Value() == after
        case Failed(e, after) => err == Some(e) && Value() == after
    {
      hide Decode, ParamsSchema, IsFieldList;
      if fieldNum == AUTHORITY {
        authority := payload.Text();
        return None;
      }
      err := params.Unmarshal(payload);
      OneParams(Decode(ParamsSchema(), payload.View(), ParamsValue).state, ParamsValue);
    }
  }

  /** One pass, with this message's switch written out. */
  lemma PassOfUpdate(s: seq<u8>, i: nat, m: Update)
    requires i < |s| <= MAX_INT
    ensures DecodePass(UpdateSchema(), s, i, m) ==
      match TagFrom(s, i)
      case Err(e) => Stop(e, m)
      case Ok(tag) =>
        if tag.number == AUTHORITY || tag.number == PARAMS then
          if tag.wireType != LENGTH_DELIMITED then Stop(WrongWireType, m)
          else
            match SpanFrom(s, i + tag.size)
            case Err(e) => Stop(e, m)
            case Ok(span) => AsPass(Store(m, tag.number, s[span.lo..span.hi]), span.hi)
        else
          match SkipTo(s, i)
          case Err(e) => Stop(e, m)
          case Ok(next) => Next(next, m)
  {
    hide TagFrom, SpanFrom, SkipTo, Store;
  }
}
