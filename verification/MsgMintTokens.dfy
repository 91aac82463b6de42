/** The request to mint tokens: its encoder, its decoder, and what they mean to each other. */
module MintMessage {
  import opened Machine
  import opened Results
  import opened Slices
  import opened Varint
  import opened Wire
  import opened Decoder
  import opened DecodeGrammar
  import opened DecodeLaws
  import opened Records

  // ---- the amount ---------------------------------------------------------------------------------------------

  /** The library type of the amount, as the message sees it. An amount is named by the bytes it marshals to; zero
      is the amount of a message that has not been written to, and unmarshal says what becomes of an amount when it
      reads a payload. */
  datatype AmountCodec = AmountCodec(zero: GoBytes, unmarshal: (GoBytes, GoBytes) -> Outcome<GoBytes>) {
    /** A fresh message gets the amount back from what it marshals to. */
    predicate Readable(amount: GoBytes) {
      unmarshal(zero, amount) == Done(amount)
    }

    /** The library's own round trip: every amount that decoding can produce is readable. */
    ghost predicate Lawful() {
      && Readable(zero)
      && forall a, p | Readable(a) && unmarshal(a, p).Done? :: Readable(unmarshal(a, p).state)
    }

    /** Reading a payload adds no more to the record of the amount than the record of the payload takes. */
    ghost predicate Lean() {
      forall a, p | RecordSize(p) <= MAX_INT && unmarshal(a, p).Done? ::
        RecordSize(unmarshal(a, p).state) <= RecordSize(a) + RecordSize(p)
    }
  }

  /** The simplest library: any payload is an amount and is kept as it is. */
  function PlainAmounts(): AmountCodec {
    AmountCodec([], (a, p) => Done(p))
  }

  lemma PlainAmountsAreLawful()
    ensures PlainAmounts().Lawful() && PlainAmounts().Lean()
    ensures forall amount :: PlainAmounts().Readable(amount)
  {
  }

  /** A library that normalises a short spelling to a longer one. */
  function ExpandingAmounts(): AmountCodec {
    AmountCodec([], (a, p) => Done(if p == [1] then [2, 2, 2, 2] else p))
  }

  /** Lawful libraries need not be Lean. */
  lemma ExpandingAmountsAreNotLean()
    ensures ExpandingAmounts().Lawful() && !ExpandingAmounts().Lean()
  {
    hide Sov;
    var codec := ExpandingAmounts();
    var p: GoBytes := [1];
    SovIsLength(0);
    SovIsLength(1);
    SovIsLength(4);
    assert codec.unmarshal([], p) == Done([2, 2, 2, 2]);
    assert RecordSize(p) == 3 && RecordSize([]) == 2 && RecordSize([2, 2, 2, 2]) == 6;
  }

  // ---- the message --------------------------------------------------------------------------------------------

  datatype Mint = Mint(authority: GoBytes, recipient: GoBytes, amount: GoBytes, denom: GoBytes)

  function Zero(codec: AmountCodec): Mint {
    Mint([], [], codec.zero, [])
  }

  const AUTHORITY := 1
  const RECIPIENT := 2
  const AMOUNT := 3
  const DENOM := 4

  function Store(codec: AmountCodec, m: Mint, number: int, payload: GoBytes): Outcome<Mint> {
    if number == AUTHORITY then Done(m.(authority := payload))
    else if number == RECIPIENT then Done(m.(recipient := payload))
    else if number == AMOUNT then
      match codec.unmarshal(m.amount, payload)
      case Done(amount) => Done(m.(amount := amount))
      case Failed(e, amount) => Failed(e, m.(amount := amount))
    else Done(m.(denom := payload))
  }

  function MintSchema(codec: AmountCodec): Schema<Mint> {
    Schema(n => AUTHORITY <= n <= DENOM, (m, n, p) => Store(codec, m, n, p))
  }

  /** The encoding, from front to back. */
  ghost function EncodeMint(m: Mint): seq<u8> {
    OptionalRecord(AUTHORITY, m.authority) + OptionalRecord(RECIPIENT, m.recipient)
    + Record(AMOUNT, m.amount) + OptionalRecord(DENOM, m.denom)
  }

  /** The same, byte by byte. */
  lemma MintBytes(m: Mint)
    ensures EncodeMint(m) ==
      (if m.authority == [] then [] else [0x0a] + Encode(|m.authority|) + m.authority)
      + (if m.recipient == [] then [] else [0x12] + Encode(|m.recipient|) + m.recipient)
      + ([0x1a] + Encode(|m.amount|) + m.amount)
      + (if m.denom == [] then [] else [0x22] + Encode(|m.denom|) + m.denom)
  {
  }

  function SizeOfMint(m: Mint): nat {
    OptionalSize(m.authority) + OptionalSize(m.recipient) + RecordSize(m.amount) + OptionalSize(m.denom)
  }

  lemma SizeIsLength(m: Mint)
    ensures SizeOfMint(m) == |EncodeMint(m)|
  {
    RecordLength(AUTHORITY, m.authority);
    RecordLength(RECIPIENT, m.recipient);
    RecordLength(AMOUNT, m.amount);
    RecordLength(DENOM, m.denom);
  }

  // ---- what a decoded message is ------------------------------------------------------------------------------

  /** All payloads of the amount field, read one after the other. */
  ghost function Amounts(codec: AmountCodec, fs: seq<Field>, before: GoBytes): Outcome<GoBytes> {
    if fs == [] then Done(before)
    else if fs[0].Number() == 3 && fs[0].Bytes? then
      match codec.unmarshal(before, fs[0].payload)
      case Failed(e, amount) => Failed(e, amount)
      case Done(amount) => Amounts(codec, fs[1..], amount)
    else Amounts(codec, fs[1..], before)
  }

  /** No field number is illegal, and the four known fields are length-delimited. */
  ghost predicate WellTyped(fs: seq<Field>) {
    forall f <- fs :: f.Number() > 0 && (1 <= f.Number() <= 4 ==> f.Bytes?)
  }

  /** The decoded message, field by field: the last one wins, and the amount is what the library makes of all its
      payloads. */
  lemma {:induction false} MergeOfMint(codec: AmountCodec, fs: seq<Field>, m: Mint)
    ensures var o := Merge(MintSchema(codec), fs, m);
      && (o.Done? <==> WellTyped(fs) && Amounts(codec, fs, m.amount).Done?)
      && (o.Done? ==> o.state == Mint(LastPayload(fs, 1, m.authority),
                                      LastPayload(fs, 2, m.recipient),
                                      Amounts(codec, fs, m.amount).state,
                                      LastPayload(fs, 4, m.denom)))
    decreases |fs|
  {
    if fs != [] {
      assert fs == [fs[0]] + fs[1..];
      var o := Apply(MintSchema(codec), fs[0], m);
      if o.Done? { MergeOfMint(codec, fs[1..], o.state); }
    }
  }

  /** One field merged into a message, by the bits of its tag: the 32 above the wire type are its number, and must be
      positive as an int32. Numbers 1 to 4 need a payload; what the library refuses of an amount is refused with its
      error, and only the amount is touched; all other numbers leave the message as it is. */
  lemma MintField(codec: AmountCodec, f: Field, m: Mint)
    ensures var number := Value(f.tag) / 8 % 0x1_0000_0000;
      Apply(MintSchema(codec), f, m) ==
        if number == 0 || number >= 0x8000_0000 then Failed(IllegalTag, m)
        else if number > 4 then Done(m)
        else if !f.Bytes? then Failed(WrongWireType, m)
        else if number == 1 then Done(Mint(f.payload, m.recipient, m.amount, m.denom))
        else if number == 2 then Done(Mint(m.authority, f.payload, m.amount, m.denom))
        else if number == 4 then Done(Mint(m.authority, m.recipient, m.amount, f.payload))
        else
          match codec.unmarshal(m.amount, f.payload)
          case Done(amount) => Done(Mint(m.authority, m.recipient, amount, m.denom))
          case Failed(e, amount) => Failed(e, Mint(m.authority, m.recipient, amount, m.denom))
  {
    NumberFromBits(Value(f.tag));
  }

  /** The same for a field as it stands in the input, decoded on its own. */
  lemma MintFieldDecoded(codec: AmountCodec, f: Field, m: Mint)
    requires f.Valid() && |f.Text()| <= MAX_INT
    ensures Decode(MintSchema(codec), f.Text(), m) == Apply(MintSchema(codec), f, m)
  {
    hide Decode, Apply;
    FlattenOne(f);
    DecodeOfFields(MintSchema(codec), [f], m);
    MergeOne(MintSchema(codec), f, m);
  }

  /** A merge that fails, fails at its first refused field: with that field's error, and with the message that the
      fields before it have made, but for the amount that the library leaves if it is an amount it refuses. */
  lemma {:induction false} MergeOfMintFails(codec: AmountCodec, fs: seq<Field>, m: Mint) returns (k: nat)
    requires Merge(MintSchema(codec), fs, m).Failed?
    ensures k < |fs| && WellTyped(fs[..k]) && Amounts(codec, fs[..k], m.amount).Done?
    ensures var o := Merge(MintSchema(codec), fs, m);
      var before := Mint(LastPayload(fs[..k], 1, m.authority), LastPayload(fs[..k], 2, m.recipient),
                         Amounts(codec, fs[..k], m.amount).state, LastPayload(fs[..k], 4, m.denom));
      if WellTyped([fs[k]])
      then fs[k].Number() == 3 && codec.unmarshal(before.amount, fs[k].payload).Failed?
        && o == Failed(codec.unmarshal(before.amount, fs[k].payload).error,
                       before.(amount := codec.unmarshal(before.amount, fs[k].payload).state))
      else o == Failed(if fs[k].Number() <= 0 then IllegalTag else WrongWireType, before)
  {
    hide Apply, Merge, LastPayload, Amounts, MintSchema;
    k := FirstRefused(MintSchema(codec), fs, m);
    MergeOfMint(codec, fs[..k], m);
    ApplyFails(codec, fs[k], Merge(MintSchema(codec), fs[..k], m).state);
  }

  lemma ApplyFails(codec: AmountCodec, f: Field, m: Mint)
    requires Apply(MintSchema(codec), f, m).Failed?
    ensures if WellTyped([f])
      then f.Number() == 3 && f.Bytes? && codec.unmarshal(m.amount, f.payload).Failed?
        && Apply(MintSchema(codec), f, m) == Failed(codec.unmarshal(m.amount, f.payload).error,
                                                    m.(amount := codec.unmarshal(m.amount, f.payload).state))
      else Apply(MintSchema(codec), f, m) == Failed(if f.Number() <= 0 then IllegalTag else WrongWireType, m)
  {
  }

  lemma MintFieldsAreIndependent(codec: AmountCodec)
    ensures Independent(MintSchema(codec))
  {
  }

  // ---- decoding what was encoded ------------------------------------------------------------------------------

  ghost function FieldsOf(m: Mint): seq<Field> {
    OptionalField(AUTHORITY, m.authority) + OptionalField(RECIPIENT, m.recipient)
    + [RecordField(AMOUNT, m.amount)] + OptionalField(DENOM, m.denom)
  }

  lemma EncodeWritesFields(m: Mint)
    ensures Writes(EncodeMint(m), FieldsOf(m))
  {
    hide RecordField, Record, OptionalRecord, OptionalField;
    OptionalIsField(AUTHORITY, m.authority);
    OptionalIsField(RECIPIENT, m.recipient);
    RecordIsField(AMOUNT, m.amount);
    OptionalIsField(DENOM, m.denom);
    var a := OptionalField(AUTHORITY, m.authority);
    var r := OptionalField(RECIPIENT, m.recipient);
    var q := [RecordField(AMOUNT, m.amount)];
    FlattenOne(RecordField(AMOUNT, m.amount));
    FlattenAppend(a, r);
    FlattenAppend(a + r, q);
    FlattenAppend(a + r + q, OptionalField(DENOM, m.denom));
  }

  lemma MergeOptional(codec: AmountCodec, number: nat, payload: GoBytes, m: Mint)
    requires number == AUTHORITY || number == RECIPIENT || number == DENOM
    ensures Merge(MintSchema(codec), OptionalField(number, payload), m) ==
      if payload == [] then Done(m) else Store(codec, m, number, payload)
  {
    RecordIsField(number, payload);
    MergeOne(MintSchema(codec), RecordField(number, payload), m);
  }

  /** Decoding an encoded message into any message lays it over. */
  lemma DecodeOfEncode(codec: AmountCodec, m: Mint, into: Mint)
    requires |EncodeMint(m)| <= MAX_INT && codec.unmarshal(into.amount, m.amount).Done?
    ensures Decode(MintSchema(codec), EncodeMint(m), into) ==
      Done(Mint(Over(m.authority, into.authority), Over(m.recipient, into.recipient),
                codec.unmarshal(into.amount, m.amount).state, Over(m.denom, into.denom)))
  {
    hide Decode, Merge, MintSchema, Record, OptionalRecord, OptionalField, RecordField;
    EncodeWritesFields(m);
    var sc := MintSchema(codec);
    DecodeOfFields(sc, FieldsOf(m), into);
    var a := OptionalField(AUTHORITY, m.authority);
    var r := OptionalField(RECIPIENT, m.recipient);
    var q := [RecordField(AMOUNT, m.amount)];
    var d := OptionalField(DENOM, m.denom);
    MergeAppend(sc, a + r + q, d, into);
    MergeAppend(sc, a + r, q, into);
    MergeAppend(sc, a, r, into);
    MergeOptional(codec, AUTHORITY, m.authority, into);
    var m1 := into.(authority := Over(m.authority, into.authority));
    MergeOptional(codec, RECIPIENT, m.recipient, m1);
    var m2 := m1.(recipient := Over(m.recipient, into.recipient));
    MergeAmount(codec, m.amount, m2);
    var m3 := m2.(amount := codec.unmarshal(into.amount, m.amount).state);
    MergeOptional(codec, DENOM, m.denom, m3);
  }

  lemma MergeAmount(codec: AmountCodec, payload: GoBytes, m: Mint)
    ensures Merge(MintSchema(codec), [RecordField(AMOUNT, payload)], m) == Store(codec, m, AMOUNT, payload)
  {
    RecordIsField(AMOUNT, payload);
    MergeOne(MintSchema(codec), RecordField(AMOUNT, payload), m);
  }

  /** Marshal, then Unmarshal into a fresh message: the message comes back. */
  lemma MintRoundTrip(codec: AmountCodec, m: Mint)
    requires |EncodeMint(m)| <= MAX_INT && codec.Readable(m.amount)
    ensures Decode(MintSchema(codec), EncodeMint(m), Zero(codec)) == Done(m)
  {
    hide Decode, EncodeMint;
    DecodeOfEncode(codec, m, Zero(codec));
  }

  /** The encoder writes its fields in ascending order. */
  lemma FieldsAscend(m: Mint)
    ensures forall i, j | 0 <= i < j < |FieldsOf(m)| :: FieldsOf(m)[i].Number() < FieldsOf(m)[j].Number()
  {
    hide RecordField, Field.Number;
    RecordIsField(AUTHORITY, m.authority);
    RecordIsField(RECIPIENT, m.recipient);
    RecordIsField(AMOUNT, m.amount);
    RecordIsField(DENOM, m.denom);
  }

  /** The fields of an encoding, in any order, and with any fields of other numbers strewn in, decode to the same
      message. */
  lemma MintRearranged(codec: AmountCodec, m: Mint, gs: seq<Field>)
    requires |EncodeMint(m)| <= MAX_INT && codec.Readable(m.amount)
    requires AllValid(gs) && |Flatten(gs)| <= MAX_INT && SameByNumber(MintSchema(codec), FieldsOf(m), gs)
    ensures Decode(MintSchema(codec), Flatten(gs), Zero(codec)) == Done(m)
  {
    hide Decode, EncodeMint, FieldsOf, Independent, SameByNumber;
    MintRoundTrip(codec, m);
    EncodeWritesFields(m);
    MintFieldsAreIndependent(codec);
    DecodeByNumber(MintSchema(codec), FieldsOf(m), gs, Zero(codec), m);
  }

  /** So does every permutation of an encoding's fields. */
  lemma MintPermuted(codec: AmountCodec, m: Mint, gs: seq<Field>)
    requires |EncodeMint(m)| <= MAX_INT && codec.Readable(m.amount)
    requires |Flatten(gs)| <= MAX_INT && multiset(gs) == multiset(FieldsOf(m))
    ensures Decode(MintSchema(codec), Flatten(gs), Zero(codec)) == Done(m)
  {
    hide Decode, EncodeMint, FieldsOf, Independent;
    MintRoundTrip(codec, m);
    EncodeWritesFields(m);
    MintFieldsAreIndependent(codec);
    forall n ensures |Only(FieldsOf(m), n)| <= 1 {
      EachNumberOnce(m, n);
    }
    FieldsArePositive(m);
    DecodePermuted(MintSchema(codec), FieldsOf(m), gs, Zero(codec), m);
  }

  lemma EachNumberOnce(m: Mint, n: int)
    ensures |Only(FieldsOf(m), n)| <= 1
  {
    hide RecordField;
    RecordIsField(AUTHORITY, m.authority);
    RecordIsField(RECIPIENT, m.recipient);
    RecordIsField(AMOUNT, m.amount);
    RecordIsField(DENOM, m.denom);
    var a := OptionalField(AUTHORITY, m.authority);
    var r := OptionalField(RECIPIENT, m.recipient);
    var q := [RecordField(AMOUNT, m.amount)];
    var d := OptionalField(DENOM, m.denom);
    OnlyAppend(a + r + q, d, n);
    OnlyAppend(a + r, q, n);
    OnlyAppend(a, r, n);
    OnlyOfOne(RecordField(AUTHORITY, m.authority), n);
    OnlyOfOne(RecordField(RECIPIENT, m.recipient), n);
    OnlyOfOne(RecordField(AMOUNT, m.amount), n);
    OnlyOfOne(RecordField(DENOM, m.denom), n);
  }

  lemma OnlyOfOne(f: Field, n: int)
    ensures Only([f], n) == if f.Number() == n then [f] else []
  {
    assert [f][1..] == [];
  }

  lemma FieldsArePositive(m: Mint)
    ensures Positive(FieldsOf(m))
  {
    RecordIsField(AUTHORITY, m.authority);
    RecordIsField(RECIPIENT, m.recipient);
    RecordIsField(AMOUNT, m.amount);
    RecordIsField(DENOM, m.denom);
  }

  /** Different messages have different encodings. */
  lemma EncodeIsInjective(codec: AmountCodec, m: Mint, n: Mint)
    requires |EncodeMint(m)| <= MAX_INT && codec.Readable(m.amount) && codec.Readable(n.amount)
    requires EncodeMint(m) == EncodeMint(n)
    ensures m == n
  {
    hide Decode, EncodeMint;
    MintRoundTrip(codec, m);
    MintRoundTrip(codec, n);
  }

  // ---- normal forms -------------------------------------------------------------------------------------------

  lemma {:induction false} AmountStaysReadable(codec: AmountCodec, fs: seq<Field>, before: GoBytes)
    requires codec.Lawful() && codec.Readable(before) && Amounts(codec, fs, before).Done?
    ensures codec.Readable(Amounts(codec, fs, before).state)
    decreases |fs|
  {
    hide codec.Readable;
    if fs != [] {
      if fs[0].Number() == AMOUNT && fs[0].Bytes? {
        AmountStaysReadable(codec, fs[1..], codec.unmarshal(before, fs[0].payload).state);
      } else {
        AmountStaysReadable(codec, fs[1..], before);
      }
    }
  }

  /** What decoding into a fresh message gives. */
  ghost function Decoded(codec: AmountCodec, s: seq<u8>): Mint
    requires |s| <= MAX_INT
  {
    Decode(MintSchema(codec), s, Zero(codec)).state
  }

  lemma DecodedIsReadable(codec: AmountCodec, s: seq<u8>)
    requires |s| <= MAX_INT && codec.Lawful() && Decode(MintSchema(codec), s, Zero(codec)).Done?
    ensures codec.Readable(Decoded(codec, s).amount)
  {
    hide Merge, Amounts;
    var fs := FieldsOfDecode(MintSchema(codec), s, 0, Zero(codec));
    MergeOfMint(codec, fs, Zero(codec));
    AmountStaysReadable(codec, fs, codec.zero);
  }

  // ---- the encoding is the shortest ---------------------------------------------------------------------------

  /** What a message takes up beside its amount. */
  ghost function SizeBesideAmount(m: Mint): nat {
    SizeOfMint(m) - RecordSize(m.amount)
  }

  lemma StoreGrows(codec: AmountCodec, f: Field, m: Mint)
    requires f.Valid() && |f.Text()| <= MAX_INT && Apply(MintSchema(codec), f, m).Done?
    ensures var after := Apply(MintSchema(codec), f, m).state;
      && SizeBesideAmount(after) <= SizeBesideAmount(m) + |f.Text()|
      && (codec.Lean() ==> SizeOfMint(after) <= SizeOfMint(m) + |f.Text()|)
  {
    hide Sov, Field.Number, Field.Text;
    if f.Bytes? { RecordIsShortest(f); }
  }

  lemma {:induction false} MergeGrows(codec: AmountCodec, fs: seq<Field>, m: Mint)
    requires AllValid(fs) && |Flatten(fs)| <= MAX_INT && Merge(MintSchema(codec), fs, m).Done?
    ensures var after := Merge(MintSchema(codec), fs, m).state;
      && SizeBesideAmount(after) <= SizeBesideAmount(m) + |Flatten(fs)|
      && (codec.Lean() ==> SizeOfMint(after) <= SizeOfMint(m) + |Flatten(fs)|)
    decreases |fs|
  {
    hide Apply, SizeBesideAmount, SizeOfMint, AmountCodec.Lean;
    if fs != [] {
      StoreGrows(codec, fs[0], m);
      MergeGrows(codec, fs[1..], Apply(MintSchema(codec), fs[0], m).state);
    }
  }

  /** Decoding adds no more to a message's size than it has read; so the encoding of a decoded message is at most by
      the always emitted amount field longer than any input that decodes to it. */
  lemma EncodingIsMinimal(codec: AmountCodec, s: seq<u8>, m: Mint, after: Mint)
    requires |s| <= MAX_INT && Decode(MintSchema(codec), s, m) == Done(after)
    ensures SizeBesideAmount(after) <= SizeBesideAmount(m) + |s|
    ensures codec.Lean() ==> SizeOfMint(after) <= SizeOfMint(m) + |s|
  {
    hide Merge, SizeBesideAmount, SizeOfMint, AmountCodec.Lean;
    var fs := FieldsOfDecode(MintSchema(codec), s, 0, m);
    assert s[0..] == s;
    MergeGrows(codec, fs, m);
  }

  /** No input makes any message grow by more than its length. */
  ghost predicate Minimal(codec: AmountCodec) {
    forall s: GoBytes, m: Mint | Decode(MintSchema(codec), s, m).Done? ::
      SizeOfMint(Decode(MintSchema(codec), s, m).state) <= SizeOfMint(m) + |s|
  }

  /** For the whole message, amount included, that holds exactly for the libraries that do not write an amount at
      greater length than they read it. */
  lemma MinimalExactlyIfLean(codec: AmountCodec)
    ensures Minimal(codec) <==> codec.Lean()
  {
    hide Decode, SizeOfMint;
    if codec.Lean() {
      forall s: GoBytes, m: Mint | Decode(MintSchema(codec), s, m).Done?
        ensures SizeOfMint(Decode(MintSchema(codec), s, m).state) <= SizeOfMint(m) + |s|
      {
        EncodingIsMinimal(codec, s, m, Decode(MintSchema(codec), s, m).state);
      }
    }
    if Minimal(codec) {
      forall a, p | RecordSize(p) <= MAX_INT && codec.unmarshal(a, p).Done?
        ensures RecordSize(codec.unmarshal(a, p).state) <= RecordSize(a) + RecordSize(p)
      {
        OneAmount(codec, a, p);
      }
    }
  }

  lemma OneAmount(codec: AmountCodec, a: GoBytes, p: GoBytes)
    requires Minimal(codec) && RecordSize(p) <= MAX_INT && codec.unmarshal(a, p).Done?
    ensures RecordSize(codec.unmarshal(a, p).state) <= RecordSize(a) + RecordSize(p)
  {
    hide Decode, Merge, MintSchema, Record, RecordField;
    var f := RecordField(AMOUNT, p);
    RecordIsField(AMOUNT, p);
    RecordLength(AMOUNT, p);
    FlattenOne(f);
    var s: GoBytes := Record(AMOUNT, p);
    var m := Mint([], [], a, []);
    MergeAmount(codec, p, m);
    DecodeOfFields(MintSchema(codec), [f], m);
    assert Decode(MintSchema(codec), s, m).Done?;
  }

  lemma MinimalFromZero(s: seq<u8>, after: Mint)
    requires |s| <= MAX_INT && Decode(MintSchema(PlainAmounts()), s, Zero(PlainAmounts())) == Done(after)
    ensures SizeOfMint(after) <= |s| + 2
  {
    hide Decode;
    PlainAmountsAreLawful();
    EncodingIsMinimal(PlainAmounts(), s, Zero(PlainAmounts()), after);
    assert Sov(0) == 1 by { SovIsLength(0); }
  }

  // ---- the re-encoding ----------------------------------------------------------------------------------------

  /** Decoding and encoding again brings every accepted input to a normal form: if it fits into a slice, it is
      accepted, it means the same, and it is its own normal form. If the library is Lean, it is at most by the record
      of the zero amount longer than the input. */
  lemma ReencodeNormalises(codec: AmountCodec, s: seq<u8>)
    requires |s| <= MAX_INT && codec.Lawful() && Decode(MintSchema(codec), s, Zero(codec)).Done?
    ensures var again := EncodeMint(Decoded(codec, s));
      && (codec.Lean() ==> |again| <= |s| + RecordSize(codec.zero))
      && (|again| <= MAX_INT ==>
            && Decode(MintSchema(codec), again, Zero(codec)) == Done(Decoded(codec, s))
            && EncodeMint(Decoded(codec, again)) == again)
  {
    hide Decode, EncodeMint, SizeOfMint, AmountCodec.Lawful, AmountCodec.Readable, AmountCodec.Lean;
    var m := Decoded(codec, s);
    DecodedIsReadable(codec, s);
    EncodingIsMinimal(codec, s, Zero(codec), m);
    SizeIsLength(m);
    ZeroSize(codec);
    if |EncodeMint(m)| <= MAX_INT { MintRoundTrip(codec, m); }
  }

  lemma ZeroSize(codec: AmountCodec)
    ensures SizeOfMint(Zero(codec)) == RecordSize(codec.zero)
  {
  }

  // ---- truncated encodings ------------------------------------------------------------------------------------

  /** Where the first records of an encoding end. */
  ghost function AuthorityEnd(m: Mint): nat {
    |OptionalRecord(AUTHORITY, m.authority)|
  }

  ghost function RecipientEnd(m: Mint): nat {
    AuthorityEnd(m) + |OptionalRecord(RECIPIENT, m.recipient)|
  }

  ghost function AmountEnd(m: Mint): nat {
    RecipientEnd(m) + |Record(AMOUNT, m.amount)|
  }

  /** The fields of m whose records lie in front of the cut; the others are zero, as is the denomination, with whose
      record the encoding ends. */
  ghost function KeptBefore(codec: AmountCodec, m: Mint, cut: nat): Mint {
    Mint(if AuthorityEnd(m) <= cut then m.authority else [],
         if RecipientEnd(m) <= cut then m.recipient else [],
         if AmountEnd(m) <= cut then m.amount else codec.zero,
         [])
  }

  ghost predicate AtBoundary(m: Mint, cut: nat) {
    cut == 0 || cut == AuthorityEnd(m) || cut == RecipientEnd(m) || cut == AmountEnd(m)
  }

  /** A cut in front of or inside f, the first field behind pre. */
  lemma CutBehind(codec: AmountCodec, m: Mint, cut: nat, pre: seq<Field>, f: Field, post: seq<Field>)
    requires |EncodeMint(m)| <= MAX_INT && codec.Readable(m.amount) && FieldsOf(m) == pre + ([f] + post)
    requires |Flatten(pre)| <= cut < |Flatten(pre)| + |f.Text()|
    ensures |pre| < |FieldsOf(m)| && FieldsOf(m)[..|pre|] == pre && FieldsOf(m)[|pre|] == f
    ensures cut < |EncodeMint(m)| && Merge(MintSchema(codec), pre, Zero(codec)).Done?
    ensures var before := Merge(MintSchema(codec), pre, Zero(codec)).state;
      Decode(MintSchema(codec), EncodeMint(m)[..cut], Zero(codec)) ==
        if cut == |Flatten(pre)| then Done(before) else Failed(UnexpectedEOF, before)
  {
    hide Decode, Merge, EncodeMint, FieldsOf, AmountCodec.Readable, MintSchema;
    EncodeWritesFields(m);
    MintRoundTrip(codec, m);
    DecodeOfFields(MintSchema(codec), FieldsOf(m), Zero(codec));
    DecodeTruncated(MintSchema(codec), FieldsOf(m), |pre|, cut, Zero(codec));
  }

  /** What the first records of an encoding make of a zero message. */
  lemma MergePrefixes(codec: AmountCodec, m: Mint)
    requires codec.Readable(m.amount)
    ensures var sc := MintSchema(codec); var z := Zero(codec);
      var a := OptionalField(AUTHORITY, m.authority);
      var r := OptionalField(RECIPIENT, m.recipient);
      && Merge(sc, a, z) == Done(Mint(m.authority, [], codec.zero, []))
      && Merge(sc, a + r, z) == Done(Mint(m.authority, m.recipient, codec.zero, []))
      && Merge(sc, a + r + [RecordField(AMOUNT, m.amount)], z) == Done(Mint(m.authority, m.recipient, m.amount, []))
  {
    hide Merge, MintSchema, OptionalField, RecordField;
    var sc := MintSchema(codec);
    var a := OptionalField(AUTHORITY, m.authority);
    var r := OptionalField(RECIPIENT, m.recipient);
    MergeAppend(sc, a, r, Zero(codec));
    MergeAppend(sc, a + r, [RecordField(AMOUNT, m.amount)], Zero(codec));
    MergeOptional(codec, AUTHORITY, m.authority, Zero(codec));
    MergeOptional(codec, RECIPIENT, m.recipient, Zero(codec).(authority := m.authority));
    MergeAmount(codec, m.amount, Mint(m.authority, m.recipient, codec.zero, []));
  }

  lemma PrefixLengths(m: Mint)
    ensures var a := OptionalField(AUTHORITY, m.authority);
      var r := OptionalField(RECIPIENT, m.recipient);
      && |Flatten(a)| == AuthorityEnd(m)
      && |Flatten(a + r)| == RecipientEnd(m)
      && |Flatten(a + r + [RecordField(AMOUNT, m.amount)])| == AmountEnd(m)
      && RecordField(AMOUNT, m.amount).Text() == Record(AMOUNT, m.amount)
  {
    hide OptionalField, RecordField, OptionalRecord, Record;
    var a := OptionalField(AUTHORITY, m.authority);
    var r := OptionalField(RECIPIENT, m.recipient);
    OptionalIsField(AUTHORITY, m.authority);
    OptionalIsField(RECIPIENT, m.recipient);
    RecordIsField(AMOUNT, m.amount);
    FlattenOne(RecordField(AMOUNT, m.amount));
    FlattenAppend(a, r);
    FlattenAppend(a + r, [RecordField(AMOUNT, m.amount)]);
  }

  /** Truncation is detected. A proper prefix of an encoding that ends between two of its fields, or in front of the
      first, decodes to the message without the fields behind the cut; any other is refused as incomplete, and the
      message holds the fields in front of the cut. The cut lies in front of or inside field k. */
  lemma TruncatedMint(codec: AmountCodec, m: Mint, cut: nat) returns (k: nat)
    requires cut < |EncodeMint(m)| <= MAX_INT && codec.Readable(m.amount)
    ensures k < |FieldsOf(m)|
    ensures |Flatten(FieldsOf(m)[..k])| <= cut < |Flatten(FieldsOf(m)[..k])| + |FieldsOf(m)[k].Text()|
    ensures AtBoundary(m, cut) <==> cut == |Flatten(FieldsOf(m)[..k])|
    ensures Decode(MintSchema(codec), EncodeMint(m)[..cut], Zero(codec)) ==
      if AtBoundary(m, cut) then Done(KeptBefore(codec, m, cut))
      else Failed(UnexpectedEOF, KeptBefore(codec, m, cut))
  {
    hide Decode, Merge, AmountCodec.Readable, MintSchema, RecordField, Record, Flatten, Field.Text;
    var a := OptionalField(AUTHORITY, m.authority);
    var r := OptionalField(RECIPIENT, m.recipient);
    var q := [RecordField(AMOUNT, m.amount)];
    var d := OptionalField(DENOM, m.denom);
    PrefixLengths(m);
    MergePrefixes(codec, m);
    RecordIsField(AUTHORITY, m.authority);
    RecordIsField(RECIPIENT, m.recipient);
    RecordIsField(DENOM, m.denom);
    if cut < AuthorityEnd(m) {
      k := 0;
      NothingMerged(codec);
      assert FieldsOf(m) == [] + (a + (r + q + d));
      CutBehind(codec, m, cut, [], a[0], r + q + d);
    } else if cut < RecipientEnd(m) {
      k := |a|;
      assert FieldsOf(m) == a + (r + (q + d));
      CutBehind(codec, m, cut, a, r[0], q + d);
    } else if cut < AmountEnd(m) {
      k := |a + r|;
      assert FieldsOf(m) == a + r + (q + d);
      CutBehind(codec, m, cut, a + r, q[0], d);
    } else {
      k := |a + r + q|;
      assert FieldsOf(m) == a + r + q + (d + []);
      CutBehind(codec, m, cut, a + r + q, d[0], []);
    }
  }

  lemma NothingMerged(codec: AmountCodec)
    ensures Flatten([]) == [] && Merge(MintSchema(codec), [], Zero(codec)) == Done(Zero(codec))
  {
  }

  // ---- the message as the program has it ----------------------------------------------------------------------

  class MsgMintTokens {
    var authority: GoBytes
    var recipient: GoBytes
    var amount: GoBytes
    var denom: GoBytes

    constructor (codec: AmountCodec)
      ensures Value() == Zero(codec)
    {
      authority, recipient, amount, denom := [], [], codec.zero, [];
    }

    function Value(): Mint
      reads this
    {
      Mint(authority, recipient, amount, denom)
    }

    /** An int sum, which does not overflow as long as the encoding fits into a slice. */
    method Size() returns (n: int)
      requires |EncodeMint(Value())| <= MAX_INT
      ensures n == |EncodeMint(Value())|
    {
      SizeIsLength(Value());
      n := 0;
      var l := |authority|;
      if l > 0 {
        n := Int64(n + 1 + l + Sov(l));
      }
      l := |recipient|;
      if l > 0 {
        n := Int64(n + 1 + l + Sov(l));
      }
      l := |amount|;
      n := Int64(n + 1 + l + Sov(l));
      l := |denom|;
      if l > 0 {
        n := Int64(n + 1 + l + Sov(l));
      }
    }

    /** Fills dAtA from the end: the last bytes are the encoding, and no byte in front of it is touched. */
    method MarshalToSizedBuffer(dAtA: Slice) returns (n: int)
      requires dAtA.Valid() && |EncodeMint(Value())| <= dAtA.Len()
      modifies dAtA.buf
      ensures n == |EncodeMint(Value())|
      ensures EndsWith(dAtA, dAtA.Len() - n, EncodeMint(Value()))
      ensures OnlyChanged(dAtA, old(dAtA.buf[..]), dAtA.Len() - n, dAtA.Len())
    {
      hide EndsWith, SameOutside, Record, Sov;
      SizeIsLength(Value());
      ghost var was := dAtA.buf[..];
      var i := dAtA.Len();
      NothingWritten(dAtA);
      ghost var t := [];
      if |denom| > 0 {
        i, t := PutNext(dAtA, i, DENOM, denom, t, was);
      }
      i, t := PutNext(dAtA, i, AMOUNT, amount, t, was);
      if |recipient| > 0 {
        i, t := PutNext(dAtA, i, RECIPIENT, recipient, t, was);
      }
      if |authority| > 0 {
        i, t := PutNext(dAtA, i, AUTHORITY, authority, t, was);
      }
      Concatenated(Value(), t);
      return dAtA.Len() - i;
    }

    /** Fills the first bytes of dAtA. */
    method MarshalTo(dAtA: Slice) returns (n: int)
      requires dAtA.Valid() && |EncodeMint(Value())| <= dAtA.buf.Length - dAtA.lo
      modifies dAtA.buf
      ensures n == |EncodeMint(Value())|
      ensures dAtA.buf[dAtA.lo..dAtA.lo + n] == EncodeMint(Value())
      ensures SameOutside(dAtA.buf[..], old(dAtA.buf[..]), dAtA.lo, dAtA.lo + n)
    {
      hide EncodeMint, SameOutside;
      var size := Size();
      n := MarshalToSizedBuffer(dAtA.To(size));
    }

    method Marshal() returns (dAtA: Slice)
      requires |EncodeMint(Value())| <= MAX_INT
      ensures dAtA.Valid() && fresh(dAtA.buf) && dAtA.View() == EncodeMint(Value())
    {
      hide EncodeMint;
      var size := Size();
      var buf := new u8[size];
      dAtA := Slice(buf, 0, size);
      var n := MarshalToSizedBuffer(dAtA.To(size));
      dAtA := dAtA.To(n);
    }

    /** The cases of the decoder's switch, once their payload is found. */
    method StoreField(codec: AmountCodec, fieldNum: int, payload: GoBytes) returns (err: Option<Error>)
      requires AUTHORITY <= fieldNum <= DENOM
      modifies this
      ensures match Store(codec, old(Value()), fieldNum, payload)
        case Done(after) => err == None && Value() == after
        case Failed(e, after) => err == Some(e) && Value() == after
    {
      if fieldNum == AUTHORITY {
        authority := payload;
      } else if fieldNum == RECIPIENT {
        recipient := payload;
      } else if fieldNum == AMOUNT {
        var read := codec.unmarshal(amount, payload);
        amount := read.state;
        if read.Failed? {
          return Some(read.error);
        }
      } else {
        denom := payload;
      }
      return None;
    }

    /** Merges dAtA into the message. Accepted is exactly what the grammar and the merge accept; what is reported,
        and the message left behind, are those of the specification in every case. */
    method Unmarshal(codec: AmountCodec, dAtA: Slice) returns (err: Option<Error>)
      requires dAtA.Valid()
      modifies this
      ensures match Decode(MintSchema(codec), dAtA.View(), old(Value()))
        case Done(after) => err == None && Value() == after
        case Failed(e, after) => err == Some(e) && Value() == after
      ensures err.None? <==> MergesTo(MintSchema(codec), dAtA.View(), old(Value()), Value())
    {
      hide DecodePass, MergesTo, Store, MintSchema, TagFrom, SpanFrom, SkipTo;
      ghost var s := dAtA.View();
      ghost var sc := MintSchema(codec);
      ghost var before := Value();
      ghost var result := Decode(sc, s, before);
      DecodeIsMerge(sc, s, before, result.state);
      var l := dAtA.Len();
      var iNdEx := 0;
      while iNdEx < l
        invariant 0 <= iNdEx <= l
        invariant result == DecodeFrom(sc, s, iNdEx, Value())
      {
        var preIndex := iNdEx;
        ghost var m := Value();
        PassOfMint(codec, s, iNdEx, m);
        var tag := ReadTag(dAtA, iNdEx);
        if tag.Err? {
          return Some(tag.error);
        }
        iNdEx := iNdEx + tag.value.size;
        var fieldNum := tag.value.number;
        if AUTHORITY <= fieldNum <= DENOM {
          if tag.value.wireType != LENGTH_DELIMITED {
            return Some(WrongWireType);
          }
          var span := ReadSpan(dAtA, iNdEx);
          if span.Err? {
            return Some(span.error);
          }
          var stored := StoreField(codec, fieldNum, dAtA.Sub(span.value.lo, span.value.hi).Text());
          if stored.Some? {
            return stored;
          }
          iNdEx := span.value.hi;
        } else {
          var next := SkipUnknown(dAtA, preIndex);
          if next.Err? {
            return Some(next.error);
          }
          iNdEx := next.value;
        }
      }
      return None;
    }
  }

  /** One pass, with this message's switch written out. */
  lemma PassOfMint(codec: AmountCodec, s: seq<u8>, i: nat, m: Mint)
    requires i < |s| <= MAX_INT
    ensures DecodePass(MintSchema(codec), s, i, m) ==
      match TagFrom(s, i)
      case Err(e) => Stop(e, m)
      case Ok(tag) =>
        if AUTHORITY <= tag.number <= DENOM then
          if tag.wireType != LENGTH_DELIMITED then Stop(WrongWireType, m)
          else
            match SpanFrom(s, i + tag.size)
            case Err(e) => Stop(e, m)
            case Ok(span) => AsPass(Store(codec, m, tag.number, s[span.lo..span.hi]), span.hi)
        else
          match SkipTo(s, i)
          case Err(e) => Stop(e, m)
          case Ok(next) => Next(next, m)
  {
    hide TagFrom, SpanFrom, SkipTo, Store;
  }

  lemma Concatenated(m: Mint, t: seq<u8>)
    requires t == OptionalRecord(AUTHORITY, m.authority) + (OptionalRecord(RECIPIENT, m.recipient)
                  + (Record(AMOUNT, m.amount) + (OptionalRecord(DENOM, m.denom) + [])))
    ensures t == EncodeMint(m)
  {
    hide OptionalRecord, Record;
  }
}
