/** The wire format: the grammar of fields as a tree, and the steps of the skipper, which walks over one field with
    a single loop and a counter of open groups. */
module Wire {
  import opened Machine
  import opened Results
  import opened Varint

  // ---- the grammar --------------------------------------------------------------------------------------------

  const VARINT := 0
  const FIXED64 := 1
  const LENGTH_DELIMITED := 2
  const START_GROUP := 3
  const END_GROUP := 4
  const FIXED32 := 5

  /** One field as it stands in the input. The varints are kept as written, because an input may spell a number
      with more bytes than it needs. */
  datatype Field =
    | Varint(tag: seq<u8>, number: seq<u8>)
    | Fixed64(tag: seq<u8>, payload: GoBytes)
    | Bytes(tag: seq<u8>, length: seq<u8>, payload: GoBytes)
    | Group(tag: seq<u8>, fields: seq<Field>, endTag: seq<u8>)
    | Fixed32(tag: seq<u8>, payload: GoBytes)
  {
    /** Each tag carries the wire type of its field and each length is the length of its payload. The field number
        of an end-group tag is unconstrained: the skipper does not look at it. */
    ghost predicate Valid() {
      && IsVarint(tag)
      && match this {
           case Varint(_, number) => WireType(tag) == VARINT && IsVarint(number)
           case Fixed64(_, payload) => WireType(tag) == FIXED64 && |payload| == 8
           case Bytes(_, length, payload) =>
             WireType(tag) == LENGTH_DELIMITED && IsVarint(length) && Value(length) == |payload|
           case Group(_, fields, endTag) =>
             && WireType(tag) == START_GROUP
             && IsVarint(endTag) && WireType(endTag) == END_GROUP
             && forall f <- fields :: f.Valid()
           case Fixed32(_, payload) => WireType(tag) == FIXED32 && |payload| == 4
         }
    }

    /** The bytes of the field: its tag, then its body. */
    ghost function Text(): (t: seq<u8>)
      decreases this, 2
    {
      tag + Body()
    }

    ghost function Body(): seq<u8>
      decreases this, 1
    {
      match this
      case Varint(_, number) => number
      case Fixed64(_, payload) => payload
      case Bytes(_, length, payload) => length + payload
      case Group(_, fields, endTag) => Flatten(fields) + endTag
      case Fixed32(_, payload) => payload
    }

    /** The field number the decoder sees. */
    ghost function Number(): int {
      FieldNumber(Value(tag))
    }
  }

  ghost function Flatten(fs: seq<Field>): seq<u8>
    decreases fs, 0
  {
    if fs == [] then [] else fs[0].Text() + Flatten(fs[1..])
  }

  ghost predicate AllValid(fs: seq<Field>) {
    forall f <- fs :: f.Valid()
  }

  ghost function WireType(tag: seq<u8>): nat {
    Value(tag) % 8
  }

  /** `int32(wire >> 3)` */
  function FieldNumber(wire: nat): int {
    Int32(wire / 8)
  }

  /** The number is the low 32 bits above the three of the wire type, as a signed number; the bits above are lost. */
  lemma NumberOfTag(wire: nat, k: nat, number: nat, wireType: nat)
    requires wireType < 8 && number < 0x1_0000_0000 && wire == (k * 0x1_0000_0000 + number) * 8 + wireType
    ensures FieldNumber(wire) == if number < 0x8000_0000 then number else number - 0x1_0000_0000
    ensures wire % 8 == wireType
  {
    assert wire / 8 == k * 0x1_0000_0000 + number;
    assert wire / 8 % 0x1_0000_0000 == number;
  }

  /** The same, from the bits of the tag. */
  lemma NumberFromBits(wire: nat)
    ensures var number := wire / 8 % 0x1_0000_0000;
      FieldNumber(wire) == if number < 0x8000_0000 then number else number - 0x1_0000_0000
  {
    var x := wire / 8;
    NumberOfTag(wire, x / 0x1_0000_0000, x % 0x1_0000_0000, wire % 8);
  }

  /** The wire types by their codes. */
  lemma WireCodes()
    ensures VARINT == 0 && FIXED64 == 1 && LENGTH_DELIMITED == 2 && START_GROUP == 3 && END_GROUP == 4 && FIXED32 == 5
  {
  }

  lemma {:induction false} FlattenAppend(fs: seq<Field>, gs: seq<Field>)
    ensures Flatten(fs + gs) == Flatten(fs) + Flatten(gs)
  {
    if fs == [] {
      assert fs + gs == gs;
    } else {
      assert (fs + gs)[1..] == fs[1..] + gs;
      FlattenAppend(fs[1..], gs);
    }
  }

  lemma FlattenOne(f: Field)
    ensures Flatten([f]) == f.Text()
  {
    assert Flatten([f]) == f.Text() + Flatten([]);
  }

  // ---- the skipper's steps ------------------------------------------------------------------------------------

  datatype Cursor = Cursor(index: nat, depth: nat)

  /** The index behind a field's body that begins at j; past the end of the input where the body is cut short, and
      negative where the addition overflows. */
  function AfterBody(s: seq<u8>, j: nat, wireType: nat): (r: Result<int>)
    requires j <= |s| <= MAX_INT
    ensures r.Ok? ==> j <= r.value <= MAX_INT || r.value < 0
  {
    if wireType == VARINT then
      match Read(s[j..])
      case Err(e) => Err(e)
      case Ok(t) => Ok(j + t.size)
    else if wireType == FIXED64 then Ok(Int64(j + 8))
    else if wireType == LENGTH_DELIMITED then
      match Read(s[j..])
      case Err(e) => Err(e)
      case Ok(t) =>
        var length := Int64(t.value);
        if length < 0 then Err(InvalidLength) else Ok(Int64(j + t.size + length))
    else if wireType == START_GROUP || wireType == END_GROUP then Ok(j)
    else if wireType == FIXED32 then Ok(Int64(j + 4))
    else Err(IllegalWireType)
  }

  /** One pass of the skipper's loop, with depth groups open. */
  function SkipPass(s: seq<u8>, i: nat, depth: nat): (r: Result<Cursor>)
    requires i < |s| <= MAX_INT
    ensures r.Ok? ==> i < r.value.index <= MAX_INT && r.value.depth <= depth + 1
  {
    match Read(s[i..])
    case Err(e) => Err(e)
    case Ok(t) =>
      var wireType := t.value % 8;
      match AfterBody(s, i + t.size, wireType)
      case Err(e) => Err(e)
      case Ok(next) =>
        if wireType == END_GROUP && depth == 0 then Err(UnexpectedEndOfGroup)
        else if next < 0 then Err(InvalidLength)
        else Ok(Cursor(next, if wireType == START_GROUP then depth + 1
                             else if wireType == END_GROUP then depth - 1
                             else depth))
  }

  /** The skipper's loop from index i on: the index where it stops. */
  function SkipFrom(s: seq<u8>, i: nat, depth: nat): (r: Result<nat>)
    requires |s| <= MAX_INT
    ensures r.Ok? ==> i < r.value <= MAX_INT
    decreases |s| - i
  {
    if i >= |s| then Err(UnexpectedEOF)
    else
      match SkipPass(s, i, depth)
      case Err(e) => Err(e)
      case Ok(c) => if c.depth == 0 then Ok(c.index) else SkipFrom(s, c.index, c.depth)
  }
}
