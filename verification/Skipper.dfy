/** The skipper as the program runs it. */
module Skipper {
  import opened Machine
  import opened Results
  import opened Slices
  import opened Varint
  import opened Wire
  import opened SkipGrammar

  /** The cases of the skipper's switch that move the cursor: from j behind the tag to the end of the body. */
  method SkipBody(dAtA: Slice, j: nat, wireType: nat) returns (r: Result<int>)
    requires dAtA.Valid() && j <= dAtA.Len()
    ensures r == AfterBody(dAtA.View(), j, wireType)
  {
    var iNdEx: int := j;
    if wireType == VARINT {
      var number := ReadVarint(dAtA, j);
      if number.Err? {
        return Err(number.error);
      }
      iNdEx := iNdEx + number.value.size;
    } else if wireType == FIXED64 {
      iNdEx := Int64(iNdEx + 8);
    } else if wireType == LENGTH_DELIMITED {
      var read := ReadVarint(dAtA, j);
      if read.Err? {
        return Err(read.error);
      }
      iNdEx := iNdEx + read.value.size;
      var length := Int64(read.value.value);
      if length < 0 {
        return Err(InvalidLength);
      }
      iNdEx := Int64(iNdEx + length);
    } else if wireType == START_GROUP || wireType == END_GROUP {
      // only the depth changes
    } else if wireType == FIXED32 {
      iNdEx := Int64(iNdEx + 4);
    } else {
      return Err(IllegalWireType);
    }
    return Ok(iNdEx);
  }

  /** `skipTx`, and `skipParams`, which has the same body. */
  method Skip(dAtA: Slice) returns (r: Result<nat>)
    requires dAtA.Valid()
    ensures r == SkipFrom(dAtA.View(), 0, 0)
    ensures SkipsOneField(dAtA.View(), r)
  {
    hide SkipsOneField;
    ghost var s := dAtA.View();
    SkipIsGrammar(s);
    var l := dAtA.Len();
    var iNdEx, depth := 0, 0;
    while iNdEx < l
      invariant 0 <= depth <= iNdEx
      invariant SkipFrom(s, 0, 0) == SkipFrom(s, iNdEx, depth)
    {
      ghost var pass := SkipPass(s, iNdEx, depth);
      var tag := ReadVarint(dAtA, iNdEx);
      if tag.Err? {
        return Err(tag.error);
      }
      var wireType := tag.value.value % 8;
      var body := SkipBody(dAtA, iNdEx + tag.value.size, wireType);
      if body.Err? {
        return Err(body.error);
      }
      iNdEx := body.value;
      if wireType == START_GROUP {
        depth := Int64(depth + 1);
      } else if wireType == END_GROUP {
        if depth == 0 {
          return Err(UnexpectedEndOfGroup);
        }
        depth := depth - 1;
      }
      if iNdEx < 0 {
        return Err(InvalidLength);
      }
      assert pass == Ok(Cursor(iNdEx, depth));
      if depth == 0 {
        return Ok(iNdEx);
      }
    }
    return Err(UnexpectedEOF);
  }
}
