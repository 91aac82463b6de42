/** The nested message of `MsgUpdateParams`: it has no fields, so its decoder does nothing but skip. */
module ParamsMessage {
  import opened Machine
  import opened Results
  import opened Slices
  import opened Wire
  import opened Decoder
  import opened DecodeGrammar
  import opened DecodeLaws

  /** All values of `Params` are alike. */
  datatype ParamsValue = ParamsValue

  function ParamsSchema(): Schema<ParamsValue> {
    Schema(n => false, (v, n, p) => Done(v))
  }

  /** A concatenation of well-formed fields with positive numbers. */
  ghost predicate IsFieldList(s: seq<u8>) {
    exists fs :: Writes(s, fs) && Positive(fs)
  }

  lemma {:induction false} MergeOfParams(fs: seq<Field>, v: ParamsValue)
    ensures Merge(ParamsSchema(), fs, v).Done? <==> Positive(fs)
  {
    if fs != [] {
      MergeOfParams(fs[1..], v);
      assert fs == [fs[0]] + fs[1..];
    }
  }

  /** `Params` accepts exactly the field lists. */
  lemma ParamsRecognises(s: seq<u8>, v: ParamsValue)
    requires |s| <= MAX_INT
    ensures Decode(ParamsSchema(), s, v).Done? <==> IsFieldList(s)
  {
    hide Decode, Merge, Writes, ParamsSchema;
    var sc := ParamsSchema();
    DecodeIsMerge(sc, s, v, v);
    assert Decode(sc, s, v).state == v;
    if Decode(sc, s, v).Done? {
      var fs :| Writes(s, fs) && Merge(sc, fs, v) == Done(v);
      MergeOfParams(fs, v);
    }
    if IsFieldList(s) {
      var fs :| Writes(s, fs) && Positive(fs);
      MergeOfParams(fs, v);
      assert Merge(sc, fs, v).state == v;
    }
  }

  class Params {
    constructor ()
    {
    }

    function Value(): ParamsValue {
      ParamsValue
    }

    method Size() returns (n: nat)
      ensures n == 0
    {
      n := 0;
    }

    /** Writes nothing. */
    method MarshalToSizedBuffer(dAtA: Slice) returns (n: int)
      requires dAtA.Valid()
      ensures n == 0
    {
      var i := dAtA.Len();
      return dAtA.Len() - i;
    }

    method Unmarshal(dAtA: Slice) returns (err: Option<Error>)
      requires dAtA.Valid()
      ensures match Decode(ParamsSchema(), dAtA.View(), ParamsValue)
        case Done(_) => err == None
        case Failed(e, _) => err == Some(e)
      ensures err.None? <==> IsFieldList(dAtA.View())
    {
      hide IsFieldList, DecodePass;
      ghost var s := dAtA.View();
      ParamsRecognises(s, ParamsValue);
      var l := dAtA.Len();
      var iNdEx := 0;
      while iNdEx < l
        invariant 0 <= iNdEx <= l
        invariant Decode(ParamsSchema(), s, ParamsValue) == DecodeFrom(ParamsSchema(), s, iNdEx, ParamsValue)
      {
        PassOfParams(s, iNdEx);
        var tag := ReadTag(dAtA, iNdEx);
        if tag.Err? {
          return Some(tag.error);
        }
        var next := SkipUnknown(dAtA, iNdEx);
        if next.Err? {
          return Some(next.error);
        }
        iNdEx := next.value;
      }
      return None;
    }
  }

  lemma PassOfParams(s: seq<u8>, i: nat)
    requires i < |s| <= MAX_INT
    ensures DecodePass(ParamsSchema(), s, i, ParamsValue) ==
      match TagFrom(s, i)
      case Err(e) => Stop(e, ParamsValue)
      case Ok(_) =>
        match SkipTo(s, i)
        case Err(e) => Stop(e, ParamsValue)
        case Ok(next) => Next(next, ParamsValue)
  {
  }
}
