/** Every verdict but an unexpected end of the input is final: no bytes behind the input can change it. */
module Finality {
  import opened Machine
  import opened Results
  import opened Varint
  import opened Wire
  import opened Decoder

  // ---- varints ------------------------------------------------------------------------------------------------

  lemma {:induction false} ReadDigitsFinal(s: seq<u8>, t: seq<u8>, k: nat)
    requires ReadDigits(s, k) != Err(UnexpectedEOF)
    ensures ReadDigits(s + t, k) == ReadDigits(s, k)
    decreases |s|
  {
    if k < 10 {
      assert (s + t)[0] == s[0] && (s + t)[1..] == s[1..] + t;
      if s[0] >= 128 { ReadDigitsFinal(s[1..], t, k + 1); }
    }
  }

  lemma ReadFinal(s: seq<u8>, t: seq<u8>, i: nat)
    requires i <= |s| && Read(s[i..]) != Err(UnexpectedEOF)
    ensures Read((s + t)[i..]) == Read(s[i..])
  {
    assert (s + t)[i..] == s[i..] + t;
    ReadDigitsFinal(s[i..], t, 0);
  }

  // ---- the skipper --------------------------------------------------------------------------------------------

  lemma BodyFinal(s: seq<u8>, t: seq<u8>, j: nat, wireType: nat)
    requires j <= |s| && |s + t| <= MAX_INT && AfterBody(s, j, wireType) != Err(UnexpectedEOF)
    ensures AfterBody(s + t, j, wireType) == AfterBody(s, j, wireType)
  {
    hide Read;
    if wireType == VARINT || wireType == LENGTH_DELIMITED { ReadFinal(s, t, j); }
  }

  lemma PassFinal(s: seq<u8>, t: seq<u8>, i: nat, depth: nat)
    requires i < |s| && |s + t| <= MAX_INT && SkipPass(s, i, depth) != Err(UnexpectedEOF)
    ensures SkipPass(s + t, i, depth) == SkipPass(s, i, depth)
  {
    hide Read, AfterBody;
    ReadFinal(s, t, i);
    if Read(s[i..]).Ok? {
      var tag := Read(s[i..]).value;
      BodyFinal(s, t, i + tag.size, tag.value % 8);
    }
  }

  /** The skipper's result stands whatever follows, be it the end of a field, an index beyond the input, or an error
      other than the end of the input. */
  lemma {:induction false} SkipFinal(s: seq<u8>, t: seq<u8>, i: nat, depth: nat)
    requires i <= |s| && |s + t| <= MAX_INT && SkipFrom(s, i, depth) != Err(UnexpectedEOF)
    ensures SkipFrom(s + t, i, depth) == SkipFrom(s, i, depth)
    decreases |s| - i
  {
    hide SkipPass;
    PassFinal(s, t, i, depth);
    var p := SkipPass(s, i, depth);
    if p.Ok? && p.value.depth > 0 {
      SkipFinal(s, t, p.value.index, p.value.depth);
    }
  }

  // ---- the decoders -------------------------------------------------------------------------------------------

  lemma TagFinal(s: seq<u8>, t: seq<u8>, i: nat)
    requires i <= |s| && TagFrom(s, i) != Err(UnexpectedEOF)
    ensures TagFrom(s + t, i) == TagFrom(s, i)
  {
    hide Read;
    ReadFinal(s, t, i);
  }

  lemma SpanFinal(s: seq<u8>, t: seq<u8>, j: nat)
    requires j <= |s| && |s + t| <= MAX_INT && SpanFrom(s, j) != Err(UnexpectedEOF)
    ensures SpanFrom(s + t, j) == SpanFrom(s, j)
  {
    hide Read;
    ReadFinal(s, t, j);
  }

  lemma SkipToFinal(s: seq<u8>, t: seq<u8>, i: nat)
    requires i < |s| && |s + t| <= MAX_INT && SkipTo(s, i) != Err(UnexpectedEOF)
    ensures SkipTo(s + t, i) == SkipTo(s, i)
  {
    hide SkipFrom;
    assert (s + t)[i..] == s[i..] + t;
    SkipFinal(s[i..], t, 0, 0);
  }

  lemma DecodePassFinal<S>(sc: Schema<S>, s: seq<u8>, t: seq<u8>, i: nat, st: S)
    requires i < |s| && |s + t| <= MAX_INT
    requires var p := DecodePass(sc, s, i, st); p.Stop? ==> p.error != UnexpectedEOF
    ensures DecodePass(sc, s + t, i, st) == DecodePass(sc, s, i, st)
  {
    hide TagFrom, SpanFrom, SkipTo;
    TagFinal(s, t, i);
    if TagFrom(s, i).Ok? {
      var tag := TagFrom(s, i).value;
      if !sc.known(tag.number) {
        SkipToFinal(s, t, i);
      } else if tag.wireType == LENGTH_DELIMITED {
        SpanFinal(s, t, i + tag.size);
        var span := SpanFrom(s, i + tag.size);
        if span.Ok? { assert (s + t)[span.value.lo..span.value.hi] == s[span.value.lo..span.value.hi]; }
      }
    }
  }

  /** A decoder that fails with another error than the end of the input fails with it, and leaves the same message,
      whatever follows. */
  lemma {:induction false} DecodeFinal<S>(sc: Schema<S>, s: seq<u8>, t: seq<u8>, i: nat, st: S)
    requires i <= |s| && |s + t| <= MAX_INT
    requires var o := DecodeFrom(sc, s, i, st); o.Failed? && o.error != UnexpectedEOF
    ensures DecodeFrom(sc, s + t, i, st) == DecodeFrom(sc, s, i, st)
    decreases |s| - i
  {
    hide DecodePass;
    DecodePassFinal(sc, s, t, i, st);
    var p := DecodePass(sc, s, i, st);
    if p.Next? { DecodeFinal(sc, s, t, p.index, p.after); }
  }

  /** So decoding a prefix decides on every input that begins with it, unless it is accepted or too short. */
  lemma RefusalIsFinal<S>(sc: Schema<S>, s: seq<u8>, t: seq<u8>, st: S)
    requires |s + t| <= MAX_INT && Decode(sc, s, st).Failed? && Decode(sc, s, st).error != UnexpectedEOF
    ensures Decode(sc, s + t, st) == Decode(sc, s, st)
  {
    hide DecodeFrom;
    DecodeFinal(sc, s, t, 0, st);
  }
}
