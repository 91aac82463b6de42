/** Exactly which inputs a decoder refuses, with which error, and what message it leaves behind. */
module DecodeRefusals {
  import opened Machine
  import opened Results
  import opened Varint
  import opened Wire
  import opened SkipGrammar
  import opened SkipRefusals
  import opened Decoder
  import opened DecodeGrammar

  // ---- payloads -----------------------------------------------------------------------------------------------

  /** A length that leads beyond the input, to an index that is still an int. */
  ghost predicate LengthBeyond(length: seq<u8>, rest: seq<u8>, j: nat) {
    IsVarint(length) && length <= rest && |length| + Value(length) > |rest| && j + |length| + Value(length) <= MAX_INT
  }

  /** What is wrong with the length and payload at j, where rest stands up to the end of the input. */
  ghost predicate PayloadFault(rest: seq<u8>, j: nat, e: Error) {
    match e
    case IntOverflow => Overlong(rest)
    case UnexpectedEOF => CutVarint(rest) || exists length :: LengthBeyond(length, rest, j)
    case InvalidLength => exists length :: LengthOverflows(length, rest, j)
    case _ => false
  }

  lemma SpanFails(s: seq<u8>, j: nat, e: Error)
    requires j <= |s| <= MAX_INT
    ensures SpanFrom(s, j) == Err(e) <==> PayloadFault(s[j..], j, e)
  {
    hide Read, IsVarint, Overlong, CutVarint;
    ReadOverflows(s[j..]);
    ReadEnds(s[j..]);
    ReadFails(s[j..]);
    if Read(s[j..]).Ok? {
      LengthFault(s, j);
      LengthTooFar(s, j);
    } else {
      NoLength(s, j);
      NoLengthAtAll(s, j);
    }
  }

  lemma LengthTooFar(s: seq<u8>, j: nat)
    requires j <= |s| <= MAX_INT && Read(s[j..]).Ok?
    ensures var end := j + Read(s[j..]).value.size + Read(s[j..]).value.value;
      (exists length :: LengthBeyond(length, s[j..], j)) <==> |s| < end <= MAX_INT
  {
    hide IsVarint, Read;
    var tag := TagAt(s, j);
    assert tag <= s[j..];
    assert LengthBeyond(tag, s[j..], j) <==> |s| < j + |tag| + Value(tag) <= MAX_INT;
    forall length | LengthBeyond(length, s[j..], j) ensures length == tag {
      VarintUnique(length, tag, s[j..]);
    }
  }

  lemma NoLengthAtAll(s: seq<u8>, j: nat)
    requires j <= |s| && Read(s[j..]).Err?
    ensures !exists length :: LengthBeyond(length, s[j..], j)
  {
    hide IsVarint, Read;
    forall length | LengthBeyond(length, s[j..], j) ensures false {
      ReadComplete(length, s[j..]);
    }
  }

  // ---- unknown fields -----------------------------------------------------------------------------------------

  /** What is wrong with the unknown field at i: the skipper's error, or that it ends beyond the input, at an index
      that is an int or is not. */
  ghost predicate SkipFault(s: seq<u8>, i: nat, e: Error)
    requires i <= |s| <= MAX_INT
  {
    match SkipFrom(s[i..], 0, 0)
    case Err(e') => e == e'
    case Ok(n) => i + n > |s| && e == if i + n <= MAX_INT then UnexpectedEOF else InvalidLength
  }

  lemma SkipToFails(s: seq<u8>, i: nat, e: Error)
    requires i < |s| <= MAX_INT
    ensures SkipTo(s, i) == Err(e) <==> SkipFault(s, i, e)
  {
    hide SkipFrom;
  }

  // ---- fields -------------------------------------------------------------------------------------------------

  /** What is wrong with the field at i, whose tag is complete, and the message that is left. */
  ghost predicate TaggedFault<S>(sc: Schema<S>, s: seq<u8>, i: nat, tag: seq<u8>, st: S, e: Error, left: S)
    requires i <= |s| <= MAX_INT
  {
    && IsVarint(tag) && tag <= s[i..]
    && if TagError(sc, tag).Some? then e == TagError(sc, tag).value && left == st
       else if sc.known(FieldNumber(Value(tag))) then
         || (left == st && PayloadFault(s[i..][|tag|..], i + |tag|, e))
         || PayloadRefused(sc, s, i + |tag|, FieldNumber(Value(tag)), st, e, left)
       else SkipFault(s, i, e) && left == st
  }

  /** The payload s[lo..hi] is complete, and the field does not take it. */
  ghost predicate Refuses<S>(sc: Schema<S>, s: seq<u8>, j: nat, number: int, lo: nat, hi: nat, st: S, e: Error, left: S)
    requires |s| <= MAX_INT
  {
    IsPayload(s, j, lo, hi) && sc.store(st, number, s[lo..hi]) == Failed(e, left)
  }

  ghost predicate PayloadRefused<S>(sc: Schema<S>, s: seq<u8>, j: nat, number: int, st: S, e: Error, left: S)
    requires |s| <= MAX_INT
  {
    exists lo, hi :: Refuses(sc, s, j, number, lo, hi, st, e, left)
  }

  ghost predicate FieldFault<S>(sc: Schema<S>, s: seq<u8>, i: nat, st: S, e: Error, left: S)
    requires i <= |s| <= MAX_INT
  {
    || (e == UnexpectedEOF && CutVarint(s[i..]) && left == st)
    || (e == IntOverflow && Overlong(s[i..]) && left == st)
    || exists tag :: TaggedFault(sc, s, i, tag, st, e, left)
  }

  lemma TagTaken<S>(sc: Schema<S>, s: seq<u8>, i: nat, tag: seq<u8>)
    requires i <= |s| && IsVarint(tag) && tag <= s[i..] && TagError(sc, tag).None?
    ensures i + |tag| <= |s| && WireType(tag) <= FIXED32 && WireType(tag) != END_GROUP
    ensures TagFrom(s, i) == Ok(Tag(FieldNumber(Value(tag)), WireType(tag), |tag|))
    ensures sc.known(FieldNumber(Value(tag))) ==> WireType(tag) == LENGTH_DELIMITED
  {
    hide Read, IsVarint;
    ReadComplete(tag, s[i..]);
  }

  /** The skipper's error for an unknown field is the decoder's. */
  lemma SkipErrorPasses<S>(sc: Schema<S>, s: seq<u8>, i: nat, st: S, tag: seq<u8>, e: Error)
    requires i < |s| <= MAX_INT && IsVarint(tag) && tag <= s[i..]
    requires WireType(tag) != END_GROUP && FieldNumber(Value(tag)) > 0 && !sc.known(FieldNumber(Value(tag)))
    requires SkipFrom(s[i..], 0, 0) == Err(e)
    ensures DecodePass(sc, s, i, st) == Stop(e, st)
  {
    hide Read, IsVarint, SkipFrom;
    ReadComplete(tag, s[i..]);
  }

  lemma TaggedPassFails<S>(sc: Schema<S>, s: seq<u8>, i: nat, tag: seq<u8>, st: S, e: Error, left: S)
    requires i < |s| <= MAX_INT && IsVarint(tag) && tag <= s[i..]
    ensures DecodePass(sc, s, i, st) == Stop(e, left) <==> TaggedFault(sc, s, i, tag, st, e, left)
  {
    hide IsVarint, TagError, TagFrom, SpanFrom, SkipTo, PayloadFault, SkipFault, Read, IsPayload;
    if TagError(sc, tag).Some? {
      RefusedAtTag(sc, s, i, st, tag);
    } else {
      TagTaken(sc, s, i, tag);
      assert s[i..][|tag|..] == s[i + |tag|..];
      if sc.known(FieldNumber(Value(tag))) {
        SpanFails(s, i + |tag|, e);
        KnownPassFails(sc, s, i + |tag|, FieldNumber(Value(tag)), st, e, left);
      } else {
        SkipToFails(s, i, e);
      }
    }
  }

  lemma KnownPassFails<S>(sc: Schema<S>, s: seq<u8>, j: nat, number: int, st: S, e: Error, left: S)
    requires j <= |s| <= MAX_INT
    ensures PayloadRefused(sc, s, j, number, st, e, left) <==>
      match SpanFrom(s, j)
      case Err(_) => false
      case Ok(span) => sc.store(st, number, s[span.lo..span.hi]) == Failed(e, left)
  {
    hide SpanFrom, IsPayload;
    SpanIsPayload(s, j);
    if SpanFrom(s, j).Ok? {
      var span := SpanFrom(s, j).value;
      assert SpanFrom(s, j) == Ok(Span(span.lo, span.hi));
      assert Refuses(sc, s, j, number, span.lo, span.hi, st, e, left) <==>
        sc.store(st, number, s[span.lo..span.hi]) == Failed(e, left);
    }
  }

  /** A pass fails with an error, leaving a message, exactly at a field with that fault. */
  lemma PassFailsExactly<S>(sc: Schema<S>, s: seq<u8>, i: nat, st: S, e: Error, left: S)
    requires i < |s| <= MAX_INT
    ensures DecodePass(sc, s, i, st) == Stop(e, left) <==> FieldFault(sc, s, i, st, e, left)
  {
    hide IsVarint, TaggedFault, Read, Overlong, CutVarint, DecodePass;
    ReadOverflows(s[i..]);
    ReadEnds(s[i..]);
    ReadFails(s[i..]);
    if Read(s[i..]).Ok? {
      var tag := TagAt(s, i);
      assert tag <= s[i..];
      TaggedPassFails(sc, s, i, tag, st, e, left);
      forall other | TaggedFault(sc, s, i, other, st, e, left) ensures other == tag {
        OneTag(sc, s, i, other, tag, st, e, left);
      }
    } else {
      UntaggedPass(sc, s, i, st);
      NoTag(sc, s, i, st, e, left);
    }
  }

  lemma OneTag<S>(sc: Schema<S>, s: seq<u8>, i: nat, a: seq<u8>, b: seq<u8>, st: S, e: Error, left: S)
    requires i <= |s| <= MAX_INT && TaggedFault(sc, s, i, a, st, e, left) && IsVarint(b) && b <= s[i..]
    ensures a == b
  {
    VarintUnique(a, b, s[i..]);
  }

  lemma UntaggedPass<S>(sc: Schema<S>, s: seq<u8>, i: nat, st: S)
    requires i < |s| <= MAX_INT && Read(s[i..]).Err?
    ensures DecodePass(sc, s, i, st) == Stop(Read(s[i..]).error, st)
  {
  }

  lemma NoTag<S>(sc: Schema<S>, s: seq<u8>, i: nat, st: S, e: Error, left: S)
    requires i < |s| <= MAX_INT && Read(s[i..]).Err?
    ensures !exists tag :: TaggedFault(sc, s, i, tag, st, e, left)
  {
    hide Read, IsVarint, TagError, PayloadFault, SkipFault;
    forall tag | TaggedFault(sc, s, i, tag, st, e, left) ensures false {
      ReadComplete(tag, s[i..]);
    }
  }

  // ---- whole inputs -------------------------------------------------------------------------------------------

  /** Behind the fields fs, which merge, there is more input, and the field there has that fault. */
  ghost predicate FailsBehind<S>(sc: Schema<S>, s: seq<u8>, fs: seq<Field>, st: S, e: Error, left: S)
    requires |s| <= MAX_INT
  {
    && AllValid(fs) && Flatten(fs) <= s && |Flatten(fs)| < |s|
    && Merge(sc, fs, st).Done?
    && FieldFault(sc, s, |Flatten(fs)|, Merge(sc, fs, st).state, e, left)
  }

  lemma {:induction false} FieldsBeforeFault<S>(sc: Schema<S>, s: seq<u8>, i: nat, st: S) returns (fs: seq<Field>)
    requires i <= |s| <= MAX_INT && DecodeFrom(sc, s, i, st).Failed?
    ensures AllValid(fs) && Flatten(fs) <= s[i..] && i + |Flatten(fs)| < |s| && Merge(sc, fs, st).Done?
    ensures var o := DecodeFrom(sc, s, i, st);
      DecodePass(sc, s, i + |Flatten(fs)|, Merge(sc, fs, st).state) == Stop(o.error, o.state)
    decreases |s| - i
  {
    hide DecodePass, Apply;
    var p := DecodePass(sc, s, i, st);
    if p.Stop? {
      fs := [];
    } else {
      var f := FieldOfPass(sc, s, i, st);
      var rest := FieldsBeforeFault(sc, s, p.index, p.after);
      fs := [f] + rest;
      assert fs[1..] == rest;
      assert s[i..] == s[i..p.index] + s[p.index..];
    }
  }

  /** A decoder fails with an error, leaving a message, if and only if its input begins with fields that merge and goes
      on with a field that has that fault: its tag, its length, its payload, or, if it is unknown, the skip over it. */
  lemma DecodeFailsExactly<S>(sc: Schema<S>, s: seq<u8>, st: S, e: Error, left: S)
    requires |s| <= MAX_INT
    ensures Decode(sc, s, st) == Failed(e, left) <==> exists fs :: FailsBehind(sc, s, fs, st, e, left)
  {
    hide DecodePass, Apply, Merge, FieldFault;
    assert s[0..] == s;
    if Decode(sc, s, st) == Failed(e, left) {
      var fs := FieldsBeforeFault(sc, s, 0, st);
      PassFailsExactly(sc, s, |Flatten(fs)|, Merge(sc, fs, st).state, e, left);
      assert FailsBehind(sc, s, fs, st, e, left);
    }
    forall fs | FailsBehind(sc, s, fs, st, e, left) ensures Decode(sc, s, st) == Failed(e, left) {
      DecodeMergesFields(sc, s, 0, st, fs);
      PassFailsExactly(sc, s, |Flatten(fs)|, Merge(sc, fs, st).state, e, left);
    }
  }
}
