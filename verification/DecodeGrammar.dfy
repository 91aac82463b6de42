/** What a decoder accepts and what it makes of it: the fields of the grammar, merged into the message from the
    front to the back. Proved once, for every table of fields. */
module DecodeGrammar {
  import opened Machine
  import opened Results
  import opened Varint
  import opened Wire
  import opened SkipGrammar
  import opened Decoder

  // ---- the meaning of a sequence of fields --------------------------------------------------------------------

  /** One field merged into a message. */
  ghost function Apply<S>(sc: Schema<S>, f: Field, st: S): Outcome<S> {
    if f.Number() <= 0 then Failed(IllegalTag, st)
    else if !sc.known(f.Number()) then Done(st)
    else if f.Bytes? then sc.store(st, f.Number(), f.payload)
    else Failed(WrongWireType, st)
  }

  /** Fields merged in their order; the first one refused ends it. */
  ghost function Merge<S>(sc: Schema<S>, fs: seq<Field>, st: S): Outcome<S> {
    if fs == [] then Done(st)
    else
      match Apply(sc, fs[0], st)
      case Failed(e, after) => Failed(e, after)
      case Done(after) => Merge(sc, fs[1..], after)
  }

  // ---- one pass merges one field ------------------------------------------------------------------------------

  ghost function AsPass<S>(o: Outcome<S>, next: nat): Pass<S> {
    match o
    case Done(after) => Next(next, after)
    case Failed(e, after) => Stop(e, after)
  }

  lemma TagOfField(s: seq<u8>, i: nat, f: Field)
    requires i <= |s| && f.Valid() && f.Text() <= s[i..]
    ensures TagFrom(s, i) == if f.Number() <= 0 then Err(IllegalTag) else Ok(Tag(f.Number(), WireType(f.tag), |f.tag|))
    ensures WireType(f.tag) != END_GROUP && (WireType(f.tag) == LENGTH_DELIMITED <==> f.Bytes?)
  {
    SplitPrefix(f.tag, f.Body(), s, i);
    ReadComplete(f.tag, s[i..]);
  }

  lemma SpanOfField(s: seq<u8>, i: nat, f: Field)
    requires i <= |s| <= MAX_INT && f.Valid() && f.Bytes? && f.Text() <= s[i..]
    ensures i + |f.Text()| <= |s|
    ensures SpanFrom(s, i + |f.tag|) == Ok(Span(i + |f.tag| + |f.length|, i + |f.Text()|))
    ensures s[i + |f.tag| + |f.length|..i + |f.Text()|] == f.payload
  {
    var j := i + |f.tag|;
    SplitPrefix(f.tag, f.Body(), s, i);
    SplitPrefix(f.length, f.payload, s, j);
    ReadComplete(f.length, s[j..]);
    assert s[j + |f.length|..][..|f.payload|] == f.payload;
  }

  lemma SkipOfField(s: seq<u8>, i: nat, f: Field)
    requires i < |s| <= MAX_INT && f.Valid() && f.Text() <= s[i..]
    ensures SkipTo(s, i) == Ok(i + |f.Text()|)
  {
    hide SkipFrom;
    assert s[i..][0..] == s[i..];
    SkipField(f, s[i..], 0, 0);
  }

  lemma PassMergesField<S>(sc: Schema<S>, s: seq<u8>, i: nat, st: S, f: Field)
    requires i < |s| <= MAX_INT && f.Valid() && f.Text() <= s[i..]
    ensures DecodePass(sc, s, i, st) == AsPass(Apply(sc, f, st), i + |f.Text()|)
  {
    hide TagFrom, SpanFrom, SkipTo;
    TagOfField(s, i, f);
    if f.Bytes? { SpanOfField(s, i, f); }
    SkipOfField(s, i, f);
  }

  /** A pass that goes through has merged a field of the grammar. */
  lemma FieldOfPass<S>(sc: Schema<S>, s: seq<u8>, i: nat, st: S) returns (f: Field)
    requires i < |s| <= MAX_INT && DecodePass(sc, s, i, st).Next?
    ensures var p := DecodePass(sc, s, i, st);
      f.Valid() && f.Text() == s[i..p.index] && Apply(sc, f, st) == Done(p.after)
  {
    var tag := TagAt(s, i);
    var p := DecodePass(sc, s, i, st);
    if sc.known(FieldNumber(Value(tag))) {
      f := BytesAt(s, i);
    } else {
      f := SkippedAt(s, i);
    }
    assert f.Text() <= s[i..];
    PassMergesField(sc, s, i, st, f);
  }

  lemma BytesAt(s: seq<u8>, i: nat) returns (f: Field)
    requires i < |s| <= MAX_INT && TagFrom(s, i).Ok? && TagFrom(s, i).value.wireType == LENGTH_DELIMITED
    requires SpanFrom(s, i + TagFrom(s, i).value.size).Ok?
    ensures f.Valid() && f.Text() == s[i..SpanFrom(s, i + TagFrom(s, i).value.size).value.hi]
  {
    hide IsVarint, Read, SpanFrom, FieldNumber;
    var tag := TagAt(s, i);
    var j := i + |tag|;
    var span := SpanFrom(s, j).value;
    SpanIsPayload(s, j);
    assert SpanFrom(s, j) == Ok(Span(span.lo, span.hi));
    f := Bytes(tag, s[j..span.lo], s[span.lo..span.hi]);
    ThreeParts(s, i, j, span.lo, span.hi);
  }

  lemma ThreeParts(s: seq<u8>, i: nat, j: nat, k: nat, l: nat)
    requires i <= j <= k <= l <= |s|
    ensures s[i..j] + (s[j..k] + s[k..l]) == s[i..l]
  {
  }

  lemma SkippedAt(s: seq<u8>, i: nat) returns (f: Field)
    requires i < |s| <= MAX_INT && SkipTo(s, i).Ok?
    ensures f.Valid() && f.Text() == s[i..SkipTo(s, i).value]
  {
    hide SkipFrom, IsVarint;
    f := FieldAt(s[i..], 0);
    assert s[i..][..SkipTo(s, i).value - i] == s[i..SkipTo(s, i).value];
  }

  /** Why a field is refused at its tag: the first of these that applies. */
  ghost function TagError<S>(sc: Schema<S>, tag: seq<u8>): Option<Error> {
    var number := FieldNumber(Value(tag));
    if WireType(tag) == END_GROUP then Some(EndGroupForNonGroup)
    else if number <= 0 then Some(IllegalTag)
    else if sc.known(number) && WireType(tag) != LENGTH_DELIMITED then Some(WrongWireType)
    else if !sc.known(number) && WireType(tag) > FIXED32 then Some(IllegalWireType)
    else None
  }

  /** The same, by the bits of the tag. */
  lemma TagErrorByBits<S>(sc: Schema<S>, tag: seq<u8>)
    ensures var bits := Value(tag) % 8; var number := Value(tag) / 8 % 0x1_0000_0000;
      TagError(sc, tag) ==
        if bits == 4 then Some(EndGroupForNonGroup)
        else if number == 0 || number >= 0x8000_0000 then Some(IllegalTag)
        else if sc.known(number) then (if bits == 2 then None else Some(WrongWireType))
        else if bits >= 6 then Some(IllegalWireType)
        else None
  {
    NumberFromBits(Value(tag));
  }

  lemma RefusedAtTag<S>(sc: Schema<S>, s: seq<u8>, i: nat, st: S, tag: seq<u8>)
    requires i < |s| <= MAX_INT && IsVarint(tag) && tag <= s[i..] && TagError(sc, tag).Some?
    ensures DecodePass(sc, s, i, st) == Stop(TagError(sc, tag).value, st)
  {
    hide SpanFrom, Read;
    ReadComplete(tag, s[i..]);
    assert s[i..][0..] == s[i..];
  }

  /** Whatever follows the tag, the pass ends with this error and stores nothing. */
  ghost predicate RefusedWhatever<S(!new)>(sc: Schema<S>, st: S, tag: seq<u8>, e: Error) {
    forall rest: seq<u8> | 0 < |tag + rest| <= MAX_INT :: DecodePass(sc, tag + rest, 0, st) == Stop(e, st)
  }

  /** A tag decides the outcome of its pass exactly when it is one of those refused. */
  lemma RefusedExactly<S(!new)>(sc: Schema<S>, st: S, tag: seq<u8>, e: Error)
    requires IsVarint(tag)
    ensures RefusedWhatever(sc, st, tag, e) <==> TagError(sc, tag) == Some(e)
  {
    hide DecodePass, TagError, IsVarint;
    NotEmpty(tag);
    if TagError(sc, tag).Some? {
      forall rest: seq<u8> | 0 < |tag + rest| <= MAX_INT
        ensures DecodePass(sc, tag + rest, 0, st) == Stop(TagError(sc, tag).value, st)
      {
        assert (tag + rest)[0..] == tag + rest;
        RefusedAtTag(sc, tag + rest, 0, st, tag);
      }
      assert DecodePass(sc, tag + [], 0, st) == Stop(TagError(sc, tag).value, st);
    } else {
      var x, y := Undecided(sc, st, tag);
      var rest := if DecodePass(sc, tag + x, 0, st) != Stop(e, st) then x else y;
      assert DecodePass(sc, tag + rest, 0, st) != Stop(e, st);
    }
  }

  lemma NotEmpty(tag: seq<u8>)
    requires IsVarint(tag)
    ensures 0 < |tag| <= 10
  {
  }

  /** A tag that is not refused leaves the pass open: there are two continuations with different outcomes. */
  lemma Undecided<S>(sc: Schema<S>, st: S, tag: seq<u8>) returns (x: seq<u8>, y: seq<u8>)
    requires IsVarint(tag) && TagError(sc, tag).None?
    ensures 0 < |tag| <= 10 && |x| <= 20 && |y| <= 20
    ensures DecodePass(sc, tag + x, 0, st) != DecodePass(sc, tag + y, 0, st)
  {
    hide DecodePass, IsVarint;
    NotEmpty(tag);
    x := [];
    assert tag + x == tag;
    if sc.known(FieldNumber(Value(tag))) {
      y := [128, 128, 128, 128, 128, 128, 128, 128, 128, 128];
      KnownUndecided(sc, st, tag, y);
    } else {
      var f := FieldWithTag(tag);
      y := f.Body();
      var s := tag + y;
      assert s[0..] == s == f.Text();
      PassMergesField(sc, s, 0, st, f);
      UnknownUndecided(sc, st, tag, f);
    }
  }

  lemma KnownUndecided<S>(sc: Schema<S>, st: S, tag: seq<u8>, y: seq<u8>)
    requires IsVarint(tag) && TagError(sc, tag).None? && sc.known(FieldNumber(Value(tag)))
    requires y == [128, 128, 128, 128, 128, 128, 128, 128, 128, 128]
    ensures 0 < |tag| <= 10
    ensures DecodePass(sc, tag, 0, st) == Stop(UnexpectedEOF, st)
    ensures DecodePass(sc, tag + y, 0, st) == Stop(IntOverflow, st)
  {
    hide Read, IsVarint;
    NotEmpty(tag);
    var s := tag + y;
    assert s[0..] == s && tag[0..] == tag && s[|tag|..] == y && tag[|tag|..] == [];
    ReadComplete(tag, s);
    ReadComplete(tag, tag);
    ReadOverflows(y);
    NothingToRead();
  }

  /** An unknown field that stops at its tag is cut short, or ends before its body does. */
  lemma UnknownUndecided<S>(sc: Schema<S>, st: S, tag: seq<u8>, f: Field)
    requires f.Valid() && f.tag == tag && TagError(sc, tag).None? && !sc.known(FieldNumber(Value(tag)))
    requires 0 < |tag| <= 10 && |f.Text()| <= 20
    ensures DecodePass(sc, tag, 0, st) == Stop(UnexpectedEOF, st)
    ensures Apply(sc, f, st) == Done(st)
  {
    hide Read, IsVarint, SkipFrom;
    assert tag[0..] == tag;
    ReadComplete(tag, tag);
    BodyNotEmpty(f);
    assert tag < f.Text();
    SkipCut(f, tag, 0, 0);
  }

  lemma BodyNotEmpty(f: Field)
    requires f.Valid()
    ensures |f.Body()| > 0
  {
  }

  /** A length with its top bit set is negative as an int, and is refused as such. */
  lemma NegativeLength<S>(sc: Schema<S>, s: seq<u8>, i: nat, st: S, tag: seq<u8>, length: seq<u8>)
    requires i < |s| <= MAX_INT && IsVarint(tag) && IsVarint(length) && tag + length <= s[i..]
    requires WireType(tag) == LENGTH_DELIMITED && FieldNumber(Value(tag)) > 0 && Value(length) >= TWO_63
    ensures DecodePass(sc, s, i, st) == Stop(InvalidLength, st)
  {
    hide Read;
    SplitPrefix(tag, length, s, i);
    ReadComplete(tag, s[i..]);
    ReadComplete(length, s[i + |tag|..]);
    assert s[i..][0..] == s[i..] && s[i..][|tag|..] == s[i + |tag|..];
  }

  /** Ten bytes that all announce another one are refused, whether or not the input goes on. */
  lemma OverlongTag<S>(sc: Schema<S>, s: seq<u8>, i: nat, st: S)
    requires i < |s| <= MAX_INT && Overlong(s[i..])
    ensures DecodePass(sc, s, i, st) == Stop(IntOverflow, st)
  {
    ReadOverflows(s[i..]);
  }

  // ---- the whole loop -----------------------------------------------------------------------------------------

  /** Complete fields at the front are merged, whatever comes behind them, and whatever it leads to. */
  lemma {:induction false} DecodeMergesFields<S>(sc: Schema<S>, s: seq<u8>, i: nat, st: S, fs: seq<Field>)
    requires i <= |s| <= MAX_INT && AllValid(fs) && Flatten(fs) <= s[i..]
    ensures i + |Flatten(fs)| <= |s|
    ensures DecodeFrom(sc, s, i, st) ==
      match Merge(sc, fs, st)
      case Failed(e, after) => Failed(e, after)
      case Done(after) => DecodeFrom(sc, s, i + |Flatten(fs)|, after)
    decreases |fs|
  {
    hide DecodePass, Apply;
    if fs != [] {
      var f := fs[0];
      SplitPrefix(f.Text(), Flatten(fs[1..]), s, i);
      NonEmpty(f);
      PassMergesField(sc, s, i, st, f);
      var o := Apply(sc, f, st);
      if o.Done? {
        DecodeMergesFields(sc, s, i + |f.Text()|, o.state, fs[1..]);
      }
    }
  }

  /** On a sequence of fields, the decoder is their merge: its result, its error, and the state it leaves. */
  lemma DecodeOfFields<S>(sc: Schema<S>, fs: seq<Field>, st: S)
    requires AllValid(fs) && |Flatten(fs)| <= MAX_INT
    ensures Decode(sc, Flatten(fs), st) == Merge(sc, fs, st)
  {
    hide DecodePass, Apply;
    var s := Flatten(fs);
    assert s[0..] == s;
    DecodeMergesFields(sc, s, 0, st, fs);
  }

  /** What the decoder accepts is a sequence of fields. */
  lemma {:induction false} FieldsOfDecode<S>(sc: Schema<S>, s: seq<u8>, i: nat, st: S) returns (fs: seq<Field>)
    requires i <= |s| <= MAX_INT && DecodeFrom(sc, s, i, st).Done?
    ensures AllValid(fs) && Flatten(fs) == s[i..] && Merge(sc, fs, st) == DecodeFrom(sc, s, i, st)
    decreases |s| - i
  {
    hide DecodePass, Apply;
    if i == |s| {
      fs := [];
    } else {
      var f := FieldOfPass(sc, s, i, st);
      var p := DecodePass(sc, s, i, st);
      var rest := FieldsOfDecode(sc, s, p.index, p.after);
      fs := [f] + rest;
      assert fs[1..] == rest;
      assert s[i..] == s[i..p.index] + s[p.index..];
    }
  }

  /** The bytes s write the fields fs. */
  ghost predicate Writes(s: seq<u8>, fs: seq<Field>) {
    AllValid(fs) && Flatten(fs) == s
  }

  /** The bytes s write fields that, merged into st, make it after. */
  ghost predicate MergesTo<S>(sc: Schema<S>, s: seq<u8>, st: S, after: S) {
    exists fs :: Writes(s, fs) && Merge(sc, fs, st) == Done(after)
  }

  /** The decoder accepts exactly the sequences of fields whose merge succeeds, and the merge is its result. */
  lemma DecodeIsMerge<S>(sc: Schema<S>, s: seq<u8>, st: S, after: S)
    requires |s| <= MAX_INT
    ensures Decode(sc, s, st) == Done(after) <==> MergesTo(sc, s, st, after)
  {
    if Decode(sc, s, st) == Done(after) {
      var fs := FieldsOfDecode(sc, s, 0, st);
      assert s[0..] == s;
      assert Writes(s, fs);
    }
    if MergesTo(sc, s, st, after) {
      var fs :| Writes(s, fs) && Merge(sc, fs, st) == Done(after);
      DecodeOfFields(sc, fs, st);
    }
  }
}
