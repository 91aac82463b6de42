/** Laws of every decoder: decoding concatenated inputs, unknown fields, the order of fields, truncated inputs. */
module DecodeLaws {
  import opened Machine
  import opened Results
  import opened Varint
  import opened Wire
  import opened SkipGrammar
  import opened Decoder
  import opened DecodeGrammar

  lemma {:induction false} MergeAppend<S>(sc: Schema<S>, fs: seq<Field>, gs: seq<Field>, st: S)
    ensures Merge(sc, fs + gs, st) ==
      match Merge(sc, fs, st)
      case Failed(e, after) => Failed(e, after)
      case Done(after) => Merge(sc, gs, after)
    decreases |fs|
  {
    hide Apply;
    if fs == [] {
      assert fs + gs == gs;
    } else {
      assert (fs + gs)[1..] == fs[1..] + gs;
      var o := Apply(sc, fs[0], st);
      if o.Done? { MergeAppend(sc, fs[1..], gs, o.state); }
    }
  }

  lemma MergeOne<S>(sc: Schema<S>, f: Field, st: S)
    ensures Merge(sc, [f], st) == Apply(sc, f, st)
  {
    hide Apply;
    assert [f][1..] == [];
  }

  /** The payload of the last field with number n, or what was there before. */
  ghost function LastPayload(fs: seq<Field>, n: int, before: GoBytes): GoBytes {
    if fs == [] then before
    else LastPayload(fs[1..], n, if fs[0].Number() == n && fs[0].Bytes? then fs[0].payload else before)
  }

  /** A message laid over another: empty strings leave what is below them. */
  function Over(top: GoBytes, below: GoBytes): GoBytes {
    if top == [] then below else top
  }

  /** The field at which a failing merge fails. */
  lemma {:induction false} FirstRefused<S>(sc: Schema<S>, fs: seq<Field>, st: S) returns (k: nat)
    requires Merge(sc, fs, st).Failed?
    ensures k < |fs| && Merge(sc, fs[..k], st).Done?
    ensures Apply(sc, fs[k], Merge(sc, fs[..k], st).state) == Merge(sc, fs, st)
    decreases |fs|
  {
    hide Apply;
    var o := Apply(sc, fs[0], st);
    if o.Failed? {
      k := 0;
      assert fs[..0] == [];
    } else {
      var j := FirstRefused(sc, fs[1..], o.state);
      k := j + 1;
      assert fs[..k][1..] == fs[1..][..j] && fs[..k][0] == fs[0];
    }
  }

  // ---- concatenation ------------------------------------------------------------------------------------------

  /** Two outcomes that differ at most in how a length beyond the input is reported: far enough from the front of
      the input, adding it to the index overflows. */
  ghost predicate SameBut<S(!new)>(far: Outcome<S>, near: Outcome<S>) {
    && far.state == near.state
    && (far.Done? <==> near.Done?)
    && (far.Failed? ==> far.error == near.error || (far.error == InvalidLength && near.error == UnexpectedEOF))
  }

  /** A result read at an offset, next to the one read at the front. */
  ghost predicate SameResult(far: Result<nat>, near: Result<nat>, offset: nat) {
    match near
    case Ok(n) => far == Ok(offset + n)
    case Err(e) => far == Err(e) || (far == Err(InvalidLength) && e == UnexpectedEOF)
  }

  lemma ShiftDrop(a: seq<u8>, b: seq<u8>, i: nat)
    requires i <= |b|
    ensures (a + b)[|a| + i..] == b[i..]
  {
  }

  ghost function SpanEnd(r: Result<Span>): Result<nat> {
    match r
    case Err(e) => Err(e)
    case Ok(span) => Ok(span.hi)
  }

  /** The index that the length at j leads to, inside the input or beyond it; 0 where there is none. */
  ghost function SpanDemand(s: seq<u8>, j: nat): nat
    requires j <= |s| <= MAX_INT
  {
    match Read(s[j..])
    case Err(_) => 0
    case Ok(t) =>
      var end := j + t.size + Int64(t.value);
      if Int64(t.value) < 0 || end > MAX_INT then 0 else end
  }

  /** The index that skipping the field at i leads to. */
  ghost function SkipDemand(s: seq<u8>, i: nat): nat
    requires i < |s| <= MAX_INT
  {
    match SkipFrom(s[i..], 0, 0)
    case Err(_) => 0
    case Ok(n) => if i + n > MAX_INT then 0 else i + n
  }

  ghost function PassDemand<S>(sc: Schema<S>, s: seq<u8>, i: nat): nat
    requires i < |s| <= MAX_INT
  {
    match TagFrom(s, i)
    case Err(_) => 0
    case Ok(tag) =>
      if !sc.known(tag.number) then SkipDemand(s, i)
      else if tag.wireType == LENGTH_DELIMITED then SpanDemand(s, i + tag.size)
      else 0
  }

  /** The index that the pass with which decoding ends asks for. */
  ghost function Demand<S>(sc: Schema<S>, s: seq<u8>, i: nat, st: S): nat
    requires i <= |s| <= MAX_INT
    decreases |s| - i
  {
    if i == |s| then 0
    else
      match DecodePass(sc, s, i, st)
      case Stop(_, _) => PassDemand(sc, s, i)
      case Next(j, after) => Demand(sc, s, j, after)
  }

  lemma SpanShift(a: seq<u8>, b: seq<u8>, j: nat)
    requires j <= |b| && |a + b| <= MAX_INT
    ensures var far := SpanFrom(a + b, |a| + j); var near := SpanFrom(b, j);
      && SameResult(SpanEnd(far), SpanEnd(near), |a|)
      && (near.Ok? ==> (a + b)[far.value.lo..far.value.hi] == b[near.value.lo..near.value.hi])
      && (near.Err? ==> (far == near <==> |a| + SpanDemand(b, j) <= MAX_INT))
      && (near.Ok? ==> SpanDemand(b, j) <= |b|)
  {
    hide Read;
    ShiftDrop(a, b, j);
  }

  lemma SkipShift(a: seq<u8>, b: seq<u8>, i: nat)
    requires i < |b| && |a + b| <= MAX_INT
    ensures var far := SkipTo(a + b, |a| + i); var near := SkipTo(b, i);
      && SameResult(far, near, |a|)
      && (near.Err? ==> (far == near <==> |a| + SkipDemand(b, i) <= MAX_INT))
      && (near.Ok? ==> SkipDemand(b, i) <= |b|)
  {
    hide SkipFrom;
    ShiftDrop(a, b, i);
  }

  lemma PassShift<S>(sc: Schema<S>, a: seq<u8>, b: seq<u8>, i: nat, st: S)
    requires i < |b| && |a + b| <= MAX_INT
    ensures var far := DecodePass(sc, a + b, |a| + i, st);
      match DecodePass(sc, b, i, st)
      case Next(j, after) => far == Next(|a| + j, after)
      case Stop(e, after) =>
        && (far == Stop(e, after) || (far == Stop(InvalidLength, after) && e == UnexpectedEOF))
        && (far == Stop(e, after) <==> |a| + PassDemand(sc, b, i) <= MAX_INT)
  {
    hide SpanFrom, SkipTo, Read, SpanDemand, SkipDemand;
    ShiftDrop(a, b, i);
    SkipShift(a, b, i);
    if TagFrom(b, i).Ok? { SpanShift(a, b, i + TagFrom(b, i).value.size); }
  }

  lemma {:induction false} DecodeShift<S(!new)>(sc: Schema<S>, a: seq<u8>, b: seq<u8>, i: nat, st: S)
    requires i <= |b| && |a + b| <= MAX_INT
    ensures var far := DecodeFrom(sc, a + b, |a| + i, st); var near := DecodeFrom(sc, b, i, st);
      SameBut(far, near) && (far == near <==> |a| + Demand(sc, b, i, st) <= MAX_INT)
    decreases |b| - i
  {
    hide DecodePass, PassDemand;
    if i < |b| {
      PassShift(sc, a, b, i, st);
      var p := DecodePass(sc, b, i, st);
      if p.Next? { DecodeShift(sc, a, b, p.index, p.after); }
    }
  }

  /** Decoding takes concatenation to merging: behind an accepted input, decoding goes on as if it started afresh
      from the message decoded so far; also when it fails, and with the same message left behind. The error, too, is
      the same exactly when the index at which decoding ends is still an int at its place in the whole input. */
  lemma DecodeConcat<S(!new)>(sc: Schema<S>, a: seq<u8>, b: seq<u8>, st: S)
    requires |a + b| <= MAX_INT && Decode(sc, a, st).Done?
    ensures var mid := Decode(sc, a, st).state;
      && SameBut(Decode(sc, a + b, st), Decode(sc, b, mid))
      && (Decode(sc, a + b, st) == Decode(sc, b, mid) <==> |a| + Demand(sc, b, 0, mid) <= MAX_INT)
  {
    hide DecodePass, Apply, Demand;
    var fs := FieldsOfDecode(sc, a, 0, st);
    assert a[0..] == a && (a + b)[0..] == a + b;
    DecodeMergesFields(sc, a + b, 0, st, fs);
    DecodeShift(sc, a, b, 0, Decode(sc, a, st).state);
  }

  // ---- unknown fields -----------------------------------------------------------------------------------------

  ghost predicate Positive(fs: seq<Field>) {
    forall f <- fs :: f.Number() > 0
  }

  ghost predicate AllUnknown<S>(sc: Schema<S>, fs: seq<Field>) {
    forall f <- fs :: f.Number() > 0 && !sc.known(f.Number())
  }

  ghost function Known<S>(sc: Schema<S>, fs: seq<Field>): seq<Field> {
    if fs == [] then []
    else if sc.known(fs[0].Number()) then [fs[0]] + Known(sc, fs[1..])
    else Known(sc, fs[1..])
  }

  /** Wherever they stand, fields with numbers outside the table change nothing: not the message, not the error. */
  lemma {:induction false} MergeIgnoresUnknown<S>(sc: Schema<S>, fs: seq<Field>, st: S)
    requires Positive(fs)
    ensures Merge(sc, fs, st) == Merge(sc, Known(sc, fs), st)
    decreases |fs|
  {
    if fs != [] {
      var o := Apply(sc, fs[0], st);
      if o.Done? { MergeIgnoresUnknown(sc, fs[1..], o.state); }
      assert ([fs[0]] + Known(sc, fs[1..]))[1..] == Known(sc, fs[1..]);
    }
  }

  /** So two inputs that differ only in unknown fields decode alike. */
  lemma DecodeIgnoresUnknown<S>(sc: Schema<S>, fs: seq<Field>, gs: seq<Field>, st: S)
    requires AllValid(fs) && AllValid(gs) && Positive(fs) && Positive(gs) && Known(sc, fs) == Known(sc, gs)
    requires |Flatten(fs)| <= MAX_INT && |Flatten(gs)| <= MAX_INT
    ensures Decode(sc, Flatten(fs), st) == Decode(sc, Flatten(gs), st)
  {
    hide Decode;
    DecodeOfFields(sc, fs, st);
    DecodeOfFields(sc, gs, st);
    MergeIgnoresUnknown(sc, fs, st);
    MergeIgnoresUnknown(sc, gs, st);
  }

  lemma {:induction false} UnknownDecodesToNothing<S>(sc: Schema<S>, us: seq<Field>, st: S)
    requires AllValid(us) && AllUnknown(sc, us) && |Flatten(us)| <= MAX_INT
    ensures Decode(sc, Flatten(us), st) == Done(st)
  {
    hide Decode;
    DecodeOfFields(sc, us, st);
    NoneKnown(sc, us);
    MergeIgnoresUnknown(sc, us, st);
  }

  lemma {:induction false} NoneKnown<S>(sc: Schema<S>, us: seq<Field>)
    requires AllUnknown(sc, us)
    ensures Known(sc, us) == []
  {
    if us != [] { NoneKnown(sc, us[1..]); }
  }

  /** Two outcomes of decoding inputs that differ by an inserted part, which left the message as it was: they differ
      at most where an index overflows in the longer input only. */
  ghost predicate SameAcross<S(!new)>(longer: Outcome<S>, shorter: Outcome<S>, far: nat, near: nat) {
    SameBut(longer, shorter) && (longer == shorter <==> far <= MAX_INT || near > MAX_INT)
  }

  /** Bytes u that decode to no change at their place may be inserted there. */
  lemma NeutralInserted<S(!new)>(sc: Schema<S>, a: seq<u8>, u: seq<u8>, b: seq<u8>, st: S)
    requires |a + u + b| <= MAX_INT && Decode(sc, a, st).Done?
    requires Decode(sc, u, Decode(sc, a, st).state) == Done(Decode(sc, a, st).state)
    ensures var demand := Demand(sc, b, 0, Decode(sc, a, st).state);
      SameAcross(Decode(sc, a + u + b, st), Decode(sc, a + b, st), |a + u| + demand, |a| + demand)
  {
    hide Decode, Demand;
    var mid := Decode(sc, a, st).state;
    DecodeConcat(sc, a, u, st);
    DecodeConcat(sc, a + u, b, st);
    DecodeConcat(sc, a, b, st);
  }

  /** Unknown fields inserted behind any accepted part of an input leave its decoding as it was without them: the
      message, whether it is accepted, and, unless an index overflows in the longer input only, the error. */
  lemma UnknownInserted<S(!new)>(sc: Schema<S>, a: seq<u8>, us: seq<Field>, b: seq<u8>, st: S)
    requires |a + Flatten(us) + b| <= MAX_INT && AllValid(us) && AllUnknown(sc, us)
    requires Decode(sc, a, st).Done?
    ensures var demand := Demand(sc, b, 0, Decode(sc, a, st).state);
      SameAcross(Decode(sc, a + Flatten(us) + b, st), Decode(sc, a + b, st), |a + Flatten(us)| + demand, |a| + demand)
  {
    hide Decode, Demand;
    UnknownDecodesToNothing(sc, us, Decode(sc, a, st).state);
    NeutralInserted(sc, a, Flatten(us), b, st);
  }

  // ---- the order of fields ------------------------------------------------------------------------------------

  /** The fields with number n, in their order. */
  ghost function Only(fs: seq<Field>, n: int): seq<Field> {
    if fs == [] then []
    else if fs[0].Number() == n then [fs[0]] + Only(fs[1..], n)
    else Only(fs[1..], n)
  }

  /** Different fields are stored in different places. */
  ghost predicate Independent<S(!new)>(sc: Schema<S>) {
    forall st, m, p, n, q |
      m != n && sc.known(m) && sc.known(n) && sc.store(st, m, p).Done?
      && sc.store(sc.store(st, m, p).state, n, q).Done? ::
      && sc.store(st, n, q).Done?
      && sc.store(sc.store(st, n, q).state, m, p) == sc.store(sc.store(st, m, p).state, n, q)
  }

  /** Numbers are positive, and every number in both sequences that the decoder knows has the same fields, in the
      same order. */
  ghost predicate SameByNumber<S>(sc: Schema<S>, fs: seq<Field>, gs: seq<Field>) {
    Positive(fs) && Positive(gs) && forall n | sc.known(n) :: Only(fs, n) == Only(gs, n)
  }

  lemma {:induction false} OnlyAppend(fs: seq<Field>, gs: seq<Field>, n: int)
    ensures Only(fs + gs, n) == Only(fs, n) + Only(gs, n)
    decreases |fs|
  {
    if fs == [] {
      assert fs + gs == gs;
    } else {
      assert (fs + gs)[1..] == fs[1..] + gs;
      OnlyAppend(fs[1..], gs, n);
    }
  }

  /** The first field with number n, with what stands before and behind it. */
  lemma {:induction false} FirstOnly(fs: seq<Field>, n: int) returns (pre: seq<Field>, f: Field, post: seq<Field>)
    requires Only(fs, n) != []
    ensures fs == pre + [f] + post && f.Number() == n && Only(pre, n) == [] && f == Only(fs, n)[0]
  {
    if fs[0].Number() == n {
      pre, f, post := [], fs[0], fs[1..];
    } else {
      pre, f, post := FirstOnly(fs[1..], n);
      pre := [fs[0]] + pre;
      assert pre[1..] + [f] + post == fs[1..];
    }
  }

  /** Two neighbours with different numbers may change places. */
  lemma SwapFields<S(!new)>(sc: Schema<S>, f: Field, g: Field, st: S)
    requires Independent(sc) && f.Number() != g.Number()
    requires Apply(sc, f, st).Done? && Apply(sc, g, Apply(sc, f, st).state).Done?
    ensures Apply(sc, g, st).Done?
    ensures Apply(sc, f, Apply(sc, g, st).state) == Apply(sc, g, Apply(sc, f, st).state)
  {
  }

  lemma {:induction false} MoveToFront<S(!new)>(sc: Schema<S>, pre: seq<Field>, f: Field, post: seq<Field>, st: S)
    requires Independent(sc) && Only(pre, f.Number()) == []
    requires Merge(sc, pre + ([f] + post), st).Done?
    ensures Apply(sc, f, st).Done?
    ensures Merge(sc, pre + post, Apply(sc, f, st).state) == Merge(sc, pre + ([f] + post), st)
    decreases |pre|
  {
    hide Apply, Independent;
    if pre == [] {
      assert pre + ([f] + post) == [f] + post;
      assert pre + post == post && ([f] + post)[1..] == post;
    } else {
      var g := pre[0];
      var o := Apply(sc, g, st);
      assert (pre + ([f] + post))[1..] == pre[1..] + ([f] + post);
      assert (pre + post)[1..] == pre[1..] + post;
      MoveToFront(sc, pre[1..], f, post, o.state);
      SwapFields(sc, g, f, st);
    }
  }

  /** A successful merge depends only on the fields of each known number: fields of different numbers may be
      interleaved in any way, and unknown fields strewn in. */
  lemma {:induction false} MergeByNumber<S(!new)>(sc: Schema<S>, fs: seq<Field>, gs: seq<Field>, st: S)
    requires Independent(sc) && SameByNumber(sc, fs, gs) && Merge(sc, fs, st).Done?
    ensures Merge(sc, gs, st) == Merge(sc, fs, st)
    decreases |gs|
  {
    hide Independent;
    if gs == [] {
      NothingOnly(sc, fs);
      MergeIgnoresUnknown(sc, fs, st);
    } else {
      var g := gs[0];
      var n := g.Number();
      if sc.known(n) {
        var pre, f, post := FirstOnly(fs, n);
        assert pre + [f] + post == pre + ([f] + post);
        MoveToFront(sc, pre, f, post, st);
        FrontRemoved(sc, pre, f, post, gs);
        MergeByNumber(sc, pre + post, gs[1..], Apply(sc, f, st).state);
      } else {
        MergeByNumber(sc, fs, gs[1..], st);
      }
    }
  }

  lemma {:induction false} NothingOnly<S>(sc: Schema<S>, fs: seq<Field>)
    requires forall n | sc.known(n) :: Only(fs, n) == []
    ensures Known(sc, fs) == []
  {
    if fs != [] {
      assert !sc.known(fs[0].Number());
      forall n | sc.known(n) ensures Only(fs[1..], n) == [] {
        assert Only(fs, n) == [];
      }
      NothingOnly(sc, fs[1..]);
    }
  }

  lemma FrontRemoved<S>(sc: Schema<S>, pre: seq<Field>, f: Field, post: seq<Field>, gs: seq<Field>)
    requires gs != [] && f == gs[0] && Only(pre, f.Number()) == []
    requires SameByNumber(sc, pre + ([f] + post), gs)
    ensures SameByNumber(sc, pre + post, gs[1..])
  {
    var fs := pre + ([f] + post);
    assert Positive(pre + post) by {
      forall g <- pre + post ensures g.Number() > 0 {
        assert g in fs;
      }
    }
    forall n | sc.known(n) ensures Only(pre + post, n) == Only(gs[1..], n) {
      OnlyAppend(pre, [f] + post, n);
      OnlyAppend(pre, post, n);
      assert ([f] + post)[1..] == post;
      assert Only(fs, n) == Only(gs, n);
      if n == f.Number() {
        assert Only(post, n) == Only(fs, n)[1..];
        assert Only(gs[1..], n) == Only(gs, n)[1..];
      }
    }
  }

  /** Decoding does not depend on how the fields of different numbers are interleaved. */
  lemma DecodeByNumber<S(!new)>(sc: Schema<S>, fs: seq<Field>, gs: seq<Field>, st: S, after: S)
    requires Independent(sc) && SameByNumber(sc, fs, gs) && AllValid(fs) && AllValid(gs)
    requires |Flatten(fs)| <= MAX_INT && |Flatten(gs)| <= MAX_INT
    ensures Decode(sc, Flatten(fs), st) == Done(after) <==> Decode(sc, Flatten(gs), st) == Done(after)
  {
    hide Decode, Independent;
    DecodeOfFields(sc, fs, st);
    DecodeOfFields(sc, gs, st);
    if Merge(sc, fs, st).Done? { MergeByNumber(sc, fs, gs, st); }
    if Merge(sc, gs, st).Done? { MergeByNumber(sc, gs, fs, st); }
  }

  /** In particular, fields that each occur once may be permuted. */
  lemma DecodePermuted<S(!new)>(sc: Schema<S>, fs: seq<Field>, gs: seq<Field>, st: S, after: S)
    requires Independent(sc) && AllValid(fs) && Positive(fs) && multiset(fs) == multiset(gs)
    requires forall n | sc.known(n) :: |Only(fs, n)| <= 1
    requires |Flatten(fs)| <= MAX_INT && |Flatten(gs)| <= MAX_INT
    ensures Decode(sc, Flatten(fs), st) == Done(after) <==> Decode(sc, Flatten(gs), st) == Done(after)
  {
    hide Decode, Independent;
    forall g <- gs ensures g in fs {
      assert g in multiset(gs);
    }
    forall n | sc.known(n) ensures Only(fs, n) == Only(gs, n) {
      OnlyPermuted(fs, gs, n);
    }
    DecodeByNumber(sc, fs, gs, st, after);
  }

  lemma OnlyPermuted(fs: seq<Field>, gs: seq<Field>, n: int)
    requires multiset(fs) == multiset(gs) && |Only(fs, n)| <= 1
    ensures Only(fs, n) == Only(gs, n)
  {
    var a, b := Only(fs, n), Only(gs, n);
    forall f: Field ensures multiset(a)[f] == multiset(b)[f] {
      OnlyCounts(fs, n, f);
      OnlyCounts(gs, n, f);
    }
    assert multiset(a) == multiset(b);
    assert |b| == |multiset(b)| == |multiset(a)| == |a|;
    if |b| == 1 {
      assert b[0] in multiset(a);
    }
  }

  lemma {:induction false} OnlyCounts(fs: seq<Field>, n: int, f: Field)
    ensures multiset(Only(fs, n))[f] == if f.Number() == n then multiset(fs)[f] else 0
  {
    if fs != [] {
      OnlyCounts(fs[1..], n, f);
      assert fs == [fs[0]] + fs[1..];
    }
  }

  // ---- truncated input ----------------------------------------------------------------------------------------

  lemma SpanCut(f: Field, s: seq<u8>, i: nat)
    requires f.Valid() && f.Bytes? && EndsInside(s, i, f.Text()) && |s| - i >= |f.tag|
    ensures SpanFrom(s, i + |f.tag|) == Err(UnexpectedEOF)
  {
    var j := i + |f.tag|;
    EndsBehind(s, i, f.tag, f.Body());
    EndsBehind(s, j, f.length, f.payload);
    if |s| - j < |f.length| {
      ReadCut(f.length, s, j);
    } else {
      ReadComplete(f.length, s[j..]);
    }
  }

  lemma SkipToCut(f: Field, s: seq<u8>, i: nat)
    requires f.Valid() && EndsInside(s, i, f.Text()) && i < |s|
    ensures SkipTo(s, i) == Err(UnexpectedEOF)
  {
    hide SkipFrom;
    assert s[i..][0..] == s[i..];
    SkipCut(f, s[i..], 0, 0);
  }

  lemma TagCut(f: Field, s: seq<u8>, i: nat)
    requires f.Valid() && EndsInside(s, i, f.Text()) && i < |s|
    ensures TagFrom(s, i) ==
      if |s| - i < |f.tag| then Err(UnexpectedEOF)
      else if f.Number() <= 0 then Err(IllegalTag)
      else Ok(Tag(f.Number(), WireType(f.tag), |f.tag|))
    ensures WireType(f.tag) != END_GROUP && (WireType(f.tag) == LENGTH_DELIMITED <==> f.Bytes?)
  {
    EndsBehind(s, i, f.tag, f.Body());
    if |s| - i < |f.tag| {
      ReadCut(f.tag, s, i);
    } else {
      ReadComplete(f.tag, s[i..]);
    }
  }

  /** A pass that meets a cut field reports the end of the input, and nothing of the field is stored. */
  lemma PassCut<S>(sc: Schema<S>, f: Field, s: seq<u8>, i: nat, st: S)
    requires f.Valid() && EndsInside(s, i, f.Text()) && i < |s|
    requires f.Number() > 0 && (sc.known(f.Number()) ==> f.Bytes?)
    ensures DecodePass(sc, s, i, st) == Stop(UnexpectedEOF, st)
  {
    hide TagFrom, SpanFrom, SkipTo, SkipFrom, Read, IsVarint;
    TagCut(f, s, i);
    SkipToCut(f, s, i);
    if f.Bytes? && |s| - i >= |f.tag| { SpanCut(f, s, i); }
  }

  /** Truncation is detected. Cut inside its next field, an accepted input fails with the end of the input, and the
      message holds the fields before the cut; cut between two fields, it is accepted with just these. */
  lemma DecodeTruncated<S>(sc: Schema<S>, fs: seq<Field>, k: nat, cut: nat, st: S)
    requires AllValid(fs) && |Flatten(fs)| <= MAX_INT && Merge(sc, fs, st).Done?
    requires k < |fs| && |Flatten(fs[..k])| <= cut < |Flatten(fs[..k])| + |fs[k].Text()|
    ensures cut < |Flatten(fs)|
    ensures Merge(sc, fs[..k], st).Done?
    ensures var before := Merge(sc, fs[..k], st).state;
      Decode(sc, Flatten(fs)[..cut], st) ==
        if cut == |Flatten(fs[..k])| then Done(before) else Failed(UnexpectedEOF, before)
  {
    hide DecodePass, Apply;
    var pre, post := fs[..k], fs[k + 1..];
    var f := fs[k];
    assert fs == pre + fs[k..] && fs[k..][0] == f && fs[k..][1..] == post;
    FlattenAppend(pre, fs[k..]);
    MergeAppend(sc, pre, fs[k..], st);
    var before := Merge(sc, pre, st).state;
    var i := |Flatten(pre)|;
    var t := Flatten(fs);
    assert t == Flatten(pre) + (f.Text() + Flatten(post));
    var s := t[..cut];
    assert s[0..] == s && Flatten(pre) <= s;
    DecodeMergesFields(sc, s, 0, st, pre);
    if i < cut {
      assert s[i..] == f.Text()[..cut - i];
      CutFieldIsBytes(sc, f, before);
      PassCut(sc, f, s, i, before);
    }
  }

  lemma CutFieldIsBytes<S>(sc: Schema<S>, f: Field, st: S)
    requires Apply(sc, f, st).Done?
    ensures f.Number() > 0 && (sc.known(f.Number()) ==> f.Bytes?)
  {
  }

  /** Every cut lies in front of or inside some field. */
  lemma {:induction false} CutLiesIn(fs: seq<Field>, cut: nat) returns (k: nat)
    requires cut < |Flatten(fs)|
    ensures k < |fs| && |Flatten(fs[..k])| <= cut < |Flatten(fs[..k])| + |fs[k].Text()|
  {
    if cut < |fs[0].Text()| {
      k := 0;
      assert fs[..0] == [];
    } else {
      var j := CutLiesIn(fs[1..], cut - |fs[0].Text()|);
      k := j + 1;
      assert fs[..k][1..] == fs[1..][..j];
    }
  }
}
