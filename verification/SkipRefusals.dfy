/** Exactly which inputs the skipper refuses, and why: what stands behind the groups it has entered and the fields it
    has passed in them. */
module SkipRefusals {
  import opened Machine
  import opened Results
  import opened Varint
  import opened Wire
  import opened SkipGrammar

  /** A group that has been entered but not left: its tag, and the fields passed since. */
  datatype Opening = Opening(tag: seq<u8>, fields: seq<Field>) {
    ghost predicate Valid() {
      IsVarint(tag) && WireType(tag) == START_GROUP && AllValid(fields)
    }

    ghost function Text(): seq<u8> {
      tag + Flatten(fields)
    }
  }

  ghost predicate AllOpen(os: seq<Opening>) {
    forall o <- os :: o.Valid()
  }

  lemma LastOpen(os: seq<Opening>)
    requires os != [] && AllOpen(os)
    ensures AllOpen(os[..|os| - 1]) && os[|os| - 1].Valid()
  {
    assert os[|os| - 1] in os && forall q <- os[..|os| - 1] :: q in os;
  }

  lemma AllOpenAppend(os: seq<Opening>, o: Opening)
    requires AllOpen(os) && o.Valid()
    ensures AllOpen(os + [o])
  {
  }

  /** The bytes in front of the cursor, with the groups os open, outermost first. */
  ghost function OpenText(os: seq<Opening>): seq<u8> {
    if os == [] then [] else OpenText(os[..|os| - 1]) + os[|os| - 1].Text()
  }

  /** A varint that has begun and not ended; or not begun. */
  ghost predicate CutVarint(t: seq<u8>) {
    |t| <= 9 && Unended(t)
  }

  ghost predicate Unended(t: seq<u8>) {
    forall j | 0 <= j < |t| :: t[j] >= 128
  }

  /** The part of a leaf that the loop reads; the rest it jumps over. */
  ghost function HeadLength(f: Field): nat {
    match f
    case Varint(tag, number) => |tag| + |number|
    case Bytes(tag, length, _) => |tag| + |length|
    case _ => |f.tag|
  }

  /** The input ends with t inside f, which stands at index at: in its head, or in its payload, whose end is an int. */
  ghost predicate CutsLeaf(f: Field, t: seq<u8>, at: nat) {
    && f.Valid() && !f.Group? && |f.tag| <= |t| && t < f.Text()
    && (|t| < HeadLength(f) || at + |f.Text()| <= MAX_INT)
  }

  ghost predicate CutToken(t: seq<u8>, at: nat) {
    CutVarint(t) || exists f: Field :: CutsLeaf(f, t, at)
  }

  ghost predicate CutShortAt(s: seq<u8>, os: seq<Opening>, t: seq<u8>) {
    AllOpen(os) && s == OpenText(os) + t && CutToken(t, |OpenText(os)|)
  }

  ghost predicate CutShort(s: seq<u8>) {
    exists os, t :: CutShortAt(s, os, t)
  }

  /** What the callers of the skipper turn into an unexpected end of the input. */
  ghost predicate TooShort(s: seq<u8>, r: Result<nat>) {
    r == Err(UnexpectedEOF) || (r.Ok? && r.value > |s|)
  }

  // ---- varints cut short --------------------------------------------------------------------------------------

  lemma {:induction false} ReadDigitsEnds(t: seq<u8>, k: nat)
    requires k <= 10
    ensures ReadDigits(t, k) == Err(UnexpectedEOF) <==> k + |t| <= 9 && Unended(t)
    decreases |t|
  {
    if t != [] && k < 10 {
      ReadDigitsEnds(t[1..], k + 1);
      UnendedTail(t);
    }
  }

  lemma UnendedTail(t: seq<u8>)
    requires t != []
    ensures Unended(t) <==> t[0] >= 128 && Unended(t[1..])
  {
    if t[0] >= 128 && Unended(t[1..]) {
      forall j | 0 <= j < |t| ensures t[j] >= 128 {
        assert j > 0 ==> t[j] == t[1..][j - 1];
      }
    }
  }

  /** Reading meets the end of the input exactly when a varint has not ended there. */
  lemma ReadEnds(t: seq<u8>)
    ensures Read(t) == Err(UnexpectedEOF) <==> CutVarint(t)
  {
    ReadDigitsEnds(t, 0);
  }

  lemma ReadPrefix(bs: seq<u8>, t: seq<u8>)
    requires IsVarint(bs) && t < bs
    ensures Read(t) == Err(UnexpectedEOF)
  {
    assert t == bs[..|t|];
    ReadDigitsCut(bs, |t|, 0);
  }

  lemma {:induction false} EndWithZero(t: seq<u8>)
    requires Unended(t)
    ensures Digits(t + [0]) && Digit128(t + [0]) == Digit128(t)
    decreases |t|
  {
    if t == [] {
      assert t + [0] == [0] && [0][1..] == [];
    } else {
      UnendedTail(t);
      assert (t + [0])[1..] == t[1..] + [0];
      EndWithZero(t[1..]);
    }
  }

  /** A zero byte ends any varint that has begun, and the length it then is, is no negative int. */
  lemma CompleteVarint(t: seq<u8>)
    requires CutVarint(t)
    ensures IsVarint(t + [0]) && Value(t + [0]) < TWO_63
    ensures t != [] ==> WireType(t + [0]) == t[0] % 8
  {
    EndWithZero(t);
    DigitsBound(t);
    Pow2Values();
    Pow2Monotone(7 * |t|, 63);
    if t != [] {
      FirstByte(t + [0]);
    }
  }

  lemma FirstByte(bs: seq<u8>)
    requires bs != []
    ensures WireType(bs) == bs[0] % 8
  {
    LowBits(Digit128(bs));
    LowDigit(bs[0], Digit128(bs[1..]));
  }

  lemma LowBits(x: nat)
    ensures UInt64(x) % 8 == x % 8
  {
    var q := x / TWO_64;
    assert UInt64(x) == x - TWO_64 * q;
  }

  lemma LowDigit(b: u8, rest: nat)
    ensures (b % 128 + 128 * rest) % 8 == b % 8
  {
  }

  // ---- an input that is cut short is found too short ----------------------------------------------------------

  /** From the front of the input, the loop enters the open groups. */
  lemma {:induction false} SkipOpenings(os: seq<Opening>, s: seq<u8>)
    requires |s| <= MAX_INT && AllOpen(os) && OpenText(os) <= s
    ensures SkipFrom(s, 0, 0) == SkipFrom(s, |OpenText(os)|, |os|)
    decreases |os|
  {
    hide SkipFrom, IsVarint;
    if os != [] {
      var n := |os| - 1;
      var o := os[n];
      LastOpen(os);
      DropPrefix(OpenText(os[..n]), o.Text(), s);
      SkipOpenings(os[..n], s);
      var i := |OpenText(os[..n])|;
      SplitPrefix(o.tag, Flatten(o.fields), s, i);
      EnterGroup(o.tag, s, i, n);
      SkipFields(o.fields, s, i + |o.tag|, n + 1);
    }
  }

  lemma CutLeafBody(f: Field, s: seq<u8>, i: nat)
    requires |s| <= MAX_INT && i + |f.tag| <= |s| && CutsLeaf(f, s[i..], i)
    ensures var r := AfterBody(s, i + |f.tag|, WireType(f.tag));
      r == Err(UnexpectedEOF) || (r == Ok(i + |f.Text()|) && i + |f.Text()| > |s|)
  {
    hide Read, IsVarint;
    var j := i + |f.tag|;
    BodyIsCut(f, s, i);
    match f
    case Varint(_, number) =>
      ReadPrefix(number, s[j..]);
    case Bytes(_, length, payload) =>
      CutBytesBody(length, payload, s, j);
    case _ =>
  }

  lemma BodyIsCut(f: Field, s: seq<u8>, i: nat)
    requires i + |f.tag| <= |s| && s[i..] < f.Text()
    ensures s[i + |f.tag|..] < f.Body()
  {
    var j := i + |f.tag|;
    assert s[i..] == f.Text()[..|s| - i];
    assert s[j..] == s[i..][|f.tag|..] == f.Body()[..|s| - j];
  }

  lemma CutBytesBody(length: seq<u8>, payload: GoBytes, s: seq<u8>, j: nat)
    requires j <= |s| <= MAX_INT && IsVarint(length) && Value(length) == |payload| && s[j..] < length + payload
    requires |s| - j < |length| || j + |length| + |payload| <= MAX_INT
    ensures var r := AfterBody(s, j, LENGTH_DELIMITED);
      r == Err(UnexpectedEOF) || (r == Ok(j + |length| + |payload|) && j + |length| + |payload| > |s|)
  {
    hide Read, IsVarint;
    assert s[j..] == (length + payload)[..|s| - j];
    if |s| - j < |length| {
      assert s[j..] == length[..|s| - j];
      ReadPrefix(length, s[j..]);
    } else {
      assert length == s[j..][..|length|];
      ReadComplete(length, s[j..]);
    }
  }

  lemma CutTokenStops(s: seq<u8>, i: nat, depth: nat)
    requires i <= |s| <= MAX_INT && CutToken(s[i..], i)
    ensures SkipFrom(s, i, depth) == Err(UnexpectedEOF)
         || (depth == 0 && SkipFrom(s, i, depth).Ok? && SkipFrom(s, i, depth).value > |s|)
  {
    hide AfterBody, Read, IsVarint;
    if CutVarint(s[i..]) {
      ReadEnds(s[i..]);
    } else {
      var f: Field :| CutsLeaf(f, s[i..], i);
      assert f.Text()[..|f.tag|] == f.tag;
      assert s[i..][..|f.tag|] == f.tag;
      CutLeafBody(f, s, i);
      PassTag(f.tag, s, i, depth);
    }
  }

  // ---- an input found too short is cut short ------------------------------------------------------------------

  lemma {:induction false} OpenTextAppend(os: seq<Opening>, o: Opening)
    ensures OpenText(os + [o]) == OpenText(os) + o.Text()
  {
    assert (os + [o])[..|os|] == os;
  }

  lemma AppendField(os: seq<Opening>, f: Field) returns (after: seq<Opening>)
    requires os != [] && AllOpen(os) && f.Valid()
    ensures AllOpen(after) && |after| == |os| && OpenText(after) == OpenText(os) + f.Text()
  {
    hide AllOpen, Opening.Valid, Opening.Text;
    var n := |os| - 1;
    LastOpen(os);
    var o := Passed(os[n], f);
    after := os[..n] + [o];
    AllOpenAppend(os[..n], o);
    OpenTextAppend(os[..n], o);
    assert OpenText(os[..n]) + (os[n].Text() + f.Text()) == (OpenText(os[..n]) + os[n].Text()) + f.Text();
  }

  lemma Passed(o: Opening, f: Field) returns (after: Opening)
    requires o.Valid() && f.Valid()
    ensures after.Valid() && after.Text() == o.Text() + f.Text()
  {
    hide IsVarint, Flatten, Field.Text, Field.Valid, WireType;
    after := Opening(o.tag, o.fields + [f]);
    FlattenAppend(o.fields, [f]);
    FlattenOne(f);
    assert (o.tag + Flatten(o.fields)) + f.Text() == o.tag + (Flatten(o.fields) + f.Text());
  }

  /** An open group, some more fields in it, and its end-group tag. */
  lemma Closed(o: Opening, fs: seq<Field>, endTag: seq<u8>) returns (f: Field)
    requires o.Valid() && AllValid(fs) && IsVarint(endTag) && WireType(endTag) == END_GROUP
    ensures f.Valid() && f.Text() == o.Text() + (Flatten(fs) + endTag)
  {
    hide IsVarint, Flatten;
    f := Group(o.tag, o.fields + fs, endTag);
    FlattenAppend(o.fields, fs);
    Regroup(o.tag, Flatten(o.fields), Flatten(fs), endTag);
  }

  lemma Regroup(a: seq<u8>, b: seq<u8>, c: seq<u8>, d: seq<u8>)
    ensures a + ((b + c) + d) == (a + b) + (c + d)
  {
  }

  lemma LeaveOpening(os: seq<Opening>, endTag: seq<u8>) returns (after: seq<Opening>)
    requires |os| > 1 && AllOpen(os) && IsVarint(endTag) && WireType(endTag) == END_GROUP
    ensures AllOpen(after) && |after| == |os| - 1 && OpenText(after) == OpenText(os) + endTag
  {
    hide IsVarint, AllOpen, Opening.Valid, Opening.Text, Field.Text, Field.Valid;
    var n := |os| - 1;
    LastOpen(os);
    var group := Closed(os[n], [], endTag);
    after := AppendField(os[..n], group);
    assert Flatten([]) + endTag == endTag;
    assert OpenText(os[..n]) + (os[n].Text() + endTag) == (OpenText(os[..n]) + os[n].Text()) + endTag;
  }

  /** The pass that runs out of input stands before a token that is cut. */
  lemma StuckPass(s: seq<u8>, i: nat, depth: nat)
    requires i < |s| <= MAX_INT
    requires var p := SkipPass(s, i, depth); p == Err(UnexpectedEOF) || (p.Ok? && p.value.index > |s|)
    ensures CutToken(s[i..], i)
  {
    hide IsVarint, Read, AfterBody;
    ReadEnds(s[i..]);
    if Read(s[i..]) != Err(UnexpectedEOF) {
      var tag := TagAt(s, i);
      var f := StuckLeaf(s, i, tag);
      assert CutsLeaf(f, s[i..], i);
    }
  }

  lemma StuckLeaf(s: seq<u8>, i: nat, tag: seq<u8>) returns (f: Field)
    requires i + |tag| <= |s| <= MAX_INT && tag == s[i..i + |tag|] && IsVarint(tag)
    requires var r := AfterBody(s, i + |tag|, WireType(tag)); r == Err(UnexpectedEOF) || (r.Ok? && r.value > |s|)
    ensures CutsLeaf(f, s[i..], i)
  {
    hide IsVarint, Read;
    var j := i + |tag|;
    assert s[i..] == tag + s[j..];
    if WireType(tag) == VARINT {
      ReadEnds(s[j..]);
      CompleteVarint(s[j..]);
      f := Varint(tag, s[j..] + [0]);
      assert f.Text() == s[i..] + [0];
    } else if WireType(tag) == FIXED64 {
      f := StuckFixed(s, i, tag, 8);
    } else if WireType(tag) == FIXED32 {
      f := StuckFixed(s, i, tag, 4);
    } else {
      f := StuckBytes(s, i, tag);
    }
  }

  lemma StuckFixed(s: seq<u8>, i: nat, tag: seq<u8>, n: nat) returns (f: Field)
    requires i + |tag| <= |s| <= MAX_INT && tag == s[i..i + |tag|] && IsVarint(tag)
    requires (n == 8 && WireType(tag) == FIXED64) || (n == 4 && WireType(tag) == FIXED32)
    requires |s| < i + |tag| + n <= MAX_INT
    ensures CutsLeaf(f, s[i..], i)
  {
    hide IsVarint;
    var j := i + |tag|;
    var payload: seq<u8> := s[j..] + seq(j + n - |s|, _ => 0);
    f := if n == 8 then Fixed64(tag, payload) else Fixed32(tag, payload);
    assert f.Text() == s[i..] + seq(j + n - |s|, _ => 0);
  }

  lemma StuckBytes(s: seq<u8>, i: nat, tag: seq<u8>) returns (f: Field)
    requires i + |tag| <= |s| <= MAX_INT && tag == s[i..i + |tag|] && IsVarint(tag)
    requires WireType(tag) == LENGTH_DELIMITED
    requires var r := AfterBody(s, i + |tag|, WireType(tag)); r == Err(UnexpectedEOF) || (r.Ok? && r.value > |s|)
    ensures CutsLeaf(f, s[i..], i)
  {
    hide IsVarint, Read, Int64, CutVarint;
    var j := i + |tag|;
    ReadEnds(s[j..]);
    assert s[i..] == tag + s[j..];
    if Read(s[j..]) == Err(UnexpectedEOF) {
      CompleteVarint(s[j..]);
      var length := s[j..] + [0];
      f := Bytes(tag, length, seq(Value(length), _ => 0));
      assert f.Text() == s[i..] + [0] + f.payload;
    } else {
      var length := TagAt(s, j);
      var k := j + |length|;
      var missing := k + Value(length) - |s|;
      f := Bytes(tag, length, s[k..] + seq(missing, _ => 0));
      assert s[j..] == length + s[k..];
      assert f.Text() == s[i..] + seq(missing, _ => 0);
    }
  }

  /** The result of a skip that does not end inside its input. */
  ghost predicate NotInside(s: seq<u8>, r: Result<nat>) {
    r.Err? || r.value > |s|
  }

  /** The loop, with the groups os open, is at the end of the input or in a pass that does not end inside it. */
  ghost predicate Stands(s: seq<u8>, os: seq<Opening>, t: seq<u8>)
    requires |s| <= MAX_INT
  {
    && AllOpen(os) && s == OpenText(os) + t
    && (t != [] ==> var p := SkipPass(s, |OpenText(os)|, |os|); p.Err? || p.value.index > |s|)
  }

  /** Walking on from the groups os, the loop comes to such a place. */
  lemma {:induction false} FindStand(s: seq<u8>, os: seq<Opening>) returns (at: seq<Opening>, t: seq<u8>)
    requires |s| <= MAX_INT && AllOpen(os) && OpenText(os) <= s
    requires NotInside(s, SkipFrom(s, |OpenText(os)|, |os|))
    ensures Stands(s, at, t)
    ensures SkipFrom(s, |OpenText(os)|, |os|) == SkipFrom(s, |OpenText(at)|, |at|)
    decreases |s| - |OpenText(os)|
  {
    hide SkipPass, IsVarint, Read, SkipFrom;
    var i, depth := |OpenText(os)|, |os|;
    at, t := os, s[i..];
    assert s == OpenText(os) + t;
    if i < |s| {
      var p := SkipPass(s, i, depth);
      if p.Ok? && p.value.index <= |s| {
        var next := WalkOn(s, os);
        at, t := FindStand(s, next);
      }
    }
  }

  lemma StandsBeforeCut(s: seq<u8>, os: seq<Opening>, t: seq<u8>)
    requires |s| <= MAX_INT && Stands(s, os, t) && TooShort(s, SkipFrom(s, |OpenText(os)|, |os|))
    ensures CutShortAt(s, os, t)
  {
    hide SkipPass, CutToken, AllOpen;
    var i := |OpenText(os)|;
    assert s[i..] == t;
    if t == [] {
      NothingIsCut(t, i);
    } else {
      StuckPass(s, i, |os|);
    }
  }

  lemma NothingIsCut(t: seq<u8>, at: nat)
    requires t == []
    ensures CutToken(t, at)
  {
  }

  /** One pass that does not end the loop, as a change of what is open. */
  lemma WalkOn(s: seq<u8>, os: seq<Opening>) returns (after: seq<Opening>)
    requires |s| <= MAX_INT && AllOpen(os) && OpenText(os) <= s && |OpenText(os)| < |s|
    requires NotInside(s, SkipFrom(s, |OpenText(os)|, |os|))
    requires SkipPass(s, |OpenText(os)|, |os|).Ok? && SkipPass(s, |OpenText(os)|, |os|).value.index <= |s|
    ensures AllOpen(after) && OpenText(after) <= s && |OpenText(after)| > |OpenText(os)|
    ensures SkipFrom(s, |OpenText(os)|, |os|) == SkipFrom(s, |OpenText(after)|, |after|)
  {
    hide SkipPass, IsVarint, Read;
    var i, depth := |OpenText(os)|, |os|;
    var c := SkipPass(s, i, depth).value;
    PassKind(s, i, depth);
    var tag := TagAt(s, i);
    assert s[..i] == OpenText(os);
    assert s[..c.index] == s[..i] + s[i..c.index];
    if WireType(tag) == START_GROUP {
      var o := Opening(tag, []);
      after := os + [o];
      OpenTextAppend(os, o);
      assert o.Text() == tag;
    } else if WireType(tag) == END_GROUP {
      after := LeaveOpening(os, tag);
    } else {
      var f := LeafAt(s, i, depth);
      after := AppendField(os, f);
    }
    assert OpenText(after) == s[..c.index];
  }

  /** The skipper finds an input too short, whether it says so or returns an index beyond it, if and only if the
      input ends inside a token. */
  lemma SkipTooShortExactly(s: seq<u8>)
    requires |s| <= MAX_INT
    ensures TooShort(s, SkipFrom(s, 0, 0)) <==> CutShort(s)
  {
    hide SkipFrom, CutToken, AllOpen;
    if TooShort(s, SkipFrom(s, 0, 0)) {
      NothingOpen();
      var os, t := FindStand(s, []);
      StandsBeforeCut(s, os, t);
    }
    if CutShort(s) {
      var os, t :| CutShortAt(s, os, t);
      SkipOpenings(os, s);
      assert s[|OpenText(os)|..] == t;
      CutTokenStops(s, |OpenText(os)|, |os|);
    }
  }

  lemma NothingOpen()
    ensures AllOpen([]) && OpenText([]) == []
  {
  }

  // ---- the other errors ---------------------------------------------------------------------------------------

  /** What is wrong behind a tag that ends at j, with rest behind it. */
  ghost predicate TagFault(tag: seq<u8>, rest: seq<u8>, j: nat, outside: bool, e: Error) {
    match e
    case IllegalWireType => WireType(tag) > FIXED32
    case UnexpectedEndOfGroup => WireType(tag) == END_GROUP && outside
    case IntOverflow => (WireType(tag) == VARINT || WireType(tag) == LENGTH_DELIMITED) && Overlong(rest)
    case InvalidLength =>
      || (WireType(tag) == FIXED64 && j + 8 > MAX_INT)
      || (WireType(tag) == FIXED32 && j + 4 > MAX_INT)
      || (WireType(tag) == LENGTH_DELIMITED && exists length :: LengthOverflows(length, rest, j))
    case _ => false
  }

  /** A length that leads to an index that is no int, be it negative itself or not. */
  ghost predicate LengthOverflows(length: seq<u8>, rest: seq<u8>, j: nat) {
    IsVarint(length) && length <= rest && j + |length| + Value(length) > MAX_INT
  }

  ghost predicate TagFaultAt(tag: seq<u8>, t: seq<u8>, at: nat, outside: bool, e: Error) {
    IsVarint(tag) && tag <= t && TagFault(tag, t[|tag|..], at + |tag|, outside, e)
  }

  /** What is wrong with the token at the front of t, which stands at index at, inside or outside groups. */
  ghost predicate Fault(t: seq<u8>, at: nat, outside: bool, e: Error) {
    (e == IntOverflow && Overlong(t)) || exists tag :: TagFaultAt(tag, t, at, outside, e)
  }

  ghost predicate FaultyAt(s: seq<u8>, os: seq<Opening>, t: seq<u8>, e: Error) {
    AllOpen(os) && s == OpenText(os) + t && Fault(t, |OpenText(os)|, os == [], e)
  }

  lemma LengthFault(s: seq<u8>, j: nat)
    requires j <= |s| <= MAX_INT && Read(s[j..]).Ok?
    ensures var t := Read(s[j..]).value;
      (exists length :: LengthOverflows(length, s[j..], j)) <==> j + t.size + t.value > MAX_INT
  {
    hide IsVarint, Read;
    var tag := TagAt(s, j);
    assert tag <= s[j..];
    assert LengthOverflows(tag, s[j..], j) <==> j + |tag| + Value(tag) > MAX_INT;
    forall length | LengthOverflows(length, s[j..], j) ensures length == tag {
      VarintUnique(length, tag, s[j..]);
    }
  }

  lemma NoLength(s: seq<u8>, j: nat)
    requires j <= |s| <= MAX_INT && Read(s[j..]).Err?
    ensures !exists length :: LengthOverflows(length, s[j..], j)
  {
    hide IsVarint, Read;
    forall length | LengthOverflows(length, s[j..], j) ensures false {
      ReadComplete(length, s[j..]);
    }
  }

  lemma BodyFault(s: seq<u8>, j: nat, tag: seq<u8>, depth: nat, e: Error)
    requires j <= |s| <= MAX_INT && e != UnexpectedEOF
    ensures TagFault(tag, s[j..], j, depth == 0, e) <==>
      match AfterBody(s, j, WireType(tag))
      case Err(e') => e == e'
      case Ok(next) =>
        if WireType(tag) == END_GROUP && depth == 0 then e == UnexpectedEndOfGroup
        else next < 0 && e == InvalidLength
  {
    hide Read, IsVarint, Overlong;
    ReadOverflows(s[j..]);
    ReadFails(s[j..]);
    if Read(s[j..]).Ok? {
      LengthFault(s, j);
    } else {
      NoLength(s, j);
    }
  }

  lemma {:induction false} ReadDigitsFails(t: seq<u8>, k: nat)
    requires ReadDigits(t, k).Err?
    ensures ReadDigits(t, k).error == UnexpectedEOF || ReadDigits(t, k).error == IntOverflow
    decreases |t|
  {
    if k < 10 && t != [] { ReadDigitsFails(t[1..], k + 1); }
  }

  lemma ReadFails(t: seq<u8>)
    ensures Read(t).Err? ==> Read(t).error == UnexpectedEOF || Read(t).error == IntOverflow
  {
    if Read(t).Err? { ReadDigitsFails(t, 0); }
  }

  /** A pass fails, other than at the end of the input, exactly at a faulty token. */
  lemma PassFault(s: seq<u8>, i: nat, depth: nat, e: Error)
    requires i < |s| <= MAX_INT && e != UnexpectedEOF
    ensures SkipPass(s, i, depth) == Err(e) <==> Fault(s[i..], i, depth == 0, e)
  {
    hide Read, IsVarint, Overlong, AfterBody, TagFault;
    ReadOverflows(s[i..]);
    ReadFails(s[i..]);
    if Read(s[i..]).Ok? {
      var tag := TagAt(s, i);
      assert tag <= s[i..];
      assert s[i..][|tag|..] == s[i + |tag|..];
      BodyFault(s, i + |tag|, tag, depth, e);
      var outside := depth == 0;
      assert TagFaultAt(tag, s[i..], i, outside, e) <==> TagFault(tag, s[i + |tag|..], i + |tag|, outside, e);
      forall other | TagFaultAt(other, s[i..], i, outside, e) ensures other == tag {
        VarintUnique(other, tag, s[i..]);
      }
    } else {
      NoTagFault(s[i..], i, depth == 0, e);
    }
  }

  lemma NoTagFault(t: seq<u8>, at: nat, outside: bool, e: Error)
    requires Read(t).Err?
    ensures !exists tag :: TagFaultAt(tag, t, at, outside, e)
  {
    hide Read, IsVarint, TagFault;
    forall tag | TagFaultAt(tag, t, at, outside, e) ensures false {
      ReadComplete(tag, t);
    }
  }

  lemma NoFault(t: seq<u8>, at: nat, outside: bool, e: Error)
    requires t == []
    ensures !Fault(t, at, outside, e)
  {
    hide TagFault, Read;
    NothingToRead();
    NoTagFault(t, at, outside, e);
  }

  /** Every other error of the skipper: it reports e if and only if, behind the groups it has entered and the fields
      it has passed, there is a token with that fault. */
  lemma SkipFailsExactly(s: seq<u8>, e: Error)
    requires |s| <= MAX_INT && e != UnexpectedEOF
    ensures SkipFrom(s, 0, 0) == Err(e) <==> exists os, t :: FaultyAt(s, os, t, e)
  {
    hide SkipPass, Fault, AllOpen;
    if SkipFrom(s, 0, 0) == Err(e) {
      NothingOpen();
      var os, t := FindStand(s, []);
      var i := |OpenText(os)|;
      assert s[i..] == t;
      PassFault(s, i, |os|, e);
      assert FaultyAt(s, os, t, e);
    }
    forall os, t | FaultyAt(s, os, t, e) ensures SkipFrom(s, 0, 0) == Err(e) {
      var i := |OpenText(os)|;
      SkipOpenings(os, s);
      assert s[i..] == t;
      if t == [] { NoFault(t, i, os == [], e); }
      PassFault(s, i, |os|, e);
    }
  }

  // ---- what such an input could have become -------------------------------------------------------------------

  /** The input ends inside a tag that cannot begin a field or end a group there. */
  ghost predicate IllegalTagCut(os: seq<Opening>, t: seq<u8>) {
    t != [] && CutVarint(t) && (t[0] % 8 > FIXED32 || (t[0] % 8 == END_GROUP && os == []))
  }

  /** A cut token, unless it is an illegal tag, is the beginning of a field or of an end-group tag. */
  lemma CompleteToken(t: seq<u8>, at: nat) returns (fs: seq<Field>, endTag: seq<u8>)
    requires CutToken(t, at) && !(t != [] && CutVarint(t) && t[0] % 8 > FIXED32)
    ensures AllValid(fs) && IsVarint(endTag) && WireType(endTag) == END_GROUP && t < Flatten(fs) + endTag
    ensures !(t == [] || (CutVarint(t) && t[0] % 8 == END_GROUP)) ==> |fs| == 1 && t < fs[0].Text()
  {
    hide IsVarint;
    ZeroByte();
    fs, endTag := [], [4];
    if t == [] {
    } else if CutVarint(t) {
      CompleteVarint(t);
      var tag := t + [0];
      if t[0] % 8 == END_GROUP {
        endTag := tag;
        assert Flatten(fs) + endTag == endTag;
      } else {
        var f := FieldWithTag(tag);
        fs := [f];
        FlattenOne(f);
        assert f.Text() == t + ([0] + f.Body());
        PrefixOf(t, f.Text(), endTag);
      }
    } else {
      var f: Field :| CutsLeaf(f, t, at);
      fs := [f];
      FlattenOne(f);
      PrefixOf(t, f.Text(), endTag);
    }
  }

  lemma PrefixOf(t: seq<u8>, a: seq<u8>, b: seq<u8>)
    requires t < a
    ensures t < a + b
  {
  }

  /** Fields and an end-group tag for every open group make one field of them all. */
  lemma {:induction false} CloseUp(os: seq<Opening>, fs: seq<Field>, endTag: seq<u8>) returns (f: Field)
    requires os != [] && AllOpen(os) && AllValid(fs) && IsVarint(endTag) && WireType(endTag) == END_GROUP
    ensures f.Valid() && OpenText(os) + (Flatten(fs) + endTag) <= f.Text()
    decreases |os|
  {
    hide IsVarint, AllOpen, Opening.Valid, Opening.Text, Field.Text;
    ZeroByte();
    var n := |os| - 1;
    var pre := OpenText(os[..n]);
    LastOpen(os);
    f := Closed(os[n], fs, endTag);
    assert OpenText(os) + (Flatten(fs) + endTag) == pre + f.Text();
    if n == 0 {
      assert pre == [];
    } else {
      var group := f;
      FlattenOne(group);
      f := CloseUp(os[..n], [group], [4]);
      assert pre + (group.Text() + [4]) == (pre + group.Text()) + [4];
    }
  }

  /** Every input that is found too short begins a field it does not finish, except when it ends inside a tag that is
      already illegal. */
  lemma TooShortBegins(s: seq<u8>, os: seq<Opening>, t: seq<u8>) returns (f: Field)
    requires CutShortAt(s, os, t) && !IllegalTagCut(os, t)
    ensures f.Valid() && s < f.Text()
  {
    hide IsVarint, CutToken;
    var fs, endTag := CompleteToken(t, |OpenText(os)|);
    if os != [] {
      f := CloseUp(os, fs, endTag);
      LongerPrefix(OpenText(os), t, Flatten(fs) + endTag, f.Text());
    } else if t == [] {
      ZeroByte();
      f := FieldWithTag([0]);
      NonEmpty(f);
    } else {
      f := fs[0];
      assert f in fs;
    }
  }

  lemma LongerPrefix(a: seq<u8>, t: seq<u8>, b: seq<u8>, s: seq<u8>)
    requires t < b && a + b <= s
    ensures a + t < s
  {
    assert a + t == (a + b)[..|a + t|];
  }

  /** An illegal tag that is cut begins no field that fits into a slice. */
  lemma IllegalBegins(os: seq<Opening>, t: seq<u8>, f: Field)
    requires AllOpen(os) && IllegalTagCut(os, t) && f.Valid() && |f.Text()| <= MAX_INT
    ensures !(OpenText(os) + t < f.Text())
  {
    hide SkipFrom, IsVarint, AllOpen;
    var w := f.Text();
    if OpenText(os) + t < w {
      assert w[0..] == w;
      SkipField(f, w, 0, 0);
      DropPrefix(OpenText(os), t, w);
      SkipOpenings(os, w);
      IllegalStops(w, |OpenText(os)|, |os|, t[0]);
      assert false;
    }
  }

  lemma IllegalStops(s: seq<u8>, i: nat, depth: nat, first: u8)
    requires i < |s| <= MAX_INT && s[i] == first
    requires first % 8 > FIXED32 || (first % 8 == END_GROUP && depth == 0)
    ensures SkipFrom(s, i, depth).Err?
  {
    hide IsVarint, Read;
    if Read(s[i..]).Ok? {
      FirstByte(TagAt(s, i));
    }
  }

  /** The input ends inside an illegal tag. */
  ghost predicate CutInIllegalTag(s: seq<u8>) {
    exists os, t :: CutShortAt(s, os, t) && IllegalTagCut(os, t)
  }

  ghost predicate Begins(s: seq<u8>, f: Field) {
    f.Valid() && s < f.Text()
  }

  /** What is found too short, in terms of fields: proper prefixes of fields, all those of fields that fit into a
      slice, and, apart from these, inputs that end inside an illegal tag. */
  lemma TooShortMeans(s: seq<u8>)
    requires |s| <= MAX_INT
    ensures TooShort(s, SkipFrom(s, 0, 0)) ==> CutInIllegalTag(s) || exists f: Field :: Begins(s, f)
    ensures CutInIllegalTag(s) ==> TooShort(s, SkipFrom(s, 0, 0))
    ensures forall f: Field | Begins(s, f) && |f.Text()| <= MAX_INT ::
      TooShort(s, SkipFrom(s, 0, 0)) && !CutInIllegalTag(s)
  {
    hide SkipFrom, CutShortAt, IllegalTagCut, IsVarint;
    SkipTooShortExactly(s);
    if CutShort(s) && !CutInIllegalTag(s) {
      var os, t :| CutShortAt(s, os, t);
      var f := TooShortBegins(s, os, t);
      assert Begins(s, f);
    }
    if CutInIllegalTag(s) {
      var os, t :| CutShortAt(s, os, t) && IllegalTagCut(os, t);
      assert CutShort(s);
    }
    forall f: Field | Begins(s, f) && |f.Text()| <= MAX_INT
      ensures TooShort(s, SkipFrom(s, 0, 0)) && !CutInIllegalTag(s)
    {
      BeginningIsTooShort(s, f);
    }
  }

  lemma BeginningIsTooShort(s: seq<u8>, f: Field)
    requires Begins(s, f) && |f.Text()| <= MAX_INT
    ensures TooShort(s, SkipFrom(s, 0, 0)) && !CutInIllegalTag(s)
  {
    hide SkipFrom, IllegalTagCut, IsVarint, CutToken;
    assert s[0..] == s;
    SkipCut(f, s, 0, 0);
    if CutInIllegalTag(s) {
      var os, t :| CutShortAt(s, os, t) && IllegalTagCut(os, t);
      IllegalBegins(os, t, f);
      assert false;
    }
  }
}
