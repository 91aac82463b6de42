/** The skipper's counter recognises exactly the recursive grammar of fields. */
module SkipGrammar {
  import opened Machine
  import opened Results
  import opened Varint
  import opened Wire

  // ---- every field is skipped whole ---------------------------------------------------------------------------

  lemma SplitPrefix(a: seq<u8>, b: seq<u8>, s: seq<u8>, i: nat)
    requires i <= |s| && a + b <= s[i..]
    ensures a <= s[i..] && i + |a| <= |s| && b <= s[i + |a|..]
  {
    assert s[i..][|a|..] == s[i + |a|..];
    assert (a + b)[|a|..] == b;
    assert s[i..][..|a|] == (a + b)[..|a|] == a;
  }

  /** A tag is read back from in front of any bytes. */
  lemma PassTag(tag: seq<u8>, s: seq<u8>, i: nat, depth: nat)
    requires |s| <= MAX_INT && i <= |s| && IsVarint(tag) && tag <= s[i..]
    ensures i < i + |tag| <= |s|
    ensures var wireType := WireType(tag);
      SkipPass(s, i, depth) ==
        match AfterBody(s, i + |tag|, wireType)
        case Err(e) => Err(e)
        case Ok(next) =>
          if wireType == END_GROUP && depth == 0 then Err(UnexpectedEndOfGroup)
          else if next < 0 then Err(InvalidLength)
          else Ok(Cursor(next, if wireType == START_GROUP then depth + 1
                               else if wireType == END_GROUP then depth - 1
                               else depth))
  {
    ReadComplete(tag, s[i..]);
  }

  lemma LeafBody(f: Field, s: seq<u8>, j: nat)
    requires |s| <= MAX_INT && j <= |s| && f.Valid() && !f.Group? && f.Body() <= s[j..]
    ensures AfterBody(s, j, WireType(f.tag)) == Ok(j + |f.Body()|)
  {
    match f
    case Varint(_, number) =>
      ReadComplete(number, s[j..]);
    case Fixed64(_, _) =>
    case Bytes(_, length, payload) =>
      SplitPrefix(length, payload, s, j);
      ReadComplete(length, s[j..]);
    case Fixed32(_, _) =>
  }

  lemma PassLeaf(f: Field, s: seq<u8>, i: nat, depth: nat)
    requires |s| <= MAX_INT && i <= |s| && f.Valid() && !f.Group? && f.Text() <= s[i..]
    ensures i < i + |f.Text()| <= |s| && SkipPass(s, i, depth) == Ok(Cursor(i + |f.Text()|, depth))
  {
    hide AfterBody, Read;
    SplitPrefix(f.tag, f.Body(), s, i);
    LeafBody(f, s, i + |f.tag|);
    PassTag(f.tag, s, i, depth);
  }

  /** Where the skipper goes from the front of a field: behind it, with as many groups open as before. */
  lemma {:induction false} SkipField(f: Field, s: seq<u8>, i: nat, depth: nat)
    requires |s| <= MAX_INT && i <= |s| && f.Valid() && f.Text() <= s[i..]
    ensures i + |f.Text()| <= |s|
    ensures SkipFrom(s, i, depth) == if depth == 0 then Ok(i + |f.Text()|) else SkipFrom(s, i + |f.Text()|, depth)
    decreases |s| - i, 1
  {
    hide SkipPass;
    match f
    case Group(tag, fields, endTag) =>
      SkipGroup(tag, fields, endTag, Flatten(fields), s, i, depth);
    case _ =>
      PassLeaf(f, s, i, depth);
  }

  lemma {:induction false} SkipGroup(tag: seq<u8>, fields: seq<Field>, endTag: seq<u8>, inner: seq<u8>,
                                     s: seq<u8>, i: nat, depth: nat)
    requires |s| <= MAX_INT && i <= |s|
    requires IsVarint(tag) && WireType(tag) == START_GROUP && IsVarint(endTag) && WireType(endTag) == END_GROUP
    requires AllValid(fields) && inner == Flatten(fields) && tag + (inner + endTag) <= s[i..]
    ensures var end := i + |tag| + |inner| + |endTag|;
      end <= |s| && SkipFrom(s, i, depth) == if depth == 0 then Ok(end) else SkipFrom(s, end, depth)
    decreases |s| - i, 0
  {
    hide SkipFrom;
    SplitPrefix(tag, inner + endTag, s, i);
    SplitPrefix(inner, endTag, s, i + |tag|);
    EnterGroup(tag, s, i, depth);
    SkipFields(fields, s, i + |tag|, depth + 1);
    LeaveGroup(endTag, s, i + |tag| + |inner|, depth);
  }

  lemma EnterGroup(tag: seq<u8>, s: seq<u8>, i: nat, depth: nat)
    requires |s| <= MAX_INT && i <= |s| && IsVarint(tag) && WireType(tag) == START_GROUP && tag <= s[i..]
    ensures i + |tag| <= |s| && SkipFrom(s, i, depth) == SkipFrom(s, i + |tag|, depth + 1)
  {
    PassTag(tag, s, i, depth);
  }

  lemma LeaveGroup(endTag: seq<u8>, s: seq<u8>, i: nat, depth: nat)
    requires |s| <= MAX_INT && i <= |s| && IsVarint(endTag) && WireType(endTag) == END_GROUP && endTag <= s[i..]
    ensures i + |endTag| <= |s|
    ensures SkipFrom(s, i, depth + 1) == if depth == 0 then Ok(i + |endTag|) else SkipFrom(s, i + |endTag|, depth)
  {
    PassTag(endTag, s, i, depth + 1);
  }

  lemma {:induction false} SkipFields(fs: seq<Field>, s: seq<u8>, i: nat, depth: nat)
    requires |s| <= MAX_INT && i <= |s| && AllValid(fs) && Flatten(fs) <= s[i..] && depth > 0
    ensures i + |Flatten(fs)| <= |s| && SkipFrom(s, i, depth) == SkipFrom(s, i + |Flatten(fs)|, depth)
    decreases |s| - i, 2
  {
    hide SkipFrom;
    if fs != [] {
      SplitPrefix(fs[0].Text(), Flatten(fs[1..]), s, i);
      SkipField(fs[0], s, i, depth);
      SkipFields(fs[1..], s, i + |fs[0].Text()|, depth);
    }
  }

  // ---- the skipper by the bits of the tag ---------------------------------------------------------------------

  /** The loop goes on at n, or ends there if no group is open. */
  ghost predicate GoesTo(s: seq<u8>, i: nat, depth: nat, n: nat)
    requires |s| <= MAX_INT
  {
    SkipFrom(s, i, depth) == if depth == 0 then Ok(n) else SkipFrom(s, n, depth)
  }

  /** What the loop does at a tag, by its three low bits: behind it stands a number (0), eight bytes (1), a length and
      its payload (2), the inside of a group (3), what follows a group (4), or four bytes (5); 6 and 7 are refused.
      The varint is the number or the length. */
  lemma SkipByTag(tag: seq<u8>, varint: seq<u8>, s: seq<u8>, i: nat, depth: nat)
    requires |s| <= MAX_INT && i <= |s| && IsVarint(tag) && tag + varint <= s[i..]
    ensures i + |tag| + |varint| <= |s|
    ensures var bits := Value(tag) % 8; var j := i + |tag|;
      && (bits == 0 && IsVarint(varint) ==> GoesTo(s, i, depth, j + |varint|))
      && (bits == 1 && j + 8 <= MAX_INT ==> GoesTo(s, i, depth, j + 8))
      && (bits == 2 && IsVarint(varint) && j + |varint| + Value(varint) <= MAX_INT ==>
            GoesTo(s, i, depth, j + |varint| + Value(varint)))
      && (bits == 3 ==> SkipFrom(s, i, depth) == SkipFrom(s, j, depth + 1))
      && (bits == 4 && depth == 0 ==> SkipFrom(s, i, depth) == Err(UnexpectedEndOfGroup))
      && (bits == 4 && depth == 1 ==> SkipFrom(s, i, depth) == Ok(j))
      && (bits == 4 && depth > 1 ==> SkipFrom(s, i, depth) == SkipFrom(s, j, depth - 1))
      && (bits == 5 && j + 4 <= MAX_INT ==> GoesTo(s, i, depth, j + 4))
      && (bits > 5 ==> SkipFrom(s, i, depth) == Err(IllegalWireType))
  {
    hide Read, IsVarint;
    SplitPrefix(tag, varint, s, i);
    PassTag(tag, s, i, depth);
    if IsVarint(varint) { ReadComplete(varint, s[i + |tag|..]); }
  }

  // ---- whatever is skipped is a field -------------------------------------------------------------------------

  /** The rest of an open group: fields, then the end-group tag. */
  datatype Closing = Closing(fields: seq<Field>, endTag: seq<u8>) {
    ghost predicate Valid() {
      AllValid(fields) && IsVarint(endTag) && WireType(endTag) == END_GROUP
    }

    ghost function Text(): seq<u8> {
      Flatten(fields) + endTag
    }

    lemma AsGroup(tag: seq<u8>) returns (f: Field)
      requires Valid() && IsVarint(tag) && WireType(tag) == START_GROUP
      ensures f.Valid() && f.Text() == tag + Text()
    {
      hide IsVarint, Flatten;
      f := Group(tag, fields, endTag);
    }

    lemma Prepend(f: Field) returns (c: Closing)
      requires f.Valid() && Valid()
      ensures c.Valid() && c.Text() == f.Text() + Text()
    {
      c := Closing([f] + fields, endTag);
      assert c.fields[1..] == fields;
      assert Flatten(c.fields) == f.Text() + Flatten(fields);
    }
  }

  /** The rests of all open groups, innermost first. */
  ghost function CloseAll(cs: seq<Closing>): seq<u8> {
    if cs == [] then [] else cs[0].Text() + CloseAll(cs[1..])
  }

  ghost predicate ClosesAll(cs: seq<Closing>, depth: nat, t: seq<u8>) {
    |cs| == depth && (forall c <- cs :: c.Valid()) && CloseAll(cs) == t
  }

  /** The tag that one pass of the loop has read. */
  ghost function TagAt(s: seq<u8>, i: nat): (tag: seq<u8>)
    requires i <= |s| && Read(s[i..]).Ok?
    ensures i + |tag| <= |s| && tag == s[i..i + |tag|] && IsVarint(tag)
    ensures Read(s[i..]).value == Token(Value(tag), |tag|)
  {
    ReadSound(s[i..]);
    s[i..][..Read(s[i..]).value.size]
  }

  /** A pass that opens or closes no group has walked over a field. */
  lemma LeafAt(s: seq<u8>, i: nat, depth: nat) returns (f: Field)
    requires i < |s| <= MAX_INT && SkipPass(s, i, depth).Ok?
    requires WireType(TagAt(s, i)) != START_GROUP && WireType(TagAt(s, i)) != END_GROUP
    requires SkipPass(s, i, depth).value.index <= |s|
    ensures f.Valid() && !f.Group? && f.tag == TagAt(s, i) && f.Text() == s[i..SkipPass(s, i, depth).value.index]
  {
    hide Read, IsVarint;
    var tag := TagAt(s, i);
    var j := i + |tag|;
    var end := SkipPass(s, i, depth).value.index;
    if WireType(tag) == VARINT {
      f := Varint(tag, TagAt(s, j));
    } else if WireType(tag) == FIXED64 {
      f := Fixed64(tag, s[j..end]);
    } else if WireType(tag) == LENGTH_DELIMITED {
      var length := TagAt(s, j);
      f := Bytes(tag, length, s[j + |length|..end]);
    } else {
      f := Fixed32(tag, s[j..end]);
    }
    assert f.Text() == s[i..end];
  }

  /** How a pass moves the cursor and the counter, by the kind of tag it has read. */
  lemma PassKind(s: seq<u8>, i: nat, depth: nat)
    requires i < |s| <= MAX_INT && SkipPass(s, i, depth).Ok?
    ensures Read(s[i..]).Ok?
    ensures var tag := TagAt(s, i); var c := SkipPass(s, i, depth).value;
      if WireType(tag) == START_GROUP then c == Cursor(i + |tag|, depth + 1)
      else if WireType(tag) == END_GROUP then depth > 0 && c == Cursor(i + |tag|, depth - 1)
      else c.depth == depth && c.index >= i + |tag|
  {
    hide IsVarint;
  }

  /** With groups open, what is walked over before the skipper returns closes every one of them. */
  lemma {:induction false} ClosingsAt(s: seq<u8>, i: nat, depth: nat) returns (cs: seq<Closing>)
    requires |s| <= MAX_INT && depth > 0 && SkipFrom(s, i, depth).Ok?
    ensures SkipFrom(s, i, depth).value <= |s|
    ensures ClosesAll(cs, depth, s[i..SkipFrom(s, i, depth).value])
    decreases |s| - i
  {
    hide SkipPass, Read, IsVarint;
    var c := SkipPass(s, i, depth).value;
    var end := SkipFrom(s, i, depth).value;
    PassKind(s, i, depth);
    var tag := TagAt(s, i);
    if WireType(tag) == START_GROUP {
      var inner := ClosingsAt(s, c.index, depth + 1);
      cs := OpenGroup(tag, inner);
    } else if WireType(tag) == END_GROUP {
      var rest: seq<Closing> := [];
      if depth > 1 {
        rest := ClosingsAt(s, c.index, depth - 1);
      }
      cs := CloseGroup(tag, rest);
    } else {
      var rest := ClosingsAt(s, c.index, depth);
      var f := LeafAt(s, i, depth);
      cs := PrependField(f, rest);
    }
    assert s[i..c.index] + s[c.index..end] == s[i..end];
  }

  lemma CloseGroup(endTag: seq<u8>, rest: seq<Closing>) returns (cs: seq<Closing>)
    requires IsVarint(endTag) && WireType(endTag) == END_GROUP && forall c <- rest :: c.Valid()
    ensures ClosesAll(cs, |rest| + 1, endTag + CloseAll(rest))
  {
    cs := [Closing([], endTag)] + rest;
    assert cs[1..] == rest;
    assert cs[0].Text() == endTag;
  }

  lemma PrependField(f: Field, rest: seq<Closing>) returns (cs: seq<Closing>)
    requires f.Valid() && rest != [] && forall c <- rest :: c.Valid()
    ensures ClosesAll(cs, |rest|, f.Text() + CloseAll(rest))
  {
    hide Closing.Valid, Closing.Text, Field.Text, Field.Valid;
    assert rest[0] in rest;
    var c := rest[0].Prepend(f);
    cs := [c] + rest[1..];
    assert cs[1..] == rest[1..];
  }

  /** A group that was open inside the others is one field of the group around it. */
  lemma OpenGroup(tag: seq<u8>, inner: seq<Closing>) returns (cs: seq<Closing>)
    requires IsVarint(tag) && WireType(tag) == START_GROUP
    requires |inner| > 1 && forall c <- inner :: c.Valid()
    ensures ClosesAll(cs, |inner| - 1, tag + CloseAll(inner))
  {
    hide Closing.Valid, Closing.Text, Field.Valid, Field.Text;
    assert inner[0] in inner;
    var group := inner[0].AsGroup(tag);
    assert forall c <- inner[1..] :: c in inner;
    cs := PrependField(group, inner[1..]);
    assert (tag + inner[0].Text()) + CloseAll(inner[1..]) == tag + CloseAll(inner);
  }

  /** Whenever the skipper returns an index inside its input, it has walked over exactly one field. */
  lemma FieldAt(s: seq<u8>, i: nat) returns (f: Field)
    requires |s| <= MAX_INT && SkipFrom(s, i, 0).Ok? && SkipFrom(s, i, 0).value <= |s|
    ensures Read(s[i..]).Ok?
    ensures f.Valid() && f.tag == TagAt(s, i) && f.Text() == s[i..SkipFrom(s, i, 0).value]
  {
    hide SkipPass, Read, IsVarint;
    var c := SkipPass(s, i, 0).value;
    var end := SkipFrom(s, i, 0).value;
    PassKind(s, i, 0);
    var tag := TagAt(s, i);
    if WireType(tag) == START_GROUP {
      var cs := ClosingsAt(s, c.index, 1);
      assert CloseAll(cs) == cs[0].Text() + CloseAll([]);
      assert cs[0] in cs;
      f := Group(tag, cs[0].fields, cs[0].endTag);
      assert s[i..c.index] + s[c.index..end] == s[i..end];
      assert f.Text() == tag + cs[0].Text();
    } else {
      f := LeafAt(s, i, 0);
    }
  }

  // ---- the theorem --------------------------------------------------------------------------------------------

  ghost predicate StartsWithField(s: seq<u8>, n: nat)
    requires n <= |s|
  {
    exists f: Field :: f.Valid() && f.Text() == s[..n]
  }

  /** The result is n, within the input, exactly when the first n bytes are one field of the grammar. */
  ghost predicate SkipsOneField(s: seq<u8>, r: Result<nat>) {
    forall n: nat | n <= |s| :: r == Ok(n) <==> StartsWithField(s, n)
  }

  lemma SkipIsGrammar(s: seq<u8>)
    requires |s| <= MAX_INT
    ensures SkipsOneField(s, SkipFrom(s, 0, 0))
  {
    hide SkipFrom;
    assert s[0..] == s;
    forall n: nat | n <= |s| ensures SkipFrom(s, 0, 0) == Ok(n) <==> StartsWithField(s, n) {
      if SkipFrom(s, 0, 0) == Ok(n) {
        var f := FieldAt(s, 0);
        assert f.Text() == s[..n];
      }
      if StartsWithField(s, n) {
        var f: Field :| f.Valid() && f.Text() == s[..n];
        SkipField(f, s, 0, 0);
      }
    }
  }

  /** An index beyond the input, which the skipper may return because it does not look at the bodies it jumps over,
      is where a field ends that the input cuts short. */
  lemma BeyondIsCut(s: seq<u8>) returns (f: Field)
    requires |s| <= MAX_INT && SkipFrom(s, 0, 0).Ok? && SkipFrom(s, 0, 0).value > |s|
    ensures f.Valid() && !f.Group? && s < f.Text() && |f.Text()| == SkipFrom(s, 0, 0).value
  {
    hide SkipPass, Read, IsVarint;
    var c := SkipPass(s, 0, 0).value;
    PassKind(s, 0, 0);
    if WireType(TagAt(s, 0)) == START_GROUP {
      var cs := ClosingsAt(s, c.index, 1);
      assert false;
    }
    f := CutLeafAt(s);
  }

  lemma CutLeafAt(s: seq<u8>) returns (f: Field)
    requires 0 < |s| <= MAX_INT && SkipPass(s, 0, 0).Ok? && SkipPass(s, 0, 0).value.index > |s|
    requires WireType(TagAt(s, 0)) != START_GROUP && WireType(TagAt(s, 0)) != END_GROUP
    ensures f.Valid() && !f.Group? && s < f.Text() && |f.Text()| == SkipPass(s, 0, 0).value.index
  {
    hide IsVarint, Read;
    var tag := TagAt(s, 0);
    var end := SkipPass(s, 0, 0).value.index;
    var rest: seq<u8> := seq(end - |s|, _ => 0);
    var j := |tag|;
    if WireType(tag) == FIXED64 {
      f := Fixed64(tag, s[j..] + rest);
    } else if WireType(tag) == LENGTH_DELIMITED {
      var length := TagAt(s, j);
      f := Bytes(tag, length, s[j + |length|..] + rest);
    } else {
      f := Fixed32(tag, s[j..] + rest);
    }
    assert f.Text() == s + rest;
  }

  /** Bytes behind the skipped field have no influence on the skip. */
  lemma SkipIsStable(s: seq<u8>, t: seq<u8>)
    requires |s + t| <= MAX_INT && SkipFrom(s, 0, 0).Ok? && SkipFrom(s, 0, 0).value <= |s|
    ensures SkipFrom(s + t, 0, 0) == SkipFrom(s, 0, 0)
  {
    hide SkipFrom;
    var f := FieldAt(s, 0);
    assert f.Text() <= s;
    assert (s + t)[0..] == s + t;
    SkipField(f, s + t, 0, 0);
  }

  // ---- tags that fields can begin with ------------------------------------------------------------------------

  /** Any tag with a legal wire type, other than an end-group tag, begins a field. */
  lemma FieldWithTag(tag: seq<u8>) returns (f: Field)
    requires IsVarint(tag) && WireType(tag) <= FIXED32 && WireType(tag) != END_GROUP
    ensures f.Valid() && f.tag == tag && |f.Text()| <= 20
  {
    ZeroByte();
    assert |tag| <= 10;
    var zeros: seq<u8> := [0, 0, 0, 0, 0, 0, 0, 0];
    if WireType(tag) == VARINT {
      f := Varint(tag, [0]);
    } else if WireType(tag) == FIXED64 {
      f := Fixed64(tag, zeros);
    } else if WireType(tag) == LENGTH_DELIMITED {
      f := Bytes(tag, [0], []);
      assert f.Body() == [0];
    } else if WireType(tag) == START_GROUP {
      f := Group(tag, [], [4]);
      assert f.Body() == [4];
    } else {
      f := Fixed32(tag, zeros[..4]);
    }
  }

  /** The shortest number, and the shortest end-group tag. */
  lemma ZeroByte()
    ensures IsVarint([0]) && Value([0]) == 0
    ensures IsVarint([4]) && WireType([4]) == END_GROUP
  {
    OneByte(0);
    OneByte(4);
  }

  lemma OneByte(b: u8)
    requires b < 128
    ensures IsVarint([b]) && Value([b]) == b
  {
    assert Digit128([b]) == b % 128 + 128 * Digit128([b][1..]);
  }

  // ---- the grammar is unambiguous -----------------------------------------------------------------------------

  lemma VarintUnique(a: seq<u8>, b: seq<u8>, s: seq<u8>)
    requires IsVarint(a) && IsVarint(b) && a <= s && b <= s
    ensures a == b
  {
    hide Read;
    ReadComplete(a, s);
    ReadComplete(b, s);
  }

  lemma DropPrefix(a: seq<u8>, b: seq<u8>, s: seq<u8>)
    requires a + b <= s
    ensures a <= s && b <= s[|a|..]
  {
    assert s[0..] == s;
    SplitPrefix(a, b, s, 0);
  }

  /** At the front of any bytes there is at most one field: fields are a prefix code, and their text says which
      field they are. */
  lemma {:induction false} FieldUnique(f: Field, g: Field, s: seq<u8>)
    requires f.Valid() && g.Valid() && f.Text() <= s && g.Text() <= s
    ensures f == g
    decreases |s|, 1
  {
    hide IsVarint;
    DropPrefix(f.tag, f.Body(), s);
    DropPrefix(g.tag, g.Body(), s);
    TagsUnique(f, g, s);
    match f
    case Varint(_, number) =>
      VarintUnique(number, g.number, s[|f.tag|..]);
    case Fixed64(_, payload) =>
    case Bytes(_, length, payload) =>
      DropPrefix(length, payload, s[|f.tag|..]);
      DropPrefix(g.length, g.payload, s[|f.tag|..]);
      VarintUnique(length, g.length, s[|f.tag|..]);
    case Group(tag, fields, endTag) =>
      GroupUnique(fields, endTag, g.fields, g.endTag, s[|tag|..]);
    case Fixed32(_, payload) =>
  }

  lemma TagsUnique(f: Field, g: Field, s: seq<u8>)
    requires f.Valid() && g.Valid() && f.tag <= s && g.tag <= s
    ensures f.tag == g.tag && |f.tag| > 0
    ensures f.Varint? == g.Varint? && f.Fixed64? == g.Fixed64? && f.Bytes? == g.Bytes? && f.Group? == g.Group?
  {
    VarintUnique(f.tag, g.tag, s);
  }

  lemma {:induction false} GroupUnique(fs: seq<Field>, a: seq<u8>, gs: seq<Field>, b: seq<u8>, s: seq<u8>)
    requires AllValid(fs) && IsVarint(a) && WireType(a) == END_GROUP && Flatten(fs) + a <= s
    requires AllValid(gs) && IsVarint(b) && WireType(b) == END_GROUP && Flatten(gs) + b <= s
    ensures fs == gs && a == b
    decreases |s|, 2
  {
    hide IsVarint, WireType, Field.Valid, Field.Text;
    if fs != [] && gs != [] {
      assert fs[0] in fs && gs[0] in gs;
      assert Flatten(fs) + a == fs[0].Text() + (Flatten(fs[1..]) + a);
      assert Flatten(gs) + b == gs[0].Text() + (Flatten(gs[1..]) + b);
      DropPrefix(fs[0].Text(), Flatten(fs[1..]) + a, s);
      DropPrefix(gs[0].Text(), Flatten(gs[1..]) + b, s);
      FieldUnique(fs[0], gs[0], s);
      NonEmpty(fs[0]);
      GroupUnique(fs[1..], a, gs[1..], b, s[|fs[0].Text()|..]);
    } else if fs != [] {
      FrontTag(fs, a, s);
      assert b <= s by { assert Flatten(gs) + b == b; }
      VarintUnique(fs[0].tag, b, s);
      assert false;
    } else if gs != [] {
      FrontTag(gs, b, s);
      assert a <= s by { assert Flatten(fs) + a == a; }
      VarintUnique(gs[0].tag, a, s);
      assert false;
    } else {
      assert Flatten(fs) + a == a && Flatten(gs) + b == b;
      VarintUnique(a, b, s);
    }
  }

  lemma FrontTag(fs: seq<Field>, a: seq<u8>, s: seq<u8>)
    requires fs != [] && AllValid(fs) && Flatten(fs) + a <= s
    ensures fs[0].tag <= s && IsVarint(fs[0].tag) && WireType(fs[0].tag) != END_GROUP
  {
    hide IsVarint, Field.Valid, Field.Body, WireType;
    var f := fs[0];
    assert f in fs;
    FieldTag(f);
    assert Flatten(fs) + a == f.Text() + (Flatten(fs[1..]) + a);
    DropPrefix(f.Text(), Flatten(fs[1..]) + a, s);
    DropPrefix(f.tag, f.Body(), s);
  }

  lemma FieldTag(f: Field)
    requires f.Valid()
    ensures IsVarint(f.tag) && WireType(f.tag) != END_GROUP
  {
  }

  /** No field begins with another one, and different fields have different bytes. */
  lemma FieldsArePrefixFree(f: Field, g: Field)
    requires f.Valid() && g.Valid() && f.Text() <= g.Text()
    ensures f == g
  {
    FieldUnique(f, g, g.Text());
  }

  /** So bytes write at most one sequence of fields. */
  lemma {:induction false} FieldsUnique(fs: seq<Field>, gs: seq<Field>)
    requires AllValid(fs) && AllValid(gs) && Flatten(fs) == Flatten(gs)
    ensures fs == gs
    decreases |fs|
  {
    hide IsVarint;
    if fs != [] && gs != [] {
      assert fs[0] in fs && gs[0] in gs;
      var s := Flatten(fs);
      DropPrefix(fs[0].Text(), Flatten(fs[1..]), s);
      DropPrefix(gs[0].Text(), Flatten(gs[1..]), s);
      FieldUnique(fs[0], gs[0], s);
      assert Flatten(fs[1..]) == s[|fs[0].Text()|..] == Flatten(gs[1..]);
      FieldsUnique(fs[1..], gs[1..]);
    } else if fs != [] {
      NonEmpty(fs[0]);
    } else if gs != [] {
      NonEmpty(gs[0]);
    }
  }

  lemma NonEmpty(f: Field)
    requires f.Valid()
    ensures |f.Text()| > 0
  {
  }

  // ---- a field cut short --------------------------------------------------------------------------------------

  /** The input ends inside t. */
  ghost predicate EndsInside(s: seq<u8>, i: nat, t: seq<u8>) {
    i <= |s| && s[i..] < t && i + |t| <= MAX_INT
  }

  lemma EndsBehind(s: seq<u8>, i: nat, a: seq<u8>, b: seq<u8>)
    requires EndsInside(s, i, a + b)
    ensures if |s| - i < |a| then EndsInside(s, i, a) else a <= s[i..] && EndsInside(s, i + |a|, b)
  {
    assert (a + b)[|a|..] == b;
    assert a == (a + b)[..|a|];
    if |s| - i < |a| {
      assert s[i..] == (a + b)[..|s| - i] == a[..|s| - i];
    } else {
      assert s[i..][|a|..] == s[i + |a|..];
      assert s[i..] == (a + b)[..|s| - i];
      assert s[i + |a|..] == b[..|s| - i - |a|];
    }
  }

  lemma ReadCut(bs: seq<u8>, s: seq<u8>, i: nat)
    requires IsVarint(bs) && EndsInside(s, i, bs)
    ensures Read(s[i..]) == Err(UnexpectedEOF)
  {
    assert s[i..] == bs[..|s| - i];
    ReadDigitsCut(bs, |s| - i, 0);
  }

  lemma CutTag(tag: seq<u8>, s: seq<u8>, i: nat, depth: nat)
    requires IsVarint(tag) && EndsInside(s, i, tag)
    ensures SkipFrom(s, i, depth) == Err(UnexpectedEOF)
  {
    ReadCut(tag, s, i);
  }

  lemma CutBody(f: Field, s: seq<u8>, j: nat)
    requires f.Valid() && !f.Group? && EndsInside(s, j, f.Body())
    ensures AfterBody(s, j, WireType(f.tag)) == Err(UnexpectedEOF)
         || AfterBody(s, j, WireType(f.tag)) == Ok(j + |f.Body()|)
  {
    match f
    case Varint(_, number) =>
      ReadCut(number, s, j);
    case Fixed64(_, _) =>
    case Bytes(_, length, payload) =>
      EndsBehind(s, j, length, payload);
      if |s| - j < |length| {
        ReadCut(length, s, j);
      } else {
        ReadComplete(length, s[j..]);
      }
    case Fixed32(_, _) =>
  }

  /** The loop runs off the end of the input, or ends behind it without having noticed. */
  lemma CutLeaf(f: Field, s: seq<u8>, i: nat, depth: nat)
    requires f.Valid() && !f.Group? && EndsInside(s, i, f.Text()) && i < |s|
    ensures SkipPass(s, i, depth) == Err(UnexpectedEOF)
         || SkipPass(s, i, depth) == Ok(Cursor(i + |f.Text()|, depth))
  {
    hide AfterBody, Read, IsVarint, Field.Body;
    EndsBehind(s, i, f.tag, f.Body());
    if |s| - i < |f.tag| {
      ReadCut(f.tag, s, i);
    } else {
      CutBody(f, s, i + |f.tag|);
      PassTag(f.tag, s, i, depth);
    }
  }

  /** A field that the input cuts short is never skipped: inside a group the loop reports the end of the input,
      outside it may instead return the index where the field would have ended. */
  lemma {:induction false} SkipCut(f: Field, s: seq<u8>, i: nat, depth: nat)
    requires f.Valid() && EndsInside(s, i, f.Text())
    ensures SkipFrom(s, i, depth) == Err(UnexpectedEOF)
         || (depth == 0 && SkipFrom(s, i, depth) == Ok(i + |f.Text()|))
    decreases |s| - i, 1
  {
    hide SkipPass;
    if i < |s| {
      if f.Group? {
        EndsBehind(s, i, f.tag, f.Body());
        if |s| - i < |f.tag| {
          CutTag(f.tag, s, i, depth);
        } else {
          EnterGroup(f.tag, s, i, depth);
          SkipCutInside(f.fields, f.endTag, s, i + |f.tag|, depth + 1);
        }
      } else {
        CutLeaf(f, s, i, depth);
      }
    }
  }

  lemma {:induction false} SkipCutInside(fs: seq<Field>, endTag: seq<u8>, s: seq<u8>, i: nat, depth: nat)
    requires AllValid(fs) && IsVarint(endTag) && depth > 0 && EndsInside(s, i, Flatten(fs) + endTag)
    ensures SkipFrom(s, i, depth) == Err(UnexpectedEOF)
    decreases |s| - i, 2
  {
    hide SkipPass;
    if fs == [] {
      assert Flatten(fs) + endTag == endTag;
      CutTag(endTag, s, i, depth);
    } else {
      var t := Flatten(fs[1..]) + endTag;
      assert Flatten(fs) + endTag == fs[0].Text() + t;
      EndsBehind(s, i, fs[0].Text(), t);
      if |s| - i < |fs[0].Text()| {
        SkipCut(fs[0], s, i, depth);
      } else {
        SkipField(fs[0], s, i, depth);
        SkipCutInside(fs[1..], endTag, s, i + |fs[0].Text()|, depth);
      }
    }
  }
}
