/**
  The records of the wire format as a grammar, and that skipping recognises it:
  a decoder that counts group depth measures exactly the records of the grammar.
 */
module Records {
  import opened Words
  import opened Wire
  import opened Messages
  import opened RoundTrip

  ghost predicate IsVarint(w: Bytes) {
    Varint64(w).Ok? && Varint64(w).used == |w|
  }

  /** Exactly a tag, of the given wire type. */
  ghost predicate IsTag(t: Bytes, wireType: nat) {
    IsVarint(t) && Varint64(t).value % 8 == wireType
  }

  /** A length and exactly that many bytes. */
  ghost predicate IsLengthPrefixed(s: Bytes) {
    Varint64(s).Ok? && Varint64(s).used + Varint64(s).value == |s|
  }

  /** A record: a tag and a body, or a group of records between two tags. */
  datatype Record =
    | Scalar(tag: Bytes, body: Bytes)
    | Group(tag: Bytes, records: seq<Record>, end: Bytes)
  {
    /** Wire types 0, 1, 2 and 5 are a varint, eight bytes, a payload and four bytes. */
    ghost predicate Valid() {
      match this
      case Scalar(t, body) =>
        || (IsTag(t, 0) && IsVarint(body))
        || (IsTag(t, 1) && |body| == 8)
        || (IsTag(t, 2) && IsLengthPrefixed(body))
        || (IsTag(t, 5) && |body| == 4)
      case Group(t, rs, e) => IsTag(t, 3) && IsTag(e, 4) && forall r :: r in rs ==> r.Valid()
    }

    ghost function Text(): Bytes {
      match this
      case Scalar(t, body) => t + body
      case Group(t, rs, e) => t + Texts(rs) + e
    }
  }

  ghost function Texts(rs: seq<Record>): Bytes {
    if rs == [] then [] else rs[0].Text() + Texts(rs[1..])
  }

  ghost predicate AllValid(rs: seq<Record>) {
    forall r :: r in rs ==> r.Valid()
  }

  lemma VarintThen(w: Bytes, t: Bytes)
    requires IsVarint(w)
    ensures Varint(w + t) == Varint(w) && Varint(w).used == |w|
    ensures (w + t)[|w|..] == t && |w| > 0
  {
    VarintExtend(w, t, 0);
  }

  //
  // Every record is measured as a whole
  //

  lemma MeasuresTag(at: nat, depth: nat, tag: Bytes, wireType: nat, t: Bytes)
    requires IsTag(tag, wireType) && (wireType == 3 || (wireType == 4 && depth > 0)) && at + |tag| < TWO_63
    ensures SkipOne(at, depth, tag + t) == Ok(if wireType == 3 then depth + 1 else depth - 1, |tag|)
  {
    VarintThen(tag, t);
  }

  lemma MeasuresScalar(at: nat, depth: nat, r: Record, t: Bytes)
    requires r.Scalar? && r.Valid() && at + |r.Text()| < TWO_63
    ensures SkipOne(at, depth, r.Text() + t) == Ok(depth, |r.Text()|)
  {
    hide Varint;
    var tag, body := r.tag, r.body;
    VarintThen(tag, body + t);
    assert r.Text() + t == tag + (body + t);
    if IsTag(tag, 0) {
      VarintThen(body, t);
    } else if IsTag(tag, 2) {
      VarintExtend(body, t, 0);
    }
  }

  lemma {:induction false} MeasuresRecord(at: nat, depth: nat, r: Record, t: Bytes)
    requires r.Valid() && at + |r.Text()| < TWO_63
    ensures
      Behind(at, SkipFrom(at, depth, r.Text() + t)) ==
      if depth == 0 then Ok((), at + |r.Text()|)
      else Behind(at + |r.Text()|, SkipFrom(at + |r.Text()|, depth, t))
    decreases r, 0
  {
    hide SkipFrom, SkipOne, IsTag;
    var s := r.Text() + t;
    SkipFromStep(at, depth, s);
    match r
    case Scalar(_, _) =>
      MeasuresScalar(at, depth, r, t);
      assert s[|r.Text()|..] == t;
    case Group(tag, rs, end) =>
      var at' := at + |tag|;
      var inner := Texts(rs) + (end + t);
      assert s == tag + inner && s[|tag|..] == inner;
      MeasuresTag(at, depth, tag, 3, inner);
      MeasuresAll(at', depth + 1, rs, end + t);
      SkipFromStep(at' + |Texts(rs)|, depth + 1, end + t);
      MeasuresTag(at' + |Texts(rs)|, depth + 1, end, 4, t);
      assert (end + t)[|end|..] == t;
  }

  lemma {:induction false} MeasuresAll(at: nat, depth: nat, rs: seq<Record>, t: Bytes)
    requires depth > 0 && AllValid(rs) && at + |Texts(rs)| < TWO_63
    ensures
      Behind(at, SkipFrom(at, depth, Texts(rs) + t)) ==
      Behind(at + |Texts(rs)|, SkipFrom(at + |Texts(rs)|, depth, t))
    decreases rs, 1
  {
    hide SkipFrom, Behind;
    if rs == [] {
      assert Texts(rs) + t == t;
    } else {
      var rest := Texts(rs[1..]);
      assert Texts(rs) + t == rs[0].Text() + (rest + t);
      MeasuresRecord(at, depth, rs[0], rest + t);
      MeasuresAll(at + |rs[0].Text()|, depth, rs[1..], t);
    }
  }

  /** A record is measured at its own length, whatever follows. */
  lemma SkipsRecord(r: Record, t: Bytes)
    requires r.Valid() && |r.Text()| < TWO_63
    ensures Skip(r.Text() + t) == Ok((), |r.Text()|)
  {
    hide SkipFrom;
    SkipStart(r.Text() + t);
    MeasuresRecord(0, 0, r, t);
  }

  //
  // Nothing else is measured
  //

  /** The rest of an open group: records, then the tag that closes it. */
  datatype Level = Level(records: seq<Record>, end: Bytes) {
    ghost predicate Valid() {
      AllValid(records) && IsTag(end, 4)
    }
  }

  ghost function LevelsText(ls: seq<Level>): Bytes {
    if ls == [] then [] else Texts(ls[0].records) + ls[0].end + LevelsText(ls[1..])
  }

  ghost predicate LevelsValid(ls: seq<Level>) {
    forall i :: 0 <= i < |ls| ==> ls[i].Valid()
  }

  lemma VarintAlone(s: Bytes)
    requires Varint64(s).Ok?
    ensures IsVarint(s[..Varint64(s).used]) && Varint64(s[..Varint64(s).used]).value == Varint64(s).value
  {
    var n := Varint64(s).used;
    VarintLocal(s, [], 0);
    assert s[..n] + [] == s[..n];
  }

  /** What one round of skipping passes over: a scalar record, or the tag that opens or closes a group. */
  lemma PassedOver(at: nat, depth: nat, s: Bytes) returns (wireType: nat, r: Record)
    requires SkipOne(at, depth, s).Ok? && SkipOne(at, depth, s).used <= |s|
    ensures
      var Ok(depth', m) := SkipOne(at, depth, s);
      match wireType
      case 3 => depth' == depth + 1 && IsTag(s[..m], 3)
      case 4 => depth > 0 && depth' == depth - 1 && IsTag(s[..m], 4)
      case _ => depth' == depth && r.Scalar? && r.Valid() && r.Text() == s[..m]
  {
    hide Varint;
    var Ok(_, m) := SkipOne(at, depth, s);
    var Ok(tag, n) := Varint64(s);
    wireType := tag % 8;
    VarintAlone(s);
    r := Scalar(s[..n], s[n..m]);
    assert s[..n] + s[n..m] == s[..m];
    if wireType == 0 {
      VarintAlone(s[n..]);
      assert s[n..][..m - n] == s[n..m];
    } else if wireType == 2 {
      var k := Varint64(s[n..]).used;
      VarintLocal(s[n..], s[n + k..m], 0);
      assert s[n..][..k] + s[n + k..m] == s[n..m];
    }
  }

  /** Puts a record in front of the innermost level. */
  ghost function Prepend(r: Record, ls: seq<Level>): seq<Level>
    requires ls != []
  {
    [Level([r] + ls[0].records, ls[0].end)] + ls[1..]
  }

  lemma PrependText(r: Record, ls: seq<Level>)
    requires ls != [] && r.Valid() && LevelsValid(ls)
    ensures LevelsValid(Prepend(r, ls)) && LevelsText(Prepend(r, ls)) == r.Text() + LevelsText(ls)
  {
    hide IsTag;
    var rs := ls[0].records;
    assert ([r] + rs)[1..] == rs && Prepend(r, ls)[1..] == ls[1..];
    assert Texts([r] + rs) == r.Text() + Texts(rs);
    assert ls[0].Valid();
  }

  lemma CloseText(tag: Bytes, ls: seq<Level>)
    requires IsTag(tag, 4) && LevelsValid(ls)
    ensures LevelsValid([Level([], tag)] + ls) && LevelsText([Level([], tag)] + ls) == tag + LevelsText(ls)
  {
    hide IsTag;
    assert ([Level([], tag)] + ls)[1..] == ls;
    assert Texts([]) + tag == tag;
  }

  /** Skipping inside `depth` open groups passes over `depth` levels. */
  lemma {:induction false} ParsesLevels(at: nat, depth: nat, s: Bytes) returns (ls: seq<Level>)
    requires depth > 0 && SkipFrom(at, depth, s).Ok? && SkipFrom(at, depth, s).used <= |s|
    ensures |ls| == depth && LevelsValid(ls) && LevelsText(ls) == s[..SkipFrom(at, depth, s).used]
    decreases |s|
  {
    hide SkipOne, IsTag, LevelsText;
    var Ok(depth', m) := SkipOne(at, depth, s);
    var end := SkipFrom(at, depth, s).used;
    var wireType, r := PassedOver(at, depth, s);
    if depth' == 0 {
      CloseText(s[..m], []);
      ls := [Level([], s[..m])];
      assert ls == ls + [] && LevelsText([]) == [] by { NoLevels(); }
      assert s[..m] + [] == s[..m];
    } else {
      var rest := ParsesLevels(at + m, depth', s[m..]);
      assert s[..m] + s[m..][..end - m] == s[..end];
      if wireType == 3 {
        var g := Group(s[..m], rest[0].records, rest[0].end);
        assert rest[0].Valid();
        PrependText(g, rest[1..]);
        GroupText(g, rest);
        ls := Prepend(g, rest[1..]);
      } else if wireType == 4 {
        CloseText(s[..m], rest);
        ls := [Level([], s[..m])] + rest;
      } else {
        PrependText(r, rest);
        ls := Prepend(r, rest);
      }
    }
  }

  lemma NoLevels()
    ensures LevelsText([]) == []
  {
  }

  lemma GroupText(g: Record, ls: seq<Level>)
    requires g.Group? && ls != [] && g.records == ls[0].records && g.end == ls[0].end
    ensures g.Text() + LevelsText(ls[1..]) == g.tag + LevelsText(ls)
  {
  }

  /** What is skipped is one record of the grammar. */
  lemma SkippedIsRecord(s: Bytes) returns (r: Record)
    requires Skip(s).Ok? && Skip(s).used <= |s|
    ensures r.Valid() && r.Text() == s[..Skip(s).used]
  {
    hide SkipOne, IsTag, LevelsText;
    var Ok(depth', m) := SkipOne(0, 0, s);
    var wireType;
    wireType, r := PassedOver(0, 0, s);
    if wireType == 3 {
      var ls := ParsesLevels(m, 1, s[m..]);
      r := Group(s[..m], ls[0].records, ls[0].end);
      assert ls[0].Valid();
      GroupText(r, ls);
      NoLevels();
      assert ls[1..] == [];
      assert r.Text() + [] == r.Text();
      assert s[..m] + s[m..][..Skip(s).used - m] == s[..Skip(s).used];
    }
  }

  /** Skipping measures `n` bytes that are there exactly if they are a record of the grammar. */
  lemma SkipIffRecord(s: Bytes, n: nat)
    requires n <= |s| < TWO_63
    ensures Skip(s).Ok? && Skip(s).used == n <==> exists r: Record :: r.Valid() && r.Text() == s[..n]
  {
    hide Skip, Record.Valid, Record.Text;
    assert s == s[..n] + s[n..];
    if Skip(s).Ok? && Skip(s).used == n {
      var r := SkippedIsRecord(s);
    }
    if r: Record :| r.Valid() && r.Text() == s[..n] {
      SkipsRecord(r, s[n..]);
    }
  }

  /** Why an input is not skipped, by the wire type of its first tag. */
  lemma SkipRefuses(tag: Bytes, t: Bytes)
    requires IsVarint(tag)
    ensures IsTag(tag, 4) ==> Skip(tag + t) == Err(EndGroup)
    ensures IsTag(tag, 6) || IsTag(tag, 7) ==> Skip(tag + t) == Err(IllegalWireType)
    ensures (IsTag(tag, 0) || IsTag(tag, 2)) && Varint(t).Err? ==> Skip(tag + t) == Err(Varint(t).error)
    ensures IsTag(tag, 2) && Varint64(t).Ok? && Varint64(t).value > 0x7fff_ffff_ffff_ffff ==>
      Skip(tag + t) == Err(InvalidLength)
    ensures IsTag(tag, 3) && t == [] ==> Skip(tag + t) == Err(UnexpectedEOF)
  {
    hide Varint;
    VarintThen(tag, t);
    if IsTag(tag, 3) && t == [] {
      SkipFromEnd(|tag|, 1);
    }
  }

  //
  // The forms a record is written in
  //

  lemma WrittenTag(num: nat, wireType: nat)
    requires num < TWO_31 && wireType < 8
    ensures IsTag(Tag(num, wireType), wireType)
    ensures Varint64(Tag(num, wireType)).value == 8 * num + wireType
  {
    assert Tag(num, wireType) + [] == Tag(num, wireType);
    Varint64RoundTrip(8 * num + wireType, []);
  }

  /** Varints, eight bytes, payloads, four bytes and groups, of any field and whatever follows. */
  lemma SkipMeasures(num: nat, u: uint64, p: Bytes, rs: seq<Record>, t: Bytes)
    requires num < TWO_31 && AllValid(rs)
    ensures Skip(VarintRecord(num, u) + t) == Ok((), |VarintRecord(num, u)|)
    ensures |p| == 8 ==> Skip(Tag(num, 1) + p + t) == Ok((), |Tag(num, 1)| + 8)
    ensures |BytesRecord(num, p)| < TWO_63 ==> Skip(BytesRecord(num, p) + t) == Ok((), |BytesRecord(num, p)|)
    ensures
      var group := Tag(num, 3) + Texts(rs) + Tag(num, 4);
      |group| < TWO_63 ==> Skip(group + t) == Ok((), |group|)
    ensures |p| == 4 ==> Skip(Tag(num, 5) + p + t) == Ok((), |Tag(num, 5)| + 4)
  {
    hide Skip, Varint, VarintBytes, Tag, Texts;
    forall wireType | 0 <= wireType < 6
      ensures IsTag(Tag(num, wireType), wireType) && |Tag(num, wireType)| <= 10
    {
      WrittenTag(num, wireType);
      VarintBytesFitTag(num, wireType);
    }
    assert VarintBytes(u) + [] == VarintBytes(u);
    Varint64RoundTrip(u, []);
    SkipsRecord(Scalar(Tag(num, 0), VarintBytes(u)), t);
    if |p| == 8 {
      SkipsRecord(Scalar(Tag(num, 1), p), t);
    }
    if |BytesRecord(num, p)| < TWO_63 {
      Varint64RoundTrip(|p|, p);
      SkipsRecord(Scalar(Tag(num, 2), LengthPrefixed(p)), t);
    }
    if |p| == 4 {
      SkipsRecord(Scalar(Tag(num, 5), p), t);
    }
    if |Tag(num, 3) + Texts(rs) + Tag(num, 4)| < TWO_63 {
      SkipsRecord(Group(Tag(num, 3), rs, Tag(num, 4)), t);
    }
  }

  lemma VarintBytesFitTag(num: nat, wireType: nat)
    requires num < TWO_31 && wireType < 8
    ensures |Tag(num, wireType)| <= 10
  {
    VarintBytesFit(8 * num + wireType);
  }

  //
  // Retained and discarded records
  //

  /** The field a record is of. */
  ghost function NumberOf(r: Record): int32
    requires r.Valid()
  {
    FieldNumber(Varint64(r.tag).value)
  }

  /** Records of fields above number `known`. */
  ghost predicate AllAbove(known: nat, rs: seq<Record>) {
    forall r: Record :: r in rs ==> r.Valid() && NumberOf(r) > known
  }

  lemma RecordHead(known: nat, r: Record, t: Bytes)
    requires r.Valid() && NumberOf(r) > known && |r.Text()| < TWO_63
    ensures ReadTag(r.Text() + t).Ok? && FieldNumber(ReadTag(r.Text() + t).value) == NumberOf(r)
    ensures Skip(r.Text() + t) == Ok((), |r.Text()|) && |r.Text()| > 0
  {
    hide Varint, Skip;
    SkipsRecord(r, t);
    var rest := match r case Scalar(_, body) => body + t case Group(_, rs, e) => Texts(rs) + e + t;
    assert r.Text() + t == r.tag + rest;
    VarintThen(r.tag, rest);
  }

  lemma {:induction false} RecordsAreUnknown(known: nat, rs: seq<Record>)
    requires AllAbove(known, rs) && |Texts(rs)| < TWO_63
    ensures UnknownRecords(known, Texts(rs))
  {
    hide Skip, ReadTag, FieldNumber, Record.Text, Record.Valid, NumberOf;
    if rs != [] {
      RecordHead(known, rs[0], Texts(rs[1..]));
      assert Texts(rs)[|rs[0].Text()|..] == Texts(rs[1..]);
      RecordsAreUnknown(known, rs[1..]);
    }
  }

  lemma {:induction false} UnknownAreRecords(known: nat, u: Bytes) returns (rs: seq<Record>)
    requires UnknownRecords(known, u) && |u| < TWO_63
    ensures AllAbove(known, rs) && Texts(rs) == u
    decreases |u|
  {
    hide Skip, ReadTag, FieldNumber, Record.Text, Record.Valid, NumberOf;
    if u == [] {
      rs := [];
    } else {
      var n := Skip(u).used;
      var r := SkippedIsRecord(u);
      assert u == u[..n] + u[n..];
      NumberOfFirst(r, u[n..]);
      var rest := UnknownAreRecords(known, u[n..]);
      rs := [r] + rest;
      assert rs[1..] == rest;
    }
  }

  lemma NumberOfFirst(r: Record, t: Bytes)
    requires r.Valid()
    ensures Varint64(r.Text() + t).Ok? && FieldNumber(Varint64(r.Text() + t).value) == NumberOf(r)
  {
    hide Varint;
    var rest := match r case Scalar(_, body) => body + t case Group(_, rs, e) => Texts(rs) + e + t;
    assert r.Text() + t == r.tag + rest;
    VarintThen(r.tag, rest);
  }

  /** The unknown bytes of a well-formed message are exactly records of fields it does not have. */
  lemma UnknownIffRecords(known: nat, u: Bytes)
    requires |u| < TWO_63
    ensures UnknownRecords(known, u) <==> exists rs: seq<Record> :: AllAbove(known, rs) && Texts(rs) == u
  {
    hide UnknownRecords, AllAbove, Texts;
    if UnknownRecords(known, u) {
      var rs := UnknownAreRecords(known, u);
    }
    if rs: seq<Record> :| AllAbove(known, rs) && Texts(rs) == u {
      RecordsAreUnknown(known, rs);
    }
  }

  /** Records of unknown fields, groups and fixed-width ones included, are retained byte for byte. */
  lemma RecordsRetained(fs: Schema, rs: seq<Record>, m: Message)
    requires AllAbove(|fs|, rs) && |Texts(rs)| < TWO_63
    ensures Decode(fs, false, 0, Texts(rs), m) == Done(m.(unknown := m.unknown + Texts(rs)))
  {
    hide UnknownRecords, AllAbove, Texts, Decode;
    RecordsAreUnknown(|fs|, rs);
    ReadsUnknown(fs, Texts(rs), m);
  }

  /** When told to discard, the decoder passes over them and leaves the message as it is. */
  lemma {:induction false} RecordsDiscarded(fs: Schema, pos: nat, rs: seq<Record>, m: Message)
    requires AllAbove(|fs|, rs) && pos + |Texts(rs)| < TWO_63
    ensures Decode(fs, true, pos, Texts(rs), m) == Done(m)
    decreases |rs|
  {
    hide Skip, ReadTag, FieldNumber, Record.Text, Record.Valid, NumberOf;
    if rs != [] {
      var s, n := Texts(rs), |rs[0].Text()|;
      RecordHead(|fs|, rs[0], Texts(rs[1..]));
      assert s[n..] == Texts(rs[1..]);
      assert Step(fs, true, pos, s, m) == Ok(m, n);
      RecordsDiscarded(fs, pos + n, rs[1..], m);
    }
  }
}
