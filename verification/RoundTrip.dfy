/**
  Decoding an encoding merges the message into the one decoded into, for every
  schema.  Into an empty message this is the round trip.
 */
module RoundTrip {
  import opened Options
  import opened Words
  import opened Wire
  import opened Messages
  import opened Composition

  /** Bytes made of complete records, all of fields above number `known`. */
  ghost predicate UnknownRecords(known: nat, u: Bytes)
    decreases |u|
  {
    u == [] ||
    (&& ReadTag(u).Ok? && FieldNumber(ReadTag(u).value) > known
     && Skip(u).Ok? && Skip(u).used <= |u|
     && UnknownRecords(known, u[Skip(u).used..]))
  }

  ghost predicate HasKind(k: Kind, v: Value)
    decreases k, 0
  {
    match k
    case Uint64 => v.U64?
    case Enum => v.I32?
    case Bool => v.Flag?
    case Text => v.Str?
    case TextList => v.Strs?
    case Uint64List => v.U64s?
    case Nested(fs) => v.Sub? && (v.m.Some? ==> WellFormed(fs, v.m.value))
    case NestedList(fs) => v.Subs? && forall i :: 0 <= i < |v.ms| ==> WellFormed(fs, v.ms[i])
  }

  /**
    A message of schema `fs`, with any field values of the right kinds and, at
    every level, unknown bytes that are complete records of other fields.
   */
  ghost predicate WellFormed(fs: Schema, m: Message)
    decreases fs, 1
  {
    && |m.values| == |fs| < TWO_31
    && UnknownRecords(|fs|, m.unknown)
    && forall i :: 0 <= i < |fs| ==> HasKind(fs[i], m.values[i])
  }

  /** `s` takes a message from `m` to `m'`. */
  ghost predicate Reads(fs: Schema, s: Bytes, m: Message, m': Message) {
    Decode(fs, false, 0, s, m) == Done(m')
  }

  lemma ReadsNothing(fs: Schema, m: Message)
    ensures Reads(fs, [], m, m)
  {
  }

  lemma ReadsChain(fs: Schema, a: Bytes, b: Bytes, m: Message, m1: Message, m2: Message)
    requires |a + b| < TWO_63 && Reads(fs, a, m, m1) && Reads(fs, b, m1, m2)
    ensures Reads(fs, a + b, m, m2)
  {
    hide Decode;
    SequentialComposition(fs, false, a, b, m);
  }

  lemma ReadsStep(fs: Schema, s: Bytes, m: Message, m': Message)
    requires s != [] && Step(fs, false, 0, s, m) == Ok(m', |s|)
    ensures Reads(fs, s, m, m')
  {
    hide Step, Decode;
    DecodeStep(fs, false, 0, s, m);
    assert s[|s|..] == [];
    DecodeNil(fs, false, |s|, m');
  }

  //
  // One record
  //

  ghost predicate ValidNumber(fs: Schema, num: nat, m: Message) {
    1 <= num <= |fs| == |m.values| < TWO_31
  }

  lemma TagRoundTrip(num: nat, wireType: nat, body: Bytes)
    requires 1 <= num < TWO_31 && (wireType == 0 || wireType == 2)
    ensures ReadTag(Tag(num, wireType) + body) == Ok(8 * num + wireType, |Tag(num, wireType)|)
    ensures FieldNumber(8 * num + wireType) == num
    ensures 1 <= |Tag(num, wireType)| <= MAX_VARINT
  {
    Varint64RoundTrip(8 * num + wireType, body);
  }

  lemma ReadsRecord(fs: Schema, num: nat, wireType: nat, body: Bytes, m: Message, v: Value)
    requires ValidNumber(fs, num, m) && (wireType == 0 || wireType == 2)
    requires MergeField(fs[num - 1], m.values[num - 1], false, wireType, |Tag(num, wireType)|, body) == Ok(v, |body|)
    ensures Reads(fs, Tag(num, wireType) + body, m, With(m, num, v))
  {
    hide Step, MergeField, Tag, ReadTag, FieldNumber;
    var s := Tag(num, wireType) + body;
    TagRoundTrip(num, wireType, body);
    StepOfField(fs, false, 0, s, m);
    assert s[|Tag(num, wireType)|..] == body;
    ReadsStep(fs, s, m, With(m, num, v));
  }

  lemma ReadsVarint(fs: Schema, num: nat, u: uint64, m: Message, v: Value)
    requires ValidNumber(fs, num, m)
    requires match fs[num - 1]
             case Uint64 => v == U64(u)
             case Enum => v == I32(Int32(u))
             case Bool => v == Flag(u != 0)
             case Uint64List => v == U64s(U64sOf(m.values[num - 1]) + [u])
             case _ => false
    ensures Reads(fs, VarintRecord(num, u), m, With(m, num, v))
  {
    hide Decode, Step, Tag;
    Varint64RoundTrip(u, []);
    assert VarintBytes(u) + [] == VarintBytes(u);
    ReadsRecord(fs, num, 0, VarintBytes(u), m, v);
  }

  lemma PayloadOfRecord(num: nat, p: Bytes)
    requires 1 <= num < TWO_31 && |BytesRecord(num, p)| < TWO_63
    ensures Payload(|Tag(num, 2)|, LengthPrefixed(p)) == Ok(p, |LengthPrefixed(p)|)
    ensures |p| < TWO_63
  {
    assert LengthPrefixed(p) + [] == LengthPrefixed(p);
    PayloadRoundTrip(|Tag(num, 2)|, p, []);
  }

  lemma ReadsText(fs: Schema, num: nat, p: Bytes, m: Message, v: Value)
    requires ValidNumber(fs, num, m) && |BytesRecord(num, p)| < TWO_63
    requires match fs[num - 1]
             case Text => v == Str(p)
             case TextList => v == Strs(StrsOf(m.values[num - 1]) + [p])
             case _ => false
    ensures Reads(fs, BytesRecord(num, p), m, With(m, num, v))
  {
    hide Decode, Step, Tag, Payload, LengthPrefixed;
    PayloadOfRecord(num, p);
    ReadsRecord(fs, num, 2, LengthPrefixed(p), m, v);
  }

  /** A nested message whose encoding takes the element decoded into to `after`. */
  lemma ReadsNested(fs: Schema, num: nat, child: Message, after: Message, m: Message, v: Value)
    requires ValidNumber(fs, num, m) && |BytesRecord(num, Encode(child))| < TWO_63
    requires
      match fs[num - 1]
      case Nested(gs) => v == Sub(Some(after)) && Reads(gs, Encode(child), SubOf(gs, m.values[num - 1]), after)
      case NestedList(gs) =>
        v == Subs(SubsOf(m.values[num - 1]) + [after]) && Reads(gs, Encode(child), Empty(gs), after)
      case _ => false
    ensures Reads(fs, BytesRecord(num, Encode(child)), m, With(m, num, v))
  {
    hide Decode, Step, Tag, Payload, LengthPrefixed, Encode;
    var p := Encode(child);
    PayloadOfRecord(num, p);
    ReadsRecord(fs, num, 2, LengthPrefixed(p), m, v);
  }

  lemma {:induction false} PackedRoundTrip(us: seq<uint64>, t: Bytes)
    ensures ReadPacked(Packed(us) + t, |Packed(us)|) == Ok(us, |Packed(us)|)
  {
    if us != [] {
      var head, rest := VarintBytes(us[0]), Packed(us[1..]);
      assert Packed(us) + t == head + (rest + t);
      Varint64RoundTrip(us[0], rest + t);
      assert (Packed(us) + t)[|head|..] == rest + t;
      PackedRoundTrip(us[1..], t);
      assert us == [us[0]] + us[1..];
    }
  }

  lemma PackedListRoundTrip(pos: nat, us: seq<uint64>)
    requires Payload(pos, LengthPrefixed(Packed(us))) == Ok(Packed(us), |LengthPrefixed(Packed(us))|)
    ensures PackedList(pos, LengthPrefixed(Packed(us))) == Ok(us, |LengthPrefixed(Packed(us))|)
  {
    hide Payload, ReadPacked, Packed;
    var p := Packed(us);
    var s := LengthPrefixed(p);
    assert s[|s| - |p|..] == p + [];
    PackedRoundTrip(us, []);
  }

  lemma ReadsPacked(fs: Schema, num: nat, us: seq<uint64>, m: Message)
    requires ValidNumber(fs, num, m) && |BytesRecord(num, Packed(us))| < TWO_63
    requires fs[num - 1].Uint64List?
    ensures Reads(fs, BytesRecord(num, Packed(us)), m,
                  With(m, num, U64s(U64sOf(m.values[num - 1]) + us)))
  {
    hide Decode, Step, Tag, Payload, LengthPrefixed, PackedList, Packed;
    var p := Packed(us);
    PayloadOfRecord(num, p);
    PackedListRoundTrip(|Tag(num, 2)|, us);
    ReadsRecord(fs, num, 2, LengthPrefixed(p), m, U64s(U64sOf(m.values[num - 1]) + us));
  }

  //
  // Lists
  //

  lemma {:induction false} ReadsTexts(fs: Schema, num: nat, done: seq<Bytes>, ps: seq<Bytes>, m: Message)
    requires ValidNumber(fs, num, m) && fs[num - 1].TextList? && |BytesRecords(num, ps)| < TWO_63
    ensures Reads(fs, BytesRecords(num, ps), With(m, num, Strs(done)), With(m, num, Strs(done + ps)))
    decreases |ps|
  {
    hide Reads, BytesRecord;
    var m0 := With(m, num, Strs(done));
    if ps == [] {
      assert done + ps == done;
      ReadsNothing(fs, m0);
    } else {
      var done' := done + [ps[0]];
      var m1 := With(m, num, Strs(done'));
      assert done + ps == done' + ps[1..];
      ReadsText(fs, num, ps[0], m0, Strs(done'));
      assert With(m0, num, Strs(done')) == m1;
      ReadsTexts(fs, num, done', ps[1..], m);
      ReadsChain(fs, BytesRecord(num, ps[0]), BytesRecords(num, ps[1..]), m0, m1, With(m, num, Strs(done + ps)));
    }
  }

  lemma {:induction false} ReadsMessages(fs: Schema, num: nat, done: seq<Message>, ms: seq<Message>, m: Message)
    requires ValidNumber(fs, num, m) && fs[num - 1].NestedList?
    requires |BytesRecords(num, EncodeAll(ms))| < TWO_63
    requires forall i :: 0 <= i < |ms| ==> Reads(fs[num - 1].fields, Encode(ms[i]), Empty(fs[num - 1].fields), ms[i])
    ensures Reads(fs, BytesRecords(num, EncodeAll(ms)), With(m, num, Subs(done)), With(m, num, Subs(done + ms)))
    decreases |ms|
  {
    hide Reads, BytesRecord, Encode, Empty;
    var m0 := With(m, num, Subs(done));
    if ms == [] {
      assert done + ms == done;
      ReadsNothing(fs, m0);
    } else {
      var done' := done + [ms[0]];
      var m1 := With(m, num, Subs(done'));
      assert done + ms == done' + ms[1..];
      assert EncodeAll(ms)[1..] == EncodeAll(ms[1..]);
      ReadsNested(fs, num, ms[0], ms[0], m0, Subs(done'));
      assert With(m0, num, Subs(done')) == m1;
      ReadsMessages(fs, num, done', ms[1..], m);
      var m2 := With(m, num, Subs(done + ms));
      ReadsChain(fs, BytesRecord(num, Encode(ms[0])), BytesRecords(num, EncodeAll(ms[1..])), m0, m1, m2);
    }
  }

  //
  // Unknown records
  //

  lemma StepOfUnknown(fs: Schema, s: Bytes, m: Message)
    requires ReadTag(s).Ok? && FieldNumber(ReadTag(s).value) > |fs|
    requires Skip(s).Ok? && Skip(s).used <= |s| < TWO_63
    ensures Step(fs, false, 0, s, m) == Ok(m.(unknown := m.unknown + s[..Skip(s).used]), Skip(s).used)
  {
  }

  lemma {:induction false} ReadsUnknown(fs: Schema, u: Bytes, m: Message)
    requires UnknownRecords(|fs|, u) && |u| < TWO_63
    ensures Reads(fs, u, m, m.(unknown := m.unknown + u))
    decreases |u|
  {
    hide Reads, Step, ReadTag, Skip, FieldNumber;
    if u == [] {
      assert m.unknown + u == m.unknown;
      ReadsNothing(fs, m);
    } else {
      var n := Skip(u).used;
      var m1 := m.(unknown := m.unknown + u[..n]);
      UnknownHead(|fs|, u);
      StepOfUnknown(fs, u[..n], m);
      assert u[..n][..n] == u[..n];
      ReadsStep(fs, u[..n], m, m1);
      ReadsUnknown(fs, u[n..], m1);
      assert u == u[..n] + u[n..];
      assert m.unknown + u == m1.unknown + u[n..];
      ReadsChain(fs, u[..n], u[n..], m, m1, m1.(unknown := m1.unknown + u[n..]));
    }
  }

  /** The first record of some unknown bytes is the same record on its own. */
  lemma UnknownHead(known: nat, u: Bytes)
    requires ReadTag(u).Ok? && Skip(u).Ok? && Skip(u).used <= |u|
    ensures ReadTag(u[..Skip(u).used]).Ok? && ReadTag(u[..Skip(u).used]).value == ReadTag(u).value
    ensures Skip(u[..Skip(u).used]).Ok? && Skip(u[..Skip(u).used]).used == Skip(u).used
  {
    hide SkipFrom, FieldNumber;
    var n := Skip(u).used;
    assert u == u[..n] + u[n..] && u[..n] == u[..n] + [];
    SkipLocal(u[..n], u[n..], []);
    SkipCoversTag(u);
    var k := Varint(u).used;
    VarintLocal(u, u[k..n], 0);
    assert u[..n] == u[..k] + u[k..n];
  }

  //
  // Merging
  //

  /**
    What a field that holds `prior` holds after the records of `v`: the last
    scalar or string wins, lists are appended, nested messages are merged.
   */
  function Joined(prior: Value, v: Value): Value
    decreases v, 0
  {
    match v
    case Strs(ss) => Strs(StrsOf(prior) + ss)
    case U64s(us) => U64s(U64sOf(prior) + us)
    case Subs(ms) => Subs(SubsOf(prior) + ms)
    case Sub(None) => prior
    case Sub(Some(m)) => Sub(Some(if prior.Sub? && prior.m.Some? then Merge(prior.m.value, m) else m))
    case _ => v
  }

  /** Scalars and strings that are not written at all. */
  predicate IsZero(v: Value) {
    v in {U64(0), I32(0), Flag(false), Str([])}
  }

  function MergeValue(prior: Value, v: Value): Value
    decreases v, 1
  {
    if IsZero(v) then prior else Joined(prior, v)
  }

  /** `m` merged into `x`, field by field. */
  function Merge(x: Message, m: Message): Message
    decreases m, 2
  {
    var values := seq(|m.values|, i requires 0 <= i < |m.values| =>
      if i < |x.values| then MergeValue(x.values[i], m.values[i]) else m.values[i]);
    Message(values, x.unknown + m.unknown)
  }

  lemma EmptyWellFormed(fs: Schema)
    requires |fs| < TWO_31
    ensures WellFormed(fs, Empty(fs))
  {
  }

  lemma MergeIntoEmpty(fs: Schema, m: Message)
    requires WellFormed(fs, m)
    ensures Merge(Empty(fs), m) == m
  {
    hide UnknownRecords;
    forall i | 0 <= i < |fs|
      ensures MergeValue(Default(fs[i]), m.values[i]) == m.values[i]
    {
      assert HasKind(fs[i], m.values[i]);
    }
    assert Merge(Empty(fs), m).values == m.values;
    assert [] + m.unknown == m.unknown;
  }

  /** The records of a field value, zero scalars written out. */
  function Written(num: nat, v: Value): Bytes {
    match v
    case U64(u) => VarintRecord(num, u)
    case I32(i) => VarintRecord(num, SignExtend(i))
    case Flag(b) => VarintRecord(num, if b then 1 else 0)
    case Str(s) => BytesRecord(num, s)
    case _ => EncodeValue(num, v)
  }

  /** For every kind of field: what its records do to the value the field has. */
  lemma {:induction false} ReadsWritten(fs: Schema, num: nat, v: Value, x: Message)
    requires ValidNumber(fs, num, x) && HasKind(fs[num - 1], v) && HasKind(fs[num - 1], x.values[num - 1])
    requires |Written(num, v)| < TWO_63
    ensures Reads(fs, Written(num, v), x, With(x, num, Joined(x.values[num - 1], v)))
    decreases fs[num - 1], 1
  {
    hide Reads, WellFormed, Encode, EncodeAll, BytesRecords, BytesRecord, VarintRecord, Merge;
    var k, prior := fs[num - 1], x.values[num - 1];
    assert With(x, num, prior) == x;
    match k
    case Uint64 => ReadsVarint(fs, num, v.u, x, v);
    case Enum =>
      SignExtendTruncates(v.i);
      ReadsVarint(fs, num, SignExtend(v.i), x, v);
    case Bool => ReadsVarint(fs, num, if v.b then 1 else 0, x, v);
    case Text => ReadsText(fs, num, v.s, x, v);
    case TextList => ReadsTexts(fs, num, prior.ss, v.ss, x);
    case Uint64List =>
      if v.us == [] {
        assert prior.us + v.us == prior.us;
        ReadsNothing(fs, x);
      } else {
        ReadsPacked(fs, num, v.us, x);
      }
    case Nested(gs) =>
      if v.m.None? {
        ReadsNothing(fs, x);
      } else {
        MergesNested(fs, num, gs, v, x);
      }
    case NestedList(gs) => MergesList(fs, num, gs, v, x);
  }

  lemma {:induction false} MergesNested(fs: Schema, num: nat, gs: Schema, v: Value, x: Message)
    requires ValidNumber(fs, num, x) && fs[num - 1] == Nested(gs) && v.Sub? && v.m.Some?
    requires HasKind(fs[num - 1], v) && HasKind(fs[num - 1], x.values[num - 1]) && |EncodeValue(num, v)| < TWO_63
    ensures Reads(fs, EncodeValue(num, v), x, With(x, num, Joined(x.values[num - 1], v)))
    decreases fs[num - 1], 0
  {
    hide Reads, Encode, UnknownRecords, Merge;
    var child, prior := v.m.value, SubOf(gs, x.values[num - 1]);
    EmptyWellFormed(gs);
    MergeIntoEmpty(gs, child);
    EncodingMerges(gs, child, prior);
    ReadsNested(fs, num, child, Merge(prior, child), x, Joined(x.values[num - 1], v));
  }

  lemma {:induction false} MergesList(fs: Schema, num: nat, gs: Schema, v: Value, x: Message)
    requires ValidNumber(fs, num, x) && fs[num - 1] == NestedList(gs) && v.Subs? && x.values[num - 1].Subs?
    requires forall i :: 0 <= i < |v.ms| ==> WellFormed(gs, v.ms[i])
    requires |EncodeValue(num, v)| < TWO_63
    ensures Reads(fs, EncodeValue(num, v), x, With(x, num, Joined(x.values[num - 1], v)))
    decreases fs[num - 1], 0
  {
    hide Reads, WellFormed, Encode, BytesRecords;
    forall i | 0 <= i < |v.ms|
      ensures Reads(gs, Encode(v.ms[i]), Empty(gs), v.ms[i])
    {
      RecordWithin(num, EncodeAll(v.ms), i);
      MessageRoundTrip(gs, v.ms[i]);
    }
    var prior := x.values[num - 1].ms;
    ReadsMessages(fs, num, prior, v.ms, x);
    assert With(x, num, Subs(prior)) == x;
  }

  lemma {:induction false} RecordWithin(num: nat, ps: seq<Bytes>, i: nat)
    requires i < |ps|
    ensures |ps[i]| < |BytesRecords(num, ps)|
  {
    if i > 0 {
      RecordWithin(num, ps[1..], i - 1);
    }
  }

  /** `x` with the fields of `m` up to index `i` merged. */
  function MergedUpTo(x: Message, m: Message, i: nat): Message
    requires |x.values| == |m.values|
  {
    x.(values := seq(|x.values|, j requires 0 <= j < |x.values| =>
      if j < i then MergeValue(x.values[j], m.values[j]) else x.values[j]))
  }

  lemma ReadsValue(fs: Schema, num: nat, v: Value, x: Message)
    requires ValidNumber(fs, num, x) && HasKind(fs[num - 1], v) && HasKind(fs[num - 1], x.values[num - 1])
    requires |EncodeValue(num, v)| < TWO_63
    ensures Reads(fs, EncodeValue(num, v), x, With(x, num, MergeValue(x.values[num - 1], v)))
    decreases fs[num - 1], 2
  {
    hide Reads, HasKind, Joined;
    if IsZero(v) {
      assert With(x, num, x.values[num - 1]) == x;
      ReadsNothing(fs, x);
    } else {
      ReadsWritten(fs, num, v, x);
    }
  }

  lemma MergeStep(x: Message, m: Message, i: nat)
    requires |x.values| == |m.values| && i < |m.values|
    ensures MergedUpTo(x, m, i).values[i] == x.values[i]
    ensures With(MergedUpTo(x, m, i), i + 1, MergeValue(x.values[i], m.values[i])) == MergedUpTo(x, m, i + 1)
  {
    hide MergeValue;
  }

  lemma MergeEnds(x: Message, m: Message)
    requires |x.values| == |m.values|
    ensures MergedUpTo(x, m, 0) == x
    ensures MergedUpTo(x, m, |m.values|).(unknown := x.unknown + m.unknown) == Merge(x, m)
  {
    hide MergeValue;
    assert MergedUpTo(x, m, 0).values == x.values;
    assert MergedUpTo(x, m, |m.values|).values == Merge(x, m).values;
  }

  lemma FieldsOfWellFormed(fs: Schema, m: Message)
    requires WellFormed(fs, m)
    ensures |m.values| == |fs| < TWO_31 && UnknownRecords(|fs|, m.unknown)
    ensures forall i :: 0 <= i < |fs| ==> HasKind(fs[i], m.values[i])
  {
  }

  lemma EncodeFieldsUnfold(m: Message, i: nat)
    requires i < |m.values|
    ensures EncodeFields(m, i) + m.unknown == EncodeValue(i + 1, m.values[i]) + (EncodeFields(m, i + 1) + m.unknown)
  {
    hide EncodeValue;
  }

  lemma {:induction false} FieldsMerge(fs: Schema, m: Message, x: Message, i: nat)
    requires WellFormed(fs, m) && WellFormed(fs, x) && i <= |fs| && |EncodeFields(m, i) + m.unknown| < TWO_63
    ensures |x.values| == |m.values|
    ensures Reads(fs, EncodeFields(m, i) + m.unknown, MergedUpTo(x, m, i), Merge(x, m))
    decreases fs, 0, |fs| - i
  {
    hide Reads, EncodeValue, EncodeFields, Merge, MergeValue, HasKind, UnknownRecords;
    FieldsOfWellFormed(fs, m);
    FieldsOfWellFormed(fs, x);
    var p := MergedUpTo(x, m, i);
    if i == |fs| {
      NoMoreFields(m);
      assert [] + m.unknown == m.unknown;
      ReadsUnknown(fs, m.unknown, p);
      MergeEnds(x, m);
    } else {
      var head, rest := EncodeValue(i + 1, m.values[i]), EncodeFields(m, i + 1) + m.unknown;
      EncodeFieldsUnfold(m, i);
      MergeStep(x, m, i);
      ReadsValue(fs, i + 1, m.values[i], p);
      FieldsMerge(fs, m, x, i + 1);
      ReadsChain(fs, head, rest, p, MergedUpTo(x, m, i + 1), Merge(x, m));
    }
  }

  lemma NoMoreFields(m: Message)
    ensures EncodeFields(m, |m.values|) == []
  {
  }

  /** Decoding the encoding of `m` into any message merges `m` into it. */
  lemma {:induction false} EncodingMerges(fs: Schema, m: Message, x: Message)
    requires WellFormed(fs, m) && WellFormed(fs, x) && |Encode(m)| < TWO_63
    ensures Reads(fs, Encode(m), x, Merge(x, m))
    decreases fs, 1
  {
    hide Reads, EncodeFields, Merge, MergedUpTo;
    FieldsMerge(fs, m, x, 0);
    MergeEnds(x, m);
  }

  /** Decoding undoes encoding. */
  lemma {:induction false} MessageRoundTrip(fs: Schema, m: Message)
    requires WellFormed(fs, m) && |Encode(m)| < TWO_63
    ensures Reads(fs, Encode(m), Empty(fs), m)
    decreases fs, 2
  {
    hide Reads, Encode, UnknownRecords, HasKind, Merge;
    EmptyWellFormed(fs);
    EncodingMerges(fs, m, Empty(fs));
    MergeIntoEmpty(fs, m);
  }
}
