/**
  What one record does to a message, spelled out for every kind of field: the
  value it gives, when it is refused and with which error, and what a refused
  record leaves behind.
 */
module FieldRecords {
  import opened Options
  import opened Words
  import opened Wire
  import opened Messages
  import opened RoundTrip
  import opened Records

  ghost predicate IsScalar(k: Kind) {
    k.Uint64? || k.Enum? || k.Bool?
  }

  /** `x` with the value of field `num` replaced. */
  function Set(x: Message, num: nat, v: Value): Message
    requires 1 <= num <= |x.values|
  {
    x.(values := x.values[num - 1 := v])
  }

  //
  // Accepted records, not necessarily in the shortest form
  //

  lemma VarintRecordRead(fs: Schema, num: nat, w: Bytes, x: Message, v: Value)
    requires ValidNumber(fs, num, x) && IsVarint(w)
    requires MergeField(fs[num - 1], x.values[num - 1], false, 0, |Tag(num, 0)|, w) == Ok(v, |w|)
    ensures Decode(fs, false, 0, Tag(num, 0) + w, x) == Done(With(x, num, v))
  {
    ReadsRecord(fs, num, 0, w, x, v);
  }

  /** A varint record of any length: the low 64 or 32 bits of the number, or whether the low 64 are not all zero. */
  lemma VarintMeaning(fs: Schema, num: nat, w: Bytes, x: Message) returns (v: Value)
    requires ValidNumber(fs, num, x) && IsVarint(w)
    requires IsScalar(fs[num - 1]) || (fs[num - 1] == Uint64List && x.values[num - 1].U64s?)
    ensures Decode(fs, false, 0, Tag(num, 0) + w, x) == Done(Set(x, num, v))
    ensures fs[num - 1] == Uint64 ==> v == U64(Varint(w).value % 0x1_0000_0000_0000_0000)
    ensures fs[num - 1] == Enum ==> v.I32? && (Varint(w).value - v.i) % 0x1_0000_0000 == 0
    ensures fs[num - 1] == Bool ==> v == Flag(Varint(w).value % 0x1_0000_0000_0000_0000 != 0)
    ensures fs[num - 1] == Uint64List ==>
      v == U64s(x.values[num - 1].us + [Varint(w).value % 0x1_0000_0000_0000_0000])
  {
    hide Decode, Tag, Varint, Int32;
    CastsTruncate(Varint(w).value, 0);
    v := MergeField(fs[num - 1], x.values[num - 1], false, 0, |Tag(num, 0)|, w).value;
    VarintRecordRead(fs, num, w, x, v);
  }

  /** A length of any form before `p`. */
  ghost predicate IsLength(l: Bytes, p: Bytes) {
    IsVarint(l) && Varint64(l).value == |p|
  }

  lemma PayloadRead(pos: nat, l: Bytes, p: Bytes, t: Bytes)
    requires IsLength(l, p) && pos + |l| + |p| < TWO_63
    ensures Payload(pos, l + p + t) == Ok(p, |l + p|)
  {
    hide Varint;
    assert l + p + t == l + (p + t);
    VarintThen(l, p + t);
  }

  /** What a nested record is decoded into: a new message in a list, else the old one if there is one. */
  function Target(k: Kind, v: Value): Message
    requires k.Nested? || k.NestedList?
  {
    if k.Nested? && v.Sub? && v.m.Some? then v.m.value else Empty(k.fields)
  }

  /** The field value with a decoded message put in its place: at the end of a list, or instead of the old one. */
  function Placed(k: Kind, v: Value, y: Message): Value {
    if k.NestedList? && v.Subs? then Subs(v.ms + [y]) else Sub(Some(y))
  }

  /** A delimited record: strings are replaced or appended. */
  lemma TextMeaning(fs: Schema, num: nat, l: Bytes, p: Bytes, x: Message)
    requires ValidNumber(fs, num, x) && IsLength(l, p) && |Tag(num, 2) + l + p| < TWO_63
    ensures fs[num - 1] == Text ==> Decode(fs, false, 0, Tag(num, 2) + (l + p), x) == Done(Set(x, num, Str(p)))
    ensures fs[num - 1] == TextList && x.values[num - 1].Strs? ==>
      Decode(fs, false, 0, Tag(num, 2) + (l + p), x) == Done(Set(x, num, Strs(x.values[num - 1].ss + [p])))
  {
    hide Decode, Tag, Payload, Empty, Varint64, Varint;
    PayloadRead(|Tag(num, 2)|, l, p, []);
    assert l + p + [] == l + p;
    if fs[num - 1].Text? || fs[num - 1].TextList? {
      ReadsRecord(fs, num, 2, l + p, x, if fs[num - 1].Text? then Str(p) else Strs(StrsOf(x.values[num - 1]) + [p]));
    }
  }

  /** A nested message is decoded from its payload alone, and put in its place if it is accepted. */
  lemma NestedMeaning(fs: Schema, num: nat, l: Bytes, p: Bytes, x: Message)
    requires ValidNumber(fs, num, x) && IsLength(l, p) && |Tag(num, 2) + l + p| < TWO_63
    requires
      || (fs[num - 1].Nested? && x.values[num - 1].Sub?)
      || (fs[num - 1].NestedList? && x.values[num - 1].Subs?)
    ensures
      var y := Decode(fs[num - 1].fields, false, 0, p, Target(fs[num - 1], x.values[num - 1]));
      y.Done? ==>
        Decode(fs, false, 0, Tag(num, 2) + (l + p), x) ==
        Done(Set(x, num, Placed(fs[num - 1], x.values[num - 1], y.result)))
  {
    hide Decode, Tag, Payload, Empty, Varint64, Varint;
    PayloadRead(|Tag(num, 2)|, l, p, []);
    assert l + p + [] == l + p;
    var k, v := fs[num - 1], x.values[num - 1];
    var y := Decode(k.fields, false, 0, p, Target(k, v));
    if y.Done? {
      ReadsRecord(fs, num, 2, l + p, x, Placed(k, v, y.result));
    }
  }

  //
  // Refused tags
  //

  /** Why a tag is refused; nothing of the message changes. */
  lemma TagRefused(fs: Schema, discard: bool, s: Bytes, x: Message)
    requires s != []
    ensures Varint(s).Err? ==> Decode(fs, discard, 0, s, x) == Failed(Varint(s).error)
    ensures Varint(s).Ok? ==>
      var wire := Varint(s).value % 0x1_0000_0000_0000_0000;
      var number := wire / 8 % 0x1_0000_0000;
      && (wire % 8 == 4 ==> Decode(fs, discard, 0, s, x) == Failed(EndGroup))
      && (wire % 8 != 4 && (number == 0 || number > 0x7fff_ffff) ==>
          Decode(fs, discard, 0, s, x) == Failed(IllegalTag))
    ensures ReadTag(s).Err? ==> StateAfter(fs, discard, 0, s, x) == x
  {
    hide Varint, Skip;
  }

  //
  // Refused records of a known field
  //

  lemma FieldRefused(fs: Schema, discard: bool, num: nat, wireType: nat, body: Bytes, x: Message, e: Error, v: Value)
    requires ValidNumber(fs, num, x) && wireType < 8 && wireType != 4
    requires MergeField(fs[num - 1], x.values[num - 1], discard, wireType, |Tag(num, wireType)|, body) == Err(e)
    requires FieldAfterError(fs[num - 1], x.values[num - 1], discard, wireType, |Tag(num, wireType)|, body) == v
    ensures Decode(fs, discard, 0, Tag(num, wireType) + body, x) == Failed(e)
    ensures StateAfter(fs, discard, 0, Tag(num, wireType) + body, x) == Set(x, num, v)
  {
    hide MergeField, FieldAfterError, Step, StateAfterError, ReadTag, Varint;
    var tag := Tag(num, wireType);
    var s := tag + body;
    WrittenTag(num, wireType);
    VarintThen(tag, body);
    KnownTag(num, wireType, body);
    StepOfField(fs, discard, 0, s, x);
    StateAfterField(fs, discard, 0, s, x);
    assert s[|tag|..] == body && s != [];
    DecodeStep(fs, discard, 0, s, x);
    StateAfterStep(fs, discard, 0, s, x);
  }

  lemma KnownTag(num: nat, wireType: nat, body: Bytes)
    requires 1 <= num < TWO_31 && wireType < 8 && wireType != 4
    ensures ReadTag(Tag(num, wireType) + body) == Ok(8 * num + wireType, |Tag(num, wireType)|)
    ensures FieldNumber(8 * num + wireType) == num
  {
    hide Varint;
    WrittenTag(num, wireType);
    VarintThen(Tag(num, wireType), body);
  }

  lemma FieldUntouched(fs: Schema, discard: bool, num: nat, wireType: nat, body: Bytes, x: Message, e: Error)
    requires ValidNumber(fs, num, x) && wireType < 8 && wireType != 4
    requires MergeField(fs[num - 1], x.values[num - 1], discard, wireType, |Tag(num, wireType)|, body) == Err(e)
    requires
      FieldAfterError(fs[num - 1], x.values[num - 1], discard, wireType, |Tag(num, wireType)|, body) ==
      x.values[num - 1]
    ensures Decode(fs, discard, 0, Tag(num, wireType) + body, x) == Failed(e)
    ensures StateAfter(fs, discard, 0, Tag(num, wireType) + body, x) == x
  {
    hide MergeField, FieldAfterError, Decode, StateAfter, Tag;
    FieldRefused(fs, discard, num, wireType, body, x, e, x.values[num - 1]);
    assert x.values[num - 1 := x.values[num - 1]] == x.values;
  }

  /** A known field with a wire type that is not its own is refused, whatever follows the tag. */
  lemma WrongWireTypeRefused(fs: Schema, discard: bool, num: nat, wireType: nat, body: Bytes, x: Message)
    requires ValidNumber(fs, num, x) && wireType < 8 && wireType != 4
    requires
      match fs[num - 1]
      case Uint64List => wireType != 0 && wireType != 2
      case Uint64 => wireType != 0
      case Enum => wireType != 0
      case Bool => wireType != 0
      case _ => wireType != 2
    ensures Decode(fs, discard, 0, Tag(num, wireType) + body, x) == Failed(WrongWireType)
    ensures StateAfter(fs, discard, 0, Tag(num, wireType) + body, x) == x
  {
    hide Decode, StateAfter, Tag;
    FieldUntouched(fs, discard, num, wireType, body, x, WrongWireType);
  }

  /**
    A varint record whose varint cannot be read: a uint64 or an enum is left with
    the groups read so far, any other field as it was.
   */
  lemma VarintRefused(fs: Schema, discard: bool, num: nat, body: Bytes, x: Message) returns (v: Value)
    requires ValidNumber(fs, num, x) && Varint(body).Err?
    requires IsScalar(fs[num - 1]) || fs[num - 1] == Uint64List
    ensures Decode(fs, discard, 0, Tag(num, 0) + body, x) == Failed(Varint(body).error)
    ensures StateAfter(fs, discard, 0, Tag(num, 0) + body, x) == Set(x, num, v)
    ensures fs[num - 1] == Uint64 ==> v == U64(VarintSoFar(body) % 0x1_0000_0000_0000_0000)
    ensures fs[num - 1] == Enum ==> v.I32? && (VarintSoFar(body) - v.i) % 0x1_0000_0000 == 0
    ensures fs[num - 1] == Bool || fs[num - 1] == Uint64List ==> v == x.values[num - 1]
  {
    hide Decode, StateAfter, Tag, Varint, VarintSoFar, Int32;
    CastsTruncate(VarintSoFar(body), 0);
    v := FieldAfterError(fs[num - 1], x.values[num - 1], discard, 0, |Tag(num, 0)|, body);
    FieldRefused(fs, discard, num, 0, body, x, Varint(body).error, v);
  }

  /** A delimited record whose length is refused. */
  lemma LengthRefused(fs: Schema, discard: bool, num: nat, body: Bytes, x: Message)
    requires ValidNumber(fs, num, x) && !IsScalar(fs[num - 1]) && Payload(|Tag(num, 2)|, body).Err?
    requires fs[num - 1] == Uint64List ==> x.values[num - 1].U64s?
    ensures Decode(fs, discard, 0, Tag(num, 2) + body, x) == Failed(Payload(|Tag(num, 2)|, body).error)
    ensures StateAfter(fs, discard, 0, Tag(num, 2) + body, x) == x
  {
    hide Decode, StateAfter, Tag, Payload, Varint, VarintSoFar;
    if x.values[num - 1].U64s? {
      assert x.values[num - 1].us + [] == x.values[num - 1].us;
    }
    FieldUntouched(fs, discard, num, 2, body, x, Payload(|Tag(num, 2)|, body).error);
  }

  /** A nested message that is refused fails the message around it, and stays there with what it got. */
  lemma NestedRefused(fs: Schema, discard: bool, num: nat, l: Bytes, p: Bytes, t: Bytes, x: Message)
    requires ValidNumber(fs, num, x) && IsLength(l, p) && |Tag(num, 2) + l + p| < TWO_63
    requires
      || (fs[num - 1].Nested? && x.values[num - 1].Sub?)
      || (fs[num - 1].NestedList? && x.values[num - 1].Subs?)
    ensures
      var gs, target := fs[num - 1].fields, Target(fs[num - 1], x.values[num - 1]);
      var y := Decode(gs, discard, 0, p, target);
      y.Failed? ==>
        && Decode(fs, discard, 0, Tag(num, 2) + (l + p + t), x) == Failed(y.error)
        && StateAfter(fs, discard, 0, Tag(num, 2) + (l + p + t), x) ==
           Set(x, num, Placed(fs[num - 1], x.values[num - 1], StateAfter(gs, discard, 0, p, target)))
  {
    hide Decode, StateAfter, Tag, Payload, Empty, Varint64, Varint;
    var k, v := fs[num - 1], x.values[num - 1];
    PayloadRead(|Tag(num, 2)|, l, p, t);
    var y := Decode(k.fields, discard, 0, p, Target(k, v));
    if y.Failed? {
      var left := StateAfter(k.fields, discard, 0, p, Target(k, v));
      FieldRefused(fs, discard, num, 2, l + p + t, x, y.error, Placed(k, v, left));
    }
  }

  /** The packed values before one that cannot be read are appended. */
  lemma {:induction false} PackedPrefix(us: seq<uint64>, bad: Bytes, need: nat)
    requires Varint(bad).Err? && need > |Packed(us)|
    ensures ReadPacked(Packed(us) + bad, need) == Err(Varint(bad).error)
    ensures PackedSoFar(Packed(us) + bad, need) == us
  {
    hide Varint;
    if us == [] {
      assert Packed(us) + bad == bad;
    } else {
      var head, rest := VarintBytes(us[0]), Packed(us[1..]) + bad;
      assert Packed(us) + bad == head + rest;
      Varint64RoundTrip(us[0], rest);
      assert (head + rest)[|head|..] == rest;
      PackedPrefix(us[1..], bad, need - |head|);
      assert us == [us[0]] + us[1..];
    }
  }

  lemma PackedRefused(fs: Schema, discard: bool, num: nat, l: Bytes, us: seq<uint64>, bad: Bytes, n: nat, x: Message)
    requires ValidNumber(fs, num, x) && fs[num - 1] == Uint64List && x.values[num - 1].U64s?
    requires 0 < n <= |bad| && IsLength(l, Packed(us) + bad[..n]) && Varint(bad).Err?
    requires |Tag(num, 2) + l + Packed(us) + bad| < TWO_63
    ensures Decode(fs, discard, 0, Tag(num, 2) + (l + Packed(us) + bad), x) == Failed(Varint(bad).error)
    ensures
      StateAfter(fs, discard, 0, Tag(num, 2) + (l + Packed(us) + bad), x) ==
      Set(x, num, U64s(x.values[num - 1].us + us))
  {
    hide Decode, StateAfter, Tag, Payload, ReadPacked, PackedSoFar, Packed, Varint64, Varint, VarintSoFar;
    var p, body, at := Packed(us) + bad[..n], l + Packed(us) + bad, |Tag(num, 2)|;
    assert body == l + p + bad[n..];
    PayloadRead(at, l, p, bad[n..]);
    assert body[|l|..] == Packed(us) + bad;
    PackedPrefix(us, bad, |p|);
    FieldRefused(fs, discard, num, 2, body, x, Varint(bad).error, U64s(x.values[num - 1].us + us));
  }

  /** An unknown record that cannot be measured, or that is not all there. */
  lemma UnknownRefused(fs: Schema, discard: bool, s: Bytes, x: Message)
    requires ReadTag(s).Ok? && FieldNumber(ReadTag(s).value) > |fs| && |fs| == |x.values| && |s| < TWO_63
    ensures Skip(s).Err? ==> Decode(fs, discard, 0, s, x) == Failed(Skip(s).error)
    ensures Skip(s).Ok? && Skip(s).used > |s| && Skip(s).used < TWO_63 ==>
      Decode(fs, discard, 0, s, x) == Failed(UnexpectedEOF)
    ensures Skip(s).Err? || Skip(s).used > |s| ==> StateAfter(fs, discard, 0, s, x) == x
  {
    hide ReadTag, FieldNumber, MergeField, FieldAfterError, Skip;
    assert s != [];
  }
}
