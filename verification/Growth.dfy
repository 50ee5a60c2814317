/**
  How much longer than its input a re-encoding can be.  The decoder accepts
  varints and tags of any length, which the encoder shortens; but it reads a
  negative enum from five bytes and writes it in ten, and a longer payload can
  need a longer length.
 */
module Growth {
  import opened Options
  import opened Words
  import opened Wire
  import opened Messages

  //
  // The encoder writes the shortest varints
  //

  lemma {:induction false} ShorterVarint(a: nat, b: nat)
    requires a <= b
    ensures |VarintBytes(a)| <= |VarintBytes(b)|
  {
    if a >= 128 {
      ShorterVarint(a / 128, b / 128);
    }
  }

  lemma {:induction false} DoubledVarint(a: nat)
    ensures |VarintBytes(2 * a)| <= |VarintBytes(a)| + 1
  {
    if a >= 128 {
      DoubledVarint(a / 128);
      ShorterVarint(2 * a / 128, 2 * (a / 128) + 1);
      OddVarint(a / 128);
    }
  }

  lemma {:induction false} OddVarint(a: nat)
    ensures |VarintBytes(2 * a + 1)| == |VarintBytes(2 * a)|
  {
    if a >= 64 {
      var q := a / 64;
      assert (2 * a + 1) / 128 == q && 2 * a / 128 == q;
    }
  }

  /** The length of a varint is subadditive. */
  lemma SumVarint(a: nat, b: nat)
    ensures |VarintBytes(a + b)| <= |VarintBytes(a)| + |VarintBytes(b)|
  {
    var c := if a <= b then b else a;
    ShorterVarint(a + b, 2 * c);
    DoubledVarint(c);
  }

  lemma {:induction false} VarintWithinValue(a: nat)
    requires a >= 1
    ensures |VarintBytes(a)| <= a
  {
    if a >= 128 {
      VarintWithinValue(a / 128);
    }
  }

  lemma {:induction false} ShortestVarint(s: Bytes, k: nat)
    requires Varint(s, k).Ok?
    ensures |VarintBytes(Varint(s, k).value)| <= Varint(s, k).used
    decreases |s|
  {
    if s[0] >= 128 {
      ShortestVarint(s[1..], k + 1);
      var v := Varint(s[1..], k + 1).value;
      assert (s[0] - 128 + 128 * v) / 128 == v;
    }
  }

  lemma ShortestWord(s: Bytes)
    requires Varint64(s).Ok?
    ensures |VarintBytes(Varint64(s).value)| <= Varint64(s).used
  {
    ShortestVarint(s, 0);
    ShorterVarint(Varint64(s).value, Varint(s).value);
  }

  /** An enum is written with at most twice the bytes it was read from. */
  lemma EnumGrowth(s: Bytes)
    requires Varint(s).Ok?
    ensures |VarintBytes(SignExtend(Int32(Varint(s).value)))| <= 2 * Varint(s).used
  {
    var Ok(u, n) := Varint(s);
    ShortestVarint(s, 0);
    if Int32(u) < 0 {
      assert Pow2(28) <= u by {
        Pow2Widths();
        Pow2Sum(28, 4);
        assert Pow2(4) == 16;
      }
      VarintBytesAtLeast(u, 5);
      VarintBytesFit(SignExtend(Int32(u)));
    } else {
      ShorterVarint(Int32(u), u);
    }
  }

  lemma TagLength(num: nat, wireType: nat)
    requires wireType < 8
    ensures |Tag(num, wireType)| == |Tag(num, 0)|
  {
    assert (8 * num + wireType) / 128 == 8 * num / 128;
  }

  /** An accepted tag is at least as long as the tag written for its field. */
  lemma ShortestTag(s: Bytes)
    requires ReadTag(s).Ok?
    ensures |Tag(FieldNumber(ReadTag(s).value), 0)| <= ReadTag(s).used
  {
    var wire := ReadTag(s).value;
    ShortestWord(s);
    ShorterVarint(8 * FieldNumber(wire), wire);
  }

  lemma ShortestPayload(pos: nat, s: Bytes)
    requires Payload(pos, s).Ok?
    ensures |LengthPrefixed(Payload(pos, s).value)| <= Payload(pos, s).used
  {
    ShortestWord(s);
  }

  //
  // Lists
  //

  lemma {:induction false} RecordsSum(num: nat, ps: seq<Bytes>, p: Bytes)
    ensures |BytesRecords(num, ps + [p])| == |BytesRecords(num, ps)| + |BytesRecord(num, p)|
  {
    hide BytesRecord;
    if ps == [] {
      assert ps + [p] == [p];
      assert BytesRecords(num, [p]) == BytesRecord(num, p) + BytesRecords(num, []);
    } else {
      assert (ps + [p])[1..] == ps[1..] + [p];
      RecordsSum(num, ps[1..], p);
    }
  }

  lemma {:induction false} PackedSum(us: seq<nat>, vs: seq<nat>)
    ensures |Packed(us + vs)| == |Packed(us)| + |Packed(vs)|
  {
    hide VarintBytes;
    if us == [] {
      assert us + vs == vs;
    } else {
      assert (us + vs)[1..] == us[1..] + vs;
      PackedSum(us[1..], vs);
    }
  }

  lemma {:induction false} ShortestPacked(s: Bytes, need: nat)
    requires ReadPacked(s, need).Ok?
    ensures |Packed(ReadPacked(s, need).value)| <= ReadPacked(s, need).used
    decreases |s|
  {
    hide Varint64, VarintBytes;
    if need > 0 {
      var Ok(v, n) := Varint64(s);
      var rest := if n < need then need - n else 0;
      ShortestWord(s);
      ShortestPacked(s[n..], rest);
      var vs := ReadPacked(s[n..], rest).value;
      assert ([v] + vs)[1..] == vs;
    }
  }

  lemma {:induction false} PackedNonEmpty(us: seq<nat>)
    ensures |us| <= |Packed(us)|
  {
    if us != [] {
      PackedNonEmpty(us[1..]);
    }
  }

  /** Appending `vs` to a packed field of a tag of `t` bytes. */
  lemma PackedGrowth(num: nat, us: seq<uint64>, vs: seq<uint64>, t: nat, n: nat)
    requires |Tag(num, 2)| == t && |Packed(vs)| <= n
    ensures |EncodeValue(num, U64s(us + vs))| <= |EncodeValue(num, U64s(us))| + t + 2 * n
  {
    hide VarintBytes, Packed;
    var l, k := |Packed(us)|, |Packed(vs)|;
    PackedSum(us, vs);
    PackedNonEmpty(us);
    PackedNonEmpty(vs);
    if vs == [] {
      assert us + vs == us;
    } else {
      VarintWithinValue(k);
      SumVarint(l, k);
      if us == [] {
        assert us + vs == vs;
      }
    }
  }

  //
  // Messages
  //

  lemma EncodeEmpty(fs: Schema)
    ensures Encode(Empty(fs)) == []
  {
    EmptyFields(fs, 0);
  }

  lemma {:induction false} EmptyFields(fs: Schema, i: nat)
    requires i <= |fs|
    ensures EncodeFields(Empty(fs), i) == []
    decreases |fs| - i
  {
    if i < |fs| {
      EmptyFields(fs, i + 1);
    }
  }

  /** Replacing one field changes the size of a message by the change of that field. */
  lemma {:induction false} EncodeWith(m: Message, num: nat, v: Value, i: nat)
    requires 1 <= num <= |m.values| && i <= |m.values|
    ensures
      |EncodeFields(With(m, num, v), i)| ==
      |EncodeFields(m, i)| +
      if i < num then |EncodeValue(num, v)| - |EncodeValue(num, m.values[num - 1])| else 0
    decreases |m.values| - i
  {
    hide EncodeValue;
    if i < |m.values| {
      EncodeWith(m, num, v, i + 1);
    }
  }

  /** The size of a nested message with a tag of `t` bytes that grew from `c` by at most `2 * |p|`. */
  lemma NestedGrowth(num: nat, x: Message, c: nat, p: Bytes, t: nat)
    requires |Tag(num, 2)| == t && |Encode(x)| <= c + 2 * |p|
    ensures |BytesRecord(num, Encode(x))| <= t + |VarintBytes(c)| + c + 2 * |LengthPrefixed(p)|
    ensures c == 0 ==> |BytesRecord(num, Encode(x))| <= t + 2 * |LengthPrefixed(p)|
  {
    hide VarintBytes, Encode;
    var n := |p|;
    ShorterVarint(|Encode(x)|, c + 2 * n);
    DoubledVarint(n);
    SumVarint(c, 2 * n);
  }

  lemma {:induction false} FieldGrowth(
    num: nat, k: Kind, v: Value, discard: bool, wireType: nat, pos: nat, s: Bytes)
    requires MergeField(k, v, discard, wireType, pos, s).Ok?
    ensures
      var Ok(v', n) := MergeField(k, v, discard, wireType, pos, s);
      |EncodeValue(num, v')| <= |EncodeValue(num, v)| + 2 * (|Tag(num, 0)| + n)
    decreases |s|, 1
  {
    hide *;
    TagLength(num, 2);
    match k
    case Uint64 => ScalarGrowth(num, k, v, discard, wireType, pos, s);
    case Enum => ScalarGrowth(num, k, v, discard, wireType, pos, s);
    case Bool => ScalarGrowth(num, k, v, discard, wireType, pos, s);
    case Text => TextGrowth(num, k, v, discard, wireType, pos, s);
    case TextList => TextGrowth(num, k, v, discard, wireType, pos, s);
    case Uint64List => Uint64ListGrowth(num, v, discard, wireType, pos, s);
    case Nested(_) => NestedFieldGrowth(num, k, v, discard, wireType, pos, s);
    case NestedList(_) => NestedFieldGrowth(num, k, v, discard, wireType, pos, s);
  }

  lemma ScalarGrowth(num: nat, k: Kind, v: Value, discard: bool, wireType: nat, pos: nat, s: Bytes)
    requires k.Uint64? || k.Enum? || k.Bool?
    requires MergeField(k, v, discard, wireType, pos, s).Ok?
    ensures
      var Ok(v', n) := MergeField(k, v, discard, wireType, pos, s);
      |EncodeValue(num, v')| <= |Tag(num, 0)| + 2 * n
  {
    hide Varint, Tag, VarintBytes;
    match k
    case Uint64 => ShortestWord(s);
    case Enum => EnumGrowth(s);
    case Bool =>
      assert VarintBytes(1) == [1] by {
        OneByteVarint();
      }
  }

  lemma OneByteVarint()
    ensures VarintBytes(1) == [1]
  {
  }

  lemma TextGrowth(num: nat, k: Kind, v: Value, discard: bool, wireType: nat, pos: nat, s: Bytes)
    requires k.Text? || k.TextList?
    requires MergeField(k, v, discard, wireType, pos, s).Ok?
    ensures
      var Ok(v', n) := MergeField(k, v, discard, wireType, pos, s);
      |EncodeValue(num, v')| <= |EncodeValue(num, v)| + |Tag(num, 0)| + n
  {
    hide Payload, Tag, LengthPrefixed;
    var p := Payload(pos, s).value;
    TagLength(num, 2);
    ShortestPayload(pos, s);
    RecordsSum(num, StrsOf(v), p);
  }

  lemma Uint64ListGrowth(num: nat, v: Value, discard: bool, wireType: nat, pos: nat, s: Bytes)
    requires MergeField(Uint64List, v, discard, wireType, pos, s).Ok?
    ensures
      var Ok(v', n) := MergeField(Uint64List, v, discard, wireType, pos, s);
      |EncodeValue(num, v')| <= |EncodeValue(num, v)| + |Tag(num, 0)| + 2 * n
  {
    hide Payload, Tag, ReadPacked, Varint64, VarintBytes;
    TagLength(num, 2);
    var us := U64sOf(v);
    if wireType == 0 {
      var Ok(u, n) := Varint64(s);
      ShortestWord(s);
      assert Packed([u]) == VarintBytes(u) + Packed([]);
      PackedGrowth(num, us, [u], |Tag(num, 2)|, n);
    } else {
      var Ok(p, n) := Payload(pos, s);
      var vs := ReadPacked(s[n - |p|..], |p|).value;
      ShortestPacked(s[n - |p|..], |p|);
      PackedGrowth(num, us, vs, |Tag(num, 2)|, PackedList(pos, s).used);
    }
  }

  lemma {:induction false} NestedFieldGrowth(
    num: nat, k: Kind, v: Value, discard: bool, wireType: nat, pos: nat, s: Bytes)
    requires k.Nested? || k.NestedList?
    requires MergeField(k, v, discard, wireType, pos, s).Ok?
    ensures
      var Ok(v', n) := MergeField(k, v, discard, wireType, pos, s);
      |EncodeValue(num, v')| <= |EncodeValue(num, v)| + |Tag(num, 0)| + 2 * n
    decreases |s|, 0
  {
    hide Payload, Tag, LengthPrefixed, Decode, Encode, Empty, BytesRecords;
    var Ok(p, n) := Payload(pos, s);
    var t := |Tag(num, 2)|;
    TagLength(num, 2);
    ShortestPayload(pos, s);
    EncodeEmpty(k.fields);
    var prior := if k.Nested? then SubOf(k.fields, v) else Empty(k.fields);
    DecodeGrowth(k.fields, discard, 0, p, prior);
    var x := Decode(k.fields, discard, 0, p, prior).result;
    NestedGrowth(num, x, |Encode(prior)|, p, t);
    if k.Nested? {
      if v.Sub? && v.m.Some? {
        PresentSize(num, v.m.value);
      }
    } else {
      ListGrowth(num, v, x);
    }
  }

  lemma PresentSize(num: nat, m: Message)
    ensures |EncodeValue(num, Sub(Some(m)))| == |Tag(num, 2)| + |VarintBytes(|Encode(m)|)| + |Encode(m)|
  {
    hide Encode;
  }

  lemma ListGrowth(num: nat, v: Value, m: Message)
    ensures
      |EncodeValue(num, Subs(SubsOf(v) + [m]))| <= |EncodeValue(num, v)| + |BytesRecord(num, Encode(m))|
  {
    hide Encode, BytesRecord;
    var ms := SubsOf(v);
    assert EncodeAll(ms + [m]) == EncodeAll(ms) + [Encode(m)];
    RecordsSum(num, EncodeAll(ms), Encode(m));
  }

  lemma {:induction false} StepGrowth(fs: Schema, discard: bool, pos: nat, s: Bytes, m: Message)
    requires Step(fs, discard, pos, s, m).Ok?
    ensures
      var Ok(m', n) := Step(fs, discard, pos, s, m);
      |Encode(m')| <= |Encode(m)| + 2 * n
    decreases |s|, 2
  {
    hide ReadTag, MergeField, FieldNumber, Tag, EncodeFields, Skip;
    var Ok(wire, n) := ReadTag(s);
    var num := FieldNumber(wire);
    if num <= |fs| && num <= |m.values| {
      StepOfField(fs, discard, pos, s, m);
      FieldGrowth(num, fs[num - 1], m.values[num - 1], discard, wire % 8, pos + n, s[n..]);
      ShortestTag(s);
      var v := MergeField(fs[num - 1], m.values[num - 1], discard, wire % 8, pos + n, s[n..]).value;
      EncodeWith(m, num, v, 0);
    } else {
      var u := Step(fs, discard, pos, s, m).value.unknown;
      EncodeWithUnknown(m, u, 0);
    }
  }

  lemma {:induction false} EncodeWithUnknown(m: Message, u: Bytes, i: nat)
    requires i <= |m.values|
    ensures EncodeFields(m.(unknown := u), i) == EncodeFields(m, i)
    decreases |m.values| - i
  {
    hide EncodeValue;
    if i < |m.values| {
      EncodeWithUnknown(m, u, i + 1);
    }
  }

  /** Decoding adds at most twice the size of its input to the size of the encoding. */
  lemma {:induction false} DecodeGrowth(fs: Schema, discard: bool, pos: nat, s: Bytes, m: Message)
    requires Decode(fs, discard, pos, s, m).Done?
    ensures |Encode(Decode(fs, discard, pos, s, m).result)| <= |Encode(m)| + 2 * |s|
    decreases |s|, 3
  {
    hide Step, Encode;
    if s != [] {
      var Ok(m', n) := Step(fs, discard, pos, s, m);
      StepGrowth(fs, discard, pos, s, m);
      DecodeGrowth(fs, discard, pos + n, s[n..], m');
    }
  }
}
