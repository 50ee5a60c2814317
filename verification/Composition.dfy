/**
  Decoding is local: a record is read from its own bytes only, at any cursor.
  Hence decoding a concatenation is decoding one part into the result of the other.
 */
module Composition {
  import opened Words
  import opened Wire
  import opened Messages

  //
  // A record is read from its own bytes only
  //

  lemma {:induction false} ReadPackedLocal(s: Bytes, need: nat, t: Bytes)
    requires ReadPacked(s, need).Ok?
    ensures ReadPacked(s[..ReadPacked(s, need).used] + t, need) == ReadPacked(s, need)
    decreases |s|
  {
    hide Varint64;
    if need > 0 {
      var n, end := Varint64(s).used, ReadPacked(s, need).used;
      var rest := if n < need then need - n else 0;
      Varint64Local(s, s[n..end] + t);
      assert s[..n] + (s[n..end] + t) == s[..end] + t;
      assert (s[..end] + t)[n..] == s[n..][..end - n] + t;
      ReadPackedLocal(s[n..], rest, t);
    }
  }

  lemma Varint64Local(s: Bytes, t: Bytes)
    requires Varint64(s).Ok?
    ensures Varint64(s[..Varint64(s).used] + t) == Varint64(s)
  {
    VarintLocal(s, t, 0);
  }

  lemma PackedListLocal(pos: nat, pos': nat, s: Bytes, t: Bytes)
    requires PackedList(pos, s).Ok? && pos' + PackedList(pos, s).used < TWO_63
    ensures PackedList(pos', s[..PackedList(pos, s).used] + t) == PackedList(pos, s)
  {
    hide ReadPacked, Payload;
    var Ok(p, n) := Payload(pos, s);
    var end := PackedList(pos, s).used;
    PayloadLocal(pos, pos', s, s[n..end] + t);
    assert s[..n] + (s[n..end] + t) == s[..end] + t;
    assert (s[..end] + t)[n - |p|..] == s[n - |p|..][..end - (n - |p|)] + t;
    ReadPackedLocal(s[n - |p|..], |p|, t);
  }

  lemma MergeFieldLocal(k: Kind, v: Value, discard: bool, wireType: nat, pos: nat, pos': nat, s: Bytes, t: Bytes)
    requires MergeField(k, v, discard, wireType, pos, s).Ok?
    requires pos' + MergeField(k, v, discard, wireType, pos, s).used < TWO_63
    ensures
      var r := MergeField(k, v, discard, wireType, pos, s);
      MergeField(k, v, discard, wireType, pos', s[..r.used] + t) == r
  {
    hide Varint, Payload, PackedList;
    if wireType == 0 {
      VarintLocal(s, t, 0);
    } else if k.Uint64List? {
      PackedListLocal(pos, pos', s, t);
    } else {
      PayloadLocal(pos, pos', s, t);
    }
  }

  lemma KeepUnknownLocal(discard: bool, pos: nat, pos': nat, s: Bytes, t: Bytes, u: Bytes)
    requires KeepUnknown(discard, pos, s, u).Ok? && pos' + KeepUnknown(discard, pos, s, u).used < TWO_63
    ensures
      var r := KeepUnknown(discard, pos, s, u);
      KeepUnknown(discard, pos', s[..r.used] + t, u) == r
  {
    hide Skip;
    var n := Skip(s).used;
    assert s == s[..n] + s[n..];
    SkipLocal(s[..n], s[n..], t);
    assert (s[..n] + t)[..n] == s[..n];
  }

  lemma TagLocal(s: Bytes, t: Bytes, end: nat)
    requires ReadTag(s).Ok? && ReadTag(s).used <= end <= |s|
    ensures ReadTag(s[..end] + t) == ReadTag(s)
    ensures (s[..end] + t)[ReadTag(s).used..] == s[ReadTag(s).used..][..end - ReadTag(s).used] + t
  {
    var n := ReadTag(s).used;
    VarintLocal(s, s[n..end] + t, 0);
    assert s[..n] + (s[n..end] + t) == s[..end] + t;
  }

  /** A record that is accepted depends on its own bytes only: neither on the cursor nor on what follows. */
  lemma StepLocal(fs: Schema, discard: bool, pos: nat, pos': nat, s: Bytes, t: Bytes, m: Message)
    requires Step(fs, discard, pos, s, m).Ok? && pos' + Step(fs, discard, pos, s, m).used < TWO_63
    ensures Step(fs, discard, pos', s[..Step(fs, discard, pos, s, m).used] + t, m) == Step(fs, discard, pos, s, m)
  {
    hide ReadTag, MergeField, FieldNumber, KeepUnknown;
    var end := Step(fs, discard, pos, s, m).used;
    var Ok(wire, n) := ReadTag(s);
    var num := FieldNumber(wire);
    if num <= |fs| && num <= |m.values| {
      TagLocal(s, t, end);
      StepOfField(fs, discard, pos, s, m);
      StepOfField(fs, discard, pos', s[..end] + t, m);
      MergeFieldLocal(fs[num - 1], m.values[num - 1], discard, wire % 8, pos + n, pos' + n, s[n..], t);
    } else {
      KeepUnknownCoversTag(discard, pos, s, m.unknown);
      TagLocal(s, t, end);
      KeepUnknownLocal(discard, pos, pos', s, t, m.unknown);
    }
  }

  /** A skipped record contains its own tag. */
  lemma SkipCoversTag(s: Bytes)
    requires Skip(s).Ok?
    ensures Varint(s).Ok? && Varint(s).used <= Skip(s).used
  {
  }

  lemma KeepUnknownCoversTag(discard: bool, pos: nat, s: Bytes, u: Bytes)
    requires ReadTag(s).Ok? && KeepUnknown(discard, pos, s, u).Ok?
    ensures ReadTag(s).used <= KeepUnknown(discard, pos, s, u).used
  {
    hide Skip;
    SkipCoversTag(s);
  }

  lemma StepExtend(fs: Schema, discard: bool, pos: nat, pos': nat, s: Bytes, t: Bytes, m: Message)
    requires Step(fs, discard, pos, s, m).Ok? && pos' + |s| < TWO_63
    ensures Step(fs, discard, pos', s + t, m) == Step(fs, discard, pos, s, m)
  {
    hide Step;
    var n := Step(fs, discard, pos, s, m).used;
    StepLocal(fs, discard, pos, pos', s, s[n..] + t, m);
    assert s[..n] + (s[n..] + t) == s + t;
  }

  lemma DropPrefix(a: Bytes, b: Bytes, n: nat)
    requires n <= |a|
    ensures (a + b)[n..] == a[n..] + b
  {
  }

  /** Decoding an accepted input followed by more, in two stretches. */
  lemma {:induction false} DecodeSplit(fs: Schema, discard: bool, pos: nat, pos': nat, a: Bytes, b: Bytes, m: Message)
    requires Decode(fs, discard, pos, a, m).Done? && pos' + |a| < TWO_63
    ensures
      var x := Decode(fs, discard, pos, a, m).result;
      && Decode(fs, discard, pos', a + b, m) == Decode(fs, discard, pos' + |a|, b, x)
      && StateAfter(fs, discard, pos', a + b, m) == StateAfter(fs, discard, pos' + |a|, b, x)
    decreases |a|
  {
    hide *;
    if a == [] {
      DecodeNil(fs, discard, pos, m);
      assert a + b == b;
    } else {
      var m', n := StepSplit(fs, discard, pos, pos', a, b, m);
      DecodeSplit(fs, discard, pos + n, pos' + n, a[n..], b, m');
    }
  }

  lemma StepSplit(fs: Schema, discard: bool, pos: nat, pos': nat, a: Bytes, b: Bytes, m: Message)
    returns (m': Message, n: nat)
    requires a != [] && Decode(fs, discard, pos, a, m).Done? && pos' + |a| < TWO_63
    ensures 1 <= n <= |a|
    ensures Decode(fs, discard, pos, a, m) == Decode(fs, discard, pos + n, a[n..], m')
    ensures Decode(fs, discard, pos', a + b, m) == Decode(fs, discard, pos' + n, a[n..] + b, m')
    ensures StateAfter(fs, discard, pos', a + b, m) == StateAfter(fs, discard, pos' + n, a[n..] + b, m')
  {
    hide *;
    DecodeStep(fs, discard, pos, a, m);
    var r := Step(fs, discard, pos, a, m);
    m', n := r.value, r.used;
    StepExtend(fs, discard, pos, pos', a, b, m);
    DecodeStep(fs, discard, pos', a + b, m);
    StateAfterStep(fs, discard, pos', a + b, m);
    DropPrefix(a, b, n);
  }

  //
  // The cursor matters to one choice of error only
  //

  /** The errors a length that exceeds the input gives, depending on whether the sum with the cursor wraps. */
  ghost predicate TooLong(e: Error) {
    e == InvalidLength || e == UnexpectedEOF
  }

  ghost predicate SameScan<T(!new)>(x: Scan<T>, y: Scan<T>) {
    x == y || (x.Err? && y.Err? && TooLong(x.error) && TooLong(y.error))
  }

  /** The same outcome, up to the choice of error for a length that is too long. */
  ghost predicate Agree(x: Outcome<Message>, y: Outcome<Message>) {
    x == y || (x.Failed? && y.Failed? && TooLong(x.error) && TooLong(y.error))
  }

  lemma PayloadAnywhere(pos: nat, pos': nat, s: Bytes)
    requires pos + |s| < TWO_63 && pos' + |s| < TWO_63
    ensures SameScan(Payload(pos, s), Payload(pos', s))
  {
  }

  lemma PackedListAnywhere(pos: nat, pos': nat, s: Bytes)
    requires pos + |s| < TWO_63 && pos' + |s| < TWO_63
    ensures SameScan(PackedList(pos, s), PackedList(pos', s))
  {
    hide Payload, ReadPacked;
    PayloadAnywhere(pos, pos', s);
  }

  lemma FieldAnywhere(k: Kind, v: Value, discard: bool, wireType: nat, pos: nat, pos': nat, s: Bytes)
    requires pos + |s| < TWO_63 && pos' + |s| < TWO_63
    ensures SameScan(MergeField(k, v, discard, wireType, pos, s), MergeField(k, v, discard, wireType, pos', s))
  {
    hide Payload, PackedList, Decode, Varint, Varint64, Int32, Empty, SubOf, SubsOf, StrsOf, U64sOf;
    PayloadAnywhere(pos, pos', s);
    PackedListAnywhere(pos, pos', s);
  }

  lemma FieldAfterErrorAnywhere(k: Kind, v: Value, discard: bool, wireType: nat, pos: nat, pos': nat, s: Bytes)
    requires pos + |s| < TWO_63 && pos' + |s| < TWO_63
    ensures FieldAfterError(k, v, discard, wireType, pos, s) == FieldAfterError(k, v, discard, wireType, pos', s)
  {
    hide Payload, StateAfter, VarintSoFar, Int32, Empty, SubOf, SubsOf, U64sOf;
    PayloadAnywhere(pos, pos', s);
  }

  lemma StepAnywhere(fs: Schema, discard: bool, pos: nat, pos': nat, s: Bytes, m: Message)
    requires pos + |s| < TWO_63 && pos' + |s| < TWO_63
    ensures SameScan(Step(fs, discard, pos, s, m), Step(fs, discard, pos', s, m))
    ensures StateAfterError(fs, discard, pos, s, m) == StateAfterError(fs, discard, pos', s, m)
  {
    hide ReadTag, MergeField, FieldNumber, FieldAfterError, Skip;
    if ReadTag(s).Ok? {
      var Ok(wire, n) := ReadTag(s);
      var num := FieldNumber(wire);
      if num <= |fs| && num <= |m.values| {
        FieldAnywhere(fs[num - 1], m.values[num - 1], discard, wire % 8, pos + n, pos' + n, s[n..]);
        FieldAfterErrorAnywhere(fs[num - 1], m.values[num - 1], discard, wire % 8, pos + n, pos' + n, s[n..]);
        StepOfField(fs, discard, pos, s, m);
        StepOfField(fs, discard, pos', s, m);
      }
    }
  }

  lemma {:induction false} DecodeAnywhere(fs: Schema, discard: bool, pos: nat, pos': nat, s: Bytes, m: Message)
    requires pos + |s| < TWO_63 && pos' + |s| < TWO_63
    ensures Agree(Decode(fs, discard, pos, s, m), Decode(fs, discard, pos', s, m))
    ensures StateAfter(fs, discard, pos, s, m) == StateAfter(fs, discard, pos', s, m)
    decreases |s|
  {
    hide Step, StateAfterError;
    if s != [] {
      StepAnywhere(fs, discard, pos, pos', s, m);
      var r := Step(fs, discard, pos, s, m);
      if r.Ok? {
        DecodeAnywhere(fs, discard, pos + r.used, pos' + r.used, s[r.used..], r.value);
      }
    }
  }

  /**
    Sequential composition: if `a` is accepted, decoding `a + b` is decoding
    `b` into the result of decoding `a`, also in what a failure leaves behind.
    Only the choice of error for a length that is too long can differ.
   */
  lemma SequentialComposition(fs: Schema, discard: bool, a: Bytes, b: Bytes, m: Message)
    requires |a + b| < TWO_63
    requires Decode(fs, discard, 0, a, m).Done?
    ensures
      var x := Decode(fs, discard, 0, a, m).result;
      && Agree(Decode(fs, discard, 0, a + b, m), Decode(fs, discard, 0, b, x))
      && StateAfter(fs, discard, 0, a + b, m) == StateAfter(fs, discard, 0, b, x)
  {
    hide Decode, StateAfter;
    DecodeSplit(fs, discard, 0, 0, a, b, m);
    DecodeAnywhere(fs, discard, |a|, 0, b, Decode(fs, discard, 0, a, m).result);
  }

  //
  // Failed calls
  //

  lemma {:induction false} StateAfterSuccess(fs: Schema, discard: bool, pos: nat, s: Bytes, m: Message)
    requires Decode(fs, discard, pos, s, m).Done?
    ensures StateAfter(fs, discard, pos, s, m) == Decode(fs, discard, pos, s, m).result
    decreases |s|
  {
    hide Step;
    if s != [] {
      var Ok(m', n) := Step(fs, discard, pos, s, m);
      StateAfterSuccess(fs, discard, pos + n, s[n..], m');
    }
  }

  /** `x` and `y` have the same unknown bytes and the same fields, but for field `num` perhaps. */
  ghost predicate SameButField(x: Message, y: Message, num: nat) {
    && x.unknown == y.unknown && |x.values| == |y.values|
    && forall i :: 0 <= i < |x.values| && i + 1 != num ==> x.values[i] == y.values[i]
  }

  /** The records before `n` are accepted, and the one at `n` is not. */
  ghost predicate FailsAt(fs: Schema, discard: bool, pos: nat, s: Bytes, m: Message, n: nat) {
    && n < |s| && Decode(fs, discard, pos, s[..n], m).Done?
    && Step(fs, discard, pos + n, s[n..], Decode(fs, discard, pos, s[..n], m).result).Err?
  }

  lemma FailsLater(fs: Schema, discard: bool, pos: nat, s: Bytes, m: Message, k: nat)
    requires s != [] && Step(fs, discard, pos, s, m).Ok? && pos + |s| < TWO_63
    requires
      var r := Step(fs, discard, pos, s, m);
      FailsAt(fs, discard, pos + r.used, s[r.used..], r.value, k)
    ensures
      var r := Step(fs, discard, pos, s, m);
      && FailsAt(fs, discard, pos, s, m, r.used + k)
      && Decode(fs, discard, pos, s[..r.used + k], m) == Decode(fs, discard, pos + r.used, s[r.used..][..k], r.value)
  {
    hide Decode, Step;
    var Ok(m', n) := Step(fs, discard, pos, s, m);
    var front := s[n..][..k];
    StepLocal(fs, discard, pos, pos, s, front, m);
    assert s[..n + k] == s[..n] + front;
    assert (s[..n] + front)[n..] == front && s[n..][k..] == s[n + k..];
    DecodeStep(fs, discard, pos, s[..n + k], m);
  }

  /**
    A failed call leaves what the records before the failing one made of the
    message, up to the value of the one field the failing record is of.
   */
  lemma {:induction false} FailureKeepsPrefix(fs: Schema, discard: bool, pos: nat, s: Bytes, m: Message)
    returns (n: nat, num: nat)
    requires Decode(fs, discard, pos, s, m).Failed? && pos + |s| < TWO_63
    ensures FailsAt(fs, discard, pos, s, m, n)
    ensures SameButField(StateAfter(fs, discard, pos, s, m), Decode(fs, discard, pos, s[..n], m).result, num)
    ensures num > 0 ==> ReadTag(s[n..]).Ok? && num == FieldNumber(ReadTag(s[n..]).value)
    decreases |s|
  {
    hide Step, ReadTag, FieldNumber, FieldAfterError;
    var r := Step(fs, discard, pos, s, m);
    if r.Err? {
      n, num := 0, if ReadTag(s).Ok? then FieldNumber(ReadTag(s).value) else 0;
      assert s[..0] == [] && s[0..] == s;
    } else {
      var k;
      k, num := FailureKeepsPrefix(fs, discard, pos + r.used, s[r.used..], r.value);
      FailsLater(fs, discard, pos, s, m, k);
      n := r.used + k;
      assert s[r.used..][k..] == s[n..];
    }
  }
}
