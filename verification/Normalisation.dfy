/**
  Whatever the decoder accepts is a well-formed message, so re-encoding an
  accepted input gives a canonical form that decodes to the same message.
 */
module Normalisation {
  import opened Words
  import opened Wire
  import opened Messages
  import opened RoundTrip
  import opened Growth

  /** Field numbers of every nested schema fit the int32 they are compared in. */
  ghost predicate ValidSchema(fs: Schema)
    decreases fs, 1
  {
    |fs| < TWO_31 && forall i :: 0 <= i < |fs| ==> ValidKind(fs[i])
  }

  ghost predicate ValidKind(k: Kind)
    decreases k, 0
  {
    (k.Nested? || k.NestedList?) ==> ValidSchema(k.fields)
  }

  lemma EmptyOfValid(fs: Schema)
    requires ValidSchema(fs)
    ensures WellFormed(fs, Empty(fs))
  {
    EmptyWellFormed(fs);
  }

  lemma UnknownPrepend(known: nat, head: Bytes, rest: Bytes)
    requires head != [] && UnknownRecords(known, head) && Skip(head).used == |head| && UnknownRecords(known, rest)
    ensures UnknownRecords(known, head + rest)
  {
    hide Skip, FieldNumber;
    assert head + [] == head;
    SkipLocal(head, [], rest);
    VarintExtend(head, rest, 0);
    assert (head + rest)[|head|..] == rest;
  }

  lemma {:induction false} UnknownAppend(known: nat, u: Bytes, w: Bytes)
    requires UnknownRecords(known, u) && UnknownRecords(known, w)
    ensures UnknownRecords(known, u + w)
    decreases |u|
  {
    hide Skip, ReadTag, FieldNumber;
    if u == [] {
      assert u + w == w;
    } else {
      var n := Skip(u).used;
      UnknownAppend(known, u[n..], w);
      SingleRecord(known, u);
      UnknownPrepend(known, u[..n], u[n..] + w);
      assert u + w == u[..n] + (u[n..] + w);
    }
  }

  /** The first record of an input is by itself a string of complete records. */
  lemma SingleRecord(known: nat, s: Bytes)
    requires ReadTag(s).Ok? && FieldNumber(ReadTag(s).value) > known
    requires Skip(s).Ok? && Skip(s).used <= |s|
    ensures UnknownRecords(known, s[..Skip(s).used]) && Skip(s[..Skip(s).used]).used == Skip(s).used
  {
    hide Skip, ReadTag, FieldNumber;
    var n := Skip(s).used;
    UnknownHead(known, s);
    assert s[..n][n..] == [];
    assert UnknownRecords(known, []);
  }

  lemma {:induction false} MergeFieldWellFormed(k: Kind, v: Value, discard: bool, wireType: nat, pos: nat, s: Bytes)
    requires ValidKind(k) && HasKind(k, v)
    requires MergeField(k, v, discard, wireType, pos, s).Ok?
    ensures HasKind(k, MergeField(k, v, discard, wireType, pos, s).value)
    decreases |s|, 0
  {
    hide Decode, WellFormed, ValidSchema, ReadPacked, Varint;
    match k
    case Nested(gs) =>
      EmptyOfValid(gs);
      DecodeWellFormed(gs, discard, 0, Payload(pos, s).value, SubOf(gs, v));
    case NestedList(gs) =>
      EmptyOfValid(gs);
      DecodeWellFormed(gs, discard, 0, Payload(pos, s).value, Empty(gs));
    case _ =>
  }

  lemma {:induction false} StepWellFormed(fs: Schema, discard: bool, pos: nat, s: Bytes, m: Message)
    requires ValidSchema(fs) && WellFormed(fs, m) && Step(fs, discard, pos, s, m).Ok?
    ensures WellFormed(fs, Step(fs, discard, pos, s, m).value)
    decreases |s|, 1
  {
    hide MergeField, ReadTag, HasKind, ValidKind, Skip, UnknownRecords;
    var Ok(wire, n) := ReadTag(s);
    var num := FieldNumber(wire);
    if num <= |fs| {
      assert ValidKind(fs[num - 1]) && HasKind(fs[num - 1], m.values[num - 1]);
      MergeFieldWellFormed(fs[num - 1], m.values[num - 1], discard, wire % 8, pos + n, s[n..]);
    } else {
      SingleRecord(|fs|, s);
      UnknownAppend(|fs|, m.unknown, s[..Skip(s).used]);
    }
  }

  /** Decoding into a well-formed message leaves a well-formed message. */
  lemma {:induction false} DecodeWellFormed(fs: Schema, discard: bool, pos: nat, s: Bytes, m: Message)
    requires ValidSchema(fs) && WellFormed(fs, m) && Decode(fs, discard, pos, s, m).Done?
    ensures WellFormed(fs, Decode(fs, discard, pos, s, m).result)
    decreases |s|, 2
  {
    hide Step, WellFormed, ValidSchema;
    if s != [] {
      var Ok(m', n) := Step(fs, discard, pos, s, m);
      StepWellFormed(fs, discard, pos, s, m);
      DecodeWellFormed(fs, discard, pos + n, s[n..], m');
    }
  }

  /**
    Normalisation: re-encoding what was decoded from any accepted input, and
    decoding that again, gives the same message, unknown records included.  A
    re-encoding can be longer than its input, but not twice as long, so half the
    length of the longest Go slice is enough for it to be one; otherwise it is
    enough that the re-encoding is one.
   */
  lemma DecodeEncodeDecode(fs: Schema, s: Bytes, m: Message)
    requires ValidSchema(fs)
    requires Decode(fs, false, 0, s, Empty(fs)) == Done(m)
    requires |s| < TWO_63 / 2 || |Encode(m)| < TWO_63
    ensures WellFormed(fs, m)
    ensures |Encode(m)| <= 2 * |s|
    ensures Decode(fs, false, 0, Encode(m), Empty(fs)) == Done(m)
  {
    hide Decode, WellFormed, ValidSchema, Encode, Empty;
    EmptyOfValid(fs);
    DecodeWellFormed(fs, false, 0, s, Empty(fs));
    EncodeEmpty(fs);
    DecodeGrowth(fs, false, 0, s, Empty(fs));
    MessageRoundTrip(fs, m);
  }
}
