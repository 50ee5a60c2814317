/** The codec theorems for the messages of the license module. */
module CodecResults {
  import opened Options
  import opened Words
  import opened Wire
  import opened Messages
  import opened Codec
  import opened Composition
  import opened Fields
  import opened RoundTrip
  import opened Normalisation
  import opened LicenseMessages
  import opened AccessMessages
  import opened TxMessages
  import opened GenesisMessages

  lemma SchemasValid()
    ensures ValidSchema(LICENSE) && ValidSchema(LICENSE_TYPE) && ValidSchema(PARAMS) && ValidSchema(GRANT)
    ensures ValidSchema(ACTION_SCOPES) && ValidSchema(MSG_REVOKE_LICENSES) && ValidSchema(GENESIS)
  {
    assert GENESIS[0].fields == LICENSE_TYPE && GENESIS[1].fields == LICENSE;
    assert GENESIS[3].fields == PARAMS && GENESIS[4].fields == GRANT;
  }

  /** Different well-formed messages have different encodings. */
  lemma EncodeInjective(fs: Schema, m: Message, m': Message)
    requires WellFormed(fs, m) && WellFormed(fs, m') && |Encode(m)| < TWO_63
    requires Encode(m) == Encode(m')
    ensures m == m'
  {
    hide Decode, Encode, WellFormed;
    MessageRoundTrip(fs, m);
    MessageRoundTrip(fs, m');
  }

  //
  // Merging
  //

  /**
    After any accepted input, further records of a field, of whatever kind, act
    on the value read so far alone: the last scalar or string wins, also a zero,
    lists are appended in order, and nested messages are merged.
   */
  lemma RecordsAfterAccepted(fs: Schema, num: nat, a: Bytes, v: Value, m: Message) returns (x: Message, y: Message)
    requires ValidSchema(fs) && WellFormed(fs, m) && 1 <= num <= |fs| && HasKind(fs[num - 1], v)
    requires Decode(fs, false, 0, a, m).Done? && |a + Written(num, v)| < TWO_63
    ensures Decode(fs, false, 0, a, m) == Done(x) && Decode(fs, false, 0, a + Written(num, v), m) == Done(y)
    ensures |x.values| == |fs| && SameButField(y, x, num)
    ensures MergesTo(x.values[num - 1], v, y.values[num - 1])
  {
    hide Decode, Written, HasKind, UnknownRecords, Merge;
    x := Decode(fs, false, 0, a, m).result;
    DecodeWellFormed(fs, false, 0, a, m);
    ReadsWritten(fs, num, v, x);
    y := With(x, num, Joined(x.values[num - 1], v));
    ReadsChain(fs, a, Written(num, v), m, x, y);
    SameKind(fs[num - 1], x.values[num - 1], v);
  }

  /** The values of a field before and after records of `v` were read. */
  ghost predicate MergesTo(prior: Value, v: Value, after: Value) {
    match v
    case Strs(ss) => prior.Strs? && after == Strs(prior.ss + ss)
    case U64s(us) => prior.U64s? && after == U64s(prior.us + us)
    case Subs(ms) => prior.Subs? && after == Subs(prior.ms + ms)
    case Sub(None) => after == prior
    case Sub(Some(c)) =>
      prior.Sub? && after.Sub? && after.m == Some(if prior.m.Some? then Merge(prior.m.value, c) else c)
    case _ => after == v
  }

  lemma SameKind(k: Kind, v: Value, w: Value)
    requires HasKind(k, v) && HasKind(k, w)
    ensures v.Strs? == w.Strs? && v.U64s? == w.U64s? && v.Subs? == w.Subs? && v.Sub? == w.Sub?
  {
  }

  /** The same for the fields of an encoding, where zero scalars and empty strings are not written. */
  ghost predicate MergesPresent(prior: Value, v: Value, after: Value) {
    if v in {U64(0), I32(0), Flag(false), Str([])} then after == prior else MergesTo(prior, v, after)
  }

  lemma MergedValue(k: Kind, prior: Value, v: Value)
    requires HasKind(k, prior) && HasKind(k, v)
    ensures MergesPresent(prior, v, MergeValue(prior, v))
  {
    hide HasKind, Merge;
    SameKind(k, prior, v);
  }

  /** Merging is field by field, and unknown bytes are appended. */
  lemma MergedFields(fs: Schema, x: Message, m: Message)
    requires WellFormed(fs, x) && WellFormed(fs, m)
    ensures |x.values| == |m.values| == |Merge(x, m).values| == |fs|
    ensures Merge(x, m).unknown == x.unknown + m.unknown
    ensures forall i :: 0 <= i < |fs| ==> MergesPresent(x.values[i], m.values[i], Merge(x, m).values[i])
  {
    hide HasKind, UnknownRecords, MergeValue, MergesPresent;
    FieldsOfWellFormed(fs, x);
    FieldsOfWellFormed(fs, m);
    forall i | 0 <= i < |fs|
      ensures MergesPresent(x.values[i], m.values[i], Merge(x, m).values[i])
    {
      MergedValue(fs[i], x.values[i], m.values[i]);
    }
  }

  /** After any accepted input, complete records of unknown fields are appended to those retained. */
  lemma UnknownAfterAccepted(fs: Schema, a: Bytes, u: Bytes, m: Message)
    requires UnknownRecords(|fs|, u)
    requires Decode(fs, false, 0, a, m).Done? && |a + u| < TWO_63
    ensures
      var x := Decode(fs, false, 0, a, m).result;
      Decode(fs, false, 0, a + u, m) == Done(x.(unknown := x.unknown + u))
  {
    hide Decode, UnknownRecords;
    var x := Decode(fs, false, 0, a, m).result;
    ReadsUnknown(fs, u, x);
    ReadsChain(fs, a, u, m, x, x.(unknown := x.unknown + u));
  }

  /** After any accepted input, a further encoded message is merged into what was read. */
  lemma MessageAfterAccepted(fs: Schema, a: Bytes, m': Message, m: Message)
    requires ValidSchema(fs) && WellFormed(fs, m) && WellFormed(fs, m')
    requires Decode(fs, false, 0, a, m).Done? && |a + Encode(m')| < TWO_63
    ensures Decode(fs, false, 0, a + Encode(m'), m) == Done(Merge(Decode(fs, false, 0, a, m).result, m'))
  {
    hide Decode, Encode, Merge, WellFormed, ValidSchema;
    var x := Decode(fs, false, 0, a, m).result;
    DecodeWellFormed(fs, false, 0, a, m);
    EncodingMerges(fs, m', x);
    ReadsChain(fs, a, Encode(m'), m, x, Merge(x, m'));
  }

  //
  // Round trips of the module's messages
  //

  /** Every revocation message, with any strings, ids and unknown records, survives the wire. */
  method ResendRevocation(x: MsgRevokeLicenses) returns (err: Option<Error>, y: MsgRevokeLicenses)
    requires UnknownRecords(3, x.unknownFields) && |Encode(x.View())| < TWO_63
    ensures err == None && fresh(y) && y.View() == x.View()
    ensures y.revoker == x.revoker && y.licenseTypeId == x.licenseTypeId && y.licenseIds == x.licenseIds
    ensures y.unknownFields == x.unknownFields
  {
    hide Encode, Decode;
    MessageRoundTrip(MSG_REVOKE_LICENSES, x.View());
    var wire := x.Marshal([]);
    assert wire == Encode(x.View());
    y := new MsgRevokeLicenses();
    err := y.Unmarshal(wire, false);
  }

  /**
    A genesis state survives the wire with all three lists in order, its
    parameters present or absent as they were, and its unknown records.
   */
  method ReloadGenesis(x: GenesisState) returns (err: Option<Error>, y: GenesisState)
    requires WellFormed(GENESIS, x.View()) && |Encode(x.View())| < TWO_63
    ensures err == None && fresh(y) && y.View() == x.View()
    ensures LicenseTypeViews(y.licenseTypes) == LicenseTypeViews(x.licenseTypes)
    ensures LicenseViews(y.licenses) == LicenseViews(x.licenses)
    ensures GrantViews(y.grants) == GrantViews(x.grants)
    ensures y.nextLicenseId == x.nextLicenseId
    ensures y.params == null <==> x.params == null
    ensures x.params != null ==> y.params.View() == x.params.View()
  {
    hide Encode, Decode, WellFormed;
    MessageRoundTrip(GENESIS, x.View());
    var wire := x.Marshal([]);
    assert wire == Encode(x.View());
    y := new GenesisState();
    err := y.Unmarshal(wire, false);
    SameParts(x, y);
  }

  /**
    Normalisation, on the routines themselves: any bytes that unmarshal as a genesis
    state, marshalled and unmarshalled again, give the same state.
   */
  method NormaliseGenesis(data: Bytes) returns (err: Option<Error>, wire: Bytes, y: GenesisState)
    requires |data| < TWO_63 / 2
    ensures
      match Decode(GENESIS, false, 0, data, Empty(GENESIS))
      case Failed(e) => err == Some(e)
      case Done(m) => err == None && wire == Encode(m) && y.View() == m && |wire| <= 2 * |data|
  {
    hide Encode, Decode, StateAfter, WellFormed, ValidSchema;
    SchemasValid();
    var x := new GenesisState();
    err := x.Unmarshal(data, false);
    wire, y := [], x;
    if err == None {
      DecodeEncodeDecode(GENESIS, data, x.View());
      wire := x.Marshal([]);
      assert wire == Encode(x.View());
      y := new GenesisState();
      err := y.Unmarshal(wire, false);
    }
  }

  lemma SameParts(x: GenesisState, y: GenesisState)
    requires x.View() == y.View()
    ensures LicenseTypeViews(y.licenseTypes) == LicenseTypeViews(x.licenseTypes)
    ensures LicenseViews(y.licenses) == LicenseViews(x.licenses)
    ensures GrantViews(y.grants) == GrantViews(x.grants)
    ensures y.nextLicenseId == x.nextLicenseId
    ensures y.params == null <==> x.params == null
    ensures x.params != null ==> y.params.View() == x.params.View()
  {
    hide LicenseTypeViews, LicenseViews, GrantViews;
    var m, m' := x.View(), y.View();
    assert m.values[0] == m'.values[0] && m.values[1] == m'.values[1] && m.values[2] == m'.values[2];
    assert m.values[3] == m'.values[3] && m.values[4] == m'.values[4];
  }

  /**
    Absent parameters and present but empty ones are different on the wire:
    none at all against an empty record of field 4.
   */
  lemma AbsentParamsDistinct(m: Message)
    requires WellFormed(GENESIS, m) && m.values[3] == Sub(None)
    requires |Encode(m)| < TWO_63
    ensures Encode(With(m, 4, Sub(Some(Empty(PARAMS))))) != Encode(m)
  {
    var m' := With(m, 4, Sub(Some(Empty(PARAMS))));
    SchemasValid();
    EmptyWellFormed(PARAMS);
    assert GENESIS[3] == Nested(PARAMS);
    assert HasKind(GENESIS[3], m'.values[3]);
    if Encode(m') == Encode(m) {
      EncodeInjective(GENESIS, m, m');
    }
  }

  lemma Pow2One()
    ensures Pow2(1) == 2
  {
  }

  /**
    Every status survives: written as a sign-extended 64-bit varint, ten
    bytes for a negative one, and read back by shifts into an int32.
   */
  lemma StatusSurvives(v: int32, t: Bytes)
    ensures VarintWord(VarintBytes(SignExtend(v)) + t, 32).Ok?
    ensures Int32(VarintWord(VarintBytes(SignExtend(v)) + t, 32).value) == v
    ensures VarintWord(VarintBytes(SignExtend(v)) + t, 32).used == |VarintBytes(SignExtend(v))| <= MAX_VARINT
    ensures v < 0 ==> |VarintBytes(SignExtend(v))| == MAX_VARINT
  {
    hide Pow2, Varint, VarintBytes, Int32;
    var w := SignExtend(v);
    Varint64RoundTrip(w, t);
    SignExtendTruncates(v);
    Pow2Widths();
    Int32OfWord(w);
    if v < 0 {
      Pow2Sum(63, 1);
      Pow2One();
      VarintBytesAtLeast(w, MAX_VARINT);
    }
  }

  lemma LeastStatusVarint(s: Bytes)
    requires s == [128, 128, 128, 128, 8]
    ensures Varint(s) == Ok(TWO_31, 5)
  {
    var s1, s2, s3, s4 := s[1..], s[2..], s[3..], s[4..];
    assert s1 == [128, 128, 128, 8] && s1[1..] == s2 == [128, 128, 8];
    assert s2[1..] == s3 == [128, 8] && s3[1..] == s4 == [8];
    assert Varint(s4, 4) == Ok(8, 1);
    assert Varint(s3, 3) == Ok(0x400, 2);
    assert Varint(s2, 2) == Ok(0x2_0000, 3);
    assert Varint(s1, 1) == Ok(0x100_0000, 4);
  }

  /** A re-encoding can indeed be longer: the least status is read from six bytes and written with eleven. */
  lemma NegativeStatusGrows()
    ensures
      var s, m := [0x08, 128, 128, 128, 128, 8], Message([I32(-TWO_31)], []);
      Decode([Enum], false, 0, s, Empty([Enum])) == Done(m) && |Encode(m)| == 11
  {
    hide Decode, Step, Varint, VarintBytes;
    var body: Bytes := [128, 128, 128, 128, 8];
    var m, v := Empty([Enum]), I32(-TWO_31);
    LeastStatusVarint(body);
    OneByteTag(1, 0);
    assert Tag(1, 0) + body == [0x08, 128, 128, 128, 128, 8];
    ReadsRecord([Enum], 1, 0, body, m, v);
    assert With(m, 1, v) == Message([v], []);
    StatusSurvives(-TWO_31, []);
    assert EncodeFields(Message([v], []), 1) == [];
    assert EncodeValue(1, v) == VarintRecord(1, SignExtend(-TWO_31));
  }
}
