/**
  The wire form of every message, spelled out over the Go fields with the tag
  bytes of the marshallers: which field has which number, and how it is written.
 */
module WireForms {
  import opened Options
  import opened Words
  import opened Wire
  import opened Messages
  import opened Fields
  import opened RoundTrip
  import opened Growth
  import opened LicenseMessages
  import opened AccessMessages
  import opened TxMessages
  import opened GenesisMessages

  /** A length-delimited record. */
  function Delimited(tag: byte, p: Bytes): Bytes {
    [tag] + VarintBytes(|p|) + p
  }

  /** A string; nothing for an empty one. */
  function TextWire(tag: byte, p: Bytes): Bytes {
    if p != [] then Delimited(tag, p) else []
  }

  /** A varint record; nothing for zero. */
  function VarintWire(tag: byte, v: nat): Bytes {
    if v != 0 then [tag] + VarintBytes(v) else []
  }

  /** Two bytes for true; nothing for false. */
  function BoolWire(tag: byte, b: bool): Bytes {
    if b then [tag, 1] else []
  }

  /** The elements of a list in order, empty ones included. */
  function ListWire(tag: byte, ps: seq<Bytes>): Bytes {
    if ps == [] then [] else Delimited(tag, ps[0]) + ListWire(tag, ps[1..])
  }

  function Varints(us: seq<uint64>): Bytes {
    if us == [] then [] else VarintBytes(us[0]) + Varints(us[1..])
  }

  /** A packed list: one record with the varints in order; nothing for an empty list. */
  function IdsWire(tag: byte, us: seq<uint64>): Bytes {
    if us != [] then Delimited(tag, Varints(us)) else []
  }

  lemma DelimitedForm(num: nat, p: Bytes)
    requires num <= 15
    ensures BytesRecord(num, p) == Delimited(8 * num + 2, p)
  {
    OneByteTag(num, 2);
    assert [8 * num + 2] + (VarintBytes(|p|) + p) == [8 * num + 2] + VarintBytes(|p|) + p;
  }

  lemma TextWireForm(num: nat, p: Bytes)
    requires num <= 15
    ensures EncodeValue(num, Str(p)) == TextWire(8 * num + 2, p)
  {
    DelimitedForm(num, p);
  }

  lemma VarintWireForm(num: nat, v: uint64)
    requires num <= 15
    ensures EncodeValue(num, U64(v)) == VarintWire(8 * num, v)
  {
    OneByteTag(num, 0);
  }

  lemma EnumWireForm(num: nat, v: int32)
    requires num <= 15
    ensures EncodeValue(num, I32(v)) == VarintWire(8 * num, SignExtend(v))
  {
    OneByteTag(num, 0);
  }

  lemma BoolWireForm(num: nat, b: bool)
    requires num <= 15
    ensures EncodeValue(num, Flag(b)) == BoolWire(8 * num, b)
  {
    OneByteTag(num, 0);
  }

  lemma {:induction false} ListWireForm(num: nat, ps: seq<Bytes>)
    requires num <= 15
    ensures BytesRecords(num, ps) == ListWire(8 * num + 2, ps)
  {
    if ps != [] {
      DelimitedForm(num, ps[0]);
      ListWireForm(num, ps[1..]);
    }
  }

  lemma {:induction false} PackedForm(us: seq<uint64>)
    ensures Packed(us) == Varints(us)
  {
    if us != [] {
      PackedForm(us[1..]);
    }
  }

  lemma IdsWireForm(num: nat, us: seq<uint64>)
    requires num <= 15
    ensures EncodeValue(num, U64s(us)) == IdsWire(8 * num + 2, us)
  {
    PackedForm(us);
    DelimitedForm(num, Varints(us));
  }

  /** A license: the id, four strings and the status. */
  lemma LicenseWireForm(x: License)
    ensures Encode(x.View()) ==
            VarintWire(0x08, x.id)
            + (TextWire(0x12, x.licenseType)
            + (TextWire(0x1a, x.holder)
            + (TextWire(0x22, x.startDate)
            + (TextWire(0x2a, x.endDate)
            + (VarintWire(0x30, SignExtend(x.status)))))))
            + x.unknownFields
  {
    hide EncodeFields, EncodeValue, TextWire, VarintWire, BoolWire, IdsWire, ListWire, SignExtend;
    var m := x.View();
    FieldUnfold(m, 0);
    FieldUnfold(m, 1);
    FieldUnfold(m, 2);
    FieldUnfold(m, 3);
    FieldUnfold(m, 4);
    FieldUnfold(m, 5);
    NoMoreFields(m);
    VarintWireForm(1, x.id);
    TextWireForm(2, x.licenseType);
    TextWireForm(3, x.holder);
    TextWireForm(4, x.startDate);
    TextWireForm(5, x.endDate);
    EnumWireForm(6, x.status);
    assert EncodeValue(6, I32(x.status)) + [] == EncodeValue(6, I32(x.status));
  }

  /** A license type: five strings and a bool. */
  lemma LicenseTypeWireForm(x: LicenseType)
    ensures Encode(x.View()) ==
            TextWire(0x0a, x.id)
            + (BoolWire(0x10, x.transferrable)
            + (TextWire(0x1a, x.maxSupply)
            + (TextWire(0x22, x.issuedCount)
            + (TextWire(0x2a, x.activeCount)
            + (TextWire(0x32, x.revokedCount))))))
            + x.unknownFields
  {
    hide EncodeFields, EncodeValue, TextWire, VarintWire, BoolWire, IdsWire, ListWire, SignExtend;
    var m := x.View();
    FieldUnfold(m, 0);
    FieldUnfold(m, 1);
    FieldUnfold(m, 2);
    FieldUnfold(m, 3);
    FieldUnfold(m, 4);
    FieldUnfold(m, 5);
    NoMoreFields(m);
    TextWireForm(1, x.id);
    BoolWireForm(2, x.transferrable);
    TextWireForm(3, x.maxSupply);
    TextWireForm(4, x.issuedCount);
    TextWireForm(5, x.activeCount);
    TextWireForm(6, x.revokedCount);
    assert EncodeValue(6, Str(x.revokedCount)) + [] == EncodeValue(6, Str(x.revokedCount));
  }

  /** The module parameters. */
  lemma ParamsWireForm(x: Params)
    ensures Encode(x.View()) ==
            TextWire(0x0a, x.owner)
            + x.unknownFields
  {
    hide EncodeFields, EncodeValue, TextWire, VarintWire, BoolWire, IdsWire, ListWire, SignExtend;
    var m := x.View();
    FieldUnfold(m, 0);
    NoMoreFields(m);
    TextWireForm(1, x.owner);
    assert EncodeValue(1, Str(x.owner)) + [] == EncodeValue(1, Str(x.owner));
  }

  /** A grant. */
  lemma GrantWireForm(x: Grant)
    ensures Encode(x.View()) ==
            TextWire(0x0a, x.grantee)
            + (TextWire(0x12, x.action)
            + (TextWire(0x1a, x.scope)))
            + x.unknownFields
  {
    hide EncodeFields, EncodeValue, TextWire, VarintWire, BoolWire, IdsWire, ListWire, SignExtend;
    var m := x.View();
    FieldUnfold(m, 0);
    FieldUnfold(m, 1);
    FieldUnfold(m, 2);
    NoMoreFields(m);
    TextWireForm(1, x.grantee);
    TextWireForm(2, x.action);
    TextWireForm(3, x.scope);
    assert EncodeValue(3, Str(x.scope)) + [] == EncodeValue(3, Str(x.scope));
  }

  lemma ListValue(num: nat, ps: seq<Bytes>)
    ensures EncodeValue(num, Strs(ps)) == BytesRecords(num, ps)
  {
  }

  /** An action with its scopes. */
  lemma ActionScopesWireForm(x: ActionScopes)
    ensures Encode(x.View()) ==
            TextWire(0x0a, x.action)
            + (ListWire(0x12, x.scopes))
            + x.unknownFields
  {
    hide EncodeFields, EncodeValue, TextWire, VarintWire, BoolWire, IdsWire, ListWire, SignExtend;
    var m := x.View();
    FieldUnfold(m, 0);
    FieldUnfold(m, 1);
    NoMoreFields(m);
    TextWireForm(1, x.action);
    ListWireForm(2, x.scopes);
    ListValue(2, x.scopes);
    assert EncodeValue(2, Strs(x.scopes)) + [] == EncodeValue(2, Strs(x.scopes));
  }

  /** A revocation: two strings and the packed ids. */
  lemma MsgRevokeLicensesWireForm(x: MsgRevokeLicenses)
    ensures Encode(x.View()) ==
            TextWire(0x0a, x.revoker)
            + (TextWire(0x12, x.licenseTypeId)
            + (IdsWire(0x1a, x.licenseIds)))
            + x.unknownFields
  {
    hide EncodeFields, EncodeValue, TextWire, VarintWire, BoolWire, IdsWire, ListWire, SignExtend;
    var m := x.View();
    FieldUnfold(m, 0);
    FieldUnfold(m, 1);
    FieldUnfold(m, 2);
    NoMoreFields(m);
    TextWireForm(1, x.revoker);
    TextWireForm(2, x.licenseTypeId);
    IdsWireForm(3, x.licenseIds);
    assert EncodeValue(3, U64s(x.licenseIds)) + [] == EncodeValue(3, U64s(x.licenseIds));
  }

  /** The encodings of the elements in order; a nil element is written like an empty message. */
  ghost function LicenseTypeEncodings(xs: seq<LicenseType?>): seq<Bytes>
    reads xs
  {
    seq(|xs|, i requires 0 <= i < |xs| reads xs => if xs[i] == null then [] else Encode(xs[i].View()))
  }

  lemma LicenseTypeListForm(num: nat, xs: seq<LicenseType?>)
    requires num <= 15
    ensures EncodeValue(num, Subs(LicenseTypeViews(xs))) == ListWire(8 * num + 2, LicenseTypeEncodings(xs))
  {
    hide Encode, BytesRecords, ListWire, Empty;
    EncodeEmpty(LICENSE_TYPE);
    assert EncodeAll(LicenseTypeViews(xs)) == LicenseTypeEncodings(xs);
    ListWireForm(num, LicenseTypeEncodings(xs));
  }

  /** The encodings of the elements in order; a nil element is written like an empty message. */
  ghost function LicenseEncodings(xs: seq<License?>): seq<Bytes>
    reads xs
  {
    seq(|xs|, i requires 0 <= i < |xs| reads xs => if xs[i] == null then [] else Encode(xs[i].View()))
  }

  lemma LicenseListForm(num: nat, xs: seq<License?>)
    requires num <= 15
    ensures EncodeValue(num, Subs(LicenseViews(xs))) == ListWire(8 * num + 2, LicenseEncodings(xs))
  {
    hide Encode, BytesRecords, ListWire, Empty;
    EncodeEmpty(LICENSE);
    assert EncodeAll(LicenseViews(xs)) == LicenseEncodings(xs);
    ListWireForm(num, LicenseEncodings(xs));
  }

  /** The encodings of the elements in order; a nil element is written like an empty message. */
  ghost function GrantEncodings(xs: seq<Grant?>): seq<Bytes>
    reads xs
  {
    seq(|xs|, i requires 0 <= i < |xs| reads xs => if xs[i] == null then [] else Encode(xs[i].View()))
  }

  lemma GrantListForm(num: nat, xs: seq<Grant?>)
    requires num <= 15
    ensures EncodeValue(num, Subs(GrantViews(xs))) == ListWire(8 * num + 2, GrantEncodings(xs))
  {
    hide Encode, BytesRecords, ListWire, Empty;
    EncodeEmpty(GRANT);
    assert EncodeAll(GrantViews(xs)) == GrantEncodings(xs);
    ListWireForm(num, GrantEncodings(xs));
  }

  /** Parameters that are present are written, even empty ones. */
  ghost function ParamsWire(tag: byte, x: Params?): Bytes
    reads x
  {
    if x != null then Delimited(tag, Encode(x.View())) else []
  }

  lemma OptionalParamsForm(num: nat, x: Params?)
    requires num <= 15
    ensures EncodeValue(num, Sub(if x == null then None else Some(x.View()))) == ParamsWire(8 * num + 2, x)
  {
    hide Encode, BytesRecord, Delimited;
    if x != null {
      DelimitedForm(num, Encode(x.View()));
    }
  }

  /** A genesis state: three lists of messages, the next id and the parameters. */
  lemma GenesisStateWireForm(x: GenesisState)
    ensures Encode(x.View()) ==
            ListWire(0x0a, LicenseTypeEncodings(x.licenseTypes))
            + (ListWire(0x12, LicenseEncodings(x.licenses))
            + (VarintWire(0x18, x.nextLicenseId)
            + (ParamsWire(0x22, x.params)
            + ListWire(0x2a, GrantEncodings(x.grants)))))
            + x.unknownFields
  {
    hide EncodeFields, EncodeValue, ListWire, VarintWire, ParamsWire, Empty;
    hide LicenseTypeViews, LicenseViews, GrantViews, LicenseTypeEncodings, LicenseEncodings, GrantEncodings;
    var m := x.View();
    FieldUnfold(m, 0);
    FieldUnfold(m, 1);
    FieldUnfold(m, 2);
    FieldUnfold(m, 3);
    FieldUnfold(m, 4);
    NoMoreFields(m);
    LicenseTypeListForm(1, x.licenseTypes);
    LicenseListForm(2, x.licenses);
    VarintWireForm(3, x.nextLicenseId);
    OptionalParamsForm(4, x.params);
    GrantListForm(5, x.grants);
    assert EncodeValue(5, m.values[4]) + [] == EncodeValue(5, m.values[4]);
  }
}
