/** The genesis state of the license module: three repeated nested messages, an id and optional parameters. */
module GenesisMessages {
  import opened Options
  import opened Words
  import opened Wire
  import opened Messages
  import opened Fields
  import opened Growth
  import opened LicenseMessages
  import opened AccessMessages

  const GENESIS: Schema :=
    [NestedList(LICENSE_TYPE), NestedList(LICENSE), Uint64, Nested(PARAMS), NestedList(GRANT)]

  /** A nil element counts as an empty message. */
  function LicenseTypeView(x: LicenseType?): Message
    reads x
  {
    if x == null then Empty(LICENSE_TYPE) else x.View()
  }

  function LicenseTypeViews(xs: seq<LicenseType?>): (ms: seq<Message>)
    reads xs
    ensures |ms| == |xs|
  {
    seq(|xs|, i requires 0 <= i < |xs| reads xs => LicenseTypeView(xs[i]))
  }

  /** A nil element counts as an empty message. */
  function LicenseView(x: License?): Message
    reads x
  {
    if x == null then Empty(LICENSE) else x.View()
  }

  function LicenseViews(xs: seq<License?>): (ms: seq<Message>)
    reads xs
    ensures |ms| == |xs|
  {
    seq(|xs|, i requires 0 <= i < |xs| reads xs => LicenseView(xs[i]))
  }

  /** A nil element counts as an empty message. */
  function GrantView(x: Grant?): Message
    reads x
  {
    if x == null then Empty(GRANT) else x.View()
  }

  function GrantViews(xs: seq<Grant?>): (ms: seq<Message>)
    reads xs
    ensures |ms| == |xs|
  {
    seq(|xs|, i requires 0 <= i < |xs| reads xs => GrantView(xs[i]))
  }

  class GenesisState {
    var licenseTypes: seq<LicenseType?>
    var licenses: seq<License?>
    var nextLicenseId: uint64
    var params: Params?
    var grants: seq<Grant?>
    var unknownFields: Bytes

    constructor ()
      ensures View() == Empty(GENESIS) && params == null
    {
      licenseTypes, licenses, nextLicenseId, params, grants := [], [], 0, null, [];
      unknownFields := [];
    }

    ghost function OwnParams(): set<Params>
      reads this
    {
      if params == null then {} else {params}
    }

    function View(): (m: Message)
      reads this, licenseTypes, licenses, OwnParams(), grants
      ensures |m.values| == 5
    {
      Message([Subs(LicenseTypeViews(licenseTypes)), Subs(LicenseViews(licenses)), U64(nextLicenseId),
               Sub(if params == null then None else Some(params.View())), Subs(GrantViews(grants))], unknownFields)
    }

    method PutLicenseTypes(a: array<byte>, off: nat, ghost m: Message) returns (i: nat)
      requires m == View() && |Encode(m)| < TWO_63 && Filled(a, off, m, 1)
      modifies a
      ensures Filled(a, i, m, 0)
    {
      hide Encode, EncodeFields, EncodeValue, Filled, ListFilled;
      ListStart(a, off, m, 1);
      i := off;
      var k := |licenseTypes|;
      while k > 0
        invariant 0 <= k <= |licenseTypes| && ListFilled(a, i, m, 1, k)
      {
        k := k - 1;
        ElementFits(m, 1, k);
        EncodeEmpty(LICENSE_TYPE);
        var encoded: Bytes := [];
        if licenseTypes[k] != null {
          encoded := licenseTypes[k].Marshal([]);
        }
        i := PutElement(a, i, m, 1, k, encoded);
      }
      ListEnd(a, i, m, 1);
    }

    method SizeLicenseTypes() returns (n: nat)
      ensures n == |EncodeValue(1, View().values[0])|
    {
      hide EncodeValue, EncodeFields, Encode, ListSize;
      ghost var m := View();
      ListSizeStart(m, 1);
      n := 0;
      for k := 0 to |licenseTypes|
        invariant n + ListSize(m, 1, k) == ListSize(m, 1, 0)
      {
        EncodeEmpty(LICENSE_TYPE);
        var l := 0;
        if licenseTypes[k] != null {
          l := licenseTypes[k].Size();
        }
        ListSizeStep(m, 1, k, l);
        n := n + (1 + l + Sov(l));
      }
      ListSizeEnd(m, 1);
    }

    method PutLicenses(a: array<byte>, off: nat, ghost m: Message) returns (i: nat)
      requires m == View() && |Encode(m)| < TWO_63 && Filled(a, off, m, 2)
      modifies a
      ensures Filled(a, i, m, 1)
    {
      hide Encode, EncodeFields, EncodeValue, Filled, ListFilled;
      ListStart(a, off, m, 2);
      i := off;
      var k := |licenses|;
      while k > 0
        invariant 0 <= k <= |licenses| && ListFilled(a, i, m, 2, k)
      {
        k := k - 1;
        ElementFits(m, 2, k);
        EncodeEmpty(LICENSE);
        var encoded: Bytes := [];
        if licenses[k] != null {
          encoded := licenses[k].Marshal([]);
        }
        i := PutElement(a, i, m, 2, k, encoded);
      }
      ListEnd(a, i, m, 2);
    }

    method SizeLicenses() returns (n: nat)
      ensures n == |EncodeValue(2, View().values[1])|
    {
      hide EncodeValue, EncodeFields, Encode, ListSize;
      ghost var m := View();
      ListSizeStart(m, 2);
      n := 0;
      for k := 0 to |licenses|
        invariant n + ListSize(m, 2, k) == ListSize(m, 2, 0)
      {
        EncodeEmpty(LICENSE);
        var l := 0;
        if licenses[k] != null {
          l := licenses[k].Size();
        }
        ListSizeStep(m, 2, k, l);
        n := n + (1 + l + Sov(l));
      }
      ListSizeEnd(m, 2);
    }

    method PutGrants(a: array<byte>, off: nat, ghost m: Message) returns (i: nat)
      requires m == View() && |Encode(m)| < TWO_63 && Filled(a, off, m, 5)
      modifies a
      ensures Filled(a, i, m, 4)
    {
      hide Encode, EncodeFields, EncodeValue, Filled, ListFilled;
      ListStart(a, off, m, 5);
      i := off;
      var k := |grants|;
      while k > 0
        invariant 0 <= k <= |grants| && ListFilled(a, i, m, 5, k)
      {
        k := k - 1;
        ElementFits(m, 5, k);
        EncodeEmpty(GRANT);
        var encoded: Bytes := [];
        if grants[k] != null {
          encoded := grants[k].Marshal([]);
        }
        i := PutElement(a, i, m, 5, k, encoded);
      }
      ListEnd(a, i, m, 5);
    }

    method SizeGrants() returns (n: nat)
      ensures n == |EncodeValue(5, View().values[4])|
    {
      hide EncodeValue, EncodeFields, Encode, ListSize;
      ghost var m := View();
      ListSizeStart(m, 5);
      n := 0;
      for k := 0 to |grants|
        invariant n + ListSize(m, 5, k) == ListSize(m, 5, 0)
      {
        EncodeEmpty(GRANT);
        var l := 0;
        if grants[k] != null {
          l := grants[k].Size();
        }
        ListSizeStep(m, 5, k, l);
        n := n + (1 + l + Sov(l));
      }
      ListSizeEnd(m, 5);
    }

    method Size() returns (n: nat)
      ensures n == |Encode(View())|
    {
      hide EncodeValue, EncodeFields, Encode, LicenseTypeViews, LicenseViews, GrantViews;
      ghost var m := View();
      EncodedSize(m);
      n := SizeLicenseTypes();
      FieldUnfold(m, 0);
      var l := SizeLicenses();
      n := n + l;
      FieldUnfold(m, 1);
      n := n + SizeUint64(3, nextLicenseId);
      FieldUnfold(m, 2);
      if params != null {
        l := params.Size();
        NestedSize(m, 4, params.View(), l);
        n := n + (1 + l + Sov(l));
      } else {
        AbsentSize(m, 4);
      }
      FieldUnfold(m, 3);
      l := SizeGrants();
      n := n + l;
      FieldUnfold(m, 4);
      n := n + |unknownFields|;
    }

    method PutParams(a: array<byte>, off: nat, ghost m: Message) returns (i: nat)
      requires m == View() && |Encode(m)| < TWO_63 && Filled(a, off, m, 4)
      modifies a
      ensures Filled(a, i, m, 3)
    {
      hide Encode, EncodeFields, EncodeValue, Filled;
      i := off;
      if params != null {
        NestedFits(m, 4, params.View());
        var encoded := params.Marshal([]);
        i := PutNested(a, i, m, 4, params.View(), encoded);
      } else {
        PutAbsent(a, i, m, 4);
      }
    }

    method Marshal(buf: Bytes) returns (out: Bytes)
      requires |Encode(View())| < TWO_63
      ensures out == buf + Encode(View())
    {
      hide Encode, EncodeFields, EncodeValue, Filled, LicenseTypeViews, LicenseViews, GrantViews;
      ghost var m := View();
      var size := Size();
      var buffer := new byte[size];
      var i := PutUnknown(buffer, m, unknownFields);
      i := PutGrants(buffer, i, m);
      i := PutParams(buffer, i, m);
      i := PutUint64(buffer, i, m, 3, nextLicenseId);
      i := PutLicenses(buffer, i, m);
      i := PutLicenseTypes(buffer, i, m);
      FilledAll(buffer, i, m);
      return buf + buffer[..];
    }

    method AppendLicenseType(p: Bytes, discardUnknown: bool) returns (err: Option<Error>)
      requires |p| < TWO_63
      modifies `licenseTypes
      ensures err == OutcomeError(Decode(LICENSE_TYPE, discardUnknown, 0, p, Empty(LICENSE_TYPE)))
      ensures
        var x := StateAfter(LICENSE_TYPE, discardUnknown, 0, p, Empty(LICENSE_TYPE));
        View() == With(old(View()), 1, Subs(SubsOf(old(View()).values[0]) + [x]))
    {
      hide Decode, StateAfter;
      ghost var before := View();
      var e := new LicenseType();
      err := e.Unmarshal(p, discardUnknown);
      licenseTypes := licenseTypes + [e];
      assert LicenseTypeViews(licenseTypes) == before.values[0].ms + [e.View()];
      assert View().values == before.values[0 := Subs(before.values[0].ms + [e.View()])];
    }

    method AppendLicense(p: Bytes, discardUnknown: bool) returns (err: Option<Error>)
      requires |p| < TWO_63
      modifies `licenses
      ensures err == OutcomeError(Decode(LICENSE, discardUnknown, 0, p, Empty(LICENSE)))
      ensures
        var x := StateAfter(LICENSE, discardUnknown, 0, p, Empty(LICENSE));
        View() == With(old(View()), 2, Subs(SubsOf(old(View()).values[1]) + [x]))
    {
      hide Decode, StateAfter;
      ghost var before := View();
      var e := new License();
      err := e.Unmarshal(p, discardUnknown);
      licenses := licenses + [e];
      assert LicenseViews(licenses) == before.values[1].ms + [e.View()];
      assert View().values == before.values[1 := Subs(before.values[1].ms + [e.View()])];
    }

    method AppendGrant(p: Bytes, discardUnknown: bool) returns (err: Option<Error>)
      requires |p| < TWO_63
      modifies `grants
      ensures err == OutcomeError(Decode(GRANT, discardUnknown, 0, p, Empty(GRANT)))
      ensures
        var x := StateAfter(GRANT, discardUnknown, 0, p, Empty(GRANT));
        View() == With(old(View()), 5, Subs(SubsOf(old(View()).values[4]) + [x]))
    {
      hide Decode, StateAfter;
      ghost var before := View();
      var e := new Grant();
      err := e.Unmarshal(p, discardUnknown);
      grants := grants + [e];
      assert GrantViews(grants) == before.values[4].ms + [e.View()];
      assert View().values == before.values[4 := Subs(before.values[4].ms + [e.View()])];
    }

    method MergeParams(p: Bytes, discardUnknown: bool) returns (err: Option<Error>)
      requires |p| < TWO_63
      modifies `params, OwnParams()
      ensures params == old(params) || (params != null && fresh(params))
      ensures err == OutcomeError(Decode(PARAMS, discardUnknown, 0, p, SubOf(PARAMS, old(View()).values[3])))
      ensures
        var x := StateAfter(PARAMS, discardUnknown, 0, p, SubOf(PARAMS, old(View()).values[3]));
        View() == With(old(View()), 4, Sub(Some(x)))
    {
      hide Decode, StateAfter;
      ghost var before := View();
      if params == null {
        params := new Params();
      }
      err := params.Unmarshal(p, discardUnknown);
      assert View().values == before.values[3 := Sub(Some(params.View()))];
    }

    /** A record of one of the four nested fields, with its payload `r` read. */
    method MergePayload(r: Scan<Bytes>, discardUnknown: bool, num: nat, ghost c: Loop, ghost at: nat)
      returns (err: Option<Error>)
      requires c == Loop(GENESIS, discardUnknown, c.data, c.pos, View(), c.goal, c.left)
      requires AtRecord(c, at, num, 2) && num in {1, 2, 4, 5}
      requires r.Ok? && Payload(at, c.data[at..]) == r && |r.value| < TWO_63
      modifies this, OwnParams()
      ensures params == old(params) || (params != null && fresh(params))
      ensures Settled(c, err, at + r.used, View())
    {
      hide Decode, StateAfter, Settled, AtRecord, FieldNumber, Payload, LicenseTypeViews, LicenseViews, GrantViews;
      AtRecordBounds(c, at, num, 2);
      var p := r.value;
      if num == 1 {
        err := AppendLicenseType(p, discardUnknown);
        AdvanceElement(c, at, 1, LICENSE_TYPE, r);
      } else if num == 2 {
        err := AppendLicense(p, discardUnknown);
        AdvanceElement(c, at, 2, LICENSE, r);
      } else if num == 4 {
        err := MergeParams(p, discardUnknown);
        AdvanceNested(c, at, 4, PARAMS, r);
      } else {
        err := AppendGrant(p, discardUnknown);
        AdvanceElement(c, at, 5, GRANT, r);
      }
    }

    /** The switch over the field number of one record, at `cursor`. */
    method MergeRecord(data: Bytes, cursor: nat, discardUnknown: bool, ghost c: Loop)
      returns (err: Option<Error>, next: nat)
      requires c == Loop(GENESIS, discardUnknown, data, cursor, View(), c.goal, c.left)
      requires Pending(c) && cursor < |data| < TWO_63
      modifies this, OwnParams()
      ensures params == old(params) || (params != null && fresh(params))
      ensures Settled(c, err, next, View())
    {
      hide Decode, StateAfter, Pending, Settled, AtRecord, FieldNumber, Payload;
      hide LicenseTypeViews, LicenseViews, GrantViews;
      var tag := NextRecord(c, data, cursor);
      if tag.Err? {
        return Some(tag.error), cursor;
      }
      var fieldNum, wireType, at := FieldNumber(tag.value), tag.value % 8, cursor + tag.used;
      if fieldNum == 3 {
        err, nextLicenseId, next := Uint64Field(c, data, at, 3, wireType, nextLicenseId);
        assert With(c.m, 3, U64(nextLicenseId)) == View();
      } else if fieldNum <= 5 {
        var r := Delimited(c, data, at, fieldNum, wireType);
        if r.Err? {
          return Some(r.error), at;
        }
        next := at + r.used;
        err := MergePayload(r, discardUnknown, fieldNum, c, at);
      } else {
        err, unknownFields, next :=
          UnknownField(c, data, cursor, discardUnknown, unknownFields, at, fieldNum, wireType);
      }
    }

    /** On an error the message keeps what was decoded until then. */
    method Unmarshal(data: Bytes, discardUnknown: bool) returns (err: Option<Error>)
      requires |data| < TWO_63
      modifies this, OwnParams()
      ensures
        match Decode(GENESIS, discardUnknown, 0, data, old(View()))
        case Done(m) => err == None && View() == m
        case Failed(e) => err == Some(e)
      ensures View() == StateAfter(GENESIS, discardUnknown, 0, data, old(View()))
    {
      hide Decode, StateAfter, Pending, Settled;
      ghost var c := PendingStart(GENESIS, discardUnknown, data, View());
      ghost var goal, left := c.goal, c.left;
      var cursor := 0;
      while cursor < |data|
        invariant cursor <= |data|
        invariant c == Loop(GENESIS, discardUnknown, data, cursor, View(), goal, left) && Pending(c)
        invariant params == old(params) || (params != null && fresh(params))
        decreases |data| - cursor
      {
        var next;
        err, next := MergeRecord(data, cursor, discardUnknown, c);
        SettledCases(c, err, next, View());
        if err.Some? {
          return;
        }
        cursor := next;
        c := c.(pos := cursor, m := View());
      }
      assert cursor == |data|;
      PendingEnd(c);
      return None;
    }
  }
}
