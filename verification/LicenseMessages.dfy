/** The license messages without nested messages. */
module LicenseMessages {
  import opened Options
  import opened Words
  import opened Wire
  import opened Messages
  import opened Fields

  const LICENSE: Schema := [Uint64, Text, Text, Text, Text, Enum]

  const LICENSE_TYPE: Schema := [Text, Bool, Text, Text, Text, Text]

  const PARAMS: Schema := [Text]

  function LicenseMessage(
    id: uint64, licenseType: Bytes, holder: Bytes, startDate: Bytes,
    endDate: Bytes, status: int32, unknown: Bytes): (m: Message)
    ensures |m.values| == 6
  {
    Message(
      [U64(id), Str(licenseType), Str(holder), Str(startDate), Str(endDate), I32(status)],
      unknown)
  }

  /** Each field of such a message, and what setting it gives. */
  lemma LicenseUpdates(
    id: uint64, licenseType: Bytes, holder: Bytes, startDate: Bytes,
    endDate: Bytes, status: int32, unknown: Bytes)
    ensures
      var m := LicenseMessage(id, licenseType, holder, startDate, endDate, status, unknown);
      && m.values[0] == U64(id)
      && m.values[1] == Str(licenseType)
      && m.values[2] == Str(holder)
      && m.values[3] == Str(startDate)
      && m.values[4] == Str(endDate)
      && m.values[5] == I32(status)
      && (forall x ::
           With(m, 1, U64(x)) ==
           LicenseMessage(x, licenseType, holder, startDate, endDate, status, unknown))
      && (forall x ::
           With(m, 2, Str(x)) ==
           LicenseMessage(id, x, holder, startDate, endDate, status, unknown))
      && (forall x ::
           With(m, 3, Str(x)) ==
           LicenseMessage(id, licenseType, x, startDate, endDate, status, unknown))
      && (forall x ::
           With(m, 4, Str(x)) ==
           LicenseMessage(id, licenseType, holder, x, endDate, status, unknown))
      && (forall x ::
           With(m, 5, Str(x)) ==
           LicenseMessage(id, licenseType, holder, startDate, x, status, unknown))
      && (forall x ::
           With(m, 6, I32(x)) ==
           LicenseMessage(id, licenseType, holder, startDate, endDate, x, unknown))
      && m.unknown == unknown
      && (forall x ::
           m.(unknown := x) ==
           LicenseMessage(id, licenseType, holder, startDate, endDate, status, x))
  {
  }

  /** One license: an id, four strings and an int32 status. */
  class License {
    var id: uint64
    var licenseType: Bytes
    var holder: Bytes
    var startDate: Bytes
    var endDate: Bytes
    var status: int32
    var unknownFields: Bytes

    constructor ()
      ensures View() == Empty(LICENSE)
    {
      id := 0;
      licenseType := [];
      holder := [];
      startDate := [];
      endDate := [];
      status := 0;
      unknownFields := [];
    }

    function View(): (m: Message)
      reads this
      ensures |m.values| == 6
    {
      LicenseMessage(id, licenseType, holder, startDate, endDate, status, unknownFields)
    }

    method Size() returns (n: nat)
      ensures n == |Encode(View())|
    {
      hide EncodeValue, EncodeFields, Encode;
      ghost var m := View();
      EncodedSize(m);
      n := 0;
      FieldUnfold(m, 0);
      n := n + SizeUint64(1, id);
      FieldUnfold(m, 1);
      n := n + SizeText(2, licenseType);
      FieldUnfold(m, 2);
      n := n + SizeText(3, holder);
      FieldUnfold(m, 3);
      n := n + SizeText(4, startDate);
      FieldUnfold(m, 4);
      n := n + SizeText(5, endDate);
      FieldUnfold(m, 5);
      n := n + SizeEnum(6, status);
      n := n + |unknownFields|;
    }

    method Marshal(buf: Bytes) returns (out: Bytes)
      requires |Encode(View())| < TWO_63
      ensures out == buf + Encode(View())
    {
      hide Encode, EncodeFields, EncodeValue;
      ghost var m := View();
      var size := Size();
      var buffer := new byte[size];
      var i := PutUnknown(buffer, m, unknownFields);
      i := PutEnum(buffer, i, m, 6, status);
      i := PutText(buffer, i, m, 5, endDate);
      i := PutText(buffer, i, m, 4, startDate);
      i := PutText(buffer, i, m, 3, holder);
      i := PutText(buffer, i, m, 2, licenseType);
      i := PutUint64(buffer, i, m, 1, id);
      FilledAll(buffer, i, m);
      return buf + buffer[..];
    }

    /** The switch over the field number of one record, at `cursor`. */
    method MergeRecord(data: Bytes, cursor: nat, discardUnknown: bool, ghost c: Loop)
      returns (err: Option<Error>, next: nat)
      requires c == Loop(LICENSE, discardUnknown, data, cursor, View(), c.goal, c.left)
      requires Pending(c) && cursor < |data| < TWO_63
      modifies this
      ensures Settled(c, err, next, View())
    {
      hide Decode, StateAfter, Pending, Settled, AtRecord, FieldNumber, LicenseMessage, With;
      LicenseUpdates(id, licenseType, holder, startDate, endDate, status, unknownFields);
      var tag := NextRecord(c, data, cursor);
      if tag.Err? {
        return Some(tag.error), cursor;
      }
      var fieldNum, wireType, at := FieldNumber(tag.value), tag.value % 8, cursor + tag.used;
      if fieldNum == 1 {
        err, id, next := Uint64Field(c, data, at, 1, wireType, id);
        assert With(c.m, 1, U64(id)) == View();
      } else if fieldNum == 2 {
        err, licenseType, next := TextField(c, data, at, 2, wireType, licenseType);
        assert With(c.m, 2, Str(licenseType)) == View();
      } else if fieldNum == 3 {
        err, holder, next := TextField(c, data, at, 3, wireType, holder);
        assert With(c.m, 3, Str(holder)) == View();
      } else if fieldNum == 4 {
        err, startDate, next := TextField(c, data, at, 4, wireType, startDate);
        assert With(c.m, 4, Str(startDate)) == View();
      } else if fieldNum == 5 {
        err, endDate, next := TextField(c, data, at, 5, wireType, endDate);
        assert With(c.m, 5, Str(endDate)) == View();
      } else if fieldNum == 6 {
        err, status, next := EnumField(c, data, at, 6, wireType, status);
        assert With(c.m, 6, I32(status)) == View();
      } else {
        err, unknownFields, next :=
          UnknownField(c, data, cursor, discardUnknown, unknownFields, at, fieldNum, wireType);
      }
    }

    /** On an error the message keeps what was decoded until then. */
    method Unmarshal(data: Bytes, discardUnknown: bool) returns (err: Option<Error>)
      requires |data| < TWO_63
      modifies this
      ensures
        match Decode(LICENSE, discardUnknown, 0, data, old(View()))
        case Done(m) => err == None && View() == m
        case Failed(e) => err == Some(e)
      ensures View() == StateAfter(LICENSE, discardUnknown, 0, data, old(View()))
    {
      hide Decode, StateAfter, Pending, Settled;
      ghost var c := PendingStart(LICENSE, discardUnknown, data, View());
      ghost var goal, left := c.goal, c.left;
      var cursor := 0;
      while cursor < |data|
        invariant cursor <= |data|
        invariant c == Loop(LICENSE, discardUnknown, data, cursor, View(), goal, left) && Pending(c)
        decreases |data| - cursor
      {
        var next;
        err, next := MergeRecord(data, cursor, discardUnknown, c);
        SettledCases(c, err, next, View());
        if err.Some? {
          return;
        }
        cursor := next;
        c := c.(pos := cursor, m := View());
      }
      assert cursor == |data|;
      PendingEnd(c);
      return None;
    }
  }

  function LicenseTypeMessage(
    id: Bytes, transferrable: bool, maxSupply: Bytes, issuedCount: Bytes,
    activeCount: Bytes, revokedCount: Bytes, unknown: Bytes): (m: Message)
    ensures |m.values| == 6
  {
    Message(
      [Str(id), Flag(transferrable), Str(maxSupply), Str(issuedCount), Str(activeCount), Str(revokedCount)],
      unknown)
  }

  /** Each field of such a message, and what setting it gives. */
  lemma LicenseTypeUpdates(
    id: Bytes, transferrable: bool, maxSupply: Bytes, issuedCount: Bytes,
    activeCount: Bytes, revokedCount: Bytes, unknown: Bytes)
    ensures
      var m := LicenseTypeMessage(id, transferrable, maxSupply, issuedCount, activeCount, revokedCount, unknown);
      && m.values[0] == Str(id)
      && m.values[1] == Flag(transferrable)
      && m.values[2] == Str(maxSupply)
      && m.values[3] == Str(issuedCount)
      && m.values[4] == Str(activeCount)
      && m.values[5] == Str(revokedCount)
      && (forall x ::
           With(m, 1, Str(x)) ==
           LicenseTypeMessage(x, transferrable, maxSupply, issuedCount, activeCount, revokedCount, unknown))
      && (forall x ::
           With(m, 2, Flag(x)) ==
           LicenseTypeMessage(id, x, maxSupply, issuedCount, activeCount, revokedCount, unknown))
      && (forall x ::
           With(m, 3, Str(x)) ==
           LicenseTypeMessage(id, transferrable, x, issuedCount, activeCount, revokedCount, unknown))
      && (forall x ::
           With(m, 4, Str(x)) ==
           LicenseTypeMessage(id, transferrable, maxSupply, x, activeCount, revokedCount, unknown))
      && (forall x ::
           With(m, 5, Str(x)) ==
           LicenseTypeMessage(id, transferrable, maxSupply, issuedCount, x, revokedCount, unknown))
      && (forall x ::
           With(m, 6, Str(x)) ==
           LicenseTypeMessage(id, transferrable, maxSupply, issuedCount, activeCount, x, unknown))
      && m.unknown == unknown
      && (forall x ::
           m.(unknown := x) ==
           LicenseTypeMessage(id, transferrable, maxSupply, issuedCount, activeCount, revokedCount, x))
  {
  }

  /** A license type: strings and a bool. */
  class LicenseType {
    var id: Bytes
    var transferrable: bool
    var maxSupply: Bytes
    var issuedCount: Bytes
    var activeCount: Bytes
    var revokedCount: Bytes
    var unknownFields: Bytes

    constructor ()
      ensures View() == Empty(LICENSE_TYPE)
    {
      id := [];
      transferrable := false;
      maxSupply := [];
      issuedCount := [];
      activeCount := [];
      revokedCount := [];
      unknownFields := [];
    }

    function View(): (m: Message)
      reads this
      ensures |m.values| == 6
    {
      LicenseTypeMessage(id, transferrable, maxSupply, issuedCount, activeCount, revokedCount, unknownFields)
    }

    method Size() returns (n: nat)
      ensures n == |Encode(View())|
    {
      hide EncodeValue, EncodeFields, Encode;
      ghost var m := View();
      EncodedSize(m);
      n := 0;
      FieldUnfold(m, 0);
      n := n + SizeText(1, id);
      FieldUnfold(m, 1);
      n := n + SizeBool(2, transferrable);
      FieldUnfold(m, 2);
      n := n + SizeText(3, maxSupply);
      FieldUnfold(m, 3);
      n := n + SizeText(4, issuedCount);
      FieldUnfold(m, 4);
      n := n + SizeText(5, activeCount);
      FieldUnfold(m, 5);
      n := n + SizeText(6, revokedCount);
      n := n + |unknownFields|;
    }

    method Marshal(buf: Bytes) returns (out: Bytes)
      requires |Encode(View())| < TWO_63
      ensures out == buf + Encode(View())
    {
      hide Encode, EncodeFields, EncodeValue;
      ghost var m := View();
      var size := Size();
      var buffer := new byte[size];
      var i := PutUnknown(buffer, m, unknownFields);
      i := PutText(buffer, i, m, 6, revokedCount);
      i := PutText(buffer, i, m, 5, activeCount);
      i := PutText(buffer, i, m, 4, issuedCount);
      i := PutText(buffer, i, m, 3, maxSupply);
      i := PutBool(buffer, i, m, 2, transferrable);
      i := PutText(buffer, i, m, 1, id);
      FilledAll(buffer, i, m);
      return buf + buffer[..];
    }

    /** The switch over the field number of one record, at `cursor`. */
    method MergeRecord(data: Bytes, cursor: nat, discardUnknown: bool, ghost c: Loop)
      returns (err: Option<Error>, next: nat)
      requires c == Loop(LICENSE_TYPE, discardUnknown, data, cursor, View(), c.goal, c.left)
      requires Pending(c) && cursor < |data| < TWO_63
      modifies this
      ensures Settled(c, err, next, View())
    {
      hide Decode, StateAfter, Pending, Settled, AtRecord, FieldNumber, LicenseTypeMessage, With;
      LicenseTypeUpdates(id, transferrable, maxSupply, issuedCount, activeCount, revokedCount, unknownFields);
      var tag := NextRecord(c, data, cursor);
      if tag.Err? {
        return Some(tag.error), cursor;
      }
      var fieldNum, wireType, at := FieldNumber(tag.value), tag.value % 8, cursor + tag.used;
      if fieldNum == 1 {
        err, id, next := TextField(c, data, at, 1, wireType, id);
        assert With(c.m, 1, Str(id)) == View();
      } else if fieldNum == 2 {
        err, transferrable, next := BoolField(c, data, at, 2, wireType, transferrable);
        assert With(c.m, 2, Flag(transferrable)) == View();
      } else if fieldNum == 3 {
        err, maxSupply, next := TextField(c, data, at, 3, wireType, maxSupply);
        assert With(c.m, 3, Str(maxSupply)) == View();
      } else if fieldNum == 4 {
        err, issuedCount, next := TextField(c, data, at, 4, wireType, issuedCount);
        assert With(c.m, 4, Str(issuedCount)) == View();
      } else if fieldNum == 5 {
        err, activeCount, next := TextField(c, data, at, 5, wireType, activeCount);
        assert With(c.m, 5, Str(activeCount)) == View();
      } else if fieldNum == 6 {
        err, revokedCount, next := TextField(c, data, at, 6, wireType, revokedCount);
        assert With(c.m, 6, Str(revokedCount)) == View();
      } else {
        err, unknownFields, next :=
          UnknownField(c, data, cursor, discardUnknown, unknownFields, at, fieldNum, wireType);
      }
    }

    /** On an error the message keeps what was decoded until then. */
    method Unmarshal(data: Bytes, discardUnknown: bool) returns (err: Option<Error>)
      requires |data| < TWO_63
      modifies this
      ensures
        match Decode(LICENSE_TYPE, discardUnknown, 0, data, old(View()))
        case Done(m) => err == None && View() == m
        case Failed(e) => err == Some(e)
      ensures View() == StateAfter(LICENSE_TYPE, discardUnknown, 0, data, old(View()))
    {
      hide Decode, StateAfter, Pending, Settled;
      ghost var c := PendingStart(LICENSE_TYPE, discardUnknown, data, View());
      ghost var goal, left := c.goal, c.left;
      var cursor := 0;
      while cursor < |data|
        invariant cursor <= |data|
        invariant c == Loop(LICENSE_TYPE, discardUnknown, data, cursor, View(), goal, left) && Pending(c)
        decreases |data| - cursor
      {
        var next;
        err, next := MergeRecord(data, cursor, discardUnknown, c);
        SettledCases(c, err, next, View());
        if err.Some? {
          return;
        }
        cursor := next;
        c := c.(pos := cursor, m := View());
      }
      assert cursor == |data|;
      PendingEnd(c);
      return None;
    }
  }

  /** The module parameters. */
  class Params {
    var owner: Bytes
    var unknownFields: Bytes

    constructor ()
      ensures View() == Empty(PARAMS)
    {
      owner := [];
      unknownFields := [];
    }

    function View(): (m: Message)
      reads this
      ensures |m.values| == 1
    {
      Message([Str(owner)], unknownFields)
    }

    method Size() returns (n: nat)
      ensures n == |Encode(View())|
    {
      hide EncodeValue, EncodeFields, Encode;
      ghost var m := View();
      EncodedSize(m);
      n := 0;
      FieldUnfold(m, 0);
      n := n + SizeText(1, owner);
      n := n + |unknownFields|;
    }

    method Marshal(buf: Bytes) returns (out: Bytes)
      requires |Encode(View())| < TWO_63
      ensures out == buf + Encode(View())
    {
      hide Encode, EncodeFields, EncodeValue;
      ghost var m := View();
      var size := Size();
      var buffer := new byte[size];
      var i := PutUnknown(buffer, m, unknownFields);
      i := PutText(buffer, i, m, 1, owner);
      FilledAll(buffer, i, m);
      return buf + buffer[..];
    }

    /** The switch over the field number of one record, at `cursor`. */
    method MergeRecord(data: Bytes, cursor: nat, discardUnknown: bool, ghost c: Loop)
      returns (err: Option<Error>, next: nat)
      requires c == Loop(PARAMS, discardUnknown, data, cursor, View(), c.goal, c.left)
      requires Pending(c) && cursor < |data| < TWO_63
      modifies this
      ensures Settled(c, err, next, View())
    {
      hide Decode, StateAfter, Pending, Settled, AtRecord, FieldNumber;
      var tag := NextRecord(c, data, cursor);
      if tag.Err? {
        return Some(tag.error), cursor;
      }
      var fieldNum, wireType, at := FieldNumber(tag.value), tag.value % 8, cursor + tag.used;
      if fieldNum == 1 {
        err, owner, next := TextField(c, data, at, 1, wireType, owner);
        assert With(c.m, 1, Str(owner)) == View();
      } else {
        err, unknownFields, next :=
          UnknownField(c, data, cursor, discardUnknown, unknownFields, at, fieldNum, wireType);
      }
    }

    /** On an error the message keeps what was decoded until then. */
    method Unmarshal(data: Bytes, discardUnknown: bool) returns (err: Option<Error>)
      requires |data| < TWO_63
      modifies this
      ensures
        match Decode(PARAMS, discardUnknown, 0, data, old(View()))
        case Done(m) => err == None && View() == m
        case Failed(e) => err == Some(e)
      ensures View() == StateAfter(PARAMS, discardUnknown, 0, data, old(View()))
    {
      hide Decode, StateAfter, Pending, Settled;
      ghost var c := PendingStart(PARAMS, discardUnknown, data, View());
      ghost var goal, left := c.goal, c.left;
      var cursor := 0;
      while cursor < |data|
        invariant cursor <= |data|
        invariant c == Loop(PARAMS, discardUnknown, data, cursor, View(), goal, left) && Pending(c)
        decreases |data| - cursor
      {
        var next;
        err, next := MergeRecord(data, cursor, discardUnknown, c);
        SettledCases(c, err, next, View());
        if err.Some? {
          return;
        }
        cursor := next;
        c := c.(pos := cursor, m := View());
      }
      assert cursor == |data|;
      PendingEnd(c);
      return None;
    }
  }
}
