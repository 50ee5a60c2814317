/** Transaction messages with packed id lists. */
module TxMessages {
  import opened Options
  import opened Words
  import opened Wire
  import opened Messages
  import opened Fields

  const MSG_REVOKE_LICENSES: Schema := [Text, Text, Uint64List]

  /** A revocation of licenses by id. */
  class MsgRevokeLicenses {
    var revoker: Bytes
    var licenseTypeId: Bytes
    var licenseIds: seq<uint64>
    var unknownFields: Bytes

    constructor ()
      ensures View() == Empty(MSG_REVOKE_LICENSES)
    {
      revoker := [];
      licenseTypeId := [];
      licenseIds := [];
      unknownFields := [];
    }

    function View(): (m: Message)
      reads this
      ensures |m.values| == 3
    {
      Message([Str(revoker), Str(licenseTypeId), U64s(licenseIds)], unknownFields)
    }

    method Size() returns (n: nat)
      ensures n == |Encode(View())|
    {
      hide EncodeValue, EncodeFields, Encode;
      ghost var m := View();
      EncodedSize(m);
      n := 0;
      FieldUnfold(m, 0);
      n := n + SizeText(1, revoker);
      FieldUnfold(m, 1);
      n := n + SizeText(2, licenseTypeId);
      FieldUnfold(m, 2);
      var l3 := SizePacked(3, licenseIds);
      n := n + l3;
      n := n + |unknownFields|;
    }

    method Marshal(buf: Bytes) returns (out: Bytes)
      requires |Encode(View())| < TWO_63
      ensures out == buf + Encode(View())
    {
      hide Encode, EncodeFields, EncodeValue;
      ghost var m := View();
      var size := Size();
      var buffer := new byte[size];
      var i := PutUnknown(buffer, m, unknownFields);
      i := PutPacked(buffer, i, m, 3, licenseIds);
      i := PutText(buffer, i, m, 2, licenseTypeId);
      i := PutText(buffer, i, m, 1, revoker);
      FilledAll(buffer, i, m);
      return buf + buffer[..];
    }

    /** The switch over the field number of one record, at `cursor`. */
    method MergeRecord(data: Bytes, cursor: nat, discardUnknown: bool, ghost c: Loop)
      returns (err: Option<Error>, next: nat)
      requires c == Loop(MSG_REVOKE_LICENSES, discardUnknown, data, cursor, View(), c.goal, c.left)
      requires Pending(c) && cursor < |data| < TWO_63
      modifies this
      ensures Settled(c, err, next, View())
    {
      hide Decode, StateAfter, Pending, Settled, AtRecord, FieldNumber;
      var tag := NextRecord(c, data, cursor);
      if tag.Err? {
        return Some(tag.error), cursor;
      }
      var fieldNum, wireType, at := FieldNumber(tag.value), tag.value % 8, cursor + tag.used;
      if fieldNum == 1 {
        err, revoker, next := TextField(c, data, at, 1, wireType, revoker);
        assert With(c.m, 1, Str(revoker)) == View();
      } else if fieldNum == 2 {
        err, licenseTypeId, next := TextField(c, data, at, 2, wireType, licenseTypeId);
        assert With(c.m, 2, Str(licenseTypeId)) == View();
      } else if fieldNum == 3 {
        err, licenseIds, next := Uint64ListField(c, data, at, 3, wireType, licenseIds);
        assert With(c.m, 3, U64s(licenseIds)) == View();
      } else {
        err, unknownFields, next :=
          UnknownField(c, data, cursor, discardUnknown, unknownFields, at, fieldNum, wireType);
      }
    }

    /** On an error the message keeps what was decoded until then. */
    method Unmarshal(data: Bytes, discardUnknown: bool) returns (err: Option<Error>)
      requires |data| < TWO_63
      modifies this
      ensures
        match Decode(MSG_REVOKE_LICENSES, discardUnknown, 0, data, old(View()))
        case Done(m) => err == None && View() == m
        case Failed(e) => err == Some(e)
      ensures View() == StateAfter(MSG_REVOKE_LICENSES, discardUnknown, 0, data, old(View()))
    {
      hide Decode, StateAfter, Pending, Settled;
      ghost var c := PendingStart(MSG_REVOKE_LICENSES, discardUnknown, data, View());
      ghost var goal, left := c.goal, c.left;
      var cursor := 0;
      while cursor < |data|
        invariant cursor <= |data|
        invariant c == Loop(MSG_REVOKE_LICENSES, discardUnknown, data, cursor, View(), goal, left) && Pending(c)
        decreases |data| - cursor
      {
        var next;
        err, next := MergeRecord(data, cursor, discardUnknown, c);
        SettledCases(c, err, next, View());
        if err.Some? {
          return;
        }
        cursor := next;
        c := c.(pos := cursor, m := View());
      }
      assert cursor == |data|;
      PendingEnd(c);
      return None;
    }
  }
}
