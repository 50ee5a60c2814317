/** The messages of the access module. */
module AccessMessages {
  import opened Options
  import opened Words
  import opened Wire
  import opened Messages
  import opened Fields

  const GRANT: Schema := [Text, Text, Text]

  const ACTION_SCOPES: Schema := [Text, TextList]

  /** A grant as it appears in genesis. */
  class Grant {
    var grantee: Bytes
    var action: Bytes
    var scope: Bytes
    var unknownFields: Bytes

    constructor ()
      ensures View() == Empty(GRANT)
    {
      grantee := [];
      action := [];
      scope := [];
      unknownFields := [];
    }

    function View(): (m: Message)
      reads this
      ensures |m.values| == 3
    {
      Message([Str(grantee), Str(action), Str(scope)], unknownFields)
    }

    method Size() returns (n: nat)
      ensures n == |Encode(View())|
    {
      hide EncodeValue, EncodeFields, Encode;
      ghost var m := View();
      EncodedSize(m);
      n := 0;
      FieldUnfold(m, 0);
      n := n + SizeText(1, grantee);
      FieldUnfold(m, 1);
      n := n + SizeText(2, action);
      FieldUnfold(m, 2);
      n := n + SizeText(3, scope);
      n := n + |unknownFields|;
    }

    method Marshal(buf: Bytes) returns (out: Bytes)
      requires |Encode(View())| < TWO_63
      ensures out == buf + Encode(View())
    {
      hide Encode, EncodeFields, EncodeValue;
      ghost var m := View();
      var size := Size();
      var buffer := new byte[size];
      var i := PutUnknown(buffer, m, unknownFields);
      i := PutText(buffer, i, m, 3, scope);
      i := PutText(buffer, i, m, 2, action);
      i := PutText(buffer, i, m, 1, grantee);
      FilledAll(buffer, i, m);
      return buf + buffer[..];
    }

    /** The switch over the field number of one record, at `cursor`. */
    method MergeRecord(data: Bytes, cursor: nat, discardUnknown: bool, ghost c: Loop)
      returns (err: Option<Error>, next: nat)
      requires c == Loop(GRANT, discardUnknown, data, cursor, View(), c.goal, c.left)
      requires Pending(c) && cursor < |data| < TWO_63
      modifies this
      ensures Settled(c, err, next, View())
    {
      hide Decode, StateAfter, Pending, Settled, AtRecord, FieldNumber;
      var tag := NextRecord(c, data, cursor);
      if tag.Err? {
        return Some(tag.error), cursor;
      }
      var fieldNum, wireType, at := FieldNumber(tag.value), tag.value % 8, cursor + tag.used;
      if fieldNum == 1 {
        err, grantee, next := TextField(c, data, at, 1, wireType, grantee);
        assert With(c.m, 1, Str(grantee)) == View();
      } else if fieldNum == 2 {
        err, action, next := TextField(c, data, at, 2, wireType, action);
        assert With(c.m, 2, Str(action)) == View();
      } else if fieldNum == 3 {
        err, scope, next := TextField(c, data, at, 3, wireType, scope);
        assert With(c.m, 3, Str(scope)) == View();
      } else {
        err, unknownFields, next :=
          UnknownField(c, data, cursor, discardUnknown, unknownFields, at, fieldNum, wireType);
      }
    }

    /** On an error the message keeps what was decoded until then. */
    method Unmarshal(data: Bytes, discardUnknown: bool) returns (err: Option<Error>)
      requires |data| < TWO_63
      modifies this
      ensures
        match Decode(GRANT, discardUnknown, 0, data, old(View()))
        case Done(m) => err == None && View() == m
        case Failed(e) => err == Some(e)
      ensures View() == StateAfter(GRANT, discardUnknown, 0, data, old(View()))
    {
      hide Decode, StateAfter, Pending, Settled;
      ghost var c := PendingStart(GRANT, discardUnknown, data, View());
      ghost var goal, left := c.goal, c.left;
      var cursor := 0;
      while cursor < |data|
        invariant cursor <= |data|
        invariant c == Loop(GRANT, discardUnknown, data, cursor, View(), goal, left) && Pending(c)
        decreases |data| - cursor
      {
        var next;
        err, next := MergeRecord(data, cursor, discardUnknown, c);
        SettledCases(c, err, next, View());
        if err.Some? {
          return;
        }
        cursor := next;
        c := c.(pos := cursor, m := View());
      }
      assert cursor == |data|;
      PendingEnd(c);
      return None;
    }
  }

  /** An action with a list of scopes. */
  class ActionScopes {
    var action: Bytes
    var scopes: seq<Bytes>
    var unknownFields: Bytes

    constructor ()
      ensures View() == Empty(ACTION_SCOPES)
    {
      action := [];
      scopes := [];
      unknownFields := [];
    }

    function View(): (m: Message)
      reads this
      ensures |m.values| == 2
    {
      Message([Str(action), Strs(scopes)], unknownFields)
    }

    method Size() returns (n: nat)
      ensures n == |Encode(View())|
    {
      hide EncodeValue, EncodeFields, Encode;
      ghost var m := View();
      EncodedSize(m);
      n := 0;
      FieldUnfold(m, 0);
      n := n + SizeText(1, action);
      FieldUnfold(m, 1);
      var l2 := SizeTexts(2, scopes);
      n := n + l2;
      n := n + |unknownFields|;
    }

    method Marshal(buf: Bytes) returns (out: Bytes)
      requires |Encode(View())| < TWO_63
      ensures out == buf + Encode(View())
    {
      hide Encode, EncodeFields, EncodeValue;
      ghost var m := View();
      var size := Size();
      var buffer := new byte[size];
      var i := PutUnknown(buffer, m, unknownFields);
      i := PutTexts(buffer, i, m, 2, scopes);
      i := PutText(buffer, i, m, 1, action);
      FilledAll(buffer, i, m);
      return buf + buffer[..];
    }

    /** The switch over the field number of one record, at `cursor`. */
    method MergeRecord(data: Bytes, cursor: nat, discardUnknown: bool, ghost c: Loop)
      returns (err: Option<Error>, next: nat)
      requires c == Loop(ACTION_SCOPES, discardUnknown, data, cursor, View(), c.goal, c.left)
      requires Pending(c) && cursor < |data| < TWO_63
      modifies this
      ensures Settled(c, err, next, View())
    {
      hide Decode, StateAfter, Pending, Settled, AtRecord, FieldNumber;
      var tag := NextRecord(c, data, cursor);
      if tag.Err? {
        return Some(tag.error), cursor;
      }
      var fieldNum, wireType, at := FieldNumber(tag.value), tag.value % 8, cursor + tag.used;
      if fieldNum == 1 {
        err, action, next := TextField(c, data, at, 1, wireType, action);
        assert With(c.m, 1, Str(action)) == View();
      } else if fieldNum == 2 {
        err, scopes, next := TextListField(c, data, at, 2, wireType, scopes);
        assert With(c.m, 2, Strs(scopes)) == View();
      } else {
        err, unknownFields, next :=
          UnknownField(c, data, cursor, discardUnknown, unknownFields, at, fieldNum, wireType);
      }
    }

    /** On an error the message keeps what was decoded until then. */
    method Unmarshal(data: Bytes, discardUnknown: bool) returns (err: Option<Error>)
      requires |data| < TWO_63
      modifies this
      ensures
        match Decode(ACTION_SCOPES, discardUnknown, 0, data, old(View()))
        case Done(m) => err == None && View() == m
        case Failed(e) => err == Some(e)
      ensures View() == StateAfter(ACTION_SCOPES, discardUnknown, 0, data, old(View()))
    {
      hide Decode, StateAfter, Pending, Settled;
      ghost var c := PendingStart(ACTION_SCOPES, discardUnknown, data, View());
      ghost var goal, left := c.goal, c.left;
      var cursor := 0;
      while cursor < |data|
        invariant cursor <= |data|
        invariant c == Loop(ACTION_SCOPES, discardUnknown, data, cursor, View(), goal, left) && Pending(c)
        decreases |data| - cursor
      {
        var next;
        err, next := MergeRecord(data, cursor, discardUnknown, c);
        SettledCases(c, err, next, View());
        if err.Some? {
          return;
        }
        cursor := next;
        c := c.(pos := cursor, m := View());
      }
      assert cursor == |data|;
      PendingEnd(c);
      return None;
    }
  }
}
