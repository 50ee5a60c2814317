/**
  One field at a time: the branch of a generated decoder for each kind of
  field, and the stretch of a generated marshaller that writes it.
 */
module Fields {
  import opened Options
  import opened Words
  import opened Wire
  import opened Messages
  import opened Codec
  import opened Composition

  //
  // Decoding
  //

  /**
    A decoder's main loop at cursor `pos` with message `m`: `goal` is the
    outcome of the whole call and `left` the message it leaves.
   */
  datatype Loop =
    Loop(fs: Schema, discard: bool, data: Bytes, pos: nat, m: Message, goal: Outcome<Message>, left: Message)

  /** What the main loop keeps: decoding the rest gives what the call gives. */
  ghost predicate Pending(c: Loop) {
    && c.pos <= |c.data| && |c.m.values| == |c.fs|
    && Decode(c.fs, c.discard, c.pos, c.data[c.pos..], c.m) == c.goal
    && StateAfter(c.fs, c.discard, c.pos, c.data[c.pos..], c.m) == c.left
  }

  /** The tag of the next record has been read: field `num`, body at `at`. */
  ghost predicate AtRecord(c: Loop, at: nat, num: int, wireType: nat) {
    && Pending(c) && c.pos < |c.data| < TWO_63
    && ReadTag(c.data[c.pos..]).Ok?
    && at == c.pos + ReadTag(c.data[c.pos..]).used <= |c.data|
    && num == FieldNumber(ReadTag(c.data[c.pos..]).value)
    && wireType == ReadTag(c.data[c.pos..]).value % 8
  }

  /**
    The record at hand has been dealt with and the message is `m` now: the loop
    goes on at `next`, or the call fails with `err` and leaves `m`.
   */
  ghost predicate Settled(c: Loop, err: Option<Error>, next: nat, m: Message) {
    match err
    case Some(e) => c.goal == Failed(e) && c.left == m
    case None => c.pos < next <= |c.data| && Pending(c.(pos := next, m := m))
  }

  lemma PendingStart(fs: Schema, discard: bool, data: Bytes, m: Message) returns (c: Loop)
    requires |m.values| == |fs|
    ensures
      c == Loop(fs, discard, data, 0, m, Decode(fs, discard, 0, data, m), StateAfter(fs, discard, 0, data, m))
    ensures Pending(c)
  {
    c := Loop(fs, discard, data, 0, m, Decode(fs, discard, 0, data, m), StateAfter(fs, discard, 0, data, m));
    assert data[0..] == data;
  }

  lemma PendingEnd(c: Loop)
    requires Pending(c) && c.pos == |c.data|
    ensures c.goal == Done(c.m) && c.left == c.m
  {
    assert c.data[|c.data|..] == [];
  }

  lemma SettledCases(c: Loop, err: Option<Error>, next: nat, m: Message)
    requires Settled(c, err, next, m)
    ensures err.Some? ==> c.goal == Failed(err.value) && c.left == m
    ensures err.None? ==> c.pos < next <= |c.data| && Pending(c.(pos := next, m := m))
  {
    hide Pending;
  }

  method NextRecord(ghost c: Loop, data: Bytes, cursor: nat) returns (r: Scan<uint64>)
    requires Pending(c) && c.data == data && c.pos == cursor < |data| < TWO_63
    ensures r.Err? ==> Settled(c, Some(r.error), cursor, c.m)
    ensures r.Ok? ==> FieldNumber(r.value) >= 1
    ensures r.Ok? ==> AtRecord(c, cursor + r.used, FieldNumber(r.value), r.value % 8)
  {
    hide ReadTag, Decode, StateAfter;
    r := ReadWire(data, cursor);
    DecodeStep(c.fs, c.discard, c.pos, c.data[c.pos..], c.m);
    StateAfterStep(c.fs, c.discard, c.pos, c.data[c.pos..], c.m);
  }

  /** What `MergeField` makes of the record at hand. */
  function Merged(c: Loop, at: nat, num: nat, wireType: nat): Scan<Value>
    requires 1 <= num <= |c.fs| == |c.m.values| && at <= |c.data|
  {
    MergeField(c.fs[num - 1], c.m.values[num - 1], c.discard, wireType, at, c.data[at..])
  }

  /** The value the record at hand leaves in its field if it fails. */
  function Spoilt(c: Loop, at: nat, num: nat, wireType: nat): Value
    requires 1 <= num <= |c.fs| == |c.m.values| && at <= |c.data|
  {
    FieldAfterError(c.fs[num - 1], c.m.values[num - 1], c.discard, wireType, at, c.data[at..])
  }

  function ErrorOf<T>(r: Scan<T>): Option<Error> {
    match r
    case Err(e) => Some(e)
    case Ok(_, _) => None
  }

  /** One record of a known field moves the loop on, or fails it. */
  lemma Advance(c: Loop, at: nat, num: nat, wireType: nat, r: Scan<Value>, next: nat, v: Value)
    requires AtRecord(c, at, num, wireType) && 1 <= num <= |c.fs|
    requires r == Merged(c, at, num, wireType)
    requires v == if r.Ok? then r.value else Spoilt(c, at, num, wireType)
    requires r.Ok? ==> next == at + r.used
    ensures Settled(c, ErrorOf(r), next, With(c.m, num, v))
  {
    hide ReadTag, Decode, StateAfter, Step, MergeField, FieldAfterError, StateAfterError, FieldNumber;
    var s := c.data[c.pos..];
    var n := ReadTag(s).used;
    assert s[n..] == c.data[at..];
    StepOfField(c.fs, c.discard, c.pos, s, c.m);
    StateAfterField(c.fs, c.discard, c.pos, s, c.m);
    DecodeStep(c.fs, c.discard, c.pos, s, c.m);
    StateAfterStep(c.fs, c.discard, c.pos, s, c.m);
    if r.Ok? {
      assert s[n + r.used..] == c.data[next..];
    }
  }

  lemma AtRecordBounds(c: Loop, at: nat, num: int, wireType: nat)
    requires AtRecord(c, at, num, wireType)
    ensures at <= |c.data| < TWO_63 && |c.m.values| == |c.fs|
  {
  }

  /** The id is cleared and then accumulated in place. */
  method Uint64Field(ghost c: Loop, data: Bytes, at: nat, num: nat, wireType: nat, prior: uint64)
    returns (err: Option<Error>, u: uint64, next: nat)
    requires AtRecord(c, at, num, wireType) && c.data == data && 1 <= num <= |c.fs| && c.fs[num - 1] == Uint64
    requires num <= |c.m.values| && c.m.values[num - 1] == U64(prior)
    ensures Settled(c, err, next, With(c.m, num, U64(u)))
  {
    hide AtRecord, Settled, Decode, Varint64;
    AtRecordBounds(c, at, num, wireType);
    var r: Scan<uint64> := Err(WrongWireType);
    u, next := prior, at;
    if wireType == 0 {
      r, u := ReadWord(data, at);
    }
    err := ErrorOf(r);
    if r.Ok? {
      next := at + r.used;
    }
    Advance(c, at, num, wireType, match r case Err(e) => Err(e) case Ok(x, n) => Ok(U64(x), n), next, U64(u));
  }

  /** The status is cleared and then accumulated in an int32. */
  method EnumField(ghost c: Loop, data: Bytes, at: nat, num: nat, wireType: nat, prior: int32)
    returns (err: Option<Error>, i: int32, next: nat)
    requires AtRecord(c, at, num, wireType) && c.data == data && 1 <= num <= |c.fs| && c.fs[num - 1] == Enum
    requires num <= |c.m.values| && c.m.values[num - 1] == I32(prior)
    ensures Settled(c, err, next, With(c.m, num, I32(i)))
  {
    hide AtRecord, Settled, Decode, Varint, Pow2, Int32;
    AtRecordBounds(c, at, num, wireType);
    var r: Scan<nat> := Err(WrongWireType);
    i, next := prior, at;
    if wireType == 0 {
      var word;
      r, word := ReadVarint(data, at, 32);
      i := Int32(word);
      EnumWord(data[at..]);
    }
    err := ErrorOf(r);
    if r.Ok? {
      next := at + r.used;
    }
    Advance(c, at, num, wireType, match r case Err(e) => Err(e) case Ok(_, n) => Ok(I32(i), n), next, I32(i));
  }

  lemma Int32OfWord(w: nat)
    ensures Int32(w % TWO_32) == Int32(w)
  {
  }

  lemma EnumWord(s: Bytes)
    ensures Int32(VarintSoFar(s) % Pow2(32)) == Int32(VarintSoFar(s))
    ensures Varint(s).Ok? ==> Varint(s).value == VarintSoFar(s)
  {
    hide Pow2, Int32, Varint, VarintSoFar;
    Pow2Widths();
    Int32OfWord(VarintSoFar(s));
    if Varint(s).Ok? {
      VarintValue(s, 0);
    }
  }

  /** The bool is assigned once its varint is complete. */
  method BoolField(ghost c: Loop, data: Bytes, at: nat, num: nat, wireType: nat, prior: bool)
    returns (err: Option<Error>, b: bool, next: nat)
    requires AtRecord(c, at, num, wireType) && c.data == data && 1 <= num <= |c.fs| && c.fs[num - 1] == Bool
    requires num <= |c.m.values| && c.m.values[num - 1] == Flag(prior)
    ensures Settled(c, err, next, With(c.m, num, Flag(b)))
  {
    hide AtRecord, Settled, Decode, Varint64;
    AtRecordBounds(c, at, num, wireType);
    var r: Scan<uint64> := Err(WrongWireType);
    b, next := prior, at;
    if wireType == 0 {
      var word;
      r, word := ReadWord(data, at);
    }
    err := ErrorOf(r);
    if r.Ok? {
      b, next := r.value != 0, at + r.used;
    }
    Advance(c, at, num, wireType, match r case Err(e) => Err(e) case Ok(x, n) => Ok(Flag(x != 0), n), next, Flag(b));
  }

  ghost predicate IsDelimited(k: Kind) {
    k.Text? || k.TextList? || k.Nested? || k.NestedList?
  }

  /** A length-delimited body: a string, a list element or a nested message. */
  method Delimited(ghost c: Loop, data: Bytes, at: nat, num: nat, wireType: nat) returns (r: Scan<Bytes>)
    requires AtRecord(c, at, num, wireType) && c.data == data && 1 <= num <= |c.fs| && IsDelimited(c.fs[num - 1])
    ensures r.Err? ==> Settled(c, Some(r.error), at, c.m)
    ensures r.Ok? ==> wireType == 2 && Payload(at, data[at..]) == r
    ensures r.Ok? ==> at < at + r.used <= |data| && |r.value| < |data|
  {
    hide AtRecord, Settled, Decode, Payload;
    AtRecordBounds(c, at, num, wireType);
    if wireType != 2 {
      r := Err(WrongWireType);
    } else {
      r := ReadPayload(data, at);
    }
    if r.Err? {
      Advance(c, at, num, wireType, Err(r.error), at, c.m.values[num - 1]);
      assert With(c.m, num, c.m.values[num - 1]) == c.m;
    }
  }

  method TextField(ghost c: Loop, data: Bytes, at: nat, num: nat, wireType: nat, prior: Bytes)
    returns (err: Option<Error>, p: Bytes, next: nat)
    requires AtRecord(c, at, num, wireType) && c.data == data && 1 <= num <= |c.fs| && c.fs[num - 1] == Text
    requires num <= |c.m.values| && c.m.values[num - 1] == Str(prior)
    ensures Settled(c, err, next, With(c.m, num, Str(p)))
  {
    hide AtRecord, Settled, Decode, Payload;
    AtRecordBounds(c, at, num, wireType);
    var r := Delimited(c, data, at, num, wireType);
    if r.Err? {
      assert With(c.m, num, Str(prior)) == c.m;
      return Some(r.error), prior, at;
    }
    err, p, next := None, r.value, at + r.used;
    Advance(c, at, num, wireType, Ok(Str(p), r.used), next, Str(p));
  }

  method TextListField(ghost c: Loop, data: Bytes, at: nat, num: nat, wireType: nat, prior: seq<Bytes>)
    returns (err: Option<Error>, ps: seq<Bytes>, next: nat)
    requires AtRecord(c, at, num, wireType) && c.data == data && 1 <= num <= |c.fs| && c.fs[num - 1] == TextList
    requires num <= |c.m.values| && c.m.values[num - 1] == Strs(prior)
    ensures Settled(c, err, next, With(c.m, num, Strs(ps)))
  {
    hide AtRecord, Settled, Decode, Payload;
    AtRecordBounds(c, at, num, wireType);
    var r := Delimited(c, data, at, num, wireType);
    if r.Err? {
      assert With(c.m, num, Strs(prior)) == c.m;
      return Some(r.error), prior, at;
    }
    err, ps, next := None, prior + [r.value], at + r.used;
    Advance(c, at, num, wireType, Ok(Strs(ps), r.used), next, Strs(ps));
  }

  /** Single and packed ids are appended, those of a packed run before an error as well. */
  method Uint64ListField(ghost c: Loop, data: Bytes, at: nat, num: nat, wireType: nat, prior: seq<uint64>)
    returns (err: Option<Error>, us: seq<uint64>, next: nat)
    requires AtRecord(c, at, num, wireType) && c.data == data && 1 <= num <= |c.fs| && c.fs[num - 1] == Uint64List
    requires num <= |c.m.values| && c.m.values[num - 1] == U64s(prior)
    ensures Settled(c, err, next, With(c.m, num, U64s(us)))
  {
    hide AtRecord, Settled, Decode, PackedList, PackedListSoFar, Varint64;
    AtRecordBounds(c, at, num, wireType);
    var r: Scan<seq<uint64>> := Err(WrongWireType);
    us, next := prior, at;
    if wireType == 0 {
      var w, word := ReadWord(data, at);
      r := match w case Err(e) => Err(e) case Ok(u, n) => Ok([u], n);
      us := if w.Ok? then us + [word] else us;
    } else if wireType == 2 {
      var more;
      r, more := ReadPackedList(data, at);
      us := us + more;
    }
    err := ErrorOf(r);
    if r.Ok? {
      next := at + r.used;
    }
    Advance(c, at, num, wireType, match r case Err(e) => Err(e) case Ok(_, n) => Ok(U64s(us), n), next, U64s(us));
  }

  ghost function OutcomeError(out: Outcome<Message>): Option<Error> {
    match out
    case Failed(e) => Some(e)
    case Done(_) => None
  }

  /** A nested element has been decoded into a fresh message, which is appended however that went. */
  lemma AdvanceElement(c: Loop, at: nat, num: nat, gs: Schema, r: Scan<Bytes>)
    requires AtRecord(c, at, num, 2) && 1 <= num <= |c.fs| == |c.m.values| && c.fs[num - 1] == NestedList(gs)
    requires r.Ok? && Payload(at, c.data[at..]) == r
    ensures
      var x := StateAfter(gs, c.discard, 0, r.value, Empty(gs));
      Settled(c, OutcomeError(Decode(gs, c.discard, 0, r.value, Empty(gs))), at + r.used,
              With(c.m, num, Subs(SubsOf(c.m.values[num - 1]) + [x])))
  {
    hide AtRecord, Settled, Decode, StateAfter, Payload, Empty;
    AtRecordBounds(c, at, num, 2);
    var x := StateAfter(gs, c.discard, 0, r.value, Empty(gs));
    var v := Subs(SubsOf(c.m.values[num - 1]) + [x]);
    var out := Decode(gs, c.discard, 0, r.value, Empty(gs));
    if out.Done? {
      StateAfterSuccess(gs, c.discard, 0, r.value, Empty(gs));
    }
    Advance(c, at, num, 2, match out case Failed(e) => Err(e) case Done(_) => Ok(v, r.used), at + r.used, v);
  }

  /** A nested message has been decoded into the present one, or into a fresh one. */
  lemma AdvanceNested(c: Loop, at: nat, num: nat, gs: Schema, r: Scan<Bytes>)
    requires AtRecord(c, at, num, 2) && 1 <= num <= |c.fs| == |c.m.values| && c.fs[num - 1] == Nested(gs)
    requires r.Ok? && Payload(at, c.data[at..]) == r
    ensures
      var prior := SubOf(gs, c.m.values[num - 1]);
      Settled(c, OutcomeError(Decode(gs, c.discard, 0, r.value, prior)), at + r.used,
              With(c.m, num, Sub(Some(StateAfter(gs, c.discard, 0, r.value, prior)))))
  {
    hide AtRecord, Settled, Decode, StateAfter, Payload, Empty;
    AtRecordBounds(c, at, num, 2);
    var prior := SubOf(gs, c.m.values[num - 1]);
    var v := Sub(Some(StateAfter(gs, c.discard, 0, r.value, prior)));
    var out := Decode(gs, c.discard, 0, r.value, prior);
    if out.Done? {
      StateAfterSuccess(gs, c.discard, 0, r.value, prior);
    }
    Advance(c, at, num, 2, match out case Failed(e) => Err(e) case Done(_) => Ok(v, r.used), at + r.used, v);
  }

  method UnknownField(ghost c: Loop, data: Bytes, cursor: nat, discard: bool, unknown: Bytes,
                      ghost at: nat, ghost num: int, ghost wireType: nat)
    returns (err: Option<Error>, u: Bytes, next: nat)
    requires AtRecord(c, at, num, wireType) && c.data == data && c.pos == cursor && num > |c.fs|
    requires c.discard == discard && c.m.unknown == unknown
    ensures Settled(c, err, next, c.m.(unknown := u))
  {
    hide ReadTag, Decode, StateAfter, KeepUnknown, FieldNumber;
    var s := c.data[c.pos..];
    var r := ReadUnknown(data, cursor, discard, unknown);
    DecodeStep(c.fs, c.discard, c.pos, s, c.m);
    StateAfterStep(c.fs, c.discard, c.pos, s, c.m);
    if r.Err? {
      return Some(r.error), unknown, cursor;
    }
    err, u, next := None, r.value, cursor + r.used;
    assert s[r.used..] == data[next..];
  }

  //
  // Encoding
  //

  /** The buffer is filled from cursor `i` on with the fields after field `k` and the unknown bytes. */
  ghost predicate Filled(a: array<byte>, i: nat, m: Message, k: nat)
    reads a
  {
    && k <= |m.values| && i <= a.Length == |Encode(m)|
    && a[i..] == EncodeFields(m, k) + m.unknown
  }

  lemma FieldUnfold(m: Message, k: nat)
    requires k < |m.values|
    ensures EncodeFields(m, k) == EncodeValue(k + 1, m.values[k]) + EncodeFields(m, k + 1)
  {
  }

  lemma EncodedSize(m: Message)
    ensures |Encode(m)| == |EncodeFields(m, 0)| + |m.unknown|
    ensures |EncodeFields(m, |m.values|)| == 0
  {
  }

  lemma BytesRecordLength(num: nat, p: Bytes)
    requires num <= 15
    ensures |BytesRecord(num, p)| == 1 + |p| + Sov(|p|)
  {
    OneByteTag(num, 2);
  }

  function SizeText(num: nat, s: Bytes): (n: nat)
    requires num <= 15
    ensures n == |EncodeValue(num, Str(s))|
  {
    BytesRecordLength(num, s);
    if |s| > 0 then 1 + |s| + Sov(|s|) else 0
  }

  function SizeUint64(num: nat, u: uint64): (n: nat)
    requires num <= 15
    ensures n == |EncodeValue(num, U64(u))|
  {
    OneByteTag(num, 0);
    if u != 0 then 1 + Sov(u) else 0
  }

  function SizeEnum(num: nat, v: int32): (n: nat)
    requires num <= 15
    ensures n == |EncodeValue(num, I32(v))|
  {
    OneByteTag(num, 0);
    if v != 0 then 1 + Sov(SignExtend(v)) else 0
  }

  function SizeBool(num: nat, b: bool): (n: nat)
    requires num <= 15
    ensures n == |EncodeValue(num, Flag(b))|
  {
    OneByteTag(num, 0);
    if b then 2 else 0
  }

  method SizeTexts(num: nat, ss: seq<Bytes>) returns (n: nat)
    requires num <= 15
    ensures n == |EncodeValue(num, Strs(ss))|
  {
    hide BytesRecords, BytesRecord;
    n := 0;
    RecordsStart(num, ss);
    for k := 0 to |ss|
      invariant n + |BytesRecords(num, ss[k..])| == |BytesRecords(num, ss)|
    {
      RecordsUnfold(num, ss, k);
      BytesRecordLength(num, ss[k]);
      n := n + (1 + |ss[k]| + Sov(|ss[k]|));
    }
    assert ss[|ss|..] == [];
    RecordsNil(num);
  }

  //
  // Sizes of nested messages
  //

  /** The size of the elements of list field `num` from index `k` on. */
  ghost function ListSize(m: Message, num: nat, k: nat): nat
    requires 1 <= num <= |m.values| && m.values[num - 1].Subs? && k <= |m.values[num - 1].ms|
  {
    |BytesRecords(num, EncodeAll(m.values[num - 1].ms)[k..])|
  }

  lemma ListSizeStart(m: Message, num: nat)
    requires 1 <= num <= |m.values| && m.values[num - 1].Subs?
    ensures ListSize(m, num, 0) == |EncodeValue(num, m.values[num - 1])|
  {
    hide BytesRecords, EncodeAll;
    RecordsStart(num, EncodeAll(m.values[num - 1].ms));
  }

  lemma ListSizeStep(m: Message, num: nat, k: nat, l: nat)
    requires 1 <= num <= |m.values| && num <= 15 && m.values[num - 1].Subs? && k < |m.values[num - 1].ms|
    requires l == |Encode(m.values[num - 1].ms[k])|
    ensures ListSize(m, num, k) == (1 + l + Sov(l)) + ListSize(m, num, k + 1)
  {
    hide BytesRecords, BytesRecord, Encode;
    var ps := EncodeAll(m.values[num - 1].ms);
    RecordsUnfold(num, ps, k);
    BytesRecordLength(num, ps[k]);
  }

  lemma ListSizeEnd(m: Message, num: nat)
    requires 1 <= num <= |m.values| && m.values[num - 1].Subs?
    ensures ListSize(m, num, |m.values[num - 1].ms|) == 0
  {
    hide Encode;
    var ps := EncodeAll(m.values[num - 1].ms);
    assert ps[|ps|..] == [];
  }

  lemma NestedSize(m: Message, num: nat, child: Message, l: nat)
    requires 1 <= num <= |m.values| && num <= 15 && m.values[num - 1] == Sub(Some(child)) && l == |Encode(child)|
    ensures |EncodeValue(num, m.values[num - 1])| == 1 + l + Sov(l)
  {
    hide Encode;
    BytesRecordLength(num, Encode(child));
  }

  lemma AbsentSize(m: Message, num: nat)
    requires 1 <= num <= |m.values| && m.values[num - 1] == Sub(None)
    ensures |EncodeValue(num, m.values[num - 1])| == 0
  {
  }

  /** Each part of a message is smaller than the whole. */
  lemma NestedFits(m: Message, num: nat, child: Message)
    requires 1 <= num <= |m.values| && m.values[num - 1] == Sub(Some(child))
    ensures |Encode(child)| < |Encode(m)|
  {
    hide Encode, EncodeFields;
    EncodedSize(m);
    FieldUnfold(m, num - 1);
    FieldsFit(m, num - 1);
    PayloadShorter(num, Encode(child));
  }

  lemma ElementFits(m: Message, num: nat, k: nat)
    requires 1 <= num <= |m.values| && m.values[num - 1].Subs? && k < |m.values[num - 1].ms|
    ensures |Encode(m.values[num - 1].ms[k])| < |Encode(m)|
  {
    hide Encode, EncodeFields, BytesRecords, BytesRecord;
    EncodedSize(m);
    FieldUnfold(m, num - 1);
    FieldsFit(m, num - 1);
    var ps := EncodeAll(m.values[num - 1].ms);
    RecordsUnfold(num, ps, k);
    RecordsFit(num, ps, k);
    PayloadShorter(num, ps[k]);
  }

  method SizePacked(num: nat, us: seq<uint64>) returns (n: nat)
    requires num <= 15
    ensures n == |EncodeValue(num, U64s(us))|
  {
    n := 0;
    if |us| > 0 {
      var l := PackedSize(us);
      BytesRecordLength(num, Packed(us));
      n := 1 + Sov(l) + l;
    }
  }

  lemma RecordsStart(num: nat, ps: seq<Bytes>)
    ensures BytesRecords(num, ps[0..]) == BytesRecords(num, ps)
  {
    assert ps[0..] == ps;
  }

  /** There is room for every field still to be written. */
  lemma {:induction false} FieldsFit(m: Message, k: nat)
    requires k <= |m.values|
    ensures |EncodeFields(m, k)| <= |EncodeFields(m, 0)|
  {
    hide EncodeValue, EncodeFields;
    if k > 0 {
      FieldUnfold(m, k - 1);
      FieldsFit(m, k - 1);
    }
  }

  /**
    The marshaller ends with its cursor at 0, so the buffer it returns whole
    is the encoding and nothing else.
   */
  lemma FilledAll(a: array<byte>, i: nat, m: Message)
    requires Filled(a, i, m, 0)
    ensures i == 0 && a[..] == Encode(m)
  {
    hide EncodeFields;
  }

  /** The cursor moves back by the length of `p`, which is then copied there. */
  method PutBytes(a: array<byte>, off: nat, p: Bytes) returns (i: nat)
    requires |p| <= off <= a.Length
    modifies a
    ensures i == off - |p|
    ensures a[i..] == p + old(a[off..])
  {
    i := off - |p|;
    forall k | 0 <= k < |p| {
      a[i + k] := p[k];
    }
    assert a[off..] == old(a[off..]);
    assert a[i..off] == p;
    assert a[i..] == a[i..off] + a[off..];
  }

  method PutByte(a: array<byte>, off: nat, b: byte) returns (i: nat)
    requires 1 <= off <= a.Length
    modifies a
    ensures i == off - 1
    ensures a[i..] == [b] + old(a[off..])
  {
    i := off - 1;
    a[i] := b;
    assert a[off..] == old(a[off..]);
  }

  /** One round of the seven-bit loop: the low group of `num` is written after `before`. */
  lemma PutGroup(before: Bytes, num: nat)
    requires num >= 128
    ensures |VarintBytes(num)| == 1 + |VarintBytes(num / 128)|
    ensures before + VarintBytes(num) == before + [num % 128 + 128] + VarintBytes(num / 128)
  {
    var rest := VarintBytes(num / 128);
    assert VarintBytes(num) == [num % 128 + 128] + rest;
  }

  lemma PutLastGroup(before: Bytes, num: nat)
    requires num < 128
    ensures before + VarintBytes(num) == before + [num] && |VarintBytes(num)| == 1
  {
  }

  /** The seven-bit loop, moving forward from `start`. */
  method PutForward(a: array<byte>, start: nat, v: uint64) returns (end: nat)
    requires start + |VarintBytes(v)| <= a.Length
    modifies a
    ensures end == start + |VarintBytes(v)|
    ensures a[start..end] == VarintBytes(v)
    ensures a[..start] == old(a[..start]) && a[end..] == old(a[end..])
  {
    hide VarintBytes, Or;
    var j, num: nat := start, v;
    ghost var goal := start + |VarintBytes(v)|;
    while num >= 128
      invariant start <= j && j + |VarintBytes(num)| == goal <= a.Length
      invariant a[start..j] + VarintBytes(num) == VarintBytes(v)
      invariant a[..start] == old(a[..start]) && a[goal..] == old(a[goal..])
      decreases num
    {
      ghost var before := a[start..j];
      PutGroup(before, num);
      ContinuationByte(num);
      a[j] := Or(num % 128, 0x80);
      assert a[start..j + 1] == before + [a[j]];
      num := num / 128;
      j := j + 1;
    }
    ghost var before := a[start..j];
    PutLastGroup(before, num);
    a[j] := num;
    end := j + 1;
    assert a[start..end] == before + [num];
  }

  lemma ContinuationByte(num: nat)
    ensures Or(num % 128, 0x80) == num % 128 + 128
  {
    Pow2Widths();
    OrDisjoint(num % 128, 1, 7);
  }

  /** `runtime.EncodeVarint`: a varint that ends where the written part begins. */
  method PutVarint(a: array<byte>, off: nat, v: uint64) returns (i: nat)
    requires |VarintBytes(v)| <= off <= a.Length
    modifies a
    ensures i == off - |VarintBytes(v)|
    ensures a[i..] == VarintBytes(v) + old(a[off..])
  {
    i := off - Sov(v);
    var end := PutForward(a, i, v);
    assert a[i..] == a[i..end] + a[end..];
  }

  method PutLengthRecord(a: array<byte>, off: nat, num: nat, p: Bytes) returns (i: nat)
    requires 1 <= num <= 15 && |BytesRecord(num, p)| <= off <= a.Length && |p| < TWO_63
    modifies a
    ensures i == off - |BytesRecord(num, p)|
    ensures a[i..] == BytesRecord(num, p) + old(a[off..])
  {
    ghost var tail := a[off..];
    i := PutBytes(a, off, p);
    i := PutVarint(a, i, |p|);
    assert a[i..] == LengthPrefixed(p) + tail;
    i := PutByte(a, i, 8 * num + 2);
    assert Tag(num, 2) == [8 * num + 2];
    assert a[i..] == BytesRecord(num, p) + tail;
  }

  method PutVarintRecord(a: array<byte>, off: nat, num: nat, v: uint64) returns (i: nat)
    requires 1 <= num <= 15 && |VarintRecord(num, v)| <= off <= a.Length
    modifies a
    ensures i == off - |VarintRecord(num, v)|
    ensures a[i..] == VarintRecord(num, v) + old(a[off..])
  {
    ghost var tail := a[off..];
    i := PutVarint(a, off, v);
    i := PutByte(a, i, 8 * num);
    assert Tag(num, 0) == [8 * num];
    assert a[i..] == VarintRecord(num, v) + tail;
  }

  /** A message small enough for a Go slice, with room for tags of one byte. */
  ghost predicate Encodable(m: Message) {
    |m.values| <= 15 && |Encode(m)| < TWO_63
  }

  /** Field `k` of `m` fits before what is already written. */
  lemma Room(a: array<byte>, i: nat, m: Message, k: nat)
    requires 1 <= k && Filled(a, i, m, k)
    ensures |EncodeValue(k, m.values[k - 1])| <= i
    ensures |EncodeValue(k, m.values[k - 1])| <= |Encode(m)|
  {
    hide EncodeValue, EncodeFields;
    FieldUnfold(m, k - 1);
    FieldsFit(m, k - 1);
  }

  lemma FilledNext(a: array<byte>, off: nat, i: nat, m: Message, k: nat)
    requires 1 <= k <= |m.values| && i <= off <= a.Length == |Encode(m)|
    requires a[i..] == EncodeValue(k, m.values[k - 1]) + (EncodeFields(m, k) + m.unknown)
    ensures Filled(a, i, m, k - 1)
  {
    hide EncodeValue, EncodeFields, Encode;
    FieldUnfold(m, k - 1);
  }

  method PutUnknown(a: array<byte>, ghost m: Message, unknown: Bytes) returns (i: nat)
    requires a.Length == |Encode(m)| && unknown == m.unknown
    modifies a
    ensures Filled(a, i, m, |m.values|)
  {
    i := PutBytes(a, a.Length, unknown);
    assert a[a.Length..] == [];
  }

  method PutText(a: array<byte>, off: nat, ghost m: Message, num: nat, s: Bytes) returns (i: nat)
    requires Encodable(m) && Filled(a, off, m, num) && 1 <= num && m.values[num - 1] == Str(s)
    modifies a
    ensures Filled(a, i, m, num - 1)
  {
    hide EncodeFields, Encode, BytesRecord;
    Room(a, off, m, num);
    i := off;
    if |s| > 0 {
      PayloadShorter(num, s);
      i := PutLengthRecord(a, off, num, s);
    } else {
      assert a[i..] == [] + (EncodeFields(m, num) + m.unknown);
    }
    FilledNext(a, off, i, m, num);
  }

  lemma PayloadShorter(num: nat, p: Bytes)
    ensures |p| < |BytesRecord(num, p)|
  {
  }

  method PutUint64(a: array<byte>, off: nat, ghost m: Message, num: nat, u: uint64) returns (i: nat)
    requires Encodable(m) && Filled(a, off, m, num) && 1 <= num && m.values[num - 1] == U64(u)
    modifies a
    ensures Filled(a, i, m, num - 1)
  {
    hide EncodeFields, Encode, VarintRecord;
    Room(a, off, m, num);
    i := off;
    if u != 0 {
      i := PutVarintRecord(a, off, num, u);
    } else {
      assert a[i..] == [] + (EncodeFields(m, num) + m.unknown);
    }
    FilledNext(a, off, i, m, num);
  }

  method PutEnum(a: array<byte>, off: nat, ghost m: Message, num: nat, v: int32) returns (i: nat)
    requires Encodable(m) && Filled(a, off, m, num) && 1 <= num && m.values[num - 1] == I32(v)
    modifies a
    ensures Filled(a, i, m, num - 1)
  {
    hide EncodeFields, Encode, VarintRecord;
    Room(a, off, m, num);
    i := off;
    if v != 0 {
      i := PutVarintRecord(a, off, num, SignExtend(v));
    } else {
      assert a[i..] == [] + (EncodeFields(m, num) + m.unknown);
    }
    FilledNext(a, off, i, m, num);
  }

  /** A true bool is written as two bytes. */
  method PutBool(a: array<byte>, off: nat, ghost m: Message, num: nat, b: bool) returns (i: nat)
    requires Encodable(m) && Filled(a, off, m, num) && 1 <= num && m.values[num - 1] == Flag(b)
    modifies a
    ensures Filled(a, i, m, num - 1)
  {
    hide EncodeFields, Encode;
    Room(a, off, m, num);
    i := off;
    ghost var tail := a[off..];
    if b {
      assert VarintRecord(num, 1) == [8 * num, 1];
      i := PutByte(a, i, 1);
      i := PutByte(a, i, 8 * num);
      assert a[i..] == VarintRecord(num, 1) + tail;
    } else {
      assert a[i..] == [] + tail;
    }
    FilledNext(a, off, i, m, num);
  }

  lemma RecordsUnfold(num: nat, ps: seq<Bytes>, k: nat)
    requires k < |ps|
    ensures BytesRecords(num, ps[k..]) == BytesRecord(num, ps[k]) + BytesRecords(num, ps[k + 1..])
  {
    hide BytesRecord;
    assert ps[k..][1..] == ps[k + 1..];
  }

  lemma {:induction false} RecordsFit(num: nat, ps: seq<Bytes>, k: nat)
    requires k <= |ps|
    ensures |BytesRecords(num, ps[k..])| <= |BytesRecords(num, ps)|
  {
    hide BytesRecord, BytesRecords;
    assert ps[0..] == ps;
    if k > 0 {
      RecordsUnfold(num, ps, k - 1);
      RecordsFit(num, ps, k - 1);
    }
  }

  /** The payloads of the length-delimited records of a list. */
  function Payloads(v: Value): seq<Bytes> {
    match v
    case Strs(ss) => ss
    case Subs(ms) => EncodeAll(ms)
    case _ => []
  }

  /** The elements of list field `num` from index `k` on are written as well. */
  ghost predicate ListFilled(a: array<byte>, i: nat, m: Message, num: nat, k: nat)
    reads a
  {
    && 1 <= num <= |m.values| && (m.values[num - 1].Strs? || m.values[num - 1].Subs?)
    && k <= |Payloads(m.values[num - 1])|
    && a.Length == |Encode(m)|
    && i + |BytesRecords(num, Payloads(m.values[num - 1])[k..])| + |EncodeFields(m, num)| + |m.unknown| == a.Length
    && a[i..] == BytesRecords(num, Payloads(m.values[num - 1])[k..]) + (EncodeFields(m, num) + m.unknown)
  }

  lemma ListStart(a: array<byte>, i: nat, m: Message, num: nat)
    requires Filled(a, i, m, num) && 1 <= num && (m.values[num - 1].Strs? || m.values[num - 1].Subs?)
    ensures ListFilled(a, i, m, num, |Payloads(m.values[num - 1])|)
  {
    hide EncodeFields, Encode, BytesRecords, Payloads;
    RecordsNil(num);
    var ps := Payloads(m.values[num - 1]);
    assert ps[|ps|..] == [];
    assert [] + (EncodeFields(m, num) + m.unknown) == a[i..];
  }

  lemma ListEnd(a: array<byte>, i: nat, m: Message, num: nat)
    requires ListFilled(a, i, m, num, 0)
    ensures Filled(a, i, m, num - 1)
  {
    hide EncodeFields, Encode, BytesRecords, EncodeAll;
    var ps := Payloads(m.values[num - 1]);
    assert ps[0..] == ps;
    FilledNext(a, a.Length, i, m, num);
  }

  /** One round of the loop over a list, from the last element to the first. */
  method PutElement(a: array<byte>, off: nat, ghost m: Message, num: nat, ghost k: nat, p: Bytes) returns (i: nat)
    requires Encodable(m) && ListFilled(a, off, m, num, k + 1) && p == Payloads(m.values[num - 1])[k]
    modifies a
    ensures ListFilled(a, i, m, num, k)
  {
    hide EncodeFields, Encode, BytesRecord, BytesRecords, Payloads;
    ghost var ps, rest := Payloads(m.values[num - 1]), EncodeFields(m, num) + m.unknown;
    ListRoom(a, off, m, num, k);
    PayloadShorter(num, p);
    i := PutLengthRecord(a, off, num, p);
    RecordsUnfold(num, ps, k);
    assert BytesRecord(num, p) + (BytesRecords(num, ps[k + 1..]) + rest) == BytesRecords(num, ps[k..]) + rest;
  }

  lemma ListRoom(a: array<byte>, off: nat, m: Message, num: nat, k: nat)
    requires ListFilled(a, off, m, num, k + 1)
    ensures |BytesRecord(num, Payloads(m.values[num - 1])[k])| <= off
  {
    hide EncodeFields, BytesRecord, BytesRecords, EncodeAll;
    var ps := Payloads(m.values[num - 1]);
    RecordsUnfold(num, ps, k);
    RecordsFit(num, ps, k);
    FieldUnfold(m, num - 1);
    FieldsFit(m, num - 1);
  }

  method PutTexts(a: array<byte>, off: nat, ghost m: Message, num: nat, ss: seq<Bytes>) returns (i: nat)
    requires Encodable(m) && Filled(a, off, m, num) && 1 <= num && m.values[num - 1] == Strs(ss)
    modifies a
    ensures Filled(a, i, m, num - 1)
  {
    hide Filled, ListFilled;
    ListStart(a, off, m, num);
    i := off;
    var k := |ss|;
    while k > 0
      invariant 0 <= k <= |ss| && ListFilled(a, i, m, num, k)
    {
      k := k - 1;
      i := PutElement(a, i, m, num, k, ss[k]);
    }
    ListEnd(a, i, m, num);
  }

  method PutNested(a: array<byte>, off: nat, ghost m: Message, num: nat, ghost child: Message, p: Bytes)
    returns (i: nat)
    requires Encodable(m) && Filled(a, off, m, num) && 1 <= num && m.values[num - 1] == Sub(Some(child))
    requires p == Encode(child)
    modifies a
    ensures Filled(a, i, m, num - 1)
  {
    hide EncodeFields, Encode, BytesRecord;
    Room(a, off, m, num);
    PayloadShorter(num, p);
    i := PutLengthRecord(a, off, num, p);
    FilledNext(a, off, i, m, num);
  }

  lemma PutAbsent(a: array<byte>, i: nat, m: Message, num: nat)
    requires Filled(a, i, m, num) && 1 <= num && m.values[num - 1] == Sub(None)
    ensures Filled(a, i, m, num - 1)
  {
    hide EncodeFields, Encode;
    assert a[i..] == [] + (EncodeFields(m, num) + m.unknown);
    FilledNext(a, i, i, m, num);
  }

  lemma RecordsNil(num: nat)
    ensures BytesRecords(num, []) == []
  {
  }

  /** The packed list: its bytes forwards from a cursor set back by their total size. */
  method PutPacked(a: array<byte>, off: nat, ghost m: Message, num: nat, us: seq<uint64>) returns (i: nat)
    requires Encodable(m) && Filled(a, off, m, num) && 1 <= num && m.values[num - 1] == U64s(us)
    modifies a
    ensures Filled(a, i, m, num - 1)
  {
    hide EncodeFields, Encode, BytesRecord;
    Room(a, off, m, num);
    i := off;
    if |us| > 0 {
      PayloadShorter(num, Packed(us));
      i := PutPackedRecord(a, off, num, us);
    } else {
      assert a[i..] == [] + (EncodeFields(m, num) + m.unknown);
    }
    FilledNext(a, off, i, m, num);
  }

  method PutPackedRecord(a: array<byte>, off: nat, num: nat, us: seq<uint64>) returns (i: nat)
    requires 1 <= num <= 15 && |BytesRecord(num, Packed(us))| <= off <= a.Length && |Packed(us)| < TWO_63
    modifies a
    ensures i == off - |BytesRecord(num, Packed(us))|
    ensures a[i..] == BytesRecord(num, Packed(us)) + old(a[off..])
  {
    hide VarintBytes, Tag, Packed;
    ghost var tail := a[off..];
    OneByteTag(num, 2);
    var pksize := PackedSize(us);
    i := off - pksize;
    var j := PutRun(a, i, us);
    assert a[i..] == Packed(us) + tail by {
      assert a[i..] == a[i..j] + a[j..];
    }
    i := PutVarint(a, i, pksize);
    assert a[i..] == LengthPrefixed(Packed(us)) + tail;
    i := PutByte(a, i, 8 * num + 2);
    assert a[i..] == BytesRecord(num, Packed(us)) + tail;
  }

  lemma OneByteTag(num: nat, wireType: nat)
    requires num <= 15 && wireType < 8
    ensures Tag(num, wireType) == [8 * num + wireType]
  {
  }

  method PackedSize(us: seq<uint64>) returns (n: nat)
    ensures n == |Packed(us)|
  {
    n := 0;
    for k := 0 to |us|
      invariant n + |Packed(us[k..])| == |Packed(us)|
    {
      assert us[k..][1..] == us[k + 1..];
      n := n + Sov(us[k]);
    }
  }

  lemma PackedUnfold(before: Bytes, us: seq<uint64>, k: nat)
    requires k < |us|
    ensures |Packed(us[k..])| == |VarintBytes(us[k])| + |Packed(us[k + 1..])|
    ensures before + Packed(us[k..]) == before + VarintBytes(us[k]) + Packed(us[k + 1..])
  {
    hide VarintBytes;
    assert us[k..][1..] == us[k + 1..];
  }

  method PutRun(a: array<byte>, start: nat, us: seq<uint64>) returns (j: nat)
    requires start + |Packed(us)| <= a.Length
    modifies a
    ensures j == start + |Packed(us)|
    ensures a[start..j] == Packed(us) && a[j..] == old(a[j..])
  {
    j := start;
    ghost var goal := start + |Packed(us)|;
    for k := 0 to |us|
      invariant start <= j && j + |Packed(us[k..])| == goal
      invariant a[start..j] + Packed(us[k..]) == Packed(us)
      invariant a[goal..] == old(a[goal..])
    {
      hide VarintBytes, Packed;
      ghost var before := a[start..j];
      PackedUnfold(before, us, k);
      var end := PutForward(a, j, us[k]);
      assert a[start..end] == before + VarintBytes(us[k]);
      j := end;
    }
  }
}
