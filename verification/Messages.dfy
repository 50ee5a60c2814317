/**
  What the generated size, marshal and unmarshal routines of every message
  compute, written once over message schemas.

  Every modelled message numbers its fields 1, 2, ..., so a schema is the
  sequence of its field kinds and field `n` is at index `n - 1`.
 */
module Messages {
  import opened Options
  import opened Words
  import opened Wire

  datatype Kind =
    | Uint64
    | Enum
    | Bool
    | Text
    | TextList
    | Uint64List
    | Nested(fields: Schema)
    | NestedList(fields: Schema)

  type Schema = seq<Kind>

  /** A field value.  Strings are byte strings: the codec never decodes them. */
  datatype Value =
    | U64(u: uint64)
    | I32(i: int32)
    | Flag(b: bool)
    | Str(s: Bytes)
    | Strs(ss: seq<Bytes>)
    | U64s(us: seq<uint64>)
    | Sub(m: Option<Message>)
    | Subs(ms: seq<Message>)

  datatype Message = Message(values: seq<Value>, unknown: Bytes)

  datatype Outcome<+T> = Done(result: T) | Failed(error: Error)

  /** The value an absent field has. */
  function Default(k: Kind): Value {
    match k
    case Uint64 => U64(0)
    case Enum => I32(0)
    case Bool => Flag(false)
    case Text => Str([])
    case TextList => Strs([])
    case Uint64List => U64s([])
    case Nested(_) => Sub(None)
    case NestedList(_) => Subs([])
  }

  function Empty(fs: Schema): Message {
    Message(seq(|fs|, i requires 0 <= i < |fs| => Default(fs[i])), [])
  }

  /** `m` with field `num` set to `v`. */
  function With(m: Message, num: nat, v: Value): Message
    requires 1 <= num <= |m.values|
  {
    m.(values := m.values[num - 1 := v])
  }

  //
  // Encoding
  //

  function Tag(num: nat, wireType: nat): Bytes {
    VarintBytes(8 * num + wireType)
  }

  function VarintRecord(num: nat, v: nat): Bytes {
    Tag(num, 0) + VarintBytes(v)
  }

  function BytesRecord(num: nat, p: Bytes): Bytes {
    Tag(num, 2) + LengthPrefixed(p)
  }

  function BytesRecords(num: nat, ps: seq<Bytes>): Bytes {
    if ps == [] then [] else BytesRecord(num, ps[0]) + BytesRecords(num, ps[1..])
  }

  function Packed(us: seq<nat>): Bytes {
    if us == [] then [] else VarintBytes(us[0]) + Packed(us[1..])
  }

  /**
    The wire form of a message: its present fields in field order, then the
    unknown records it carries.
   */
  function Encode(m: Message): Bytes
    decreases m, 0
  {
    EncodeFields(m, 0) + m.unknown
  }

  /** The fields from index `i` on. */
  function EncodeFields(m: Message, i: nat): Bytes
    requires i <= |m.values|
    decreases m, 0, |m.values| - i
  {
    if i == |m.values| then []
    else EncodeValue(i + 1, m.values[i]) + EncodeFields(m, i + 1)
  }

  function EncodeValue(num: nat, v: Value): Bytes
    decreases v, 1
  {
    match v
    case U64(u) => if u != 0 then VarintRecord(num, u) else []
    case I32(i) => if i != 0 then VarintRecord(num, SignExtend(i)) else []
    case Flag(b) => if b then VarintRecord(num, 1) else []
    case Str(s) => if |s| > 0 then BytesRecord(num, s) else []
    case Strs(ss) => BytesRecords(num, ss)
    case U64s(us) => if |us| > 0 then BytesRecord(num, Packed(us)) else []
    case Sub(m) => if m.Some? then BytesRecord(num, Encode(m.value)) else []
    case Subs(ms) => BytesRecords(num, EncodeAll(ms))
  }

  function EncodeAll(ms: seq<Message>): (ps: seq<Bytes>)
    ensures |ps| == |ms|
    decreases ms, 0
  {
    seq(|ms|, i requires 0 <= i < |ms| => Encode(ms[i]))
  }

  //
  // Decoding
  //

  /**
    The values of a packed payload of `need` bytes that starts at the front of
    `s`.  A value that starts before the end of the payload is read to its own
    end, even beyond the payload.
   */
  function ReadPacked(s: Bytes, need: nat): (r: Scan<seq<uint64>>)
    ensures r.Ok? ==> need <= r.used && r.used <= if need == 0 then 0 else |s|
    decreases |s|
  {
    if need == 0 then Ok([], 0)
    else
      match Varint64(s)
      case Err(e) => Err(e)
      case Ok(v, n) =>
        match ReadPacked(s[n..], if n < need then need - n else 0)
        case Err(e) => Err(e)
        case Ok(vs, k) => Ok([v] + vs, n + k)
  }

  /** A packed list at cursor `pos`: a checked length, then the values. */
  function PackedList(pos: nat, s: Bytes): (r: Scan<seq<uint64>>)
    ensures r.Ok? ==> 1 <= r.used <= |s|
  {
    match Payload(pos, s)
    case Err(e) => Err(e)
    case Ok(p, n) =>
      match ReadPacked(s[n - |p|..], |p|)
      case Err(e) => Err(e)
      case Ok(vs, k) => Ok(vs, n - |p| + k)
  }

  function StrsOf(v: Value): seq<Bytes> {
    if v.Strs? then v.ss else []
  }

  function U64sOf(v: Value): seq<uint64> {
    if v.U64s? then v.us else []
  }

  function SubOf(fs: Schema, v: Value): Message {
    if v.Sub? && v.m.Some? then v.m.value else Empty(fs)
  }

  function SubsOf(v: Value): seq<Message> {
    if v.Subs? then v.ms else []
  }

  /**
    The body of one record of a known field, merged into the value `v` that
    the field has so far.  A value of another kind, which no message of the
    schema holds, counts as absent.
   */
  function MergeField(k: Kind, v: Value, discard: bool, wireType: nat, pos: nat, s: Bytes): (r: Scan<Value>)
    ensures r.Ok? ==> 1 <= r.used <= |s|
    decreases |s|, 0
  {
    match k
    case Uint64 =>
      if wireType != 0 then Err(WrongWireType) else
      (match Varint64(s) case Err(e) => Err(e) case Ok(u, n) => Ok(U64(u), n))
    case Enum =>
      if wireType != 0 then Err(WrongWireType) else
      (match Varint(s) case Err(e) => Err(e) case Ok(u, n) => Ok(I32(Int32(u)), n))
    case Bool =>
      if wireType != 0 then Err(WrongWireType) else
      (match Varint64(s) case Err(e) => Err(e) case Ok(u, n) => Ok(Flag(u != 0), n))
    case Text =>
      if wireType != 2 then Err(WrongWireType) else
      (match Payload(pos, s) case Err(e) => Err(e) case Ok(p, n) => Ok(Str(p), n))
    case TextList =>
      if wireType != 2 then Err(WrongWireType) else
      (match Payload(pos, s) case Err(e) => Err(e) case Ok(p, n) => Ok(Strs(StrsOf(v) + [p]), n))
    case Uint64List =>
      if wireType == 0 then
        (match Varint64(s) case Err(e) => Err(e) case Ok(u, n) => Ok(U64s(U64sOf(v) + [u]), n))
      else if wireType == 2 then
        (match PackedList(pos, s) case Err(e) => Err(e) case Ok(us, n) => Ok(U64s(U64sOf(v) + us), n))
      else Err(WrongWireType)
    case Nested(fs) =>
      if wireType != 2 then Err(WrongWireType) else
      (match Payload(pos, s)
       case Err(e) => Err(e)
       case Ok(p, n) =>
         match Decode(fs, discard, 0, p, SubOf(fs, v))
         case Failed(e) => Err(e)
         case Done(m) => Ok(Sub(Some(m)), n))
    case NestedList(fs) =>
      if wireType != 2 then Err(WrongWireType) else
      (match Payload(pos, s)
       case Err(e) => Err(e)
       case Ok(p, n) =>
         match Decode(fs, discard, 0, p, Empty(fs))
         case Failed(e) => Err(e)
         case Done(m) => Ok(Subs(SubsOf(v) + [m]), n))
  }

  /** A record of a field the schema does not have is kept as it stands. */
  function KeepUnknown(discard: bool, pos: nat, s: Bytes, unknown: Bytes): (r: Scan<Bytes>)
    ensures r.Ok? ==> 1 <= r.used <= |s|
  {
    match Skip(s)
    case Err(e) => Err(e)
    case Ok(_, n) =>
      if pos + n >= TWO_63 then Err(InvalidLength)
      else if n > |s| then Err(UnexpectedEOF)
      else Ok(if discard then unknown else unknown + s[..n], n)
  }

  /** `int32(wire >> 3)`: field numbers are truncated to 32 bits. */
  function FieldNumber(wire: uint64): int32 {
    Int32(wire / 8)
  }

  /** Any tag but one of a group end or of a field number that is not a positive int32. */
  function ReadTag(s: Bytes): (r: Scan<uint64>)
    ensures r.Ok? ==> r == Varint64(s) && 1 <= r.used <= |s|
    ensures r.Ok? <==> Varint64(s).Ok? && Varint64(s).value % 8 != 4 && 1 <= Varint64(s).value / 8 % TWO_32 < TWO_31
    ensures r.Ok? ==> FieldNumber(r.value) == r.value / 8 % TWO_32
  {
    match Varint64(s)
    case Err(e) => Err(e)
    case Ok(wire, n) =>
      if wire % 8 == 4 then Err(EndGroup)
      else if FieldNumber(wire) <= 0 then Err(IllegalTag)
      else Ok(wire, n)
  }

  /** One record at cursor `pos`, merged into `m`. */
  function Step(fs: Schema, discard: bool, pos: nat, s: Bytes, m: Message): (r: Scan<Message>)
    ensures r.Ok? ==> 1 <= r.used <= |s|
    decreases |s|, 1
  {
    match ReadTag(s)
    case Err(e) => Err(e)
    case Ok(wire, n) =>
      var num := FieldNumber(wire);
      if num <= |fs| && num <= |m.values| then
        match MergeField(fs[num - 1], m.values[num - 1], discard, wire % 8, pos + n, s[n..])
        case Err(e) => Err(e)
        case Ok(v, k) => Ok(With(m, num, v), n + k)
      else
        match KeepUnknown(discard, pos, s, m.unknown)
        case Err(e) => Err(e)
        case Ok(u, k) => Ok(m.(unknown := u), k)
  }

  /** Everything from cursor `pos` on, merged into `m`. */
  function Decode(fs: Schema, discard: bool, pos: nat, s: Bytes, m: Message): Outcome<Message>
    decreases |s|, 2
  {
    if s == [] then Done(m)
    else
      match Step(fs, discard, pos, s, m)
      case Err(e) => Failed(e)
      case Ok(m', n) => Decode(fs, discard, pos + n, s[n..], m')
  }

  //
  // What a call leaves in the message it decodes into
  //

  /** The values a packed loop appends, whether or not it reaches the end of the payload. */
  function PackedSoFar(s: Bytes, need: nat): seq<uint64>
    decreases |s|
  {
    if need == 0 then []
    else
      match Varint64(s)
      case Err(_) => []
      case Ok(v, n) => [v] + PackedSoFar(s[n..], if n < need then need - n else 0)
  }

  /** The values a packed record appends, none if its length is not accepted. */
  function PackedListSoFar(pos: nat, s: Bytes): seq<uint64> {
    match Payload(pos, s)
    case Err(_) => []
    case Ok(p, n) => PackedSoFar(s[n - |p|..], |p|)
  }

  /**
    The value a field is left with by a record that fails in it.  A uint64 or
    an enum holds the bits of an incomplete varint, a packed list the values
    before the error, and a nested message what its own decoding left.
   */
  function FieldAfterError(k: Kind, v: Value, discard: bool, wireType: nat, pos: nat, s: Bytes): Value
    decreases |s|, 0
  {
    if k.Uint64? && wireType == 0 then U64(VarintSoFar(s) % TWO_64)
    else if k.Enum? && wireType == 0 then I32(Int32(VarintSoFar(s)))
    else if k.Uint64List? && wireType == 2 then U64s(U64sOf(v) + PackedListSoFar(pos, s))
    else if (k.Nested? || k.NestedList?) && wireType == 2 then
      match Payload(pos, s)
      case Err(_) => v
      case Ok(p, _) =>
        if k.Nested? then Sub(Some(StateAfter(k.fields, discard, 0, p, SubOf(k.fields, v))))
        else Subs(SubsOf(v) + [StateAfter(k.fields, discard, 0, p, Empty(k.fields))])
    else v
  }

  /** The message after a record at cursor `pos` that is not accepted. */
  function StateAfterError(fs: Schema, discard: bool, pos: nat, s: Bytes, m: Message): Message
    decreases |s|, 1
  {
    match ReadTag(s)
    case Err(_) => m
    case Ok(wire, n) =>
      var num := FieldNumber(wire);
      if num <= |fs| && num <= |m.values| then
        With(m, num, FieldAfterError(fs[num - 1], m.values[num - 1], discard, wire % 8, pos + n, s[n..]))
      else m
  }

  /** The message after a call of the decoder, whether or not it succeeds. */
  function StateAfter(fs: Schema, discard: bool, pos: nat, s: Bytes, m: Message): Message
    decreases |s|, 2
  {
    if s == [] then m
    else
      match Step(fs, discard, pos, s, m)
      case Err(_) => StateAfterError(fs, discard, pos, s, m)
      case Ok(m', n) => StateAfter(fs, discard, pos + n, s[n..], m')
  }

  //
  // One-step unfoldings of the mutually recursive definitions above
  //

  lemma StepOfField(fs: Schema, discard: bool, pos: nat, s: Bytes, m: Message)
    requires ReadTag(s).Ok? && FieldNumber(ReadTag(s).value) <= |fs| && FieldNumber(ReadTag(s).value) <= |m.values|
    ensures
      var Ok(wire, n) := ReadTag(s);
      var i := FieldNumber(wire) - 1;
      Step(fs, discard, pos, s, m) ==
      match MergeField(fs[i], m.values[i], discard, wire % 8, pos + n, s[n..])
      case Err(e) => Err(e)
      case Ok(v, k) => Ok(With(m, i + 1, v), n + k)
  {
  }

  lemma DecodeNil(fs: Schema, discard: bool, pos: nat, m: Message)
    ensures Decode(fs, discard, pos, [], m) == Done(m)
  {
  }

  lemma DecodeStep(fs: Schema, discard: bool, pos: nat, s: Bytes, m: Message)
    requires s != []
    ensures
      Decode(fs, discard, pos, s, m) ==
      match Step(fs, discard, pos, s, m)
      case Err(e) => Failed(e)
      case Ok(m', n) => Decode(fs, discard, pos + n, s[n..], m')
  {
    hide Step;
  }

  lemma StateAfterStep(fs: Schema, discard: bool, pos: nat, s: Bytes, m: Message)
    requires s != []
    ensures
      StateAfter(fs, discard, pos, s, m) ==
      match Step(fs, discard, pos, s, m)
      case Err(_) => StateAfterError(fs, discard, pos, s, m)
      case Ok(m', n) => StateAfter(fs, discard, pos + n, s[n..], m')
  {
    hide Step;
  }

  lemma StateAfterField(fs: Schema, discard: bool, pos: nat, s: Bytes, m: Message)
    requires ReadTag(s).Ok? && FieldNumber(ReadTag(s).value) <= |fs| && FieldNumber(ReadTag(s).value) <= |m.values|
    ensures
      var Ok(wire, n) := ReadTag(s);
      var i := FieldNumber(wire) - 1;
      StateAfterError(fs, discard, pos, s, m) ==
      With(m, i + 1, FieldAfterError(fs[i], m.values[i], discard, wire % 8, pos + n, s[n..]))
  {
    hide FieldAfterError;
  }
}
