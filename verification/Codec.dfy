/**
  The loops and buffer writes that the generated code expands in every message
  routine, each proved against the wire format.  Decoding moves a cursor over
  the input; encoding fills a buffer of the computed size from its end.
 */
module Codec {
  import opened Words
  import opened Wire
  import opened Messages

  //
  // Reading
  //

  /** A varint as a word of `bits` bits. */
  function VarintWord(s: Bytes, bits: nat): (r: Scan<nat>)
    ensures r.Ok? ==> 1 <= r.used <= |s|
  {
    match Varint(s)
    case Err(e) => Err(e)
    case Ok(v, n) => Ok(v % Pow2(bits), n)
  }

  /** The value of a varint whose first `k` bytes hold `raw`, the rest being at `s`. */
  ghost function Resume(s: Bytes, k: nat, raw: nat): Scan<nat> {
    match Varint(s, k)
    case Err(e) => Err(e)
    case Ok(v, n) => Ok(raw + v * Pow2(7 * k), n + k)
  }

  /** The same for the groups accumulated so far. */
  ghost function ResumeSoFar(s: Bytes, k: nat, raw: nat): nat {
    raw + VarintSoFar(s, k) * Pow2(7 * k)
  }

  lemma ResumeSoFarStep(s: Bytes, k: nat, raw: nat)
    requires s != [] && k < MAX_VARINT
    ensures s[0] >= 128 ==> ResumeSoFar(s, k, raw) == ResumeSoFar(s[1..], k + 1, raw + (s[0] % 128) * Pow2(7 * k))
    ensures s[0] < 128 ==> ResumeSoFar(s, k, raw) == raw + (s[0] % 128) * Pow2(7 * k)
  {
    hide Pow2;
    if s[0] >= 128 {
      GroupSplit(s[0] - 128, VarintSoFar(s[1..], k + 1), k);
    }
  }

  lemma VarintUnfold(s: Bytes, k: nat)
    requires s != [] && k < MAX_VARINT
    ensures s[0] < 128 ==> Varint(s, k) == Ok(s[0] % 128, 1)
    ensures s[0] >= 128 ==>
      Varint(s, k) ==
      match Varint(s[1..], k + 1)
      case Err(e) => Err(e)
      case Ok(v, n) => Ok(s[0] % 128 + 128 * v, n + 1)
  {
  }

  lemma ResumeStep(s: Bytes, k: nat, raw: nat)
    requires s != [] && k < MAX_VARINT
    ensures s[0] >= 128 ==> Resume(s, k, raw) == Resume(s[1..], k + 1, raw + (s[0] % 128) * Pow2(7 * k))
    ensures s[0] < 128 ==> Resume(s, k, raw) == Ok(raw + (s[0] % 128) * Pow2(7 * k), k + 1)
  {
    hide Pow2, Varint;
    VarintUnfold(s, k);
    if s[0] >= 128 && Varint(s[1..], k + 1).Ok? {
      GroupSplit(s[0] % 128, Varint(s[1..], k + 1).value, k);
    }
  }

  lemma GroupSplit(low: nat, high: nat, k: nat)
    ensures (low + 128 * high) * Pow2(7 * k) == low * Pow2(7 * k) + high * Pow2(7 * (k + 1))
  {
    var p := Pow2(7 * k);
    Pow2Widths();
    Pow2Sum(7, 7 * k);
    MulSplit(low, 128 * high, p);
    MulRegroup(high, 128, p);
  }

  lemma RawBound(raw: nat, b: byte, k: nat)
    requires raw < Pow2(7 * k)
    ensures raw + (b % 128) * Pow2(7 * k) < Pow2(7 * (k + 1))
  {
    Pow2Widths();
    Pow2Sum(7, 7 * k);
    MulBound(b % 128, 128, Pow2(7 * k));
  }

  /**
    The inlined varint loop, accumulating with `|=` into a word of `bits` bits:
    64 for tags, lengths and uint64 fields, 32 for the int32 status.  On an error
    the word holds the groups read until then.
   */
  method ReadVarint(data: Bytes, start: nat, bits: nat) returns (r: Scan<nat>, word: nat)
    requires start <= |data|
    ensures r == VarintWord(data[start..], bits)
    ensures word == VarintSoFar(data[start..]) % Pow2(bits)
  {
    hide Pow2, Or, Varint, VarintSoFar, Resume, ResumeSoFar;
    ResumeStart(data[start..]);
    word := 0;
    var shift: nat, i: nat := 0, start;
    ghost var raw: nat, k: nat := 0, 0;
    ModZero(bits);
    while true
      invariant start <= i <= |data| && k == i - start <= MAX_VARINT && shift == 7 * k
      invariant raw < Pow2(7 * k) && word == raw % Pow2(bits)
      invariant Resume(data[i..], k, raw) == Varint(data[start..])
      invariant ResumeSoFar(data[i..], k, raw) == VarintSoFar(data[start..])
      decreases |data| - i
    {
      ResumeStuck(data[i..], k, raw);
      if shift >= 64 {
        return Err(IntOverflow), word;
      }
      if i >= |data| {
        return Err(UnexpectedEOF), word;
      }
      var b := data[i];
      ResumeStep(data[i..], k, raw);
      ResumeSoFarStep(data[i..], k, raw);
      assert data[i..] != [];
      assert data[i..][1..] == data[i + 1..];
      i := i + 1;
      OrNarrow(raw, b % 128, shift, bits);
      word := Or(word, ((b % 128) * Pow2(shift)) % Pow2(bits));
      RawBound(raw, b, k);
      raw := raw + (b % 128) * Pow2(7 * k);
      k := k + 1;
      if b < 128 {
        return Ok(word, i - start), word;
      }
      shift := shift + 7;
    }
  }

  lemma ResumeStart(s: Bytes)
    ensures Resume(s, 0, 0) == Varint(s) && ResumeSoFar(s, 0, 0) == VarintSoFar(s) && Pow2(7 * 0) == 1
  {
    assert Pow2(7 * 0) == 1;
  }

  lemma ResumeStuck(s: Bytes, k: nat, raw: nat)
    ensures k >= MAX_VARINT ==> Resume(s, k, raw) == Err(IntOverflow) && ResumeSoFar(s, k, raw) == raw
    ensures k < MAX_VARINT && s == [] ==> Resume(s, k, raw) == Err(UnexpectedEOF) && ResumeSoFar(s, k, raw) == raw
  {
  }

  lemma ModZero(bits: nat)
    ensures 0 % Pow2(bits) == 0
  {
    ModUnique(0, Pow2(bits), 0, 0);
  }

  lemma WordIs64(s: Bytes)
    ensures VarintWord(s, 64) == Varint64(s)
    ensures VarintWord(s, 64).Ok? ==> VarintWord(s, 64).value < TWO_64
    ensures VarintSoFar(s) % Pow2(64) == VarintSoFar(s) % TWO_64
  {
    Pow2Widths();
  }

  method ReadWord(data: Bytes, start: nat) returns (r: Scan<uint64>, word: uint64)
    requires start <= |data|
    ensures r == Varint64(data[start..])
    ensures word == VarintSoFar(data[start..]) % TWO_64
    ensures r.Ok? ==> r.value == word
  {
    var w, soFar := ReadVarint(data, start, 64);
    WordIs64(data[start..]);
    word := soFar;
    match w
    case Err(e) => r := Err(e);
    case Ok(v, n) =>
      VarintValue(data[start..], 0);
      r := Ok(v, n);
  }

  /** The record tag and the checks every decoder makes on it. */
  method ReadWire(data: Bytes, start: nat) returns (r: Scan<uint64>)
    requires start <= |data|
    ensures r == ReadTag(data[start..])
  {
    var word;
    r, word := ReadWord(data, start);
    if r.Err? {
      return;
    }
    var fieldNum, wireType := Int32(word / 8), word % 8;
    if wireType == 4 {
      return Err(EndGroup);
    }
    if fieldNum <= 0 {
      return Err(IllegalTag);
    }
  }

  /** Below 2^64, an int wraps once at most. */
  lemma Int64Wraps(w: nat)
    requires w < TWO_64
    ensures Int64(w) == if w < TWO_63 then w else w - TWO_64
  {
  }

  /** A length and its payload, with the signed wrap-around of the cursor sum. */
  method ReadPayload(data: Bytes, start: nat) returns (r: Scan<Bytes>)
    requires start <= |data| < TWO_63
    ensures r == Payload(start, data[start..])
  {
    hide Varint64, Int64;
    var w, word := ReadWord(data, start);
    if w.Err? {
      return Err(w.error);
    }
    Int64Wraps(word);
    var length := Int64(word);
    if length < 0 {
      return Err(InvalidLength);
    }
    var cursor := start + w.used;
    Int64Wraps(cursor + length);
    var postIndex := Int64(cursor + length);
    if postIndex < 0 {
      return Err(InvalidLength);
    }
    if postIndex > |data| {
      return Err(UnexpectedEOF);
    }
    assert data[start..][w.used..w.used + length] == data[cursor..postIndex];
    return Ok(data[cursor..postIndex], postIndex - start);
  }

  /** The result of a packed loop that already has `us` after `n` bytes. */
  ghost function After(us: seq<uint64>, n: nat, r: Scan<seq<uint64>>): Scan<seq<uint64>> {
    match r
    case Err(e) => Err(e)
    case Ok(vs, k) => Ok(us + vs, n + k)
  }

  lemma PackedStart(pos: nat, s: Bytes)
    ensures
      match Payload(pos, s)
      case Err(e) => PackedList(pos, s) == Err(e) && PackedListSoFar(pos, s) == []
      case Ok(p, n) =>
        && PackedList(pos, s) == After([], n - |p|, ReadPacked(s[n - |p|..], |p|))
        && PackedListSoFar(pos, s) == [] + PackedSoFar(s[n - |p|..], |p|)
  {
    hide ReadPacked, PackedSoFar, Payload;
    assert forall vs: seq<uint64> :: [] + vs == vs;
  }

  lemma PackedStep(us: seq<uint64>, n: nat, s: Bytes, need: nat)
    requires need > 0
    ensures After(us, n, ReadPacked(s, need)) ==
            match Varint64(s)
            case Err(e) => Err(e)
            case Ok(v, k) => After(us + [v], n + k, ReadPacked(s[k..], if k < need then need - k else 0))
  {
    hide Varint64;
    if Varint64(s).Ok? {
      var v := Varint64(s).value;
      assert forall vs :: us + ([v] + vs) == us + [v] + vs;
    }
  }

  lemma PackedSoFarStep(us: seq<uint64>, s: Bytes, need: nat)
    requires need > 0
    ensures
      us + PackedSoFar(s, need) ==
      match Varint64(s)
      case Err(_) => us
      case Ok(v, k) => us + [v] + PackedSoFar(s[k..], if k < need then need - k else 0)
  {
    hide Varint64;
  }

  /**
    The packed loop: it is entered while the payload lasts, but bounded by the
    input.  It appends the values it reads, also those before an error.
   */
  method ReadPackedList(data: Bytes, start: nat) returns (r: Scan<seq<uint64>>, us: seq<uint64>)
    requires start <= |data| < TWO_63
    ensures r == PackedList(start, data[start..])
    ensures us == PackedListSoFar(start, data[start..])
    ensures r.Ok? ==> r.value == us
  {
    hide *;
    us := [];
    var p := ReadPayload(data, start);
    PackedStart(start, data[start..]);
    if p.Err? {
      return Err(p.error), us;
    }
    PayloadSize(start, data[start..]);
    var postIndex := start + p.used;
    var cursor := postIndex - |p.value|;
    assert data[start..][p.used - |p.value|..] == data[cursor..];
    while cursor < postIndex
      invariant start <= cursor <= |data|
      invariant
        var rest := if cursor < postIndex then postIndex - cursor else 0;
        && After(us, cursor - start, ReadPacked(data[cursor..], rest)) == PackedList(start, data[start..])
        && us + PackedSoFar(data[cursor..], rest) == PackedListSoFar(start, data[start..])
      decreases |data| - cursor
    {
      PackedStep(us, cursor - start, data[cursor..], postIndex - cursor);
      PackedSoFarStep(us, data[cursor..], postIndex - cursor);
      var v, word := ReadWord(data, cursor);
      if v.Err? {
        return Err(v.error), us;
      }
      WordSize(data[cursor..]);
      assert data[cursor..][v.used..] == data[cursor + v.used..];
      us := us + [word];
      cursor := cursor + v.used;
    }
    PackedEnd(us, cursor - start, data[cursor..]);
    r := Ok(us, cursor - start);
  }

  lemma PayloadSize(pos: nat, s: Bytes)
    requires Payload(pos, s).Ok?
    ensures |Payload(pos, s).value| < Payload(pos, s).used <= |s|
  {
  }

  lemma WordSize(s: Bytes)
    requires Varint64(s).Ok?
    ensures 1 <= Varint64(s).used <= |s|
  {
  }

  lemma PackedEnd(us: seq<uint64>, n: nat, s: Bytes)
    ensures After(us, n, ReadPacked(s, 0)) == Ok(us, n) && us + PackedSoFar(s, 0) == us
  {
    assert us + [] == us;
  }

  //
  // Skipping
  //

  /** The bytes of a varint of which `k` have been read, the rest being at `s`. */
  ghost function PassOn(s: Bytes, k: nat): Scan<()> {
    match Varint(s, k)
    case Err(e) => Err(e)
    case Ok(_, n) => Ok((), n + k)
  }

  /** The loop that passes over a varint without accumulating it. */
  method SkipVarint(data: Bytes, start: nat) returns (r: Scan<()>)
    requires start <= |data|
    ensures r == SkipBody(0, data[start..])
  {
    var shift: nat, i: nat := 0, start;
    while true
      invariant start <= i <= |data| && i - start <= MAX_VARINT && shift == 7 * (i - start)
      invariant PassOn(data[i..], i - start) == PassOn(data[start..], 0)
      decreases |data| - i
    {
      if shift >= 64 {
        return Err(IntOverflow);
      }
      if i >= |data| {
        return Err(UnexpectedEOF);
      }
      assert data[i..][1..] == data[i + 1..];
      i := i + 1;
      if data[i - 1] < 128 {
        return Ok((), i - start);
      }
      shift := shift + 7;
    }
  }

  /** The body of a record of type `wireType` at `start`: the cursor after it, which can wrap. */
  method SkipRecordBody(data: Bytes, start: nat, wireType: nat) returns (r: Scan<()>, next: int)
    requires start <= |data| < TWO_63
    ensures r == SkipBody(wireType, data[start..])
    ensures r.Ok? ==> next == Int64(start + r.used) && start + r.used < TWO_64
  {
    hide Varint, Varint64, Int64;
    next := start;
    Int64Wraps(start + 8);
    Int64Wraps(start + 4);
    Int64Wraps(start);
    if wireType == 0 {
      r := SkipVarint(data, start);
      if r.Ok? {
        SkipBodyBound(data[start..]);
        Int64Wraps(start + r.used);
        next := start + r.used;
      }
    } else if wireType == 1 {
      r, next := Ok((), 8), Int64(start + 8);
    } else if wireType == 2 {
      var w, word := ReadWord(data, start);
      if w.Err? {
        return Err(w.error), next;
      }
      Int64Wraps(word);
      var length := Int64(word);
      if length < 0 {
        return Err(InvalidLength), next;
      }
      r, next := Ok((), w.used + length), Int64(start + w.used + length);
    } else if wireType == 3 || wireType == 4 {
      r := Ok((), 0);
    } else if wireType == 5 {
      r, next := Ok((), 4), Int64(start + 4);
    } else {
      r := Err(IllegalWireType);
    }
  }

  lemma SkipBodyBound(s: Bytes)
    requires SkipBody(0, s).Ok?
    ensures SkipBody(0, s).used <= |s|
  {
  }

  /** One round of the skipping loop: the group depth after the record at `start`. */
  method SkipTagged(data: Bytes, start: nat, depth: nat) returns (r: Scan<nat>)
    requires start <= |data| < TWO_63
    ensures r == SkipOne(start, depth, data[start..])
  {
    hide Varint64, SkipBody, Int64;
    var w, word := ReadWord(data, start);
    if w.Err? {
      return Err(w.error);
    }
    var wireType, depth' := word % 8, depth;
    if wireType == 4 && depth == 0 {
      return Err(EndGroup);
    }
    assert data[start..][w.used..] == data[start + w.used..];
    var body, next := SkipRecordBody(data, start + w.used, wireType);
    if body.Err? {
      return Err(body.error);
    }
    if wireType == 3 {
      depth' := depth + 1;
    } else if wireType == 4 {
      depth' := depth - 1;
    }
    Int64Wraps(start + w.used + body.used);
    if next < 0 {
      return Err(InvalidLength);
    }
    return Ok(depth', next - start);
  }

  /** Measures one record, groups included, with a cursor that can wrap and a group depth. */
  method SkipRecord(data: Bytes) returns (r: Scan<()>)
    requires |data| < TWO_63
    ensures r == Skip(data)
  {
    hide SkipOne, SkipFrom, Skip;
    var cursor: nat, depth: nat := 0, 0;
    assert data[0..] == data;
    SkipStart(data);
    while cursor < |data|
      invariant cursor <= |data| ==> Behind(cursor, SkipFrom(cursor, depth, data[cursor..])) == Skip(data)
      invariant cursor > |data| ==> Skip(data) == Err(UnexpectedEOF)
      decreases |data| - cursor
    {
      var one := SkipTagged(data, cursor, depth);
      SkipFromStep(cursor, depth, data[cursor..]);
      if one.Err? {
        return Err(one.error);
      }
      depth := one.value;
      if depth == 0 {
        return Ok((), cursor + one.used);
      }
      if one.used <= |data| - cursor {
        assert data[cursor..][one.used..] == data[cursor + one.used..];
      }
      cursor := cursor + one.used;
    }
    if cursor == |data| {
      SkipFromEnd(cursor, depth);
    }
    return Err(UnexpectedEOF);
  }

  method ReadUnknown(data: Bytes, start: nat, discard: bool, unknown: Bytes) returns (r: Scan<Bytes>)
    requires start <= |data| < TWO_63
    ensures r == KeepUnknown(discard, start, data[start..], unknown)
  {
    hide Skip;
    var skipped := SkipRecord(data[start..]);
    if skipped.Err? {
      return Err(skipped.error);
    }
    SkipFits(data[start..]);
    Int64Wraps(start + skipped.used);
    var end := Int64(start + skipped.used);
    if end < 0 {
      return Err(InvalidLength);
    }
    if end > |data| {
      return Err(UnexpectedEOF);
    }
    assert data[start..][..skipped.used] == data[start..end];
    return Ok(if discard then unknown else unknown + data[start..end], skipped.used);
  }

  lemma {:induction false} SkipFromFits(at: nat, depth: nat, s: Bytes)
    requires SkipFrom(at, depth, s).Ok?
    ensures at + SkipFrom(at, depth, s).used < TWO_63
    decreases |s|
  {
    hide SkipBody, Varint64;
    var Ok(depth', m) := SkipOne(at, depth, s);
    if depth' != 0 {
      SkipFromFits(at + m, depth', s[m..]);
    }
  }

  /** What is skipped fits a signed 64-bit int, so the sum with the cursor wraps once at most. */
  lemma SkipFits(s: Bytes)
    requires Skip(s).Ok?
    ensures Skip(s).used < TWO_63
  {
    SkipFromFits(0, 0, s);
  }
}
