/**
  The record layer of the Protocol Buffers wire format: base-128 varints,
  length-delimited payloads and the measuring of records a decoder does not
  know.  Everything here is a function of the input that is still unread.
 */
module Wire {
  import opened Words

  datatype Error =
    | IntOverflow
    | UnexpectedEOF
    | InvalidLength
    | EndGroup
    | IllegalTag
    | WrongWireType
    | IllegalWireType

  /** What a read at the front of the input yields, and how many bytes it used. */
  datatype Scan<+T> = Ok(value: T, used: nat) | Err(error: Error)

  const MAX_VARINT: nat := 10

  //
  // Varints
  //

  /**
    The number a base-128 varint stands for, before any truncation to a word:
    little-endian groups of seven bits, at most ten bytes.
   */
  function Varint(s: Bytes, k: nat := 0): (r: Scan<nat>)
    ensures r.Ok? ==> 1 <= r.used <= |s| && r.used + k <= MAX_VARINT
    decreases |s|
  {
    if k >= MAX_VARINT then Err(IntOverflow)
    else if s == [] then Err(UnexpectedEOF)
    else if s[0] < 128 then Ok(s[0], 1)
    else
      match Varint(s[1..], k + 1)
      case Err(e) => Err(e)
      case Ok(v, n) => Ok(s[0] - 128 + 128 * v, n + 1)
  }

  /** The groups accumulated by reading a varint, also when the reading fails. */
  function VarintSoFar(s: Bytes, k: nat := 0): nat
    decreases |s|
  {
    if k >= MAX_VARINT || s == [] then 0
    else if s[0] < 128 then s[0]
    else s[0] - 128 + 128 * VarintSoFar(s[1..], k + 1)
  }

  lemma {:induction false} VarintValue(s: Bytes, k: nat)
    requires Varint(s, k).Ok?
    ensures Varint(s, k).value == VarintSoFar(s, k)
    decreases |s|
  {
    if s[0] >= 128 {
      VarintValue(s[1..], k + 1);
    }
  }

  function Varint64(s: Bytes): (r: Scan<uint64>)
    ensures r.Ok? ==> 1 <= r.used <= |s|
  {
    match Varint(s)
    case Err(e) => Err(e)
    case Ok(v, n) => Ok(v % TWO_64, n)
  }

  function VarintBytes(v: nat): (s: Bytes)
    ensures |s| >= 1
  {
    if v < 128 then [v] else [v % 128 + 128] + VarintBytes(v / 128)
  }

  /** Groups of a number: the lowest, and those of the rest. */
  lemma GroupAt(low: nat, high: nat, i: nat)
    requires low < 128
    ensures i == 0 ==> (low + 128 * high) / Pow2(7 * i) % 128 == low
    ensures i > 0 ==> (low + 128 * high) / Pow2(7 * i) == high / Pow2(7 * (i - 1))
  {
    hide Pow2;
    Pow2Widths();
    Pow2Zero();
    if i > 0 {
      var x, p := low + 128 * high, Pow2(7 * (i - 1));
      Pow2Sum(7, 7 * (i - 1));
      DivDiv(x, 128, p);
      assert x / 128 == high;
    }
  }

  lemma GroupRange(low: nat, high: nat, n: nat)
    requires low < 128
    ensures high < Pow2(7 * n) <==> low + 128 * high < Pow2(7 * (n + 1))
    ensures Pow2(7 * n) <= high <==> Pow2(7 * (n + 1)) <= low + 128 * high
  {
    hide Pow2;
    Pow2Widths();
    Pow2Sum(7, 7 * n);
  }

  lemma VarintBytesUnfold(v: nat)
    ensures v < 128 ==> VarintBytes(v) == [v]
    ensures v >= 128 ==> VarintBytes(v) == [v % 128 + 128] + VarintBytes(v / 128)
  {
  }

  /** The bytes of a varint: group `i` is the `i`-th seven bits, and all bytes but the last are marked. */
  lemma {:induction false} VarintShape(v: nat, i: nat)
    requires i < |VarintBytes(v)|
    ensures VarintBytes(v)[i] % 128 == v / Pow2(7 * i) % 128
    ensures VarintBytes(v)[i] >= 128 <==> i + 1 < |VarintBytes(v)|
    decreases v
  {
    hide Pow2, VarintBytes;
    Pow2Zero();
    VarintBytesUnfold(v);
    if v >= 128 {
      GroupAt(v % 128, v / 128, i);
      if i > 0 {
        VarintShape(v / 128, i - 1);
      }
    }
  }

  /** A varint has the bytes its number needs and no more. */
  lemma {:induction false} VarintLength(v: nat)
    ensures v < Pow2(7 * |VarintBytes(v)|)
    ensures |VarintBytes(v)| > 1 ==> Pow2(7 * (|VarintBytes(v)| - 1)) <= v
    decreases v
  {
    hide Pow2, VarintBytes;
    Pow2Widths();
    Pow2Zero();
    VarintBytesUnfold(v);
    if v >= 128 {
      var high := v / 128;
      var n := |VarintBytes(high)|;
      VarintLength(high);
      GroupRange(v % 128, high, n);
      GroupRange(v % 128, high, n - 1);
    }
  }

  lemma Pow2Zero()
    ensures Pow2(0) == 1
  {
  }

  /** The first `n` bytes are marked as not the last of a varint. */
  ghost predicate Marked(s: Bytes, n: nat) {
    n <= |s| && forall i :: 0 <= i < n ==> s[i] >= 128
  }

  lemma MarkedTail(s: Bytes, n: nat)
    requires s != [] && s[0] >= 128 && n > 0
    ensures Marked(s, n) <==> Marked(s[1..], n - 1)
  {
    if Marked(s[1..], n - 1) {
      assert forall i :: 0 < i < n ==> s[i] == s[1..][i - 1];
    }
  }

  /** A varint ends with the first unmarked byte, which must be among the first ten. */
  lemma {:induction false} VarintEnds(s: Bytes, k: nat)
    requires k <= 10
    ensures Varint(s, k).Ok? ==> 1 <= Varint(s, k).used <= 10 - k && Varint(s, k).used <= |s|
    ensures Varint(s, k).Ok? ==> Marked(s, Varint(s, k).used - 1) && s[Varint(s, k).used - 1] < 128
    ensures Varint(s, k) == Err(IntOverflow) <==> Marked(s, 10 - k)
    ensures Varint(s, k) == Err(UnexpectedEOF) <==> |s| < 10 - k && Marked(s, |s|)
    ensures Varint(s, k).Ok? || Varint(s, k).error in {IntOverflow, UnexpectedEOF}
    decreases |s|
  {
    if k < 10 && s != [] && s[0] >= 128 {
      VarintEnds(s[1..], k + 1);
      MarkedTail(s, 10 - k);
      MarkedTail(s, |s|);
      if Varint(s, k).Ok? && Varint(s, k).used > 1 {
        MarkedTail(s, Varint(s, k).used - 1);
      }
    }
  }

  /** How many bytes a varint loop reads, whether or not it succeeds. */
  ghost function BytesRead(s: Bytes, k: nat): nat
    requires k <= 10
  {
    if Varint(s, k).Ok? then Varint(s, k).used else if |s| < 10 - k then |s| else 10 - k
  }

  lemma OneMoreByte(s: Bytes, k: nat)
    requires k < 10 && s != [] && s[0] >= 128
    ensures BytesRead(s, k) == BytesRead(s[1..], k + 1) + 1
    ensures VarintSoFar(s, k) == s[0] % 128 + 128 * VarintSoFar(s[1..], k + 1)
  {
  }

  lemma OneByte(s: Bytes, k: nat)
    requires k < 10 && s != [] && s[0] < 128
    ensures BytesRead(s, k) == 1 && VarintSoFar(s, k) == s[0] % 128
  {
  }

  lemma NoByte(s: Bytes, k: nat)
    requires k <= 10 && BytesRead(s, k) == 0
    ensures VarintSoFar(s, k) == 0
  {
  }

  /** What a varint loop has accumulated: group `i` is the low seven bits of byte `i`, and nothing above. */
  lemma {:induction false} VarintGroups(s: Bytes, k: nat, i: nat)
    requires k <= 10 && i < BytesRead(s, k) <= |s|
    ensures VarintSoFar(s, k) / Pow2(7 * i) % 128 == s[i] % 128
    ensures VarintSoFar(s, k) < Pow2(7 * BytesRead(s, k))
    decreases |s|
  {
    hide Pow2, VarintSoFar, BytesRead;
    Pow2Widths();
    Pow2Zero();
    assert k < 10 by { MoreToRead(s, k); }
    if s[0] < 128 {
      OneByte(s, k);
    } else {
      OneMoreByte(s, k);
      var high, n := VarintSoFar(s[1..], k + 1), BytesRead(s[1..], k + 1);
      GroupAt(s[0] % 128, high, i);
      GroupRange(s[0] % 128, high, n);
      if n == 0 {
        NoByte(s[1..], k + 1);
      } else {
        VarintGroups(s[1..], k + 1, if i == 0 then 0 else i - 1);
      }
    }
  }

  lemma MoreToRead(s: Bytes, k: nat)
    requires k <= 10 && BytesRead(s, k) > 0
    ensures k < 10
  {
  }

  /** `runtime.Sov`: the number of bytes of a varint. */
  function Sov(v: nat): (n: nat)
    ensures n == |VarintBytes(v)|
  {
    if v < 128 then 1 else 1 + Sov(v / 128)
  }

  function BitLength(v: nat): nat {
    if v == 0 then 0 else 1 + BitLength(v / 2)
  }

  lemma {:induction false} BitLengthBounds(v: nat)
    requires v > 0
    ensures BitLength(v) > 0 && Pow2(BitLength(v) - 1) <= v < Pow2(BitLength(v))
  {
    if v > 1 {
      BitLengthBounds(v / 2);
    }
  }

  lemma OrOne(v: nat)
    ensures Or(v, 1) == 1 + 2 * (v / 2)
  {
    OrZero(v / 2);
  }

  lemma OddBitLength(x: nat)
    ensures BitLength(1 + 2 * x) == 1 + BitLength(x)
  {
    assert (1 + 2 * x) / 2 == x;
  }

  /** The closed form of the size helper: `(bits.Len64(x|1) + 6) / 7`. */
  lemma SovClosedForm(v: nat)
    ensures Sov(v) == (BitLength(Or(v, 1)) + 6) / 7
  {
    hide Sov, BitLength, Or;
    OrOne(v);
    OddBitLength(v / 2);
    SovBits(v);
  }

  lemma {:induction false} SovBits(v: nat)
    ensures Sov(v) == (1 + BitLength(v / 2) + 6) / 7
  {
    if v < 128 {
      assert BitLength(0) == 0 && BitLength(1) == 1;
      SmallBitLength(v / 2);
    } else {
      SovBits(v / 128);
      SevenBits(v / 2);
      assert v / 2 / 128 == v / 128 / 2;
    }
  }

  lemma SmallBitLength(x: nat)
    requires x < 64
    ensures BitLength(x) <= 6
  {
    var a, b, c := x / 2, x / 2 / 2, x / 2 / 2 / 2;
    var d, e := c / 2, c / 2 / 2;
    assert e < 2 && BitLength(e / 2) == 0;
    assert BitLength(e) <= 1 && BitLength(d) <= 2 && BitLength(c) <= 3;
    assert BitLength(b) <= 4 && BitLength(a) <= 5;
  }

  lemma SevenBits(x: nat)
    requires x >= 64
    ensures BitLength(x) == 7 + BitLength(x / 128)
  {
    var a, b, c := x / 2, x / 2 / 2, x / 2 / 2 / 2;
    var d, e, f := c / 2, c / 2 / 2, c / 2 / 2 / 2;
    assert f >= 1 && f / 2 == x / 128;
    assert BitLength(x) == 1 + BitLength(a) && BitLength(a) == 1 + BitLength(b) && BitLength(b) == 1 + BitLength(c);
    assert BitLength(c) == 1 + BitLength(d) && BitLength(d) == 1 + BitLength(e) && BitLength(e) == 1 + BitLength(f);
  }

  /** Every 64-bit number fits in ten bytes. */
  lemma VarintBytesFit(v: uint64)
    ensures |VarintBytes(v)| <= MAX_VARINT
  {
    assert Pow2(70) == 64 * TWO_64 by {
      Pow2Widths();
      Pow2Sum(64, 6);
      assert Pow2(6) == 64;
    }
    VarintBytesBound(v, MAX_VARINT);
  }

  lemma {:induction false} VarintBytesBound(v: nat, n: nat)
    requires 1 <= n && v < Pow2(7 * n)
    ensures |VarintBytes(v)| <= n
  {
    hide Pow2;
    Pow2Widths();
    if v >= 128 {
      assert n > 1;
      Pow2Sum(7, 7 * (n - 1));
      VarintBytesBound(v / 128, n - 1);
    }
  }

  lemma {:induction false} VarintBytesAtLeast(v: nat, n: nat)
    requires n >= 1 && v >= Pow2(7 * (n - 1))
    ensures |VarintBytes(v)| >= n
  {
    if n > 1 {
      Pow2Widths();
      Pow2Sum(7, 7 * (n - 2));
      VarintBytesAtLeast(v / 128, n - 1);
    }
  }

  /** Reading back what was written, whatever follows. */
  lemma {:induction false} VarintRoundTrip(v: nat, t: Bytes, k: nat)
    requires |VarintBytes(v)| + k <= MAX_VARINT
    ensures Varint(VarintBytes(v) + t, k) == Ok(v, |VarintBytes(v)|)
  {
    var s := VarintBytes(v) + t;
    if v >= 128 {
      assert s[1..] == VarintBytes(v / 128) + t;
      VarintRoundTrip(v / 128, t, k + 1);
    }
  }

  lemma Varint64RoundTrip(v: uint64, t: Bytes)
    ensures Varint(VarintBytes(v) + t) == Ok(v, |VarintBytes(v)|)
    ensures Varint64(VarintBytes(v) + t) == Ok(v, |VarintBytes(v)|)
    ensures |VarintBytes(v)| <= MAX_VARINT
  {
    VarintBytesFit(v);
    VarintRoundTrip(v, t, 0);
  }

  /** A varint that was read does not depend on what comes after it. */
  lemma {:induction false} VarintLocal(s: Bytes, t: Bytes, k: nat)
    requires Varint(s, k).Ok?
    ensures Varint(s[..Varint(s, k).used] + t, k) == Varint(s, k)
    decreases |s|
  {
    var n := Varint(s, k).used;
    var s' := s[..n] + t;
    if s[0] >= 128 {
      VarintLocal(s[1..], t, k + 1);
      assert s'[1..] == s[1..][..n - 1] + t;
    }
  }

  lemma VarintExtend(s: Bytes, t: Bytes, k: nat)
    requires Varint(s, k).Ok?
    ensures Varint(s + t, k) == Varint(s, k)
  {
    var n := Varint(s, k).used;
    VarintLocal(s, s[n..] + t, k);
    assert s[..n] + (s[n..] + t) == s + t;
  }

  //
  // Length-delimited payloads
  //

  /**
    A length prefix and that many bytes.  `pos` is the cursor at which `s`
    starts: the source adds the length to it in a signed 64-bit int, so a large
    length makes the sum negative before it can be compared with the input.
   */
  function Payload(pos: nat, s: Bytes): (r: Scan<Bytes>)
    ensures r.Ok? ==> |r.value| < r.used <= |s|
  {
    match Varint64(s)
    case Err(e) => Err(e)
    case Ok(len, n) =>
      if len >= TWO_63 then Err(InvalidLength)
      else if pos + n + len >= TWO_63 then Err(InvalidLength)
      else if n + len > |s| then Err(UnexpectedEOF)
      else Ok(s[n..n + len], n + len)
  }

  function LengthPrefixed(p: Bytes): Bytes {
    VarintBytes(|p|) + p
  }

  lemma PayloadRoundTrip(pos: nat, p: Bytes, t: Bytes)
    requires pos + |LengthPrefixed(p) + t| < TWO_63
    ensures Payload(pos, LengthPrefixed(p) + t) == Ok(p, |LengthPrefixed(p)|)
  {
    var s := LengthPrefixed(p) + t;
    assert s == VarintBytes(|p|) + (p + t);
    Varint64RoundTrip(|p|, p + t);
  }

  /**
    When a length-prefixed payload is accepted, which bytes it is, and why not:
    a length or an end that is not a signed 64-bit int, or an end beyond the input.
   */
  lemma PayloadCases(pos: nat, s: Bytes)
    ensures Varint(s).Err? ==> Payload(pos, s) == Err(Varint(s).error)
    ensures Varint(s).Ok? ==>
      var n, length := Varint(s).used, Varint(s).value % 0x1_0000_0000_0000_0000;
      && (Payload(pos, s) == Err(InvalidLength) <==>
          length > 0x7fff_ffff_ffff_ffff || pos + n + length > 0x7fff_ffff_ffff_ffff)
      && (Payload(pos, s) == Err(UnexpectedEOF) <==>
          Payload(pos, s) != Err(InvalidLength) && |s| < n + length)
      && (Payload(pos, s).Ok? <==> pos + n + length <= 0x7fff_ffff_ffff_ffff && n + length <= |s|)
      && (Payload(pos, s).Ok? ==>
          Payload(pos, s).used == n + length && s[..n + length] == s[..n] + Payload(pos, s).value)
  {
    hide Varint;
    if Payload(pos, s).Ok? {
      var n := Varint(s).used;
      assert s[..n + Varint64(s).value] == s[..n] + s[n..n + Varint64(s).value];
    }
  }

  /** A payload is read from its own bytes only, the same way at any cursor. */
  lemma PayloadLocal(pos: nat, pos': nat, s: Bytes, t: Bytes)
    requires Payload(pos, s).Ok? && pos' + Payload(pos, s).used < TWO_63
    ensures Payload(pos', s[..Payload(pos, s).used] + t) == Payload(pos, s)
  {
    hide Varint;
    var n, end := Varint(s).used, Payload(pos, s).used;
    var s' := s[..end] + t;
    VarintLocal(s, s[n..end] + t, 0);
    assert s[..n] + (s[n..end] + t) == s';
    assert s'[n..end] == s[n..end];
  }

  //
  // Skipping
  //

  /** The body of a record by wire type; group tags have none. */
  function SkipBody(wireType: nat, s: Bytes): Scan<()> {
    if wireType == 0 then
      match Varint(s)
      case Err(e) => Err(e)
      case Ok(_, n) => Ok((), n)
    else if wireType == 1 then Ok((), 8)
    else if wireType == 2 then
      match Varint64(s)
      case Err(e) => Err(e)
      case Ok(len, n) =>
        if len >= TWO_63 then Err(InvalidLength)
        else Ok((), n + len)
    else if wireType == 3 || wireType == 4 then Ok((), 0)
    else if wireType == 5 then Ok((), 4)
    else Err(IllegalWireType)
  }

  /** One tag and its body: the group depth afterwards. */
  function SkipOne(at: nat, depth: nat, s: Bytes): (r: Scan<nat>)
    ensures r.Ok? ==> r.used >= 1
  {
    match Varint64(s)
    case Err(e) => Err(e)
    case Ok(tag, n) =>
      var wireType := tag % 8;
      if wireType == 4 && depth == 0 then Err(EndGroup) else
      match SkipBody(wireType, s[n..])
      case Err(e) => Err(e)
      case Ok(_, k) =>
        if at + n + k >= TWO_63 then Err(InvalidLength) else
        var depth' := if wireType == 3 then depth + 1 else if wireType == 4 then depth - 1 else depth;
        Ok(depth', n + k)
  }

  /**
    Measures one complete record, a group with everything up to its end tag
    included.  The result can exceed the input when the last scalar is cut off;
    the caller checks for that.  `at` counts the bytes already measured.
   */
  function SkipFrom(at: nat, depth: nat, s: Bytes): (r: Scan<()>)
    ensures r.Ok? ==> r.used >= 1
    decreases |s|
  {
    match SkipOne(at, depth, s)
    case Err(e) => Err(e)
    case Ok(depth', m) =>
      if depth' == 0 then Ok((), m)
      else if m > |s| then Err(UnexpectedEOF)
      else
        match SkipFrom(at + m, depth', s[m..])
        case Err(e) => Err(e)
        case Ok(_, rest) => Ok((), m + rest)
  }

  function Skip(s: Bytes): (r: Scan<()>)
    ensures r.Ok? ==> r.used >= 1
  {
    SkipFrom(0, 0, s)
  }

  /** The outcome of skipping when `n` bytes are behind the cursor. */
  ghost function Behind(n: nat, r: Scan<()>): Scan<()> {
    match r
    case Err(e) => Err(e)
    case Ok(_, k) => Ok((), n + k)
  }

  lemma SkipFromStep(at: nat, depth: nat, s: Bytes)
    ensures
      Behind(at, SkipFrom(at, depth, s)) ==
      match SkipOne(at, depth, s)
      case Err(e) => Err(e)
      case Ok(depth', m) =>
        if depth' == 0 then Ok((), at + m)
        else if m > |s| then Err(UnexpectedEOF)
        else Behind(at + m, SkipFrom(at + m, depth', s[m..]))
  {
    hide SkipOne;
  }

  lemma SkipStart(s: Bytes)
    ensures Behind(0, SkipFrom(0, 0, s)) == Skip(s)
  {
  }

  lemma SkipFromEnd(at: nat, depth: nat)
    ensures SkipFrom(at, depth, []) == Err(UnexpectedEOF)
  {
  }

  lemma SkipBodyLocal(wireType: nat, s: Bytes, t: Bytes)
    requires SkipBody(wireType, s).Ok? && SkipBody(wireType, s).used <= |s|
    ensures SkipBody(wireType, s[..SkipBody(wireType, s).used] + t) == SkipBody(wireType, s)
  {
    var n := SkipBody(wireType, s).used;
    if wireType == 0 {
      VarintLocal(s, t, 0);
    } else if wireType == 2 {
      var k := Varint(s).used;
      VarintLocal(s, s[k..n] + t, 0);
      assert s[..k] + (s[k..n] + t) == s[..n] + t;
    }
  }

  lemma SkipOneLocal(at: nat, depth: nat, a: Bytes, u: Bytes, t: Bytes)
    requires SkipOne(at, depth, a + u).Ok? && SkipOne(at, depth, a + u).used == |a|
    ensures SkipOne(at, depth, a + t) == SkipOne(at, depth, a + u)
  {
    hide Varint, SkipBody;
    var s, s' := a + u, a + t;
    var n := Varint(s).used;
    var wireType := Varint64(s).value % 8;
    assert n <= |a|;
    assert s[..n] == a[..n] && a[..n] + (a[n..] + t) == s';
    VarintLocal(s, a[n..] + t, 0);
    assert s[n..] == a[n..] + u;
    assert s[n..][..|a| - n] == a[n..];
    SkipBodyLocal(wireType, s[n..], t);
    assert a[n..] + t == s'[n..];
  }

  lemma SkipUnfold(at: nat, depth: nat, head: Bytes, rest: Bytes, depth': nat)
    requires SkipOne(at, depth, head + rest) == Ok(depth', |head|) && depth' > 0
    ensures SkipFrom(at, depth, head + rest) ==
            match SkipFrom(at + |head|, depth', rest)
            case Err(e) => Err(e)
            case Ok(_, n) => Ok((), |head| + n)
  {
    assert (head + rest)[|head|..] == rest;
  }

  /** A record that was measured completely is measured the same before any suffix. */
  lemma {:induction false} SkipFromLocal(at: nat, depth: nat, a: Bytes, u: Bytes, t: Bytes)
    requires SkipFrom(at, depth, a + u).Ok? && SkipFrom(at, depth, a + u).used == |a|
    ensures SkipFrom(at, depth, a + t).Ok? && SkipFrom(at, depth, a + t).used == |a|
    decreases |a|, 1
  {
    var Ok(depth', m) := SkipOne(at, depth, a + u);
    if depth' == 0 {
      SkipOneLocal(at, depth, a, u, t);
    } else {
      assert m <= |a|;
      assert a == a[..m] + a[m..];
      SkipHeadLocal(at, depth, a[..m], a[m..], u, t, depth');
    }
  }

  lemma {:induction false} SkipHeadLocal(at: nat, depth: nat, head: Bytes, rest: Bytes, u: Bytes, t: Bytes, depth': nat)
    requires SkipOne(at, depth, head + rest + u) == Ok(depth', |head|) && depth' > 0
    requires SkipFrom(at, depth, head + rest + u).Ok? && SkipFrom(at, depth, head + rest + u).used == |head + rest|
    ensures SkipFrom(at, depth, head + rest + t).Ok? && SkipFrom(at, depth, head + rest + t).used == |head + rest|
    decreases |head + rest|, 0
  {
    hide SkipFrom, SkipOne;
    assert head + rest + u == head + (rest + u);
    assert head + rest + t == head + (rest + t);
    SkipUnfold(at, depth, head, rest + u, depth');
    SkipOneLocal(at, depth, head, rest + u, rest + t);
    SkipUnfold(at, depth, head, rest + t, depth');
    SkipFromLocal(at + |head|, depth', rest, u, t);
  }

  lemma SkipLocal(a: Bytes, u: Bytes, t: Bytes)
    requires Skip(a + u).Ok? && Skip(a + u).used == |a|
    ensures Skip(a + t).Ok? && Skip(a + t).used == |a|
  {
    SkipFromLocal(0, 0, a, u, t);
  }
}
