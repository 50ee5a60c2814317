/**
  Repeated uint64 fields: packed and unpacked records agree, and what the
  packed loop does with a payload that is cut inside a varint.
 */
module PackedLists {
  import opened Words
  import opened Wire
  import opened Messages
  import opened RoundTrip

  /**
    One record of a repeated uint64 field: the bytes of a single varint, or the
    payload of a packed run.  Varints need not be of minimal length.
   */
  datatype Chunk = Single(varint: Bytes) | Run(payload: Bytes) {
    /** The varint, or the varints of the run, end where the bytes end. */
    predicate Valid() {
      match this
      case Single(w) => Varint64(w).Ok? && Varint64(w).used == |w|
      case Run(p) => ReadPacked(p, |p|).Ok? && ReadPacked(p, |p|).used == |p|
    }

    function Values(): seq<uint64>
      requires Valid()
    {
      match this
      case Single(w) => [Varint64(w).value]
      case Run(p) => ReadPacked(p, |p|).value
    }

    function Record(num: nat): Bytes {
      match this
      case Single(w) => Tag(num, 0) + w
      case Run(p) => BytesRecord(num, p)
    }
  }

  ghost predicate AllValid(cs: seq<Chunk>) {
    forall i :: 0 <= i < |cs| ==> cs[i].Valid()
  }

  function AllValues(cs: seq<Chunk>): seq<uint64>
    requires AllValid(cs)
  {
    if cs == [] then [] else cs[0].Values() + AllValues(cs[1..])
  }

  function AllBytes(num: nat, cs: seq<Chunk>): Bytes {
    if cs == [] then [] else cs[0].Record(num) + AllBytes(num, cs[1..])
  }

  lemma OneChunk(num: nat, c: Chunk)
    requires c.Valid()
    ensures AllBytes(num, [c]) == c.Record(num) && AllValid([c]) && AllValues([c]) == c.Values()
  {
    hide Chunk.Record, Chunk.Values, Chunk.Valid;
    assert AllBytes(num, [c]) == c.Record(num) + AllBytes(num, []);
    assert AllValues([c]) == c.Values() + AllValues([]);
  }

  lemma FirstChunk(num: nat, cs: seq<Chunk>)
    requires AllValid(cs) && cs != []
    ensures AllValid(cs[1..]) && cs[0].Valid()
    ensures AllBytes(num, cs) == cs[0].Record(num) + AllBytes(num, cs[1..])
    ensures AllValues(cs) == cs[0].Values() + AllValues(cs[1..])
  {
    hide Chunk.Record, Chunk.Values, Chunk.Valid;
  }

  lemma ValidSnoc(cs: seq<Chunk>, c: Chunk)
    requires AllValid(cs) && c.Valid()
    ensures AllValid(cs + [c])
  {
    hide Chunk.Valid;
  }

  /** Records and values are in the order of the chunks. */
  lemma {:induction false} ChunksInOrder(num: nat, cs: seq<Chunk>, c: Chunk)
    requires AllValid(cs) && c.Valid()
    ensures AllBytes(num, cs + [c]) == AllBytes(num, cs) + c.Record(num)
    ensures AllValid(cs + [c]) && AllValues(cs + [c]) == AllValues(cs) + c.Values()
  {
    hide *;
    ValidSnoc(cs, c);
    if cs == [] {
      OneChunk(num, c);
      NoChunks(num);
      assert cs + [c] == [c];
      assert [] + c.Record(num) == c.Record(num) && [] + c.Values() == c.Values();
    } else {
      var all, rest := cs + [c], cs[1..];
      assert all[1..] == rest + [c] && all[0] == cs[0];
      FirstChunk(num, cs);
      FirstChunk(num, all);
      ChunksInOrder(num, rest, c);
      Associates(cs[0].Record(num), AllBytes(num, rest), c.Record(num));
      Associates(cs[0].Values(), AllValues(rest), c.Values());
    }
  }

  lemma NoChunks(num: nat)
    ensures AllBytes(num, []) == [] && AllValid([]) && AllValues([]) == []
  {
  }

  lemma Associates<T>(a: seq<T>, b: seq<T>, c: seq<T>)
    ensures a + (b + c) == a + b + c
  {
  }

  /** What the encoder writes is such a chunk, and so is every value by itself. */
  lemma EncodedChunks(us: seq<uint64>, u: uint64)
    ensures Run(Packed(us)).Valid() && Run(Packed(us)).Values() == us
    ensures Single(VarintBytes(u)).Valid() && Single(VarintBytes(u)).Values() == [u]
  {
    PackedRoundTrip(us, []);
    assert Packed(us) + [] == Packed(us);
    Varint64RoundTrip(u, []);
    assert VarintBytes(u) + [] == VarintBytes(u);
  }

  lemma RunList(pos: nat, p: Bytes)
    requires Payload(pos, LengthPrefixed(p)) == Ok(p, |LengthPrefixed(p)|) && Run(p).Valid()
    ensures PackedList(pos, LengthPrefixed(p)) == Ok(Run(p).Values(), |LengthPrefixed(p)|)
  {
    hide Payload, ReadPacked;
    var s := LengthPrefixed(p);
    assert s[|s| - |p|..] == p;
  }

  lemma ReadsChunk(fs: Schema, num: nat, c: Chunk, m: Message)
    requires ValidNumber(fs, num, m) && fs[num - 1].Uint64List? && c.Valid() && |c.Record(num)| < TWO_63
    ensures Reads(fs, c.Record(num), m, With(m, num, U64s(U64sOf(m.values[num - 1]) + c.Values())))
  {
    hide Reads, Tag, Payload, LengthPrefixed, PackedList, ReadPacked, Varint64;
    var v := U64s(U64sOf(m.values[num - 1]) + c.Values());
    match c
    case Single(w) => ReadsRecord(fs, num, 0, w, m, v);
    case Run(p) =>
      PayloadOfRecord(num, p);
      RunList(|Tag(num, 2)|, p);
      ReadsRecord(fs, num, 2, LengthPrefixed(p), m, v);
  }

  /**
    Packed and unpacked agree: however a list of ids is split into single
    records and packed runs, empty runs included, and whatever varints are used,
    decoding appends the same list.
   */
  lemma {:induction false} AnySplitDecodesAlike(fs: Schema, num: nat, cs: seq<Chunk>, m: Message)
    requires ValidNumber(fs, num, m) && fs[num - 1].Uint64List? && m.values[num - 1].U64s?
    requires AllValid(cs) && |AllBytes(num, cs)| < TWO_63
    ensures
      Decode(fs, false, 0, AllBytes(num, cs), m) ==
      Done(With(m, num, U64s(m.values[num - 1].us + AllValues(cs))))
    decreases |cs|
  {
    hide Decode, Chunk.Record, Chunk.Values, Chunk.Valid;
    var us := m.values[num - 1].us;
    if cs == [] {
      DecodeNil(fs, false, 0, m);
      assert us + [] == us && With(m, num, U64s(us)) == m;
    } else {
      var m1 := With(m, num, U64s(us + cs[0].Values()));
      var m2 := With(m, num, U64s(us + AllValues(cs)));
      ReadsChunk(fs, num, cs[0], m);
      AnySplitDecodesAlike(fs, num, cs[1..], m1);
      assert us + cs[0].Values() + AllValues(cs[1..]) == us + AllValues(cs);
      assert With(m1, num, U64s(us + AllValues(cs))) == m2;
      ReadsChain(fs, cs[0].Record(num), AllBytes(num, cs[1..]), m, m1, m2);
    }
  }

  //
  // Preallocation and payloads that end inside a varint
  //

  /** The bytes that end a varint: what the preallocation counts. */
  function Terminators(p: Bytes): nat {
    if p == [] then 0 else (if p[0] < 128 then 1 else 0) + Terminators(p[1..])
  }

  lemma {:induction false} TerminatorsCount(p: Bytes)
    ensures Terminators(p) == |set i | 0 <= i < |p| && p[i] < 128|
  {
    if p != [] {
      var front, last := p[..|p| - 1], p[|p| - 1];
      TerminatorsCount(front);
      TerminatorsSum(front, [last]);
      assert p == front + [last];
      var some := set i | 0 <= i < |front| && front[i] < 128;
      assert (set i | 0 <= i < |p| && p[i] < 128) == some + if last < 128 then {|front|} else {};
    }
  }

  lemma {:induction false} TerminatorsSum(p: Bytes, q: Bytes)
    ensures Terminators(p + q) == Terminators(p) + Terminators(q)
  {
    if p == [] {
      assert p + q == q;
    } else {
      assert (p + q)[1..] == p[1..] + q;
      TerminatorsSum(p[1..], q);
    }
  }

  /** A varint has exactly one terminator, its last byte. */
  lemma {:induction false} VarintTerminator(s: Bytes, k: nat, n: nat)
    requires Varint(s, k).Ok? && n <= Varint(s, k).used
    ensures Terminators(s[..n]) == if n == Varint(s, k).used then 1 else 0
    ensures n > 0 ==> (s[n - 1] < 128 <==> n == Varint(s, k).used)
    decreases |s|
  {
    if s[0] >= 128 && n > 0 {
      assert s[..n][1..] == s[1..][..n - 1];
      VarintTerminator(s[1..], k + 1, n - 1);
    }
  }

  ghost predicate EndsInVarint(p: Bytes) {
    p != [] && p[|p| - 1] >= 128
  }

  /**
    The packed loop stops at the end of its payload exactly when the payload
    does not end inside a varint, and then the count of terminators is the number
    of values.  Otherwise it reads one value more, with bytes that lie beyond
    the payload.
   */
  lemma {:induction false} PackedLoopConsumption(s: Bytes, need: nat)
    requires need <= |s| && ReadPacked(s, need).Ok?
    ensures ReadPacked(s, need).used == need <==> !EndsInVarint(s[..need])
    ensures |ReadPacked(s, need).value| ==
            Terminators(s[..need]) + if EndsInVarint(s[..need]) then 1 else 0
    decreases |s|
  {
    hide Varint;
    if need > 0 {
      var n := Varint64(s).used;
      if n <= need {
        VarintTerminator(s, 0, n);
        assert s[..need] == s[..n] + s[n..][..need - n];
        TerminatorsSum(s[..n], s[n..][..need - n]);
        PackedLoopConsumption(s[n..], need - n);
      } else {
        VarintTerminator(s, 0, need);
      }
    }
  }

  /**
    The condition can fail on accepted input: in a message whose field 1 is a
    repeated uint64, a packed record that declares a one-byte payload holding
    the first half of a varint takes the other half from the byte after it.
   */
  lemma PackedLoopOverruns()
    ensures Decode([Uint64List], false, 0, [0x0a, 1, 128, 1], Empty([Uint64List])) ==
            Done(Message([U64s([128])], []))
    ensures EndsInVarint([0x0a, 1, 128, 1][2..3])
  {
    hide Decode, Step, PackedList;
    var s: Bytes := [1, 128, 1];
    PackedListOverruns(s);
    var m := Empty([Uint64List]);
    assert m.values[0] == U64s([]) && [] + [128] == [128];
    assert Tag(1, 2) == [0x0a] && Tag(1, 2) + s == [0x0a, 1, 128, 1];
    ReadsRecord([Uint64List], 1, 2, s, m, U64s([128]));
    assert With(m, 1, U64s([128])) == Message([U64s([128])], []);
  }

  lemma PackedListOverruns(s: Bytes)
    requires s == [1, 128, 1]
    ensures PackedList(1, s) == Ok([128], 3)
  {
    assert Varint(s) == Ok(1, 1);
    assert Payload(1, s) == Ok(s[1..2], 2);
    var t := s[1..];
    assert t == [128, 1] && t[1..] == [1];
    assert Varint(t[1..], 1) == Ok(1, 1);
    assert Varint(t) == Ok(128, 2);
    assert ReadPacked(t[2..], 0) == Ok([], 0);
    assert [128] + [] == [128];
    assert ReadPacked(t, 1) == Ok([128], 2);
  }
}
