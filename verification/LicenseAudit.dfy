/** The audit of the active license counters against the index they summarise. */
module LicenseAudit {
  import opened Options
  import opened Sets
  import opened Words
  import opened Ordering

  /** An entry of the index: an active license of a holder. */
  datatype IndexKey = IndexKey(holder: string, typeId: string, id: uint64)

  /** The key of a counter. */
  datatype HolderType = HolderType(holder: string, typeId: string)

  function PrefixOf(k: IndexKey): HolderType {
    HolderType(k.holder, k.typeId)
  }

  /** The index entries under a (holder, type) prefix. */
  ghost function Under(index: set<IndexKey>, ht: HolderType): set<IndexKey> {
    set k | k in index && PrefixOf(k) == ht
  }

  ghost function IndexCount(index: set<IndexKey>, ht: HolderType): nat {
    |Under(index, ht)|
  }

  /** The stored count, 0 when there is none. */
  function StoredCount(counts: map<HolderType, uint64>, ht: HolderType): uint64 {
    if ht in counts then counts[ht] else 0
  }

  ghost predicate Agrees(index: set<IndexKey>, counts: map<HolderType, uint64>, ht: HolderType) {
    StoredCount(counts, ht) == IndexCount(index, ht)
  }

  ghost function Prefixes(index: set<IndexKey>): set<HolderType> {
    set k | k in index :: PrefixOf(k)
  }

  /** The (holder, type) keys whose stored count is wrong. */
  ghost function Mismatched(index: set<IndexKey>, counts: map<HolderType, uint64>): set<HolderType> {
    set ht | ht in counts.Keys + Prefixes(index) && !Agrees(index, counts, ht)
  }

  //
  // Report lines
  //

  function Digit(d: nat): char
    requires d < 10
  {
    "0123456789"[d]
  }

  lemma DigitValue(d: nat)
    requires d < 10
    ensures '0' <= Digit(d) <= '9' && Digit(d) as int - '0' as int == d
  {
  }

  function Decimal(n: nat): string {
    if n < 10 then [Digit(n)] else Decimal(n / 10) + [Digit(n % 10)]
  }

  function DecimalValue(s: string): nat
    requires forall i :: 0 <= i < |s| ==> '0' <= s[i] <= '9'
  {
    if s == "" then 0 else 10 * DecimalValue(s[..|s| - 1]) + (s[|s| - 1] as int - '0' as int)
  }

  /** Counts are printed so that they can be read back. */
  lemma {:induction false} DecimalReadsBack(n: nat)
    ensures forall i :: 0 <= i < |Decimal(n)| ==> '0' <= Decimal(n)[i] <= '9'
    ensures Decimal(n) != "" && DecimalValue(Decimal(n)) == n
  {
    hide Digit;
    if n < 10 {
      DigitValue(n);
      assert Decimal(n)[..0] == "";
    } else {
      DecimalReadsBack(n / 10);
      DigitValue(n % 10);
      assert Decimal(n)[..|Decimal(n)| - 1] == Decimal(n / 10);
    }
  }

  function Pow10(n: nat): (p: nat)
    ensures p >= 1
  {
    if n == 0 then 1 else 10 * Pow10(n - 1)
  }

  lemma Pow10Step(n: nat, k: nat)
    ensures Pow10(0) == 1 && n / 10 / Pow10(k) == n / Pow10(k + 1)
  {
    DivDiv(n, 10, Pow10(k));
  }

  lemma DigitsOfTenth(n: nat)
    requires n >= 10
    ensures Decimal(n) == Decimal(n / 10) + [Digit(n % 10)] && |Decimal(n / 10)| >= 1
  {
    hide Digit;
    DecimalReadsBack(n / 10);
  }

  /** The most significant digit comes first, and is not zero unless it is the only one. */
  lemma {:induction false} DecimalDigits(n: nat, i: nat)
    requires i < |Decimal(n)|
    ensures Decimal(n)[i] as int - '0' as int == n / Pow10(|Decimal(n)| - 1 - i) % 10
    ensures n > 0 ==> Decimal(n)[0] != '0'
    decreases n
  {
    hide Digit, Pow10;
    DigitValue(n % 10);
    Pow10Step(n, 0);
    if n >= 10 {
      hide Decimal;
      DigitsOfTenth(n);
      var front := Decimal(n / 10);
      if i < |front| {
        DecimalDigits(n / 10, i);
        Pow10Step(n, |front| - 1 - i);
      } else {
        DecimalDigits(n / 10, 0);
      }
    }
  }

  function WrongLine(ht: HolderType, got: nat, exp: nat): string {
    "\t" + ht.holder + "/" + ht.typeId + ": stored count " + Decimal(got) + ", index holds " + Decimal(exp) + "\n"
  }

  function MissingLine(ht: HolderType, exp: nat): string {
    "\t" + ht.holder + "/" + ht.typeId + ": no stored count, index holds " + Decimal(exp) + "\n"
  }

  /** The two numbers of a line, read back, are the stored count and the size of the index under the prefix. */
  lemma WrongLineReadsBack(index: set<IndexKey>, counts: map<HolderType, uint64>, ht: HolderType)
    returns (got: string, exp: string)
    requires ht in counts
    ensures
      WrongLine(ht, counts[ht], IndexCount(index, ht)) ==
      "\t" + ht.holder + "/" + ht.typeId + ": stored count " + got + ", index holds " + exp + "\n"
    ensures IsNumber(got) && DecimalValue(got) == counts[ht]
    ensures IsNumber(exp) && DecimalValue(exp) == |set k | k in index && k.holder == ht.holder && k.typeId == ht.typeId|
  {
    got, exp := Decimal(counts[ht]), Decimal(IndexCount(index, ht));
    DecimalReadsBack(counts[ht]);
    DecimalReadsBack(IndexCount(index, ht));
    IndexCountMeans(index, ht);
  }

  lemma MissingLineReadsBack(index: set<IndexKey>, ht: HolderType) returns (exp: string)
    ensures
      MissingLine(ht, IndexCount(index, ht)) ==
      "\t" + ht.holder + "/" + ht.typeId + ": no stored count, index holds " + exp + "\n"
    ensures IsNumber(exp) && DecimalValue(exp) == |set k | k in index && k.holder == ht.holder && k.typeId == ht.typeId|
  {
    exp := Decimal(IndexCount(index, ht));
    DecimalReadsBack(IndexCount(index, ht));
    IndexCountMeans(index, ht);
  }

  ghost predicate IsNumber(s: string) {
    s != "" && forall i :: 0 <= i < |s| ==> '0' <= s[i] <= '9'
  }

  /** The index entries of this holder and this license type, counted. */
  lemma IndexCountMeans(index: set<IndexKey>, ht: HolderType)
    ensures IndexCount(index, ht) == |set k | k in index && k.holder == ht.holder && k.typeId == ht.typeId|
  {
    assert Under(index, ht) == set k | k in index && k.holder == ht.holder && k.typeId == ht.typeId;
  }

  /** Lines are put one after the other. */
  lemma {:induction false} ConcatParts(a: seq<string>, b: seq<string>, line: string)
    ensures Concat([]) == "" && Concat([line]) == line
    ensures Concat(a + b) == Concat(a) + Concat(b)
  {
    if a == [] {
      assert a + b == b;
    } else {
      assert (a + b)[1..] == a[1..] + b;
      ConcatParts(a[1..], b, line);
    }
  }

  function Concat(lines: seq<string>): string {
    if lines == [] then "" else lines[0] + Concat(lines[1..])
  }

  /** The lines of the walk over the counters, in walk order. */
  ghost function WrongLines(index: set<IndexKey>, counts: map<HolderType, uint64>, walk: seq<HolderType>): seq<string>
    requires forall ht :: ht in walk ==> ht in counts
  {
    if walk == [] then []
    else
      var front, ht := walk[..|walk| - 1], walk[|walk| - 1];
      WrongLines(index, counts, front)
      + if Agrees(index, counts, ht) then [] else [WrongLine(ht, counts[ht], IndexCount(index, ht))]
  }

  /** The lines for a set of keys that have no stored count, in no order. */
  ghost function MissingLines(index: set<IndexKey>, keys: set<HolderType>): multiset<string> {
    if keys == {} then multiset{}
    else
      var ht :| ht in keys;
      MissingLines(index, keys - {ht}) + multiset{MissingLine(ht, IndexCount(index, ht))}
  }

  /** The choice of key does not matter. */
  lemma {:induction false} MissingLinesRemove(index: set<IndexKey>, keys: set<HolderType>, ht: HolderType)
    requires ht in keys
    ensures MissingLines(index, keys) ==
            MissingLines(index, keys - {ht}) + multiset{MissingLine(ht, IndexCount(index, ht))}
    decreases keys
  {
    hide MissingLine, IndexCount;
    var first :| first in keys && MissingLines(index, keys) ==
      MissingLines(index, keys - {first}) + multiset{MissingLine(first, IndexCount(index, first))};
    if first != ht {
      MissingLinesRemove(index, keys - {first}, ht);
      MissingLinesRemove(index, keys - {ht}, first);
      assert keys - {first} - {ht} == keys - {ht} - {first};
    }
  }

  /**
    What the audit reports: wrong counters in walk order, then the counters
    that are missing, sorted by their lines.
   */
  ghost predicate IsReport(index: set<IndexKey>, counts: map<HolderType, uint64>, walk: seq<HolderType>,
                           problems: seq<string>)
    requires forall ht :: ht in walk ==> ht in counts
  {
    exists missing: seq<string> ::
      && Sorted(missing)
      && multiset(missing) == MissingLines(index, Prefixes(index) - counts.Keys)
      && problems == WrongLines(index, counts, walk) + missing
  }

  /** The report does not depend on the order in which leftover keys are visited. */
  lemma ReportDetermined(index: set<IndexKey>, counts: map<HolderType, uint64>, walk: seq<HolderType>,
                         p: seq<string>, q: seq<string>)
    requires forall ht :: ht in walk ==> ht in counts
    requires IsReport(index, counts, walk, p) && IsReport(index, counts, walk, q)
    ensures p == q
  {
    var wrong, missing := WrongLines(index, counts, walk), MissingLines(index, Prefixes(index) - counts.Keys);
    var m: seq<string> :| Sorted(m) && multiset(m) == missing && p == wrong + m;
    var n: seq<string> :| Sorted(n) && multiset(n) == missing && q == wrong + n;
    SortedUnique(m, n);
  }

  /**
    `lines` are the lines of the keys at the positions `at` of the walk: those
    whose stored count differs from the index, in walk order.
   */
  ghost predicate ReportsWrong(index: set<IndexKey>, counts: map<HolderType, uint64>, walk: seq<HolderType>,
                               at: seq<nat>, lines: seq<string>)
    requires forall ht :: ht in walk ==> ht in counts
  {
    && (forall i, j :: 0 <= i < j < |at| ==> at[i] < at[j])
    && (forall i :: i in at <==> 0 <= i < |walk| && counts[walk[i]] != IndexCount(index, walk[i]))
    && |lines| == |at|
    && forall k :: 0 <= k < |at| && at[k] < |walk| ==>
         var ht := walk[at[k]];
         lines[k] == "\t" + ht.holder + "/" + ht.typeId + ": stored count " + Decimal(counts[ht])
                     + ", index holds " + Decimal(IndexCount(index, ht)) + "\n"
  }

  /** `lines` are, in ascending order, the lines of the keys in `order`, which lists `keys`. */
  ghost predicate ReportsMissing(index: set<IndexKey>, keys: set<HolderType>, order: seq<HolderType>,
                                 lines: seq<string>)
  {
    && WalkOf(order, keys) && Sorted(lines)
    && multiset(lines) == multiset(seq(|order|, i requires 0 <= i < |order| =>
         "\t" + order[i].holder + "/" + order[i].typeId + ": no stored count, index holds "
         + Decimal(IndexCount(index, order[i])) + "\n"))
  }

  //
  // The audit
  //

  ghost predicate WalkOf<T(!new)>(walk: seq<T>, s: set<T>) {
    && (forall i, j :: 0 <= i < j < |walk| ==> walk[i] != walk[j])
    && forall x :: x in walk <==> x in s
  }

  /** The counts of the index entries seen so far; a prefix without entries has no count. */
  ghost predicate Counted(want: map<HolderType, uint64>, seen: set<IndexKey>) {
    && want.Keys == Prefixes(seen)
    && forall ht :: ht in want ==> want[ht] == IndexCount(seen, ht)
  }

  lemma CountNext(seen: set<IndexKey>, k: IndexKey)
    requires k !in seen
    ensures Prefixes(seen + {k}) == Prefixes(seen) + {PrefixOf(k)}
    ensures forall ht :: IndexCount(seen + {k}, ht) == IndexCount(seen, ht) + if ht == PrefixOf(k) then 1 else 0
    ensures PrefixOf(k) !in Prefixes(seen) ==> IndexCount(seen, PrefixOf(k)) == 0
  {
    assert Under(seen + {k}, PrefixOf(k)) == Under(seen, PrefixOf(k)) + {k};
    assert forall ht :: ht != PrefixOf(k) ==> Under(seen + {k}, ht) == Under(seen, ht);
    if PrefixOf(k) !in Prefixes(seen) {
      assert Under(seen, PrefixOf(k)) == {};
    }
  }

  /** `want[PrefixOf(k)]++` in a uint64. */
  function Increment(want: map<HolderType, uint64>, ht: HolderType): map<HolderType, uint64> {
    want[ht := ((if ht in want then want[ht] else 0) + 1) % TWO_64]
  }

  /** Counting one more entry does not wrap, since all entries together are fewer than 2^64. */
  lemma CountedNext(index: set<IndexKey>, want: map<HolderType, uint64>, seen: set<IndexKey>, k: IndexKey)
    requires Counted(want, seen) && k in index && k !in seen && seen <= index && |index| < TWO_64
    ensures Counted(Increment(want, PrefixOf(k)), seen + {k})
  {
    hide IndexCount, Prefixes;
    var ht := PrefixOf(k);
    CountNext(seen, k);
    assert IndexCount(seen + {k}, ht) < TWO_64 by { CountBound(index, seen + {k}, ht); }
  }

  lemma CountBound(index: set<IndexKey>, seen: set<IndexKey>, ht: HolderType)
    requires seen <= index
    ensures IndexCount(seen, ht) <= |index|
  {
    SubsetSize(Under(seen, ht), index);
  }

  /** First walk. */
  method CountIndex(index: set<IndexKey>, walk: seq<IndexKey>) returns (want: map<HolderType, uint64>)
    requires WalkOf(walk, index) && |index| < TWO_64
    ensures Counted(want, index)
  {
    want := map[];
    ghost var seen: set<IndexKey> := {};
    for i := 0 to |walk|
      invariant Counted(want, seen)
      invariant seen <= index && forall k :: k in seen <==> k in walk[..i]
    {
      hide Counted, Increment;
      var k := walk[i];
      assert k !in walk[..i] && walk[..i + 1] == walk[..i] + [k];
      CountedNext(index, want, seen, k);
      want := Increment(want, PrefixOf(k));
      seen := seen + {k};
    }
    assert walk[..|walk|] == walk;
    assert seen == index;
  }

  /** Second walk: compare each counter and forget its key. */
  method CompareCounts(ghost index: set<IndexKey>, counts: map<HolderType, uint64>, walk: seq<HolderType>,
                       want: map<HolderType, uint64>)
    returns (problems: seq<string>, left: map<HolderType, uint64>, ghost at: seq<nat>)
    requires WalkOf(walk, counts.Keys) && Counted(want, index)
    ensures problems == WrongLines(index, counts, walk)
    ensures ReportsWrong(index, counts, walk, at, problems)
    ensures left.Keys == Prefixes(index) - counts.Keys
    ensures forall ht :: ht in left ==> left[ht] == IndexCount(index, ht)
  {
    hide WrongLine, IndexCount, ReportsWrong;
    problems, left, at := [], want, [];
    NothingWrong(index, counts);
    for i := 0 to |walk|
      invariant problems == WrongLines(index, counts, walk[..i])
      invariant ReportsWrong(index, counts, walk[..i], at, problems)
      invariant left == want - set ht | ht in walk[..i]
    {
      var ht := walk[i];
      assert walk[..i + 1] == walk[..i] + [ht] && ht !in walk[..i];
      var got := counts[ht];
      var exp := if ht in left then left[ht] else 0;
      AbsentCount(index, ht);
      ReportsNext(index, counts, walk[..i], at, problems, ht);
      if got != exp {
        problems := problems + [WrongLine(ht, got, exp)];
        at := at + [i];
      }
      left := left - {ht};
    }
    assert walk[..|walk|] == walk;
  }

  lemma NothingWrong(index: set<IndexKey>, counts: map<HolderType, uint64>)
    ensures ReportsWrong(index, counts, [], [], [])
  {
  }

  lemma ReportsNext(index: set<IndexKey>, counts: map<HolderType, uint64>, walk: seq<HolderType>,
                    at: seq<nat>, lines: seq<string>, ht: HolderType)
    requires (forall x :: x in walk ==> x in counts) && ht in counts
    requires ReportsWrong(index, counts, walk, at, lines)
    ensures counts[ht] == IndexCount(index, ht) ==> ReportsWrong(index, counts, walk + [ht], at, lines)
    ensures counts[ht] != IndexCount(index, ht) ==>
      ReportsWrong(index, counts, walk + [ht], at + [|walk|],
                   lines + [WrongLine(ht, counts[ht], IndexCount(index, ht))])
  {
    hide IndexCount, Decimal;
    assert forall i :: 0 <= i < |walk| ==> (walk + [ht])[i] == walk[i];
    assert forall i :: i in at ==> i < |walk|;
    assert forall i :: i in at + [|walk|] <==> i in at || i == |walk|;
    assert forall k :: 0 <= k < |at| ==> at[k] in at;
  }

  lemma AbsentCount(index: set<IndexKey>, ht: HolderType)
    ensures ht !in Prefixes(index) <==> IndexCount(index, ht) == 0
  {
    if ht in Prefixes(index) {
      var k :| k in index && PrefixOf(k) == ht;
      assert k in Under(index, ht);
    } else {
      assert Under(index, ht) == {};
    }
  }

  lemma MissingNone(index: set<IndexKey>)
    ensures MissingLines(index, {}) == multiset{}
  {
  }

  /** The lines of the keys in `order`, spelled out. */
  ghost function MissingTexts(index: set<IndexKey>, order: seq<HolderType>): seq<string> {
    seq(|order|, i requires 0 <= i < |order| =>
      "\t" + order[i].holder + "/" + order[i].typeId + ": no stored count, index holds "
      + Decimal(IndexCount(index, order[i])) + "\n")
  }

  lemma MissingTextsNone(index: set<IndexKey>)
    ensures MissingTexts(index, []) == []
  {
  }

  lemma MissingTextsNext(index: set<IndexKey>, order: seq<HolderType>, ht: HolderType)
    ensures MissingTexts(index, order + [ht]) == MissingTexts(index, order) + [MissingLine(ht, IndexCount(index, ht))]
  {
    hide IndexCount, Decimal;
  }

  lemma MissingReported(index: set<IndexKey>, keys: set<HolderType>, order: seq<HolderType>, lines: seq<string>)
    requires WalkOf(order, keys) && Sorted(lines) && multiset(lines) == multiset(MissingTexts(index, order))
    ensures ReportsMissing(index, keys, order, lines)
  {
    hide IndexCount, Decimal;
  }

  /** The leftover keys, visited in any order, and sorted afterwards. */
  method ListMissing(ghost index: set<IndexKey>, left: map<HolderType, uint64>)
    returns (missing: seq<string>, ghost order: seq<HolderType>)
    requires forall ht :: ht in left ==> left[ht] == IndexCount(index, ht)
    ensures Sorted(missing) && multiset(missing) == MissingLines(index, left.Keys) && |missing| == |left.Keys|
    ensures ReportsMissing(index, left.Keys, order, missing)
  {
    hide MissingLine, MissingLines, IndexCount, MissingTexts;
    missing, order := [], [];
    MissingNone(index);
    MissingTextsNone(index);
    var rest := left.Keys;
    while rest != {}
      invariant rest <= left.Keys && |missing| + |rest| == |left.Keys|
      invariant multiset(missing) + MissingLines(index, rest) == MissingLines(index, left.Keys)
      invariant WalkOf(order, left.Keys - rest) && missing == MissingTexts(index, order)
      decreases |rest|
    {
      var ht :| ht in rest;
      MissingLinesRemove(index, rest, ht);
      MissingTextsNext(index, order, ht);
      missing, order := missing + [MissingLine(ht, left[ht])], order + [ht];
      rest := rest - {ht};
    }
    assert left.Keys - rest == left.Keys;
    missing := SortStrings(missing);
    MissingReported(index, left.Keys, order, missing);
  }

  /**
    `CheckActiveLicenseCounts`.  The walks visit each stored key once; the
    report is the same whatever order the leftover map is visited in.
   */
  method CheckActiveLicenseCounts(index: set<IndexKey>, indexWalk: seq<IndexKey>,
                                  counts: map<HolderType, uint64>, countsWalk: seq<HolderType>)
    returns (err: Option<string>, problems: seq<string>, ghost at: seq<nat>, ghost order: seq<HolderType>)
    requires WalkOf(indexWalk, index) && |index| < TWO_64
    requires WalkOf(countsWalk, counts.Keys)
    ensures IsReport(index, counts, countsWalk, problems)
    ensures |at| <= |problems| && ReportsWrong(index, counts, countsWalk, at, problems[..|at|])
    ensures ReportsMissing(index, Prefixes(index) - counts.Keys, order, problems[|at|..])
    ensures |problems| == |Mismatched(index, counts)|
    ensures err.None? <==> forall ht :: Agrees(index, counts, ht)
    ensures err.Some? ==>
      err.value ==
      "active license counts: " + Decimal(|Mismatched(index, counts)|) + " problem(s):\n" + Concat(problems)
  {
    hide Counted, Agrees, Prefixes, ReportsWrong, ReportsMissing, IsReport;
    var want := CountIndex(index, indexWalk);
    var left;
    problems, left, at := CompareCounts(index, counts, countsWalk, want);
    var missing;
    missing, order := ListMissing(index, left);
    ghost var wrong := problems;
    WrongSize(index, counts, countsWalk, at, wrong);
    ReportOf(index, counts, countsWalk, missing);
    problems := problems + missing;
    assert problems[..|at|] == wrong && problems[|at|..] == missing;
    ProblemCount(index, counts, countsWalk);
    NoneMismatched(index, counts);
    if |problems| > 0 {
      err := Some("active license counts: " + Decimal(|problems|) + " problem(s):\n" + Concat(problems));
    } else {
      err := None;
    }
  }

  lemma ReportOf(index: set<IndexKey>, counts: map<HolderType, uint64>, walk: seq<HolderType>, missing: seq<string>)
    requires forall ht :: ht in walk ==> ht in counts
    requires Sorted(missing) && multiset(missing) == MissingLines(index, Prefixes(index) - counts.Keys)
    ensures IsReport(index, counts, walk, WrongLines(index, counts, walk) + missing)
  {
  }

  lemma WrongSize(index: set<IndexKey>, counts: map<HolderType, uint64>, walk: seq<HolderType>,
                  at: seq<nat>, lines: seq<string>)
    requires forall ht :: ht in walk ==> ht in counts
    requires ReportsWrong(index, counts, walk, at, lines)
    ensures |lines| == |at|
  {
  }

  /** The keys of the index: those of its entries. */
  lemma PrefixesMeans(index: set<IndexKey>, ht: HolderType)
    ensures ht in Prefixes(index) <==> exists k :: k in index && k.holder == ht.holder && k.typeId == ht.typeId
  {
    if k :| k in index && k.holder == ht.holder && k.typeId == ht.typeId {
      assert PrefixOf(k) == ht;
    }
  }

  /** A counter agrees if the stored number, 0 if there is none, is the number of entries of that holder and type. */
  lemma AgreesMeans(index: set<IndexKey>, counts: map<HolderType, uint64>, ht: HolderType)
    ensures
      Agrees(index, counts, ht) <==>
      (if ht in counts then counts[ht] else 0) ==
      |set k | k in index && k.holder == ht.holder && k.typeId == ht.typeId|
  {
    IndexCountMeans(index, ht);
  }

  lemma {:induction false} WrongCount(index: set<IndexKey>, counts: map<HolderType, uint64>, walk: seq<HolderType>)
    requires forall ht :: ht in walk ==> ht in counts
    requires forall i, j :: 0 <= i < j < |walk| ==> walk[i] != walk[j]
    ensures |WrongLines(index, counts, walk)| == |WrongKeys(index, counts, walk)|
    decreases |walk|
  {
    hide Agrees, WrongLine, WrongKeys;
    WrongKeysNil(index, counts);
    if walk != [] {
      var front, last := walk[..|walk| - 1], walk[|walk| - 1];
      WrongCount(index, counts, front);
      WrongKeysSnoc(index, counts, front, last);
      assert walk == front + [last];
    }
  }

  ghost function WrongKeys(index: set<IndexKey>, counts: map<HolderType, uint64>, walk: seq<HolderType>)
    : set<HolderType>
  {
    set ht | ht in walk && !Agrees(index, counts, ht)
  }

  lemma WrongKeysNil(index: set<IndexKey>, counts: map<HolderType, uint64>)
    ensures WrongKeys(index, counts, []) == {}
  {
  }

  lemma WrongKeysSnoc(index: set<IndexKey>, counts: map<HolderType, uint64>, front: seq<HolderType>, last: HolderType)
    requires last !in front
    ensures |WrongKeys(index, counts, front + [last])| ==
            |WrongKeys(index, counts, front)| + if Agrees(index, counts, last) then 0 else 1
  {
    hide Agrees;
    assert WrongKeys(index, counts, front + [last]) ==
           WrongKeys(index, counts, front) + if Agrees(index, counts, last) then {} else {last};
  }

  /** Wrong counters and missing ones are together all the mismatched keys. */
  lemma ProblemCount(index: set<IndexKey>, counts: map<HolderType, uint64>, walk: seq<HolderType>)
    requires WalkOf(walk, counts.Keys)
    ensures |WrongLines(index, counts, walk)| + |Prefixes(index) - counts.Keys| == |Mismatched(index, counts)|
  {
    WrongCount(index, counts, walk);
    var wrong := WrongKeys(index, counts, walk);
    var missing := Prefixes(index) - counts.Keys;
    forall ht | ht in missing
      ensures !Agrees(index, counts, ht)
    {
      AbsentCount(index, ht);
    }
    assert Mismatched(index, counts) == wrong + missing;
    assert wrong !! missing;
  }

  lemma NoneMismatched(index: set<IndexKey>, counts: map<HolderType, uint64>)
    ensures |Mismatched(index, counts)| == 0 <==> forall ht :: Agrees(index, counts, ht)
  {
    forall ht | ht !in counts.Keys + Prefixes(index)
      ensures Agrees(index, counts, ht)
    {
      AbsentCount(index, ht);
    }
    if |Mismatched(index, counts)| == 0 {
      forall ht
        ensures Agrees(index, counts, ht)
      {
        assert ht !in Mismatched(index, counts);
      }
    }
  }
}
