/**
  Grant and revoke events: how entries are joined into two attributes, and
  when an indexer can split them back into what was granted or revoked.
 */
module AccessEvents {
  import opened AccessTypes

  //
  // strings.Join and strings.Split for a one-character separator
  //

  function Join(xs: seq<string>, sep: char): string {
    if xs == [] then ""
    else if |xs| == 1 then xs[0]
    else xs[0] + [sep] + Join(xs[1..], sep)
  }

  function Split(s: string, sep: char): (ps: seq<string>)
    ensures ps != []
  {
    if s == "" then [""]
    else if s[0] == sep then [""] + Split(s[1..], sep)
    else
      var ps := Split(s[1..], sep);
      [[s[0]] + ps[0]] + ps[1..]
  }

  /** Joining puts one separator between neighbours and nothing else anywhere. */
  lemma {:induction false} JoinParts(xs: seq<string>, ys: seq<string>, x: string, sep: char)
    ensures Join([], sep) == "" && Join([x], sep) == x
    ensures xs != [] && ys != [] ==> Join(xs + ys, sep) == Join(xs, sep) + [sep] + Join(ys, sep)
  {
    if xs != [] && ys != [] {
      assert (xs + ys)[1..] == xs[1..] + ys;
      if |xs| > 1 {
        JoinParts(xs[1..], ys, x, sep);
      }
    }
  }

  /** Joining undoes splitting, for every string. */
  lemma {:induction false} JoinSplit(s: string, sep: char)
    ensures Join(Split(s, sep), sep) == s
  {
    if s != "" {
      var ps := Split(s[1..], sep);
      JoinSplit(s[1..], sep);
      if s[0] == sep {
        assert ([""] + ps)[1..] == ps;
      } else {
        var qs := [[s[0]] + ps[0]] + ps[1..];
        assert qs[1..] == ps[1..];
        assert |ps| == 1 ==> ps == [ps[0]];
      }
      assert s == [s[0]] + s[1..];
    }
  }

  ghost predicate AllFree(xs: seq<string>, c: char) {
    forall i :: 0 <= i < |xs| ==> c !in xs[i]
  }

  /** What `Split` yields never contains the separator. */
  lemma {:induction false} SplitFree(s: string, sep: char)
    ensures AllFree(Split(s, sep), sep)
  {
    if s != "" {
      SplitFree(s[1..], sep);
    }
  }

  lemma {:induction false} SplitFirst(x: string, t: string, sep: char)
    requires sep !in x
    ensures Split(x + [sep] + t, sep) == [x] + Split(t, sep)
  {
    if x == "" {
      assert ("" + [sep] + t)[1..] == t;
    } else {
      assert (x + [sep] + t)[1..] == x[1..] + [sep] + t;
      SplitFirst(x[1..], t, sep);
      assert [x[0]] + x[1..] == x;
    }
  }

  lemma {:induction false} SplitWhole(x: string, sep: char)
    requires sep !in x
    ensures Split(x, sep) == [x]
  {
    if x != "" {
      SplitWhole(x[1..], sep);
      assert [x[0]] + x[1..] == x;
    }
  }

  /** Splitting undoes joining, for at least one string without the separator. */
  lemma {:induction false} SplitJoin(xs: seq<string>, sep: char)
    requires xs != [] && AllFree(xs, sep)
    ensures Split(Join(xs, sep), sep) == xs
  {
    if |xs| == 1 {
      SplitWhole(xs[0], sep);
    } else {
      SplitFirst(xs[0], Join(xs[1..], sep), sep);
      SplitJoin(xs[1..], sep);
    }
  }

  lemma {:induction false} JoinFree(xs: seq<string>, sep: char, c: char)
    requires AllFree(xs, c) && c != sep
    ensures c !in Join(xs, sep)
  {
    if |xs| > 1 {
      JoinFree(xs[1..], sep, c);
    }
  }

  //
  // Events
  //

  datatype EventKind = GrantAccess | RevokeAccess

  datatype Event = Event(kind: EventKind, moduleName: string, grantee: string, actions: string, scopes: string)

  function Actions(entries: seq<Entry>): seq<string> {
    seq(|entries|, i requires 0 <= i < |entries| => entries[i].action)
  }

  function ScopeLists(entries: seq<Entry>): seq<string> {
    seq(|entries|, i requires 0 <= i < |entries| => Join(entries[i].scopes, ','))
  }

  function PairActions(pairs: seq<Pair>): seq<string> {
    seq(|pairs|, i requires 0 <= i < |pairs| => pairs[i].action)
  }

  function PairScopes(pairs: seq<Pair>): seq<string> {
    seq(|pairs|, i requires 0 <= i < |pairs| => pairs[i].scope)
  }

  function GrantEventOf(moduleName: string, grantee: string, entries: seq<Entry>): Event {
    Event(GrantAccess, moduleName, grantee, Join(Actions(entries), ','), Join(ScopeLists(entries), ';'))
  }

  function RevokeEventOf(moduleName: string, grantee: string, pairs: seq<Pair>): Event {
    Event(RevokeAccess, moduleName, grantee, Join(PairActions(pairs), ','), Join(PairScopes(pairs), ','))
  }

  method GrantEvent(moduleName: string, grantee: string, entries: seq<Entry>) returns (e: Event)
    ensures e == GrantEventOf(moduleName, grantee, entries)
    ensures e.kind == GrantAccess && e.moduleName == moduleName && e.grantee == grantee
    ensures e.actions == Join(seq(|entries|, i requires 0 <= i < |entries| => entries[i].action), ',')
    ensures
      e.scopes == Join(seq(|entries|, i requires 0 <= i < |entries| => Join(entries[i].scopes, ',')), ';')
  {
    var actions: seq<string>, scopeLists: seq<string> := [], [];
    for i := 0 to |entries|
      invariant actions == Actions(entries)[..i] && scopeLists == ScopeLists(entries)[..i]
    {
      actions := actions + [entries[i].action];
      scopeLists := scopeLists + [Join(entries[i].scopes, ',')];
    }
    assert actions == Actions(entries) && scopeLists == ScopeLists(entries);
    return Event(GrantAccess, moduleName, grantee, Join(actions, ','), Join(scopeLists, ';'));
  }

  method RevokeEvent(moduleName: string, grantee: string, pairs: seq<Pair>) returns (e: Event)
    ensures e == RevokeEventOf(moduleName, grantee, pairs)
    ensures e.kind == RevokeAccess && e.moduleName == moduleName && e.grantee == grantee
    ensures e.actions == Join(seq(|pairs|, i requires 0 <= i < |pairs| => pairs[i].action), ',')
    ensures e.scopes == Join(seq(|pairs|, i requires 0 <= i < |pairs| => pairs[i].scope), ',')
  {
    var actions: seq<string>, scopes: seq<string> := [], [];
    for i := 0 to |pairs|
      invariant actions == PairActions(pairs)[..i] && scopes == PairScopes(pairs)[..i]
    {
      actions := actions + [pairs[i].action];
      scopes := scopes + [pairs[i].scope];
    }
    assert actions == PairActions(pairs) && scopes == PairScopes(pairs);
    return Event(RevokeAccess, moduleName, grantee, Join(actions, ','), Join(scopes, ','));
  }

  //
  // What was granted, and reading it back from the event
  //

  /** The pairs of one entry; an empty scope list stands for the empty scope. */
  function EntryPairs(e: Entry): seq<Pair> {
    if e.scopes == [] then [Pair(e.action, "")]
    else seq(|e.scopes|, i requires 0 <= i < |e.scopes| => Pair(e.action, e.scopes[i]))
  }

  function Flatten(entries: seq<Entry>): seq<Pair> {
    if entries == [] then [] else EntryPairs(entries[0]) + Flatten(entries[1..])
  }

  /** `p` is granted by `e`: one of its scopes, or the empty scope if it lists none. */
  ghost predicate GrantsPair(e: Entry, p: Pair) {
    p.action == e.action && if e.scopes == [] then p.scope == "" else p.scope in e.scopes
  }

  /** What a list of entries grants, in both directions. */
  lemma {:induction false} FlattenMeans(entries: seq<Entry>, p: Pair)
    ensures p in Flatten(entries) <==> exists i :: 0 <= i < |entries| && GrantsPair(entries[i], p)
  {
    if entries != [] {
      var rest := entries[1..];
      FlattenMeans(rest, p);
      EntryPairsMeans(entries[0], p);
      if i :| 0 <= i < |rest| && GrantsPair(rest[i], p) {
        assert GrantsPair(entries[i + 1], p);
      }
      if i :| 0 <= i < |entries| && GrantsPair(entries[i], p) {
        if i > 0 {
          assert GrantsPair(rest[i - 1], p);
        }
      }
    }
  }

  /** The scopes of an entry are taken in order. */
  lemma EntryPairsInOrder(e: Entry, k: nat)
    ensures e.scopes == [] ==> EntryPairs(e) == [Pair(e.action, "")]
    ensures e.scopes != [] ==> |EntryPairs(e)| == |e.scopes|
    ensures k < |e.scopes| ==> EntryPairs(e)[k] == Pair(e.action, e.scopes[k])
  {
  }

  lemma EntryPairsMeans(e: Entry, p: Pair)
    ensures p in EntryPairs(e) <==> GrantsPair(e, p)
  {
    if e.scopes != [] && GrantsPair(e, p) {
      var j :| 0 <= j < |e.scopes| && e.scopes[j] == p.scope;
      assert EntryPairs(e)[j] == p;
    }
  }

  /** Pairs the n-th action with each scope of the n-th comma-separated list. */
  function ZipLists(actions: seq<string>, lists: seq<string>): seq<Pair> {
    if actions == [] || lists == [] then []
    else ZipScopes(actions[0], Split(lists[0], ',')) + ZipLists(actions[1..], lists[1..])
  }

  function ZipScopes(action: string, scopes: seq<string>): seq<Pair> {
    seq(|scopes|, i requires 0 <= i < |scopes| => Pair(action, scopes[i]))
  }

  /** `p` is action `i` under a part of list `i`. */
  ghost predicate ReadAt(actions: seq<string>, lists: seq<string>, p: Pair, i: nat) {
    i < |actions| && i < |lists| && p.action == actions[i] && p.scope in Split(lists[i], ',')
  }

  /** What an indexer reads, in both directions. */
  lemma {:induction false} ZipListsMeans(actions: seq<string>, lists: seq<string>, p: Pair)
    ensures p in ZipLists(actions, lists) <==> exists i :: ReadAt(actions, lists, p, i)
  {
    hide Split;
    if actions != [] && lists != [] {
      var as', ls := actions[1..], lists[1..];
      ZipListsMeans(as', ls, p);
      ZipScopesMeans(actions[0], Split(lists[0], ','), p);
      if i: nat :| ReadAt(actions, lists, p, i) {
        if i > 0 {
          assert ReadAt(as', ls, p, i - 1);
        }
      }
      if i: nat :| ReadAt(as', ls, p, i) {
        assert ReadAt(actions, lists, p, i + 1);
      }
      if p in ZipScopes(actions[0], Split(lists[0], ',')) {
        assert ReadAt(actions, lists, p, 0);
      }
    }
  }

  lemma ZipScopesMeans(action: string, scopes: seq<string>, p: Pair)
    ensures p in ZipScopes(action, scopes) <==> p.action == action && p.scope in scopes
  {
    if p.action == action && p.scope in scopes {
      var j :| 0 <= j < |scopes| && scopes[j] == p.scope;
      assert ZipScopes(action, scopes)[j] == p;
    }
  }

  function ZipPairs(actions: seq<string>, scopes: seq<string>): seq<Pair> {
    if actions == [] || scopes == [] then [] else [Pair(actions[0], scopes[0])] + ZipPairs(actions[1..], scopes[1..])
  }

  /** What an indexer reads from the two attributes of an event. */
  function ReadEvent(e: Event): seq<Pair> {
    match e.kind
    case GrantAccess => ZipLists(Split(e.actions, ','), Split(e.scopes, ';'))
    case RevokeAccess => ZipPairs(Split(e.actions, ','), Split(e.scopes, ','))
  }

  /** No scope contains one of the separators that join them. */
  ghost predicate CleanEntries(entries: seq<Entry>) {
    forall i :: 0 <= i < |entries| ==> AllFree(entries[i].scopes, ',') && AllFree(entries[i].scopes, ';')
  }

  ghost predicate CleanPairs(pairs: seq<Pair>) {
    AllFree(PairScopes(pairs), ',')
  }

  lemma ValidActionFree(a: string)
    requires ValidAction(a)
    ensures ',' !in a && '/' !in a
  {
  }

  lemma {:induction false} ZipListsOfEntries(entries: seq<Entry>)
    requires CleanEntries(entries)
    ensures ZipLists(Actions(entries), ScopeLists(entries)) == Flatten(entries)
  {
    if entries != [] {
      var e := entries[0];
      assert Actions(entries)[1..] == Actions(entries[1..]);
      assert ScopeLists(entries)[1..] == ScopeLists(entries[1..]);
      ZipListsOfEntries(entries[1..]);
      if e.scopes == [] {
        SplitWhole("", ',');
        assert ZipScopes(e.action, [""]) == EntryPairs(e);
      } else {
        SplitJoin(e.scopes, ',');
        assert ZipScopes(e.action, e.scopes) == EntryPairs(e);
      }
    }
  }

  lemma {:induction false} ZipListsClean(actions: seq<string>, lists: seq<string>)
    requires AllFree(lists, ';')
    ensures forall p :: p in ZipLists(actions, lists) ==> ',' !in p.scope && ';' !in p.scope
  {
    if actions != [] && lists != [] {
      ZipListsClean(actions[1..], lists[1..]);
      SplitFree(lists[0], ',');
      SplitKeepsFree(lists[0], ',', ';');
    }
  }

  lemma {:induction false} SplitKeepsFree(s: string, sep: char, c: char)
    requires c !in s
    ensures AllFree(Split(s, sep), c)
  {
    if s != "" {
      SplitKeepsFree(s[1..], sep, c);
    }
  }

  lemma {:induction false} ScopeInFlatten(entries: seq<Entry>, i: nat, j: nat)
    requires i < |entries| && j < |entries[i].scopes|
    ensures Pair(entries[i].action, entries[i].scopes[j]) in Flatten(entries)
  {
    if i == 0 {
      assert EntryPairs(entries[0])[j] == Pair(entries[0].action, entries[0].scopes[j]);
    } else {
      ScopeInFlatten(entries[1..], i - 1, j);
    }
  }

  /** What an event of valid, delimiter-free entries is read back as: exactly what was granted. */
  lemma GrantEventReadsBack(moduleName: string, grantee: string, entries: seq<Entry>)
    requires GrantEntriesOk(entries) && CleanEntries(entries)
    ensures ReadEvent(GrantEventOf(moduleName, grantee, entries)) == Flatten(entries)
  {
    forall i | 0 <= i < |entries|
      ensures ',' !in Actions(entries)[i] && ';' !in ScopeLists(entries)[i]
    {
      ValidActionFree(entries[i].action);
      JoinFree(entries[i].scopes, ',', ';');
    }
    SplitJoin(Actions(entries), ',');
    SplitJoin(ScopeLists(entries), ';');
    ZipListsOfEntries(entries);
  }

  /**
    The condition is exact: for entries that pass the message checks, the set
    of pairs read back from the event is the set granted if and only if no scope
    contains a comma or a semicolon.
   */
  lemma GrantEventFaithfulIffClean(moduleName: string, grantee: string, entries: seq<Entry>)
    requires GrantEntriesOk(entries)
    ensures
      var read := ReadEvent(GrantEventOf(moduleName, grantee, entries));
      (forall p :: p in read <==> p in Flatten(entries)) <==> CleanEntries(entries)
  {
    var e := GrantEventOf(moduleName, grantee, entries);
    var read := ReadEvent(e);
    if CleanEntries(entries) {
      GrantEventReadsBack(moduleName, grantee, entries);
    }
    SplitFree(e.scopes, ';');
    ZipListsClean(Split(e.actions, ','), Split(e.scopes, ';'));
    if forall p :: p in read <==> p in Flatten(entries) {
      forall i, j | 0 <= i < |entries| && 0 <= j < |entries[i].scopes|
        ensures ',' !in entries[i].scopes[j] && ';' !in entries[i].scopes[j]
      {
        ScopeInFlatten(entries, i, j);
      }
    }
  }

  lemma {:induction false} ZipPairsOfPairs(pairs: seq<Pair>)
    ensures ZipPairs(PairActions(pairs), PairScopes(pairs)) == pairs
  {
    if pairs != [] {
      assert PairActions(pairs)[1..] == PairActions(pairs[1..]);
      assert PairScopes(pairs)[1..] == PairScopes(pairs[1..]);
      ZipPairsOfPairs(pairs[1..]);
      assert pairs == [pairs[0]] + pairs[1..];
    }
  }

  lemma {:induction false} ZipPairsClean(actions: seq<string>, scopes: seq<string>)
    requires AllFree(scopes, ',')
    ensures forall p :: p in ZipPairs(actions, scopes) ==> ',' !in p.scope
  {
    if actions != [] && scopes != [] {
      ZipPairsClean(actions[1..], scopes[1..]);
    }
  }

  lemma RevokeEventReadsBack(moduleName: string, grantee: string, pairs: seq<Pair>)
    requires RevokePairsOk(pairs) && CleanPairs(pairs)
    ensures ReadEvent(RevokeEventOf(moduleName, grantee, pairs)) == pairs
  {
    forall i | 0 <= i < |pairs|
      ensures ',' !in PairActions(pairs)[i]
    {
      ValidActionFree(pairs[i].action);
    }
    SplitJoin(PairActions(pairs), ',');
    SplitJoin(PairScopes(pairs), ',');
    ZipPairsOfPairs(pairs);
  }

  /** A revoke event is read back as the pairs revoked if and only if no scope contains a comma. */
  lemma RevokeEventFaithfulIffClean(moduleName: string, grantee: string, pairs: seq<Pair>)
    requires RevokePairsOk(pairs)
    ensures
      var read := ReadEvent(RevokeEventOf(moduleName, grantee, pairs));
      (forall p :: p in read <==> p in pairs) <==> CleanPairs(pairs)
  {
    var e := RevokeEventOf(moduleName, grantee, pairs);
    var read := ReadEvent(e);
    if CleanPairs(pairs) {
      RevokeEventReadsBack(moduleName, grantee, pairs);
    }
    SplitFree(e.scopes, ',');
    ZipPairsClean(Split(e.actions, ','), Split(e.scopes, ','));
    if forall p :: p in read <==> p in pairs {
      forall i | 0 <= i < |pairs|
        ensures ',' !in PairScopes(pairs)[i]
      {
        assert pairs[i] in pairs;
      }
    }
  }
}
