/** Whole runs of the grant store: safety, last writer, event replay and genesis. */
module GrantRuns {
  import opened Sets
  import opened AccessTypes
  import opened AccessEvents
  import opened GrantStore

  //
  // Safety
  //

  ghost predicate LooksBefore(op: Op, look: Scopes) {
    op.RevokeOp? || forall s :: op.look(s) == Exists ==> look(s) == Exists
  }

  /** Scopes that existed at any operation of the run still exist for `look`. */
  ghost predicate ScopesKept(ops: seq<Op>, look: Scopes) {
    forall i :: 0 <= i < |ops| ==> LooksBefore(ops[i], look)
  }

  lemma {:induction false} PairInFlatten(entries: seq<Entry>, p: Pair)
    requires p in Flatten(entries)
    ensures exists i :: 0 <= i < |entries| && p in EntryPairs(entries[i])
  {
    if p !in EntryPairs(entries[0]) {
      PairInFlatten(entries[1..], p);
      var i :| 0 <= i < |entries[1..]| && p in EntryPairs(entries[1..][i]);
      assert p in EntryPairs(entries[i + 1]);
    }
  }

  lemma AddsValid(spec: Spec, op: Op, look: Scopes, k: Key)
    requires LooksBefore(op, look) && k in Adds(spec, op)
    ensures PairOk(spec, look, KeyPair(k))
  {
    match op
    case GrantOp(grantee, entries, now) =>
      var p :| p in Flatten(entries) && k == Key(grantee, p.action, p.scope);
      PairInFlatten(entries, p);
      var i :| 0 <= i < |entries| && p in EntryPairs(entries[i]);
      assert EntryOk(spec, now, entries[i]);
      assert PairOk(spec, now, p) && KeyPair(k) == p;
    case RevokeOp(_, _) =>
    case ImportOp(list, now) =>
  }

  /**
    Safety over whole runs: after any operations on an empty store, accepted
    or not, every stored triple is of a known action, an unscoped action is stored
    under the empty scope only, and in a module that scopes every other action is
    stored under a non-empty scope that still exists.
   */
  lemma {:induction false} StoredKeysValid(spec: Spec, ops: seq<Op>, look: Scopes, k: Key)
    requires ScopesKept(ops, look) && k in Run(spec, {}, ops)
    ensures spec.HasAction(k.action)
    ensures spec.IsUnscoped(k.action) ==> k.scope == ""
    ensures spec.scoping && !spec.IsUnscoped(k.action) ==> k.scope != "" && look(k.scope) == Exists
    decreases |ops|
  {
    if ops != [] {
      var front, op := ops[..|ops| - 1], ops[|ops| - 1];
      if k in Adds(spec, op) {
        AddsValid(spec, op, look, k);
      } else {
        assert forall i :: 0 <= i < |front| ==> front[i] == ops[i];
        StoredKeysValid(spec, front, look, k);
      }
    }
  }

  //
  // Refinement to the last operation that names a triple
  //

  /** Operation `i` wrote `k` and no later one removed it. */
  ghost predicate WrittenLast(spec: Spec, ops: seq<Op>, k: Key, i: nat) {
    && i < |ops| && k in Adds(spec, ops[i])
    && forall j :: i < j < |ops| ==> k !in Removes(spec, ops[j])
  }

  /** `k` was there from the start, or was written, and no later operation removed it. */
  ghost predicate Held(spec: Spec, s: set<Key>, ops: seq<Op>, k: Key) {
    || (k in s && forall j :: 0 <= j < |ops| ==> k !in Removes(spec, ops[j]))
    || exists i :: WrittenLast(spec, ops, k, i)
  }

  /** A triple is stored exactly when the last successful operation naming it, if any, wrote it. */
  lemma {:induction false} HeldIffWrittenLast(spec: Spec, s: set<Key>, ops: seq<Op>, k: Key)
    ensures k in Run(spec, s, ops) <==> Held(spec, s, ops, k)
    decreases |ops|
  {
    hide Adds, Removes;
    if ops != [] {
      var n := |ops| - 1;
      var front := ops[..n];
      assert forall i :: 0 <= i < n ==> front[i] == ops[i];
      HeldIffWrittenLast(spec, s, front, k);
      if k in Run(spec, s, ops) {
        if k in Adds(spec, ops[n]) {
          assert WrittenLast(spec, ops, k, n);
        } else if i: nat :| WrittenLast(spec, front, k, i) {
          assert WrittenLast(spec, ops, k, i);
        }
      }
      if i: nat :| WrittenLast(spec, ops, k, i) {
        if i < n {
          assert WrittenLast(spec, front, k, i);
        }
      }
    }
  }

  /** What the store answers after a run of its operations. */
  lemma HasGrantIffHeld(g: Grants, s: set<Key>, ops: seq<Op>, grantee: string, action: string, scope: string)
    requires g.grants == Run(g.spec, s, ops)
    ensures g.HasGrant(grantee, action, scope) <==> Held(g.spec, s, ops, Key(grantee, action, scope))
  {
    HeldIffWrittenLast(g.spec, s, ops, Key(grantee, action, scope));
  }

  //
  // Size and scope of one grant
  //

  lemma {:induction false} SeqSetSize<T>(xs: seq<T>, s: set<T>)
    requires forall x :: x in s ==> x in xs
    ensures |s| <= |xs|
    decreases |xs|
  {
    if xs == [] {
      assert s == {};
    } else {
      var rest := s - {xs[0]};
      assert forall x :: x in rest ==> x in xs[1..];
      SeqSetSize(xs[1..], rest);
      assert s <= rest + {xs[0]};
      SubsetSize(s, rest + {xs[0]});
    }
  }

  lemma {:induction false} FlattenSize(entries: seq<Entry>)
    requires forall i :: 0 <= i < |entries| ==> |entries[i].scopes| <= MAX_GRANTS
    ensures |Flatten(entries)| <= MAX_GRANTS * |entries|
  {
    if entries != [] {
      FlattenSize(entries[1..]);
    }
  }

  /** An accepted grant adds at most 10,000 triples, all of its grantee. */
  lemma GrantBounded(spec: Spec, s: set<Key>, grantee: string, entries: seq<Entry>, look: Scopes)
    ensures
      var s' := Apply(spec, s, GrantOp(grantee, entries, look));
      && s <= s' && |s' - s| <= 10000
      && forall k :: k in s' && k.grantee != grantee ==> k in s
  {
    var op := GrantOp(grantee, entries, look);
    if Accepted(spec, op) {
      var pairs := Flatten(entries);
      assert forall i :: 0 <= i < |entries| ==> EntryOk(spec, look, entries[i]);
      FlattenSize(entries);
      var keys := seq(|pairs|, i requires 0 <= i < |pairs| => Key(grantee, pairs[i].action, pairs[i].scope));
      forall k | k in KeysOf(grantee, pairs)
        ensures k in keys
      {
        var p :| p in pairs && k == Key(grantee, p.action, p.scope);
        var i :| 0 <= i < |pairs| && pairs[i] == p;
        assert keys[i] == k;
      }
      SeqSetSize(keys, KeysOf(grantee, pairs));
      SubsetSize(Apply(spec, s, op) - s, KeysOf(grantee, pairs));
    } else {
      assert Apply(spec, s, op) - s == {};
    }
  }

  //
  // Event replay
  //

  ghost function ReplayOne(s: set<Key>, e: Event): set<Key> {
    match e.kind
    case GrantAccess => s + KeysOf(e.grantee, ReadEvent(e))
    case RevokeAccess => s - KeysOf(e.grantee, ReadEvent(e))
  }

  /** Folding a log of events over a set of triples. */
  ghost function Replay(s: set<Key>, log: seq<Event>): set<Key> {
    if log == [] then s else ReplayOne(Replay(s, log[..|log| - 1]), log[|log| - 1])
  }

  ghost function Log(spec: Spec, moduleName: string, ops: seq<Op>): seq<Event> {
    if ops == [] then [] else Log(spec, moduleName, ops[..|ops| - 1]) + Emits(spec, moduleName, ops[|ops| - 1])
  }

  /** A grant or revoke that passed its message checks, with scopes free of separators. */
  ghost predicate CleanMessage(op: Op) {
    match op
    case GrantOp(_, entries, _) => GrantEntriesOk(entries) && CleanEntries(entries)
    case RevokeOp(_, pairs) => RevokePairsOk(pairs) && CleanPairs(pairs)
    case ImportOp(_, _) => false
  }

  lemma ReplayOp(spec: Spec, moduleName: string, s: set<Key>, op: Op)
    requires CleanMessage(op)
    ensures Accepted(spec, op) ==>
      |Emits(spec, moduleName, op)| == 1 && ReplayOne(s, Emits(spec, moduleName, op)[0]) == Apply(spec, s, op)
    ensures !Accepted(spec, op) ==> Emits(spec, moduleName, op) == [] && Apply(spec, s, op) == s
  {
    match op
    case GrantOp(grantee, entries, _) => GrantEventReadsBack(moduleName, grantee, entries);
    case RevokeOp(grantee, pairs) => RevokeEventReadsBack(moduleName, grantee, pairs);
  }

  /**
    The event log replays to the state: over any run of such messages, splitting
    the emitted events and folding them over the initial set gives the stored set.
   */
  lemma {:induction false} LogReplays(spec: Spec, moduleName: string, s: set<Key>, ops: seq<Op>)
    requires forall i :: 0 <= i < |ops| ==> CleanMessage(ops[i])
    ensures Replay(s, Log(spec, moduleName, ops)) == Run(spec, s, ops)
    decreases |ops|
  {
    hide CleanMessage, Emits, Accepted, Apply, ReplayOne;
    if ops != [] {
      var front, op := ops[..|ops| - 1], ops[|ops| - 1];
      var log := Log(spec, moduleName, front);
      LogReplays(spec, moduleName, s, front);
      ReplayOp(spec, moduleName, Run(spec, s, front), op);
      if Accepted(spec, op) {
        assert (log + Emits(spec, moduleName, op))[..|log|] == log;
      } else {
        assert log + [] == log;
      }
    }
  }

  lemma RunOfOne(spec: Spec, op: Op)
    requires op.GrantOp? && Accepted(spec, op)
    ensures Run(spec, {}, [op]) == KeysOf(op.grantee, Flatten(op.entries))
  {
    hide Flatten, KeysOf, EntriesOk;
    assert [op][..0] == [];
    assert Run(spec, {}, []) == {};
  }

  lemma ReplayOfOne(spec: Spec, moduleName: string, op: Op)
    requires op.GrantOp? && Accepted(spec, op)
    ensures
      var e := GrantEventOf(moduleName, op.grantee, op.entries);
      Replay({}, Log(spec, moduleName, [op])) == KeysOf(op.grantee, ReadEvent(e))
  {
    hide ReadEvent, KeysOf, Accepted;
    var e := GrantEventOf(moduleName, op.grantee, op.entries);
    assert [op][..0] == [] && [e][..0] == [];
    assert Log(spec, moduleName, [op]) == [e];
    assert Replay({}, []) == {};
  }

  lemma {:induction false} RunInOrder(spec: Spec, s: set<Key>, a: seq<Op>, b: seq<Op>)
    ensures Run(spec, s, a + b) == Run(spec, Run(spec, s, a), b)
    decreases |b|
  {
    hide Apply;
    if b == [] {
      assert a + b == a;
    } else {
      assert (a + b)[..|a + b| - 1] == a + b[..|b| - 1];
      RunInOrder(spec, s, a, b[..|b| - 1]);
    }
  }

  lemma {:induction false} ReplayInOrder(s: set<Key>, a: seq<Event>, b: seq<Event>)
    ensures Replay(s, a + b) == Replay(Replay(s, a), b)
    decreases |b|
  {
    hide ReplayOne;
    if b == [] {
      assert a + b == a;
    } else {
      assert (a + b)[..|a + b| - 1] == a + b[..|b| - 1];
      ReplayInOrder(s, a, b[..|b| - 1]);
    }
  }

  lemma RunOne(spec: Spec, moduleName: string, s: set<Key>, ops: seq<Op>, i: nat)
    requires i < |ops|
    ensures Run(spec, s, ops[..i + 1]) == Apply(spec, Run(spec, s, ops[..i]), ops[i])
    ensures Log(spec, moduleName, ops[..i + 1]) == Log(spec, moduleName, ops[..i]) + Emits(spec, moduleName, ops[i])
  {
    hide Apply, Emits;
    assert ops[..i + 1][..i] == ops[..i];
  }

  /**
    A run on the store itself, one call after the other: it ends with the grants
    and the events that `Run` and `Log` say, and if all calls are clean messages,
    the events it emitted replay to the grants it ended with.
   */
  method Perform(g: Grants, ops: seq<Op>)
    modifies g
    ensures g.grants == Run(g.spec, old(g.grants), ops)
    ensures g.events == old(g.events) + Log(g.spec, g.moduleName, ops)
    ensures (forall i :: 0 <= i < |ops| ==> CleanMessage(ops[i])) ==>
      Replay(old(g.grants), g.events[|old(g.events)|..]) == g.grants
  {
    hide Apply, Emits, CleanMessage, Accepted, Replay, Run, Log;
    assert ops[..0] == [];
    EmptyRun(g.spec, g.moduleName, g.grants);
    for i := 0 to |ops|
      invariant g.grants == Run(g.spec, old(g.grants), ops[..i])
      invariant g.events == old(g.events) + Log(g.spec, g.moduleName, ops[..i])
    {
      RunOne(g.spec, g.moduleName, old(g.grants), ops, i);
      match ops[i] {
        case GrantOp(grantee, entries, look) => var _ := g.GrantTo(grantee, entries, look);
        case RevokeOp(target, pairs) => var _ := g.RevokeFrom(target, pairs);
        case ImportOp(list, look) =>
          ImportEmitsNothing(g.spec, g.moduleName, ops[i]);
          var _ := g.Init(list, look);
      }
    }
    assert ops[..|ops|] == ops;
    if forall i :: 0 <= i < |ops| ==> CleanMessage(ops[i]) {
      LogReplays(g.spec, g.moduleName, old(g.grants), ops);
    }
  }

  lemma EmptyRun(spec: Spec, moduleName: string, s: set<Key>)
    ensures Run(spec, s, []) == s && Log(spec, moduleName, []) == []
  {
  }

  lemma ImportEmitsNothing(spec: Spec, moduleName: string, op: Op)
    requires op.ImportOp?
    ensures Emits(spec, moduleName, op) == []
  {
  }

  /**
    The condition is exact: on an empty store, the log of one accepted grant
    replays to the stored set if and only if no scope contains a comma or a semicolon.
   */
  lemma GrantReplaysIffClean(spec: Spec, moduleName: string, op: Op)
    requires op.GrantOp? && Accepted(spec, op) && GrantEntriesOk(op.entries)
    ensures Replay({}, Log(spec, moduleName, [op])) == Run(spec, {}, [op]) <==> CleanEntries(op.entries)
  {
    hide ReadEvent, Flatten, KeysOf, Accepted, GrantEventOf, CleanEntries, Replay, Log, Run;
    var e := GrantEventOf(moduleName, op.grantee, op.entries);
    RunOfOne(spec, op);
    ReplayOfOne(spec, moduleName, op);
    GrantEventFaithfulIffClean(moduleName, op.grantee, op.entries);
    SameKeysSamePairs(op.grantee, ReadEvent(e), Flatten(op.entries));
  }

  lemma SameKeysSamePairs(grantee: string, ps: seq<Pair>, qs: seq<Pair>)
    ensures KeysOf(grantee, ps) == KeysOf(grantee, qs) <==> forall p :: p in ps <==> p in qs
  {
    forall p: Pair
      ensures Key(grantee, p.action, p.scope) in KeysOf(grantee, ps) <==> p in ps
      ensures Key(grantee, p.action, p.scope) in KeysOf(grantee, qs) <==> p in qs
    {
      KeyMember(grantee, ps, p);
      KeyMember(grantee, qs, p);
    }
  }

  /**
    So an indexer can read another grant than was made: a store that does not
    scope accepts one scope with a comma, and its log replays to another set.
   */
  lemma CommaScopeReplaysWrong(moduleName: string, grantee: string, look: Scopes)
    ensures
      var spec := Spec(["issue"], false, []);
      var op := GrantOp(grantee, [Entry("issue", ["a,b"])], look);
      && SpecOk(spec) && GrantEntriesOk(op.entries) && Accepted(spec, op)
      && Replay({}, Log(spec, moduleName, [op])) != Run(spec, {}, [op])
  {
    hide Replay, Log, Run;
    var spec := Spec(["issue"], false, []);
    var entries := [Entry("issue", ["a,b"])];
    var op := GrantOp(grantee, entries, look);
    assert entries[0].scopes[0][1] == ',';
    GrantReplaysIffClean(spec, moduleName, op);
  }

  lemma KeyMember(grantee: string, pairs: seq<Pair>, p: Pair)
    ensures Key(grantee, p.action, p.scope) in KeysOf(grantee, pairs) <==> p in pairs
  {
    if q :| q in pairs && Key(grantee, q.action, q.scope) == Key(grantee, p.action, p.scope) {
      assert p == q;
    }
  }
}
