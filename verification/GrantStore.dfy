/** A module's grant store: validated grants, unchecked revokes, genesis import and export. */
module GrantStore {
  import opened Options
  import opened Ordering
  import opened AccessTypes
  import opened AccessEvents

  /** What the owning module's scope validator answers; lookups can fail. */
  datatype Lookup = Exists | Missing | Broken

  type Scopes = string -> Lookup

  datatype PairError = InvalidAction | InvalidScope | LookupFailed

  datatype GrantError =
    | TooManyEntries
    | TooManyScopes(index: nat)
    | BadPair(index: nat, reason: PairError)

  /** What the specification asks of a pair, given the scopes that exist. */
  predicate PairOk(spec: Spec, look: Scopes, p: Pair) {
    && spec.HasAction(p.action)
    && (spec.IsUnscoped(p.action) ==> p.scope == "")
    && (!spec.IsUnscoped(p.action) && spec.scoping ==> p.scope != "" && look(p.scope) == Exists)
  }

  /** `validatePair`. */
  function ValidatePair(spec: Spec, look: Scopes, p: Pair): (err: Option<PairError>)
    ensures err.None? <==> PairOk(spec, look, p)
    ensures err.None? <==>
      && p.action in spec.actions
      && if p.action in spec.unscoped then p.scope == ""
         else spec.scoping ==> p.scope != "" && look(p.scope) == Exists
    ensures err == Some(InvalidAction) <==> p.action !in spec.actions
    ensures err == Some(LookupFailed) <==>
      && p.action in spec.actions && p.action !in spec.unscoped && spec.scoping
      && p.scope != "" && look(p.scope) == Broken
  {
    if !spec.HasAction(p.action) then Some(InvalidAction)
    else if spec.IsUnscoped(p.action) then
      if p.scope != "" then Some(InvalidScope) else None
    else if !spec.scoping then None
    else if p.scope == "" then Some(InvalidScope)
    else match look(p.scope)
      case Broken => Some(LookupFailed)
      case Missing => Some(InvalidScope)
      case Exists => None
  }

  function KeyPair(k: Key): Pair {
    Pair(k.action, k.scope)
  }

  function KeysOf(grantee: string, pairs: seq<Pair>): set<Key> {
    set p | p in pairs :: Key(grantee, p.action, p.scope)
  }

  lemma KeysOfMeans(grantee: string, pairs: seq<Pair>, k: Key)
    ensures k in KeysOf(grantee, pairs) <==> k.grantee == grantee && Pair(k.action, k.scope) in pairs
  {
    if k.grantee == grantee && Pair(k.action, k.scope) in pairs {
      var p := Pair(k.action, k.scope);
      assert k == Key(grantee, p.action, p.scope);
    }
  }

  /** Some entry grants the pair. */
  ghost predicate Granted(entries: seq<Entry>, p: Pair) {
    exists i :: 0 <= i < |entries| && GrantsPair(entries[i], p)
  }

  lemma GrantedKeys(grantee: string, entries: seq<Entry>)
    ensures forall k ::
      k in KeysOf(grantee, Flatten(entries)) <==> k.grantee == grantee && Granted(entries, Pair(k.action, k.scope))
  {
    hide KeysOf, Flatten, GrantsPair;
    forall k: Key
      ensures
        k in KeysOf(grantee, Flatten(entries)) <==> k.grantee == grantee && Granted(entries, Pair(k.action, k.scope))
    {
      KeysOfMeans(grantee, Flatten(entries), k);
      FlattenMeans(entries, Pair(k.action, k.scope));
    }
  }

  lemma EntriesOkMeans(spec: Spec, look: Scopes, entries: seq<Entry>)
    ensures
      EntriesOk(spec, look, entries) <==>
      && |entries| <= 100 && (forall i :: 0 <= i < |entries| ==> |entries[i].scopes| <= 100)
      && forall p :: Granted(entries, p) ==> PairOk(spec, look, p)
  {
    hide PairOk, GrantsPair, EntryPairs;
    forall i, p | 0 <= i < |entries|
      ensures p in EntryPairs(entries[i]) <==> GrantsPair(entries[i], p)
    {
      EntryPairsMeans(entries[i], p);
    }
    if EntriesOk(spec, look, entries) {
      forall p | Granted(entries, p)
        ensures PairOk(spec, look, p)
      {
        var i :| 0 <= i < |entries| && GrantsPair(entries[i], p);
        assert EntryOk(spec, look, entries[i]);
      }
    }
  }

  predicate EntryOk(spec: Spec, look: Scopes, e: Entry) {
    && |e.scopes| <= MAX_GRANTS
    && forall p :: p in EntryPairs(e) ==> PairOk(spec, look, p)
  }

  predicate EntriesOk(spec: Spec, look: Scopes, entries: seq<Entry>) {
    && |entries| <= MAX_GRANTS
    && forall i :: 0 <= i < |entries| ==> EntryOk(spec, look, entries[i])
  }

  /**
    The reason a grant is refused: the first entry that is not acceptable,
    and in it the first pair that is not.
   */
  ghost predicate Blames(spec: Spec, look: Scopes, entries: seq<Entry>, err: GrantError) {
    match err
    case TooManyEntries => |entries| > MAX_GRANTS
    case _ =>
      && err.index < |entries| <= MAX_GRANTS
      && (forall j :: 0 <= j < err.index ==> EntryOk(spec, look, entries[j]))
      && BlamesEntry(spec, look, entries[err.index], err)
  }

  ghost predicate BlamesEntry(spec: Spec, look: Scopes, e: Entry, err: GrantError) {
    match err
    case TooManyEntries => false
    case TooManyScopes(_) => |e.scopes| > MAX_GRANTS
    case BadPair(_, reason) =>
      && |e.scopes| <= MAX_GRANTS
      && exists k :: 0 <= k < |EntryPairs(e)| && FirstBad(spec, look, EntryPairs(e), k, reason)
  }

  ghost predicate FirstBad(spec: Spec, look: Scopes, pairs: seq<Pair>, k: nat, reason: PairError) {
    && k < |pairs| && ValidatePair(spec, look, pairs[k]) == Some(reason)
    && forall q :: 0 <= q < k ==> PairOk(spec, look, pairs[q])
  }

  //
  // Operations and runs
  //

  /** A call on the store, with the scopes that exist when it is made. */
  datatype Op =
    | GrantOp(grantee: string, entries: seq<Entry>, look: Scopes)
    | RevokeOp(target: string, pairs: seq<Pair>)
    | ImportOp(list: seq<Key>, look: Scopes)

  /** How many grants an import writes before it meets an invalid one. */
  function ValidPrefix(spec: Spec, look: Scopes, list: seq<Key>): (n: nat)
    ensures n <= |list|
    ensures forall i :: 0 <= i < n ==> PairOk(spec, look, KeyPair(list[i]))
    ensures n < |list| ==> !PairOk(spec, look, KeyPair(list[n]))
  {
    if list == [] || !PairOk(spec, look, KeyPair(list[0])) then 0
    else 1 + ValidPrefix(spec, look, list[1..])
  }

  ghost predicate Accepted(spec: Spec, op: Op) {
    match op
    case GrantOp(_, entries, look) => EntriesOk(spec, look, entries)
    case RevokeOp(_, pairs) => |pairs| <= MAX_GRANTS
    case ImportOp(list, look) => ValidPrefix(spec, look, list) == |list|
  }

  /** The triples an operation writes; a failing import keeps its valid prefix. */
  ghost function Adds(spec: Spec, op: Op): set<Key> {
    match op
    case GrantOp(grantee, entries, look) =>
      if Accepted(spec, op) then KeysOf(grantee, Flatten(entries)) else {}
    case RevokeOp(_, _) => {}
    case ImportOp(list, look) => set k | k in list[..ValidPrefix(spec, look, list)]
  }

  ghost function Removes(spec: Spec, op: Op): set<Key> {
    match op
    case RevokeOp(grantee, pairs) => if Accepted(spec, op) then KeysOf(grantee, pairs) else {}
    case _ => {}
  }

  ghost function Apply(spec: Spec, s: set<Key>, op: Op): set<Key> {
    s - Removes(spec, op) + Adds(spec, op)
  }

  ghost function Run(spec: Spec, s: set<Key>, ops: seq<Op>): set<Key> {
    if ops == [] then s
    else Apply(spec, Run(spec, s, ops[..|ops| - 1]), ops[|ops| - 1])
  }

  /** The events an operation emits. */
  ghost function Emits(spec: Spec, moduleName: string, op: Op): seq<Event> {
    if !Accepted(spec, op) then [] else
    match op
    case GrantOp(grantee, entries, _) => [GrantEventOf(moduleName, grantee, entries)]
    case RevokeOp(grantee, pairs) => [RevokeEventOf(moduleName, grantee, pairs)]
    case ImportOp(_, _) => []
  }

  //
  // The store
  //

  lemma {:induction false} FlattenSnoc(entries: seq<Entry>, i: nat)
    requires i < |entries|
    ensures Flatten(entries[..i + 1]) == Flatten(entries[..i]) + EntryPairs(entries[i])
  {
    if i == 0 {
      assert entries[..1] == [entries[0]];
    } else {
      assert entries[..i + 1][1..] == entries[1..][..i];
      assert entries[..i][1..] == entries[1..][..i - 1];
      FlattenSnoc(entries[1..], i - 1);
    }
  }

  lemma ExtendSet(list: seq<Key>, k: Key)
    ensures (set x | x in list + [k]) == (set x | x in list) + {k}
  {
    assert forall x :: x in list + [k] <==> x in list || x == k;
  }

  class Grants {
    const moduleName: string
    const spec: Spec
    var grants: set<Key>
    var events: seq<Event>

    /** `NewGrants` panics on an invalid specification. */
    constructor (moduleName: string, spec: Spec)
      requires SpecOk(spec)
      ensures this.moduleName == moduleName && this.spec == spec
      ensures grants == {} && events == []
    {
      this.moduleName, this.spec := moduleName, spec;
      grants, events := {}, [];
    }

    predicate HasGrant(grantee: string, action: string, scope: string)
      reads this
    {
      Key(grantee, action, scope) in grants
    }

    /** Resolves entry `i`; an empty scope list stands for the empty scope. */
    method ResolveEntry(i: nat, e: Entry, look: Scopes) returns (err: Option<GrantError>, pairs: seq<Pair>)
      ensures err.None? <==> EntryOk(spec, look, e)
      ensures err.Some? ==> BlamesEntry(spec, look, e, err.value) && err.value.index == i
      ensures err.None? ==> pairs == EntryPairs(e)
    {
      pairs := [];
      if |e.scopes| > MAX_GRANTS {
        return Some(TooManyScopes(i)), pairs;
      }
      var scopes := if |e.scopes| == 0 then [""] else e.scopes;
      for k := 0 to |scopes|
        invariant pairs == EntryPairs(e)[..k]
        invariant forall q :: 0 <= q < k ==> PairOk(spec, look, EntryPairs(e)[q])
      {
        var p := Pair(e.action, scopes[k]);
        assert EntryPairs(e)[k] == p;
        var bad := ValidatePair(spec, look, p);
        if bad.Some? {
          assert FirstBad(spec, look, EntryPairs(e), k, bad.value);
          return Some(BadPair(i, bad.value)), pairs;
        }
        pairs := pairs + [p];
      }
      err := None;
    }

    /** Resolves entries to pairs, or finds the first entry that is not acceptable. */
    method ResolvePairs(entries: seq<Entry>, look: Scopes) returns (err: Option<GrantError>, pairs: seq<Pair>)
      ensures err.None? <==> EntriesOk(spec, look, entries)
      ensures err.Some? ==> Blames(spec, look, entries, err.value)
      ensures err.None? ==> pairs == Flatten(entries)
    {
      hide EntryOk, EntryPairs, BlamesEntry;
      pairs := [];
      if |entries| > MAX_GRANTS {
        return Some(TooManyEntries), pairs;
      }
      for i := 0 to |entries|
        invariant pairs == Flatten(entries[..i])
        invariant forall j :: 0 <= j < i ==> EntryOk(spec, look, entries[j])
      {
        var more;
        err, more := ResolveEntry(i, entries[i], look);
        if err.Some? {
          return;
        }
        FlattenSnoc(entries, i);
        pairs := pairs + more;
      }
      assert entries[..|entries|] == entries;
      err := None;
    }

    method WritePairs(grantee: string, pairs: seq<Pair>)
      modifies `grants
      ensures grants == old(grants) + KeysOf(grantee, pairs)
    {
      for k := 0 to |pairs|
        invariant grants == old(grants) + KeysOf(grantee, pairs[..k])
      {
        assert pairs[..k + 1] == pairs[..k] + [pairs[k]];
        grants := grants + {Key(grantee, pairs[k].action, pairs[k].scope)};
      }
      assert pairs[..|pairs|] == pairs;
    }

    /** All or nothing: every pair is validated before the first is written. */
    method GrantTo(grantee: string, entries: seq<Entry>, look: Scopes) returns (err: Option<GrantError>)
      modifies this
      ensures err.None? <==>
        && |entries| <= 100 && (forall i :: 0 <= i < |entries| ==> |entries[i].scopes| <= 100)
        && forall p :: Granted(entries, p) ==> PairOk(spec, look, p)
      ensures err == Some(TooManyEntries) <==> |entries| > 100
      ensures err.None? ==> forall k ::
        k in grants <==> k in old(grants) || (k.grantee == grantee && Granted(entries, Pair(k.action, k.scope)))
      ensures err.None? <==> EntriesOk(spec, look, entries)
      ensures err.Some? ==> Blames(spec, look, entries, err.value)
      ensures err.Some? ==> grants == old(grants) && events == old(events)
      ensures err.None? ==> grants == old(grants) + KeysOf(grantee, Flatten(entries))
      ensures err.None? ==> events == old(events) + [GrantEventOf(moduleName, grantee, entries)]
      ensures grants == Apply(spec, old(grants), GrantOp(grantee, entries, look))
      ensures events == old(events) + Emits(spec, moduleName, GrantOp(grantee, entries, look))
    {
      EntriesOkMeans(spec, look, entries);
      GrantedKeys(grantee, entries);
      hide EntriesOk, Granted, PairOk, KeysOf, Flatten, GrantEventOf, BlamesEntry, EntryOk;
      var pairs;
      err, pairs := ResolvePairs(entries, look);
      if err.Some? {
        return;
      }
      WritePairs(grantee, pairs);
      var e := GrantEvent(moduleName, grantee, entries);
      events := events + [e];
    }

    /** Removes without asking the specification; absent pairs are ignored. */
    method RevokeFrom(grantee: string, pairs: seq<Pair>) returns (err: Option<GrantError>)
      modifies this
      ensures err == if |pairs| <= 100 then None else Some(TooManyEntries)
      ensures err.None? ==> forall k ::
        k in grants <==> k in old(grants) && !(k.grantee == grantee && Pair(k.action, k.scope) in pairs)
      ensures err.None? ==> grants == old(grants) - KeysOf(grantee, pairs)
      ensures err.Some? ==> grants == old(grants) && events == old(events)
      ensures grants == Apply(spec, old(grants), RevokeOp(grantee, pairs))
      ensures events == old(events) + Emits(spec, moduleName, RevokeOp(grantee, pairs))
    {
      if |pairs| > MAX_GRANTS {
        return Some(TooManyEntries);
      }
      for k := 0 to |pairs|
        invariant grants == old(grants) - KeysOf(grantee, pairs[..k]) && events == old(events)
      {
        assert pairs[..k + 1] == pairs[..k] + [pairs[k]];
        grants := grants - {Key(grantee, pairs[k].action, pairs[k].scope)};
      }
      assert pairs[..|pairs|] == pairs;
      forall k
        ensures k in KeysOf(grantee, pairs) <==> k.grantee == grantee && Pair(k.action, k.scope) in pairs
      {
        KeysOfMeans(grantee, pairs, k);
      }
      var e := RevokeEvent(moduleName, grantee, pairs);
      events := events + [e];
      err := None;
    }

    /** Genesis import: it stops at the first invalid grant, with those before it written. */
    method Init(list: seq<Key>, look: Scopes) returns (err: Option<GrantError>)
      modifies this
      ensures err.None? <==> forall i :: 0 <= i < |list| ==> PairOk(spec, look, KeyPair(list[i]))
      ensures err.Some? ==>
        && err.value.BadPair? && err.value.index < |list|
        && ValidatePair(spec, look, KeyPair(list[err.value.index])) == Some(err.value.reason)
        && (forall j :: 0 <= j < err.value.index ==> PairOk(spec, look, KeyPair(list[j])))
        && grants == old(grants) + (set k | k in list[..err.value.index])
      ensures err.None? ==> grants == old(grants) + (set k | k in list)
      ensures grants == Apply(spec, old(grants), ImportOp(list, look)) && events == old(events)
    {
      for i := 0 to |list|
        invariant forall j :: 0 <= j < i ==> PairOk(spec, look, KeyPair(list[j]))
        invariant grants == old(grants) + (set k | k in list[..i]) && events == old(events)
      {
        var bad := ValidatePair(spec, look, KeyPair(list[i]));
        if bad.Some? {
          return Some(BadPair(i, bad.value));
        }
        assert list[..i + 1] == list[..i] + [list[i]];
        grants := grants + {list[i]};
      }
      assert list[..|list|] == list;
      err := None;
    }

    /** A walk over the stored keys in key order. */
    method Export() returns (list: seq<Key>)
      ensures Ascending(list) && (set k | k in list) == grants
    {
      list := [];
      var rest := grants;
      while rest != {}
        invariant Ascending(list) && rest <= grants && (set k | k in list) == grants - rest
        invariant forall x, y :: x in list && y in rest ==> KeyLess(x, y)
        decreases |rest|
      {
        LeastKeyExists(rest);
        var k :| k in rest && forall y :: y in rest ==> y == k || KeyLess(k, y);
        ExtendSet(list, k);
        list := list + [k];
        rest := rest - {k};
      }
    }
  }

  //
  // Key order
  //

  /** Keys compare by grantee, then action, then scope. */
  predicate KeyLess(a: Key, b: Key) {
    Less(a.grantee, b.grantee) ||
    (a.grantee == b.grantee && (Less(a.action, b.action) || (a.action == b.action && Less(a.scope, b.scope))))
  }

  /** The grantee decides first, then the action, then the scope. */
  lemma KeyLessMeans(a: Key, b: Key)
    ensures a.grantee != b.grantee ==> (KeyLess(a, b) <==> LessEq(a.grantee, b.grantee))
    ensures a.grantee == b.grantee && a.action != b.action ==> (KeyLess(a, b) <==> LessEq(a.action, b.action))
    ensures a.grantee == b.grantee && a.action == b.action ==>
      (KeyLess(a, b) <==> a.scope != b.scope && LessEq(a.scope, b.scope))
  {
  }

  ghost predicate Ascending(list: seq<Key>) {
    forall i, j :: 0 <= i < j < |list| ==> KeyLess(list[i], list[j])
  }

  lemma LessTransitive(a: string, b: string, c: string)
    requires Less(a, b) && Less(b, c)
    ensures Less(a, c)
  {
    LessEqTransitive(a, b, c);
    if a == c {
      LessEqAntisymmetric(a, b);
    }
  }

  lemma KeyLessTransitive(a: Key, b: Key, c: Key)
    requires KeyLess(a, b) && KeyLess(b, c)
    ensures KeyLess(a, c)
  {
    if Less(a.grantee, b.grantee) && Less(b.grantee, c.grantee) {
      LessTransitive(a.grantee, b.grantee, c.grantee);
    } else if a.grantee == b.grantee && b.grantee == c.grantee {
      if Less(a.action, b.action) && Less(b.action, c.action) {
        LessTransitive(a.action, b.action, c.action);
      } else if a.action == b.action && b.action == c.action {
        LessTransitive(a.scope, b.scope, c.scope);
      }
    }
  }

  lemma KeyLessTotal(a: Key, b: Key)
    ensures a == b || KeyLess(a, b) || KeyLess(b, a)
  {
    LessEqTotal(a.grantee, b.grantee);
    LessEqTotal(a.action, b.action);
    LessEqTotal(a.scope, b.scope);
  }

  lemma KeyLessAsymmetric(a: Key, b: Key)
    requires KeyLess(a, b)
    ensures !KeyLess(b, a) && a != b
  {
    if KeyLess(b, a) {
      KeyLessTransitive(a, b, a);
    }
  }

  lemma {:induction false} LeastKeyExists(s: set<Key>)
    requires s != {}
    ensures exists k :: k in s && forall y :: y in s ==> y == k || KeyLess(k, y)
  {
    var x :| x in s;
    var rest := s - {x};
    if rest == {} {
      assert s == {x};
    } else {
      LeastKeyExists(rest);
      var k :| k in rest && forall y :: y in rest ==> y == k || KeyLess(k, y);
      KeyLessTotal(x, k);
      var least := if KeyLess(x, k) then x else k;
      forall y | y in s
        ensures y == least || KeyLess(least, y)
      {
        if y != x && y != k && least == x {
          KeyLessTransitive(x, k, y);
        }
      }
    }
  }
}
