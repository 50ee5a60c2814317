/** Stateless validation of an exported grant list, and genesis export followed by import. */
module AccessGenesis {
  import opened Options
  import opened AccessTypes
  import opened AccessEvents
  import opened GrantStore
  import opened GrantRuns

  //
  // Addresses
  //

  /** Bech32 as the SDK offers it: text to bytes, which can fail, and bytes to text. */
  datatype Bech32 = Bech32(decode: string -> Option<seq<int>>, encode: seq<int> -> string)

  const ADDRESS_PREFIX: string := "nodelabs1"
  const BECH32_CHARSET: string := "qpzry9x8gf2tvdw0s3jn54khce6mua7l"

  ghost predicate AddressText(s: string) {
    && ADDRESS_PREFIX <= s
    && forall i :: |ADDRESS_PREFIX| <= i < |s| ==> s[i] in BECH32_CHARSET
  }

  /** Encoding decoded bytes gives the configured prefix and characters of the bech32 set. */
  ghost predicate WellBehaved(b: Bech32) {
    forall addr :: b.decode(addr).Some? ==> AddressText(b.encode(b.decode(addr).value))
  }

  /** `ValidateCanonicalAddress`: the address decodes, and re-encodes to itself. */
  predicate Canonical(b: Bech32, addr: string) {
    b.decode(addr).Some? && b.encode(b.decode(addr).value) == addr
  }

  /** Canonical addresses are one string per account; the encoding of an account is its canonical address. */
  lemma OneAddressPerAccount(b: Bech32, x: string, y: string)
    requires b.decode(x).Some?
    ensures Canonical(b, x) && Canonical(b, y) && b.decode(x) == b.decode(y) ==> x == y
    ensures b.decode(b.encode(b.decode(x).value)) == b.decode(x) ==> Canonical(b, b.encode(b.decode(x).value))
    ensures x != b.encode(b.decode(x).value) || b.decode(y).None? ==> !(Canonical(b, x) && Canonical(b, y))
  {
  }

  lemma CanonicalHasNoSlash(b: Bech32, addr: string)
    requires WellBehaved(b) && Canonical(b, addr)
    ensures '/' !in addr
  {
    assert AddressText(addr);
    forall i | 0 <= i < |addr|
      ensures addr[i] != '/'
    {
      if i < |ADDRESS_PREFIX| {
        assert addr[i] == ADDRESS_PREFIX[i];
      }
    }
  }

  //
  // Duplicate detection by a joined key
  //

  function JoinedKey(k: Key): string {
    k.grantee + "/" + k.action + "/" + k.scope
  }

  /** Cutting at the first slash: the parts before and after it are determined. */
  lemma FirstSlash(a: string, x: string, b: string, y: string)
    requires '/' !in a && '/' !in b && a + "/" + x == b + "/" + y
    ensures a == b && x == y
  {
    var s, t := a + "/" + x, b + "/" + y;
    assert s[|a|] == '/' && t[|b|] == '/';
    assert forall i :: 0 <= i < |a| ==> s[i] == a[i];
    assert forall i :: 0 <= i < |b| ==> t[i] == b[i];
    assert |a| == |b|;
    assert s[..|a|] == a && t[..|a|] == b;
    assert s[|a| + 1..] == x && t[|a| + 1..] == y;
  }

  /** Injective even when scopes contain slashes, because grantees and actions cannot. */
  lemma JoinedKeyInjective(b: Bech32, k: Key, k': Key)
    requires WellBehaved(b) && Canonical(b, k.grantee) && Canonical(b, k'.grantee)
    requires ValidAction(k.action) && ValidAction(k'.action)
    ensures JoinedKey(k) == JoinedKey(k') <==> k == k'
  {
    if JoinedKey(k) == JoinedKey(k') {
      CanonicalHasNoSlash(b, k.grantee);
      CanonicalHasNoSlash(b, k'.grantee);
      ValidActionFree(k.action);
      ValidActionFree(k'.action);
      var rest, rest' := k.action + "/" + k.scope, k'.action + "/" + k'.scope;
      assert JoinedKey(k) == k.grantee + "/" + rest && JoinedKey(k') == k'.grantee + "/" + rest';
      FirstSlash(k.grantee, rest, k'.grantee, rest');
      FirstSlash(k.action, k.scope, k'.action, k'.scope);
    }
  }

  datatype GenesisError =
    | BadAddress(index: nat)
    | BadAction(index: nat)
    | Duplicate(index: nat)

  ghost predicate FieldsOk(b: Bech32, k: Key) {
    Canonical(b, k.grantee) && ValidAction(k.action)
  }

  ghost predicate GrantsOk(b: Bech32, grants: seq<Key>) {
    Distinct(grants) && forall i :: 0 <= i < |grants| ==> FieldsOk(b, grants[i])
  }

  /**
    `ValidateGrants` accepts exactly the lists whose addresses and actions
    validate and whose triples are distinct; otherwise it names the first grant
    that breaks this, and how.
   */
  method ValidateGrants(b: Bech32, grants: seq<Key>) returns (err: Option<GenesisError>)
    requires WellBehaved(b)
    ensures err.None? <==> GrantsOk(b, grants)
    ensures err.None? <==>
      && (forall i, j :: 0 <= i < j < |grants| ==> grants[i] != grants[j])
      && forall i :: 0 <= i < |grants| ==> Canonical(b, grants[i].grantee) && ValidAction(grants[i].action)
    ensures err.Some? ==>
      var i := err.value.index;
      && i < |grants| && GrantsOk(b, grants[..i])
      && (err.value.BadAddress? <==> !Canonical(b, grants[i].grantee))
      && (err.value.BadAction? <==> Canonical(b, grants[i].grantee) && !ValidAction(grants[i].action))
      && (err.value.Duplicate? <==> FieldsOk(b, grants[i]) && grants[i] in grants[..i])
  {
    hide Canonical, ValidAction, WellBehaved, JoinedKey;
    var keys: set<string> := {};
    for i := 0 to |grants|
      invariant GrantsOk(b, grants[..i])
      invariant keys == JoinedKeys(grants[..i])
    {
      var g := grants[i];
      assert grants[..i + 1] == grants[..i] + [g];
      if !Canonical(b, g.grantee) {
        return Some(BadAddress(i));
      }
      if !ValidAction(g.action) {
        return Some(BadAction(i));
      }
      SeenIffPresent(b, grants[..i], g);
      if JoinedKey(g) in keys {
        assert g in grants[..i];
        var j :| 0 <= j < i && grants[..i][j] == g;
        assert grants[j] == grants[i];
        return Some(Duplicate(i));
      }
      JoinedKeysSnoc(grants[..i], g);
      keys := keys + {JoinedKey(g)};
    }
    assert grants[..|grants|] == grants;
    err := None;
  }

  ghost function JoinedKeys(grants: seq<Key>): set<string> {
    set k | k in grants :: JoinedKey(k)
  }

  lemma JoinedKeysSnoc(grants: seq<Key>, g: Key)
    ensures JoinedKeys(grants + [g]) == JoinedKeys(grants) + {JoinedKey(g)}
  {
    hide JoinedKey;
    forall s
      ensures s in JoinedKeys(grants + [g]) <==> s in JoinedKeys(grants) + {JoinedKey(g)}
    {
      assert forall k :: k in grants + [g] <==> k in grants || k == g;
      if s == JoinedKey(g) {
        assert g in grants + [g];
      }
    }
  }

  lemma SeenIffPresent(b: Bech32, grants: seq<Key>, g: Key)
    requires WellBehaved(b) && GrantsOk(b, grants) && FieldsOk(b, g)
    ensures JoinedKey(g) in JoinedKeys(grants) <==> g in grants
  {
    hide Canonical, ValidAction, WellBehaved, JoinedKey;
    if k :| k in grants && JoinedKey(k) == JoinedKey(g) {
      JoinedKeyInjective(b, k, g);
    }
  }

  //
  // Export and import
  //

  /** An ascending list is determined by its elements: the export is deterministic. */
  lemma {:induction false} AscendingUnique(xs: seq<Key>, ys: seq<Key>)
    requires Ascending(xs) && Ascending(ys) && forall k :: k in xs <==> k in ys
    ensures xs == ys
    decreases |xs|
  {
    hide KeyLess;
    HasElement(xs);
    HasElement(ys);
    if xs != [] {
      assert xs[0] in ys;
      SameFirst(xs, ys);
      TailElements(xs, ys);
      AscendingUnique(xs[1..], ys[1..]);
      assert xs == [xs[0]] + xs[1..] && ys == [ys[0]] + ys[1..];
    }
  }

  lemma HasElement(xs: seq<Key>)
    ensures xs != [] ==> xs[0] in xs
  {
  }

  lemma SameFirst(xs: seq<Key>, ys: seq<Key>)
    requires Ascending(xs) && Ascending(ys) && xs != [] && ys != []
    requires xs[0] in ys && ys[0] in xs
    ensures xs[0] == ys[0]
  {
    hide KeyLess;
    var i :| 0 <= i < |ys| && ys[i] == xs[0];
    var j :| 0 <= j < |xs| && xs[j] == ys[0];
    if i > 0 && j > 0 {
      KeyLessAsymmetric(ys[0], ys[i]);
    }
  }

  lemma TailElements(xs: seq<Key>, ys: seq<Key>)
    requires Ascending(xs) && Ascending(ys) && xs != [] && ys != [] && xs[0] == ys[0]
    requires forall k :: k in xs <==> k in ys
    ensures forall k :: k in xs[1..] <==> k in ys[1..]
  {
    hide Ascending;
    TailWithoutHead(xs);
    TailWithoutHead(ys);
  }

  lemma TailWithoutHead(xs: seq<Key>)
    requires Ascending(xs) && xs != []
    ensures forall k :: k in xs[1..] <==> k in xs && k != xs[0]
  {
    hide KeyLess;
    forall k | k in xs[1..]
      ensures k != xs[0]
    {
      var j :| 1 <= j < |xs| && xs[j] == k;
      KeyLessAsymmetric(xs[0], xs[j]);
    }
  }

  lemma AscendingDistinct(xs: seq<Key>)
    requires Ascending(xs)
    ensures Distinct(xs)
  {
    hide KeyLess;
    forall i, j | 0 <= i < j < |xs|
      ensures xs[i] != xs[j]
    {
      KeyLessAsymmetric(xs[i], xs[j]);
    }
  }

  /**
    Genesis closure: the export of any store reached by a run, with grantees
    in canonical form, passes the stateless validation, is accepted by an import
    under the scopes that exist then, and rebuilds the same set.
   */
  lemma ExportIsImportable(b: Bech32, spec: Spec, ops: seq<Op>, look: Scopes, list: seq<Key>)
    requires SpecOk(spec) && ScopesKept(ops, look)
    requires forall k :: k in Run(spec, {}, ops) ==> Canonical(b, k.grantee)
    requires Ascending(list) && (set k | k in list) == Run(spec, {}, ops)
    ensures GrantsOk(b, list)
    ensures Accepted(spec, ImportOp(list, look))
    ensures Run(spec, {}, [ImportOp(list, look)]) == Run(spec, {}, ops)
  {
    hide Run, Ascending, Canonical;
    AscendingDistinct(list);
    forall i | 0 <= i < |list|
      ensures FieldsOk(b, list[i]) && PairOk(spec, look, KeyPair(list[i]))
    {
      assert list[i] in (set k | k in list);
      StoredKeysValid(spec, ops, look, list[i]);
      var j :| 0 <= j < |spec.actions| && spec.actions[j] == list[i].action;
      assert ValidAction(spec.actions[j]);
    }
    ImportRun(spec, list, look);
  }

  lemma ImportRun(spec: Spec, list: seq<Key>, look: Scopes)
    requires forall i :: 0 <= i < |list| ==> PairOk(spec, look, KeyPair(list[i]))
    ensures Accepted(spec, ImportOp(list, look))
    ensures Run(spec, {}, [ImportOp(list, look)]) == set k | k in list
  {
    var op := ImportOp(list, look);
    assert [op][..0] == [];
    assert Run(spec, {}, [op]) == Apply(spec, Run(spec, {}, []), op);
    assert list[..|list|] == list;
  }

  lemma ImportComplete(spec: Spec, list: seq<Key>, look: Scopes)
    requires Accepted(spec, ImportOp(list, look))
    ensures forall i :: 0 <= i < |list| ==> PairOk(spec, look, KeyPair(list[i]))
  {
  }

  /** Exporting a store, importing the list into a new one and exporting again. */
  method ExportImportExport(b: Bech32, g: Grants, ghost ops: seq<Op>, look: Scopes)
    returns (list: seq<Key>, h: Grants, err: Option<GrantError>, list': seq<Key>)
    requires WellBehaved(b) && SpecOk(g.spec) && ScopesKept(ops, look)
    requires g.grants == Run(g.spec, {}, ops)
    requires forall k :: k in g.grants ==> Canonical(b, k.grantee)
    ensures GrantsOk(b, list) && err.None? && h.grants == g.grants && list' == list
  {
    hide Run, Ascending, Canonical, GrantsOk, WellBehaved, SpecOk, ScopesKept, Accepted, ValidPrefix;
    list := g.Export();
    ExportIsImportable(b, g.spec, ops, look, list);
    h := new Grants(g.moduleName, g.spec);
    ImportComplete(g.spec, list, look);
    err := h.Init(list, look);
    list' := h.Export();
    assert h.grants == g.grants;
    assert forall k :: k in list <==> k in g.grants;
    assert forall k :: k in list' <==> k in g.grants;
    AscendingUnique(list, list');
  }
}
