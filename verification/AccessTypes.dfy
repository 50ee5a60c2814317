/** Actions, specifications and messages of the access package. */
module AccessTypes {
  import opened Options
  import opened Sets

  const MAX_GRANTS: nat := 100

  /** An action with the scopes it is granted for; no scopes means module-wide. */
  datatype Entry = Entry(action: string, scopes: seq<string>)

  /** One action under one scope. */
  datatype Pair = Pair(action: string, scope: string)

  /** The state key of a grant. */
  datatype Key = Key(grantee: string, action: string, scope: string)

  predicate ActionChar(c: char) {
    'a' <= c <= 'z' || '0' <= c <= '9' || c == '.' || c == '_' || c == '-'
  }

  /** `ValidateAction`: non-empty, lower-case letters, digits, dot, underscore and dash. */
  predicate ValidAction(s: string) {
    s != "" && forall i :: 0 <= i < |s| ==> ActionChar(s[i])
  }

  const LETTERS: string := "abcdefghijklmnopqrstuvwxyz"
  const DIGITS: string := "0123456789"

  lemma Letters(c: char)
    ensures 'a' <= c <= 'z' <==> c in LETTERS
  {
    if 'a' <= c <= 'z' {
      assert LETTERS[c as int - 'a' as int] == c;
    }
  }

  lemma Digits(c: char)
    ensures '0' <= c <= '9' <==> c in DIGITS
  {
    if '0' <= c <= '9' {
      assert DIGITS[c as int - '0' as int] == c;
    }
  }

  lemma ActionAlphabet(c: char)
    ensures ActionChar(c) <==> c in LETTERS || c in DIGITS || c in "._-"
  {
    hide LETTERS, DIGITS;
    Letters(c);
    Digits(c);
    assert "._-"[0] == '.' && "._-"[1] == '_' && "._-"[2] == '-';
  }

  //
  // Specifications
  //

  /** `scoping` says whether a scope validator is present. */
  datatype Spec = Spec(actions: seq<string>, scoping: bool, unscoped: seq<string>) {
    predicate HasAction(a: string) {
      a in actions
    }

    predicate IsUnscoped(a: string) {
      a in unscoped
    }
  }

  datatype SpecError =
    | NoActions
    | MalformedAction(action: string)
    | DuplicateAction(action: string)
    | NoScopeValidator
    | UnknownUnscoped(action: string)
    | DuplicateUnscoped(action: string)
    | EverythingUnscoped

  function Elements(xs: seq<string>): set<string> {
    set x | x in xs
  }

  ghost predicate Distinct<T>(xs: seq<T>) {
    forall i, j :: 0 <= i < j < |xs| ==> xs[i] != xs[j]
  }

  /** `x` occurs at two positions. */
  ghost predicate Repeated(xs: seq<string>, x: string) {
    exists i, j :: 0 <= i < j < |xs| && xs[i] == x && xs[j] == x
  }

  ghost predicate ActionsOk(s: Spec) {
    s.actions != [] && Distinct(s.actions) && forall i :: 0 <= i < |s.actions| ==> ValidAction(s.actions[i])
  }

  /** Unscoped actions are none, or some but not all of the vocabulary of a module that scopes. */
  ghost predicate SpecOk(s: Spec) {
    ActionsOk(s) &&
    (s.unscoped == [] ||
     (s.scoping && Distinct(s.unscoped) && Elements(s.unscoped) < Elements(s.actions)))
  }

  lemma {:induction false} DistinctBySize(xs: seq<string>)
    ensures Distinct(xs) <==> |xs| == |Elements(xs)|
    ensures |Elements(xs)| <= |xs|
  {
    if xs != [] {
      var front := xs[..|xs| - 1];
      DistinctBySize(front);
      assert xs == front + [xs[|xs| - 1]];
      assert Elements(xs) == Elements(front) + {xs[|xs| - 1]};
      if Distinct(front) {
        assert xs[..|xs|] == xs;
        DistinctExtend(xs, |xs| - 1);
      } else {
        var i, j :| 0 <= i < j < |front| && front[i] == front[j];
        assert xs[i] == xs[j];
      }
    }
  }

  lemma ValidActionMeans(a: string)
    ensures ValidAction(a) <==> a != "" && forall c :: c in a ==> c in LETTERS || c in DIGITS || c in "._-"
  {
    hide ActionChar;
    forall c: char
      ensures ActionChar(c) <==> c in LETTERS || c in DIGITS || c in "._-"
    {
      ActionAlphabet(c);
    }
  }

  /** A valid specification, without the notions above: sizes of sets show that nothing is repeated. */
  lemma SpecOkMeans(s: Spec)
    ensures
      var actions, unscoped := set a | a in s.actions, set a | a in s.unscoped;
      SpecOk(s) <==>
        && |s.actions| > 0 && |actions| == |s.actions|
        && (forall a, c :: a in s.actions && c in a ==> c in LETTERS || c in DIGITS || c in "._-")
        && "" !in s.actions
        && (s.unscoped != [] ==> s.scoping && |unscoped| == |s.unscoped| && unscoped < actions)
  {
    hide ValidAction, Distinct;
    DistinctBySize(s.actions);
    DistinctBySize(s.unscoped);
    forall a | a in s.actions
      ensures ValidAction(a) <==> a != "" && forall c :: c in a ==> c in LETTERS || c in DIGITS || c in "._-"
    {
      ValidActionMeans(a);
    }
    assert forall i :: 0 <= i < |s.actions| ==> s.actions[i] in s.actions;
  }

  lemma DistinctExtend(xs: seq<string>, i: nat)
    requires i < |xs| && Distinct(xs[..i])
    ensures Elements(xs[..i + 1]) == Elements(xs[..i]) + {xs[i]}
    ensures Distinct(xs[..i + 1]) <==> xs[i] !in Elements(xs[..i])
    ensures Distinct(xs) ==> xs[i] !in Elements(xs[..i])
  {
    var front := xs[..i];
    assert xs[..i + 1] == front + [xs[i]];
    if xs[i] in front {
      var j :| 0 <= j < i && front[j] == xs[i];
      assert xs[j] == xs[i] && (front + [xs[i]])[j] == (front + [xs[i]])[i];
    }
  }

  lemma SeenBefore(xs: seq<string>, i: nat)
    requires i < |xs| && xs[i] in Elements(xs[..i])
    ensures Repeated(xs, xs[i])
  {
    var j :| 0 <= j < i && xs[..i][j] == xs[i];
    assert xs[j] == xs[i];
  }

  method ValidateActions(actions: seq<string>) returns (err: Option<SpecError>, seen: set<string>)
    ensures err.None? <==> Distinct(actions) && forall i :: 0 <= i < |actions| ==> ValidAction(actions[i])
    ensures err.None? ==> seen == Elements(actions)
    ensures err.Some? ==>
      match err.value
      case MalformedAction(a) => a in actions && !ValidAction(a)
      case DuplicateAction(a) => ValidAction(a) && Repeated(actions, a)
      case _ => false
  {
    seen := {};
    for i := 0 to |actions|
      invariant seen == Elements(actions[..i]) && Distinct(actions[..i])
      invariant forall j :: 0 <= j < i ==> ValidAction(actions[j])
    {
      var a := actions[i];
      DistinctExtend(actions, i);
      if !ValidAction(a) {
        return Some(MalformedAction(a)), seen;
      }
      if a in seen {
        SeenBefore(actions, i);
        return Some(DuplicateAction(a)), seen;
      }
      seen := seen + {a};
    }
    assert actions[..|actions|] == actions;
    err := None;
  }

  method ValidateUnscoped(names: seq<string>, seen: set<string>) returns (err: Option<SpecError>)
    ensures err.None? <==> Distinct(names) && Elements(names) < seen
    ensures err == Some(EverythingUnscoped) <==> Distinct(names) && Elements(names) == seen
    ensures err.Some? ==>
      match err.value
      case UnknownUnscoped(a) => a in names && a !in seen
      case DuplicateUnscoped(a) => a in seen && Repeated(names, a)
      case EverythingUnscoped => true
      case _ => false
  {
    var unscoped: set<string> := {};
    for i := 0 to |names|
      invariant unscoped == Elements(names[..i]) && Distinct(names[..i]) && unscoped <= seen
    {
      var a := names[i];
      DistinctExtend(names, i);
      if a !in seen {
        assert a in Elements(names);
        return Some(UnknownUnscoped(a));
      }
      if a in unscoped {
        SeenBefore(names, i);
        return Some(DuplicateUnscoped(a));
      }
      unscoped := unscoped + {a};
    }
    assert names[..|names|] == names;
    SubsetSize(unscoped, seen);
    assert seen <= unscoped ==> unscoped == seen;
    err := if |unscoped| == |seen| then Some(EverythingUnscoped) else None;
  }

  /**
    `Spec.Validate`: it accepts exactly the specifications of `SpecOk`; each
    whole-list rejection is given exactly when it is the reason, and a rejected
    action is one that has the defect named.
   */
  method ValidateSpec(s: Spec) returns (err: Option<SpecError>)
    ensures err.None? <==> SpecOk(s)
    ensures err.Some? ==>
      match err.value
      case MalformedAction(a) => a in s.actions && !ValidAction(a)
      case DuplicateAction(a) => ValidAction(a) && Repeated(s.actions, a)
      case UnknownUnscoped(a) => ActionsOk(s) && a in s.unscoped && !s.HasAction(a)
      case DuplicateUnscoped(a) => ActionsOk(s) && s.HasAction(a) && Repeated(s.unscoped, a)
      case _ => true
    ensures err == Some(NoActions) <==> s.actions == []
    ensures err == Some(NoScopeValidator) <==> ActionsOk(s) && s.unscoped != [] && !s.scoping
    ensures err == Some(EverythingUnscoped) <==>
      ActionsOk(s) && s.unscoped != [] && s.scoping
      && Distinct(s.unscoped) && Elements(s.unscoped) == Elements(s.actions)
  {
    hide Distinct, ValidAction, Repeated;
    if s.actions == [] {
      return Some(NoActions);
    }
    var seen;
    err, seen := ValidateActions(s.actions);
    if err.Some? || s.unscoped == [] {
      return;
    }
    if !s.scoping {
      return Some(NoScopeValidator);
    }
    err := ValidateUnscoped(s.unscoped, seen);
  }

  //
  // Messages
  //

  datatype MessageError =
    | Nothing
    | TooLong
    | MalformedName(index: nat)
    | ScopesTooLong(index: nat)

  predicate GrantEntriesOk(entries: seq<Entry>) {
    && 0 < |entries| <= MAX_GRANTS
    && forall i :: 0 <= i < |entries| ==> ValidAction(entries[i].action) && |entries[i].scopes| <= MAX_GRANTS
  }

  predicate RevokePairsOk(pairs: seq<Pair>) {
    && 0 < |pairs| <= MAX_GRANTS
    && forall i :: 0 <= i < |pairs| ==> ValidAction(pairs[i].action)
  }

  /** `ValidateGrantEntries`: 1 to 100 entries of at most 100 scopes, with valid actions; else the first defect. */
  method ValidateGrantEntries(entries: seq<Entry>) returns (err: Option<MessageError>)
    ensures err.None? <==> GrantEntriesOk(entries)
    ensures err.None? <==>
      && 1 <= |entries| <= 100
      && forall i :: 0 <= i < |entries| ==> ValidAction(entries[i].action) && |entries[i].scopes| <= 100
    ensures err == Some(Nothing) <==> |entries| == 0
    ensures err == Some(TooLong) <==> |entries| > 100
    ensures err.Some? && (err.value.MalformedName? || err.value.ScopesTooLong?) ==>
      var i := err.value.index;
      && i < |entries|
      && (forall j :: 0 <= j < i ==> ValidAction(entries[j].action) && |entries[j].scopes| <= 100)
      && (err.value.MalformedName? <==> !ValidAction(entries[i].action))
      && (err.value.ScopesTooLong? <==> ValidAction(entries[i].action) && |entries[i].scopes| > 100)
  {
    hide ValidAction;
    if |entries| == 0 {
      return Some(Nothing);
    }
    if |entries| > MAX_GRANTS {
      return Some(TooLong);
    }
    for i := 0 to |entries|
      invariant forall j :: 0 <= j < i ==> ValidAction(entries[j].action) && |entries[j].scopes| <= MAX_GRANTS
    {
      if !ValidAction(entries[i].action) {
        return Some(MalformedName(i));
      }
      if |entries[i].scopes| > MAX_GRANTS {
        return Some(ScopesTooLong(i));
      }
    }
    err := None;
  }

  /** `ValidateRevokePairs`: 1 to 100 pairs with valid actions; else the first defect. */
  method ValidateRevokePairs(pairs: seq<Pair>) returns (err: Option<MessageError>)
    ensures err.None? <==> RevokePairsOk(pairs)
    ensures err.None? <==> 1 <= |pairs| <= 100 && forall i :: 0 <= i < |pairs| ==> ValidAction(pairs[i].action)
    ensures err == Some(Nothing) <==> |pairs| == 0
    ensures err == Some(TooLong) <==> |pairs| > 100
    ensures err.Some? && 1 <= |pairs| <= 100 ==>
      && err.value.MalformedName? && err.value.index < |pairs| && !ValidAction(pairs[err.value.index].action)
      && forall j :: 0 <= j < err.value.index ==> ValidAction(pairs[j].action)
  {
    hide ValidAction;
    if |pairs| == 0 {
      return Some(Nothing);
    }
    if |pairs| > MAX_GRANTS {
      return Some(TooLong);
    }
    for i := 0 to |pairs|
      invariant forall j :: 0 <= j < i ==> ValidAction(pairs[j].action)
    {
      if !ValidAction(pairs[i].action) {
        return Some(MalformedName(i));
      }
    }
    err := None;
  }
}
