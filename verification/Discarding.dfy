/**
  Decoding with unknown fields discarded is decoding with them kept and then
  forgetting them, at every level.
 */
module Discarding {
  import opened Options
  import opened Words
  import opened Wire
  import opened Messages

  /** `m` without unknown bytes, at every level. */
  function Strip(m: Message): Message
    decreases m, 1
  {
    Message(seq(|m.values|, i requires 0 <= i < |m.values| => StripValue(m.values[i])), [])
  }

  function StripAll(ms: seq<Message>): (r: seq<Message>)
    ensures |r| == |ms|
    decreases ms, 2
  {
    seq(|ms|, i requires 0 <= i < |ms| => Strip(ms[i]))
  }

  function StripValue(v: Value): Value
    decreases v, 3
  {
    match v
    case Sub(Some(m)) => Sub(Some(Strip(m)))
    case Subs(ms) => Subs(StripAll(ms))
    case _ => v
  }

  ghost function StripOutcome(r: Outcome<Message>): Outcome<Message> {
    match r
    case Failed(e) => Failed(e)
    case Done(m) => Done(Strip(m))
  }

  ghost function StripScan(r: Scan<Value>): Scan<Value> {
    match r
    case Err(e) => Err(e)
    case Ok(v, n) => Ok(StripValue(v), n)
  }

  lemma StripEmpty(fs: Schema)
    ensures Strip(Empty(fs)) == Empty(fs)
  {
    forall i | 0 <= i < |fs|
      ensures StripValue(Default(fs[i])) == Default(fs[i])
    {
      assert StripAll([]) == [];
    }
    assert Strip(Empty(fs)).values == Empty(fs).values;
  }

  lemma StripParts(fs: Schema, v: Value, m: Message)
    ensures SubOf(fs, StripValue(v)) == Strip(SubOf(fs, v))
    ensures Subs(SubsOf(StripValue(v)) + [Strip(m)]) == StripValue(Subs(SubsOf(v) + [m]))
    ensures StrsOf(StripValue(v)) == StrsOf(v) && U64sOf(StripValue(v)) == U64sOf(v)
  {
    hide Strip, Empty;
    StripEmpty(fs);
    assert StripAll(SubsOf(v) + [m]) == StripAll(SubsOf(v)) + [Strip(m)];
    assert StripAll([]) == [];
  }

  lemma StripWith(m: Message, num: nat, v: Value)
    requires 1 <= num <= |m.values|
    ensures |Strip(m).values| == |m.values| && Strip(m).values[num - 1] == StripValue(m.values[num - 1])
    ensures With(Strip(m), num, StripValue(v)) == Strip(With(m, num, v))
  {
    hide StripValue;
    assert With(Strip(m), num, StripValue(v)).values == Strip(With(m, num, v)).values;
  }

  lemma DiscardingPlain(k: Kind, v: Value, wireType: nat, pos: nat, s: Bytes)
    requires !k.Nested? && !k.NestedList?
    ensures MergeField(k, StripValue(v), true, wireType, pos, s) == StripScan(MergeField(k, v, false, wireType, pos, s))
    ensures
      FieldAfterError(k, StripValue(v), true, wireType, pos, s) ==
      StripValue(FieldAfterError(k, v, false, wireType, pos, s))
  {
    hide Payload, PackedList, PackedListSoFar, Varint, Varint64, VarintSoFar, Int32, StrsOf, U64sOf, Strip, StripAll;
    StripParts([], v, Message([], []));
  }

  lemma {:induction false} DiscardingField(k: Kind, v: Value, wireType: nat, pos: nat, s: Bytes)
    ensures MergeField(k, StripValue(v), true, wireType, pos, s) == StripScan(MergeField(k, v, false, wireType, pos, s))
    ensures
      FieldAfterError(k, StripValue(v), true, wireType, pos, s) ==
      StripValue(FieldAfterError(k, v, false, wireType, pos, s))
    decreases |s|, 1
  {
    hide *;
    match k
    case Nested(_) => DiscardingNested(k, v, wireType, pos, s);
    case NestedList(_) => DiscardingNested(k, v, wireType, pos, s);
    case _ => DiscardingPlain(k, v, wireType, pos, s);
  }

  lemma {:induction false} DiscardingNested(k: Kind, v: Value, wireType: nat, pos: nat, s: Bytes)
    requires k.Nested? || k.NestedList?
    ensures MergeField(k, StripValue(v), true, wireType, pos, s) == StripScan(MergeField(k, v, false, wireType, pos, s))
    ensures
      FieldAfterError(k, StripValue(v), true, wireType, pos, s) ==
      StripValue(FieldAfterError(k, v, false, wireType, pos, s))
    decreases |s|, 0
  {
    hide Payload, Decode, StateAfter, Strip, StripAll, Empty, SubOf, SubsOf;
    var gs := k.fields;
    if wireType == 2 && Payload(pos, s).Ok? {
      var p := Payload(pos, s).value;
      var prior := if k.Nested? then SubOf(gs, v) else Empty(gs);
      StripEmpty(gs);
      DiscardIsStrip(gs, 0, p, prior);
      StripParts(gs, v, StateAfter(gs, false, 0, p, prior));
      if Decode(gs, false, 0, p, prior).Done? {
        StripParts(gs, v, Decode(gs, false, 0, p, prior).result);
      }
    }
  }

  lemma {:induction false} DiscardingStep(fs: Schema, pos: nat, s: Bytes, m: Message)
    ensures
      Step(fs, true, pos, s, Strip(m)) ==
      match Step(fs, false, pos, s, m)
      case Err(e) => Err(e)
      case Ok(x, n) => Ok(Strip(x), n)
    ensures StateAfterError(fs, true, pos, s, Strip(m)) == Strip(StateAfterError(fs, false, pos, s, m))
    decreases |s|, 2
  {
    hide ReadTag, FieldNumber, MergeField, FieldAfterError, Skip, StripValue, With;
    if ReadTag(s).Ok? {
      var Ok(wire, n) := ReadTag(s);
      var num := FieldNumber(wire);
      if num <= |fs| && num <= |m.values| {
        var k, v, at, body := fs[num - 1], m.values[num - 1], pos + n, s[n..];
        StripWith(m, num, v);
        StepOfField(fs, false, pos, s, m);
        StepOfField(fs, true, pos, s, Strip(m));
        StateAfterField(fs, false, pos, s, m);
        StateAfterField(fs, true, pos, s, Strip(m));
        DiscardingField(k, v, wire % 8, at, body);
        StripWith(m, num, FieldAfterError(k, v, false, wire % 8, at, body));
        var r := MergeField(k, v, false, wire % 8, at, body);
        if r.Ok? {
          StripWith(m, num, r.value);
        }
      }
    }
  }

  /** For every input: the same error, or the same message without unknown bytes; likewise what a failure leaves. */
  lemma {:induction false} DiscardIsStrip(fs: Schema, pos: nat, s: Bytes, m: Message)
    ensures Decode(fs, true, pos, s, Strip(m)) == StripOutcome(Decode(fs, false, pos, s, m))
    ensures StateAfter(fs, true, pos, s, Strip(m)) == Strip(StateAfter(fs, false, pos, s, m))
    decreases |s|, 3
  {
    hide Step, StateAfterError, Strip;
    if s != [] {
      DiscardingStep(fs, pos, s, m);
      var r := Step(fs, false, pos, s, m);
      if r.Ok? {
        DiscardIsStrip(fs, pos + r.used, s[r.used..], r.value);
      }
    }
  }

  /** Unknown bytes that a message has already are not touched. */
  lemma {:induction false} DiscardingKeepsOld(fs: Schema, pos: nat, s: Bytes, m: Message)
    ensures StateAfter(fs, true, pos, s, m).unknown == m.unknown
    decreases |s|
  {
    hide ReadTag, FieldNumber, MergeField, FieldAfterError, Skip;
    if s != [] {
      var r := Step(fs, true, pos, s, m);
      if r.Ok? {
        DiscardingKeepsOld(fs, pos + r.used, s[r.used..], r.value);
      }
    }
  }
}
