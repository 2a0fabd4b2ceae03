/** Values written by one reader's types and read under another's: when the
    same bytes are consumed, and when a journal whose written values were
    replaced along the way still replays as before. */
module Misreads {
  import opened Basics
  import opened Codec
  import opened Model
  import opened ReplayVm
  import opened Journal
  import opened Groups
  import opened Compaction

  // ----- one value -----

  /** The number an integer, atom or reference travels as. */
  function Raw(v: Value): Option<U64> {
    match v
    case IntV(i) => Some(ZigZag(i))
    case AtomV(a) => Some(a)
    case RefV(n) => Some(n)
    case _ => None
  }

  /** Reading the value's bytes under this type consumes exactly them: the type
      is its own, or both are varints and the number fits. */
  predicate ReadsUnder(v: Value, t: ValueType) {
    v.Type() == t
    || (Raw(v).Some? && (t == TInt || ((t == TAtom || t == TRef) && Raw(v).value < TWO32)))
  }

  /** What reading it under that type gives. */
  function ReadUnder(v: Value, t: ValueType): Value {
    if v.Type() == t || !ReadsUnder(v, t) then v
    else
      var n := Raw(v).value;
      match t
      case TInt => IntV(UnZigZag(n))
      case TAtom => AtomV(n)
      case _ => RefV(n)
  }

  /** Among the varint types that is exact: reading the bytes under one of them
      succeeds if and only if the number fits. */
  lemma ReadsUnderIff(v: Value, t: ValueType, lim: Limits, rest: seq<Byte>)
    requires Raw(v).Some? && (t == TInt || t == TAtom || t == TRef)
    ensures ReadValue(ValueBytes(v) + rest, t, lim).Ok? <==> ReadsUnder(v, t)
    ensures ReadsUnder(v, t) ==> ReadValue(ValueBytes(v) + rest, t, lim) == Ok((ReadUnder(v, t), rest))
  {
    hide Varint, ReadVarint;
    assert ValueBytes(v) == Varint(Raw(v).value);
    VarintRoundTrip(Raw(v).value, rest);
    if v.IntV? {
      ZigZagBijection(v.i, 0);
    }
  }

  lemma ReadUnderReads(s: seq<Byte>, t: ValueType, w: ValueType, lim: Limits, wide: Limits)
    requires lim.maxListLen <= wide.maxListLen
    requires ReadValue(s, t, lim).Ok? && ReadsUnder(ReadValue(s, t, lim).value.0, w)
    ensures var (v, rest) := ReadValue(s, t, lim).value; ReadValue(s, w, wide) == Ok((ReadUnder(v, w), rest))
  {
    hide ReadVarint;
    if t == TInt {
      ZigZagBijection(0, ReadVarint(s).value.0);
    }
  }

  /** It is written back as the same bytes. */
  lemma ReadUnderBytes(v: Value, t: ValueType)
    ensures ValueBytes(ReadUnder(v, t)) == ValueBytes(v)
  {
    hide Varint;
    if Raw(v).Some? {
      ZigZagBijection(0, Raw(v).value);
    }
  }

  /** The other value's bytes read back, under this value's type, as this value. */
  predicate ReadsBack(lim: Limits, v: Value, other: Value) {
    ReadValue(ValueBytes(other), v.Type(), lim) == Ok((v, []))
  }

  lemma ReadUnderReadsBack(lim: Limits, v: Value, t: ValueType)
    requires Storable(v, lim)
    ensures ReadsBack(lim, v, ReadUnder(v, t))
  {
    hide ReadValue, ValueBytes, ReadUnder;
    ReadUnderBytes(v, t);
    ValueRoundTrip(v, lim, []);
    assert ValueBytes(v) + [] == ValueBytes(v);
  }

  // ----- what follows a value does not change how it is read -----

  lemma {:induction false} ReadVarintExtends(s: seq<Byte>, tail: seq<Byte>, i: nat, weight: nat, value: nat)
    requires i <= 10 && ReadVarintFrom(s, i, weight, value).Ok?
    ensures var (v, rest) := ReadVarintFrom(s, i, weight, value).value;
      ReadVarintFrom(s + tail, i, weight, value) == Ok((v, rest + tail))
    decreases 10 - i
  {
    hide AddDigit;
    assert (s + tail)[1..] == s[1..] + tail;
    if s[0] >= 128 {
      ReadVarintExtends(s[1..], tail, i + 1, weight * 128, AddDigit(value, s[0], weight));
    }
  }

  lemma ReadU32Extends(s: seq<Byte>, tail: seq<Byte>)
    requires ReadVarint(s).Ok?
    ensures ReadVarint(s + tail) == Ok((ReadVarint(s).value.0, ReadVarint(s).value.1 + tail))
    ensures ReadVarintU32(s).Ok? ==> ReadVarintU32(s + tail) == Ok((ReadVarintU32(s).value.0, ReadVarintU32(s).value.1 + tail))
  {
    hide ReadVarintFrom;
    ReadVarintExtends(s, tail, 0, 1, 0);
  }

  lemma {:induction false} ReadVarintListExtends(s: seq<Byte>, n: nat, tail: seq<Byte>)
    requires ReadVarintList(s, n).Ok?
    ensures var (xs, rest) := ReadVarintList(s, n).value; ReadVarintList(s + tail, n) == Ok((xs, rest + tail))
    decreases n
  {
    hide ReadVarint;
    if n > 0 {
      ReadU32Extends(s, tail);
      ReadVarintListExtends(ReadVarintU32(s).value.1, n - 1, tail);
    }
  }

  lemma ReadValueExtends(s: seq<Byte>, t: ValueType, lim: Limits, tail: seq<Byte>)
    requires ReadValue(s, t, lim).Ok?
    ensures var (v, rest) := ReadValue(s, t, lim).value; ReadValue(s + tail, t, lim) == Ok((v, rest + tail))
  {
    hide ReadVarint;
    if t == TFloat {
      assert (s + tail)[..8] == s[..8] && (s + tail)[8..] == s[8..] + tail;
    } else {
      ReadU32Extends(s, tail);
      if t == TList {
        ReadVarintListExtends(ReadVarintU32(s).value.1, ReadVarintU32(s).value.0, tail);
      }
    }
  }

  // ----- a run written with other values -----

  /** The same operation, up to a value that reads back. */
  predicate Carries(lim: Limits, op: Op, other: Op) {
    if op.SetField? then
      other.SetField? && other.node == op.node && other.field == op.field && ReadsBack(lim, op.value, other.value)
    else other == op
  }

  ghost predicate AllCarry(lim: Limits, ops: seq<Op>, others: seq<Op>) {
    |ops| == |others| && forall i :: 0 <= i < |ops| ==> Carries(lim, ops[i], others[i])
  }

  lemma SetFieldCarried(env: Env, st: VmState, op: Op, other: Op, rest: seq<Byte>)
    requires st.Safe() && op.SetField? && Carries(env.lim, op, other) && Typed(env, st, op)
    ensures ExecSetField(env, st, OperandBytes(other) + rest) == Done(OpEffect(env, st, op), rest)
  {
    hide Varint, ReadVarint, ReadVarintU32, ReadValue, ValueBytes, SetFieldStep;
    TwoVarintsThen(other.node, other.field, ValueBytes(other.value), rest);
    ReadValueExtends(ValueBytes(other.value), op.value.Type(), env.lim, rest);
    assert [] + rest == rest;
  }

  lemma ExecWrite(env: Env, st: VmState, s: seq<Byte>)
    requires st.Safe() && s != [] && s[0] == 0x02
    ensures ExecOne(env, st, s) == match ExecSetField(env, st, s[1..])
                                   case Ok((st', rest)) => Ok((Tick(st'), rest))
                                   case Err(code) => Err(code)
  {
    hide ExecNewNode, ExecSetField, ExecBeginGroup, ExecAddChild, ExecLinkRef, ExecDropNode, ExecSnapshot, ExecSetMeta;
  }

  lemma WriteBytes(op: Op, rest: seq<Byte>)
    requires op.SetField?
    ensures var s := OpBytes(op) + rest; s != [] && s[0] == 0x02 && s[1..] == OperandBytes(op) + rest
  {
    hide OperandBytes;
  }

  lemma WriteCarried(env: Env, st: VmState, op: Op, other: Op, rest: seq<Byte>)
    requires st.Safe() && op.SetField? && Carries(env.lim, op, other) && Typed(env, st, op)
    ensures ExecOne(env, st, OpBytes(other) + rest) == Done(Step(env, st, op), rest)
  {
    hide OpEffect, OperandBytes, OpBytes, ExecOne, ExecSetField, ReadsBack, Typed, Tick;
    WriteBytes(other, rest);
    SetFieldCarried(env, st, op, other, rest);
    ExecWrite(env, st, OpBytes(other) + rest);
  }

  lemma OneCarried(env: Env, st: VmState, op: Op, other: Op, rest: seq<Byte>)
    requires st.Safe() && Carries(env.lim, op, other) && Typed(env, st, op)
    ensures ExecOne(env, st, OpBytes(other) + rest) == Done(Step(env, st, op), rest)
  {
    hide ExecOne, OpBytes, Step, ReadsBack, Typed;
    if op.SetField? {
      WriteCarried(env, st, op, other, rest);
    } else {
      ExecOneEncoded(env, st, op, rest);
    }
  }

  /** Executing the other operations' bytes is running these operations. */
  lemma {:induction false} RunCarried(env: Env, st: VmState, ops: seq<Op>, others: seq<Op>, rest: seq<Byte>)
    requires st.Safe() && ValuesTyped(env, st, ops) && AllCarry(env.lim, ops, others)
    ensures ExecMany(env, st, OpsBytes(others) + rest, |ops|) == Done(RunOps(env, st, ops), rest)
    decreases |ops|
  {
    hide Step, ExecOne, OpBytes, Carries, Typed;
    if ops == [] {
      assert OpsBytes(others) + rest == rest;
    } else {
      var tail := OpsBytes(others[1..]) + rest;
      assert OpsBytes(others) + rest == OpBytes(others[0]) + tail;
      OneCarried(env, st, ops[0], others[0], tail);
      if Step(env, st, ops[0]).Ok? {
        RunCarried(env, Step(env, st, ops[0]).value, ops[1..], others[1..], rest);
      }
    }
  }

  /** Replaying a journal of the other operations replays these. */
  lemma ReplayCarried(env: Env, st: VmState, ops: seq<Op>, others: seq<Op>)
    requires st.Safe() && ValuesTyped(env, st, ops) && AllCarry(env.lim, ops, others)
    requires |ops| <= env.lim.maxJournalOps && |ops| < TWO32
    ensures RunBytes(env, st, JournalBytes(others)) == Done(Closed(RunOps(env, st, ops)), [])
  {
    hide Step, ExecOne, Varint, ReadVarint, ReadVarintU32, OpBytes, Carries, ValuesTyped;
    VarintU32RoundTrip(|ops|, OpsBytes(others));
    assert OpsBytes(others) + [] == OpsBytes(others);
    RunCarried(env, st, ops, others, []);
  }

  // ----- what compaction removes does not depend on the values -----

  /** The same operation, up to the value written. */
  predicate Alike(op: Op, other: Op) {
    if op.SetField? then other.SetField? && other.node == op.node && other.field == op.field else other == op
  }

  predicate AllAlike(ops: seq<Op>, others: seq<Op>) {
    |ops| == |others| && forall i :: 0 <= i < |ops| ==> Alike(ops[i], others[i])
  }

  lemma {:induction false} AlikeStructure(ops: seq<Op>, others: seq<Op>, i: nat)
    requires AllAlike(ops, others) && i <= |ops|
    ensures Numbered(ops, i) == Numbered(others, i) && LiveIds(ops, i) == LiveIds(others, i)
    ensures Stack(ops, i) == Stack(others, i)
  {
    if i > 0 {
      AlikeStructure(ops, others, i - 1);
      assert Alike(ops[i - 1], others[i - 1]);
    }
  }

  lemma AlikeChildren(ops: seq<Op>, others: seq<Op>, b: nat)
    requires AllAlike(ops, others)
    ensures HasChild(ops, b) == HasChild(others, b)
  {
    hide Stack;
    forall j: nat ensures ChildOf(ops, b, j) == ChildOf(others, b, j) {
      if j < |ops| {
        AlikeStructure(ops, others, j);
        assert Alike(ops[j], others[j]);
      }
    }
  }

  lemma AlikePending(ops: seq<Op>, others: seq<Op>, i: nat, node: nat, field: U32)
    requires AllAlike(ops, others)
    ensures Pending(ops, i, node, field) == Pending(others, i, node, field)
  {
    forall j | 0 <= j < |ops| ensures SetsKey(ops[j], node, field) == SetsKey(others[j], node, field) {
      assert Alike(ops[j], others[j]);
    }
  }

  lemma AlikeFates(ops: seq<Op>, others: seq<Op>, i: nat)
    requires AllAlike(ops, others) && i < |ops|
    ensures FateOf(ops, i) == FateOf(others, i)
  {
    hide Stack, HasChild, Pending, Numbered, LiveIds;
    assert Alike(ops[i], others[i]);
    AlikeStructure(ops, others, i);
    AlikeStructure(ops, others, |ops|);
    if ops[i].SetField? {
      AlikePending(ops, others, i + 1, ops[i].node, ops[i].field);
    } else if ops[i].BeginGroup? {
      AlikeChildren(ops, others, i);
    } else if ops[i].EndGroup? && Innermost(ops, i).Some? {
      AlikeChildren(ops, others, Innermost(ops, i).value);
    }
  }

  /** Every surviving write's value reads back. */
  ghost predicate SurvivorsReadBack(lim: Limits, ops: seq<Op>, others: seq<Op>)
    requires AllAlike(ops, others)
  {
    forall i :: 0 <= i < |ops| && ops[i].SetField? && FateOf(ops, i) == Kept ==> CarriesAt(lim, ops, others, i)
  }

  predicate CarriesAt(lim: Limits, ops: seq<Op>, others: seq<Op>, i: nat)
    requires i < |ops| == |others|
  {
    Carries(lim, ops[i], others[i])
  }

  lemma {:induction false} SurvivorsCarry(lim: Limits, ops: seq<Op>, others: seq<Op>, i: nat)
    requires AllAlike(ops, others) && SurvivorsReadBack(lim, ops, others) && i <= |ops|
    ensures AllCarry(lim, Survivors(ops, i), Survivors(others, i))
  {
    hide FateOf, ReadsBack;
    if i > 0 {
      SurvivorsCarry(lim, ops, others, i - 1);
      AlikeFates(ops, others, i - 1);
      assert Alike(ops[i - 1], others[i - 1]);
      if FateOf(ops, i - 1) == Kept && ops[i - 1].SetField? {
        assert CarriesAt(lim, ops, others, i - 1);
      }
    }
  }
}
