/** The journal's byte format: encoding decoded operations, and the lemma that
    executing encoded bytes is executing the operations. */
module Journal {
  import opened Basics
  import opened Codec
  import opened Model
  import opened ReplayVm

  function OpByte(op: Op): (b: Byte)
    ensures 1 <= b <= 0x0A
  {
    match op
    case NewNode(_, _) => 0x01
    case SetField(_, _, _) => 0x02
    case BeginGroup(_, _) => 0x03
    case EndGroup => 0x04
    case AddChild(_) => 0x05
    case LinkRef(_, _, _) => 0x06
    case DropNode(_) => 0x07
    case Snapshot(_) => 0x08
    case SetMeta(_, _) => 0x09
    case Nop => 0x0A
  }

  function OperandBytes(op: Op): seq<Byte> {
    match op
    case NewNode(kind, name) => Varint(kind) + Varint(name)
    case SetField(node, field, value) => Varint(node) + (Varint(field) + ValueBytes(value))
    case BeginGroup(owner, hint) => Varint(owner) + Varint(hint)
    case EndGroup => []
    case AddChild(child) => Varint(child)
    case LinkRef(src, field, target) => Varint(src) + (Varint(field) + Varint(target))
    case DropNode(node) => Varint(node)
    case Snapshot(tag) => Varint(tag)
    case SetMeta(key, value) => Varint(key) + Varint(value)
    case Nop => []
  }

  function OpBytes(op: Op): seq<Byte> {
    [OpByte(op)] + OperandBytes(op)
  }

  function OpsBytes(ops: seq<Op>): seq<Byte> {
    if ops == [] then [] else OpBytes(ops[0]) + OpsBytes(ops[1..])
  }

  /** A journal payload: the operation count, then the operations. */
  function JournalBytes(ops: seq<Op>): seq<Byte> {
    Varint(|ops|) + OpsBytes(ops)
  }

  /** An operation the wire format can carry under these limits: node ids are
      32-bit and a stored value is one a reader would accept. */
  predicate Encodable(op: Op, lim: Limits) {
    op.SetField? ==> op.node < TWO32 && Storable(op.value, lim)
  }

  lemma {:induction false} OpsBytesAppend(a: seq<Op>, b: seq<Op>)
    ensures OpsBytes(a + b) == OpsBytes(a) + OpsBytes(b)
    decreases |a|
  {
    hide OpBytes;
    if a == [] {
      assert a + b == b;
    } else {
      assert (a + b)[1..] == a[1..] + b;
      OpsBytesAppend(a[1..], b);
    }
  }

  lemma OpsBytesOne(op: Op)
    ensures OpsBytes([op]) == OpBytes(op)
  {
    assert [op][1..] == [];
  }

  // ----- operand round trips -----

  lemma TwoVarints(a: U32, b: U32, rest: seq<Byte>)
    ensures ReadVarintU32(Varint(a) + Varint(b) + rest) == Ok((a, Varint(b) + rest))
    ensures ReadVarintU32(Varint(b) + rest) == Ok((b, rest))
  {
    hide Varint, ReadVarint, ReadVarintU32;
    assert Varint(a) + Varint(b) + rest == Varint(a) + (Varint(b) + rest);
    VarintU32RoundTrip(a, Varint(b) + rest);
    VarintU32RoundTrip(b, rest);
  }

  lemma TwoVarintsThen(a: U32, b: U32, tail: seq<Byte>, rest: seq<Byte>)
    ensures ReadVarintU32(Varint(a) + (Varint(b) + tail) + rest) == Ok((a, Varint(b) + (tail + rest)))
    ensures ReadVarintU32(Varint(b) + (tail + rest)) == Ok((b, tail + rest))
  {
    hide Varint, ReadVarint, ReadVarintU32;
    assert Varint(a) + (Varint(b) + tail) + rest == Varint(a) + (Varint(b) + (tail + rest));
    VarintU32RoundTrip(a, Varint(b) + (tail + rest));
    VarintU32RoundTrip(b, tail + rest);
  }

  lemma ExecEncodedSetField(env: Env, st: VmState, op: Op, rest: seq<Byte>)
    requires st.Safe() && op.SetField? && Encodable(op, env.lim)
    requires OpEffect(env, st, op) != Err(TypeMismatch)
    ensures ExecSetField(env, st, OperandBytes(op) + rest) == Done(OpEffect(env, st, op), rest)
  {
    hide Varint, ReadVarint, ReadVarintU32, ReadValue, ValueBytes, SetFieldStep;
    TwoVarintsThen(op.node, op.field, ValueBytes(op.value), rest);
    ValueRoundTrip(op.value, env.lim, rest);
  }

  lemma ExecEncodedLinkRef(env: Env, st: VmState, op: Op, rest: seq<Byte>)
    requires st.Safe() && op.LinkRef?
    ensures ExecLinkRef(env, st, OperandBytes(op) + rest) == Done(OpEffect(env, st, op), rest)
  {
    hide Varint, ReadVarint, ReadVarintU32, LinkRefStep;
    TwoVarintsThen(op.src, op.lfield, Varint(op.target), rest);
    VarintU32RoundTrip(op.target, rest);
  }

  lemma ExecEncodedTwo(env: Env, st: VmState, op: Op, rest: seq<Byte>)
    requires st.Safe() && (op.NewNode? || op.BeginGroup? || op.SetMeta?)
    ensures ExecOperands(env, st, OpByte(op), OperandBytes(op) + rest) == Done(OpEffect(env, st, op), rest)
  {
    hide Varint, ReadVarint, ReadVarintU32, NewNodeStep, BeginGroupStep, SetMetaStep;
    match op {
      case NewNode(kind, name) => TwoVarints(kind, name, rest);
      case BeginGroup(owner, hint) => TwoVarints(owner, hint, rest);
      case SetMeta(key, value) => TwoVarints(key, value, rest);
    }
  }

  lemma ExecEncodedOne(env: Env, st: VmState, op: Op, rest: seq<Byte>)
    requires st.Safe() && (op.AddChild? || op.DropNode? || op.Snapshot?)
    ensures ExecOperands(env, st, OpByte(op), OperandBytes(op) + rest) == Done(OpEffect(env, st, op), rest)
  {
    hide Varint, ReadVarint, ReadVarintU32, AddChildStep, DropNodeStep, SnapshotStep;
    match op {
      case AddChild(child) => VarintU32RoundTrip(child, rest);
      case DropNode(node) => VarintU32RoundTrip(node, rest);
      case Snapshot(tag) => VarintU32RoundTrip(tag, rest);
    }
  }

  /** Executing an encoded operation is executing the operation, and consumes
      exactly its bytes. */
  lemma ExecEncoded(env: Env, st: VmState, op: Op, rest: seq<Byte>)
    requires st.Safe() && Encodable(op, env.lim)
    requires op.SetField? ==> OpEffect(env, st, op) != Err(TypeMismatch)
    ensures ExecOperands(env, st, OpByte(op), OperandBytes(op) + rest) == Done(OpEffect(env, st, op), rest)
  {
    hide ReadVarintU32, NewNodeStep, SetFieldStep, BeginGroupStep, EndGroupStep, AddChildStep, LinkRefStep, DropNodeStep, SnapshotStep, SetMetaStep;
    if op.SetField? {
      ExecEncodedSetField(env, st, op, rest);
    } else if op.LinkRef? {
      ExecEncodedLinkRef(env, st, op, rest);
    } else if op.EndGroup? || op.Nop? {
      assert OperandBytes(op) + rest == rest;
    } else if op.AddChild? || op.DropNode? || op.Snapshot? {
      ExecEncodedOne(env, st, op, rest);
    } else {
      ExecEncodedTwo(env, st, op, rest);
    }
  }

  /** Not a write of the wrong type: the wire carries no type, so the machine
      cannot see one there. */
  ghost predicate Typed(env: Env, st: VmState, op: Op)
    requires st.Safe()
  {
    op.SetField? ==> Step(env, st, op) != Err(TypeMismatch)
  }

  /** No write the run reaches has the wrong type. */
  ghost predicate ValuesTyped(env: Env, st: VmState, ops: seq<Op>)
    requires st.Safe()
    decreases |ops|
  {
    ops != [] ==>
      && Typed(env, st, ops[0])
      && (Step(env, st, ops[0]).Ok? ==> ValuesTyped(env, Step(env, st, ops[0]).value, ops[1..]))
  }

  lemma {:induction false} AcceptedIsTyped(env: Env, st: VmState, ops: seq<Op>)
    requires st.Safe() && RunOps(env, st, ops).Ok?
    ensures ValuesTyped(env, st, ops)
    decreases |ops|
  {
    hide Step;
    if ops != [] {
      AcceptedIsTyped(env, Step(env, st, ops[0]).value, ops[1..]);
    }
  }

  lemma ExecOneEncoded(env: Env, st: VmState, op: Op, rest: seq<Byte>)
    requires st.Safe() && Encodable(op, env.lim) && Typed(env, st, op)
    ensures ExecOne(env, st, OpBytes(op) + rest) == Done(Step(env, st, op), rest)
  {
    hide OpEffect, ExecOperands, OperandBytes;
    ExecEncoded(env, st, op, rest);
    assert (OpBytes(op) + rest)[1..] == OperandBytes(op) + rest;
  }

  lemma {:induction false} ExecManyEncoded(env: Env, st: VmState, ops: seq<Op>, rest: seq<Byte>)
    requires st.Safe() && ValuesTyped(env, st, ops)
    requires forall op :: op in ops ==> Encodable(op, env.lim)
    ensures ExecMany(env, st, OpsBytes(ops) + rest, |ops|) == Done(RunOps(env, st, ops), rest)
    decreases |ops|
  {
    hide Step, ExecOne, OpBytes;
    if ops == [] {
      assert OpsBytes(ops) + rest == rest;
    } else {
      var tail := OpsBytes(ops[1..]) + rest;
      assert OpsBytes(ops) + rest == OpBytes(ops[0]) + tail;
      ExecOneEncoded(env, st, ops[0], tail);
      if Step(env, st, ops[0]).Ok? {
        ExecManyEncoded(env, Step(env, st, ops[0]).value, ops[1..], rest);
      }
    }
  }

  /** Replaying an encoded journal replays exactly the encoded operations, to
      the same state or the same error. The one exception is a run that reaches
      a SET_FIELD with a value of the wrong type. */
  lemma ReplayOfEncoded(env: Env, st: VmState, ops: seq<Op>, rest: seq<Byte>)
    requires st.Safe() && ValuesTyped(env, st, ops)
    requires forall op :: op in ops ==> Encodable(op, env.lim)
    requires |ops| <= env.lim.maxJournalOps && |ops| < TWO32
    ensures RunBytes(env, st, JournalBytes(ops) + rest) == Done(Closed(RunOps(env, st, ops)), rest)
  {
    hide Step, ExecOne, Varint, ReadVarint, ReadVarintU32, OpBytes;
    assert JournalBytes(ops) + rest == Varint(|ops|) + (OpsBytes(ops) + rest);
    VarintU32RoundTrip(|ops|, OpsBytes(ops) + rest);
    ExecManyEncoded(env, st, ops, rest);
  }

  /** A run must not leave a group open. */
  function Closed(r: Result<VmState>): Result<VmState> {
    var st :- r;
    if st.frames != [] then Err(GroupUnderflow) else Ok(st)
  }

  lemma {:induction false} RunOpsAppend(env: Env, st: VmState, a: seq<Op>, b: seq<Op>)
    requires st.Safe() && RunOps(env, st, a).Ok?
    ensures RunOps(env, st, a + b) == RunOps(env, RunOps(env, st, a).value, b)
    decreases |a|
  {
    hide Step;
    if a == [] {
      assert a + b == b;
    } else {
      assert (a + b)[1..] == a[1..] + b;
      RunOpsAppend(env, Step(env, st, a[0]).value, a[1..], b);
    }
  }

  /** An accepted run's prefixes are accepted. */
  lemma {:induction false} RunOpsPrefix(env: Env, st: VmState, ops: seq<Op>, i: nat)
    requires st.Safe() && RunOps(env, st, ops).Ok? && i <= |ops|
    ensures RunOps(env, st, ops[..i]).Ok?
    ensures i < |ops| ==>
      var mid := RunOps(env, st, ops[..i]).value;
      Step(env, mid, ops[i]).Ok? && RunOps(env, st, ops[..i + 1]) == Step(env, mid, ops[i])
    decreases |ops|
  {
    hide Step;
    if i == 0 {
      if |ops| > 0 {
        assert ops[..1][1..] == [];
      }
    } else {
      RunOpsPrefix(env, Step(env, st, ops[0]).value, ops[1..], i - 1);
      assert ops[..i][1..] == ops[1..][..i - 1];
      if i < |ops| {
        assert ops[..i + 1][1..] == ops[1..][..i];
      }
    }
  }

  // ----- decoding without executing -----

  function KindsOf(nodes: seq<Node>): (kinds: seq<U32>)
    ensures |kinds| == |nodes|
  {
    seq(|nodes|, k requires 0 <= k < |nodes| => nodes[k].kind)
  }

  /** The type a SET_FIELD value is read under, given the kinds of the nodes
      numbered so far; an unknown field is read as an integer. */
  function WireType(schema: Schema, kinds: seq<U32>, node: nat, field: nat): (t: ValueType)
    ensures t != TInvalid
  {
    if node < |kinds| && schema.FieldType(kinds[node], field) != TInvalid
    then schema.FieldType(kinds[node], field)
    else TInt
  }

  function ReadSetField(schema: Schema, kinds: seq<U32>, lim: Limits, s: seq<Byte>): Result<(Op, seq<Byte>)> {
    var (node, s1) :- ReadVarintU32(s);
    var (field, s2) :- ReadVarintU32(s1);
    var (v, s3) :- ReadValue(s2, WireType(schema, kinds, node, field), lim);
    Ok((SetField(node, field, v), s3))
  }

  function ReadLinkRef(s: seq<Byte>): Result<(Op, seq<Byte>)> {
    var (src, s1) :- ReadVarintU32(s);
    var (field, s2) :- ReadVarintU32(s1);
    var (target, s3) :- ReadVarintU32(s2);
    Ok((LinkRef(src, field, target), s3))
  }

  function ReadOperands(schema: Schema, kinds: seq<U32>, lim: Limits, raw: Byte, s: seq<Byte>): Result<(Op, seq<Byte>)> {
    match raw
    case 0x01 =>
      var (kind, s1) :- ReadVarintU32(s);
      var (name, s2) :- ReadVarintU32(s1);
      Ok((NewNode(kind, name), s2))
    case 0x02 => ReadSetField(schema, kinds, lim, s)
    case 0x03 =>
      var (owner, s1) :- ReadVarintU32(s);
      var (hint, s2) :- ReadVarintU32(s1);
      Ok((BeginGroup(owner, hint), s2))
    case 0x04 => Ok((EndGroup, s))
    case 0x05 => var (child, s1) :- ReadVarintU32(s); Ok((AddChild(child), s1))
    case 0x06 => ReadLinkRef(s)
    case 0x07 => var (node, s1) :- ReadVarintU32(s); Ok((DropNode(node), s1))
    case 0x08 => var (tag, s1) :- ReadVarintU32(s); Ok((Snapshot(tag), s1))
    case 0x09 =>
      var (key, s1) :- ReadVarintU32(s);
      var (value, s2) :- ReadVarintU32(s1);
      Ok((SetMeta(key, value), s2))
    case 0x0A => Ok((Nop, s))
    case _ => Err(BadOpcode)
  }

  function ReadOp(schema: Schema, kinds: seq<U32>, lim: Limits, s: seq<Byte>): Result<(Op, seq<Byte>)> {
    var (raw, s1) :- ReadU8(s);
    ReadOperands(schema, kinds, lim, raw, s1)
  }

  // ----- every execution of bytes is an execution of operations -----

  lemma ExecSetFieldDecodes(env: Env, st: VmState, s: seq<Byte>)
    requires st.Safe() && ExecSetField(env, st, s).Ok?
    ensures var d := ReadSetField(env.schema, KindsOf(st.nodes), env.lim, s);
      && d.Ok? && Encodable(d.value.0, env.lim)
      && ExecSetField(env, st, s) == Done(OpEffect(env, st, d.value.0), d.value.1)
  {
    hide ReadVarintU32, SetFieldStep;
    var node := ReadVarintU32(s).value.0;
    var s2 := ReadVarintU32(ReadVarintU32(s).value.1).value.1;
    var field := ReadVarintU32(ReadVarintU32(s).value.1).value.0;
    assert KindsOf(st.nodes)[node] == st.nodes[node].kind;
    ReadValueStorable(s2, env.schema.FieldType(st.nodes[node].kind, field), env.lim);
  }

  lemma ExecOperandsDecodes(env: Env, st: VmState, raw: Byte, s: seq<Byte>)
    requires st.Safe() && ExecOperands(env, st, raw, s).Ok?
    ensures var d := ReadOperands(env.schema, KindsOf(st.nodes), env.lim, raw, s);
      && d.Ok? && Encodable(d.value.0, env.lim)
      && ExecOperands(env, st, raw, s) == Done(OpEffect(env, st, d.value.0), d.value.1)
  {
    hide ReadVarintU32, ReadSetField, NewNodeStep, SetFieldStep, BeginGroupStep, EndGroupStep,
      AddChildStep, LinkRefStep, DropNodeStep, SnapshotStep, SetMetaStep;
    if raw == 0x02 {
      ExecSetFieldDecodes(env, st, s);
    }
  }

  /** One executed operation: decode it under the machine's own node kinds, and
      executing the bytes is a step on the decoded operation. */
  lemma ExecOneDecodes(env: Env, st: VmState, s: seq<Byte>)
    requires st.Safe() && ExecOne(env, st, s).Ok?
    ensures var d := ReadOp(env.schema, KindsOf(st.nodes), env.lim, s);
      && d.Ok? && Encodable(d.value.0, env.lim)
      && Step(env, st, d.value.0) == Ok(ExecOne(env, st, s).value.0)
      && ExecOne(env, st, s).value.1 == d.value.1
  {
    hide ReadOperands, ExecOperands, OpEffect;
    ExecOperandsDecodes(env, st, s[0], s[1..]);
  }

  /** The operations a run executes, up to the first failure. */
  function OpsRun(env: Env, st: VmState, s: seq<Byte>, count: nat): (ops: seq<Op>)
    requires st.Safe()
    decreases count
  {
    hide ExecOne, ReadOp;
    if count == 0 then []
    else
      var exec, read := ExecOne(env, st, s), ReadOp(env.schema, KindsOf(st.nodes), env.lim, s);
      if exec.Err? || read.Err? then []
      else [read.value.0] + OpsRun(env, exec.value.0, exec.value.1, count - 1)
  }

  /** Executing a run of bytes is running the operations it decodes to, each of
      which the wire format can carry again. */
  lemma {:induction false} ExecManyIsRunOps(env: Env, st: VmState, s: seq<Byte>, count: nat)
    requires st.Safe() && ExecMany(env, st, s, count).Ok?
    ensures |OpsRun(env, st, s, count)| == count
    ensures RunOps(env, st, OpsRun(env, st, s, count)) == Ok(ExecMany(env, st, s, count).value.0)
    ensures forall op :: op in OpsRun(env, st, s, count) ==> Encodable(op, env.lim)
    decreases count
  {
    hide Step, ExecOne, ReadOp;
    if count > 0 {
      ExecOneDecodes(env, st, s);
      var (st', s') := ExecOne(env, st, s).value;
      ExecManyIsRunOps(env, st', s', count - 1);
      assert OpsRun(env, st, s, count)[1..] == OpsRun(env, st', s', count - 1);
    }
  }

  // ----- intermediate states -----

  /** The machine after the first i operations of an accepted run. */
  function StateFrom(env: Env, st: VmState, ops: seq<Op>, i: nat): (mid: VmState)
    requires st.Safe() && RunOps(env, st, ops).Ok? && i <= |ops|
    ensures mid.Safe()
  {
    RunOpsPrefix(env, st, ops, i);
    RunOps(env, st, ops[..i]).value
  }

  lemma StateFromStep(env: Env, st: VmState, ops: seq<Op>, i: nat)
    requires st.Safe() && RunOps(env, st, ops).Ok? && i < |ops|
    ensures Step(env, StateFrom(env, st, ops, i), ops[i]) == Ok(StateFrom(env, st, ops, i + 1))
  {
    hide Step, RunOps;
    RunOpsPrefix(env, st, ops, i);
  }

  lemma StateFromEnds(env: Env, st: VmState, ops: seq<Op>)
    requires st.Safe() && RunOps(env, st, ops).Ok?
    ensures StateFrom(env, st, ops, 0) == st
    ensures StateFrom(env, st, ops, |ops|) == RunOps(env, st, ops).value
  {
    assert ops[..0] == [] && ops[..|ops|] == ops;
  }
}
