/** Compaction from bytes to bytes: decoding under the compactor's own node
    numbering, the result with its statistics, and their conservation. */
module CompactorSpec {
  import opened Basics
  import opened Codec
  import opened Model
  import opened ReplayVm
  import opened Journal
  import opened Groups
  import opened Compaction

  // ----- decoding -----

  /** One decoded operation. Child names are collected on the copy of a
      BEGIN_GROUP that sits on the group stack and end up on its END_GROUP. */
  datatype OpRecord = OpRecord(op: Op, groupChildren: seq<U32>)

  datatype DecodeState = DecodeState(kinds: seq<U32>, stack: seq<OpRecord>)

  const START: DecodeState := DecodeState([], [])

  /** Number the node, or keep the group stack, for one decoded operation. */
  function Track(ds: DecodeState, op: Op): Result<(OpRecord, DecodeState)> {
    match op
    case NewNode(kind, _) => Ok((OpRecord(op, []), ds.(kinds := ds.kinds + [kind])))
    case BeginGroup(_, _) => Ok((OpRecord(op, []), ds.(stack := ds.stack + [OpRecord(op, [])])))
    case EndGroup =>
      if ds.stack == [] then Err(GroupUnderflow)
      else
        var top := |ds.stack| - 1;
        Ok((OpRecord(op, ds.stack[top].groupChildren), ds.(stack := ds.stack[..top])))
    case AddChild(child) =>
      if ds.stack == [] then Ok((OpRecord(op, []), ds))
      else
        var top := |ds.stack| - 1;
        var rec := ds.stack[top];
        Ok((OpRecord(op, []), ds.(stack := ds.stack[top := rec.(groupChildren := rec.groupChildren + [child])])))
    case _ => Ok((OpRecord(op, []), ds))
  }

  type Decoded<T> = Result<((T, DecodeState), seq<Byte>)>

  function DecodeOp(schema: Schema, ds: DecodeState, s: seq<Byte>): Decoded<OpRecord> {
    var (op, rest) :- ReadOp(schema, ds.kinds, DEFAULT_LIMITS, s);
    var (rec, ds') :- Track(ds, op);
    Ok(((rec, ds'), rest))
  }

  function DecodeOps(schema: Schema, ds: DecodeState, s: seq<Byte>, count: nat): (r: Decoded<seq<OpRecord>>)
    ensures r.Ok? ==> |r.value.0.0| == count
    decreases count
  {
    if count == 0 then Ok((([], ds), s))
    else
      var ((rec, ds1), s1) :- DecodeOp(schema, ds, s);
      var ((recs, ds2), s2) :- DecodeOps(schema, ds1, s1, count - 1);
      Ok((([rec] + recs, ds2), s2))
  }

  function OpsOf(recs: seq<OpRecord>): (ops: seq<Op>)
    ensures |ops| == |recs|
    ensures forall i :: 0 <= i < |recs| ==> ops[i] == recs[i].op
  {
    seq(|recs|, i requires 0 <= i < |recs| => recs[i].op)
  }

  // ----- the result -----

  datatype CompactionStats = CompactionStats(
    inputOps: nat,
    outputOps: nat,
    deadNodeOps: nat,
    redundantSets: nat,
    nops: nat,
    deadGroupOps: nat)

  ghost function CountFate(ops: seq<Op>, i: nat, fate: Fate): nat
    requires i <= |ops|
  {
    if i == 0 then 0 else CountFate(ops, i - 1, fate) + if FateOf(ops, i - 1) == fate then 1 else 0
  }

  ghost function StatsOf(ops: seq<Op>): CompactionStats {
    CompactionStats(
      |ops|,
      |Compacted(ops)|,
      CountFate(ops, |ops|, OnDeadNode),
      CountFate(ops, |ops|, Redundant),
      CountFate(ops, |ops|, IsNop),
      CountFate(ops, |ops|, EmptyGroup))
  }

  /** Decode a payload whose groups balance. */
  function DecodeJournal(schema: Schema, s: seq<Byte>): Result<seq<OpRecord>> {
    var (count, s1) :- ReadVarintU32(s);
    var ((recs, ds), rest) :- DecodeOps(schema, START, s1, count);
    if ds.stack != [] then Err(GroupUnderflow) else Ok(recs)
  }

  ghost function Compact(schema: Schema, s: seq<Byte>): Result<(seq<Byte>, CompactionStats)> {
    var recs :- DecodeJournal(schema, s);
    var ops := OpsOf(recs);
    Ok((JournalBytes(Compacted(ops)), StatsOf(ops)))
  }

  // ----- conservation -----

  lemma {:induction false} CountsPartition(ops: seq<Op>, i: nat)
    requires i <= |ops|
    ensures i == |Survivors(ops, i)| + CountFate(ops, i, OnDeadNode) + CountFate(ops, i, Redundant)
               + CountFate(ops, i, IsNop) + CountFate(ops, i, EmptyGroup)
  {
    if i > 0 {
      CountsPartition(ops, i - 1);
    }
  }

  /** Every input operation is emitted or counted by exactly one removal counter. */
  lemma OpsAreConserved(schema: Schema, s: seq<Byte>)
    requires Compact(schema, s).Ok?
    ensures var st := Compact(schema, s).value.1;
      st.inputOps == st.outputOps + st.deadNodeOps + st.redundantSets + st.nops + st.deadGroupOps
  {
    CountsPartition(OpsOf(DecodeJournal(schema, s).value), |OpsOf(DecodeJournal(schema, s).value)|);
  }

  // ----- what decoding guarantees, and what it needs -----

  /** The kinds of the nodes numbered by the first i operations. */
  function KindsAt(ops: seq<Op>, i: nat): (kinds: seq<U32>)
    requires i <= |ops|
    ensures |kinds| == Numbered(ops, i)
  {
    if i == 0 then []
    else if ops[i - 1].NewNode? then KindsAt(ops, i - 1) + [ops[i - 1].kind]
    else KindsAt(ops, i - 1)
  }

  /** Operation i is one the decoder can produce at its place. */
  predicate DecodableAt(schema: Schema, ops: seq<Op>, i: nat)
    requires i < |ops|
  {
    && Encodable(ops[i], DEFAULT_LIMITS)
    && (ops[i].SetField? ==> ops[i].value.Type() == WireType(schema, KindsAt(ops, i), ops[i].node, ops[i].field))
    && (ops[i].EndGroup? ==> Stack(ops, i) != [])
  }

  ghost predicate Decodable(schema: Schema, ops: seq<Op>) {
    forall i :: 0 <= i < |ops| ==> DecodableAt(schema, ops, i)
  }

  /** The decoder's state after operations ops[..i]. */
  ghost predicate TracksPrefix(ops: seq<Op>, i: nat, ds: DecodeState)
    requires i <= |ops|
  {
    ds.kinds == KindsAt(ops, i) && |ds.stack| == |Stack(ops, i)|
  }

  lemma TrackStep(ops: seq<Op>, i: nat, ds: DecodeState)
    requires i < |ops| && TracksPrefix(ops, i, ds)
    ensures Track(ds, ops[i]).Ok? <==> (ops[i].EndGroup? ==> Stack(ops, i) != [])
    ensures Track(ds, ops[i]).Ok? ==>
      TracksPrefix(ops, i + 1, Track(ds, ops[i]).value.1) && Track(ds, ops[i]).value.0.op == ops[i]
  {
  }

  lemma ReadOpEncodable(schema: Schema, kinds: seq<U32>, lim: Limits, s: seq<Byte>)
    requires ReadOp(schema, kinds, lim, s).Ok?
    ensures var op := ReadOp(schema, kinds, lim, s).value.0;
      && Encodable(op, lim)
      && (op.SetField? ==> op.value.Type() == WireType(schema, kinds, op.node, op.field))
  {
    hide ReadVarintU32, WireType;
    if s[0] == 0x02 {
      var s1 := s[1..];
      var s2 := ReadVarintU32(ReadVarintU32(s1).value.1).value.1;
      var node := ReadVarintU32(s1).value.0;
      var field := ReadVarintU32(ReadVarintU32(s1).value.1).value.0;
      ReadValueStorable(s2, WireType(schema, kinds, node, field), lim);
    }
  }

  /** Decoding yields a decodable continuation of what was decoded before. */
  lemma {:induction false} DecodedIsDecodable(schema: Schema, all: seq<Op>, i: nat, ds: DecodeState, s: seq<Byte>, count: nat)
    requires i + count == |all| && TracksPrefix(all, i, ds)
    requires DecodeOps(schema, ds, s, count).Ok?
    requires all[i..] == OpsOf(DecodeOps(schema, ds, s, count).value.0.0)
    ensures forall j :: i <= j < |all| ==> DecodableAt(schema, all, j)
    ensures TracksPrefix(all, |all|, DecodeOps(schema, ds, s, count).value.0.1)
    decreases count
  {
    hide ReadOp, DecodableAt, TracksPrefix, Track;
    if count > 0 {
      var ((rec, ds1), s1) := DecodeOp(schema, ds, s).value;
      var recs := DecodeOps(schema, ds1, s1, count - 1).value.0.0;
      var op := ReadOp(schema, ds.kinds, DEFAULT_LIMITS, s).value.0;
      TrackKeepsOp(ds, op);
      assert DecodeOps(schema, ds, s, count).value.0.0 == [rec] + recs;
      assert all[i] == all[i..][0] == op;
      assert all[i + 1..] == all[i..][1..] == OpsOf(recs);
      DecodedAt(schema, all, i, ds, s);
      TrackStep(all, i, ds);
      DecodedIsDecodable(schema, all, i + 1, ds1, s1, count - 1);
    }
  }

  lemma TrackKeepsOp(ds: DecodeState, op: Op)
    ensures Track(ds, op).Ok? ==> Track(ds, op).value.0.op == op
    ensures Track(ds, op).Ok? && op.BeginGroup? ==> Track(ds, op).value.0.groupChildren == []
  {
  }

  lemma DecodedAt(schema: Schema, all: seq<Op>, i: nat, ds: DecodeState, s: seq<Byte>)
    requires i < |all| && TracksPrefix(all, i, ds) && DecodeOp(schema, ds, s).Ok?
    requires all[i] == ReadOp(schema, ds.kinds, DEFAULT_LIMITS, s).value.0
    ensures DecodableAt(schema, all, i)
  {
    hide ReadOp, Encodable, WireType;
    ReadOpEncodable(schema, ds.kinds, DEFAULT_LIMITS, s);
  }

  lemma ReadSetFieldRoundTrip(schema: Schema, kinds: seq<U32>, op: Op, rest: seq<Byte>)
    requires op.SetField? && Encodable(op, DEFAULT_LIMITS)
    requires op.value.Type() == WireType(schema, kinds, op.node, op.field)
    ensures ReadSetField(schema, kinds, DEFAULT_LIMITS, OperandBytes(op) + rest) == Ok((op, rest))
  {
    hide Varint, ReadVarintU32, ReadValue, ValueBytes, WireType;
    TwoVarintsThen(op.node, op.field, ValueBytes(op.value), rest);
    ValueRoundTrip(op.value, DEFAULT_LIMITS, rest);
  }

  lemma ReadLinkRefRoundTrip(op: Op, rest: seq<Byte>)
    requires op.LinkRef?
    ensures ReadLinkRef(OperandBytes(op) + rest) == Ok((op, rest))
  {
    hide Varint, ReadVarintU32;
    TwoVarintsThen(op.src, op.lfield, Varint(op.target), rest);
    VarintU32RoundTrip(op.target, rest);
  }

  lemma ReadOperandsRoundTrip(schema: Schema, kinds: seq<U32>, op: Op, rest: seq<Byte>)
    requires !op.SetField? && !op.LinkRef?
    ensures ReadOperands(schema, kinds, DEFAULT_LIMITS, OpByte(op), OperandBytes(op) + rest) == Ok((op, rest))
  {
    hide Varint, ReadVarintU32, ReadSetField, ReadLinkRef;
    match op {
      case NewNode(kind, name) => TwoVarints(kind, name, rest);
      case BeginGroup(owner, hint) => TwoVarints(owner, hint, rest);
      case AddChild(child) => VarintU32RoundTrip(child, rest);
      case DropNode(node) => VarintU32RoundTrip(node, rest);
      case Snapshot(tag) => VarintU32RoundTrip(tag, rest);
      case SetMeta(key, value) => TwoVarints(key, value, rest);
      case EndGroup => assert OperandBytes(op) + rest == rest;
      case Nop => assert OperandBytes(op) + rest == rest;
    }
  }

  lemma ReadOpRoundTrip(schema: Schema, kinds: seq<U32>, op: Op, rest: seq<Byte>)
    requires Encodable(op, DEFAULT_LIMITS)
    requires op.SetField? ==> op.value.Type() == WireType(schema, kinds, op.node, op.field)
    ensures ReadOp(schema, kinds, DEFAULT_LIMITS, OpBytes(op) + rest) == Ok((op, rest))
  {
    hide OperandBytes, ReadVarintU32, ReadSetField, ReadLinkRef, Encodable, WireType;
    assert (OpBytes(op) + rest)[1..] == OperandBytes(op) + rest;
    if op.SetField? {
      ReadSetFieldRoundTrip(schema, kinds, op, rest);
    } else if op.LinkRef? {
      ReadLinkRefRoundTrip(op, rest);
    } else {
      ReadOperandsRoundTrip(schema, kinds, op, rest);
    }
  }

  lemma EncodedAt(schema: Schema, all: seq<Op>, i: nat, ds: DecodeState, tail: seq<Byte>)
    requires i < |all| && TracksPrefix(all, i, ds) && DecodableAt(schema, all, i)
    ensures Track(ds, all[i]).Ok?
    ensures ReadOp(schema, ds.kinds, DEFAULT_LIMITS, OpBytes(all[i]) + tail) == Ok((all[i], tail))
  {
    hide ReadOp, OpBytes, Encodable, WireType;
    ReadOpRoundTrip(schema, ds.kinds, all[i], tail);
    TrackStep(all, i, ds);
  }

  /** Decodable operations survive encoding and decoding. */
  lemma {:induction false} DecodeOfEncoded(schema: Schema, all: seq<Op>, i: nat, ds: DecodeState, rest: seq<Byte>)
    requires i <= |all| && TracksPrefix(all, i, ds) && Decodable(schema, all)
    ensures var r := DecodeOps(schema, ds, OpsBytes(all[i..]) + rest, |all| - i);
      r.Ok? && OpsOf(r.value.0.0) == all[i..] && TracksPrefix(all, |all|, r.value.0.1) && r.value.1 == rest
    decreases |all| - i
  {
    hide ReadOp, TracksPrefix, Track, OpBytes;
    if i == |all| {
      assert OpsBytes(all[i..]) + rest == rest;
    } else {
      var op, tail := all[i], OpsBytes(all[i + 1..]) + rest;
      assert all[i..][0] == op && all[i..][1..] == all[i + 1..];
      assert OpsBytes(all[i..]) + rest == OpBytes(op) + tail;
      EncodedAt(schema, all, i, ds, tail);
      TrackStep(all, i, ds);
      var (rec, ds1) := Track(ds, op).value;
      DecodeOfEncoded(schema, all, i + 1, ds1, rest);
      var recs := DecodeOps(schema, ds1, tail, |all| - i - 1).value.0.0;
      assert OpsOf([rec] + recs) == [op] + OpsOf(recs);
    }
  }

  /** A decodable, balanced journal decodes to itself. */
  lemma DecodeJournalRoundTrip(schema: Schema, ops: seq<Op>, rest: seq<Byte>)
    requires Decodable(schema, ops) && Stack(ops, |ops|) == [] && |ops| < TWO32
    ensures var r := DecodeJournal(schema, JournalBytes(ops) + rest);
      r.Ok? && OpsOf(r.value) == ops
  {
    hide ReadVarintU32, ReadVarint, Varint, ReadOp, OpBytes, DecodeOp, Decodable;
    assert JournalBytes(ops) + rest == Varint(|ops|) + (OpsBytes(ops) + rest);
    VarintU32RoundTrip(|ops|, OpsBytes(ops) + rest);
    assert ops[0..] == ops;
    DecodeOfEncoded(schema, ops, 0, START, rest);
  }

  lemma DecodedJournal(schema: Schema, s: seq<Byte>)
    requires DecodeJournal(schema, s).Ok?
    ensures var ops := OpsOf(DecodeJournal(schema, s).value);
      Decodable(schema, ops) && Stack(ops, |ops|) == [] && |ops| < TWO32
  {
    hide ReadVarintU32, ReadOp, DecodeOp, DecodableAt;
    var (count, s1) := ReadVarintU32(s).value;
    var ops := OpsOf(DecodeJournal(schema, s).value);
    assert ops[0..] == ops;
    DecodedIsDecodable(schema, ops, 0, START, s1, count);
  }

  /** The records of BEGIN_GROUPs never receive their children, so the
      reserve hint the compactor emits is always zero. */
  lemma {:induction false} BeginRecordsHaveNoChildren(schema: Schema, ds: DecodeState, s: seq<Byte>, count: nat)
    requires DecodeOps(schema, ds, s, count).Ok?
    ensures forall rec :: rec in DecodeOps(schema, ds, s, count).value.0.0 && rec.op.BeginGroup? ==> rec.groupChildren == []
    decreases count
  {
    hide ReadOp, Track;
    if count > 0 {
      var ((rec, ds1), s1) := DecodeOp(schema, ds, s).value;
      TrackKeepsOp(ds, ReadOp(schema, ds.kinds, DEFAULT_LIMITS, s).value.0);
      BeginRecordsHaveNoChildren(schema, ds1, s1, count - 1);
    }
  }
}
