/** Compaction against replay, on bytes: when the compactor decodes what the
    machine executes, and when replaying its output is equivalent to replaying
    its input. */
module CompactorTheorems {
  import opened Basics
  import opened Codec
  import opened Model
  import opened ReplayVm
  import opened Journal
  import opened VmInvariants
  import opened Groups
  import opened Compaction
  import opened CompactorSpec
  import opened CompactorSize
  import opened Misreads

  // ----- when the compactor decodes what the machine executes -----

  ghost predicate LimitsFit(env: Env) {
    env.schema.Fits() && env.lim.maxListLen <= DEFAULT_LIMITS.maxListLen
  }

  /** Every SET_FIELD carries a value of the type the compactor reads there,
      going by the kinds of the nodes it has numbered so far. */
  ghost predicate SameTypes(schema: Schema, ops: seq<Op>) {
    forall i :: 0 <= i < |ops| && ops[i].SetField? ==>
      ops[i].value.Type() == WireType(schema, KindsAt(ops, i), ops[i].node, ops[i].field)
  }

  /** Every SET_FIELD's bytes are also those of a value of the type the
      compactor reads there. */
  ghost predicate CompatibleTypes(schema: Schema, ops: seq<Op>) {
    forall i :: 0 <= i < |ops| ==> CompatibleAt(schema, ops, i)
  }

  predicate CompatibleAt(schema: Schema, ops: seq<Op>, i: nat)
    requires i < |ops|
  {
    ops[i].SetField? ==> ReadsUnder(ops[i].value, WireType(schema, KindsAt(ops, i), ops[i].node, ops[i].field))
  }

  /** An operation as the compactor reads it, going by some kinds. */
  function ReadWith(schema: Schema, kinds: seq<U32>, op: Op): Op {
    if op.SetField? then op.(value := ReadUnder(op.value, WireType(schema, kinds, op.node, op.field))) else op
  }

  /** The operations as the compactor reads them. */
  function AsRead(schema: Schema, ops: seq<Op>): (r: seq<Op>)
    ensures |r| == |ops|
  {
    seq(|ops|, i requires 0 <= i < |ops| => ReadWith(schema, KindsAt(ops, i), ops[i]))
  }

  lemma SameTypesAreCompatible(schema: Schema, ops: seq<Op>)
    requires SameTypes(schema, ops)
    ensures CompatibleTypes(schema, ops) && AsRead(schema, ops) == ops
  {
    hide WireType, KindsAt;
    forall i | 0 <= i < |ops| ensures CompatibleAt(schema, ops, i) && AsRead(schema, ops)[i] == ops[i] {
    }
  }

  lemma ReadSetFieldAgrees(env: Env, st: VmState, kinds: seq<U32>, s: seq<Byte>)
    requires st.Safe() && LimitsFit(env) && ExecSetField(env, st, s).Ok?
    requires ReadSetField(env.schema, KindsOf(st.nodes), env.lim, s).Ok?
    requires var op := ReadSetField(env.schema, KindsOf(st.nodes), env.lim, s).value.0;
      ReadsUnder(op.value, WireType(env.schema, kinds, op.node, op.field))
    ensures var (op, rest) := ReadSetField(env.schema, KindsOf(st.nodes), env.lim, s).value;
      ReadSetField(env.schema, kinds, DEFAULT_LIMITS, s) == Ok((ReadWith(env.schema, kinds, op), rest))
  {
    hide ReadVarintU32, SetFieldStep, WireType, ReadValue, ReadsUnder, ReadUnder;
    var (node, s1) := ReadVarintU32(s).value;
    var (field, s2) := ReadVarintU32(s1).value;
    ReadUnderReads(s2, WireType(env.schema, KindsOf(st.nodes), node, field), WireType(env.schema, kinds, node, field),
                   env.lim, DEFAULT_LIMITS);
  }

  lemma ReadOpAgrees(env: Env, st: VmState, kinds: seq<U32>, s: seq<Byte>)
    requires st.Safe() && LimitsFit(env) && ExecOne(env, st, s).Ok?
    requires ReadOp(env.schema, KindsOf(st.nodes), env.lim, s).Ok?
    requires var op := ReadOp(env.schema, KindsOf(st.nodes), env.lim, s).value.0;
      op.SetField? ==> ReadsUnder(op.value, WireType(env.schema, kinds, op.node, op.field))
    ensures var (op, rest) := ReadOp(env.schema, KindsOf(st.nodes), env.lim, s).value;
      ReadOp(env.schema, kinds, DEFAULT_LIMITS, s) == Ok((ReadWith(env.schema, kinds, op), rest))
  {
    hide ReadVarintU32, ExecSetField, ReadSetField, NewNodeStep, BeginGroupStep, EndGroupStep,
      AddChildStep, LinkRefStep, DropNodeStep, SnapshotStep, SetMetaStep, WireType, ReadsUnder, ReadUnder;
    if s[0] == 0x02 {
      SetFieldReads(env.schema, KindsOf(st.nodes), env.lim, s[1..]);
      ReadSetFieldAgrees(env, st, kinds, s[1..]);
    }
  }

  lemma SetFieldReads(schema: Schema, kinds: seq<U32>, lim: Limits, s: seq<Byte>)
    ensures ReadSetField(schema, kinds, lim, s).Ok? ==> ReadSetField(schema, kinds, lim, s).value.0.SetField?
  {
    hide ReadVarintU32, WireType;
  }

  /** The group stacks have the same depth after one more operation. */
  lemma DepthsStep(env: Env, st: VmState, ds: DecodeState, op: Op)
    requires st.Safe() && OpEffect(env, st, op).Ok? && |ds.stack| == |st.frames|
    ensures Track(ds, op).Ok? && |Track(ds, op).value.1.stack| == |OpEffect(env, st, op).value.frames|
  {
    hide EdgesOf, MissingEdges, LinkChildren;
  }

  /** Tracking does not look at the value written. */
  lemma TrackIgnoresValue(ds: DecodeState, schema: Schema, kinds: seq<U32>, op: Op)
    ensures Track(ds, op).Ok? ==>
      var other := ReadWith(schema, kinds, op);
      && Track(ds, other).Ok?
      && Track(ds, other).value.1 == Track(ds, op).value.1 && Track(ds, other).value.0.op == other
  {
    hide WireType, ReadUnder;
  }

  /** Along an accepted run whose written bytes suit the types the compactor
      reads, it decodes the operations the machine executes, up to the values
      written, from the same bytes. */
  lemma {:induction false} DecodeFollowsExec(env: Env, st: VmState, all: seq<Op>, i: nat, ds: DecodeState, s: seq<Byte>, count: nat)
    requires st.Safe() && LimitsFit(env) && ExecMany(env, st, s, count).Ok?
    requires i <= |all| && all[i..] == OpsRun(env, st, s, count) && CompatibleTypes(env.schema, all)
    requires TracksPrefix(all, i, ds) && |ds.stack| == |st.frames|
    ensures var r := DecodeOps(env.schema, ds, s, count);
      && r.Ok? && OpsOf(r.value.0.0) == AsRead(env.schema, all)[i..]
      && |r.value.0.1.stack| == |ExecMany(env, st, s, count).value.0.frames|
    decreases count
  {
    hide ReadOp, ExecOne, OpEffect, Track, WireType, Stack, KindsAt, DecodeOp, ReadWith, ReadsUnder;
    if count > 0 {
      ExecOneMore(env, st, s, count);
      ExecOneDecodes(env, st, s);
      var (op, s1) := ReadOp(env.schema, KindsOf(st.nodes), env.lim, s).value;
      var st' := ExecOne(env, st, s).value.0;
      var ops := OpsRun(env, st', s1, count - 1);
      assert OpsRun(env, st, s, count) == [op] + ops;
      assert all[i] == all[i..][0] == op && all[i + 1..] == all[i..][1..] == ops;
      assert CompatibleAt(env.schema, all, i);
      ReadOpAgrees(env, st, ds.kinds, s);
      var other := ReadWith(env.schema, ds.kinds, op);
      assert AsRead(env.schema, all)[i..] == [other] + AsRead(env.schema, all)[i + 1..];
      DepthsStep(env, st, ds, op);
      TrackStep(all, i, ds);
      TrackIgnoresValue(ds, env.schema, ds.kinds, op);
      DecodeFollowsExec(env, st', all, i + 1, Track(ds, op).value.1, s1, count - 1);
      DecodeOneMore(env.schema, ds, s, count, other, s1);
    }
  }

  lemma DecodeOneMore(schema: Schema, ds: DecodeState, s: seq<Byte>, count: nat, op: Op, s1: seq<Byte>)
    requires count > 0 && ReadOp(schema, ds.kinds, DEFAULT_LIMITS, s) == Ok((op, s1)) && Track(ds, op).Ok?
    requires DecodeOps(schema, Track(ds, op).value.1, s1, count - 1).Ok?
    ensures var tail := DecodeOps(schema, Track(ds, op).value.1, s1, count - 1).value;
      var r := DecodeOps(schema, ds, s, count);
      r.Ok? && OpsOf(r.value.0.0) == [op] + OpsOf(tail.0.0) && r.value.0.1 == tail.0.1
  {
    hide ReadOp, Track;
    TrackKeepsOp(ds, op);
    var (rec, ds') := Track(ds, op).value;
    var recs := DecodeOps(schema, ds', s1, count - 1).value.0.0;
    assert OpsOf([rec] + recs) == [op] + OpsOf(recs);
  }

  lemma ExecOneMore(env: Env, st: VmState, s: seq<Byte>, count: nat)
    requires st.Safe() && count > 0 && ExecMany(env, st, s, count).Ok?
    ensures ExecOne(env, st, s).Ok?
    ensures ExecMany(env, st, s, count) == ExecMany(env, ExecOne(env, st, s).value.0, ExecOne(env, st, s).value.1, count - 1)
  {
    hide ExecOne;
  }

  /** The operations an accepted journal executes. */
  function JournalOps(env: Env, start: VmState, s: seq<Byte>): seq<Op>
    requires start.Safe() && RunBytes(env, start, s).Ok?
  {
    var (count, s1) := ReadVarintU32(s).value;
    OpsRun(env, start, s1, count)
  }

  lemma JournalRuns(env: Env, start: VmState, s: seq<Byte>)
    requires start.Safe() && RunBytes(env, start, s).Ok?
    ensures var ops := JournalOps(env, start, s);
      && RunOps(env, start, ops) == Ok(RunBytes(env, start, s).value.0)
      && RunBytes(env, start, s).value.0.frames == []
      && |ops| <= env.lim.maxJournalOps && |ops| < TWO32
      && forall op :: op in ops ==> Encodable(op, env.lim)
  {
    hide ReadVarintU32, ExecMany, RunOps, OpsRun;
    var (count, s1) := ReadVarintU32(s).value;
    ExecManyIsRunOps(env, start, s1, count);
  }

  /** If the written bytes suit the types the compactor reads, it decodes an
      accepted journal to the operations the machine executes with those
      values in their place. */
  lemma DecodeFollowsCompatible(env: Env, start: VmState, s: seq<Byte>)
    requires LimitsFit(env) && start.Safe() && start.frames == [] && RunBytes(env, start, s).Ok?
    requires CompatibleTypes(env.schema, JournalOps(env, start, s))
    ensures DecodeJournal(env.schema, s).Ok?
    ensures OpsOf(DecodeJournal(env.schema, s).value) == AsRead(env.schema, JournalOps(env, start, s))
  {
    hide ReadVarintU32, ExecMany, OpsRun, DecodeOps, WireType, CompatibleTypes, ReadWith;
    var ops := JournalOps(env, start, s);
    var (count, s1) := ReadVarintU32(s).value;
    assert ops[0..] == ops && AsRead(env.schema, ops)[0..] == AsRead(env.schema, ops);
    DecodeFollowsExec(env, start, ops, 0, START, s1, count);
  }

  /** The compactor decodes an accepted journal to exactly the operations the
      machine executes, if and only if each field write carries a value of the
      type the compactor reads there. */
  lemma DecodeFollowsRun(env: Env, start: VmState, s: seq<Byte>)
    requires LimitsFit(env) && start.Safe() && start.frames == [] && RunBytes(env, start, s).Ok?
    ensures (DecodeJournal(env.schema, s).Ok? && OpsOf(DecodeJournal(env.schema, s).value) == JournalOps(env, start, s))
      <==> SameTypes(env.schema, JournalOps(env, start, s))
  {
    hide RunBytes, JournalOps, DecodeJournal, SameTypes, CompatibleTypes, AsRead;
    var ops := JournalOps(env, start, s);
    if SameTypes(env.schema, ops) {
      SameTypesAreCompatible(env.schema, ops);
      DecodeFollowsCompatible(env, start, s);
    } else if DecodeJournal(env.schema, s).Ok? && OpsOf(DecodeJournal(env.schema, s).value) == ops {
      DecodedJournal(env.schema, s);
      DecodableSameTypes(env.schema, ops);
      assert false;
    }
  }

  lemma DecodableSameTypes(schema: Schema, ops: seq<Op>)
    requires Decodable(schema, ops)
    ensures SameTypes(schema, ops)
  {
    hide WireType, KindsAt, Encodable;
    forall i | 0 <= i < |ops| && ops[i].SetField?
      ensures ops[i].value.Type() == WireType(schema, KindsAt(ops, i), ops[i].node, ops[i].field)
    {
      assert DecodableAt(schema, ops, i);
    }
  }

  // ----- when replaying the output is equivalent -----

  /** The compactor decodes the operations the machine executes, up to the
      values written, and those of the surviving writes read back, under the
      types the machine reads, as the values it wrote. */
  ghost predicate DecodesFaithfully(env: Env, start: VmState, s: seq<Byte>)
    requires start.Safe() && RunBytes(env, start, s).Ok?
  {
    var ops, read := JournalOps(env, start, s), DecodeJournal(env.schema, s);
    read.Ok? && AllAlike(ops, OpsOf(read.value)) && SurvivorsReadBack(env.lim, ops, OpsOf(read.value))
  }

  lemma AsReadCarries(schema: Schema, ops: seq<Op>, lim: Limits)
    requires forall op :: op in ops ==> Encodable(op, lim)
    ensures AllAlike(ops, AsRead(schema, ops)) && SurvivorsReadBack(lim, ops, AsRead(schema, ops))
  {
    hide WireType, KindsAt, ReadUnder, ReadsBack, FateOf;
    var read := AsRead(schema, ops);
    forall i | 0 <= i < |ops| ensures Alike(ops[i], read[i]) && CarriesAt(lim, ops, read, i) {
      assert ops[i] in ops;
      if ops[i].SetField? {
        ReadUnderReadsBack(lim, ops[i].value, WireType(schema, KindsAt(ops, i), ops[i].node, ops[i].field));
      }
    }
  }

  /** A journal whose written bytes suit the types the compactor reads is
      decoded faithfully: in particular one whose writes are read under their
      own types, or as another kind of varint that holds them. */
  lemma CompatibleIsFaithful(env: Env, start: VmState, s: seq<Byte>)
    requires LimitsFit(env) && start.Safe() && start.frames == [] && RunBytes(env, start, s).Ok?
    requires CompatibleTypes(env.schema, JournalOps(env, start, s))
    ensures DecodesFaithfully(env, start, s)
  {
    hide RunBytes, RunOps, JournalOps, DecodeJournal, CompatibleTypes, AsRead, AllAlike, SurvivorsReadBack, Encodable;
    DecodeFollowsCompatible(env, start, s);
    JournalRuns(env, start, s);
    AsReadCarries(env.schema, JournalOps(env, start, s), env.lim);
  }

  /** From any ready state, and for any accepted journal that is decoded
      faithfully: it compacts, the output is accepted, is read to its end and
      takes no more bytes, and replaying it reaches an equivalent state if and
      only if every node that ends alive without the compactor counting it
      ends with the fields it started with. */
  lemma CompactedReplaysIff(env: Env, start: VmState, s: seq<Byte>)
    requires Ready(env, start) && start.Safe() && RunBytes(env, start, s).Ok?
    requires DecodesFaithfully(env, start, s)
    ensures Compact(env.schema, s).Ok?
    ensures var out := Compact(env.schema, s).value.0;
      && |out| <= |s|
      && RunBytes(env, start, out).Ok?
      && RunBytes(env, start, out).value.1 == []
      && (Equivalent(RunBytes(env, start, s).value.0, RunBytes(env, start, out).value.0)
          <==> UncountedUnchanged(JournalOps(env, start, s), start.nodes, RunBytes(env, start, s).value.0.nodes))
  {
    hide RunBytes, DecodeJournal, RunOps, Equivalent, JournalOps, Survivors, Inv, UncountedUnchanged, AllAlike,
      SurvivorsReadBack, AllCarry, ValuesTyped, OpsOf, StatsOf, JournalBytes, Encodable;
    var ops := JournalOps(env, start, s);
    var read := OpsOf(DecodeJournal(env.schema, s).value);
    JournalRuns(env, start, s);
    EquivalentIff(env, start, ops);
    SurvivorsCloseGroups(env, start, ops);
    AcceptedIsTyped(env, start, Compacted(ops));
    SameLengths(ops, read);
    SurvivorsCarry(env.lim, ops, read, |ops|);
    ReplayCarried(env, start, Compacted(ops), Compacted(read));
    CompactNeverGrows(env.schema, s);
  }

  lemma SameLengths(ops: seq<Op>, read: seq<Op>)
    requires AllAlike(ops, read)
    ensures |ops| == |read|
  {
  }

  lemma SurvivorsCloseGroups(env: Env, start: VmState, ops: seq<Op>)
    requires Ready(env, start) && start.Safe() && RunOps(env, start, ops).Ok? && RunOps(env, start, ops).value.frames == []
    ensures RunOps(env, start, Compacted(ops)).Ok? && RunOps(env, start, Compacted(ops)).value.frames == []
  {
    hide RunOps, CoreSim, Inv, StateFrom;
    SimInvariant(env, start, ops, |ops|);
    StateFromEnds(env, start, ops);
    FramesLength(ops, |ops|, RunOps(env, start, ops).value, RunOps(env, start, Compacted(ops)).value);
  }

  // ----- the usual case: nodes before placeholders, from an empty machine -----

  /** The kinds the compactor has numbered are the machine's. */
  ghost predicate KindsMirror(ops: seq<Op>, i: nat, nodes: seq<Node>)
    requires i <= |ops|
  {
    && Numbered(ops, i) <= |nodes|
    && forall k :: 0 <= k < Numbered(ops, i) ==> nodes[k].kind == KindsAt(ops, i)[k]
  }

  lemma {:induction false} LinkKeepsKinds(st: VmState, owner: nat, children: seq<U32>)
    requires st.Safe() && owner < |st.nodes|
    ensures var after := LinkChildren(st, owner, children).nodes;
      |st.nodes| <= |after| && forall k :: 0 <= k < |st.nodes| ==> after[k].kind == st.nodes[k].kind
    decreases |children|
  {
    if children != [] {
      LinkKeepsKinds(LinkChild(st, owner, children[0]), owner, children[1..]);
    }
  }

  lemma StepKeepsKinds(env: Env, st: VmState, op: Op)
    requires st.Safe() && Step(env, st, op).Ok?
    ensures var after := Step(env, st, op).value.nodes;
      && |st.nodes| <= |after| && (forall k :: 0 <= k < |st.nodes| ==> after[k].kind == st.nodes[k].kind)
      && (op.NewNode? ==> |after| == |st.nodes| + 1 && after[|st.nodes|].kind == op.kind)
  {
    hide EdgesOf, MissingEdges, LinkChildren;
    if op.EndGroup? {
      var top := |st.frames| - 1;
      LinkKeepsKinds(st.(frames := st.frames[..top]), st.frames[top].ownerId, st.frames[top].deferred);
    }
  }

  lemma KindsNext(ops: seq<Op>, i: nat)
    requires i < |ops|
    ensures ops[i].NewNode? ==>
      Numbered(ops, i + 1) == Numbered(ops, i) + 1 && KindsAt(ops, i + 1) == KindsAt(ops, i) + [ops[i].kind]
    ensures !ops[i].NewNode? ==> Numbered(ops, i + 1) == Numbered(ops, i) && KindsAt(ops, i + 1) == KindsAt(ops, i)
  {
  }

  lemma MirrorStep(ops: seq<Op>, i: nat, nodes: seq<Node>, after: seq<Node>)
    requires i < |ops| && KindsMirror(ops, i, nodes) && |nodes| <= |after|
    requires forall k :: 0 <= k < |nodes| ==> after[k].kind == nodes[k].kind
    requires ops[i].NewNode? ==> |after| > |nodes| == Numbered(ops, i) && after[|nodes|].kind == ops[i].kind
    ensures KindsMirror(ops, i + 1, after)
  {
    hide Numbered, KindsAt;
    KindsNext(ops, i);
    MirrorGrows(KindsAt(ops, i), nodes, after);
  }

  /** Kinds that mirror a table mirror its continuation, one kind longer if it
      is one node longer than they are. */
  lemma MirrorGrows(kinds: seq<U32>, nodes: seq<Node>, after: seq<Node>)
    requires |kinds| <= |nodes| <= |after| && forall k :: 0 <= k < |kinds| ==> nodes[k].kind == kinds[k]
    requires forall k :: 0 <= k < |nodes| ==> after[k].kind == nodes[k].kind
    ensures forall k :: 0 <= k < |kinds| ==> after[k].kind == kinds[k]
    ensures |kinds| == |nodes| < |after| ==>
      forall k :: 0 <= k < |kinds| + 1 ==> after[k].kind == (kinds + [after[|kinds|].kind])[k]
  {
  }

  lemma {:induction false} KindsMirrorAlways(env: Env, ops: seq<Op>, i: nat)
    requires RunOps(env, EMPTY, ops).Ok? && i <= |ops| && env.schema.Fits() && NodesBeforePlaceholders(env, ops)
    ensures KindsMirror(ops, i, StateAt(env, ops, i).nodes)
  {
    hide RunOps, Step, StateAt, KindsMirror, NumberingAgrees, Inv;
    StateAtEnds(env, ops);
    if i == 0 {
      assert KindsMirror(ops, 0, []) by { NoKindsYet(ops); }
    } else {
      var st := StateAt(env, ops, i - 1);
      KindsMirrorAlways(env, ops, i - 1);
      StateAtStep(env, ops, i - 1);
      StepKeepsKinds(env, st, ops[i - 1]);
      NumberingInvariant(env, ops, i - 1);
      if ops[i - 1].NewNode? {
        AllNumbered(env, ops, i - 1, st);
      }
      MirrorStep(ops, i - 1, st.nodes, StateAt(env, ops, i).nodes);
    }
  }

  lemma NoKindsYet(ops: seq<Op>)
    ensures KindsMirror(ops, 0, [])
  {
  }

  lemma AllNumbered(env: Env, ops: seq<Op>, i: nat, st: VmState)
    requires i <= |ops| && Inv(env.schema, st) && NumberingAgrees(ops, i, st) && st.stats.placeholders == 0
    ensures |st.nodes| == Numbered(ops, i)
  {
    NoPlaceholders(st.nodes);
    assert |st.nodes| > 0 ==> !st.nodes[|st.nodes| - 1].placeholder;
  }

  lemma WrittenTypeAgrees(env: Env, ops: seq<Op>, i: nat, st: VmState)
    requires i < |ops| && ops[i].SetField? && OpEffectOk(env, st, ops[i]) && env.schema.Fits()
    requires Inv(env.schema, st) && NumberingAgrees(ops, i, st) && KindsMirror(ops, i, st.nodes)
    ensures ops[i].value.Type() == WireType(env.schema, KindsAt(ops, i), ops[i].node, ops[i].field)
  {
    hide KindsAt, Numbered, SetFieldStep;
    TypedIsDeclared(env, st.nodes, ops[i].node, ops[i].field);
  }

  ghost predicate OpEffectOk(env: Env, st: VmState, op: Op) {
    st.Safe() && OpEffect(env, st, op).Ok?
  }

  /** With nodes before placeholders, every write is read under its own type. */
  lemma NodesFirstSameTypes(env: Env, ops: seq<Op>)
    requires RunOps(env, EMPTY, ops).Ok? && env.schema.Fits() && NodesBeforePlaceholders(env, ops)
    ensures SameTypes(env.schema, ops)
  {
    hide RunOps, OpEffect, StateAt, KindsMirror, NumberingAgrees, Inv, WireType, KindsAt, NodesBeforePlaceholders;
    forall i | 0 <= i < |ops| && ops[i].SetField?
      ensures ops[i].value.Type() == WireType(env.schema, KindsAt(ops, i), ops[i].node, ops[i].field)
    {
      StateAtStep(env, ops, i);
      NumberingInvariant(env, ops, i);
      KindsMirrorAlways(env, ops, i);
      WrittenTypeAgrees(env, ops, i, StateAt(env, ops, i));
    }
  }

  /** Compaction preserves replay. Any journal the machine accepts from an empty
      heap, whose NEW_NODEs precede every placeholder, compacts; the output is
      accepted, is read to its end, is no longer in bytes or operations, and
      reaches an equivalent state. */
  lemma CompactionPreservesReplay(env: Env, s: seq<Byte>)
    requires LimitsFit(env) && RunBytes(env, EMPTY, s).Ok?
    requires RunOps(env, EMPTY, JournalOps(env, EMPTY, s)).Ok? && NodesBeforePlaceholders(env, JournalOps(env, EMPTY, s))
    ensures Compact(env.schema, s).Ok?
    ensures var out := Compact(env.schema, s).value.0;
      && RunBytes(env, EMPTY, out).Ok?
      && RunBytes(env, EMPTY, out).value.1 == []
      && Equivalent(RunBytes(env, EMPTY, s).value.0, RunBytes(env, EMPTY, out).value.0)
      && |out| <= |s|
      && Compact(env.schema, s).value.1.outputOps <= |JournalOps(env, EMPTY, s)|
  {
    hide RunBytes, DecodeJournal, RunOps, Equivalent, JournalOps, Survivors, NodesBeforePlaceholders, SameTypes,
      CompatibleTypes, DecodesFaithfully, AsRead, Inv, StateAt, UncountedUnchanged, NumberingAgrees;
    var ops := JournalOps(env, EMPTY, s);
    EmptyOk(env.schema);
    JournalRuns(env, EMPTY, s);
    NodesFirstSameTypes(env, ops);
    SameTypesAreCompatible(env.schema, ops);
    DecodeFollowsCompatible(env, EMPTY, s);
    CompatibleIsFaithful(env, EMPTY, s);
    CompactedReplaysIff(env, EMPTY, s);
    NumberingInvariant(env, ops, |ops|);
    StateAtEnds(env, ops);
    NumberedUnchanged(env, ops, RunOps(env, EMPTY, ops).value);
  }
}
