/** The limits of compaction. The compactor numbers nodes by counting NEW_NODEs
    from zero; the machine also numbers heap nodes and placeholders. Where the
    numberings part, a live node may go uncounted and lose what was written to
    it, or a field may be read under another node's kind. */
module CompactionLimits {
  import opened Basics
  import opened Codec
  import opened Model
  import opened ReplayVm
  import opened Journal
  import opened VmInvariants
  import opened Groups
  import opened Compaction
  import opened CompactorSpec
  import opened CompactorTheorems

  // ----- exactly when the numberings agree -----

  /** Every NEW_NODE gets from the machine the number the compactor gives it. */
  ghost predicate NumbersMatch(env: Env, ops: seq<Op>)
    requires RunOps(env, EMPTY, ops).Ok?
  {
    forall i :: 0 <= i < |ops| && ops[i].NewNode? ==> |StateAt(env, ops, i).nodes| == Numbered(ops, i)
  }

  lemma {:induction false} LinkCreatesNoNode(st: VmState, owner: nat, children: seq<U32>)
    requires st.Safe() && owner < |st.nodes|
    ensures LinkChildren(st, owner, children).stats.nodesCreated == st.stats.nodesCreated
    decreases |children|
  {
    if children != [] {
      LinkCreatesNoNode(LinkChild(st, owner, children[0]), owner, children[1..]);
    }
  }

  lemma StepCreates(env: Env, st: VmState, op: Op)
    requires st.Safe() && Step(env, st, op).Ok?
    ensures Step(env, st, op).value.stats.nodesCreated == st.stats.nodesCreated + if op.NewNode? then 1 else 0
  {
    hide EdgesOf, MissingEdges, LinkChildren;
    if op.EndGroup? {
      var top := |st.frames| - 1;
      LinkCreatesNoNode(st.(frames := st.frames[..top]), st.frames[top].ownerId, st.frames[top].deferred);
    }
  }

  lemma {:induction false} CreatedIsNumbered(env: Env, ops: seq<Op>, i: nat)
    requires RunOps(env, EMPTY, ops).Ok? && i <= |ops| && env.schema.Fits()
    ensures StateAt(env, ops, i).stats.nodesCreated == Numbered(ops, i)
    ensures Inv(env.schema, StateAt(env, ops, i))
  {
    hide StateAt, Step, Inv, RunOps;
    StateAtEnds(env, ops);
    if i == 0 {
      EmptyOk(env.schema);
    } else {
      CreatedIsNumbered(env, ops, i - 1);
      StateAtStep(env, ops, i - 1);
      StepCreates(env, StateAt(env, ops, i - 1), ops[i - 1]);
      StepKeeps(env, StateAt(env, ops, i - 1), ops[i - 1]);
    }
  }

  lemma InvCounts(schema: Schema, st: VmState)
    requires Inv(schema, st)
    ensures |st.nodes| == st.stats.nodesCreated + st.stats.placeholders
  {
  }

  /** From an empty heap, the compactor's numbering is the machine's if and only
      if no NEW_NODE executes after a placeholder was materialised. */
  lemma NumberingsAgreeIff(env: Env, ops: seq<Op>)
    requires RunOps(env, EMPTY, ops).Ok? && env.schema.Fits()
    ensures NumbersMatch(env, ops) <==> NodesBeforePlaceholders(env, ops)
  {
    hide StateAt, Inv, RunOps, Numbered;
    forall i | 0 <= i < |ops| && ops[i].NewNode?
      ensures |StateAt(env, ops, i).nodes| == Numbered(ops, i) <==> StateAt(env, ops, i).stats.placeholders == 0
    {
      CreatedIsNumbered(env, ops, i);
      InvCounts(env.schema, StateAt(env, ops, i));
    }
  }

  // ----- exactly when compaction preserves replay -----

  lemma {:induction false} LinkKeepsAlive(st: VmState, owner: nat, children: seq<U32>)
    requires st.Safe() && owner < |st.nodes|
    ensures var after := LinkChildren(st, owner, children).nodes;
      |st.nodes| <= |after| && forall k :: 0 <= k < |st.nodes| ==> after[k].alive == st.nodes[k].alive
    decreases |children|
  {
    if children != [] {
      LinkKeepsAlive(LinkChild(st, owner, children[0]), owner, children[1..]);
    }
  }

  lemma StepKeepsAlive(env: Env, st: VmState, op: Op, k: nat)
    requires st.Safe() && Step(env, st, op).Ok? && k < |st.nodes|
    ensures var after := Step(env, st, op).value.nodes;
      |st.nodes| <= |after| && (after[k].alive <==> st.nodes[k].alive && !(op.DropNode? && op.dropped == k))
  {
    hide EdgesOf, MissingEdges, LinkChildren;
    if op.EndGroup? {
      var top := |st.frames| - 1;
      LinkKeepsAlive(st.(frames := st.frames[..top]), st.frames[top].ownerId, st.frames[top].deferred);
    }
  }

  lemma LiveIdsStep(ops: seq<Op>, i: nat, k: nat)
    requires i < |ops|
    ensures Numbered(ops, i + 1) == Numbered(ops, i) + if ops[i].NewNode? then 1 else 0
    ensures k in LiveIds(ops, i + 1) <==>
      (k in LiveIds(ops, i) && !(ops[i].DropNode? && ops[i].dropped == k)) || (ops[i].NewNode? && k == Numbered(ops, i))
  {
  }

  /** From an empty machine, a live node within the compactor's count is one it
      counts as live. */
  lemma {:induction false} AliveIsLive(env: Env, ops: seq<Op>, i: nat, k: nat)
    requires RunOps(env, EMPTY, ops).Ok? && i <= |ops| && env.schema.Fits()
    requires k < Numbered(ops, i) && k < |StateAt(env, ops, i).nodes| && StateAt(env, ops, i).nodes[k].alive
    ensures k in LiveIds(ops, i)
  {
    hide RunOps, Step, StateAt, Numbered, LiveIds, Inv;
    if i > 0 {
      var st := StateAt(env, ops, i - 1);
      StateAtStep(env, ops, i - 1);
      CreatedIsNumbered(env, ops, i - 1);
      InvCounts(env.schema, st);
      LiveIdsStep(ops, i - 1, k);
      if k < Numbered(ops, i - 1) {
        StepKeepsAlive(env, st, ops[i - 1], k);
        AliveIsLive(env, ops, i - 1, k);
      }
    } else {
      NoneNumbered(ops);
    }
  }

  lemma NoneNumbered(ops: seq<Op>)
    ensures Numbered(ops, 0) == 0
  {
  }

  lemma {:induction false} LiveIdsBelow(ops: seq<Op>, i: nat)
    requires i <= |ops|
    ensures forall k :: k in LiveIds(ops, i) ==> k < Numbered(ops, i)
  {
    if i > 0 {
      LiveIdsBelow(ops, i - 1);
    }
  }

  /** Every live node numbered at or beyond the compactor's count has no field. */
  ghost predicate LateNodesBare(ops: seq<Op>, end: seq<Node>) {
    forall k :: Numbered(ops, |ops|) <= k < |end| && end[k].alive ==> end[k].fields == map[]
  }

  lemma LateNodesAreUncounted(env: Env, ops: seq<Op>)
    requires RunOps(env, EMPTY, ops).Ok? && env.schema.Fits()
    ensures var end := RunOps(env, EMPTY, ops).value.nodes; UncountedUnchanged(ops, [], end) <==> LateNodesBare(ops, end)
  {
    hide RunOps, StateAt, Numbered, LiveIds;
    StateAtEnds(env, ops);
    LiveIdsBelow(ops, |ops|);
    var end := RunOps(env, EMPTY, ops).value.nodes;
    forall k | 0 <= k < |end| && end[k].alive ensures k !in LiveIds(ops, |ops|) <==> Numbered(ops, |ops|) <= k {
      if k < Numbered(ops, |ops|) {
        AliveIsLive(env, ops, |ops|, k);
      }
    }
  }

  /** From an empty machine: the survivors of every accepted journal are
      accepted, and they reach an equivalent state if and only if no node
      numbered at or beyond the compactor's count ends alive with a field. */
  lemma EquivalentFromEmptyIff(env: Env, ops: seq<Op>)
    requires env.schema.Fits() && RunOps(env, EMPTY, ops).Ok? && RunOps(env, EMPTY, ops).value.frames == []
    ensures RunOps(env, EMPTY, Compacted(ops)).Ok?
    ensures Equivalent(RunOps(env, EMPTY, ops).value, RunOps(env, EMPTY, Compacted(ops)).value)
      <==> LateNodesBare(ops, RunOps(env, EMPTY, ops).value.nodes)
  {
    hide RunOps, Inv, Equivalent, UncountedUnchanged, LateNodesBare;
    EmptyOk(env.schema);
    EquivalentIff(env, EMPTY, ops);
    LateNodesAreUncounted(env, ops);
  }

  /** From a decoded heap: likewise, if and only if every node that ends alive
      uncounted ends with its heap fields, or with none if the journal made it. */
  lemma EquivalentFromHeapIff(env: Env, heap: seq<Node>, ops: seq<Op>)
    requires env.schema.Fits() && HeapOk(env.schema, heap) && Positional(heap)
    requires RunOps(env, Seeded(heap), ops).Ok? && RunOps(env, Seeded(heap), ops).value.frames == []
    ensures RunOps(env, Seeded(heap), Compacted(ops)).Ok?
    ensures var end := RunOps(env, Seeded(heap), ops).value;
      Equivalent(end, RunOps(env, Seeded(heap), Compacted(ops)).value) <==>
        forall k :: 0 <= k < |end.nodes| && end.nodes[k].alive && k !in LiveIds(ops, |ops|) ==>
          end.nodes[k].fields == if k < |heap| then heap[k].fields else map[]
  {
    hide RunOps, Inv, Equivalent, LiveIds, HeapOk;
    ReadyStarts(env, heap);
    EquivalentIff(env, Seeded(heap), ops);
  }

  /** The same on bytes, from an empty machine, for journals decoded faithfully. */
  lemma CompactFromEmptyIff(env: Env, s: seq<Byte>)
    requires env.schema.Fits() && RunBytes(env, EMPTY, s).Ok? && DecodesFaithfully(env, EMPTY, s)
    ensures Compact(env.schema, s).Ok?
    ensures RunBytes(env, EMPTY, Compact(env.schema, s).value.0).Ok?
    ensures Equivalent(RunBytes(env, EMPTY, s).value.0, RunBytes(env, EMPTY, Compact(env.schema, s).value.0).value.0)
      <==> LateNodesBare(JournalOps(env, EMPTY, s), RunBytes(env, EMPTY, s).value.0.nodes)
  {
    hide RunBytes, RunOps, JournalOps, Inv, Equivalent, UncountedUnchanged, LateNodesBare, DecodesFaithfully, Compact;
    EmptyOk(env.schema);
    JournalRuns(env, EMPTY, s);
    CompactedReplaysIff(env, EMPTY, s);
    LateNodesAreUncounted(env, JournalOps(env, EMPTY, s));
  }

  // ----- three concrete journals -----

  lemma DifferentFields(st: VmState, ct: VmState, k: nat)
    requires k < |st.nodes| && k < |ct.nodes| && st.nodes[k].alive && st.nodes[k].fields != ct.nodes[k].fields
    ensures !Equivalent(st, ct)
  {
    hide SameIdentity, Subsequence;
  }

  lemma ReplayOfExample(start: VmState, ops: seq<Op>)
    requires start.Safe() && RunOps(EXAMPLE_ENV, start, ops).Ok? && RunOps(EXAMPLE_ENV, start, ops).value.frames == []
    requires |ops| < 10 && forall op :: op in ops ==> Encodable(op, DEFAULT_LIMITS)
    ensures RunBytes(EXAMPLE_ENV, start, JournalBytes(ops)) == Ok((RunOps(EXAMPLE_ENV, start, ops).value, []))
  {
    hide JournalBytes, RunBytes, RunOps, Encodable;
    AcceptedIsTyped(EXAMPLE_ENV, start, ops);
    ReplayOfEncoded(EXAMPLE_ENV, start, ops, []);
    assert JournalBytes(ops) + [] == JournalBytes(ops);
  }

  // Kind 0 has an integer field and kind 1 a float one.
  const EXAMPLE_SCHEMA: Schema := Schema([KindDef(0, [FieldDef(1, TInt, 0)]), KindDef(5, [FieldDef(1, TFloat, 0)])])
  const EXAMPLE_ENV: Env := Env(EXAMPLE_SCHEMA, 8, DEFAULT_LIMITS)

  /** One heap node, then a journal that creates a second node and sets its field. */
  const HEAP: seq<Node> := [FreshNode(0, 0, 2)]
  const WRITES_SECOND: seq<Op> := [NewNode(0, 3), SetField(1, 0, IntV(5))]

  lemma RunOne(env: Env, st: VmState, op: Op)
    requires st.Safe() && Step(env, st, op).Ok?
    ensures RunOps(env, st, [op]) == Step(env, st, op)
  {
    hide Step;
    assert [op][1..] == [];
  }

  lemma RunTwo(env: Env, st: VmState, ops: seq<Op>)
    requires st.Safe() && |ops| == 2 && Step(env, st, ops[0]).Ok? && Step(env, Step(env, st, ops[0]).value, ops[1]).Ok?
    ensures RunOps(env, st, ops) == Step(env, Step(env, st, ops[0]).value, ops[1])
  {
    hide Step;
    assert ops[1..] == [ops[1]];
    RunOne(env, Step(env, st, ops[0]).value, ops[1]);
  }

  lemma RunThree(env: Env, st: VmState, ops: seq<Op>)
    requires st.Safe() && |ops| == 3 && Step(env, st, ops[0]).Ok? && Step(env, Step(env, st, ops[0]).value, ops[1]).Ok?
    requires Step(env, Step(env, Step(env, st, ops[0]).value, ops[1]).value, ops[2]).Ok?
    ensures RunOps(env, st, ops) == Step(env, Step(env, Step(env, st, ops[0]).value, ops[1]).value, ops[2])
  {
    hide Step;
    RunTwo(env, Step(env, st, ops[0]).value, ops[1..]);
  }

  lemma SecondCompacts()
    ensures Compact(EXAMPLE_SCHEMA, JournalBytes(WRITES_SECOND)) == Ok((JournalBytes(WRITES_SECOND[..1]), StatsOf(WRITES_SECOND)))
  {
    hide JournalBytes, DecodeJournal, StatsOf;
    var ops := WRITES_SECOND;
    assert Stack(ops, 2) == [] by {
      assert Stack(ops, 1) == [];
    }
    assert Decodable(EXAMPLE_SCHEMA, ops);
    DecodeJournalRoundTrip(EXAMPLE_SCHEMA, ops, []);
    assert JournalBytes(ops) + [] == JournalBytes(ops);
    assert LiveIds(ops, 2) == {0} && 1 !in LiveIds(ops, 2) by {
      assert LiveIds(ops, 1) == {0};
    }
    assert !Pending(ops, 2, 1, 0);
    assert Survivors(ops, 1) == [ops[0]] by {
      assert Survivors(ops, 0) == [];
    }
    assert Compacted(ops) == Survivors(ops, 1) == ops[..1];
  }

  lemma SecondRuns()
    ensures Positional(HEAP) && RunOps(EXAMPLE_ENV, Seeded(HEAP), WRITES_SECOND).Ok?
    ensures RunOps(EXAMPLE_ENV, Seeded(HEAP), WRITES_SECOND[..1]).Ok?
    ensures var end, again := RunOps(EXAMPLE_ENV, Seeded(HEAP), WRITES_SECOND).value,
                              RunOps(EXAMPLE_ENV, Seeded(HEAP), WRITES_SECOND[..1]).value;
      && end.frames == [] && again.frames == [] && |end.nodes| == |again.nodes| == 2
      && end.nodes[1].alive && end.nodes[1].fields == map[0 := IntV(5)] && again.nodes[1].fields == map[]
  {
    var st := Seeded(HEAP);
    var st1 := Step(EXAMPLE_ENV, st, WRITES_SECOND[0]).value;
    assert |st1.nodes| == 2 && st1.nodes[1] == FreshNode(1, 0, 3);
    assert EXAMPLE_SCHEMA.FieldType(0, 0) == TInt;
    var st2 := Step(EXAMPLE_ENV, st1, WRITES_SECOND[1]).value;
    assert st2.nodes[1].fields == map[0 := IntV(5)];
    RunTwo(EXAMPLE_ENV, st, WRITES_SECOND);
    RunOne(EXAMPLE_ENV, st, WRITES_SECOND[0]);
    assert WRITES_SECOND[..1] == [WRITES_SECOND[0]];
  }

  /** With a heap of one node, compaction drops the write to the node the
      journal creates: the machine accepts both journals and ends with the
      field after the first and without it after the second. */
  lemma HeapBreaksCompaction()
    ensures Positional(HEAP)
    ensures var s := JournalBytes(WRITES_SECOND);
      var c := Compact(EXAMPLE_SCHEMA, s);
      && c.Ok? && c.value.0 == JournalBytes([NewNode(0, 3)])
      && RunBytes(EXAMPLE_ENV, Seeded(HEAP), s).Ok? && RunBytes(EXAMPLE_ENV, Seeded(HEAP), c.value.0).Ok?
      && var end, again := RunBytes(EXAMPLE_ENV, Seeded(HEAP), s).value.0, RunBytes(EXAMPLE_ENV, Seeded(HEAP), c.value.0).value.0;
         && |end.nodes| == |again.nodes| == 2
         && end.nodes[1].fields == map[0 := IntV(5)] && again.nodes[1].fields == map[]
         && !Equivalent(end, again)
  {
    hide JournalBytes, RunBytes, RunOps, StatsOf, Compact, Seeded, Equivalent;
    SecondRuns();
    SecondCompacts();
    ReplayOfExample(Seeded(HEAP), WRITES_SECOND);
    ReplayOfExample(Seeded(HEAP), WRITES_SECOND[..1]);
    assert WRITES_SECOND[..1] == [NewNode(0, 3)];
    assert 0 in RunOps(EXAMPLE_ENV, Seeded(HEAP), WRITES_SECOND).value.nodes[1].fields;
    DifferentFields(RunOps(EXAMPLE_ENV, Seeded(HEAP), WRITES_SECOND).value,
                    RunOps(EXAMPLE_ENV, Seeded(HEAP), WRITES_SECOND[..1]).value, 1);
  }

  /** From an empty heap: a group that names an undefined child materialises a
      placeholder, and the next NEW_NODE is numbered past the compactor's count. */
  const LATE_NODE: seq<Op> := [NewNode(0, 2), BeginGroup(2, 0), AddChild(3), EndGroup, NewNode(0, 4), SetField(2, 0, IntV(5))]

  const GROUP_OPEN: VmState :=
    VmState([FreshNode(0, 0, 2)], map[2 := 0], [Frame(0, 2, [3])], [], [], map[], Stats(3, 1, 0, 0, 0, 0, 0))

  lemma OpensGroup()
    ensures RunOps(EXAMPLE_ENV, EMPTY, LATE_NODE[..3]) == Ok(GROUP_OPEN)
  {
    hide RunOps, SetFieldStep, EndGroupStep, LinkRefStep, DropNodeStep, SnapshotStep, SetMetaStep;
    var env, ops := EXAMPLE_ENV, LATE_NODE[..3];
    var s1 := Step(env, EMPTY, ops[0]).value;
    assert s1.names == map[2 := 0] && s1.nodes == [FreshNode(0, 0, 2)];
    var s2 := Step(env, s1, ops[1]).value;
    assert s2.frames == [Frame(0, 2, [])];
    var none: seq<U32> := [];
    assert none + [3] == [3];
    assert s2 == GROUP_OPEN.(frames := [Frame(0, 2, [])], stats := Stats(2, 1, 0, 0, 0, 0, 0));
    var s3 := AddChildStep(env, s2, 3).value;
    assert s3.frames == [Frame(0, 2, none + [3])];
    assert ops[2] == AddChild(3);
    assert Step(env, s2, ops[2]) == Ok(Tick(s3)) == Ok(GROUP_OPEN);
    RunThree(env, EMPTY, ops);
  }

  /** Closing the group leaves its owner and one placeholder. */
  lemma ClosesGroup()
    ensures GROUP_OPEN.Safe() && Step(EXAMPLE_ENV, GROUP_OPEN, EndGroup).Ok?
    ensures var st := Step(EXAMPLE_ENV, GROUP_OPEN, EndGroup).value;
      st.frames == [] && |st.nodes| == 2 && st.nodes[1].kind == INVALID_KIND
  {
    var s3 := GROUP_OPEN;
    var linked := LinkChild(s3.(frames := []), 0, 3);
    assert LinkChildren(s3.(frames := []), 0, [3]) == LinkChildren(linked, 0, [3][1..]) == linked;
  }

  lemma WritesLate()
    ensures GROUP_OPEN.Safe() && RunOps(EXAMPLE_ENV, GROUP_OPEN, LATE_NODE[3..]).Ok?
    ensures RunOps(EXAMPLE_ENV, GROUP_OPEN, LATE_NODE[3..5]).Ok?
    ensures var end, again := RunOps(EXAMPLE_ENV, GROUP_OPEN, LATE_NODE[3..]).value,
                              RunOps(EXAMPLE_ENV, GROUP_OPEN, LATE_NODE[3..5]).value;
      && end.frames == [] && again.frames == [] && |end.nodes| == |again.nodes| == 3
      && end.nodes[2].alive && end.nodes[2].fields == map[0 := IntV(5)] && again.nodes[2].fields == map[]
  {
    var env, ops, s3 := EXAMPLE_ENV, LATE_NODE[3..], GROUP_OPEN;
    ClosesGroup();
    hide EndGroupStep;
    var s4 := Step(env, s3, ops[0]).value;
    var s5 := Step(env, s4, ops[1]).value;
    assert s5.nodes == s4.nodes + [FreshNode(2, 0, 4)];
    assert EXAMPLE_SCHEMA.FieldType(0, 0) == TInt;
    var s6 := Step(env, s5, ops[2]).value;
    assert s6.nodes[2].fields == map[0 := IntV(5)];
    RunThree(env, s3, ops);
    RunTwo(env, s3, LATE_NODE[3..5]);
  }

  lemma LateRuns()
    ensures RunOps(EXAMPLE_ENV, EMPTY, LATE_NODE).Ok? && RunOps(EXAMPLE_ENV, EMPTY, LATE_NODE[..5]).Ok?
    ensures var end, again := RunOps(EXAMPLE_ENV, EMPTY, LATE_NODE).value, RunOps(EXAMPLE_ENV, EMPTY, LATE_NODE[..5]).value;
      && end.frames == [] && again.frames == [] && |end.nodes| == |again.nodes| == 3
      && end.nodes[2].alive && end.nodes[2].fields == map[0 := IntV(5)] && again.nodes[2].fields == map[]
  {
    hide RunOps;
    var env, ops := EXAMPLE_ENV, LATE_NODE;
    OpensGroup();
    WritesLate();
    RunOpsAppend(env, EMPTY, ops[..3], ops[3..]);
    RunOpsAppend(env, EMPTY, ops[..3], ops[3..5]);
    assert ops[..3] + ops[3..] == ops && ops[..3] + ops[3..5] == ops[..5];
  }

  lemma Opens(ops: seq<Op>, i: nat)
    requires i < |ops| && ops[i].BeginGroup? && Stack(ops, i) == []
    ensures Stack(ops, i + 1) == [i]
  {
  }

  lemma Closes(ops: seq<Op>, i: nat, b: nat)
    requires i < |ops| && ops[i].EndGroup? && Stack(ops, i) == [b]
    ensures Stack(ops, i + 1) == []
  {
  }

  /** The nesting of the example: one group, opened at 1 and closed at 3. */
  lemma LateStacks(ops: seq<Op>)
    requires |ops| >= 4 && ops[0].NewNode? && ops[1].BeginGroup? && ops[2].AddChild? && ops[3].EndGroup?
    ensures Stack(ops, 0) == [] && Stack(ops, 1) == [] && Stack(ops, 2) == [1] && Stack(ops, 3) == [1] && Stack(ops, 4) == []
    ensures HasChild(ops, 1)
  {
    hide *;
    NothingOpen(ops);
    StackNext(ops, 0);
    Opens(ops, 1);
    StackNext(ops, 2);
    ChildAt(ops, 1, 2);
    Closes(ops, 3, 1);
  }

  lemma ChildAt(ops: seq<Op>, b: nat, j: nat)
    requires j < |ops| && ops[j].AddChild? && Stack(ops, j) == [b]
    ensures HasChild(ops, b)
  {
    hide Stack;
    assert ChildOf(ops, b, j);
  }

  lemma NothingOpen(ops: seq<Op>)
    ensures Stack(ops, 0) == []
  {
  }

  lemma KindsNext(ops: seq<Op>, i: nat)
    requires i < |ops|
    ensures KindsAt(ops, i + 1) == if ops[i].NewNode? then KindsAt(ops, i) + [ops[i].kind] else KindsAt(ops, i)
  {
  }

  lemma NoKinds(ops: seq<Op>)
    ensures KindsAt(ops, 0) == []
  {
  }

  lemma LateFates()
    ensures forall i :: 0 <= i < 5 ==> FateOf(LATE_NODE, i) == Kept && Emitted(LATE_NODE[i]) == LATE_NODE[i]
    ensures FateOf(LATE_NODE, 5) == OnDeadNode
  {
    hide Stack, HasChild;
    var ops := LATE_NODE;
    LateStacks(ops);
    assert Numbered(ops, 1) == 1 && Numbered(ops, 2) == 1 && Numbered(ops, 4) == 1;
    assert LiveIds(ops, 1) == {0} && LiveIds(ops, 3) == {0} && LiveIds(ops, 4) == {0};
    assert LiveIds(ops, 6) == {0, 1} by {
      assert LiveIds(ops, 5) == {0} + {1};
    }
    assert !Pending(ops, 6, 2, 0);
  }

  lemma {:induction false} LateSurvivors(i: nat)
    requires i <= 5
    ensures Survivors(LATE_NODE, i) == LATE_NODE[..i]
  {
    hide FateOf;
    LateFates();
    if i > 0 {
      LateSurvivors(i - 1);
    }
  }

  lemma LateDecodable()
    ensures Decodable(EXAMPLE_SCHEMA, LATE_NODE) && Stack(LATE_NODE, 6) == []
  {
    hide Stack;
    var ops := LATE_NODE;
    LateStacks(ops);
    StackNext(ops, 4);
    StackNext(ops, 5);
    assert |KindsAt(ops, 5)| == Numbered(ops, 5) == 2 by {
      assert Numbered(ops, 1) == 1 && Numbered(ops, 2) == 1 && Numbered(ops, 4) == 1;
    }
    assert DecodableAt(EXAMPLE_SCHEMA, ops, 5);
  }

  lemma LateCompacts()
    ensures Compact(EXAMPLE_SCHEMA, JournalBytes(LATE_NODE)) == Ok((JournalBytes(LATE_NODE[..5]), StatsOf(LATE_NODE)))
  {
    hide JournalBytes, DecodeJournal, StatsOf, Decodable, FateOf, Stack;
    var ops := LATE_NODE;
    LateDecodable();
    DecodeJournalRoundTrip(EXAMPLE_SCHEMA, ops, []);
    assert JournalBytes(ops) + [] == JournalBytes(ops);
    LateFates();
    LateSurvivors(5);
    assert Survivors(ops, 6) == Survivors(ops, 5);
  }

  /** With a node created after a placeholder, compaction drops the write to it,
      from an empty heap: the machine accepts both journals and ends with the
      field after the first and without it after the second. */
  lemma PlaceholderBreaksCompaction()
    ensures var s := JournalBytes(LATE_NODE);
      var c := Compact(EXAMPLE_SCHEMA, s);
      && c.Ok? && c.value.0 == JournalBytes(LATE_NODE[..5])
      && RunBytes(EXAMPLE_ENV, EMPTY, s).Ok? && RunBytes(EXAMPLE_ENV, EMPTY, c.value.0).Ok?
      && var end, again := RunBytes(EXAMPLE_ENV, EMPTY, s).value.0, RunBytes(EXAMPLE_ENV, EMPTY, c.value.0).value.0;
         && |end.nodes| == |again.nodes| == 3
         && end.nodes[2].fields == map[0 := IntV(5)] && again.nodes[2].fields == map[]
         && !Equivalent(end, again)
  {
    hide JournalBytes, RunBytes, RunOps, StatsOf, Compact, Equivalent;
    LateRuns();
    LateCompacts();
    ReplayOfExample(EMPTY, LATE_NODE);
    ReplayOfExample(EMPTY, LATE_NODE[..5]);
    assert 0 in RunOps(EXAMPLE_ENV, EMPTY, LATE_NODE).value.nodes[2].fields;
    DifferentFields(RunOps(EXAMPLE_ENV, EMPTY, LATE_NODE).value, RunOps(EXAMPLE_ENV, EMPTY, LATE_NODE[..5]).value, 2);
  }

  /** The late node has a float field, and the compactor gives its number to
      another node, whose field is an integer. */
  const MISREAD: seq<Op> :=
    [NewNode(0, 2), BeginGroup(2, 0), AddChild(3), EndGroup, NewNode(1, 4), NewNode(0, 5), SetField(2, 0, FloatV(0)), Nop]

  lemma MisreadCreates()
    ensures GROUP_OPEN.Safe() && RunOps(EXAMPLE_ENV, GROUP_OPEN, MISREAD[3..6]).Ok?
    ensures var st := RunOps(EXAMPLE_ENV, GROUP_OPEN, MISREAD[3..6]).value;
      st.frames == [] && |st.nodes| == 4 && st.nodes[2] == FreshNode(2, 1, 4)
  {
    var env, ops := EXAMPLE_ENV, MISREAD[3..6];
    ClosesGroup();
    hide EndGroupStep;
    var s4 := Step(env, GROUP_OPEN, ops[0]).value;
    var s5 := Step(env, s4, ops[1]).value;
    assert s5.nodes == s4.nodes + [FreshNode(2, 1, 4)];
    RunThree(env, GROUP_OPEN, ops);
  }

  lemma MisreadWrites(st: VmState)
    requires st.Safe() && st.frames == [] && |st.nodes| == 4 && st.nodes[2] == FreshNode(2, 1, 4)
    ensures RunOps(EXAMPLE_ENV, st, MISREAD[6..]).Ok? && RunOps(EXAMPLE_ENV, st, MISREAD[6..]).value.frames == []
  {
    assert EXAMPLE_SCHEMA.FieldType(1, 0) == TFloat;
    var written := Step(EXAMPLE_ENV, st, MISREAD[6]).value;
    RunTwo(EXAMPLE_ENV, st, MISREAD[6..]);
  }

  lemma MisreadRuns()
    ensures RunOps(EXAMPLE_ENV, EMPTY, MISREAD).Ok? && RunOps(EXAMPLE_ENV, EMPTY, MISREAD).value.frames == []
  {
    hide RunOps;
    var env, ops := EXAMPLE_ENV, MISREAD;
    OpensGroup();
    assert ops[..3] == LATE_NODE[..3];
    MisreadCreates();
    MisreadWrites(RunOps(env, GROUP_OPEN, ops[3..6]).value);
    RunOpsAppend(env, GROUP_OPEN, ops[3..6], ops[6..]);
    assert ops[3..6] + ops[6..] == ops[3..];
    RunOpsAppend(env, EMPTY, ops[..3], ops[3..]);
    assert ops[..3] + ops[3..] == ops;
  }

  /** Decoding in two goes. */
  lemma {:induction false} DecodeOpsSplit(schema: Schema, ds: DecodeState, s: seq<Byte>, m: nat, n: nat)
    requires DecodeOps(schema, ds, s, m).Ok?
    ensures var r := DecodeOps(schema, ds, s, m).value;
      DecodeOps(schema, r.0.1, r.1, n).Err? ==>
        DecodeOps(schema, ds, s, m + n) == Err(DecodeOps(schema, r.0.1, r.1, n).code)
    decreases m
  {
    hide DecodeOp;
    if m > 0 {
      var ((rec, ds1), s1) := DecodeOp(schema, ds, s).value;
      DecodeOpsSplit(schema, ds1, s1, m - 1, n);
    }
  }

  /** Reading eight zero bytes as an integer takes one of them; the next byte is
      then no opcode. */
  lemma ZeroIsNoOpcode(ds: DecodeState)
    requires |ds.kinds| == 3 && ds.kinds[2] == 0
    ensures DecodeOps(EXAMPLE_SCHEMA, ds, OpBytes(SetField(2, 0, FloatV(0))) + OpBytes(Nop), 2) == Err(BadOpcode)
  {
    hide Varint, ReadVarint, ReadVarintU32, ReadSVarint;
    var zeros := LittleEndian(0, 8);
    var tail := zeros + OpBytes(Nop);
    var s := OpBytes(SetField(2, 0, FloatV(0))) + OpBytes(Nop);
    assert s[1..] == Varint(2) + (Varint(0) + tail);
    VarintU32RoundTrip(2, Varint(0) + tail);
    VarintU32RoundTrip(0, tail);
    assert EXAMPLE_SCHEMA.FieldType(0, 0) == TInt;
    assert zeros == [0] + LittleEndian(0, 7) && LittleEndian(0, 7) == [0] + LittleEndian(0, 6);
    var after := LittleEndian(0, 7) + OpBytes(Nop);
    assert tail == SVarint(0) + after by {
      ZeroVarint();
    }
    SVarintRoundTrip(0, after);
    var op := SetField(2, 0, IntV(0));
    assert ReadOp(EXAMPLE_SCHEMA, ds.kinds, DEFAULT_LIMITS, s) == Ok((op, after));
    assert after[0] == 0;
    assert ReadOp(EXAMPLE_SCHEMA, ds.kinds, DEFAULT_LIMITS, after) == Err(BadOpcode);
  }

  lemma ZeroVarint()
    ensures Varint(0) == [0] && SVarint(0) == [0]
  {
  }

  lemma MisreadKinds()
    ensures KindsAt(MISREAD[..6], 6) == [0, 1, 0]
  {
    hide KindsAt;
    var ops := MISREAD[..6];
    NoKinds(ops);
    KindsNext(ops, 0);
    KindsNext(ops, 1);
    KindsNext(ops, 2);
    KindsNext(ops, 3);
    KindsNext(ops, 4);
    KindsNext(ops, 5);
    assert ops[0] == NewNode(0, 2) && ops[4] == NewNode(1, 4) && ops[5] == NewNode(0, 5);
  }

  lemma MisreadPrefix()
    ensures Decodable(EXAMPLE_SCHEMA, MISREAD[..6])
  {
    hide Stack, KindsAt, WireType;
    var ops := MISREAD[..6];
    LateStacks(ops);
  }

  lemma MisreadFails()
    ensures DecodeOps(EXAMPLE_SCHEMA, START, OpsBytes(MISREAD), 8) == Err(BadOpcode)
  {
    hide OpBytes, DecodeOps, Decodable, KindsAt, Stack;
    var front, back := MISREAD[..6], MISREAD[6..];
    assert front + back == MISREAD;
    OpsBytesAppend(front, back);
    assert OpsBytes(back) == OpBytes(back[0]) + OpBytes(back[1]) by {
      OpsBytesAppend([back[0]], [back[1]]);
      OpsBytesOne(back[0]);
      OpsBytesOne(back[1]);
      assert [back[0]] + [back[1]] == back;
    }
    hide OpsBytes;
    MisreadPrefix();
    MisreadKinds();
    assert front[0..] == front;
    assert TracksPrefix(front, 0, START) by { StartTracks(front); }
    DecodeOfEncoded(EXAMPLE_SCHEMA, front, 0, START, OpsBytes(back));
    ZeroIsNoOpcode(DecodeOps(EXAMPLE_SCHEMA, START, OpsBytes(MISREAD), 6).value.0.1);
    DecodeOpsSplit(EXAMPLE_SCHEMA, START, OpsBytes(MISREAD), 6, 2);
  }

  /** Where the numberings part, a field may be read under another node's kind:
      here the machine accepts the journal and the compactor rejects it. */
  lemma KindMixUpBreaksDecoding()
    ensures RunBytes(EXAMPLE_ENV, EMPTY, JournalBytes(MISREAD)).Ok?
    ensures Compact(EXAMPLE_SCHEMA, JournalBytes(MISREAD)) == Err(BadOpcode)
  {
    hide RunBytes, RunOps, DecodeOps, Varint, ReadVarint, OpsBytes;
    MisreadRuns();
    ReplayOfExample(EMPTY, MISREAD);
    VarintU32RoundTrip(8, OpsBytes(MISREAD));
    MisreadFails();
  }

  lemma StartTracks(ops: seq<Op>)
    ensures TracksPrefix(ops, 0, START)
  {
  }
}
