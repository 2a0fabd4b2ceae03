/** What compaction removes, as a function of the operations, and the proof
    that replaying the survivors reaches an equivalent state: a simulation
    between the original run and the compacted one. */
module Compaction {
  import opened Basics
  import opened Model
  import opened ReplayVm
  import opened Journal
  import opened VmInvariants
  import opened Groups

  // ----- what is removed, and why -----

  /** How many NEW_NODEs are among the first i operations: the compactor's
      number for the next node. */
  function Numbered(ops: seq<Op>, i: nat): (n: nat)
    requires i <= |ops|
    ensures n <= i
  {
    if i == 0 then 0 else Numbered(ops, i - 1) + if ops[i - 1].NewNode? then 1 else 0
  }

  /** The nodes created and not dropped among the first i operations, under
      the compactor's numbering. */
  function LiveIds(ops: seq<Op>, i: nat): set<nat>
    requires i <= |ops|
  {
    if i == 0 then {}
    else
      var live := LiveIds(ops, i - 1);
      match ops[i - 1]
      case NewNode(_, _) => live + {Numbered(ops, i - 1)}
      case DropNode(n) => live - {n}
      case _ => live
  }

  predicate SetsKey(op: Op, node: nat, field: U32) {
    op.SetField? && op.node == node && op.field == field
  }

  /** Some operation from position i on sets this field of this node. */
  ghost predicate Pending(ops: seq<Op>, i: nat, node: nat, field: U32) {
    exists j :: i <= j < |ops| && SetsKey(ops[j], node, field)
  }

  datatype Fate = Kept | IsNop | Redundant | OnDeadNode | EmptyGroup

  ghost function FateOf(ops: seq<Op>, i: nat): Fate
    requires i < |ops|
  {
    match ops[i]
    case Nop => IsNop
    case SetField(n, f, _) =>
      if Pending(ops, i + 1, n, f) then Redundant
      else if n in LiveIds(ops, |ops|) then Kept else OnDeadNode
    case LinkRef(n, _, _) => if n in LiveIds(ops, |ops|) then Kept else OnDeadNode
    case BeginGroup(_, _) => if HasChild(ops, i) then Kept else EmptyGroup
    case EndGroup =>
      if Innermost(ops, i).Some? && !HasChild(ops, Innermost(ops, i).value) then EmptyGroup else Kept
    case _ => Kept
  }

  /** The emitted form of a survivor: the reserve hint is always zero. */
  function Emitted(op: Op): Op {
    if op.BeginGroup? then BeginGroup(op.owner, 0) else op
  }

  /** The survivors among the first i operations. */
  ghost function Survivors(ops: seq<Op>, i: nat): (r: seq<Op>)
    requires i <= |ops|
    ensures |r| <= i
  {
    if i == 0 then []
    else Survivors(ops, i - 1) + if FateOf(ops, i - 1) == Kept then [Emitted(ops[i - 1])] else []
  }

  ghost function Compacted(ops: seq<Op>): seq<Op> {
    Survivors(ops, |ops|)
  }

  // ----- the simulation relation -----

  /** a can be had from b by deleting elements. */
  predicate Subsequence(a: seq<nat>, b: seq<nat>) {
    if a == [] then true
    else if b == [] then false
    else (a[|a| - 1] == b[|b| - 1] && Subsequence(a[..|a| - 1], b[..|b| - 1]))
         || Subsequence(a, b[..|b| - 1])
  }

  predicate FieldAgrees(a: map<U32, Value>, b: map<U32, Value>, f: U32) {
    (f in a <==> f in b) && (f in a ==> a[f] == b[f])
  }

  predicate SameIdentity(a: Node, b: Node) {
    && a.id == b.id && a.kind == b.kind && a.name == b.name
    && a.alive == b.alive && a.placeholder == b.placeholder
    && a.generation == b.generation && a.children == b.children
  }

  /** Slot k of the two tables after i operations: everything agrees but edges
      that compaction dropped, fields of a node that will be dropped, and
      fields that a later write settles. */
  ghost predicate NodeSim(ops: seq<Op>, i: nat, k: nat, a: Node, b: Node) {
    && SameIdentity(a, b)
    && Subsequence(b.refs, a.refs)
    && (k in LiveIds(ops, |ops|) || a.placeholder ==>
          forall f :: FieldAgrees(a.fields, b.fields, f) || Pending(ops, i, k, f))
  }

  ghost predicate TablesSim(ops: seq<Op>, i: nat, a: seq<Node>, b: seq<Node>) {
    && |a| == |b|
    && forall k :: 0 <= k < |a| ==> NodeSim(ops, i, k, a[k], b[k])
  }

  predicate StatsSim(a: Stats, b: Stats) {
    && a.nodesCreated == b.nodesCreated && a.placeholders == b.placeholders
    && a.nodesDropped == b.nodesDropped && a.childrenLinked == b.childrenLinked
    && a.snapshots == b.snapshots
  }

  ghost predicate CoreSim(ops: seq<Op>, i: nat, st: VmState, ct: VmState) {
    && TablesSim(ops, i, st.nodes, ct.nodes)
    && st.names == ct.names && st.freeList == ct.freeList
    && st.snapshots == ct.snapshots && st.meta == ct.meta
    && StatsSim(st.stats, ct.stats)
  }

  /** The frames whose group survives. */
  ghost function KeptFrames(ops: seq<Op>, frames: seq<Frame>, stack: seq<nat>): (r: seq<Frame>)
    requires |frames| == |stack|
    ensures |r| <= |frames|
  {
    if frames == [] then []
    else
      var m := |frames| - 1;
      KeptFrames(ops, frames[..m], stack[..m]) + if HasChild(ops, stack[m]) then [frames[m]] else []
  }

  ghost predicate FramesMatch(ops: seq<Op>, frames: seq<Frame>, stack: seq<nat>, kept: seq<Frame>) {
    && |frames| == |stack|
    && kept == KeptFrames(ops, frames, stack)
    && forall k :: 0 <= k < |frames| ==> frames[k].deferred == [] || HasChild(ops, stack[k])
  }

  ghost predicate FramesSim(ops: seq<Op>, i: nat, st: VmState, ct: VmState)
    requires i <= |ops|
  {
    FramesMatch(ops, st.frames, Stack(ops, i), ct.frames)
  }

  ghost predicate Sim(ops: seq<Op>, i: nat, st: VmState, ct: VmState)
    requires i <= |ops|
  {
    CoreSim(ops, i, st, ct) && FramesSim(ops, i, st, ct)
  }

  /** The compactor's numbering is the machine's: created nodes come first,
      placeholders after them, and liveness agrees. */
  ghost predicate NumberingAgrees(ops: seq<Op>, i: nat, st: VmState)
    requires i <= |ops|
  {
    && Numbered(ops, i) <= |st.nodes|
    && (forall k :: 0 <= k < |st.nodes| ==> (st.nodes[k].placeholder <==> Numbered(ops, i) <= k))
    && (forall k :: 0 <= k < Numbered(ops, i) ==> (st.nodes[k].alive <==> k in LiveIds(ops, i)))
    && (forall k :: k in LiveIds(ops, i) ==> k < Numbered(ops, i))
  }

  // ----- small facts about the relation -----

  lemma SubsequenceExtend(a: seq<nat>, b: seq<nat>, x: nat)
    requires Subsequence(a, b)
    ensures Subsequence(a + [x], b + [x]) && Subsequence(a, b + [x])
  {
    assert (a + [x])[..|a|] == a && (b + [x])[..|b|] == b;
  }

  lemma {:induction false} SubsequenceAppend(a: seq<nat>, b: seq<nat>, xs: seq<nat>)
    requires Subsequence(a, b)
    ensures Subsequence(a + xs, b + xs) && Subsequence(a, b + xs)
    decreases |xs|
  {
    if xs == [] {
      assert a + xs == a && b + xs == b;
    } else {
      var m := |xs| - 1;
      SubsequenceAppend(a, b, xs[..m]);
      assert a + xs == a + xs[..m] + [xs[m]] && b + xs == b + xs[..m] + [xs[m]];
      SubsequenceExtend(a + xs[..m], b + xs[..m], xs[m]);
      SubsequenceExtend(a, b + xs[..m], xs[m]);
    }
  }

  lemma {:induction false} SubsequenceRefl(a: seq<nat>)
    ensures Subsequence(a, a)
    decreases |a|
  {
    if a != [] {
      SubsequenceRefl(a[..|a| - 1]);
    }
  }

  lemma PendingStep(ops: seq<Op>, i: nat, node: nat, field: U32)
    requires i < |ops|
    ensures Pending(ops, i, node, field) <==> SetsKey(ops[i], node, field) || Pending(ops, i + 1, node, field)
  {
    if Pending(ops, i, node, field) {
      var j :| i <= j < |ops| && SetsKey(ops[j], node, field);
      assert j == i || i + 1 <= j;
    }
    if SetsKey(ops[i], node, field) {
      assert i <= i < |ops|;
    }
  }

  /** An operation that is not a SET_FIELD settles nothing. */
  lemma TablesAdvance(ops: seq<Op>, i: nat, a: seq<Node>, b: seq<Node>)
    requires i < |ops| && !ops[i].SetField? && TablesSim(ops, i, a, b)
    ensures TablesSim(ops, i + 1, a, b)
  {
    hide SameIdentity, Subsequence, FieldAgrees, LiveIds, Pending;
    forall k | 0 <= k < |a| ensures NodeSim(ops, i + 1, k, a[k], b[k]) {
      assert NodeSim(ops, i, k, a[k], b[k]);
      forall f ensures Pending(ops, i, k, f) <==> Pending(ops, i + 1, k, f) {
        PendingStep(ops, i, k, f);
      }
    }
  }

  lemma TablesAppend(ops: seq<Op>, i: nat, a: seq<Node>, b: seq<Node>, n: Node)
    requires TablesSim(ops, i, a, b)
    ensures TablesSim(ops, i, a + [n], b + [n])
  {
    hide Subsequence, LiveIds, Pending;
    SubsequenceRefl(n.refs);
    forall k | 0 <= k < |a + [n]| ensures NodeSim(ops, i, k, (a + [n])[k], (b + [n])[k]) {
      if k < |a| {
        assert NodeSim(ops, i, k, a[k], b[k]);
      }
    }
  }

  lemma TablesUpdate(ops: seq<Op>, i: nat, a: seq<Node>, b: seq<Node>, k: nat, x: Node, y: Node)
    requires TablesSim(ops, i, a, b) && k < |a| && NodeSim(ops, i, k, x, y)
    ensures TablesSim(ops, i, a[k := x], b[k := y])
  {
    hide NodeSim;
    var a', b' := a[k := x], b[k := y];
    forall j | 0 <= j < |a| ensures NodeSim(ops, i, j, a'[j], b'[j]) {
      assert NodeSim(ops, i, j, a[j], b[j]);
    }
  }

  lemma {:induction false} AliveCountSim(ops: seq<Op>, i: nat, a: seq<Node>, b: seq<Node>)
    requires TablesSim(ops, i, a, b)
    ensures AliveCount(a) == AliveCount(b)
    decreases |a|
  {
    hide Subsequence, LiveIds, Pending, FieldAgrees;
    if a != [] {
      var m := |a| - 1;
      assert NodeSim(ops, i, m, a[m], b[m]);
      forall k | 0 <= k < m ensures NodeSim(ops, i, k, a[..m][k], b[..m][k]) {
        assert NodeSim(ops, i, k, a[k], b[k]);
      }
      AliveCountSim(ops, i, a[..m], b[..m]);
    }
  }

  // ----- closing a group, in both runs -----

  lemma WireSim(ops: seq<Op>, i: nat, a: seq<Node>, b: seq<Node>, owner: nat, target: nat)
    requires TablesSim(ops, i, a, b) && owner < |a| && target < |a|
    ensures TablesSim(ops, i, Wire(a, owner, target), Wire(b, owner, target))
  {
    hide Subsequence, LiveIds, Pending, FieldAgrees;
    assert NodeSim(ops, i, owner, a[owner], b[owner]);
    var x := a[owner].(children := a[owner].children + [target]);
    var y := b[owner].(children := b[owner].children + [target]);
    TablesUpdate(ops, i, a, b, owner, x, y);
    var a1, b1 := a[owner := x], b[owner := y];
    assert NodeSim(ops, i, target, a1[target], b1[target]);
    SubsequenceExtend(b1[target].refs, a1[target].refs, owner);
    TablesUpdate(ops, i, a1, b1, target,
                 a1[target].(refs := a1[target].refs + [owner]), b1[target].(refs := b1[target].refs + [owner]));
  }

  lemma LinkChildSim(ops: seq<Op>, i: nat, st: VmState, ct: VmState, owner: nat, child: U32)
    requires st.Safe() && ct.Safe() && CoreSim(ops, i, st, ct) && owner < |st.nodes|
    ensures CoreSim(ops, i, LinkChild(st, owner, child), LinkChild(ct, owner, child))
  {
    hide TablesSim, Wire;
    assert |st.nodes| == |ct.nodes| by { TablesLength(ops, i, st.nodes, ct.nodes); }
    if child in st.names {
      WireSim(ops, i, st.nodes, ct.nodes, owner, st.names[child]);
    } else {
      var n := FreshNode(|st.nodes|, INVALID_KIND, child).(placeholder := true);
      TablesAppend(ops, i, st.nodes, ct.nodes, n);
      WireSim(ops, i, st.nodes + [n], ct.nodes + [n], owner, |st.nodes|);
    }
  }

  lemma TablesLength(ops: seq<Op>, i: nat, a: seq<Node>, b: seq<Node>)
    requires TablesSim(ops, i, a, b)
    ensures |a| == |b|
  {
  }

  lemma {:induction false} LinkChildrenSim(ops: seq<Op>, i: nat, st: VmState, ct: VmState, owner: nat, children: seq<U32>)
    requires st.Safe() && ct.Safe() && CoreSim(ops, i, st, ct) && owner < |st.nodes| && owner < |ct.nodes|
    ensures CoreSim(ops, i, LinkChildren(st, owner, children), LinkChildren(ct, owner, children))
    decreases |children|
  {
    hide CoreSim, LinkChild;
    if children != [] {
      LinkChildSim(ops, i, st, ct, owner, children[0]);
      LinkChildrenSim(ops, i, LinkChild(st, owner, children[0]), LinkChild(ct, owner, children[0]), owner, children[1..]);
    }
  }

  // ----- one operation, in both runs -----

  /** What is known when the original run executes operation i. */
  ghost predicate AtOp(env: Env, ops: seq<Op>, i: nat, st: VmState, ct: VmState) {
    && i < |ops|
    && st.Safe() && ct.Safe()
    && Sim(ops, i, st, ct)
    && NodesOk(env.schema, st.nodes) && env.schema.Fits()
    && OpEffect(env, st, ops[i]).Ok?
  }

  /** A kept operation steps both runs and keeps the relation; a removed one
      steps the original alone. */
  ghost predicate StepsTogether(env: Env, ops: seq<Op>, i: nat, st: VmState, ct: VmState)
    requires i < |ops| && st.Safe() && ct.Safe()
  {
    && OpEffect(env, st, ops[i]).Ok?
    && if FateOf(ops, i) == Kept
       then OpEffect(env, ct, Emitted(ops[i])).Ok?
            && Sim(ops, i + 1, OpEffect(env, st, ops[i]).value, OpEffect(env, ct, Emitted(ops[i])).value)
       else Sim(ops, i + 1, OpEffect(env, st, ops[i]).value, ct)
  }

  lemma FramesIgnoreRest(ops: seq<Op>, i: nat, st: VmState, ct: VmState, st': VmState, ct': VmState)
    requires i < |ops| && !ops[i].BeginGroup? && !ops[i].EndGroup? && FramesSim(ops, i, st, ct)
    requires st'.frames == st.frames && ct'.frames == ct.frames
    ensures FramesSim(ops, i + 1, st', ct')
  {
    StackQuiet(ops, i);
  }

  lemma NewNodeSim(env: Env, ops: seq<Op>, i: nat, st: VmState, ct: VmState)
    requires AtOp(env, ops, i, st, ct) && ops[i].NewNode?
    ensures StepsTogether(env, ops, i, st, ct)
  {
    hide TablesSim, FramesSim, NodesOk;
    TablesLength(ops, i, st.nodes, ct.nodes);
    TablesAppend(ops, i, st.nodes, ct.nodes, FreshNode(|st.nodes|, ops[i].kind, ops[i].name));
    var st', ct' := OpEffect(env, st, ops[i]).value, OpEffect(env, ct, ops[i]).value;
    TablesAdvance(ops, i, st'.nodes, ct'.nodes);
    FramesIgnoreRest(ops, i, st, ct, st', ct');
  }

  /** A typed field belongs to a declared kind, so its node is no placeholder. */
  lemma TypedIsDeclared(env: Env, nodes: seq<Node>, k: nat, field: U32)
    requires NodesOk(env.schema, nodes) && env.schema.Fits() && k < |nodes|
    requires env.schema.FieldType(nodes[k].kind, field) != TInvalid
    ensures !nodes[k].placeholder
  {
    assert NodeOk(env.schema, |nodes|, k, nodes[k]);
  }

  /** Passing operation i can only settle the key it sets. */
  lemma NodeAdvance(ops: seq<Op>, i: nat, k: nat, a: Node, b: Node)
    requires i < |ops| && NodeSim(ops, i, k, a, b)
    requires forall f :: !SetsKey(ops[i], k, f)
    ensures NodeSim(ops, i + 1, k, a, b)
  {
    hide Subsequence, LiveIds, Pending;
    forall f ensures Pending(ops, i, k, f) <==> Pending(ops, i + 1, k, f) {
      PendingStep(ops, i, k, f);
    }
  }

  lemma TablesStore(ops: seq<Op>, i: nat, a: seq<Node>, b: seq<Node>, k: nat, x: Node, y: Node)
    requires i < |ops| && TablesSim(ops, i, a, b) && k < |a|
    requires ops[i].SetField? ==> ops[i].node == k
    requires NodeSim(ops, i + 1, k, x, y)
    ensures TablesSim(ops, i + 1, a[k := x], b[k := y])
  {
    hide NodeSim;
    var a', b' := a[k := x], b[k := y];
    forall j | 0 <= j < |a| ensures NodeSim(ops, i + 1, j, a'[j], b'[j]) {
      assert NodeSim(ops, i, j, a[j], b[j]);
      if j != k {
        NodeAdvance(ops, i, j, a[j], b[j]);
      }
    }
  }

  function Stored(n: Node, field: U32, v: Value, edges: seq<nat>): Node {
    n.(refs := n.refs + edges, fields := n.fields[field := v])
  }

  /** Storing the same value in both tables settles that field. */
  lemma StoreBoth(ops: seq<Op>, i: nat, a: seq<Node>, b: seq<Node>, k: nat, field: U32, v: Value, edges: seq<nat>)
    requires i < |ops| && TablesSim(ops, i, a, b) && k < |a|
    requires ops[i].SetField? ==> SetsKey(ops[i], k, field)
    ensures TablesSim(ops, i + 1, a[k := Stored(a[k], field, v, edges)], b[k := Stored(b[k], field, v, edges)])
  {
    hide Subsequence, LiveIds, Pending;
    var x, y := Stored(a[k], field, v, edges), Stored(b[k], field, v, edges);
    assert NodeSim(ops, i, k, a[k], b[k]);
    SubsequenceAppend(b[k].refs, a[k].refs, edges);
    if k in LiveIds(ops, |ops|) || a[k].placeholder {
      forall f ensures FieldAgrees(x.fields, y.fields, f) || Pending(ops, i + 1, k, f) {
        PendingStep(ops, i, k, f);
        assert FieldAgrees(a[k].fields, b[k].fields, f) || Pending(ops, i, k, f);
      }
    }
    assert NodeSim(ops, i + 1, k, x, y);
    TablesStore(ops, i, a, b, k, x, y);
  }

  /** Storing only in the original is sound when the field is unsettled or the
      node is doomed. */
  lemma StoreOriginal(ops: seq<Op>, i: nat, a: seq<Node>, b: seq<Node>, k: nat, field: U32, v: Value, edges: seq<nat>)
    requires i < |ops| && TablesSim(ops, i, a, b) && k < |a| && !a[k].placeholder
    requires ops[i].SetField? ==> SetsKey(ops[i], k, field)
    requires k !in LiveIds(ops, |ops|) || Pending(ops, i + 1, k, field)
    ensures TablesSim(ops, i + 1, a[k := Stored(a[k], field, v, edges)], b)
  {
    hide Subsequence, LiveIds, Pending;
    var x := Stored(a[k], field, v, edges);
    assert NodeSim(ops, i, k, a[k], b[k]);
    SubsequenceAppend(b[k].refs, a[k].refs, edges);
    if k in LiveIds(ops, |ops|) {
      forall f ensures FieldAgrees(x.fields, b[k].fields, f) || Pending(ops, i + 1, k, f) {
        PendingStep(ops, i, k, f);
        assert FieldAgrees(a[k].fields, b[k].fields, f) || Pending(ops, i, k, f);
      }
    }
    assert NodeSim(ops, i + 1, k, x, b[k]);
    TablesStore(ops, i, a, b, k, x, b[k]);
    assert b[k := b[k]] == b;
  }

  lemma NodeIdentity(ops: seq<Op>, i: nat, a: seq<Node>, b: seq<Node>, k: nat)
    requires TablesSim(ops, i, a, b) && k < |a|
    ensures |a| == |b| && SameIdentity(a[k], b[k])
  {
    assert NodeSim(ops, i, k, a[k], b[k]);
  }

  lemma SetFieldSim(env: Env, ops: seq<Op>, i: nat, st: VmState, ct: VmState)
    requires AtOp(env, ops, i, st, ct) && ops[i].SetField?
    ensures StepsTogether(env, ops, i, st, ct)
  {
    hide TablesSim, FramesSim, NodesOk, LiveIds, EdgesOf, MissingEdges, Pending;
    var k, field, v := ops[i].node, ops[i].field, ops[i].value;
    NodeIdentity(ops, i, st.nodes, ct.nodes, k);
    TypedIsDeclared(env, st.nodes, k, field);
    var st' := OpEffect(env, st, ops[i]).value;
    if FateOf(ops, i) == Kept {
      StoreBoth(ops, i, st.nodes, ct.nodes, k, field, v, EdgesOf(v, |st.nodes|));
      FramesIgnoreRest(ops, i, st, ct, st', OpEffect(env, ct, ops[i]).value);
    } else {
      StoreOriginal(ops, i, st.nodes, ct.nodes, k, field, v, EdgesOf(v, |st.nodes|));
      FramesIgnoreRest(ops, i, st, ct, st', ct);
    }
  }

  lemma LinkRefSim(env: Env, ops: seq<Op>, i: nat, st: VmState, ct: VmState)
    requires AtOp(env, ops, i, st, ct) && ops[i].LinkRef?
    ensures StepsTogether(env, ops, i, st, ct)
  {
    hide TablesSim, FramesSim, NodesOk, LiveIds;
    var k, field := ops[i].src, ops[i].lfield;
    NodeIdentity(ops, i, st.nodes, ct.nodes, k);
    TypedIsDeclared(env, st.nodes, k, field);
    var st' := OpEffect(env, st, ops[i]).value;
    FramesIgnoreRest(ops, i, st, ct, st', ct);
    FramesIgnoreRest(ops, i, st, ct, st', OpEffect(env, ct, ops[i]).value);
    match st.Find(ops[i].target) {
      case None => TablesAdvance(ops, i, st.nodes, ct.nodes);
      case Some(id) =>
        if FateOf(ops, i) == Kept {
          StoreBoth(ops, i, st.nodes, ct.nodes, k, field, RefV(id % TWO32), [id]);
        } else {
          StoreOriginal(ops, i, st.nodes, ct.nodes, k, field, RefV(id % TWO32), [id]);
        }
    }
  }

  lemma DropTables(ops: seq<Op>, i: nat, a: seq<Node>, b: seq<Node>, k: nat)
    requires TablesSim(ops, i, a, b) && k < |a|
    ensures |a| == |b| && TablesSim(ops, i, a[k := a[k].(alive := false, generation := a[k].generation + 1)],
                                            b[k := b[k].(alive := false, generation := b[k].generation + 1)])
  {
    hide Subsequence, LiveIds, Pending, FieldAgrees;
    assert NodeSim(ops, i, k, a[k], b[k]);
    TablesUpdate(ops, i, a, b, k, a[k].(alive := false, generation := a[k].generation + 1),
                                  b[k].(alive := false, generation := b[k].generation + 1));
  }

  lemma DropNodeSim(env: Env, ops: seq<Op>, i: nat, st: VmState, ct: VmState)
    requires AtOp(env, ops, i, st, ct) && ops[i].DropNode?
    ensures StepsTogether(env, ops, i, st, ct)
  {
    hide TablesSim, FramesSim, NodesOk, LiveIds;
    var k := ops[i].dropped;
    NodeIdentity(ops, i, st.nodes, ct.nodes, k);
    DropTables(ops, i, st.nodes, ct.nodes, k);
    var st', ct' := OpEffect(env, st, ops[i]).value, OpEffect(env, ct, ops[i]).value;
    TablesAdvance(ops, i, st'.nodes, ct'.nodes);
    FramesIgnoreRest(ops, i, st, ct, st', ct');
  }

  lemma SnapshotSim(env: Env, ops: seq<Op>, i: nat, st: VmState, ct: VmState)
    requires AtOp(env, ops, i, st, ct) && ops[i].Snapshot?
    ensures StepsTogether(env, ops, i, st, ct)
  {
    hide TablesSim, FramesSim, NodesOk;
    AliveCountSim(ops, i, st.nodes, ct.nodes);
    TablesLength(ops, i, st.nodes, ct.nodes);
    TablesAdvance(ops, i, st.nodes, ct.nodes);
    FramesIgnoreRest(ops, i, st, ct, OpEffect(env, st, ops[i]).value, OpEffect(env, ct, ops[i]).value);
  }

  lemma QuietSim(env: Env, ops: seq<Op>, i: nat, st: VmState, ct: VmState)
    requires AtOp(env, ops, i, st, ct) && (ops[i].SetMeta? || ops[i].Nop?)
    ensures StepsTogether(env, ops, i, st, ct)
  {
    hide TablesSim, FramesSim, NodesOk;
    TablesAdvance(ops, i, st.nodes, ct.nodes);
    var st' := OpEffect(env, st, ops[i]).value;
    FramesIgnoreRest(ops, i, st, ct, st', ct);
    FramesIgnoreRest(ops, i, st, ct, st', OpEffect(env, ct, ops[i]).value);
  }

  lemma FramesPush(ops: seq<Op>, frames: seq<Frame>, stack: seq<nat>, kept: seq<Frame>, f: Frame, b: nat)
    requires FramesMatch(ops, frames, stack, kept) && f.deferred == []
    ensures FramesMatch(ops, frames + [f], stack + [b], if HasChild(ops, b) then kept + [f] else kept)
  {
    assert (frames + [f])[..|frames|] == frames && (stack + [b])[..|stack|] == stack;
  }

  lemma FramesPop(ops: seq<Op>, frames: seq<Frame>, stack: seq<nat>, kept: seq<Frame>)
    requires FramesMatch(ops, frames, stack, kept) && frames != []
    ensures |frames| == |stack|
    ensures var top := |frames| - 1;
      if HasChild(ops, stack[top])
      then kept != [] && kept[|kept| - 1] == frames[top]
           && FramesMatch(ops, frames[..top], stack[..top], kept[..|kept| - 1])
      else frames[top].deferred == [] && FramesMatch(ops, frames[..top], stack[..top], kept)
  {
  }

  lemma FramesTop(ops: seq<Op>, frames: seq<Frame>, stack: seq<nat>, kept: seq<Frame>, f: Frame)
    requires FramesMatch(ops, frames, stack, kept) && frames != [] && HasChild(ops, stack[|frames| - 1])
    ensures kept != [] && kept[|kept| - 1] == frames[|frames| - 1]
    ensures FramesMatch(ops, frames[|frames| - 1 := f], stack, kept[|kept| - 1 := f])
  {
    var top := |frames| - 1;
    assert frames[top := f][..top] == frames[..top];
  }

  lemma CoreIdentity(ops: seq<Op>, i: nat, st: VmState, ct: VmState, k: nat)
    requires CoreSim(ops, i, st, ct) && k < |st.nodes|
    ensures st.names == ct.names && |st.nodes| == |ct.nodes| && st.nodes[k].alive == ct.nodes[k].alive
  {
    NodeIdentity(ops, i, st.nodes, ct.nodes, k);
  }

  lemma BeginGroupSim(env: Env, ops: seq<Op>, i: nat, st: VmState, ct: VmState)
    requires AtOp(env, ops, i, st, ct) && ops[i].BeginGroup?
    ensures StepsTogether(env, ops, i, st, ct)
  {
    hide CoreSim, NodesOk, HasChild, FramesMatch;
    var id := st.names[ops[i].owner];
    CoreIdentity(ops, i, st, ct, id);
    FramesLength(ops, i, st, ct);
    FramesPush(ops, st.frames, Stack(ops, i), ct.frames, Frame(id, ops[i].owner, []), i);
    CoreAdvance(ops, i, st, ct);
    CoreIgnoresFrames(ops, i + 1, st, ct, OpEffect(env, st, ops[i]).value.frames, ct.frames);
    CoreIgnoresFrames(ops, i + 1, st, ct, OpEffect(env, st, ops[i]).value.frames, ct.frames + [Frame(id, ops[i].owner, [])]);
  }

  lemma FramesLength(ops: seq<Op>, i: nat, st: VmState, ct: VmState)
    requires i <= |ops| && FramesSim(ops, i, st, ct)
    ensures |ct.frames| <= |st.frames| == |Stack(ops, i)|
  {
  }

  lemma LinkBothAdvance(ops: seq<Op>, i: nat, st: VmState, ct: VmState, owner: nat, children: seq<U32>)
    requires i < |ops| && !ops[i].SetField?
    requires st.Safe() && ct.Safe() && CoreSim(ops, i, st, ct) && owner < |st.nodes|
    ensures owner < |ct.nodes|
    ensures CoreSim(ops, i + 1, LinkChildren(st, owner, children), LinkChildren(ct, owner, children))
  {
    TablesLength(ops, i, st.nodes, ct.nodes);
    hide TablesSim, LinkChildren;
    LinkChildrenSim(ops, i, st, ct, owner, children);
    TablesAdvance(ops, i, LinkChildren(st, owner, children).nodes, LinkChildren(ct, owner, children).nodes);
  }

  lemma EndKeptGroupSim(ops: seq<Op>, i: nat, st: VmState, ct: VmState)
    requires i < |ops| && ops[i].EndGroup? && st.Safe() && ct.Safe() && Sim(ops, i, st, ct)
    requires st.frames != [] && HasChild(ops, Stack(ops, i)[|st.frames| - 1])
    ensures EndGroupStep(ct).Ok?
    ensures Sim(ops, i + 1, EndGroupStep(st).value, EndGroupStep(ct).value)
  {
    hide CoreSim, HasChild, FramesMatch, LinkChildren, Stack;
    FramesPop(ops, st.frames, Stack(ops, i), ct.frames);
    StackEnd(ops, i);
    var top := |st.frames| - 1;
    var st1, ct1 := st.(frames := st.frames[..top]), ct.(frames := ct.frames[..|ct.frames| - 1]);
    CoreIgnoresFrames(ops, i, st, ct, st1.frames, ct1.frames);
    LinkBothAdvance(ops, i, st1, ct1, st.frames[top].ownerId, st.frames[top].deferred);
  }

  lemma StackEnd(ops: seq<Op>, i: nat)
    requires i < |ops| && ops[i].EndGroup? && Stack(ops, i) != []
    ensures Stack(ops, i + 1) == Stack(ops, i)[..|Stack(ops, i)| - 1]
  {
  }

  lemma CoreIgnoresFrames(ops: seq<Op>, i: nat, st: VmState, ct: VmState, f: seq<Frame>, g: seq<Frame>)
    requires CoreSim(ops, i, st, ct)
    ensures CoreSim(ops, i, st.(frames := f), ct.(frames := g))
  {
  }

  lemma CoreAdvance(ops: seq<Op>, i: nat, st: VmState, ct: VmState)
    requires i < |ops| && !ops[i].SetField? && CoreSim(ops, i, st, ct)
    ensures CoreSim(ops, i + 1, st, ct)
  {
    hide TablesSim;
    TablesAdvance(ops, i, st.nodes, ct.nodes);
  }

  lemma EndEmptyGroupSim(ops: seq<Op>, i: nat, st: VmState, ct: VmState)
    requires i < |ops| && ops[i].EndGroup? && st.Safe() && Sim(ops, i, st, ct)
    requires st.frames != [] && !HasChild(ops, Stack(ops, i)[|st.frames| - 1])
    ensures Sim(ops, i + 1, EndGroupStep(st).value, ct)
  {
    hide CoreSim, HasChild, FramesMatch, LinkChildren, Stack;
    FramesPop(ops, st.frames, Stack(ops, i), ct.frames);
    StackEnd(ops, i);
    var top := |st.frames| - 1;
    CoreAdvance(ops, i, st, ct);
    CoreIgnoresFrames(ops, i + 1, st, ct, st.frames[..top], ct.frames);
    LinkNone(st.(frames := st.frames[..top]), st.frames[top].ownerId);
  }

  lemma EndFate(ops: seq<Op>, i: nat)
    requires i < |ops| && ops[i].EndGroup? && Stack(ops, i) != []
    ensures FateOf(ops, i) == Kept <==> HasChild(ops, Stack(ops, i)[|Stack(ops, i)| - 1])
  {
  }

  lemma EndGroupSim(env: Env, ops: seq<Op>, i: nat, st: VmState, ct: VmState)
    requires AtOp(env, ops, i, st, ct) && ops[i].EndGroup?
    ensures StepsTogether(env, ops, i, st, ct)
  {
    hide CoreSim, NodesOk, HasChild, FramesMatch, LinkChildren, Stack, FateOf;
    FramesLength(ops, i, st, ct);
    EndFate(ops, i);
    if HasChild(ops, Stack(ops, i)[|st.frames| - 1]) {
      EndKeptGroupSim(ops, i, st, ct);
    } else {
      EndEmptyGroupSim(ops, i, st, ct);
    }
  }

  lemma LinkNone(st: VmState, owner: nat)
    requires st.Safe() && owner < |st.nodes|
    ensures LinkChildren(st, owner, []) == st
  {
  }

  lemma StackQuiet(ops: seq<Op>, i: nat)
    requires i < |ops| && !ops[i].BeginGroup? && !ops[i].EndGroup?
    ensures Stack(ops, i + 1) == Stack(ops, i)
  {
  }

  lemma ChildWitness(ops: seq<Op>, i: nat)
    requires i < |ops| && ops[i].AddChild? && Stack(ops, i) != []
    ensures HasChild(ops, Stack(ops, i)[|Stack(ops, i)| - 1])
  {
    assert ChildOf(ops, Stack(ops, i)[|Stack(ops, i)| - 1], i);
  }

  lemma AddChildSim(env: Env, ops: seq<Op>, i: nat, st: VmState, ct: VmState)
    requires AtOp(env, ops, i, st, ct) && ops[i].AddChild?
    ensures StepsTogether(env, ops, i, st, ct)
  {
    hide CoreSim, NodesOk, HasChild, FramesMatch, Stack;
    FramesLength(ops, i, st, ct);
    var top := |st.frames| - 1;
    ChildWitness(ops, i);
    StackQuiet(ops, i);
    var frame := st.frames[top];
    var f := frame.(deferred := frame.deferred + [ops[i].child]);
    FramesTop(ops, st.frames, Stack(ops, i), ct.frames, f);
    CoreAdvance(ops, i, st, ct);
    CoreIgnoresFrames(ops, i + 1, st, ct, st.frames[top := f], ct.frames[|ct.frames| - 1 := f]);
  }

  /** One original operation against the compacted run. */
  lemma EffectSim(env: Env, ops: seq<Op>, i: nat, st: VmState, ct: VmState)
    requires AtOp(env, ops, i, st, ct)
    ensures StepsTogether(env, ops, i, st, ct)
  {
    hide StepsTogether, OpEffect, Sim, NodesOk;
    match ops[i] {
      case NewNode(_, _) => NewNodeSim(env, ops, i, st, ct);
      case SetField(_, _, _) => SetFieldSim(env, ops, i, st, ct);
      case BeginGroup(_, _) => BeginGroupSim(env, ops, i, st, ct);
      case EndGroup => EndGroupSim(env, ops, i, st, ct);
      case AddChild(_) => AddChildSim(env, ops, i, st, ct);
      case LinkRef(_, _, _) => LinkRefSim(env, ops, i, st, ct);
      case DropNode(_) => DropNodeSim(env, ops, i, st, ct);
      case Snapshot(_) => SnapshotSim(env, ops, i, st, ct);
      case SetMeta(_, _) => QuietSim(env, ops, i, st, ct);
      case Nop => QuietSim(env, ops, i, st, ct);
    }
  }

  // ----- whole runs -----

  lemma SimIgnoresTick(ops: seq<Op>, i: nat, st: VmState, ct: VmState)
    requires i <= |ops| && Sim(ops, i, st, ct)
    ensures Sim(ops, i, Tick(st), Tick(ct)) && Sim(ops, i, Tick(st), ct)
  {
    hide TablesSim, FramesMatch;
  }

  /** A state a journal may start from: reachable, with no group open. Both the
      empty machine and one seeded with a decoded heap are such states. */
  ghost predicate Ready(env: Env, st: VmState) {
    Inv(env.schema, st) && env.schema.Fits() && st.frames == []
  }

  lemma ReadyStarts(env: Env, heap: seq<Node>)
    requires env.schema.Fits() && HeapOk(env.schema, heap)
    ensures Ready(env, EMPTY) && Positional(heap) && Ready(env, Seeded(heap))
  {
    hide Inv, NodesOk;
    EmptyOk(env.schema);
    SeededOk(env.schema, heap);
  }

  lemma SimAtStart(env: Env, st: VmState, ops: seq<Op>)
    requires st.Safe() && st.frames == []
    ensures RunOps(env, st, []) == Ok(st) && Sim(ops, 0, st, st)
  {
    hide LiveIds, Pending, Subsequence;
    forall k | 0 <= k < |st.nodes| ensures NodeSim(ops, 0, k, st.nodes[k], st.nodes[k]) {
      SubsequenceRefl(st.nodes[k].refs);
    }
  }

  lemma RunOneMore(env: Env, st: VmState, ops: seq<Op>, op: Op)
    requires st.Safe() && RunOps(env, st, ops).Ok? && Step(env, RunOps(env, st, ops).value, op).Ok?
    ensures RunOps(env, st, ops + [op]) == Step(env, RunOps(env, st, ops).value, op)
  {
    hide Step;
    RunOpsAppend(env, st, ops, [op]);
    assert [op][1..] == [];
  }

  /** EffectSim, with the operation counter. */
  lemma SimStep(env: Env, ops: seq<Op>, i: nat, st: VmState, ct: VmState)
    requires i < |ops| && st.Safe() && ct.Safe() && Sim(ops, i, st, ct)
    requires NodesOk(env.schema, st.nodes) && env.schema.Fits() && Step(env, st, ops[i]).Ok?
    ensures FateOf(ops, i) == Kept ==>
      && Step(env, ct, Emitted(ops[i])).Ok?
      && Sim(ops, i + 1, Step(env, st, ops[i]).value, Step(env, ct, Emitted(ops[i])).value)
    ensures FateOf(ops, i) != Kept ==> Sim(ops, i + 1, Step(env, st, ops[i]).value, ct)
  {
    hide OpEffect, Sim, FateOf, NodesOk, Tick;
    EffectSim(env, ops, i, st, ct);
    if FateOf(ops, i) == Kept {
      SimIgnoresTick(ops, i + 1, OpEffect(env, st, ops[i]).value, OpEffect(env, ct, Emitted(ops[i])).value);
    } else {
      SimIgnoresTick(ops, i + 1, OpEffect(env, st, ops[i]).value, ct);
    }
  }

  lemma InvNodes(schema: Schema, st: VmState)
    requires Inv(schema, st)
    ensures NodesOk(schema, st.nodes)
  {
  }

  /** After every prefix of any accepted run, from any ready state, the
      survivors among it run and are related to it. */
  lemma {:induction false} SimInvariant(env: Env, start: VmState, ops: seq<Op>, i: nat)
    requires Ready(env, start) && start.Safe() && RunOps(env, start, ops).Ok? && i <= |ops|
    ensures RunOps(env, start, Survivors(ops, i)).Ok?
    ensures Sim(ops, i, StateFrom(env, start, ops, i), RunOps(env, start, Survivors(ops, i)).value)
  {
    hide StateFrom, OpEffect, Inv, Sim, FateOf, RunOps, NodesOk, Tick, Step;
    StateFromEnds(env, start, ops);
    if i == 0 {
      SimAtStart(env, start, ops);
    } else {
      var k := i - 1;
      SimInvariant(env, start, ops, k);
      StateFromInv(env, start, ops, k);
      StateFromStep(env, start, ops, k);
      var st, ct := StateFrom(env, start, ops, k), RunOps(env, start, Survivors(ops, k)).value;
      InvNodes(env.schema, st);
      SimStep(env, ops, k, st, ct);
      if FateOf(ops, k) == Kept {
        RunOneMore(env, start, Survivors(ops, k), Emitted(ops[k]));
      } else {
        assert Survivors(ops, i) == Survivors(ops, k);
      }
    }
  }

  // ----- exactly when the survivors reach an equivalent state -----

  /** What a consumer of the final state can rely on after compaction. Only
      reference lists may lose entries, only dropped nodes may differ in their
      fields, and only the two run counters are free. */
  ghost predicate Equivalent(st: VmState, ct: VmState) {
    && |st.nodes| == |ct.nodes|
    && (forall k :: 0 <= k < |st.nodes| ==>
          && SameIdentity(st.nodes[k], ct.nodes[k])
          && Subsequence(ct.nodes[k].refs, st.nodes[k].refs)
          && (st.nodes[k].alive ==> st.nodes[k].fields == ct.nodes[k].fields))
    && st.names == ct.names && st.frames == ct.frames && st.freeList == ct.freeList
    && st.snapshots == ct.snapshots && st.meta == ct.meta
    && StatsSim(st.stats, ct.stats)
  }

  predicate WritesTo(op: Op, k: nat) {
    (op.SetField? && op.node == k) || (op.LinkRef? && op.src == k)
  }

  /** The fields a node starts with: none, if it does not exist yet. */
  function FieldsIn(nodes: seq<Node>, k: nat): map<U32, Value> {
    if k < |nodes| then nodes[k].fields else map[]
  }

  lemma {:induction false} LinkKeepsFields(st: VmState, owner: nat, children: seq<U32>, k: nat)
    requires st.Safe() && owner < |st.nodes|
    ensures FieldsIn(LinkChildren(st, owner, children).nodes, k) == FieldsIn(st.nodes, k)
    decreases |children|
  {
    if children != [] {
      LinkKeepsFields(LinkChild(st, owner, children[0]), owner, children[1..], k);
    }
  }

  lemma FramesOnly(env: Env, st: VmState, op: Op)
    requires st.Safe() && Step(env, st, op).Ok? && (op.BeginGroup? || op.AddChild?)
    ensures Step(env, st, op).value.nodes == st.nodes
  {
  }

  lemma StepWithoutWrites(env: Env, st: VmState, op: Op, k: nat)
    requires st.Safe() && Step(env, st, op).Ok? && !WritesTo(op, k)
    ensures FieldsIn(Step(env, st, op).value.nodes, k) == FieldsIn(st.nodes, k)
  {
    hide EdgesOf, MissingEdges, LinkChildren, AliveCount, Register, BeginGroupStep, AddChildStep;
    if op.BeginGroup? || op.AddChild? {
      FramesOnly(env, st, op);
    }
    if op.EndGroup? {
      var top := |st.frames| - 1;
      LinkKeepsFields(st.(frames := st.frames[..top]), st.frames[top].ownerId, st.frames[top].deferred, k);
    }
  }

  lemma {:induction false} RunWithoutWrites(env: Env, st: VmState, ops: seq<Op>, k: nat)
    requires st.Safe() && RunOps(env, st, ops).Ok?
    requires forall op :: op in ops ==> !WritesTo(op, k)
    ensures FieldsIn(RunOps(env, st, ops).value.nodes, k) == FieldsIn(st.nodes, k)
    decreases |ops|
  {
    hide Step;
    if ops != [] {
      StepWithoutWrites(env, st, ops[0], k);
      RunWithoutWrites(env, Step(env, st, ops[0]).value, ops[1..], k);
    }
  }

  /** No survivor writes to a node the compactor does not count as live. */
  lemma {:induction false} SurvivorsSpareUncounted(ops: seq<Op>, i: nat, k: nat)
    requires i <= |ops| && k !in LiveIds(ops, |ops|)
    ensures forall op :: op in Survivors(ops, i) ==> !WritesTo(op, k)
  {
    hide Pending, HasChild;
    if i > 0 {
      SurvivorsSpareUncounted(ops, i - 1, k);
    }
  }

  /** Every node that ends alive without the compactor counting it as live ends
      with the fields it started with. */
  ghost predicate UncountedUnchanged(ops: seq<Op>, start: seq<Node>, end: seq<Node>) {
    forall k :: 0 <= k < |end| && end[k].alive && k !in LiveIds(ops, |ops|) ==> end[k].fields == FieldsIn(start, k)
  }

  /** The ends of the two runs agree in everything but the fields of uncounted nodes. */
  lemma SimAtEnd(ops: seq<Op>, st: VmState, ct: VmState)
    requires Sim(ops, |ops|, st, ct) && st.frames == []
    ensures |st.nodes| == |ct.nodes|
    ensures forall k :: 0 <= k < |st.nodes| && k in LiveIds(ops, |ops|) ==> st.nodes[k].fields == ct.nodes[k].fields
    ensures Equivalent(st, ct) <==>
      forall k :: 0 <= k < |st.nodes| && st.nodes[k].alive ==> st.nodes[k].fields == ct.nodes[k].fields
  {
    hide Subsequence, LiveIds;
    forall k | 0 <= k < |st.nodes|
      ensures SameIdentity(st.nodes[k], ct.nodes[k]) && Subsequence(ct.nodes[k].refs, st.nodes[k].refs)
      ensures k in LiveIds(ops, |ops|) ==> st.nodes[k].fields == ct.nodes[k].fields
    {
      var a, b := st.nodes[k], ct.nodes[k];
      assert NodeSim(ops, |ops|, k, a, b);
      if k in LiveIds(ops, |ops|) {
        forall f: U32 ensures (f in a.fields <==> f in b.fields) && (f in a.fields ==> a.fields[f] == b.fields[f]) {
          assert FieldAgrees(a.fields, b.fields, f) || Pending(ops, |ops|, k, f);
        }
        assert a.fields == b.fields;
      }
    }
  }

  /** From any ready state, the survivors of any accepted journal are accepted,
      and they reach an equivalent state if and only if every node that ends
      alive without being counted as live ends with the fields it started with. */
  lemma EquivalentIff(env: Env, start: VmState, ops: seq<Op>)
    requires Ready(env, start) && start.Safe() && RunOps(env, start, ops).Ok?
    requires RunOps(env, start, ops).value.frames == []
    ensures RunOps(env, start, Compacted(ops)).Ok?
    ensures Equivalent(RunOps(env, start, ops).value, RunOps(env, start, Compacted(ops)).value)
      <==> UncountedUnchanged(ops, start.nodes, RunOps(env, start, ops).value.nodes)
  {
    hide RunOps, Sim, Inv, StateFrom, LiveIds, Equivalent;
    SimInvariant(env, start, ops, |ops|);
    StateFromEnds(env, start, ops);
    var end, again := RunOps(env, start, ops).value, RunOps(env, start, Compacted(ops)).value;
    SimAtEnd(ops, end, again);
    forall k | 0 <= k < |end.nodes| && k !in LiveIds(ops, |ops|) ensures again.nodes[k].fields == FieldsIn(start.nodes, k) {
      SurvivorsSpareUncounted(ops, |ops|, k);
      RunWithoutWrites(env, start, Compacted(ops), k);
    }
  }

  // ----- the compactor's numbering is the machine's -----

  lemma NumberingQuiet(ops: seq<Op>, i: nat, st: VmState)
    requires i < |ops| && !ops[i].NewNode? && !ops[i].DropNode?
    requires NumberingAgrees(ops, i, st)
    ensures NumberingAgrees(ops, i + 1, st)
  {
    assert Numbered(ops, i + 1) == Numbered(ops, i) && LiveIds(ops, i + 1) == LiveIds(ops, i);
  }

  lemma NumberingStep(env: Env, ops: seq<Op>, i: nat, st: VmState)
    requires i < |ops| && Inv(env.schema, st) && NumberingAgrees(ops, i, st)
    requires OpEffect(env, st, ops[i]).Ok?
    requires ops[i].NewNode? ==> st.stats.placeholders == 0
    ensures NumberingAgrees(ops, i + 1, OpEffect(env, st, ops[i]).value)
  {
    hide Inv, MissingEdges, EdgesOf, Numbered, LiveIds;
    InvSafe(env.schema, st);
    match ops[i] {
      case NewNode(kind, name) => NumberingNewNode(env, ops, i, st);
      case EndGroup =>
        NumberingQuiet(ops, i, st);
        var top := |st.frames| - 1;
        NumberingLink(ops, i + 1, st.(frames := st.frames[..top]), st.frames[top].ownerId, st.frames[top].deferred);
      case DropNode(_) => NumberingDrop(ops, i, st);
      case _ => NumberingQuiet(ops, i, st);
    }
  }

  lemma NumberingDrop(ops: seq<Op>, i: nat, st: VmState)
    requires i < |ops| && ops[i].DropNode? && st.Safe() && NumberingAgrees(ops, i, st)
    requires DropNodeStep(st, ops[i].dropped).Ok?
    ensures NumberingAgrees(ops, i + 1, DropNodeStep(st, ops[i].dropped).value)
  {
    assert LiveIds(ops, i + 1) == LiveIds(ops, i) - {ops[i].dropped};
  }

  lemma {:induction false} NoPlaceholders(nodes: seq<Node>)
    requires PlaceholderCount(nodes) == 0
    ensures forall k :: 0 <= k < |nodes| ==> !nodes[k].placeholder
    decreases |nodes|
  {
    if nodes != [] {
      NoPlaceholders(nodes[..|nodes| - 1]);
      assert forall k :: 0 <= k < |nodes| - 1 ==> nodes[..|nodes| - 1][k] == nodes[k];
    }
  }

  lemma NumberingNewNode(env: Env, ops: seq<Op>, i: nat, st: VmState)
    requires i < |ops| && ops[i].NewNode? && Inv(env.schema, st) && NumberingAgrees(ops, i, st)
    requires OpEffect(env, st, ops[i]).Ok? && st.stats.placeholders == 0
    ensures NumberingAgrees(ops, i + 1, OpEffect(env, st, ops[i]).value)
  {
    NoPlaceholders(st.nodes);
    hide Inv;
    assert |st.nodes| > 0 ==> !st.nodes[|st.nodes| - 1].placeholder;
    assert Numbered(ops, i) == |st.nodes|;
    NumberedNext(ops, i);
    NewNodeAdds(env, st, ops[i]);
    hide OpEffect, Numbered, LiveIds;
  }

  lemma NumberedNext(ops: seq<Op>, i: nat)
    requires i < |ops| && ops[i].NewNode?
    ensures Numbered(ops, i + 1) == Numbered(ops, i) + 1
    ensures LiveIds(ops, i + 1) == LiveIds(ops, i) + {Numbered(ops, i)}
  {
  }

  lemma NewNodeAdds(env: Env, st: VmState, op: Op)
    requires st.Safe() && op.NewNode? && OpEffect(env, st, op).Ok?
    ensures OpEffect(env, st, op).value.nodes == st.nodes + [FreshNode(|st.nodes|, op.kind, op.name)]
  {
  }

  lemma {:induction false} NumberingLink(ops: seq<Op>, i: nat, st: VmState, owner: nat, children: seq<U32>)
    requires i <= |ops| && st.Safe() && owner < |st.nodes|
    requires NumberingAgrees(ops, i, st)
    ensures NumberingAgrees(ops, i, LinkChildren(st, owner, children))
    decreases |children|
  {
    hide NumberingAgrees, LinkChild;
    if children != [] {
      NumberingLinkChild(ops, i, st, owner, children[0]);
      NumberingLink(ops, i, LinkChild(st, owner, children[0]), owner, children[1..]);
    }
  }

  lemma NumberingLinkChild(ops: seq<Op>, i: nat, st: VmState, owner: nat, child: U32)
    requires i <= |ops| && st.Safe() && owner < |st.nodes| && NumberingAgrees(ops, i, st)
    ensures NumberingAgrees(ops, i, LinkChild(st, owner, child))
  {
  }

  /** A run of a machine that starts empty. */
  function StateAt(env: Env, ops: seq<Op>, i: nat): (st: VmState)
    requires RunOps(env, EMPTY, ops).Ok? && i <= |ops|
    ensures st.Safe()
  {
    StateFrom(env, EMPTY, ops, i)
  }

  lemma StateAtStep(env: Env, ops: seq<Op>, i: nat)
    requires RunOps(env, EMPTY, ops).Ok? && i < |ops|
    ensures Step(env, StateAt(env, ops, i), ops[i]) == Ok(StateAt(env, ops, i + 1))
  {
    hide Step, RunOps, StateFrom;
    StateFromStep(env, EMPTY, ops, i);
  }

  lemma StateAtEnds(env: Env, ops: seq<Op>)
    requires RunOps(env, EMPTY, ops).Ok?
    ensures StateAt(env, ops, 0) == EMPTY
    ensures StateAt(env, ops, |ops|) == RunOps(env, EMPTY, ops).value
  {
    StateFromEnds(env, EMPTY, ops);
  }

  /** No NEW_NODE runs after a placeholder was materialised. */
  ghost predicate NodesBeforePlaceholders(env: Env, ops: seq<Op>)
    requires RunOps(env, EMPTY, ops).Ok?
  {
    forall i :: 0 <= i < |ops| && ops[i].NewNode? ==> StateAt(env, ops, i).stats.placeholders == 0
  }

  lemma {:induction false} NumberingInvariant(env: Env, ops: seq<Op>, i: nat)
    requires RunOps(env, EMPTY, ops).Ok? && i <= |ops| && env.schema.Fits()
    requires NodesBeforePlaceholders(env, ops)
    ensures NumberingAgrees(ops, i, StateAt(env, ops, i)) && Inv(env.schema, StateAt(env, ops, i))
  {
    hide StateAt, OpEffect, NumberingAgrees, Inv, RunOps;
    StateAtEnds(env, ops);
    if i == 0 {
      EmptyOk(env.schema);
      NumberingAtStart(ops);
    } else {
      NumberingInvariant(env, ops, i - 1);
      StateAtStep(env, ops, i - 1);
      var st := StateAt(env, ops, i - 1);
      StepKeeps(env, st, ops[i - 1]);
      NumberingStep(env, ops, i - 1, st);
      NumberingIgnoresTick(ops, i, OpEffect(env, st, ops[i - 1]).value);
    }
  }

  lemma NumberingAtStart(ops: seq<Op>)
    ensures NumberingAgrees(ops, 0, EMPTY)
  {
  }

  lemma NumberingIgnoresTick(ops: seq<Op>, i: nat, st: VmState)
    requires i <= |ops| && NumberingAgrees(ops, i, st)
    ensures NumberingAgrees(ops, i, Tick(st))
  {
  }

  /** Where the numberings agree, every live node is counted or a placeholder. */
  lemma NumberedUnchanged(env: Env, ops: seq<Op>, end: VmState)
    requires NumberingAgrees(ops, |ops|, end) && Inv(env.schema, end)
    ensures UncountedUnchanged(ops, [], end.nodes)
  {
    forall k | 0 <= k < |end.nodes| && end.nodes[k].alive && k !in LiveIds(ops, |ops|)
      ensures end.nodes[k].fields == map[]
    {
      assert NodeOk(env.schema, |end.nodes|, k, end.nodes[k]);
    }
  }}
