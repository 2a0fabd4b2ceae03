/** What every reachable state of the replay machine satisfies: ids are
    positional, fields are typed by the schema, edges stay in range, the name
    index is exact, and the counters add up. */
module VmInvariants {
  import opened Basics
  import opened Codec
  import opened Model
  import opened ReplayVm
  import opened Journal

  // ----- well-typed nodes -----

  ghost predicate FieldsTyped(schema: Schema, kind: nat, fields: map<U32, Value>) {
    forall f :: f in fields ==> schema.FieldType(kind, f) != TInvalid && fields[f].Type() == schema.FieldType(kind, f)
  }

  ghost predicate AllBelow(ids: seq<nat>, size: nat) {
    forall j :: 0 <= j < |ids| ==> ids[j] < size
  }

  /** A node of a table of the given size, in slot k. */
  ghost predicate NodeOk(schema: Schema, size: nat, k: nat, n: Node) {
    && n.id == k
    && (if n.placeholder then n.kind == INVALID_KIND && n.fields == map[] else schema.HasKind(n.kind))
    && FieldsTyped(schema, n.kind, n.fields)
    && AllBelow(n.refs, size)
    && AllBelow(n.children, size)
    && n.generation == (if n.alive then 0 else 1)
  }

  ghost predicate NodesOk(schema: Schema, nodes: seq<Node>) {
    forall k :: 0 <= k < |nodes| ==> NodeOk(schema, |nodes|, k, nodes[k])
  }

  // ----- the exact name index -----

  /** Slot k holds the highest-numbered node bearing the name. */
  ghost predicate IsNewest(nodes: seq<Node>, name: U32, k: nat) {
    && k < |nodes|
    && nodes[k].name == name
    && forall j :: k < j < |nodes| ==> nodes[j].name != name
  }

  /** A name is mapped if and only if its newest bearer is alive, and then to
      that bearer; the anonymous name is never mapped. */
  ghost predicate NamesExact(nodes: seq<Node>, names: map<U32, nat>) {
    && (forall a :: a in names ==> a != INVALID_ATOM && IsNewest(nodes, a, names[a]) && nodes[names[a]].alive)
    && (forall k | 0 <= k < |nodes| && nodes[k].alive && IsNewest(nodes, nodes[k].name, k) ::
          nodes[k].name == INVALID_ATOM || nodes[k].name in names)
  }

  // ----- counters -----

  function PlaceholderCount(nodes: seq<Node>): nat {
    if nodes == [] then 0
    else PlaceholderCount(nodes[..|nodes| - 1]) + if nodes[|nodes| - 1].placeholder then 1 else 0
  }

  function ChildTotal(nodes: seq<Node>): nat {
    if nodes == [] then 0
    else ChildTotal(nodes[..|nodes| - 1]) + |nodes[|nodes| - 1].children|
  }

  function DeferredTotal(frames: seq<Frame>): nat {
    if frames == [] then 0
    else DeferredTotal(frames[..|frames| - 1]) + |frames[|frames| - 1].deferred|
  }

  ghost predicate NoDuplicates(ids: seq<nat>) {
    forall i, j :: 0 <= i < j < |ids| ==> ids[i] != ids[j]
  }

  /** The free list names each dead slot once. */
  ghost predicate FreeListExact(nodes: seq<Node>, freeList: seq<nat>) {
    && NoDuplicates(freeList)
    && (forall k: nat :: k in freeList <==> k < |nodes| && !nodes[k].alive)
  }

  ghost predicate SnapshotsOk(nodes: seq<Node>, snaps: seq<Snap>) {
    && (forall i :: 0 <= i < |snaps| ==> snaps[i].aliveCount <= snaps[i].nodeCount <= |nodes|)
    && (forall i, j :: 0 <= i < j < |snaps| ==> snaps[i].nodeCount <= snaps[j].nodeCount)
  }

  ghost predicate CountersOk(st: VmState) {
    && st.stats.nodesCreated + st.stats.placeholders == |st.nodes|
    && st.stats.placeholders == PlaceholderCount(st.nodes)
    && st.stats.nodesDropped == |st.freeList|
    && AliveCount(st.nodes) + st.stats.nodesDropped == |st.nodes|
    && FreeListExact(st.nodes, st.freeList)
    && st.stats.childrenLinked == ChildTotal(st.nodes)
    && st.stats.snapshots == |st.snapshots|
    && SnapshotsOk(st.nodes, st.snapshots)
  }

  /** The invariant of every run. */
  ghost predicate Inv(schema: Schema, st: VmState) {
    && st.Safe()
    && NodesOk(schema, st.nodes)
    && NamesExact(st.nodes, st.names)
    && CountersOk(st)
  }

  // ----- two ways a table changes -----

  lemma RegisterKeepsExact(nodes: seq<Node>, names: map<U32, nat>, n: Node)
    requires NamesExact(nodes, names) && n.alive
    ensures NamesExact(nodes + [n], Register(names, n.name, |nodes|))
  {
    var nodes', names' := nodes + [n], Register(names, n.name, |nodes|);
    forall a | a in names'
      ensures a != INVALID_ATOM && IsNewest(nodes', a, names'[a]) && nodes'[names'[a]].alive
    {
      if a != n.name {
        assert IsNewest(nodes, a, names[a]);
      }
    }
    forall k | 0 <= k < |nodes'| && nodes'[k].alive && IsNewest(nodes', nodes'[k].name, k)
      ensures nodes'[k].name == INVALID_ATOM || nodes'[k].name in names'
    {
      if k < |nodes| {
        assert nodes'[|nodes|].name != nodes'[k].name;
        assert forall j :: k < j < |nodes| ==> nodes[j] == nodes'[j];
        assert IsNewest(nodes, nodes[k].name, k);
      }
    }
  }

  /** Append a live node with no edges; its name now leads to it. */
  lemma AppendNode(schema: Schema, st: VmState, n: Node)
    requires Inv(schema, st)
    requires NodeOk(schema, |st.nodes| + 1, |st.nodes|, n)
    requires n.alive && n.children == []
    ensures var nodes' := st.nodes + [n];
      && NodesOk(schema, nodes')
      && NamesExact(nodes', Register(st.names, n.name, |st.nodes|))
      && PlaceholderCount(nodes') == PlaceholderCount(st.nodes) + (if n.placeholder then 1 else 0)
      && AliveCount(nodes') == AliveCount(st.nodes) + 1
      && ChildTotal(nodes') == ChildTotal(st.nodes)
      && FreeListExact(nodes', st.freeList)
      && SnapshotsOk(nodes', st.snapshots)
  {
    var nodes' := st.nodes + [n];
    assert nodes'[..|st.nodes|] == st.nodes;
    RegisterKeepsExact(st.nodes, st.names, n);
    forall k | 0 <= k < |nodes'| ensures NodeOk(schema, |nodes'|, k, nodes'[k]) {
      if k < |st.nodes| {
        assert NodeOk(schema, |st.nodes|, k, st.nodes[k]);
      }
    }
  }

  lemma {:induction false} CountsAfterUpdate(nodes: seq<Node>, k: nat, n: Node)
    requires k < |nodes| && n.placeholder == nodes[k].placeholder
    ensures PlaceholderCount(nodes[k := n]) == PlaceholderCount(nodes)
    ensures ChildTotal(nodes[k := n]) == ChildTotal(nodes) - |nodes[k].children| + |n.children|
    ensures AliveCount(nodes[k := n]) == AliveCount(nodes) - (if nodes[k].alive then 1 else 0) + (if n.alive then 1 else 0)
    decreases |nodes|
  {
    var nodes' := nodes[k := n];
    var m := |nodes| - 1;
    if k == m {
      assert nodes'[..m] == nodes[..m];
    } else {
      assert nodes'[..m] == nodes[..m][k := n];
      CountsAfterUpdate(nodes[..m], k, n);
    }
  }

  /** Rewrite one node without touching its identity, name or liveness. */
  lemma UpdateNode(schema: Schema, st: VmState, k: nat, n: Node)
    requires Inv(schema, st) && k < |st.nodes|
    requires NodeOk(schema, |st.nodes|, k, n)
    requires n.placeholder == st.nodes[k].placeholder && n.name == st.nodes[k].name && n.alive == st.nodes[k].alive
    ensures var nodes' := st.nodes[k := n];
      && NodesOk(schema, nodes')
      && NamesExact(nodes', st.names)
      && PlaceholderCount(nodes') == PlaceholderCount(st.nodes)
      && AliveCount(nodes') == AliveCount(st.nodes)
      && ChildTotal(nodes') == ChildTotal(st.nodes) - |st.nodes[k].children| + |n.children|
      && FreeListExact(nodes', st.freeList)
      && SnapshotsOk(nodes', st.snapshots)
  {
    CountsAfterUpdate(st.nodes, k, n);
    var nodes' := st.nodes[k := n];
    assert forall j :: 0 <= j < |nodes'| ==> nodes'[j].name == st.nodes[j].name && nodes'[j].alive == st.nodes[j].alive;
    forall a | a in st.names ensures IsNewest(nodes', a, st.names[a]) && nodes'[st.names[a]].alive {
      assert IsNewest(st.nodes, a, st.names[a]);
    }
    forall j | 0 <= j < |nodes'| && nodes'[j].alive && nodes'[j].name != INVALID_ATOM && IsNewest(nodes', nodes'[j].name, j)
      ensures nodes'[j].name in st.names
    {
      assert IsNewest(st.nodes, st.nodes[j].name, j);
    }
  }

  // ----- each operation keeps the invariant -----

  lemma NewNodeKeeps(env: Env, st: VmState, kind: U32, name: U32)
    requires Inv(env.schema, st) && NewNodeStep(env, st, kind, name).Ok?
    ensures Inv(env.schema, NewNodeStep(env, st, kind, name).value)
  {
    AppendNode(env.schema, st, FreshNode(|st.nodes|, kind, name));
  }

  lemma SetFieldKeeps(env: Env, st: VmState, node: nat, field: U32, v: Value)
    requires Inv(env.schema, st) && node < |st.nodes| && SetFieldStep(st, node, field, v).Ok?
    requires v.Type() == env.schema.FieldType(st.nodes[node].kind, field) != TInvalid
    requires env.schema.Fits()
    ensures Inv(env.schema, SetFieldStep(st, node, field, v).value)
  {
    var n := st.nodes[node];
    var n' := n.(refs := n.refs + EdgesOf(v, |st.nodes|), fields := n.fields[field := v]);
    assert NodeOk(env.schema, |st.nodes|, node, n);
    UpdateNode(env.schema, st, node, n');
  }

  lemma LinkRefKeeps(env: Env, st: VmState, src: U32, field: U32, target: U32)
    requires Inv(env.schema, st) && LinkRefStep(env, st, src, field, target).Ok?
    requires env.schema.Fits()
    ensures Inv(env.schema, LinkRefStep(env, st, src, field, target).value)
  {
    if st.Find(target).Some? {
      var n, id := st.nodes[src], st.names[target];
      assert NodeOk(env.schema, |st.nodes|, src, n);
      UpdateNode(env.schema, st, src, n.(fields := n.fields[field := RefV(id % TWO32)], refs := n.refs + [id]));
    }
  }

  lemma SameNewest(nodes: seq<Node>, nodes': seq<Node>, name: U32, k: nat)
    requires |nodes'| == |nodes| && forall j :: 0 <= j < |nodes| ==> nodes'[j].name == nodes[j].name
    ensures IsNewest(nodes', name, k) <==> IsNewest(nodes, name, k)
  {
  }

  lemma OnlyNewest(nodes: seq<Node>, name: U32, j: nat, k: nat)
    requires IsNewest(nodes, name, j) && IsNewest(nodes, name, k)
    ensures j == k && k < |nodes| && nodes[k].name == name
  {
  }

  lemma DropKeepsNames(nodes: seq<Node>, names: map<U32, nat>, k: nat)
    requires NamesExact(nodes, names) && k < |nodes| && nodes[k].alive
    ensures var n := nodes[k];
      var owned := n.name != INVALID_ATOM && n.name in names && names[n.name] == k;
      NamesExact(nodes[k := n.(alive := false, generation := n.generation + 1)], if owned then names - {n.name} else names)
  {
    hide IsNewest;
    var n := nodes[k];
    var nodes' := nodes[k := n.(alive := false, generation := n.generation + 1)];
    var owned := n.name != INVALID_ATOM && n.name in names && names[n.name] == k;
    var names' := if owned then names - {n.name} else names;
    forall a | a in names ensures names[a] < |nodes| && nodes[names[a]].name == a {
      OnlyNewest(nodes, a, names[a], names[a]);
    }
    forall a | a in names' ensures a != INVALID_ATOM && IsNewest(nodes', a, names'[a]) && nodes'[names'[a]].alive {
      SameNewest(nodes, nodes', a, names[a]);
    }
    forall j | 0 <= j < |nodes'| && nodes'[j].alive && IsNewest(nodes', nodes'[j].name, j)
      ensures nodes'[j].name == INVALID_ATOM || nodes'[j].name in names'
    {
      var name := nodes[j].name;
      SameNewest(nodes, nodes', name, j);
      if name != INVALID_ATOM {
        OnlyNewest(nodes, name, j, names[name]);
      }
    }
  }

  lemma DropKeepsFreeList(nodes: seq<Node>, freeList: seq<nat>, k: nat, n: Node)
    requires FreeListExact(nodes, freeList) && k < |nodes| && nodes[k].alive && !n.alive
    ensures FreeListExact(nodes[k := n], freeList + [k])
  {
    var grown := freeList + [k];
    assert grown[|freeList|] == k;
    assert forall j: nat :: j in grown <==> j in freeList || j == k;
  }

  lemma DropNodeKeeps(env: Env, st: VmState, node: U32)
    requires Inv(env.schema, st) && DropNodeStep(st, node).Ok?
    ensures Inv(env.schema, DropNodeStep(st, node).value)
  {
    hide NamesExact, FreeListExact, NodeOk;
    if st.nodes[node].alive {
      var n := st.nodes[node];
      var n' := n.(alive := false, generation := n.generation + 1);
      CountsAfterUpdate(st.nodes, node, n');
      DropKeepsNames(st.nodes, st.names, node);
      DropKeepsFreeList(st.nodes, st.freeList, node, n');
      DropKeepsNode(env.schema, st.nodes, node);
    }
  }

  lemma DropKeepsNode(schema: Schema, nodes: seq<Node>, k: nat)
    requires NodesOk(schema, nodes) && k < |nodes| && nodes[k].alive
    ensures NodeOk(schema, |nodes|, k, nodes[k].(alive := false, generation := nodes[k].generation + 1))
  {
    assert NodeOk(schema, |nodes|, k, nodes[k]);
  }

  lemma MaterializeKeeps(schema: Schema, st: VmState, name: U32)
    requires Inv(schema, st)
    ensures Inv(schema, Materialize(st, name))
  {
    AppendNode(schema, st, FreshNode(|st.nodes|, INVALID_KIND, name).(placeholder := true));
  }

  lemma WireKeeps(schema: Schema, st: VmState, owner: nat, target: nat)
    requires Inv(schema, st) && owner < |st.nodes| && target < |st.nodes|
    ensures Inv(schema, st.(nodes := Wire(st.nodes, owner, target),
                            stats := st.stats.(childrenLinked := st.stats.childrenLinked + 1)))
  {
    hide NodesOk, NamesExact, FreeListExact, SnapshotsOk, AliveCount, ChildTotal, PlaceholderCount;
    var n := st.nodes[owner];
    var n' := n.(children := n.children + [target]);
    NodeAt(schema, st.nodes, owner);
    UpdateNode(schema, st, owner, n');
    var st1 := st.(nodes := st.nodes[owner := n'], stats := st.stats.(childrenLinked := st.stats.childrenLinked + 1));
    assert Inv(schema, st1);
    var t := st1.nodes[target];
    NodeAt(schema, st1.nodes, target);
    UpdateNode(schema, st1, target, t.(refs := t.refs + [owner]));
  }

  lemma NodeAt(schema: Schema, nodes: seq<Node>, k: nat)
    requires NodesOk(schema, nodes) && k < |nodes|
    ensures NodeOk(schema, |nodes|, k, nodes[k])
  {
  }

  lemma LinkChildKeeps(schema: Schema, st: VmState, owner: nat, child: U32)
    requires Inv(schema, st) && owner < |st.nodes|
    ensures Inv(schema, LinkChild(st, owner, child))
  {
    hide Inv;
    InvSafe(schema, st);
    match st.Find(child)
    case None =>
      MaterializeKeeps(schema, st, child);
      WireKeeps(schema, Materialize(st, child), owner, |st.nodes|);
    case Some(id) =>
      assert id < |st.nodes|;
      WireKeeps(schema, st, owner, id);
  }

  lemma {:induction false} LinkChildrenKeeps(schema: Schema, st: VmState, owner: nat, children: seq<U32>)
    requires Inv(schema, st) && owner < |st.nodes|
    ensures Inv(schema, LinkChildren(st, owner, children))
    decreases |children|
  {
    hide Inv, LinkChild;
    if children != [] {
      assert st.Safe() by { InvSafe(schema, st); }
      LinkChildKeeps(schema, st, owner, children[0]);
      LinkChildrenKeeps(schema, LinkChild(st, owner, children[0]), owner, children[1..]);
    }
  }

  lemma InvSafe(schema: Schema, st: VmState)
    requires Inv(schema, st)
    ensures st.Safe()
  {
  }

  lemma EndGroupKeeps(schema: Schema, st: VmState)
    requires Inv(schema, st) && EndGroupStep(st).Ok?
    ensures Inv(schema, EndGroupStep(st).value)
  {
    var top := |st.frames| - 1;
    LinkChildrenKeeps(schema, st.(frames := st.frames[..top]), st.frames[top].ownerId, st.frames[top].deferred);
  }

  lemma {:induction false} AliveAtMostAll(nodes: seq<Node>)
    ensures AliveCount(nodes) <= |nodes|
    decreases |nodes|
  {
    if nodes != [] {
      AliveAtMostAll(nodes[..|nodes| - 1]);
    }
  }

  lemma SnapshotKeeps(env: Env, st: VmState, tag: U32)
    requires Inv(env.schema, st) && SnapshotStep(env, st, tag).Ok?
    ensures Inv(env.schema, SnapshotStep(env, st, tag).value)
  {
    AliveAtMostAll(st.nodes);
  }

  /** Every operation keeps the invariant. */
  lemma StepKeeps(env: Env, st: VmState, op: Op)
    requires Inv(env.schema, st) && env.schema.Fits() && Step(env, st, op).Ok?
    ensures Inv(env.schema, Step(env, st, op).value)
  {
    EffectKeeps(env, st, op);
  }

  lemma EffectKeeps(env: Env, st: VmState, op: Op)
    requires Inv(env.schema, st) && env.schema.Fits() && OpEffect(env, st, op).Ok?
    ensures Inv(env.schema, OpEffect(env, st, op).value)
  {
    hide NewNodeStep, SetFieldStep, EndGroupStep, LinkRefStep, DropNodeStep, SnapshotStep;
    match op
    case NewNode(kind, name) => NewNodeKeeps(env, st, kind, name);
    case SetField(node, field, value) => SetFieldKeeps(env, st, node, field, value);
    case BeginGroup(_, _) =>
    case EndGroup => EndGroupKeeps(env.schema, st);
    case AddChild(_) =>
    case LinkRef(src, field, target) => LinkRefKeeps(env, st, src, field, target);
    case DropNode(node) => DropNodeKeeps(env, st, node);
    case Snapshot(tag) => SnapshotKeeps(env, st, tag);
    case SetMeta(_, _) =>
    case Nop =>
  }

  /** ... and so does every run, over any operations. */
  lemma {:induction false} RunKeeps(env: Env, st: VmState, ops: seq<Op>)
    requires Inv(env.schema, st) && env.schema.Fits() && RunOps(env, st, ops).Ok?
    ensures Inv(env.schema, RunOps(env, st, ops).value)
    decreases |ops|
  {
    hide Step;
    if ops != [] {
      StepKeeps(env, st, ops[0]);
      RunKeeps(env, Step(env, st, ops[0]).value, ops[1..]);
    }
  }

  /** Every state along a run satisfies the invariant. */
  lemma StateFromInv(env: Env, st: VmState, ops: seq<Op>, i: nat)
    requires Inv(env.schema, st) && env.schema.Fits() && RunOps(env, st, ops).Ok? && i <= |ops|
    ensures Inv(env.schema, StateFrom(env, st, ops, i))
  {
    hide Inv, Step;
    InvSafe(env.schema, st);
    RunOpsPrefix(env, st, ops, i);
    RunKeeps(env, st, ops[..i]);
  }

  /** ... and so does replaying any byte string the machine accepts. */
  lemma ReplayKeeps(env: Env, st: VmState, s: seq<Byte>)
    requires Inv(env.schema, st) && env.schema.Fits() && RunBytes(env, st, s).Ok?
    ensures Inv(env.schema, RunBytes(env, st, s).value.0)
  {
    hide ReadVarintU32, ExecMany, RunOps;
    var (count, s1) := ReadVarintU32(s).value;
    ExecManyIsRunOps(env, st, s1, count);
    RunKeeps(env, st, OpsRun(env, st, s1, count));
  }

  // ----- the initial states -----

  /** What the heap decoder produces: live, typed, edge-free nodes in order. */
  ghost predicate HeapOk(schema: Schema, heap: seq<Node>) {
    && NodesOk(schema, heap)
    && forall k :: 0 <= k < |heap| ==>
         heap[k].alive && !heap[k].placeholder && heap[k].children == [] && heap[k].refs == []
  }

  lemma {:induction false} NamesOfExact(schema: Schema, heap: seq<Node>)
    requires Positional(heap)
    requires forall k :: 0 <= k < |heap| ==> heap[k].alive && !heap[k].placeholder && heap[k].children == []
    ensures NamesExact(heap, NamesOf(heap))
    ensures PlaceholderCount(heap) == 0 && ChildTotal(heap) == 0 && AliveCount(heap) == |heap|
    decreases |heap|
  {
    if heap != [] {
      var m := |heap| - 1;
      NamesOfExact(schema, heap[..m]);
      RegisterKeepsExact(heap[..m], NamesOf(heap[..m]), heap[m]);
      assert heap[..m] + [heap[m]] == heap;
    }
  }

  /** A machine seeded with a decoded heap satisfies the invariant. */
  lemma SeededOk(schema: Schema, heap: seq<Node>)
    requires HeapOk(schema, heap)
    ensures Positional(heap) && Inv(schema, Seeded(heap))
  {
    forall k | 0 <= k < |heap| ensures heap[k].id == k {
      assert NodeOk(schema, |heap|, k, heap[k]);
    }
    NamesOfExact(schema, heap);
  }

  lemma EmptyOk(schema: Schema)
    ensures Inv(schema, EMPTY)
  {
  }

  // ----- consequences -----

  /** Looking a name up answers the newest bearer, and only while it lives. */
  lemma FindIsNewestAlive(schema: Schema, st: VmState, name: U32)
    requires Inv(schema, st)
    ensures st.Find(name).Some? <==>
      name != INVALID_ATOM && exists k: nat :: IsNewest(st.nodes, name, k) && st.nodes[k].alive
    ensures st.Find(name).Some? ==> IsNewest(st.nodes, name, st.Find(name).value)
  {
    if name != INVALID_ATOM && exists k: nat :: IsNewest(st.nodes, name, k) && st.nodes[k].alive {
      var k: nat :| IsNewest(st.nodes, name, k) && st.nodes[k].alive;
      assert st.nodes[k].name in st.names;
    }
    if name in st.names {
      assert IsNewest(st.nodes, name, st.names[name]) && st.nodes[st.names[name]].alive;
    }
  }

  /** The "owner dropped" error of BEGIN_GROUP is unreachable. */
  lemma OwnerIsNeverDropped(env: Env, st: VmState, owner: U32)
    requires Inv(env.schema, st)
    ensures BeginGroupStep(env, st, owner) != Err(InvariantViolation)
    ensures BeginGroupStep(env, st, owner).Ok? <==>
      |st.frames| < env.lim.maxGroupDepth && owner != INVALID_ATOM
      && exists k: nat :: IsNewest(st.nodes, owner, k) && st.nodes[k].alive
  {
    FindIsNewestAlive(env.schema, st, owner);
  }

  // ----- ids fit in 32 bits -----

  ghost predicate Budget(base: nat, st: VmState) {
    |st.nodes| + DeferredTotal(st.frames) <= base + st.stats.opsExecuted
  }

  lemma {:induction false} LinkChildrenGrowth(st: VmState, owner: nat, children: seq<U32>)
    requires st.Safe() && owner < |st.nodes|
    ensures |st.nodes| <= |LinkChildren(st, owner, children).nodes| <= |st.nodes| + |children|
    ensures LinkChildren(st, owner, children).stats.opsExecuted == st.stats.opsExecuted
    decreases |children|
  {
    if children != [] {
      LinkChildrenGrowth(LinkChild(st, owner, children[0]), owner, children[1..]);
    }
  }

  lemma StepBudget(env: Env, base: nat, st: VmState, op: Op)
    requires st.Safe() && Budget(base, st) && Step(env, st, op).Ok?
    ensures Budget(base, Step(env, st, op).value)
    ensures Step(env, st, op).value.stats.opsExecuted == st.stats.opsExecuted + 1
  {
    hide EdgesOf, MissingEdges, LinkChildren, Inv, AliveCount;
    var top := |st.frames| - 1;
    match op {
      case BeginGroup(_, _) =>
        assert OpEffect(env, st, op).value.frames[..|st.frames|] == st.frames;
      case AddChild(child) =>
        assert OpEffect(env, st, op).value.frames[..top] == st.frames[..top];
      case EndGroup =>
        LinkChildrenGrowth(st.(frames := st.frames[..top]), st.frames[top].ownerId, st.frames[top].deferred);
      case _ =>
    }
  }

  lemma {:induction false} RunBudget(env: Env, base: nat, st: VmState, ops: seq<Op>)
    requires st.Safe() && Budget(base, st) && RunOps(env, st, ops).Ok?
    ensures Budget(base, RunOps(env, st, ops).value)
    ensures RunOps(env, st, ops).value.stats.opsExecuted == st.stats.opsExecuted + |ops|
    decreases |ops|
  {
    hide Step, Budget;
    if ops != [] {
      StepBudget(env, base, st, ops[0]);
      RunBudget(env, base, Step(env, st, ops[0]).value, ops[1..]);
    }
  }

  /** From a heap within the stock node limit, a journal within the stock
      operation limit never builds a table whose ids outgrow 32 bits, so the
      id cast never truncates and no id equals the "no node" sentinel. */
  lemma IdsFitIn32Bits(env: Env, heap: seq<Node>, s: seq<Byte>)
    requires HeapOk(env.schema, heap) && Positional(heap)
    requires |heap| <= DEFAULT_LIMITS.maxNodes && env.lim.maxJournalOps <= DEFAULT_LIMITS.maxJournalOps
    requires RunBytes(env, Seeded(heap), s).Ok?
    ensures |RunBytes(env, Seeded(heap), s).value.0.nodes| < INVALID_NODE
  {
    hide ReadVarintU32, ExecMany, RunOps;
    var (count, s1) := ReadVarintU32(s).value;
    ExecManyIsRunOps(env, Seeded(heap), s1, count);
    RunBudget(env, |heap|, Seeded(heap), OpsRun(env, Seeded(heap), s1, count));
  }
}
