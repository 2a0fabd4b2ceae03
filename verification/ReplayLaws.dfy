/** What each journal operation does to a reachable state, told by names and
    their living bearers: when it is accepted, with which code it is refused,
    what it changes, and that it changes nothing else. */
module ReplayLaws {
  import opened Basics
  import opened Codec
  import opened Model
  import opened ReplayVm
  import opened VmInvariants

  /** Node k is what the name stands for: its newest bearer, and alive. */
  ghost predicate Bears(st: VmState, name: U32, k: nat) {
    name != INVALID_ATOM && IsNewest(st.nodes, name, k) && st.nodes[k].alive
  }

  ghost predicate Borne(st: VmState, name: U32) {
    exists k: nat :: Bears(st, name, k)
  }

  lemma FindIsBearer(schema: Schema, st: VmState, name: U32)
    requires Inv(schema, st)
    ensures st.Find(name).Some? <==> Borne(st, name)
    ensures forall k: nat :: st.Find(name) == Some(k) <==> Bears(st, name, k)
  {
    hide NamesExact, CountersOk, NodesOk;
    FindIsNewestAlive(schema, st, name);
    forall k: nat ensures st.Find(name) == Some(k) <==> Bears(st, name, k) {
      if st.Find(name) == Some(k) {
        BearerLives(schema, st, name, k);
      }
      if Bears(st, name, k) {
        var found := st.Find(name).value;
        assert IsNewest(st.nodes, name, found);
      }
    }
    if st.Find(name).Some? {
      assert Bears(st, name, st.Find(name).value);
    }
  }

  lemma BearerLives(schema: Schema, st: VmState, name: U32, k: nat)
    requires Inv(schema, st) && st.Find(name) == Some(k)
    ensures Bears(st, name, k)
  {
  }

  /** One more operation counted, and nothing else. */
  function Counted(st: VmState): VmState {
    st.(stats := st.stats.(opsExecuted := st.stats.opsExecuted + 1))
  }

  /** The table with one node changed. */
  function With(st: VmState, k: nat, n: Node): VmState
    requires k < |st.nodes|
  {
    st.(nodes := st.nodes[k := n])
  }

  // ----- nodes -----

  /** NEW_NODE: a declared kind, a known or no name and room in the table; the
      new node is live, empty and last, and its name now stands for it. */
  lemma NewNodeLaw(env: Env, st: VmState, kind: U32, name: U32)
    requires Inv(env.schema, st)
    ensures var r := Step(env, st, NewNode(kind, name));
      && (kind >= |env.schema.kinds| ==> r == Err(KindOutOfRange))
      && (kind < |env.schema.kinds| && name != INVALID_ATOM && name >= env.atomCount ==> r == Err(AtomOutOfRange))
      && (kind < |env.schema.kinds| && (name == INVALID_ATOM || name < env.atomCount) ==>
            if |st.nodes| >= env.lim.maxNodes then r == Err(LimitExceeded)
            else
              && r.Ok?
              && var after, id := r.value, |st.nodes|;
                 && after.nodes == st.nodes + [Node(id, kind, name, true, false, 0, map[], [], [])]
                 && (name != INVALID_ATOM ==> Bears(after, name, id) && after.Find(name) == Some(id))
                 && (forall other: U32 :: other != name || name == INVALID_ATOM ==> after.Find(other) == st.Find(other))
                 && after == Counted(st).(nodes := after.nodes, names := after.names,
                                          stats := Counted(st).stats.(nodesCreated := st.stats.nodesCreated + 1)))
  {
  }

  /** DROP_NODE: a live node dies, its generation moves on, its slot is freed,
      and its name stands for nothing if it stood for the node; a dead one is
      left alone; no other name is affected. */
  lemma DropNodeLaw(env: Env, st: VmState, k: U32)
    requires Inv(env.schema, st)
    ensures var r := Step(env, st, DropNode(k));
      && (k >= |st.nodes| ==> r == Err(NodeOutOfRange))
      && (k < |st.nodes| && !st.nodes[k].alive ==> r == Ok(Counted(st)))
      && (k < |st.nodes| && st.nodes[k].alive ==>
            && r.Ok?
            && var after, n := r.value, st.nodes[k];
               && after.nodes == st.nodes[k := n.(alive := false, generation := n.generation + 1)]
               && (forall name: U32 :: !Bears(st, name, k) ==> after.Find(name) == st.Find(name))
               && (forall name: U32 :: Bears(st, name, k) ==> after.Find(name) == None)
               && after == Counted(st).(nodes := after.nodes, names := after.names, freeList := st.freeList + [k],
                                        stats := Counted(st).stats.(nodesDropped := st.stats.nodesDropped + 1)))
  {
    hide CountersOk;
    if k < |st.nodes| && st.nodes[k].alive {
      var name := st.nodes[k].name;
      FindIsBearer(env.schema, st, name);
      forall other: U32 | Bears(st, other, k) ensures other == name {
      }
      hide Inv, Bears;
      var after := Step(env, st, DropNode(k)).value;
      forall other: U32 ensures after.Find(other) == if other == name && st.Find(name) == Some(k as nat) then None else st.Find(other) {
      }
    }
  }

  // ----- values and edges -----

  /** Whether a node id found in a value is recorded as an edge. */
  predicate Known(t: nat, size: nat) {
    t < size && t != INVALID_NODE
  }

  /** The edges are the known targets of the value, in order, and each of the
      others counts as unresolved. */
  ghost predicate EdgesMean(v: Value, size: nat, edges: seq<nat>, missing: nat) {
    match v
    case RefV(t) => if Known(t, size) then edges == [t] && missing == 0 else edges == [] && missing == 1
    case ListV(items) =>
      && (exists ps: seq<nat> :: Selects(items, size, ps, edges))
      && |edges| + missing == |items|
    case _ => edges == [] && missing == 0
  }

  /** The list's elements at the ascending positions ps, which are those below the size. */
  ghost predicate Selects(items: seq<U32>, size: nat, ps: seq<nat>, edges: seq<nat>) {
    && |ps| == |edges|
    && (forall a, b :: 0 <= a < b < |ps| ==> ps[a] < ps[b])
    && (forall p: nat :: p in ps <==> p < |items| && items[p] < size)
    && forall k :: 0 <= k < |ps| && ps[k] < |items| ==> edges[k] == items[ps[k]]
  }

  lemma {:induction false} InRangeLast(items: seq<U32>, x: U32, size: nat)
    ensures InRange(items + [x], size) == if x < size then InRange(items, size) + [x] else InRange(items, size)
  {
    if items == [] {
      assert ([] + [x])[1..] == [];
    } else {
      assert (items + [x])[1..] == items[1..] + [x];
      InRangeLast(items[1..], x, size);
    }
  }

  lemma SelectsNext(items: seq<U32>, x: U32, size: nat, ps: seq<nat>, edges: seq<nat>)
    requires Selects(items, size, ps, edges)
    ensures x >= size ==> Selects(items + [x], size, ps, edges)
    ensures x < size ==> Selects(items + [x], size, ps + [|items|], edges + [x])
  {
    assert forall k :: 0 <= k < |ps| ==> ps[k] in ps;
  }

  lemma {:induction false} InRangeSelects(items: seq<U32>, size: nat) returns (ps: seq<nat>)
    ensures Selects(items, size, ps, InRange(items, size))
    decreases |items|
  {
    if items == [] {
      ps := [];
    } else {
      hide InRange, Selects;
      var m := |items| - 1;
      var front := InRangeSelects(items[..m], size);
      InRangeLast(items[..m], items[m], size);
      SelectsNext(items[..m], items[m], size, front, InRange(items[..m], size));
      assert items[..m] + [items[m]] == items;
      ps := if items[m] < size then front + [m] else front;
    }
  }

  lemma EdgesLaw(v: Value, size: nat)
    ensures EdgesMean(v, size, EdgesOf(v, size), MissingEdges(v, size))
  {
    if v.ListV? {
      var ps := InRangeSelects(v.items, size);
    }
  }

  /** The state with a value and its edges stored. */
  function Stored(st: VmState, k: nat, f: U32, v: Value, edges: seq<nat>, missing: nat): VmState
    requires k < |st.nodes|
  {
    var n := st.nodes[k];
    With(st, k, n.(fields := n.fields[f := v], refs := n.refs + edges)).(
      stats := st.stats.(unresolvedRefs := (st.stats.unresolvedRefs + missing) % TWO32))
  }

  lemma StoreLaw(st: VmState, k: nat, f: U32, v: Value)
    requires st.Safe() && k < |st.nodes|
    ensures SetFieldStep(st, k, f, v) ==
      if !st.nodes[k].alive then Err(InvariantViolation)
      else Ok(Stored(st, k, f, v, EdgesOf(v, |st.nodes|), MissingEdges(v, |st.nodes|)))
  {
    hide EdgesOf, MissingEdges;
  }

  /** The type a kind declares for a field, if it declares one. */
  lemma FieldTypeLaw(schema: Schema, kind: nat, f: nat)
    ensures kind < |schema.kinds| && f < |schema.kinds[kind].fields| ==>
      schema.FieldType(kind, f) == schema.kinds[kind].fields[f].ftype
    ensures !(kind < |schema.kinds| && f < |schema.kinds[kind].fields|) ==> schema.FieldType(kind, f) == TInvalid
  {
  }

  /** SET_FIELD: on a live node with that field declared, of the value's type;
      the node gains the value and its edges, and the unresolved targets are
      counted. */
  lemma SetFieldLaw(env: Env, st: VmState, k: U32, f: U32, v: Value) returns (edges: seq<nat>, missing: nat)
    requires Inv(env.schema, st)
    ensures EdgesMean(v, |st.nodes|, edges, missing)
    ensures var r := Step(env, st, SetField(k, f, v));
      if k >= |st.nodes| then r == Err(NodeOutOfRange)
      else
        var t := env.schema.FieldType(st.nodes[k].kind, f);
        if t == TInvalid then r == Err(FieldOutOfRange)
        else if v.Type() != t then r == Err(TypeMismatch)
        else if !st.nodes[k].alive then r == Err(InvariantViolation)
        else r == Ok(Counted(Stored(st, k, f, v, edges, missing)))
  {
    edges, missing := EdgesOf(v, |st.nodes|), MissingEdges(v, |st.nodes|);
    EdgesLaw(v, |st.nodes|);
    InvSafe(env.schema, st);
    SafeSetField(env, st, k, f, v);
    hide *;
  }

  lemma SafeSetField(env: Env, st: VmState, k: U32, f: U32, v: Value)
    requires st.Safe()
    ensures var r := Step(env, st, SetField(k, f, v));
      if k >= |st.nodes| then r == Err(NodeOutOfRange)
      else
        var t := env.schema.FieldType(st.nodes[k].kind, f);
        if t == TInvalid then r == Err(FieldOutOfRange)
        else if v.Type() != t then r == Err(TypeMismatch)
        else if !st.nodes[k].alive then r == Err(InvariantViolation)
        else r == Ok(Counted(Stored(st, k, f, v, EdgesOf(v, |st.nodes|), MissingEdges(v, |st.nodes|))))
  {
    if k < |st.nodes| {
      StoreLaw(st, k, f, v);
    }
    hide EdgesOf, MissingEdges, SetFieldStep, Stored;
  }

  /** The state with a reference to node k stored. */
  function Linked(st: VmState, src: nat, f: U32, k: nat): VmState
    requires src < |st.nodes|
  {
    var n := st.nodes[src];
    With(st, src, n.(fields := n.fields[f := RefV(k % TWO32)], refs := n.refs + [k]))
  }

  /** The state with one more unresolved reference counted. */
  function Unresolved(st: VmState): VmState {
    st.(stats := st.stats.(unresolvedRefs := (st.stats.unresolvedRefs + 1) % TWO32))
  }

  lemma LinkLaw(env: Env, st: VmState, src: U32, f: U32, target: U32)
    requires st.Safe() && src < |st.nodes| && env.schema.FieldType(st.nodes[src].kind, f) == TRef
    ensures LinkRefStep(env, st, src, f, target) ==
      match st.Find(target)
      case Some(k) => Ok(Linked(st, src, f, k))
      case None => Ok(Unresolved(st))
  {
  }

  /** LINK_REF: if the target name stands for node k, the field of the source
      refers to k and the source gains that one edge; if it stands for nothing,
      only the counter of unresolved references moves. */
  lemma LinkRefLaw(env: Env, st: VmState, src: U32, f: U32, target: U32)
    requires Inv(env.schema, st)
    ensures var r := Step(env, st, LinkRef(src, f, target));
      if src >= |st.nodes| then r == Err(NodeOutOfRange)
      else if env.schema.FieldType(st.nodes[src].kind, f) != TRef then r == Err(TypeMismatch)
      else
        && (forall k: nat :: Bears(st, target, k) ==> r == Ok(Counted(Linked(st, src, f, k))))
        && (!Borne(st, target) ==> r == Ok(Counted(Unresolved(st))))
  {
    FindIsBearer(env.schema, st, target);
    assert st.Safe();
    hide Inv, Borne, Bears, Linked, Unresolved;
    if src < |st.nodes| && env.schema.FieldType(st.nodes[src].kind, f) == TRef {
      LinkLaw(env, st, src, f, target);
      hide LinkRefStep;
    }
  }

  // ----- groups -----

  /** BEGIN_GROUP: within the depth limit, on the node the name stands for. */
  lemma BeginGroupLaw(env: Env, st: VmState, owner: U32, hint: U32)
    requires Inv(env.schema, st)
    ensures var r := Step(env, st, BeginGroup(owner, hint));
      if |st.frames| >= env.lim.maxGroupDepth then r == Err(GroupOverflow)
      else if !Borne(st, owner) then r == Err(UnresolvedRef)
      else forall k: nat :: Bears(st, owner, k) ==> r == Ok(Counted(st).(frames := st.frames + [Frame(k, owner, [])]))
  {
    FindIsBearer(env.schema, st, owner);
    hide Inv, Borne;
    forall k: nat | Bears(st, owner, k) ensures k < |st.nodes| && st.nodes[k].alive && st.Find(owner) == Some(k) {
    }
    hide Bears;
    if st.Find(owner).Some? {
      assert Bears(st, owner, st.Find(owner).value);
    }
  }

  /** ADD_CHILD: the name joins the innermost open group's queue, at the end. */
  lemma AddChildLaw(env: Env, st: VmState, child: U32)
    requires Inv(env.schema, st)
    ensures var r := Step(env, st, AddChild(child));
      if st.frames == [] then r == Err(GroupUnderflow)
      else if child != INVALID_ATOM && child >= env.atomCount then r == Err(AtomOutOfRange)
      else
        var outer, top := st.frames[..|st.frames| - 1], st.frames[|st.frames| - 1];
        r == Ok(Counted(st).(frames := outer + [Frame(top.ownerId, top.ownerName, top.deferred + [child])]))
  {
    hide Inv;
    if st.frames != [] && env.NameOk(child) {
      var m := |st.frames| - 1;
      var top := st.frames[m].(deferred := st.frames[m].deferred + [child]);
      assert st.frames[m := top] == st.frames[..m] + [top];
    }
  }

  /** What linking a queue counts: every link, and a placeholder for each node
      the table gains. Only the table and its names change besides. */
  lemma {:induction false} LinkingCounts(st: VmState, owner: nat, children: seq<U32>)
    requires st.Safe() && owner < |st.nodes|
    ensures var r := LinkChildren(st, owner, children);
      && |r.nodes| >= |st.nodes|
      && r == st.(nodes := r.nodes, names := r.names,
                  stats := st.stats.(placeholders := st.stats.placeholders + (|r.nodes| - |st.nodes|),
                                     childrenLinked := st.stats.childrenLinked + |children|))
    decreases |children|
  {
    if children != [] {
      LinkingCounts(LinkChild(st, owner, children[0]), owner, children[1..]);
    }
  }

  /** The state after the innermost group has closed, but for the table and names. */
  function Closed(st: VmState, nodes: seq<Node>, names: map<U32, nat>): VmState
    requires st.frames != [] && |nodes| >= |st.nodes|
  {
    var top := |st.frames| - 1;
    st.(nodes := nodes, names := names, frames := st.frames[..top],
        stats := st.stats.(opsExecuted := st.stats.opsExecuted + 1,
                           placeholders := st.stats.placeholders + (|nodes| - |st.nodes|),
                           childrenLinked := st.stats.childrenLinked + |st.frames[top].deferred|))
  }

  lemma GroupCloses(env: Env, st: VmState)
    requires st.Safe() && st.frames != []
    ensures var r := Step(env, st, EndGroup);
      r.Ok? && |r.value.nodes| >= |st.nodes| && r.value == Closed(st, r.value.nodes, r.value.names)
  {
    hide LinkChildren;
    var top := |st.frames| - 1;
    LinkingCounts(st.(frames := st.frames[..top]), st.frames[top].ownerId, st.frames[top].deferred);
  }

  /** END_GROUP closes the innermost open group and counts what it links; NOP
      does nothing. */
  lemma EndGroupAndNopLaw(env: Env, st: VmState)
    requires Inv(env.schema, st)
    ensures st.frames == [] ==> Step(env, st, EndGroup) == Err(GroupUnderflow)
    ensures st.frames != [] ==>
      var r := Step(env, st, EndGroup);
      r.Ok? && |r.value.nodes| >= |st.nodes| && r.value == Closed(st, r.value.nodes, r.value.names)
    ensures Step(env, st, Nop) == Ok(Counted(st))
  {
    InvSafe(env.schema, st);
    hide Inv, LinkChildren, Closed;
    if st.frames != [] {
      GroupCloses(env, st);
    }
  }

  // ----- snapshots and metadata -----

  function Living(nodes: seq<Node>): set<nat> {
    set k: nat | k < |nodes| && nodes[k].alive
  }

  lemma {:induction false} AliveCountIsLiving(nodes: seq<Node>)
    ensures AliveCount(nodes) == |Living(nodes)|
  {
    if nodes != [] {
      var m := |nodes| - 1;
      AliveCountIsLiving(nodes[..m]);
      var front := Living(nodes[..m]);
      assert Living(nodes) == if nodes[m].alive then front + {m} else front;
    }
  }

  /** SNAPSHOT: records the label, the size of the table and how many of its
      nodes live. */
  lemma SnapshotLaw(env: Env, st: VmState, tag: U32)
    requires Inv(env.schema, st)
    ensures var r := Step(env, st, Snapshot(tag));
      if tag != INVALID_ATOM && tag >= env.atomCount then r == Err(AtomOutOfRange)
      else r == Ok(Counted(st).(snapshots := st.snapshots + [Snap(tag, |st.nodes|, |Living(st.nodes)|)],
                                stats := Counted(st).stats.(snapshots := st.stats.snapshots + 1)))
  {
    AliveCountIsLiving(st.nodes);
    hide Inv, AliveCount, Living;
  }

  /** SET_META: the key, a known atom, maps to the value from now on, and no
      other key is affected. */
  lemma SetMetaLaw(env: Env, st: VmState, key: U32, value: U32)
    requires Inv(env.schema, st)
    ensures var r := Step(env, st, SetMeta(key, value));
      if key >= env.atomCount || (value != INVALID_ATOM && value >= env.atomCount) then r == Err(AtomOutOfRange)
      else
        && r.Ok? && key in r.value.meta && r.value.meta[key] == value
        && (forall other :: other != key ==> (other in r.value.meta <==> other in st.meta))
        && (forall other :: other != key && other in st.meta ==> r.value.meta[other] == st.meta[other])
        && r.value == Counted(st).(meta := r.value.meta)
  {
    hide Inv;
  }

  // ----- starting and ending a run -----

  /** A seeded machine holds exactly the heap, each name standing for its last
      bearer, and nothing else. */
  lemma SeededLaw(schema: Schema, heap: seq<Node>)
    requires HeapOk(schema, heap)
    ensures Positional(heap)
    ensures var st := Seeded(heap);
      && st.nodes == heap && st.frames == [] && st.freeList == [] && st.snapshots == [] && st.meta == map[]
      && st.stats == Stats(0, |heap|, 0, 0, 0, 0, 0)
      && forall name: U32, k: nat :: st.Find(name) == Some(k) <==> name != INVALID_ATOM && IsNewest(heap, name, k)
  {
    SeededOk(schema, heap);
    var st := Seeded(heap);
    assert forall k :: 0 <= k < |heap| ==> heap[k].alive;
    hide Inv, HeapOk, IsNewest;
    forall name: U32, k: nat ensures st.Find(name) == Some(k) <==> name != INVALID_ATOM && IsNewest(heap, name, k) {
      FindIsBearer(schema, st, name);
      BearsInHeap(st, name, k);
    }
  }

  lemma BearsInHeap(st: VmState, name: U32, k: nat)
    requires forall j :: 0 <= j < |st.nodes| ==> st.nodes[j].alive
    ensures Bears(st, name, k) <==> name != INVALID_ATOM && IsNewest(st.nodes, name, k)
  {
  }

  /** A journal declares its length first; a longer one than the limit is refused
      before anything runs, and one that leaves a group open after everything has. */
  lemma RunLaw(env: Env, st: VmState, s: seq<Byte>, count: U32, rest: seq<Byte>)
    requires st.Safe() && ReadVarintU32(s) == Ok((count, rest))
    ensures count > env.lim.maxJournalOps ==> RunBytes(env, st, s) == Err(LimitExceeded)
    ensures count <= env.lim.maxJournalOps && ExecMany(env, st, rest, count).Ok? ==>
      var (end, left) := ExecMany(env, st, rest, count).value;
      RunBytes(env, st, s) == if end.frames == [] then Ok((end, left)) else Err(GroupUnderflow)
    ensures count <= env.lim.maxJournalOps && ExecMany(env, st, rest, count).Err? ==>
      RunBytes(env, st, s) == Err(ExecMany(env, st, rest, count).code)
  {
    hide ReadVarintU32, ExecMany;
  }
}
