/** The journal replay machine. The step functions say what each opcode does to
    the machine's state; ReplayVM is the object that does it in place while
    decoding operands from a reader, proved against them. */
module ReplayVm {
  import opened Basics
  import opened Codec
  import opened Model

  // ----- state -----

  /** What a run is given and never changes. */
  datatype Env = Env(schema: Schema, atomCount: nat, lim: Limits) {
    /** A name operand is either "anonymous" or an atom of the pool. */
    predicate NameOk(name: U32) {
      name == INVALID_ATOM || name < atomCount
    }
  }

  /** One open group. The producer's reserve hint only sizes allocations. */
  datatype Frame = Frame(ownerId: nat, ownerName: U32, deferred: seq<U32>)

  datatype Snap = Snap(tag: U32, nodeCount: nat, aliveCount: nat)

  datatype Stats = Stats(
    opsExecuted: nat,
    nodesCreated: nat,
    placeholders: nat,
    nodesDropped: nat,
    childrenLinked: nat,
    unresolvedRefs: U32,
    snapshots: nat)

  datatype VmState = VmState(
    nodes: seq<Node>,
    names: map<U32, nat>,
    frames: seq<Frame>,
    freeList: seq<nat>,
    snapshots: seq<Snap>,
    meta: map<U32, U32>,
    stats: Stats)
  {
    function Find(name: U32): Option<nat> {
      if name in names then Some(names[name]) else None
    }

    /** Every index the machine stores in its tables is one it may follow. */
    ghost predicate Safe() {
      && (forall a :: a in names ==> names[a] < |nodes|)
      && (forall k :: 0 <= k < |frames| ==> frames[k].ownerId < |nodes|)
    }
  }

  const EMPTY: VmState := VmState([], map[], [], [], [], map[], Stats(0, 0, 0, 0, 0, 0, 0))

  function Register(names: map<U32, nat>, name: U32, id: nat): map<U32, nat> {
    if name == INVALID_ATOM then names else names[name := id]
  }

  // ----- opcode handlers, operands already decoded -----

  function NewNodeStep(env: Env, st: VmState, kind: U32, name: U32): (r: Result<VmState>)
    requires st.Safe()
    ensures r.Ok? ==> r.value.Safe()
  {
    if !env.schema.HasKind(kind) then Err(KindOutOfRange)
    else if !env.NameOk(name) then Err(AtomOutOfRange)
    else if |st.nodes| >= env.lim.maxNodes then Err(LimitExceeded)
    else
      var id := |st.nodes|;
      Ok(st.(nodes := st.nodes + [FreshNode(id, kind, name)],
             names := Register(st.names, name, id),
             stats := st.stats.(nodesCreated := st.stats.nodesCreated + 1)))
  }

  /** The elements of a list value that name an existing slot, in order. */
  function InRange(items: seq<U32>, size: nat): (r: seq<nat>)
    ensures |r| <= |items|
    ensures forall k :: 0 <= k < |r| ==> r[k] < size
  {
    if items == [] then []
    else
      var rest := InRange(items[1..], size);
      if items[0] < size then [items[0]] + rest else rest
  }

  /** The edges a stored value records, and how many of its targets it does not. */
  function EdgesOf(v: Value, size: nat): (r: seq<nat>)
    ensures forall k :: 0 <= k < |r| ==> r[k] < size
  {
    match v
    case RefV(t) => if t != INVALID_NODE && t < size then [t] else []
    case ListV(items) => InRange(items, size)
    case _ => []
  }

  function MissingEdges(v: Value, size: nat): nat {
    match v
    case RefV(t) => 1 - |EdgesOf(v, size)|
    case ListV(items) => |items| - |InRange(items, size)|
    case _ => 0
  }

  function SetFieldStep(st: VmState, node: nat, field: U32, v: Value): (r: Result<VmState>)
    requires st.Safe() && node < |st.nodes|
    ensures r.Ok? ==> r.value.Safe()
  {
    var n := st.nodes[node];
    if !n.alive then Err(InvariantViolation)
    else
      var n' := n.(refs := n.refs + EdgesOf(v, |st.nodes|), fields := n.fields[field := v]);
      Ok(st.(nodes := st.nodes[node := n'],
             stats := st.stats.(unresolvedRefs :=
               (st.stats.unresolvedRefs + MissingEdges(v, |st.nodes|)) % TWO32)))
  }

  function BeginGroupStep(env: Env, st: VmState, owner: U32): (r: Result<VmState>)
    requires st.Safe()
    ensures r.Ok? ==> r.value.Safe()
  {
    if |st.frames| >= env.lim.maxGroupDepth then Err(GroupOverflow)
    else
      match st.Find(owner)
      case None => Err(UnresolvedRef)
      case Some(id) =>
        if !st.nodes[id].alive then Err(InvariantViolation)
        else Ok(st.(frames := st.frames + [Frame(id, owner, [])]))
  }

  function AddChildStep(env: Env, st: VmState, child: U32): (r: Result<VmState>)
    requires st.Safe()
    ensures r.Ok? ==> r.value.Safe()
  {
    if st.frames == [] then Err(GroupUnderflow)
    else if !env.NameOk(child) then Err(AtomOutOfRange)
    else
      var top := |st.frames| - 1;
      var frame := st.frames[top];
      Ok(st.(frames := st.frames[top := frame.(deferred := frame.deferred + [child])]))
  }

  /** Stand in for a name nothing defines yet. */
  function Materialize(st: VmState, name: U32): (r: VmState)
    requires st.Safe()
    ensures r.Safe() && |r.nodes| == |st.nodes| + 1
  {
    var id := |st.nodes|;
    st.(nodes := st.nodes + [FreshNode(id, INVALID_KIND, name).(placeholder := true)],
        names := Register(st.names, name, id),
        stats := st.stats.(placeholders := st.stats.placeholders + 1))
  }

  /** Append target to the owner's children and the owner to the target's
      references, in that order: the two may be one node. */
  function Wire(nodes: seq<Node>, owner: nat, target: nat): (r: seq<Node>)
    requires owner < |nodes| && target < |nodes|
    ensures |r| == |nodes|
  {
    var nodes' := nodes[owner := nodes[owner].(children := nodes[owner].children + [target])];
    nodes'[target := nodes'[target].(refs := nodes'[target].refs + [owner])]
  }

  function LinkChild(st: VmState, owner: nat, child: U32): (r: VmState)
    requires st.Safe() && owner < |st.nodes|
    ensures r.Safe() && owner < |r.nodes| && r.frames == st.frames
  {
    var found := st.Find(child);
    var st' := if found.None? then Materialize(st, child) else st;
    var target := if found.None? then |st.nodes| else found.value;
    st'.(nodes := Wire(st'.nodes, owner, target),
         stats := st'.stats.(childrenLinked := st'.stats.childrenLinked + 1))
  }

  function LinkChildren(st: VmState, owner: nat, children: seq<U32>): (r: VmState)
    requires st.Safe() && owner < |st.nodes|
    ensures r.Safe() && owner < |r.nodes| && r.frames == st.frames
    decreases |children|
  {
    if children == [] then st
    else LinkChildren(LinkChild(st, owner, children[0]), owner, children[1..])
  }

  function EndGroupStep(st: VmState): (r: Result<VmState>)
    requires st.Safe()
    ensures r.Ok? ==> r.value.Safe()
  {
    if st.frames == [] then Err(GroupUnderflow)
    else
      var top := |st.frames| - 1;
      Ok(LinkChildren(st.(frames := st.frames[..top]), st.frames[top].ownerId, st.frames[top].deferred))
  }

  function LinkRefStep(env: Env, st: VmState, src: U32, field: U32, target: U32): (r: Result<VmState>)
    requires st.Safe()
    ensures r.Ok? ==> r.value.Safe()
  {
    if src >= |st.nodes| then Err(NodeOutOfRange)
    else if env.schema.FieldType(st.nodes[src].kind, field) != TRef then Err(TypeMismatch)
    else
      match st.Find(target)
      case None =>
        Ok(st.(stats := st.stats.(unresolvedRefs := (st.stats.unresolvedRefs + 1) % TWO32)))
      case Some(id) =>
        var n := st.nodes[src];
        var n' := n.(fields := n.fields[field := RefV(id % TWO32)], refs := n.refs + [id]);
        Ok(st.(nodes := st.nodes[src := n']))
  }

  function DropNodeStep(st: VmState, node: U32): (r: Result<VmState>)
    requires st.Safe()
    ensures r.Ok? ==> r.value.Safe()
  {
    if node >= |st.nodes| then Err(NodeOutOfRange)
    else if !st.nodes[node].alive then Ok(st)
    else
      var n := st.nodes[node];
      var owned := n.name != INVALID_ATOM && n.name in st.names && st.names[n.name] == node;
      Ok(st.(nodes := st.nodes[node := n.(alive := false, generation := n.generation + 1)],
             freeList := st.freeList + [node],
             names := if owned then st.names - {n.name} else st.names,
             stats := st.stats.(nodesDropped := st.stats.nodesDropped + 1)))
  }

  function AliveCount(nodes: seq<Node>): nat {
    if nodes == [] then 0
    else AliveCount(nodes[..|nodes| - 1]) + if nodes[|nodes| - 1].alive then 1 else 0
  }

  function SnapshotStep(env: Env, st: VmState, tag: U32): (r: Result<VmState>)
    requires st.Safe()
    ensures r.Ok? ==> r.value.Safe()
  {
    if !env.NameOk(tag) then Err(AtomOutOfRange)
    else
      Ok(st.(snapshots := st.snapshots + [Snap(tag, |st.nodes|, AliveCount(st.nodes))],
             stats := st.stats.(snapshots := st.stats.snapshots + 1)))
  }

  function SetMetaStep(env: Env, st: VmState, key: U32, value: U32): (r: Result<VmState>)
    requires st.Safe()
    ensures r.Ok? ==> r.value.Safe()
  {
    if key >= env.atomCount then Err(AtomOutOfRange)
    else if !env.NameOk(value) then Err(AtomOutOfRange)
    else Ok(st.(meta := st.meta[key := value]))
  }

  function Tick(st: VmState): (r: VmState)
    ensures st.Safe() ==> r.Safe()
  {
    st.(stats := st.stats.(opsExecuted := st.stats.opsExecuted + 1))
  }

  // ----- decoded operations -----

  datatype Op =
    | NewNode(kind: U32, name: U32)
    | SetField(node: U32, field: U32, value: Value)
    | BeginGroup(owner: U32, hint: U32)
    | EndGroup
    | AddChild(child: U32)
    | LinkRef(src: U32, lfield: U32, target: U32)
    | DropNode(dropped: U32)
    | Snapshot(tag: U32)
    | SetMeta(key: U32, mvalue: U32)
    | Nop

  function OpEffect(env: Env, st: VmState, op: Op): (r: Result<VmState>)
    requires st.Safe()
    ensures r.Ok? ==> r.value.Safe()
  {
    match op
    case NewNode(kind, name) => NewNodeStep(env, st, kind, name)
    case SetField(node, field, value) =>
      if node >= |st.nodes| then Err(NodeOutOfRange)
      else
        var t := env.schema.FieldType(st.nodes[node].kind, field);
        if t == TInvalid then Err(FieldOutOfRange)
        else if value.Type() != t then Err(TypeMismatch)
        else SetFieldStep(st, node, field, value)
    case BeginGroup(owner, _) => BeginGroupStep(env, st, owner)
    case EndGroup => EndGroupStep(st)
    case AddChild(child) => AddChildStep(env, st, child)
    case LinkRef(src, field, target) => LinkRefStep(env, st, src, field, target)
    case DropNode(node) => DropNodeStep(st, node)
    case Snapshot(tag) => SnapshotStep(env, st, tag)
    case SetMeta(key, value) => SetMetaStep(env, st, key, value)
    case Nop => Ok(st)
  }

  function Step(env: Env, st: VmState, op: Op): (r: Result<VmState>)
    requires st.Safe()
    ensures r.Ok? ==> r.value.Safe()
  {
    var st' :- OpEffect(env, st, op);
    Ok(Tick(st'))
  }

  function RunOps(env: Env, st: VmState, ops: seq<Op>): (r: Result<VmState>)
    requires st.Safe()
    ensures r.Ok? ==> r.value.Safe()
    decreases |ops|
  {
    if ops == [] then Ok(st)
    else
      var st' :- Step(env, st, ops[0]);
      RunOps(env, st', ops[1..])
  }

  // ----- byte-level execution: decode and execute as one -----

  type Exec = Result<(VmState, seq<Byte>)>

  function Done(r: Result<VmState>, rest: seq<Byte>): Exec {
    match r
    case Ok(st) => Ok((st, rest))
    case Err(code) => Err(code)
  }

  function ExecNewNode(env: Env, st: VmState, s: seq<Byte>): Exec
    requires st.Safe()
  {
    var (kind, s1) :- ReadVarintU32(s);
    var (name, s2) :- ReadVarintU32(s1);
    Done(NewNodeStep(env, st, kind, name), s2)
  }

  function ExecSetField(env: Env, st: VmState, s: seq<Byte>): Exec
    requires st.Safe()
  {
    var (node, s1) :- ReadVarintU32(s);
    var (field, s2) :- ReadVarintU32(s1);
    if node >= |st.nodes| then Err(NodeOutOfRange)
    else
      var t := env.schema.FieldType(st.nodes[node].kind, field);
      if t == TInvalid then Err(FieldOutOfRange)
      else
        var (v, s3) :- ReadValue(s2, t, env.lim);
        Done(SetFieldStep(st, node, field, v), s3)
  }

  function ExecBeginGroup(env: Env, st: VmState, s: seq<Byte>): Exec
    requires st.Safe()
  {
    var (owner, s1) :- ReadVarintU32(s);
    var (hint, s2) :- ReadVarintU32(s1);
    Done(BeginGroupStep(env, st, owner), s2)
  }

  function ExecAddChild(env: Env, st: VmState, s: seq<Byte>): Exec
    requires st.Safe()
  {
    var (child, s1) :- ReadVarintU32(s);
    Done(AddChildStep(env, st, child), s1)
  }

  function ExecLinkRef(env: Env, st: VmState, s: seq<Byte>): Exec
    requires st.Safe()
  {
    var (src, s1) :- ReadVarintU32(s);
    var (field, s2) :- ReadVarintU32(s1);
    var (target, s3) :- ReadVarintU32(s2);
    Done(LinkRefStep(env, st, src, field, target), s3)
  }

  function ExecDropNode(env: Env, st: VmState, s: seq<Byte>): Exec
    requires st.Safe()
  {
    var (node, s1) :- ReadVarintU32(s);
    Done(DropNodeStep(st, node), s1)
  }

  function ExecSnapshot(env: Env, st: VmState, s: seq<Byte>): Exec
    requires st.Safe()
  {
    var (tag, s1) :- ReadVarintU32(s);
    Done(SnapshotStep(env, st, tag), s1)
  }

  function ExecSetMeta(env: Env, st: VmState, s: seq<Byte>): Exec
    requires st.Safe()
  {
    var (key, s1) :- ReadVarintU32(s);
    var (value, s2) :- ReadVarintU32(s1);
    Done(SetMetaStep(env, st, key, value), s2)
  }

  function ExecOperands(env: Env, st: VmState, raw: Byte, s: seq<Byte>): (r: Exec)
    requires st.Safe()
    ensures r.Ok? ==> r.value.0.Safe()
  {
    match raw
    case 0x01 => ExecNewNode(env, st, s)
    case 0x02 => ExecSetField(env, st, s)
    case 0x03 => ExecBeginGroup(env, st, s)
    case 0x04 => Done(EndGroupStep(st), s)
    case 0x05 => ExecAddChild(env, st, s)
    case 0x06 => ExecLinkRef(env, st, s)
    case 0x07 => ExecDropNode(env, st, s)
    case 0x08 => ExecSnapshot(env, st, s)
    case 0x09 => ExecSetMeta(env, st, s)
    case 0x0A => Ok((st, s))
    case _ => Err(BadOpcode)
  }

  function ExecOne(env: Env, st: VmState, s: seq<Byte>): (r: Exec)
    requires st.Safe()
    ensures r.Ok? ==> r.value.0.Safe()
  {
    var (raw, s1) :- ReadU8(s);
    var (st', s2) :- ExecOperands(env, st, raw, s1);
    Ok((Tick(st'), s2))
  }

  function ExecMany(env: Env, st: VmState, s: seq<Byte>, count: nat): (r: Exec)
    requires st.Safe()
    ensures r.Ok? ==> r.value.0.Safe()
    decreases count
  {
    if count == 0 then Ok((st, s))
    else
      var (st', s') :- ExecOne(env, st, s);
      ExecMany(env, st', s', count - 1)
  }

  /** A whole journal payload: a count, that many operations, and no group left open. */
  function RunBytes(env: Env, st: VmState, s: seq<Byte>): (r: Exec)
    requires st.Safe()
    ensures r.Ok? ==> r.value.0.Safe()
  {
    var (count, s1) :- ReadVarintU32(s);
    if count > env.lim.maxJournalOps then Err(LimitExceeded)
    else
      var (st', rest) :- ExecMany(env, st, s1, count);
      if st'.frames != [] then Err(GroupUnderflow) else Ok((st', rest))
  }

  /** The name table of a seeded heap: later nodes win. */
  function NamesOf(nodes: seq<Node>): (names: map<U32, nat>)
    ensures forall a :: a in names ==> exists k :: 0 <= k < |nodes| && names[a] == nodes[k].id
  {
    if nodes == [] then map[]
    else
      var last := nodes[|nodes| - 1];
      Register(NamesOf(nodes[..|nodes| - 1]), last.name, last.id)
  }

  ghost predicate Positional(nodes: seq<Node>) {
    forall k :: 0 <= k < |nodes| ==> nodes[k].id == k
  }

  /** A fresh machine given an initial heap. */
  function Seeded(heap: seq<Node>): (st: VmState)
    requires Positional(heap)
    ensures st.Safe()
  {
    EMPTY.(nodes := heap, names := NamesOf(heap), stats := EMPTY.stats.(nodesCreated := |heap|))
  }

  // ----- the machine -----

  class ReplayVM {
    const env: Env
    var nodes: seq<Node>
    var names: map<U32, nat>
    var frames: seq<Frame>
    var freeList: seq<nat>
    var snapshots: seq<Snap>
    var meta: map<U32, U32>
    var stats: Stats

    ghost function State(): VmState
      reads this
    {
      VmState(nodes, names, frames, freeList, snapshots, meta, stats)
    }

    ghost predicate Valid()
      reads this
    {
      State().Safe()
    }

    constructor (e: Env)
      ensures Valid() && env == e && State() == EMPTY
    {
      env := e;
      nodes, names, frames, freeList, snapshots, meta := [], map[], [], [], [], map[];
      stats := Stats(0, 0, 0, 0, 0, 0, 0);
    }

    /** What every handler does: follow the specification, and leave the
        machine alone when it reports an error. */
    ghost predicate Follows(before: VmState, spec: Exec, r: ByteReader, res: Result<()>)
      reads this, r
    {
      && Valid()
      && r.Valid()
      && match spec
         case Ok(pair) => res.Ok? && State() == pair.0 && r.Rest() == pair.1
         case Err(code) => res == Err(code) && State() == before
    }

    /** Install the decoded heap and index its names. */
    method Seed(heap: seq<Node>)
      requires Positional(heap)
      requires State() == EMPTY
      modifies this
      ensures Valid() && State() == Seeded(heap)
    {
      nodes := heap;
      names := map[];
      var k := 0;
      while k < |heap|
        invariant 0 <= k <= |heap|
        invariant names == NamesOf(heap[..k])
        invariant nodes == heap && frames == [] && freeList == [] && snapshots == [] && meta == map[]
        invariant stats == EMPTY.stats
      {
        assert heap[..k + 1][..k] == heap[..k];
        names := Register(names, heap[k].name, heap[k].id);
        k := k + 1;
      }
      assert heap[..|heap|] == heap;
      stats := stats.(nodesCreated := |heap|);
    }

    method DoNewNode(r: ByteReader) returns (res: Result<()>)
      requires Valid() && r.Valid()
      modifies this, r`pos
      ensures Follows(old(State()), ExecNewNode(env, old(State()), old(r.Rest())), r, res)
    {
      hide ReadVarintU32;
      var kind :- r.VarintU32();
      var name :- r.VarintU32();
      if !env.schema.HasKind(kind) {
        return Err(KindOutOfRange);
      }
      if name != INVALID_ATOM && name >= env.atomCount {
        return Err(AtomOutOfRange);
      }
      if |nodes| >= env.lim.maxNodes {
        return Err(LimitExceeded);
      }
      var id := |nodes|;
      nodes := nodes + [FreshNode(id, kind, name)];
      names := Register(names, name, id);
      stats := stats.(nodesCreated := stats.nodesCreated + 1);
      return Ok(());
    }

    method DoSetField(r: ByteReader) returns (res: Result<()>)
      requires Valid() && r.Valid()
      modifies this, r`pos
      ensures Follows(old(State()), ExecSetField(env, old(State()), old(r.Rest())), r, res)
    {
      hide ReadVarintU32;
      var node :- r.VarintU32();
      var field :- r.VarintU32();
      if node >= |nodes| {
        return Err(NodeOutOfRange);
      }
      var t := env.schema.FieldType(nodes[node].kind, field);
      if t == TInvalid {
        return Err(FieldOutOfRange);
      }
      var v :- DecodeValue(r, t, env.lim);
      res := StoreField(node, field, v, t);
    }

    /** Store a decoded value and record the edges it carries. */
    method StoreField(node: nat, field: U32, v: Value, t: ValueType) returns (res: Result<()>)
      requires Valid() && node < |nodes| && v.Type() == t
      modifies this
      ensures Valid()
      ensures match SetFieldStep(old(State()), node, field, v)
              case Ok(st) => res.Ok? && State() == st
              case Err(code) => res == Err(code) && State() == old(State())
    {
      var n := nodes[node];
      if !n.alive {
        return Err(InvariantViolation);
      }
      var edges, missing := CollectEdges(v, t, |nodes|);
      nodes := nodes[node := n.(refs := n.refs + edges, fields := n.fields[field := v])];
      stats := stats.(unresolvedRefs := (stats.unresolvedRefs + missing) % TWO32);
      return Ok(());
    }

    /** Record the in-range targets of a reference-bearing value. */
    static method CollectEdges(v: Value, t: ValueType, size: nat) returns (edges: seq<nat>, missing: nat)
      requires v.Type() == t
      ensures edges == EdgesOf(v, size) && missing == MissingEdges(v, size)
    {
      edges, missing := [], 0;
      if t == TRef {
        if v.ref != INVALID_NODE && v.ref < size {
          edges := [v.ref];
        } else {
          missing := 1;
        }
      } else if t == TList {
        var k := 0;
        assert v.items[0..] == v.items;
        while k < |v.items|
          invariant 0 <= k <= |v.items|
          invariant edges + InRange(v.items[k..], size) == InRange(v.items, size)
          invariant |edges| + missing == k
        {
          assert v.items[k..][1..] == v.items[k + 1..];
          if v.items[k] < size {
            assert edges + ([v.items[k]] + InRange(v.items[k + 1..], size))
                == edges + [v.items[k]] + InRange(v.items[k + 1..], size);
            edges := edges + [v.items[k]];
          } else {
            missing := missing + 1;
          }
          k := k + 1;
        }
      }
    }

    method DoBeginGroup(r: ByteReader) returns (res: Result<()>)
      requires Valid() && r.Valid()
      modifies this, r`pos
      ensures Follows(old(State()), ExecBeginGroup(env, old(State()), old(r.Rest())), r, res)
    {
      hide ReadVarintU32;
      var owner :- r.VarintU32();
      var hint :- r.VarintU32();
      if |frames| >= env.lim.maxGroupDepth {
        return Err(GroupOverflow);
      }
      if owner !in names {
        return Err(UnresolvedRef);
      }
      var id := names[owner];
      if !nodes[id].alive {
        return Err(InvariantViolation);
      }
      frames := frames + [Frame(id, owner, [])];
      return Ok(());
    }

    method DoAddChild(r: ByteReader) returns (res: Result<()>)
      requires Valid() && r.Valid()
      modifies this, r`pos
      ensures Follows(old(State()), ExecAddChild(env, old(State()), old(r.Rest())), r, res)
    {
      hide ReadVarintU32;
      var child :- r.VarintU32();
      if frames == [] {
        return Err(GroupUnderflow);
      }
      if child != INVALID_ATOM && child >= env.atomCount {
        return Err(AtomOutOfRange);
      }
      var top := frames[|frames| - 1];
      frames := frames[|frames| - 1 := top.(deferred := top.deferred + [child])];
      return Ok(());
    }

    method DoEndGroup(r: ByteReader) returns (res: Result<()>)
      requires Valid() && r.Valid()
      modifies this
      ensures Follows(old(State()), Done(EndGroupStep(old(State())), old(r.Rest())), r, res)
    {
      if frames == [] {
        return Err(GroupUnderflow);
      }
      var frame := frames[|frames| - 1];
      frames := frames[..|frames| - 1];
      ResolveFrame(frame);
      return Ok(());
    }

    method MaterializePlaceholder(name: U32) returns (id: nat)
      requires Valid()
      modifies this
      ensures Valid() && State() == Materialize(old(State()), name)
      ensures id == |old(nodes)|
    {
      id := |nodes|;
      nodes := nodes + [FreshNode(id, INVALID_KIND, name).(placeholder := true)];
      names := Register(names, name, id);
      stats := stats.(placeholders := stats.placeholders + 1);
    }

    /** Resolve a closed frame's queued names and wire them onto its owner. */
    method ResolveFrame(frame: Frame)
      requires Valid() && frame.ownerId < |nodes|
      modifies this
      ensures Valid() && State() == LinkChildren(old(State()), frame.ownerId, frame.deferred)
    {
      var k := 0;
      assert frame.deferred[0..] == frame.deferred;
      while k < |frame.deferred|
        invariant 0 <= k <= |frame.deferred| && Valid() && frame.ownerId < |nodes|
        invariant LinkChildren(State(), frame.ownerId, frame.deferred[k..])
               == LinkChildren(old(State()), frame.ownerId, frame.deferred)
      {
        assert frame.deferred[k..][1..] == frame.deferred[k + 1..];
        ResolveChild(frame.ownerId, frame.deferred[k]);
        k := k + 1;
      }
    }

    method ResolveChild(ownerId: nat, child: U32)
      requires Valid() && ownerId < |nodes|
      modifies this
      ensures Valid() && State() == LinkChild(old(State()), ownerId, child)
    {
      var target;
      if child in names {
        target := names[child];
      } else {
        target := MaterializePlaceholder(child);
      }
      var owner := nodes[ownerId];
      nodes := nodes[ownerId := owner.(children := owner.children + [target])];
      nodes := nodes[target := nodes[target].(refs := nodes[target].refs + [ownerId])];
      stats := stats.(childrenLinked := stats.childrenLinked + 1);
    }

    method DoLinkRef(r: ByteReader) returns (res: Result<()>)
      requires Valid() && r.Valid()
      modifies this, r`pos
      ensures Follows(old(State()), ExecLinkRef(env, old(State()), old(r.Rest())), r, res)
    {
      hide ReadVarintU32;
      var src :- r.VarintU32();
      var field :- r.VarintU32();
      var target :- r.VarintU32();
      if src >= |nodes| {
        return Err(NodeOutOfRange);
      }
      if env.schema.FieldType(nodes[src].kind, field) != TRef {
        return Err(TypeMismatch);
      }
      if target !in names {
        stats := stats.(unresolvedRefs := (stats.unresolvedRefs + 1) % TWO32);
        return Ok(());
      }
      var id, n := names[target], nodes[src];
      nodes := nodes[src := n.(fields := n.fields[field := RefV(id % TWO32)], refs := n.refs + [id])];
      return Ok(());
    }

    method DoDropNode(r: ByteReader) returns (res: Result<()>)
      requires Valid() && r.Valid()
      modifies this, r`pos
      ensures Follows(old(State()), ExecDropNode(env, old(State()), old(r.Rest())), r, res)
    {
      hide ReadVarintU32;
      var node :- r.VarintU32();
      if node >= |nodes| {
        return Err(NodeOutOfRange);
      }
      var n := nodes[node];
      if !n.alive {
        return Ok(());
      }
      nodes := nodes[node := n.(alive := false, generation := n.generation + 1)];
      freeList := freeList + [node];
      if n.name != INVALID_ATOM && n.name in names && names[n.name] == node {
        names := names - {n.name};
      }
      stats := stats.(nodesDropped := stats.nodesDropped + 1);
      return Ok(());
    }

    method DoSnapshot(r: ByteReader) returns (res: Result<()>)
      requires Valid() && r.Valid()
      modifies this, r`pos
      ensures Follows(old(State()), ExecSnapshot(env, old(State()), old(r.Rest())), r, res)
    {
      hide ReadVarintU32;
      var tag :- r.VarintU32();
      if tag != INVALID_ATOM && tag >= env.atomCount {
        return Err(AtomOutOfRange);
      }
      var alive, k := 0, 0;
      while k < |nodes|
        invariant 0 <= k <= |nodes|
        invariant alive == AliveCount(nodes[..k])
      {
        assert nodes[..k + 1][..k] == nodes[..k];
        alive := alive + if nodes[k].alive then 1 else 0;
        k := k + 1;
      }
      assert nodes[..|nodes|] == nodes;
      snapshots := snapshots + [Snap(tag, |nodes|, alive)];
      stats := stats.(snapshots := stats.snapshots + 1);
      return Ok(());
    }

    method DoSetMeta(r: ByteReader) returns (res: Result<()>)
      requires Valid() && r.Valid()
      modifies this, r`pos
      ensures Follows(old(State()), ExecSetMeta(env, old(State()), old(r.Rest())), r, res)
    {
      hide ReadVarintU32;
      var key :- r.VarintU32();
      var value :- r.VarintU32();
      if key >= env.atomCount {
        return Err(AtomOutOfRange);
      }
      if value != INVALID_ATOM && value >= env.atomCount {
        return Err(AtomOutOfRange);
      }
      meta := meta[key := value];
      return Ok(());
    }

    method Dispatch(raw: Byte, r: ByteReader) returns (res: Result<()>)
      requires Valid() && r.Valid()
      modifies this, r`pos
      ensures Follows(old(State()), ExecOperands(env, old(State()), raw, old(r.Rest())), r, res)
    {
      match raw {
        case 0x01 => res := DoNewNode(r);
        case 0x02 => res := DoSetField(r);
        case 0x03 => res := DoBeginGroup(r);
        case 0x04 => res := DoEndGroup(r);
        case 0x05 => res := DoAddChild(r);
        case 0x06 => res := DoLinkRef(r);
        case 0x07 => res := DoDropNode(r);
        case 0x08 => res := DoSnapshot(r);
        case 0x09 => res := DoSetMeta(r);
        case 0x0A => res := Ok(());
        case _ => res := Err(BadOpcode);
      }
    }

    method ExecuteOne(r: ByteReader) returns (res: Result<()>)
      requires Valid() && r.Valid()
      modifies this, r`pos
      ensures Follows(old(State()), ExecOne(env, old(State()), old(r.Rest())), r, res)
    {
      var raw :- r.U8();
      var done :- Dispatch(raw, r);
      stats := stats.(opsExecuted := stats.opsExecuted + 1);
      return Ok(());
    }

    /** Decode and execute a journal payload. After an error the machine holds
        the effect of the operations before the failing one. */
    method Run(r: ByteReader) returns (res: Result<()>)
      requires Valid() && r.Valid()
      modifies this, r`pos
      ensures Valid() && r.Valid()
      ensures match RunBytes(env, old(State()), old(r.Rest()))
              case Ok(pair) => res.Ok? && State() == pair.0 && r.Rest() == pair.1
              case Err(code) => res == Err(code)
    {
      hide ExecOne, ReadVarint;
      var count :- r.VarintU32();
      if count > env.lim.maxJournalOps {
        return Err(LimitExceeded);
      }
      ghost var spec := ExecMany(env, State(), r.Rest(), count);
      var i := 0;
      while i < count
        invariant 0 <= i <= count && Valid() && r.Valid()
        invariant spec == ExecMany(env, State(), r.Rest(), count - i)
      {
        var done :- ExecuteOne(r);
        i := i + 1;
      }
      if frames != [] {
        return Err(GroupUnderflow);
      }
      return Ok(());
    }
  }
}
