/** The initial heap's byte format and its schema-driven decoder. */
module Heap {
  import opened Basics
  import opened Codec
  import opened Model
  import opened ReplayVm
  import opened VmInvariants

  // ----- what a producer declares -----

  datatype FieldValue = FieldValue(field: U32, value: Value)

  datatype HeapNode = HeapNode(kind: U32, name: U32, fields: seq<FieldValue>)

  // ----- encoding -----

  function FieldValueBytes(fv: FieldValue): seq<Byte> {
    Varint(fv.field) + ValueBytes(fv.value)
  }

  function FieldValuesBytes(fields: seq<FieldValue>): seq<Byte> {
    if fields == [] then [] else FieldValueBytes(fields[0]) + FieldValuesBytes(fields[1..])
  }

  function HeapNodeBytes(id: nat, n: HeapNode): seq<Byte> {
    Varint(id) + (Varint(n.kind) + (Varint(n.name) + (Varint(|n.fields|) + FieldValuesBytes(n.fields))))
  }

  function HeapNodesBytes(id: nat, nodes: seq<HeapNode>): seq<Byte>
    decreases |nodes|
  {
    if nodes == [] then [] else HeapNodeBytes(id, nodes[0]) + HeapNodesBytes(id + 1, nodes[1..])
  }

  /** The HEAP payload. */
  function HeapBytes(nodes: seq<HeapNode>): seq<Byte> {
    Varint(|nodes|) + HeapNodesBytes(0, nodes)
  }

  // ----- decoding -----

  /** A field's failure to decode is reported as a bad heap, whatever it was. */
  function ReadFieldValue(s: seq<Byte>, kind: KindDef, lim: Limits): Result<(FieldValue, seq<Byte>)> {
    var (field, s1) :- ReadVarintU32(s);
    if field >= |kind.fields| then Err(FieldOutOfRange)
    else
      match ReadValue(s1, kind.fields[field].ftype, lim)
      case Err(_) => Err(BadHeap)
      case Ok((v, s2)) => Ok((FieldValue(field, v), s2))
  }

  function ReadFieldValues(s: seq<Byte>, n: nat, kind: KindDef, lim: Limits, fields: map<U32, Value>): Result<(map<U32, Value>, seq<Byte>)>
    decreases n
  {
    hide ReadFieldValue;
    if n == 0 then Ok((fields, s))
    else
      var (fv, s1) :- ReadFieldValue(s, kind, lim);
      ReadFieldValues(s1, n - 1, kind, lim, fields[fv.field := fv.value])
  }

  function ReadHeapNode(s: seq<Byte>, id: nat, env: Env): Result<(Node, seq<Byte>)> {
    hide ReadVarintU32, ReadFieldValues;
    var (onDisk, s1) :- ReadVarintU32(s);
    if onDisk != id then Err(BadHeap)
    else
      var (kind, s2) :- ReadVarintU32(s1);
      if !env.schema.HasKind(kind) then Err(KindOutOfRange)
      else
        var (name, s3) :- ReadVarintU32(s2);
        if !env.NameOk(name) then Err(AtomOutOfRange)
        else
          var (count, s4) :- ReadVarintU32(s3);
          if count > |env.schema.kinds[kind].fields| then Err(BadHeap)
          else
            var (fields, s5) :- ReadFieldValues(s4, count, env.schema.kinds[kind], env.lim, map[]);
            Ok((FreshNode(id, kind, name).(fields := fields), s5))
  }

  function ReadHeapNodes(s: seq<Byte>, n: nat, id: nat, env: Env): Result<(seq<Node>, seq<Byte>)>
    decreases n
  {
    hide ReadHeapNode;
    if n == 0 then Ok(([], s))
    else
      var (node, s1) :- ReadHeapNode(s, id, env);
      var (rest, s2) :- ReadHeapNodes(s1, n - 1, id + 1, env);
      Ok(([node] + rest, s2))
  }

  function ReadHeap(s: seq<Byte>, env: Env): Result<(seq<Node>, seq<Byte>)> {
    var (n, s1) :- ReadVarintU32(s);
    if n > env.lim.maxNodes then Err(LimitExceeded) else ReadHeapNodes(s1, n, 0, env)
  }

  // ----- what an accepted heap is -----

  lemma ReadFieldValueTyped(s: seq<Byte>, kind: KindDef, lim: Limits)
    requires ReadFieldValue(s, kind, lim).Ok?
    ensures var fv := ReadFieldValue(s, kind, lim).value.0;
      fv.field < |kind.fields| && fv.value.Type() == kind.fields[fv.field].ftype != TInvalid
  {
    hide ReadVarintU32;
  }

  ghost predicate Typed(kind: KindDef, fields: map<U32, Value>) {
    forall f :: f in fields ==> f < |kind.fields| && fields[f].Type() == kind.fields[f].ftype != TInvalid
  }

  lemma {:induction false} ReadFieldValuesTyped(s: seq<Byte>, n: nat, kind: KindDef, lim: Limits, fields: map<U32, Value>)
    requires ReadFieldValues(s, n, kind, lim, fields).Ok? && Typed(kind, fields)
    ensures Typed(kind, ReadFieldValues(s, n, kind, lim, fields).value.0)
    decreases n
  {
    hide ReadFieldValue;
    if n > 0 {
      ReadFieldValueTyped(s, kind, lim);
      var (fv, s1) := ReadFieldValue(s, kind, lim).value;
      ReadFieldValuesTyped(s1, n - 1, kind, lim, fields[fv.field := fv.value]);
    }
  }

  ghost predicate Pristine(schema: Schema, n: Node, id: nat) {
    NodeOk(schema, 0, id, n) && n.alive && !n.placeholder && n.children == [] && n.refs == []
  }

  lemma ReadHeapNodeOk(s: seq<Byte>, id: nat, env: Env)
    requires ReadHeapNode(s, id, env).Ok?
    ensures Pristine(env.schema, ReadHeapNode(s, id, env).value.0, id)
  {
    hide ReadVarintU32, ReadFieldValues;
    var s1 := ReadVarintU32(s).value.1;
    var (kind, s2) := ReadVarintU32(s1).value;
    var s3 := ReadVarintU32(s2).value.1;
    var (count, s4) := ReadVarintU32(s3).value;
    ReadFieldValuesTyped(s4, count, env.schema.kinds[kind], env.lim, map[]);
  }

  lemma {:induction false} ReadHeapNodesOk(s: seq<Byte>, n: nat, id: nat, env: Env)
    requires ReadHeapNodes(s, n, id, env).Ok?
    ensures var nodes := ReadHeapNodes(s, n, id, env).value.0;
      |nodes| == n && forall k :: 0 <= k < n ==> Pristine(env.schema, nodes[k], id + k)
    decreases n
  {
    hide ReadHeapNode, Pristine;
    if n > 0 {
      ReadHeapNodeOk(s, id, env);
      ReadHeapNodesOk(ReadHeapNode(s, id, env).value.1, n - 1, id + 1, env);
      var nodes := ReadHeapNodes(s, n, id, env).value.0;
      forall k | 0 <= k < n ensures Pristine(env.schema, nodes[k], id + k) {
        if k > 0 {
          assert nodes[k] == nodes[1..][k - 1];
        }
      }
    }
  }

  /** Whatever bytes the decoder accepts, the nodes are live, positional, typed
      by the schema and free of edges: a state the machine may start from. */
  lemma AcceptedHeapIsOk(s: seq<Byte>, env: Env)
    requires ReadHeap(s, env).Ok?
    ensures HeapOk(env.schema, ReadHeap(s, env).value.0)
    ensures Positional(ReadHeap(s, env).value.0)
  {
    hide ReadVarintU32, ReadHeapNodes;
    var (n, s1) := ReadVarintU32(s).value;
    ReadHeapNodesOk(s1, n, 0, env);
    var nodes := ReadHeap(s, env).value.0;
    forall k | 0 <= k < |nodes|
      ensures NodeOk(env.schema, |nodes|, k, nodes[k]) && nodes[k].alive && !nodes[k].placeholder
      ensures nodes[k].children == [] && nodes[k].refs == [] && nodes[k].id == k
    {
      assert Pristine(env.schema, nodes[k], 0 + k);
    }
  }

  // ----- round trip -----

  /** Later declarations of a field win. */
  function FieldsOnto(fields: map<U32, Value>, fvs: seq<FieldValue>): map<U32, Value>
    decreases |fvs|
  {
    if fvs == [] then fields else FieldsOnto(fields[fvs[0].field := fvs[0].value], fvs[1..])
  }

  function Built(id: nat, n: HeapNode): Node {
    FreshNode(id, n.kind, n.name).(fields := FieldsOnto(map[], n.fields))
  }

  function BuiltAll(id: nat, nodes: seq<HeapNode>): (r: seq<Node>)
    ensures |r| == |nodes|
    decreases |nodes|
  {
    if nodes == [] then [] else [Built(id, nodes[0])] + BuiltAll(id + 1, nodes[1..])
  }

  ghost predicate FieldValueFits(kind: KindDef, fv: FieldValue, lim: Limits) {
    && fv.field < |kind.fields| && fv.value.Type() == kind.fields[fv.field].ftype
    && Storable(fv.value, lim)
  }

  ghost predicate HeapNodeFits(n: HeapNode, env: Env) {
    && env.schema.HasKind(n.kind) && env.NameOk(n.name)
    && |n.fields| <= |env.schema.kinds[n.kind].fields| && |n.fields| < TWO32
    && forall i :: 0 <= i < |n.fields| ==> FieldValueFits(env.schema.kinds[n.kind], n.fields[i], env.lim)
  }

  ghost predicate HeapFits(nodes: seq<HeapNode>, env: Env) {
    && |nodes| <= env.lim.maxNodes && |nodes| < TWO32
    && forall i :: 0 <= i < |nodes| ==> HeapNodeFits(nodes[i], env)
  }

  lemma FieldValueRoundTrip(fv: FieldValue, kind: KindDef, lim: Limits, rest: seq<Byte>)
    requires FieldValueFits(kind, fv, lim)
    ensures ReadFieldValue(FieldValueBytes(fv) + rest, kind, lim) == Ok((fv, rest))
  {
    hide Varint, ReadVarintU32, ValueBytes, ReadValue;
    assert FieldValueBytes(fv) + rest == Varint(fv.field) + (ValueBytes(fv.value) + rest);
    VarintU32RoundTrip(fv.field, ValueBytes(fv.value) + rest);
    ValueRoundTrip(fv.value, lim, rest);
  }

  lemma {:induction false} FieldValuesRoundTrip(fvs: seq<FieldValue>, kind: KindDef, lim: Limits, fields: map<U32, Value>, rest: seq<Byte>)
    requires forall i :: 0 <= i < |fvs| ==> FieldValueFits(kind, fvs[i], lim)
    ensures ReadFieldValues(FieldValuesBytes(fvs) + rest, |fvs|, kind, lim, fields) == Ok((FieldsOnto(fields, fvs), rest))
    decreases |fvs|
  {
    hide FieldValueBytes, ReadFieldValue, FieldValueFits;
    if fvs == [] {
      assert FieldValuesBytes(fvs) + rest == rest;
    } else {
      var tail := FieldValuesBytes(fvs[1..]) + rest;
      assert FieldValuesBytes(fvs) + rest == FieldValueBytes(fvs[0]) + tail;
      FieldValueRoundTrip(fvs[0], kind, lim, tail);
      FieldValuesRoundTrip(fvs[1..], kind, lim, fields[fvs[0].field := fvs[0].value], rest);
    }
  }

  lemma HeapNodeRoundTrip(id: U32, n: HeapNode, env: Env, rest: seq<Byte>)
    requires HeapNodeFits(n, env)
    ensures ReadHeapNode(HeapNodeBytes(id, n) + rest, id, env) == Ok((Built(id, n), rest))
  {
    hide Varint, ReadVarintU32, FieldValuesBytes, ReadFieldValues, FieldsOnto, FieldValueFits;
    var s4 := FieldValuesBytes(n.fields) + rest;
    var s3 := Varint(|n.fields|) + s4;
    var s2 := Varint(n.name) + s3;
    var s1 := Varint(n.kind) + s2;
    assert HeapNodeBytes(id, n) + rest == Varint(id) + s1;
    VarintU32RoundTrip(id, s1);
    VarintU32RoundTrip(n.kind, s2);
    VarintU32RoundTrip(n.name, s3);
    VarintU32RoundTrip(|n.fields|, s4);
    FieldValuesRoundTrip(n.fields, env.schema.kinds[n.kind], env.lim, map[], rest);
  }

  lemma {:induction false} HeapNodesRoundTrip(id: nat, nodes: seq<HeapNode>, env: Env, rest: seq<Byte>)
    requires id + |nodes| < TWO32
    requires forall i :: 0 <= i < |nodes| ==> HeapNodeFits(nodes[i], env)
    ensures ReadHeapNodes(HeapNodesBytes(id, nodes) + rest, |nodes|, id, env) == Ok((BuiltAll(id, nodes), rest))
    decreases |nodes|
  {
    hide HeapNodeBytes, ReadHeapNode, HeapNodeFits, Built;
    if nodes == [] {
      assert HeapNodesBytes(id, nodes) + rest == rest;
    } else {
      var tail := HeapNodesBytes(id + 1, nodes[1..]) + rest;
      assert HeapNodesBytes(id, nodes) + rest == HeapNodeBytes(id, nodes[0]) + tail;
      HeapNodeRoundTrip(id, nodes[0], env, tail);
      HeapNodesRoundTrip(id + 1, nodes[1..], env, rest);
    }
  }

  /** A declared heap that fits its schema decodes to exactly its nodes. */
  lemma HeapRoundTrip(nodes: seq<HeapNode>, env: Env, rest: seq<Byte>)
    requires HeapFits(nodes, env)
    ensures ReadHeap(HeapBytes(nodes) + rest, env) == Ok((BuiltAll(0, nodes), rest))
  {
    hide Varint, ReadVarintU32, HeapNodesBytes, ReadHeapNodes, HeapNodeFits;
    assert HeapBytes(nodes) + rest == Varint(|nodes|) + (HeapNodesBytes(0, nodes) + rest);
    VarintU32RoundTrip(|nodes|, HeapNodesBytes(0, nodes) + rest);
    HeapNodesRoundTrip(0, nodes, env, rest);
  }

  // ----- the decoder as loops -----

  method DecodeFields(r: ByteReader, n: nat, kind: KindDef, lim: Limits) returns (res: Result<map<U32, Value>>)
    requires r.Valid()
    modifies r`pos
    ensures r.Reads(old(r.Rest()), ReadFieldValues(old(r.Rest()), n, kind, lim, map[]), res)
  {
    hide ReadVarintU32, ReadValue;
    var fields: map<U32, Value>, i := map[], 0;
    while i < n
      invariant 0 <= i <= n && r.Valid()
      invariant ReadFieldValues(r.Rest(), n - i, kind, lim, fields) == ReadFieldValues(old(r.Rest()), n, kind, lim, map[])
    {
      var field :- r.VarintU32();
      if field >= |kind.fields| {
        return Err(FieldOutOfRange);
      }
      var v := DecodeValue(r, kind.fields[field].ftype, lim);
      if v.Err? {
        return Err(BadHeap);
      }
      fields := fields[field := v.value];
      i := i + 1;
    }
    return Ok(fields);
  }

  method DecodeNode(r: ByteReader, id: nat, env: Env) returns (res: Result<Node>)
    requires r.Valid()
    modifies r`pos
    ensures r.Reads(old(r.Rest()), ReadHeapNode(old(r.Rest()), id, env), res)
  {
    hide ReadVarintU32, ReadFieldValues;
    var onDisk :- r.VarintU32();
    if onDisk != id {
      return Err(BadHeap);
    }
    var kind :- r.VarintU32();
    if !env.schema.HasKind(kind) {
      return Err(KindOutOfRange);
    }
    var name :- r.VarintU32();
    if name != INVALID_ATOM && name >= env.atomCount {
      return Err(AtomOutOfRange);
    }
    var count :- r.VarintU32();
    if count > |env.schema.kinds[kind].fields| {
      return Err(BadHeap);
    }
    var fields :- DecodeFields(r, count, env.schema.kinds[kind], env.lim);
    return Ok(FreshNode(id, kind, name).(fields := fields));
  }

  method DecodeHeap(r: ByteReader, env: Env) returns (res: Result<seq<Node>>)
    requires r.Valid()
    modifies r`pos
    ensures r.Reads(old(r.Rest()), ReadHeap(old(r.Rest()), env), res)
  {
    hide ReadVarintU32, ReadHeapNode;
    var n :- r.VarintU32();
    if n > env.lim.maxNodes {
      return Err(LimitExceeded);
    }
    ghost var spec := ReadHeapNodes(r.Rest(), n, 0, env);
    var nodes: seq<Node>, i := [], 0;
    if spec.Ok? {
      assert [] + spec.value.0 == spec.value.0;
    }
    while i < n
      invariant 0 <= i <= n && r.Valid()
      invariant match ReadHeapNodes(r.Rest(), n - i, i, env)
                case Ok(tail) => spec == Ok((nodes + tail.0, tail.1))
                case Err(code) => spec == Err(code)
    {
      var node :- DecodeNode(r, i, env);
      ghost var tail := ReadHeapNodes(r.Rest(), n - i - 1, i + 1, env);
      if tail.Ok? {
        assert nodes + ([node] + tail.value.0) == nodes + [node] + tail.value.0;
      }
      nodes := nodes + [node];
      i := i + 1;
    }
    assert nodes + [] == nodes;
    return Ok(nodes);
  }
}
