/** Turning a diff into a journal, and when replaying that journal on the
    before state reproduces the after state. */
module DiffPatch {
  import opened Basics
  import opened Codec
  import opened Model
  import opened ReplayVm
  import opened VmInvariants
  import opened Journal
  import opened Diff
  import Builder

  // ----- the patch as operations -----

  /** A set for every field with an after-value; a removed field has no opcode. */
  function SetOps(id: U32, fcs: seq<FieldChange>): seq<Op> {
    if fcs == [] then []
    else
      var front, fc := SetOps(id, fcs[..|fcs| - 1]), fcs[|fcs| - 1];
      if fc.after == Invalid || id == INVALID_NODE then front else front + [SetField(id, fc.field, fc.after)]
  }

  function AddOps(names: seq<U32>): seq<Op> {
    if names == [] then [] else AddOps(names[..|names| - 1]) + [AddChild(names[|names| - 1])]
  }

  function GroupOps(owner: U32, names: seq<U32>): seq<Op> {
    if names == [] then [] else [BeginGroup(owner, |names| % TWO32)] + AddOps(names) + [EndGroup]
  }

  function PatchOf(nc: NodeChange): seq<Op> {
    if nc.change == REMOVED then (if nc.beforeId != INVALID_NODE then [DropNode(nc.beforeId)] else [])
    else if nc.change == ADDED then
      [NewNode(nc.kind, nc.name)] + SetOps(nc.afterId, nc.fieldChanges) + GroupOps(nc.name, nc.childrenAdded)
    else if nc.change == MODIFIED then SetOps(nc.afterId, nc.fieldChanges) + GroupOps(nc.name, nc.childrenAdded)
    else []
  }

  function PatchOps(changes: seq<NodeChange>): seq<Op> {
    if changes == [] then [] else PatchOps(changes[..|changes| - 1]) + PatchOf(changes[|changes| - 1])
  }

  // ----- writing it -----

  /** A journal being written: its body and count encode the operations so far. */
  ghost predicate Wrote(body: ByteWriter, count: U32, ops: seq<Op>)
    reads body
  {
    body.buf == OpsBytes(ops) && count == |ops| % TWO32
  }

  method Put(body: ByteWriter, count: U32, ghost ops: seq<Op>, op: Op) returns (count': U32)
    requires Wrote(body, count, ops)
    requires op.SetField? ==> op.node < TWO32 && (op.value.ListV? ==> |op.value.items| < TWO64)
    modifies body
    ensures Wrote(body, count', ops + [op])
  {
    hide OpsBytes, OpBytes;
    Builder.PutOp(body, op);
    OpsBytesAppend(ops, [op]);
    OpsBytesOne(op);
    count' := (count + 1) % TWO32;
  }

  ghost predicate ValueCountable(fc: FieldChange) {
    fc.after.ListV? ==> |fc.after.items| < TWO64
  }

  method PutSets(body: ByteWriter, count: U32, ghost ops: seq<Op>, id: U32, fcs: seq<FieldChange>) returns (count': U32)
    requires Wrote(body, count, ops) && forall fc :: fc in fcs ==> ValueCountable(fc)
    modifies body
    ensures Wrote(body, count', ops + SetOps(id, fcs))
  {
    hide Wrote;
    count' := count;
    var j := 0;
    assert fcs[..0] == [] && ops + SetOps(id, []) == ops;
    while j < |fcs|
      invariant 0 <= j <= |fcs| && Wrote(body, count', ops + SetOps(id, fcs[..j]))
    {
      assert fcs[..j + 1][..j] == fcs[..j];
      var fc := fcs[j];
      assert fc in fcs;
      if fc.after != Invalid && id != INVALID_NODE {
        var op := SetField(id, fc.field, fc.after);
        assert ops + SetOps(id, fcs[..j]) + [op] == ops + (SetOps(id, fcs[..j]) + [op]);
        count' := Put(body, count', ops + SetOps(id, fcs[..j]), op);
      }
      j := j + 1;
    }
    assert fcs[..|fcs|] == fcs;
  }

  method PutAdds(body: ByteWriter, count: U32, ghost ops: seq<Op>, names: seq<U32>) returns (count': U32)
    requires Wrote(body, count, ops)
    modifies body
    ensures Wrote(body, count', ops + AddOps(names))
  {
    hide Wrote;
    count' := count;
    var j := 0;
    assert names[..0] == [] && ops + AddOps([]) == ops;
    while j < |names|
      invariant 0 <= j <= |names| && Wrote(body, count', ops + AddOps(names[..j]))
    {
      assert names[..j + 1][..j] == names[..j];
      assert ops + AddOps(names[..j]) + [AddChild(names[j])] == ops + AddOps(names[..j + 1]);
      count' := Put(body, count', ops + AddOps(names[..j]), AddChild(names[j]));
      j := j + 1;
    }
    assert names[..|names|] == names;
  }

  method PutGroup(body: ByteWriter, count: U32, ghost ops: seq<Op>, owner: U32, names: seq<U32>) returns (count': U32)
    requires Wrote(body, count, ops) && |names| < TWO32
    modifies body
    ensures Wrote(body, count', ops + GroupOps(owner, names))
  {
    hide Wrote, AddOps;
    count' := count;
    if names == [] {
      assert ops + [] == ops;
      return;
    }
    ghost var start := ops + [BeginGroup(owner, |names|)];
    count' := Put(body, count', ops, BeginGroup(owner, |names|));
    count' := PutAdds(body, count', start, names);
    count' := Put(body, count', start + AddOps(names), EndGroup);
    assert start + AddOps(names) + [EndGroup] == ops + GroupOps(owner, names);
  }

  method PutPatch(body: ByteWriter, count: U32, ghost ops: seq<Op>, nc: NodeChange) returns (count': U32)
    requires Wrote(body, count, ops) && |nc.childrenAdded| < TWO32 && forall fc :: fc in nc.fieldChanges ==> ValueCountable(fc)
    modifies body
    ensures Wrote(body, count', ops + PatchOf(nc))
  {
    hide Wrote, SetOps, GroupOps;
    count' := count;
    assert ops + [] == ops;
    if nc.change == REMOVED {
      if nc.beforeId != INVALID_NODE {
        count' := Put(body, count', ops, DropNode(nc.beforeId));
      }
    } else if nc.change == ADDED {
      ghost var made := ops + [NewNode(nc.kind, nc.name)];
      count' := Put(body, count', ops, NewNode(nc.kind, nc.name));
      count' := PutSets(body, count', made, nc.afterId, nc.fieldChanges);
      count' := PutGroup(body, count', made + SetOps(nc.afterId, nc.fieldChanges), nc.name, nc.childrenAdded);
      assert made + SetOps(nc.afterId, nc.fieldChanges) + GroupOps(nc.name, nc.childrenAdded) == ops + PatchOf(nc);
    } else if nc.change == MODIFIED {
      count' := PutSets(body, count', ops, nc.afterId, nc.fieldChanges);
      count' := PutGroup(body, count', ops + SetOps(nc.afterId, nc.fieldChanges), nc.name, nc.childrenAdded);
      assert ops + SetOps(nc.afterId, nc.fieldChanges) + GroupOps(nc.name, nc.childrenAdded) == ops + PatchOf(nc);
    }
  }

  ghost predicate PatchCountable(nc: NodeChange) {
    |nc.childrenAdded| < TWO32 && forall fc :: fc in nc.fieldChanges ==> ValueCountable(fc)
  }

  method DiffToJournal(d: GraphDiff) returns (bytes: seq<Byte>)
    requires forall nc :: nc in d.changes ==> PatchCountable(nc)
    ensures bytes == Builder.JournalPayload(PatchOps(d.changes))
  {
    hide PatchOf, OpsBytes, Varint;
    var body := new ByteWriter();
    var count: U32, i := 0, 0;
    assert Wrote(body, count, PatchOps(d.changes[..0])) by { NoOps(); }
    while i < |d.changes|
      invariant 0 <= i <= |d.changes| && fresh(body)
      invariant Wrote(body, count, PatchOps(d.changes[..i]))
    {
      assert d.changes[..i + 1][..i] == d.changes[..i];
      assert d.changes[i] in d.changes;
      count := PutPatch(body, count, PatchOps(d.changes[..i]), d.changes[i]);
      i := i + 1;
    }
    assert d.changes[..|d.changes|] == d.changes;
    var w := new ByteWriter();
    w.PutVarint(count);
    w.PutRaw(body.buf);
    assert w.buf == Varint(count) + body.buf;
    return w.buf;
  }

  lemma NoOps()
    ensures OpsBytes([]) == []
  {
  }

  // ----- the field-only case -----

  /** The tables differ only in the fields of live named nodes: same shape,
      unique live names, well-typed values within limits, nothing unset. */
  ghost predicate FieldOnly(env: Env, before: seq<Node>, after: seq<Node>) {
    && |before| == |after| <= INVALID_NODE
    && NodesOk(env.schema, before) && NodesOk(env.schema, after)
    && SameShape(before, after)
    && (forall i, j :: 0 <= i < j < |before| && before[i].alive && before[j].alive && before[i].name == before[j].name ==>
          before[i].name == INVALID_ATOM)
    && (forall k :: 0 <= k < |before| ==> FieldsGrow(env, before[k], after[k]))
  }

  ghost predicate SameShape(before: seq<Node>, after: seq<Node>) {
    && |before| == |after|
    && forall k :: 0 <= k < |before| ==>
         && before[k].kind == after[k].kind && before[k].name == after[k].name
         && before[k].alive == after[k].alive && before[k].children == after[k].children
  }

  ghost predicate FieldsGrow(env: Env, b: Node, a: Node) {
    && (!(b.alive && b.name != INVALID_ATOM) ==> FieldsAgree(b.fields, a.fields))
    && (forall f :: f in b.fields ==> f in a.fields)
    && (forall f :: f in a.fields ==> Storable(a.fields[f], env.lim))
  }

  lemma {:induction false} SameNames(before: seq<Node>, after: seq<Node>)
    requires SameShape(before, after)
    ensures FirstNamed(before) == FirstNamed(after)
    decreases |before|
  {
    if before != [] {
      var k := |before| - 1;
      SameNames(before[..k], after[..k]);
    }
  }

  lemma {:induction false} SameChildNames(before: seq<Node>, after: seq<Node>, ids: seq<nat>)
    requires SameShape(before, after)
    ensures ChildNames(before, ids) == ChildNames(after, ids)
    decreases |ids|
  {
    if ids != [] {
      SameChildNames(before, after, ids[..|ids| - 1]);
    }
  }

  /** An operation that sets a live node's field to its after-value. */
  ghost predicate SetsAfter(env: Env, nodes: seq<Node>, after: seq<Node>, op: Op) {
    && op.SetField? && op.node < |nodes| == |after| && nodes[op.node].alive
    && op.field in after[op.node].fields && op.value == after[op.node].fields[op.field]
    && op.value.Type() == env.schema.FieldType(nodes[op.node].kind, op.field) != TInvalid
    && Storable(op.value, env.lim)
  }

  lemma {:induction false} SetOpsFromAfter(env: Env, before: seq<Node>, after: seq<Node>, k: nat, fcs: seq<FieldChange>)
    requires FieldOnly(env, before, after) && k < |before| && k < TWO32 && before[k].alive
    requires forall j :: 0 <= j < |fcs| ==> fcs[j].after == At(after[k].fields, fcs[j].field)
    ensures forall op :: op in SetOps(k, fcs) ==> SetsAfter(env, before, after, op)
    decreases |fcs|
  {
    hide SetsAfter;
    if fcs != [] {
      SetOpsFromAfter(env, before, after, k, fcs[..|fcs| - 1]);
      var fc := fcs[|fcs| - 1];
      if fc.after != Invalid {
        OneSetFromAfter(env, before, after, k, fc);
      }
    }
  }

  lemma OneSetFromAfter(env: Env, before: seq<Node>, after: seq<Node>, k: nat, fc: FieldChange)
    requires FieldOnly(env, before, after) && k < |before| && k < TWO32 && before[k].alive
    requires fc.after == At(after[k].fields, fc.field) && fc.after != Invalid
    ensures SetsAfter(env, before, after, SetField(k, fc.field, fc.after))
  {
    assert NodeOk(env.schema, |after|, k, after[k]);
    assert FieldsGrow(env, before[k], after[k]);
  }

  lemma {:induction false} SetOpsCover(id: U32, fcs: seq<FieldChange>, j: nat)
    requires j < |fcs| && fcs[j].after != Invalid && id != INVALID_NODE
    ensures SetField(id, fcs[j].field, fcs[j].after) in SetOps(id, fcs)
    decreases |fcs|
  {
    if j < |fcs| - 1 {
      SetOpsCover(id, fcs[..|fcs| - 1], j);
    }
  }

  lemma ShapeOf(env: Env, before: seq<Node>, after: seq<Node>)
    requires FieldOnly(env, before, after)
    ensures SameShape(before, after) && |before| <= INVALID_NODE
    ensures forall k :: 0 <= k < |after| ==> after[k].id == k
  {
    forall k | 0 <= k < |after| ensures after[k].id == k {
      assert NodeOk(env.schema, |after|, k, after[k]);
    }
  }

  lemma NoNames(names: seq<U32>)
    ensures NameSet(names) == {} ==> names == []
  {
    assert names != [] ==> names[0] in NameSet(names);
  }

  /** In the field-only case a change is just its field sets. */
  lemma PatchIsSets(env: Env, before: seq<Node>, after: seq<Node>, nc: NodeChange)
    requires FieldOnly(env, before, after) && ChangeOk(before, after, nc)
    ensures |before| == |after| && nc.name in FirstNamed(before)
    ensures var k := FirstNamed(before)[nc.name];
      && PatchOf(nc) == (if nc.change == MODIFIED then SetOps(k, nc.fieldChanges) else [])
      && FieldsChanged(before[k].fields, after[k].fields, nc.fieldChanges)
      && (nc.change != MODIFIED ==> nc.fieldChanges == [])
      && k < INVALID_NODE
  {
    hide SetOps, FieldsChanged, FieldOnly, ChildNames, FirstNamed;
    ShapeOf(env, before, after);
    SameNames(before, after);
    var k := FirstNamed(before)[nc.name];
    SameChildNames(before, after, before[k].children);
    assert KeptOk(before, after, before[k], after[k], nc);
    NoNames(nc.childrenAdded);
    assert SetOps(k, nc.fieldChanges) + [] == SetOps(k, nc.fieldChanges);
  }

  lemma {:induction false} PatchOpsFromAfter(env: Env, before: seq<Node>, after: seq<Node>, changes: seq<NodeChange>)
    requires FieldOnly(env, before, after) && forall nc :: nc in changes ==> ChangeOk(before, after, nc)
    ensures forall op :: op in PatchOps(changes) ==> SetsAfter(env, before, after, op)
    decreases |changes|
  {
    hide SetsAfter, FieldOnly, ChangeOk, PatchOf;
    if changes != [] {
      var nc := changes[|changes| - 1];
      assert nc in changes;
      PatchOpsFromAfter(env, before, after, changes[..|changes| - 1]);
      PatchIsSets(env, before, after, nc);
      SameLength(env, before, after);
      SetOpsFromAfter(env, before, after, FirstNamed(before)[nc.name], nc.fieldChanges);
    }
  }

  lemma SameLength(env: Env, before: seq<Node>, after: seq<Node>)
    requires FieldOnly(env, before, after)
    ensures |before| == |after| < TWO32
  {
  }

  lemma {:induction false} PatchOpsCover(changes: seq<NodeChange>, nc: NodeChange, op: Op)
    requires nc in changes && op in PatchOf(nc)
    ensures op in PatchOps(changes)
    decreases |changes|
  {
    hide PatchOf;
    if nc != changes[|changes| - 1] {
      PatchOpsCover(changes[..|changes| - 1], nc, op);
    }
  }

  ghost predicate Mentions(ops: seq<Op>, k: nat, f: U32) {
    exists op :: op in ops && op.SetField? && op.node == k && op.field == f
  }

  /** A live name's first bearer is its only one. */
  lemma OnlyBearer(env: Env, before: seq<Node>, after: seq<Node>, k: nat)
    requires FieldOnly(env, before, after) && k < |before| && before[k].alive && before[k].name != INVALID_ATOM
    ensures before[k].name in FirstNamed(before) && FirstNamed(before)[before[k].name] == k
  {
    hide NodesOk, FieldsGrow, SameShape;
  }

  lemma DifferenceIsSet(env: Env, before: seq<Node>, after: seq<Node>, k: nat, f: U32)
    requires FieldOnly(env, before, after) && k < |before| && Differs(before[k].fields, after[k].fields, f)
    ensures |before| == |after| && f in after[k].fields && At(after[k].fields, f) == after[k].fields[f] != Invalid
  {
    hide SameShape;
    assert NodeOk(env.schema, |after|, k, after[k]);
    assert FieldsGrow(env, before[k], after[k]);
  }

  /** Every difference is set by some operation. */
  lemma DifferencesAreSet(env: Env, before: seq<Node>, after: seq<Node>, d: GraphDiff, k: nat, f: U32)
    requires FieldOnly(env, before, after) && DiffOk(before, after, d)
    requires k < |before| && before[k].alive && before[k].name != INVALID_ATOM
    requires Differs(before[k].fields, after[k].fields, f)
    ensures Mentions(PatchOps(d.changes), k, f)
  {
    hide PatchOps, PatchOf, Tally, NamesOnce, ChangeOk, FieldOnly, FirstNamed, Differs;
    OnlyBearer(env, before, after, k);
    DifferenceIsSet(env, before, after, k, f);
    var name := before[k].name;
    assert name in ChangedNames(d.changes);
    var nc :| nc in d.changes && nc.name == name;
    PatchIsSets(env, before, after, nc);
    var j :| 0 <= j < |nc.fieldChanges| && nc.fieldChanges[j].field == f;
    assert nc.fieldChanges[j].after == after[k].fields[f];
    SetOpsCover(k, nc.fieldChanges, j);
    PatchOpsCover(d.changes, nc, SetField(k, f, after[k].fields[f]));
  }

  // ----- running field sets -----

  /** Nothing about a node changed but its fields and references. */
  ghost predicate OnlyFieldsChanged(x: seq<Node>, y: seq<Node>) {
    |x| == |y| && forall k :: 0 <= k < |x| ==> y[k] == x[k].(fields := y[k].fields, refs := y[k].refs)
  }

  ghost predicate FieldsAre(x: seq<Node>, after: seq<Node>, ops: seq<Op>, y: seq<Node>)
    requires |x| == |y| == |after|
  {
    forall k, f :: 0 <= k < |x| ==>
      if Mentions(ops, k, f) then f in y[k].fields && f in after[k].fields && y[k].fields[f] == after[k].fields[f]
      else (f in y[k].fields <==> f in x[k].fields) && (f in y[k].fields ==> y[k].fields[f] == x[k].fields[f])
  }

  lemma OneSet(env: Env, st: VmState, op: Op, after: seq<Node>)
    requires st.Safe() && SetsAfter(env, st.nodes, after, op)
    ensures Step(env, st, op).Ok?
    ensures var st' := Step(env, st, op).value;
      && OnlyFieldsChanged(st.nodes, st'.nodes) && st'.frames == st.frames
      && st'.nodes[op.node].fields == st.nodes[op.node].fields[op.field := op.value]
      && forall k :: 0 <= k < |st.nodes| && k != op.node ==> st'.nodes[k] == st.nodes[k]
  {
  }

  lemma FieldsChain(x: seq<Node>, after: seq<Node>, ops: seq<Op>, mid: seq<Node>, y: seq<Node>)
    requires ops != [] && |x| == |mid| == |y| == |after|
    requires var op := ops[0];
      && op.SetField? && op.node < |x|
      && op.field in after[op.node].fields && op.value == after[op.node].fields[op.field]
      && mid[op.node].fields == x[op.node].fields[op.field := op.value]
      && forall k :: 0 <= k < |x| && k != op.node ==> mid[k] == x[k]
    requires FieldsAre(mid, after, ops[1..], y)
    ensures FieldsAre(x, after, ops, y)
  {
    forall k: nat, f ensures Mentions(ops, k, f) <==> (ops[0].node == k && ops[0].field == f) || Mentions(ops[1..], k, f) {
      if ops[0].node == k && ops[0].field == f {
        assert ops[0] in ops;
      }
      if Mentions(ops[1..], k, f) {
        var op :| op in ops[1..] && op.SetField? && op.node == k && op.field == f;
        assert op in ops;
      }
      if Mentions(ops, k, f) {
        var op :| op in ops && op.SetField? && op.node == k && op.field == f;
        assert op == ops[0] || op in ops[1..];
      }
    }
    hide Mentions;
  }

  /** Setting fields to their after-values always succeeds, and afterwards the
      mentioned fields hold them and the rest are untouched. */
  lemma {:induction false} RunSets(env: Env, st: VmState, ops: seq<Op>, after: seq<Node>)
    requires st.Safe() && |after| == |st.nodes| && forall op :: op in ops ==> SetsAfter(env, st.nodes, after, op)
    ensures RunOps(env, st, ops).Ok?
    ensures var r := RunOps(env, st, ops).value;
      OnlyFieldsChanged(st.nodes, r.nodes) && r.frames == st.frames && FieldsAre(st.nodes, after, ops, r.nodes)
    decreases |ops|
  {
    hide Step, FieldsAre;
    if ops == [] {
      assert FieldsAre(st.nodes, after, ops, st.nodes) by { NothingMentioned(st.nodes, after); }
    } else {
      assert ops[0] in ops;
      OneSet(env, st, ops[0], after);
      var st' := Step(env, st, ops[0]).value;
      forall op | op in ops[1..] ensures SetsAfter(env, st'.nodes, after, op) {
        assert op in ops;
        assert SetsAfter(env, st.nodes, after, op);
      }
      RunSets(env, st', ops[1..], after);
      FieldsChain(st.nodes, after, ops, st'.nodes, RunOps(env, st', ops[1..]).value.nodes);
    }
  }

  lemma NothingMentioned(x: seq<Node>, after: seq<Node>)
    requires |x| == |after|
    ensures FieldsAre(x, after, [], x)
  {
  }

  /** When only fields of live named nodes differ, replaying the patch on the
      before state succeeds and produces the after-fields everywhere (up to the
      sign of a zero), changing nothing else but references, although the patch
      carries no value types. */
  lemma FieldPatchReplays(env: Env, st: VmState, after: seq<Node>, d: GraphDiff)
    requires st.Safe() && st.frames == [] && FieldOnly(env, st.nodes, after) && DiffOk(st.nodes, after, d)
    requires |PatchOps(d.changes)| <= env.lim.maxJournalOps && |PatchOps(d.changes)| < TWO32
    ensures var r := RunBytes(env, st, Builder.JournalPayload(PatchOps(d.changes)));
      && r.Ok?
      && OnlyFieldsChanged(st.nodes, r.value.0.nodes)
      && forall k :: 0 <= k < |after| ==> FieldsAgree(r.value.0.nodes[k].fields, after[k].fields)
  {
    hide RunBytes, RunOps, PatchOps, OpsBytes, FieldOnly, ChangeOk, ChangedNames, NamesOnce, Tally, FirstNamed;
    var ops := PatchOps(d.changes);
    SameLength(env, st.nodes, after);
    PatchOpsFromAfter(env, st.nodes, after, d.changes);
    RunSets(env, st, ops, after);
    var y := RunOps(env, st, ops).value.nodes;
    AcceptedIsTyped(env, st, ops);
    ReplayOfEncoded(env, st, ops, []);
    Builder.PayloadIsJournal(ops);
    assert JournalBytes(ops) + [] == JournalBytes(ops);
    forall k | 0 <= k < |after| ensures FieldsAgree(y[k].fields, after[k].fields) {
      FieldsEndUpAfter(env, st.nodes, after, d, y, k);
    }
  }

  lemma FieldsEndUpAfter(env: Env, before: seq<Node>, after: seq<Node>, d: GraphDiff, y: seq<Node>, k: nat)
    requires FieldOnly(env, before, after) && DiffOk(before, after, d)
    requires |y| == |before| && FieldsAre(before, after, PatchOps(d.changes), y) && k < |after|
    ensures FieldsAgree(y[k].fields, after[k].fields)
  {
    hide DiffOk, PatchOps, Mentions, NodesOk;
    var b, a := before[k], after[k];
    assert FieldsGrow(env, b, a);
    forall f ensures Same(At(y[k].fields, f), At(a.fields, f)) {
      if !Mentions(PatchOps(d.changes), k, f) {
        if b.alive && b.name != INVALID_ATOM {
          if Differs(b.fields, a.fields, f) {
            DifferencesAreSet(env, before, after, d, k, f);
          }
        } else {
          assert Same(At(b.fields, f), At(a.fields, f));
        }
      }
    }
  }
}
