/** What a group means: each END_GROUP appends to its own BEGIN_GROUP's owner
    the children queued at that nesting level, in order, each name resolved as
    the group closes. */
module GroupSemantics {
  import opened Basics
  import opened Model
  import opened ReplayVm
  import opened Journal
  import opened VmInvariants
  import opened Groups

  // ----- resolving a list of names -----

  /** The nodes a list of names leads to: a known name to its node, an unknown
      one to a new slot, which a later use of the same name finds again. */
  function Resolve(names: map<U32, nat>, size: nat, children: seq<U32>): (targets: seq<nat>)
    ensures |targets| == |children|
    decreases |children|
  {
    if children == [] then []
    else if children[0] in names then [names[children[0]]] + Resolve(names, size, children[1..])
    else [size] + Resolve(Register(names, children[0], size), size + 1, children[1..])
  }

  function Occurrences(targets: seq<nat>, k: nat): nat {
    if targets == [] then 0 else (if targets[0] == k then 1 else 0) + Occurrences(targets[1..], k)
  }

  function Repeat(x: nat, n: nat): (r: seq<nat>)
    ensures |r| == n && forall j :: 0 <= j < n ==> r[j] == x
  {
    seq(n, _ => x)
  }

  /** Known names resolve to their nodes; an unknown name to a slot past the
      table's end, the same one each time unless the name is anonymous. */
  lemma {:induction false} ResolveMeaning(names: map<U32, nat>, size: nat, children: seq<U32>)
    requires INVALID_ATOM !in names && forall a :: a in names ==> names[a] < size
    ensures var targets := Resolve(names, size, children);
      && (forall i :: 0 <= i < |children| ==>
            if children[i] in names then targets[i] == names[children[i]] else targets[i] >= size)
      && (forall i, j :: 0 <= i < j < |children| && children[i] !in names && children[j] !in names ==>
            (targets[i] == targets[j] <==> children[i] == children[j] && children[i] != INVALID_ATOM))
    decreases |children|
  {
    if children != [] {
      var c, rest := children[0], children[1..];
      var targets := Resolve(names, size, children);
      if c in names {
        ResolveMeaning(names, size, rest);
        assert targets[1..] == Resolve(names, size, rest);
      } else {
        var names' := Register(names, c, size);
        ResolveMeaning(names', size + 1, rest);
        assert targets[1..] == Resolve(names', size + 1, rest);
      }
      forall i, j | 0 <= i < j < |children| && children[i] !in names && children[j] !in names
        ensures targets[i] == targets[j] <==> children[i] == children[j] && children[i] != INVALID_ATOM
      {
        assert children[j] == rest[j - 1] && targets[j] == targets[1..][j - 1];
        if i > 0 {
          assert children[i] == rest[i - 1] && targets[i] == targets[1..][i - 1];
        }
      }
      forall i | 0 <= i < |children|
        ensures if children[i] in names then targets[i] == names[children[i]] else targets[i] >= size
      {
        if i > 0 {
          assert children[i] == rest[i - 1] && targets[i] == targets[1..][i - 1];
        }
      }
    }
  }

  // ----- what closing a group does to the table -----

  /** A node with its child and reference lists set aside. */
  function Bare(n: Node): Node {
    n.(children := [], refs := [])
  }

  /** The slot a resolved list leaves behind at k: an untouched old node, or a
      placeholder. */
  ghost predicate SlotAfter(before: VmState, after: VmState, owner: nat, targets: seq<nat>, k: nat)
    requires k < |after.nodes|
  {
    var n := after.nodes[k];
    if k < |before.nodes| then
      var m := before.nodes[k];
      && Bare(n) == Bare(m)
      && n.children == (if k == owner then m.children + targets else m.children)
      && n.refs == m.refs + Repeat(owner, Occurrences(targets, k))
    else
      && n.placeholder && n.alive && n.kind == INVALID_KIND && n.id == k && n.fields == map[]
      && n.children == [] && n.refs == Repeat(owner, Occurrences(targets, k))
  }

  /** Linking exactly these targets to the owner, and nothing else. */
  ghost predicate LinksExactly(before: VmState, after: VmState, owner: nat, targets: seq<nat>) {
    && |before.nodes| <= |after.nodes|
    && (forall k :: 0 <= k < |after.nodes| ==> SlotAfter(before, after, owner, targets, k))
    && after.freeList == before.freeList && after.snapshots == before.snapshots && after.meta == before.meta
  }

  lemma LinkOne(st: VmState, owner: nat, child: U32)
    requires st.Safe() && owner < |st.nodes|
    ensures LinksExactly(st, LinkChild(st, owner, child), owner, Resolve(st.names, |st.nodes|, [child]))
    ensures var st' := LinkChild(st, owner, child);
      && |st'.nodes| == |st.nodes| + (if child in st.names then 0 else 1)
      && st'.names == (if child in st.names then st.names else Register(st.names, child, |st.nodes|))
  {
    var st' := LinkChild(st, owner, child);
    var targets := Resolve(st.names, |st.nodes|, [child]);
    var target := if child in st.names then st.names[child] else |st.nodes|;
    assert targets == [target];
    forall k | 0 <= k < |st'.nodes| ensures SlotAfter(st, st', owner, targets, k) {
      assert targets[1..] == [];
      assert Occurrences(targets, k) == if k == target then 1 else 0;
    }
  }

  lemma OccurrencesConcat(a: nat, rest: seq<nat>, k: nat)
    ensures Occurrences([a] + rest, k) == Occurrences([a], k) + Occurrences(rest, k)
  {
    assert ([a] + rest)[1..] == rest && [a][1..] == [];
  }

  lemma LinksCompose(a: VmState, b: VmState, c: VmState, owner: nat, first: nat, rest: seq<nat>)
    requires LinksExactly(a, b, owner, [first]) && LinksExactly(b, c, owner, rest)
    requires owner < |a.nodes| && first < |b.nodes|
    ensures LinksExactly(a, c, owner, [first] + rest)
  {
    forall k | 0 <= k < |c.nodes| ensures SlotAfter(a, c, owner, [first] + rest, k) {
      OccurrencesConcat(first, rest, k);
      assert SlotAfter(b, c, owner, rest, k);
      var x, y := Occurrences([first], k), Occurrences(rest, k);
      assert Repeat(owner, x) + Repeat(owner, y) == Repeat(owner, x + y);
      if k < |b.nodes| {
        assert SlotAfter(a, b, owner, [first], k);
        if k < |a.nodes| {
          assert a.nodes[k].refs + Repeat(owner, x) + Repeat(owner, y) == a.nodes[k].refs + Repeat(owner, x + y);
          if k == owner {
            assert a.nodes[k].children + [first] + rest == a.nodes[k].children + ([first] + rest);
          }
        }
      } else {
        assert [first][1..] == [] && x == 0;
      }
    }
  }

  lemma {:induction false} LinkAll(st: VmState, owner: nat, children: seq<U32>)
    requires st.Safe() && owner < |st.nodes|
    ensures LinksExactly(st, LinkChildren(st, owner, children), owner, Resolve(st.names, |st.nodes|, children))
    decreases |children|
  {
    var targets := Resolve(st.names, |st.nodes|, children);
    if children == [] {
      LinkNothing(st, owner);
    } else {
      hide LinkChild, LinksExactly;
      var c := children[0];
      LinkOne(st, owner, c);
      var st1 := LinkChild(st, owner, c);
      LinkAll(st1, owner, children[1..]);
      var first := if c in st.names then st.names[c] else |st.nodes|;
      assert [c][1..] == [] && Resolve(st.names, |st.nodes|, [c]) == [first];
      LinksCompose(st, st1, LinkChildren(st1, owner, children[1..]), owner, first, Resolve(st1.names, |st1.nodes|, children[1..]));
    }
  }

  lemma LinkNothing(st: VmState, owner: nat)
    requires owner < |st.nodes|
    ensures LinksExactly(st, st, owner, [])
  {
    forall k | 0 <= k < |st.nodes| ensures SlotAfter(st, st, owner, [], k) {
      var n := st.nodes[k];
      assert n.refs + Repeat(owner, 0) == n.refs && n.children + [] == n.children;
    }
  }

  ghost predicate Bears(st: VmState) {
    forall a :: a in st.names ==> st.names[a] < |st.nodes| && st.nodes[st.names[a]].name == a
  }

  lemma BearsLinkChild(st: VmState, owner: nat, child: U32)
    requires st.Safe() && owner < |st.nodes| && Bears(st)
    ensures var st' := LinkChild(st, owner, child);
      && Bears(st')
      && |st'.nodes| == |st.nodes| + (if child in st.names then 0 else 1)
      && (forall k :: 0 <= k < |st.nodes| ==> st'.nodes[k].name == st.nodes[k].name)
      && (child !in st.names ==> st'.nodes[|st.nodes|].name == child)
  {
  }

  /** Every target bears its name, and every slot added is a target. */
  lemma {:induction false} TargetsBearNames(st: VmState, owner: nat, children: seq<U32>)
    requires st.Safe() && owner < |st.nodes| && Bears(st)
    ensures var after := LinkChildren(st, owner, children);
      var targets := Resolve(st.names, |st.nodes|, children);
      && |st.nodes| <= |after.nodes|
      && (forall k :: 0 <= k < |st.nodes| ==> after.nodes[k].name == st.nodes[k].name)
      && (forall i :: 0 <= i < |children| ==> targets[i] < |after.nodes| && after.nodes[targets[i]].name == children[i])
      && (forall k :: |st.nodes| <= k < |after.nodes| ==> k in targets)
    decreases |children|
  {
    if children != [] {
      var c, rest := children[0], children[1..];
      LinkOne(st, owner, c);
      BearsLinkChild(st, owner, c);
      hide LinkChild, Bears;
      var st1 := LinkChild(st, owner, c);
      TargetsBearNames(st1, owner, rest);
      var targets, tail := Resolve(st.names, |st.nodes|, children), Resolve(st1.names, |st1.nodes|, rest);
      assert targets[1..] == tail;
      forall i | 0 <= i < |children|
        ensures targets[i] < |LinkChildren(st, owner, children).nodes|
        ensures LinkChildren(st, owner, children).nodes[targets[i]].name == children[i]
      {
        if i == 0 {
          assert c in st.names ==> st1.nodes[st.names[c]].name == c by { BearsAt(st, c); }
        } else {
          assert targets[i] == tail[i - 1] && children[i] == rest[i - 1];
        }
      }
      forall k | |st.nodes| <= k < |LinkChildren(st, owner, children).nodes| ensures k in targets {
        if k >= |st1.nodes| {
          assert k in tail;
        } else {
          assert targets[0] == k;
        }
      }
    }
  }

  lemma BearsAt(st: VmState, c: U32)
    requires Bears(st)
    ensures c in st.names ==> st.names[c] < |st.nodes| && st.nodes[st.names[c]].name == c
  {
  }

  // ----- which owner and which children a frame holds -----

  /** The node the group opened at b belongs to: what its owner name meant then. */
  function OwnerOf(env: Env, st: VmState, ops: seq<Op>, b: nat): Option<nat>
    requires st.Safe() && RunOps(env, st, ops).Ok? && b < |ops| && ops[b].BeginGroup?
  {
    StateFrom(env, st, ops, b).Find(ops[b].owner)
  }

  /** Frame by frame, the machine's group stack is the journal's nesting. */
  ghost predicate FramesHold(env: Env, st: VmState, ops: seq<Op>, i: nat)
    requires st.Safe() && RunOps(env, st, ops).Ok? && i <= |ops|
  {
    var frames, stack := StateFrom(env, st, ops, i).frames, Stack(ops, i);
    && |frames| == |stack|
    && forall k :: 0 <= k < |frames| ==>
         && OwnerOf(env, st, ops, stack[k]) == Some(frames[k].ownerId)
         && frames[k].ownerName == ops[stack[k]].owner
         && frames[k].deferred == Queued(ops, stack[k], i)
  }

  lemma EffectOnFrames(env: Env, st: VmState, op: Op)
    requires st.Safe() && Step(env, st, op).Ok?
    ensures var fs, fs' := st.frames, Step(env, st, op).value.frames;
      var top := |fs| - 1;
      match op
      case BeginGroup(owner, _) => st.Find(owner).Some? && fs' == fs + [Frame(st.Find(owner).value, owner, [])]
      case EndGroup => fs != [] && fs' == fs[..top]
      case AddChild(child) => fs != [] && fs' == fs[top := fs[top].(deferred := fs[top].deferred + [child])]
      case _ => fs' == fs
  {
    hide EdgesOf, MissingEdges;
  }

  lemma QueuedNext(ops: seq<Op>, b: nat, i: nat)
    requires i < |ops|
    ensures Queued(ops, b, i + 1) == Queued(ops, b, i) + if ChildOf(ops, b, i) then [ops[i].child] else []
  {
  }

  lemma FramesHoldStep(env: Env, st: VmState, ops: seq<Op>, i: nat)
    requires st.Safe() && RunOps(env, st, ops).Ok? && i < |ops| && FramesHold(env, st, ops, i)
    ensures FramesHold(env, st, ops, i + 1)
  {
    hide Step, RunOps, StateFrom, Stack, Queued;
    var mid := StateFrom(env, st, ops, i);
    StateFromStep(env, st, ops, i);
    EffectOnFrames(env, mid, ops[i]);
    StackNext(ops, i);
    var s := Stack(ops, i);
    forall k | 0 <= k < |s|
      ensures Queued(ops, s[k], i + 1) == Queued(ops, s[k], i) + if ops[i].AddChild? && k == |s| - 1 then [ops[i].child] else []
    {
      QueuedNext(ops, s[k], i);
      StackSorted(ops, i, k);
    }
    QueuedHasChild(ops, i, i + 1);
    var frames, stack := StateFrom(env, st, ops, i + 1).frames, Stack(ops, i + 1);
    forall k | 0 <= k < |frames|
      ensures k < |stack|
        && OwnerOf(env, st, ops, stack[k]) == Some(frames[k].ownerId)
        && frames[k].ownerName == ops[stack[k]].owner
        && frames[k].deferred == Queued(ops, stack[k], i + 1)
    {
      assert k < |s| ==> stack[k] == s[k];
    }
  }

  lemma StackSorted(ops: seq<Op>, i: nat, k: nat)
    requires i <= |ops| && k < |Stack(ops, i)|
    ensures k < |Stack(ops, i)| - 1 ==> Stack(ops, i)[k] != Stack(ops, i)[|Stack(ops, i)| - 1]
  {
  }

  lemma {:induction false} FramesHoldAlways(env: Env, st: VmState, ops: seq<Op>, i: nat)
    requires st.Safe() && st.frames == [] && RunOps(env, st, ops).Ok? && i <= |ops|
    ensures FramesHold(env, st, ops, i)
  {
    hide RunOps, StateFrom, FramesHold;
    if i == 0 {
      StateFromEnds(env, st, ops);
      NoFramesHold(env, st, ops);
    } else {
      FramesHoldAlways(env, st, ops, i - 1);
      FramesHoldStep(env, st, ops, i - 1);
    }
  }

  lemma NoFramesHold(env: Env, st: VmState, ops: seq<Op>)
    requires st.Safe() && RunOps(env, st, ops).Ok? && StateFrom(env, st, ops, 0).frames == []
    ensures FramesHold(env, st, ops, 0)
  {
  }

  // ----- the theorem -----

  /** In every accepted run, an END_GROUP closes the innermost open group and
      links, to the node that group's name meant when it opened, exactly the
      children queued directly inside it, in order: each known name to its
      node, each unknown one to a placeholder, at most one a name. Every link
      leaves its back-reference, and nothing else in the table changes. */
  lemma EndGroupLinksItsOwner(env: Env, st: VmState, ops: seq<Op>, e: nat)
    requires Inv(env.schema, st) && env.schema.Fits() && st.frames == []
    requires RunOps(env, st, ops).Ok? && e < |ops| && ops[e].EndGroup?
    ensures Innermost(ops, e).Some? && ops[Innermost(ops, e).value].BeginGroup?
    ensures var b := Innermost(ops, e).value;
      var before, after := StateFrom(env, st, ops, e), StateFrom(env, st, ops, e + 1);
      var queued := Queued(ops, b, e);
      var targets := Resolve(before.names, |before.nodes|, queued);
      && OwnerOf(env, st, ops, b).Some?
      && LinksExactly(before, after, OwnerOf(env, st, ops, b).value, targets)
      && (forall i :: 0 <= i < |queued| ==>
            && (if queued[i] in before.names then targets[i] == before.names[queued[i]]
                else targets[i] >= |before.nodes|)
            && targets[i] < |after.nodes| && after.nodes[targets[i]].name == queued[i])
      && (forall k :: |before.nodes| <= k < |after.nodes| ==> k in targets)
      && (forall i, j :: 0 <= i < j < |queued| && queued[i] !in before.names && queued[j] !in before.names ==>
            (targets[i] == targets[j] <==> queued[i] == queued[j] && queued[i] != INVALID_ATOM))
  {
    hide RunOps, StateFrom, Inv, LinksExactly, Step;
    InvSafe(env.schema, st);
    FramesHoldAlways(env, st, ops, e);
    StateFromStep(env, st, ops, e);
    var before := StateFrom(env, st, ops, e);
    EffectOnFrames(env, before, ops[e]);
    StateFromInv(env, st, ops, e);
    AnonymousUnmapped(env.schema, before);
    EndGroupLinks(env, before);
    ResolveMeaning(before.names, |before.nodes|, Queued(ops, Innermost(ops, e).value, e));
  }

  lemma AnonymousUnmapped(schema: Schema, st: VmState)
    requires Inv(schema, st)
    ensures INVALID_ATOM !in st.names && Bears(st) && forall a :: a in st.names ==> st.names[a] < |st.nodes|
  {
    forall a | a in st.names ensures st.nodes[st.names[a]].name == a {
      assert IsNewest(st.nodes, a, st.names[a]);
    }
  }

  lemma EndGroupLinks(env: Env, st: VmState)
    requires st.Safe() && Bears(st) && Step(env, st, EndGroup).Ok?
    ensures st.frames != []
    ensures var frame, after := st.frames[|st.frames| - 1], Step(env, st, EndGroup).value;
      var targets := Resolve(st.names, |st.nodes|, frame.deferred);
      && LinksExactly(st, after, frame.ownerId, targets)
      && (forall i :: 0 <= i < |frame.deferred| ==>
            targets[i] < |after.nodes| && after.nodes[targets[i]].name == frame.deferred[i])
      && (forall k :: |st.nodes| <= k < |after.nodes| ==> k in targets)
  {
    hide LinkChildren, LinksExactly;
    var top := |st.frames| - 1;
    var st1 := st.(frames := st.frames[..top]);
    TargetsBearNames(st1, st.frames[top].ownerId, st.frames[top].deferred);
    LinkAll(st1, st.frames[top].ownerId, st.frames[top].deferred);
    var end := LinkChildren(st1, st.frames[top].ownerId, st.frames[top].deferred);
    LinksIgnoreFramesAndTicks(st1, end, st.frames[top].ownerId, Resolve(st.names, |st.nodes|, st.frames[top].deferred), st);
  }

  lemma LinksIgnoreFramesAndTicks(a: VmState, b: VmState, owner: nat, targets: seq<nat>, st: VmState)
    requires LinksExactly(a, b, owner, targets)
    requires st.nodes == a.nodes && st.freeList == a.freeList && st.snapshots == a.snapshots && st.meta == a.meta
    ensures LinksExactly(st, Tick(b), owner, targets)
  {
    forall k | 0 <= k < |b.nodes| ensures SlotAfter(st, Tick(b), owner, targets, k) {
      assert SlotAfter(a, b, owner, targets, k);
    }
  }
}
