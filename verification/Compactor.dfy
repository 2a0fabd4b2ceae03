/** JournalCompactor's passes, in place over the decoded operations, proved to
    compute exactly what the specification says. */
module Compactor {
  import opened Basics
  import opened Codec
  import opened Model
  import opened ReplayVm
  import opened Journal
  import opened Groups
  import opened Compaction
  import opened CompactorSpec

  // ----- decoding -----

  /** Read one operation; its operand types come from the kinds numbered so far. */
  method ReadRecord(r: ByteReader, schema: Schema, kinds: seq<U32>) returns (res: Result<Op>)
    requires r.Valid()
    modifies r`pos
    ensures r.Reads(old(r.Rest()), ReadOp(schema, kinds, DEFAULT_LIMITS, old(r.Rest())), res)
  {
    hide ReadVarintU32, ReadValue;
    var raw :- r.U8();
    match raw {
      case 0x01 =>
        var kind :- r.VarintU32();
        var name :- r.VarintU32();
        return Ok(NewNode(kind, name));
      case 0x02 =>
        var node :- r.VarintU32();
        var field :- r.VarintU32();
        var v :- DecodeValue(r, WireType(schema, kinds, node, field), DEFAULT_LIMITS);
        return Ok(SetField(node, field, v));
      case 0x03 =>
        var owner :- r.VarintU32();
        var hint :- r.VarintU32();
        return Ok(BeginGroup(owner, hint));
      case 0x04 =>
        return Ok(EndGroup);
      case 0x05 =>
        var child :- r.VarintU32();
        return Ok(AddChild(child));
      case 0x06 =>
        var src :- r.VarintU32();
        var field :- r.VarintU32();
        var target :- r.VarintU32();
        return Ok(LinkRef(src, field, target));
      case 0x07 =>
        var node :- r.VarintU32();
        return Ok(DropNode(node));
      case 0x08 =>
        var tag :- r.VarintU32();
        return Ok(Snapshot(tag));
      case 0x09 =>
        var key :- r.VarintU32();
        var value :- r.VarintU32();
        return Ok(SetMeta(key, value));
      case 0x0A =>
        return Ok(Nop);
      case _ =>
        return Err(BadOpcode);
    }
  }

  method DecodeAll(r: ByteReader, schema: Schema) returns (res: Result<seq<OpRecord>>)
    requires r.Valid()
    modifies r`pos
    ensures r.Valid() && res == DecodeJournal(schema, old(r.Rest()))
  {
    hide ReadVarintU32, ReadOp, Track;
    var count :- r.VarintU32();
    ghost var spec := DecodeOps(schema, START, r.Rest(), count);
    var recs: seq<OpRecord>, ds, i := [], START, 0;
    if spec.Ok? {
      assert [] + spec.value.0.0 == spec.value.0.0;
    }
    while i < count
      invariant 0 <= i <= count && r.Valid()
      invariant match DecodeOps(schema, ds, r.Rest(), count - i)
                case Ok(tail) => spec == Ok(((recs + tail.0.0, tail.0.1), tail.1))
                case Err(code) => spec == Err(code)
    {
      ghost var before := r.Rest();
      var op :- ReadRecord(r, schema, ds.kinds);
      var tracked :- Track(ds, op);
      ghost var tail := DecodeOps(schema, tracked.1, r.Rest(), count - i - 1);
      if tail.Ok? {
        assert recs + ([tracked.0] + tail.value.0.0) == recs + [tracked.0] + tail.value.0.0;
      }
      recs, ds, i := recs + [tracked.0], tracked.1, i + 1;
    }
    assert recs + [] == recs;
    if ds.stack != [] {
      return Err(GroupUnderflow);
    }
    return Ok(recs);
  }

  // ----- pass 3: live nodes -----

  method LiveNodes(ops: seq<Op>) returns (live: set<nat>)
    ensures live == LiveIds(ops, |ops|)
  {
    live := {};
    var nextId, i := 0, 0;
    while i < |ops|
      invariant 0 <= i <= |ops|
      invariant live == LiveIds(ops, i) && nextId == Numbered(ops, i)
    {
      if ops[i].NewNode? {
        live := live + {nextId};
        nextId := nextId + 1;
      } else if ops[i].DropNode? {
        live := live - {ops[i].dropped};
      }
      i := i + 1;
    }
  }

  // ----- pass 4: marking -----

  /** The operations from position i on that one of these fates removes. */
  ghost predicate Marked(ops: seq<Op>, dead: seq<bool>, fates: set<Fate>) {
    |dead| == |ops| && forall i :: 0 <= i < |ops| ==> (dead[i] <==> FateOf(ops, i) in fates)
  }

  method MarkNops(ops: seq<Op>) returns (dead: seq<bool>, nops: nat)
    ensures Marked(ops, dead, {IsNop}) && nops == CountFate(ops, |ops|, IsNop)
  {
    hide Pending, HasChild, LiveIds;
    dead, nops := [], 0;
    var i := 0;
    while i < |ops|
      invariant 0 <= i == |dead| <= |ops|
      invariant forall k :: 0 <= k < i ==> (dead[k] <==> FateOf(ops, k) in {IsNop})
      invariant nops == CountFate(ops, i, IsNop)
    {
      dead := dead + [ops[i].Nop?];
      if ops[i].Nop? {
        nops := nops + 1;
      }
      i := i + 1;
    }
  }

  /** Walk backwards: the first write seen to a field is its last. */
  method MarkRedundant(ops: seq<Op>, before: seq<bool>) returns (dead: seq<bool>, redundant: nat)
    requires Marked(ops, before, {IsNop})
    ensures Marked(ops, dead, {IsNop, Redundant}) && redundant == CountFate(ops, |ops|, Redundant)
  {
    hide Pending, HasChild, LiveIds;
    dead, redundant := before, 0;
    var seen: set<(nat, U32)>, i := {}, |ops|;
    forall n: nat, f: U32 ensures !Pending(ops, |ops|, n, f) {
      NothingPendingAtEnd(ops, n, f);
    }
    while i > 0
      invariant 0 <= i <= |ops| == |dead|
      invariant forall k :: 0 <= k < i ==> dead[k] == before[k]
      invariant forall k :: i <= k < |ops| ==> (dead[k] <==> FateOf(ops, k) in {IsNop, Redundant})
      invariant forall n: nat, f: U32 :: (n, f) in seen <==> Pending(ops, i, n, f)
      invariant redundant + CountFate(ops, i, Redundant) == CountFate(ops, |ops|, Redundant)
    {
      i := i - 1;
      forall n: nat, f: U32 ensures Pending(ops, i, n, f) <==> SetsKey(ops[i], n, f) || Pending(ops, i + 1, n, f) {
        PendingStep(ops, i, n, f);
      }
      if ops[i].SetField? {
        var key := (ops[i].node, ops[i].field);
        if key in seen {
          dead := dead[i := true];
          redundant := redundant + 1;
        } else {
          seen := seen + {key};
        }
      }
    }
  }

  lemma NothingPendingAtEnd(ops: seq<Op>, n: nat, f: U32)
    ensures !Pending(ops, |ops|, n, f)
  {
  }

  method MarkDeadNodes(ops: seq<Op>, before: seq<bool>, live: set<nat>) returns (dead: seq<bool>, count: nat)
    requires Marked(ops, before, {IsNop, Redundant}) && live == LiveIds(ops, |ops|)
    ensures Marked(ops, dead, {IsNop, Redundant, OnDeadNode}) && count == CountFate(ops, |ops|, OnDeadNode)
  {
    hide Pending, HasChild, LiveIds;
    dead, count := before, 0;
    var i := 0;
    while i < |ops|
      invariant 0 <= i <= |ops| == |dead|
      invariant forall k :: i <= k < |ops| ==> dead[k] == before[k]
      invariant forall k :: 0 <= k < i ==> (dead[k] <==> FateOf(ops, k) in {IsNop, Redundant, OnDeadNode})
      invariant count == CountFate(ops, i, OnDeadNode)
    {
      if !dead[i] && (ops[i].SetField? || ops[i].LinkRef?) {
        var node: nat := if ops[i].SetField? then ops[i].node else ops[i].src;
        if node !in live {
          dead := dead[i := true];
          count := count + 1;
        }
      }
      i := i + 1;
    }
  }

  // ----- pass 4d: groups without children -----

  datatype GroupFrame = GroupFrame(begin: nat, end: nat, children: seq<nat>)

  /** The positions of the children queued directly in the group at b. */
  function ChildPositions(ops: seq<Op>, b: nat, i: nat): (r: seq<nat>)
    requires i <= |ops|
    ensures forall k :: 0 <= k < |r| ==> r[k] < i && ChildOf(ops, b, r[k])
  {
    if i == 0 then []
    else if ChildOf(ops, b, i - 1) then ChildPositions(ops, b, i - 1) + [i - 1]
    else ChildPositions(ops, b, i - 1)
  }

  /** The groups closed by the first i operations, in closing order. */
  function Completed(ops: seq<Op>, i: nat): (r: seq<GroupFrame>)
    requires i <= |ops|
    ensures forall k :: 0 <= k < |r| ==> r[k].end < i && ops[r[k].end].EndGroup?
    ensures forall k :: 0 <= k < |r| ==> Innermost(ops, r[k].end) == Some(r[k].begin)
    ensures forall j, k :: 0 <= j < k < |r| ==> r[j].end < r[k].end
  {
    if i == 0 then []
    else
      var rest := Completed(ops, i - 1);
      var b := Innermost(ops, i - 1);
      if ops[i - 1].EndGroup? && b.Some?
      then rest + [GroupFrame(b.value, i - 1, ChildPositions(ops, b.value, i - 1))]
      else rest
  }

  function OpenFrames(ops: seq<Op>, stack: seq<nat>, i: nat): (r: seq<GroupFrame>)
    requires i <= |ops|
    ensures |r| == |stack|
    ensures forall k :: 0 <= k < |r| ==> r[k] == GroupFrame(stack[k], 0, ChildPositions(ops, stack[k], i))
  {
    seq(|stack|, k requires 0 <= k < |stack| => GroupFrame(stack[k], 0, ChildPositions(ops, stack[k], i)))
  }

  lemma {:induction false} NoChildBefore(ops: seq<Op>, b: nat, i: nat)
    requires i <= |ops| && i <= b + 1
    ensures ChildPositions(ops, b, i) == []
  {
    if i > 0 {
      NoChildBefore(ops, b, i - 1);
    }
  }

  /** Pair the brackets that are not already dead, collecting each group's children. */
  method PairGroups(ops: seq<Op>, dead: seq<bool>) returns (completed: seq<GroupFrame>)
    requires Marked(ops, dead, {IsNop, Redundant, OnDeadNode})
    ensures completed == Completed(ops, |ops|)
  {
    hide Stack, ChildPositions, OpenFrames, FateOf, Completed, Innermost, Marked;
    completed := [];
    assert |dead| == |ops| by { GroupOpsAreUnmarked(ops, dead); }
    var open: seq<GroupFrame>, i := [], 0;
    NothingOpenAtStart(ops);
    while i < |ops|
      invariant 0 <= i <= |ops|
      invariant open == OpenFrames(ops, Stack(ops, i), i)
      invariant completed == Completed(ops, i)
    {
      PairStep(ops, i);
      CompleteStep(ops, i);
      GroupOpsAreUnmarked(ops, dead);
      var top := |open| - 1;
      if dead[i] {
      } else if ops[i].BeginGroup? {
        open := open + [GroupFrame(i, 0, [])];
      } else if ops[i].EndGroup? {
        if open != [] {
          completed := completed + [open[top].(end := i)];
          open := open[..top];
        }
      } else if ops[i].AddChild? {
        if open != [] {
          open := open[top := open[top].(children := open[top].children + [i])];
        }
      }
      i := i + 1;
    }
  }

  lemma CompleteStep(ops: seq<Op>, i: nat)
    requires i < |ops|
    ensures var open := OpenFrames(ops, Stack(ops, i), i);
      Completed(ops, i + 1) ==
        if ops[i].EndGroup? && open != [] then Completed(ops, i) + [open[|open| - 1].(end := i)] else Completed(ops, i)
  {
    hide Stack, ChildPositions;
  }

  lemma NothingOpenAtStart(ops: seq<Op>)
    ensures OpenFrames(ops, Stack(ops, 0), 0) == [] && Completed(ops, 0) == []
  {
  }

  lemma GroupOpsAreUnmarked(ops: seq<Op>, dead: seq<bool>)
    requires Marked(ops, dead, {IsNop, Redundant, OnDeadNode})
    ensures |dead| == |ops|
    ensures forall i :: 0 <= i < |ops| && dead[i] ==> !ops[i].BeginGroup? && !ops[i].EndGroup? && !ops[i].AddChild?
  {
    hide HasChild;
  }

  lemma ChildNext(ops: seq<Op>, b: nat, i: nat)
    requires i < |ops|
    ensures ChildPositions(ops, b, i + 1) == ChildPositions(ops, b, i) + if ChildOf(ops, b, i) then [i] else []
  {
  }

  /** How the collected children of an open group change. */
  lemma OpenFrameNext(ops: seq<Op>, i: nat, k: nat)
    requires i < |ops| && k < |Stack(ops, i)|
    ensures var s := Stack(ops, i);
      ChildPositions(ops, s[k], i + 1)
        == ChildPositions(ops, s[k], i) + if ops[i].AddChild? && k == |s| - 1 then [i] else []
  {
    ChildNext(ops, Stack(ops, i)[k], i);
  }

  /** What one operation does to the list of open groups. */
  function StepOpen(open: seq<GroupFrame>, op: Op, i: nat): seq<GroupFrame> {
    if op.BeginGroup? then open + [GroupFrame(i, 0, [])]
    else if open == [] then open
    else if op.EndGroup? then open[..|open| - 1]
    else if op.AddChild? then
      open[|open| - 1 := open[|open| - 1].(children := open[|open| - 1].children + [i])]
    else open
  }

  lemma PairStep(ops: seq<Op>, i: nat)
    requires i < |ops|
    ensures OpenFrames(ops, Stack(ops, i + 1), i + 1) == StepOpen(OpenFrames(ops, Stack(ops, i), i), ops[i], i)
  {
    hide Stack, ChildPositions;
    NoChildBefore(ops, i, i + 1);
    StackNext(ops, i);
    var s := Stack(ops, i);
    forall k | 0 <= k < |s|
      ensures ChildPositions(ops, s[k], i + 1)
        == if ops[i].AddChild? && k == |s| - 1 then ChildPositions(ops, s[k], i) + [i] else ChildPositions(ops, s[k], i)
    {
      OpenFrameNext(ops, i, k);
    }
    var r, t := OpenFrames(ops, Stack(ops, i + 1), i + 1), StepOpen(OpenFrames(ops, s, i), ops[i], i);
    assert |r| == |t|;
    assert forall k :: 0 <= k < |r| ==> r[k] == t[k];
  }

  lemma {:induction false} ChildPositionsComplete(ops: seq<Op>, b: nat, i: nat)
    requires i <= |ops|
    ensures forall j: nat :: j < i && ChildOf(ops, b, j) ==> j in ChildPositions(ops, b, i)
  {
    if i > 0 {
      ChildPositionsComplete(ops, b, i - 1);
    }
  }

  lemma StackGrowth(ops: seq<Op>, j: nat, b: nat)
    requires 0 < j <= |ops| && b < j - 1 && b !in Stack(ops, j - 1)
    ensures b !in Stack(ops, j)
  {
  }

  /** A closed group never reopens. */
  lemma {:induction false} ClosedStaysClosed(ops: seq<Op>, e: nat, j: nat)
    requires e < j <= |ops| && ops[e].EndGroup? && Innermost(ops, e).Some?
    ensures Innermost(ops, e).value !in Stack(ops, j)
    decreases j
  {
    if j == e + 1 {
      InnermostCloses(ops, e);
    } else {
      hide Stack;
      ClosedStaysClosed(ops, e, j - 1);
      StackGrowth(ops, j, Innermost(ops, e).value);
    }
  }

  lemma InnermostCloses(ops: seq<Op>, e: nat)
    requires e < |ops| && ops[e].EndGroup? && Innermost(ops, e).Some?
    ensures Innermost(ops, e).value !in Stack(ops, e + 1)
  {
    var s := Stack(ops, e);
    assert Stack(ops, e + 1) == s[..|s| - 1];
  }

  /** When a group closes, the children collected are all it will ever have. */
  lemma ChildrenAtClose(ops: seq<Op>, e: nat)
    requires e < |ops| && ops[e].EndGroup? && Innermost(ops, e).Some?
    ensures HasChild(ops, Innermost(ops, e).value) <==> ChildPositions(ops, Innermost(ops, e).value, e) != []
  {
    var b := Innermost(ops, e).value;
    ChildPositionsComplete(ops, b, e);
    if ChildPositions(ops, b, e) != [] {
      assert ChildOf(ops, b, ChildPositions(ops, b, e)[0]);
    }
    if HasChild(ops, b) {
      var j: nat :| ChildOf(ops, b, j);
      assert b in Stack(ops, j);
      if j > e {
        ClosedStaysClosed(ops, e, j);
      }
    }
  }

  /** Which brackets the first c completed groups mark. */
  ghost function EmptyBrackets(frames: seq<GroupFrame>, c: nat): set<nat>
    requires c <= |frames|
  {
    if c == 0 then {}
    else if frames[c - 1].children == [] then EmptyBrackets(frames, c - 1) + {frames[c - 1].begin, frames[c - 1].end}
    else EmptyBrackets(frames, c - 1)
  }

  lemma {:induction false} EmptyBracketsOf(frames: seq<GroupFrame>, c: nat)
    requires c <= |frames|
    ensures forall i :: i in EmptyBrackets(frames, c) <==>
      exists k :: 0 <= k < c && frames[k].children == [] && (i == frames[k].begin || i == frames[k].end)
  {
    if c > 0 {
      EmptyBracketsOf(frames, c - 1);
    }
  }

  /** The groups opened by distinct brackets: no begin is closed twice. */
  lemma BeginsDistinct(ops: seq<Op>, j: nat, k: nat)
    requires j < k < |Completed(ops, |ops|)|
    ensures Completed(ops, |ops|)[j].begin != Completed(ops, |ops|)[k].begin
  {
    var frames := Completed(ops, |ops|);
    ClosedStaysClosed(ops, frames[j].end, frames[k].end);
    assert frames[k].begin in Stack(ops, frames[k].end);
  }

  lemma FreshBrackets(ops: seq<Op>, c: nat)
    requires c < |Completed(ops, |ops|)|
    ensures var frames := Completed(ops, |ops|);
      && frames[c].begin != frames[c].end
      && frames[c].begin !in EmptyBrackets(frames, c) && frames[c].end !in EmptyBrackets(frames, c)
  {
    var frames := Completed(ops, |ops|);
    EmptyBracketsOf(frames, c);
    forall k | 0 <= k < c ensures frames[k].begin != frames[c].begin {
      BeginsDistinct(ops, k, c);
    }
    assert ops[frames[c].begin].BeginGroup? && ops[frames[c].end].EndGroup?;
    forall k | 0 <= k < c ensures ops[frames[k].begin].BeginGroup? && ops[frames[k].end].EndGroup? {
    }
  }

  lemma {:induction false} CompletedFindsEnd(ops: seq<Op>, n: nat, e: nat) returns (k: nat)
    requires e < n <= |ops| && ops[e].EndGroup? && Innermost(ops, e).Some?
    ensures k < |Completed(ops, n)|
    ensures Completed(ops, n)[k] == GroupFrame(Innermost(ops, e).value, e, ChildPositions(ops, Innermost(ops, e).value, e))
  {
    if e == n - 1 {
      k := |Completed(ops, n)| - 1;
    } else {
      k := CompletedFindsEnd(ops, n - 1, e);
    }
  }

  /** One operation closes at most the innermost group. */
  lemma StaysOpen(ops: seq<Op>, n: nat, b: nat)
    requires n < |ops| && (b in Stack(ops, n) || (b == n && ops[n].BeginGroup?))
    ensures b in Stack(ops, n + 1) || (ops[n].EndGroup? && Innermost(ops, n) == Some(b))
  {
    hide Stack;
    StackNext(ops, n);
    var s, s' := Stack(ops, n), Stack(ops, n + 1);
    if b == n {
      assert s'[|s|] == b;
    } else {
      var j :| 0 <= j < |s| && s[j] == b;
      assert j < |s'| ==> s'[j] == b;
    }
  }

  /** Every group opened is still open or was completed. */
  lemma {:induction false} CompletedFindsBegin(ops: seq<Op>, n: nat, b: nat) returns (k: nat)
    requires b < n <= |ops| && ops[b].BeginGroup? && b !in Stack(ops, n)
    ensures k < |Completed(ops, n)| && Completed(ops, n)[k].begin == b
  {
    if b == n - 1 || b in Stack(ops, n - 1) {
      StaysOpen(ops, n - 1, b);
      k := |Completed(ops, n)| - 1;
    } else {
      k := CompletedFindsBegin(ops, n - 1, b);
    }
  }

  lemma {:induction false} CompletedChildren(ops: seq<Op>, n: nat, k: nat)
    requires n <= |ops| && k < |Completed(ops, n)|
    ensures var f := Completed(ops, n)[k]; f.children == ChildPositions(ops, f.begin, f.end)
  {
    if n > 0 && k < |Completed(ops, n - 1)| {
      CompletedChildren(ops, n - 1, k);
    }
  }

  /** The brackets of childless groups are exactly the EmptyGroup operations. */
  lemma EmptyBracketsAreFates(ops: seq<Op>)
    requires Balanced(ops)
    ensures var frames := Completed(ops, |ops|);
      forall i :: 0 <= i < |ops| ==> (i in EmptyBrackets(frames, |frames|) <==> FateOf(ops, i) == EmptyGroup)
    ensures forall i :: i in EmptyBrackets(Completed(ops, |ops|), |Completed(ops, |ops|)|) ==> 0 <= i < |ops|
  {
    var frames := Completed(ops, |ops|);
    EmptyBracketsOf(frames, |frames|);
    forall k | 0 <= k < |frames|
      ensures FateOf(ops, frames[k].end) == EmptyGroup <==> frames[k].children == []
      ensures FateOf(ops, frames[k].begin) == EmptyGroup <==> frames[k].children == []
    {
      ChildrenAtClose(ops, frames[k].end);
      CompletedChildren(ops, |ops|, k);
    }
    forall i | 0 <= i < |ops| && FateOf(ops, i) == EmptyGroup
      ensures i in EmptyBrackets(frames, |frames|)
    {
      if ops[i].BeginGroup? {
        var k := CompletedFindsBegin(ops, |ops|, i);
      } else {
        var k := CompletedFindsEnd(ops, |ops|, i);
      }
    }
  }

  ghost function WithFate(ops: seq<Op>, n: nat, fate: Fate): set<nat>
    requires n <= |ops|
  {
    set i: nat | i < n && FateOf(ops, i) == fate
  }

  lemma {:induction false} CountFateIsSize(ops: seq<Op>, n: nat, fate: Fate)
    requires n <= |ops|
    ensures |WithFate(ops, n, fate)| == CountFate(ops, n, fate)
  {
    hide FateOf;
    if n > 0 {
      CountFateIsSize(ops, n - 1, fate);
      var rest := WithFate(ops, n - 1, fate);
      if FateOf(ops, n - 1) == fate {
        assert WithFate(ops, n, fate) == rest + {n - 1};
      } else {
        assert WithFate(ops, n, fate) == rest;
      }
    }
  }

  /** Remove one completed group unless one of its ADD_CHILDs survives. */
  method RemoveIfChildless(frame: GroupFrame, before: seq<bool>) returns (dead: seq<bool>, count: nat)
    requires frame.begin < |before| && frame.end < |before|
    requires forall k :: 0 <= k < |frame.children| ==> frame.children[k] < |before| && !before[frame.children[k]]
    ensures if frame.children == []
            then dead == before[frame.begin := true][frame.end := true] && count == 2
            else dead == before && count == 0
  {
    dead, count := before, 0;
    var hasLiveChild, k := false, 0;
    while k < |frame.children| && !hasLiveChild
      invariant 0 <= k <= |frame.children|
      invariant hasLiveChild <==> k > 0
    {
      if !dead[frame.children[k]] {
        hasLiveChild := true;
      }
      k := k + 1;
    }
    if !hasLiveChild {
      dead := dead[frame.begin := true][frame.end := true];
      count := 2;
      // `compact` goes on to mark the remaining children; there are none.
    }
  }

  /** Remove every completed group none of whose ADD_CHILDs survives. */
  method MarkEmptyGroups(ops: seq<Op>, before: seq<bool>, frames: seq<GroupFrame>)
    returns (dead: seq<bool>, count: nat)
    requires Balanced(ops)
    requires Marked(ops, before, {IsNop, Redundant, OnDeadNode}) && frames == Completed(ops, |ops|)
    ensures Marked(ops, dead, {IsNop, Redundant, OnDeadNode, EmptyGroup})
    ensures count == CountFate(ops, |ops|, EmptyGroup)
  {
    hide FateOf, Completed, Stack, EmptyBrackets, CountFate, Balanced, Marked;
    dead, count := before, 0;
    var c := 0;
    MarksAtStart(ops, before, frames);
    while c < |frames|
      invariant 0 <= c <= |frames|
      invariant MarksSoFar(ops, before, dead, frames, c)
      invariant count == |EmptyBrackets(frames, c)|
    {
      FreshBrackets(ops, c);
      FrameAlive(ops, frames, c, before, dead);
      MarksStep(ops, before, dead, frames, c);
      var marked;
      dead, marked := RemoveIfChildless(frames[c], dead);
      count := count + marked;
      c := c + 1;
    }
    MarksAtEnd(ops, before, dead, frames);
  }

  ghost predicate MarksSoFar(ops: seq<Op>, before: seq<bool>, dead: seq<bool>, frames: seq<GroupFrame>, c: nat)
    requires c <= |frames|
  {
    && |before| == |dead| == |ops|
    && forall i :: 0 <= i < |ops| ==> (dead[i] <==> before[i] || i in EmptyBrackets(frames, c))
  }

  lemma MarksAtStart(ops: seq<Op>, before: seq<bool>, frames: seq<GroupFrame>)
    requires Marked(ops, before, {IsNop, Redundant, OnDeadNode})
    ensures MarksSoFar(ops, before, before, frames, 0) && EmptyBrackets(frames, 0) == {}
  {
  }

  lemma MarksStep(ops: seq<Op>, before: seq<bool>, dead: seq<bool>, frames: seq<GroupFrame>, c: nat)
    requires c < |frames| && MarksSoFar(ops, before, dead, frames, c)
    requires frames[c].begin < |ops| && frames[c].end < |ops| && frames[c].begin != frames[c].end
    requires frames[c].begin !in EmptyBrackets(frames, c) && frames[c].end !in EmptyBrackets(frames, c)
    ensures frames[c].children == [] ==>
      && MarksSoFar(ops, before, dead[frames[c].begin := true][frames[c].end := true], frames, c + 1)
      && |EmptyBrackets(frames, c + 1)| == |EmptyBrackets(frames, c)| + 2
    ensures frames[c].children != [] ==>
      && MarksSoFar(ops, before, dead, frames, c + 1)
      && EmptyBrackets(frames, c + 1) == EmptyBrackets(frames, c)
  {
  }

  lemma MarksAtEnd(ops: seq<Op>, before: seq<bool>, dead: seq<bool>, frames: seq<GroupFrame>)
    requires Balanced(ops) && frames == Completed(ops, |ops|)
    requires Marked(ops, before, {IsNop, Redundant, OnDeadNode})
    requires MarksSoFar(ops, before, dead, frames, |frames|)
    ensures Marked(ops, dead, {IsNop, Redundant, OnDeadNode, EmptyGroup})
    ensures |EmptyBrackets(frames, |frames|)| == CountFate(ops, |ops|, EmptyGroup)
  {
    hide FateOf, Completed, EmptyBrackets, CountFate, Balanced;
    EmptyBracketsAreFates(ops);
    CountFateIsSize(ops, |ops|, EmptyGroup);
    assert EmptyBrackets(frames, |frames|) == WithFate(ops, |ops|, EmptyGroup);
  }

  /** No earlier pass, and no earlier group, marks an ADD_CHILD. */
  lemma FrameAlive(ops: seq<Op>, frames: seq<GroupFrame>, c: nat, before: seq<bool>, dead: seq<bool>)
    requires frames == Completed(ops, |ops|) && c < |frames|
    requires Marked(ops, before, {IsNop, Redundant, OnDeadNode}) && MarksSoFar(ops, before, dead, frames, c)
    ensures frames[c].begin < |ops| && frames[c].end < |ops|
    ensures forall k :: 0 <= k < |frames[c].children| ==> frames[c].children[k] < |ops| && !dead[frames[c].children[k]]
  {
    hide FateOf, Stack, EmptyBrackets, Completed, ChildPositions, Innermost;
    CompletedChildren(ops, |ops|, c);
    forall k | 0 <= k < |frames[c].children|
      ensures frames[c].children[k] < |ops| && !dead[frames[c].children[k]]
    {
      ChildUnmarked(ops, c, frames[c].children[k]);
      GroupOpsAreUnmarked(ops, before);
    }
  }

  lemma ChildUnmarked(ops: seq<Op>, c: nat, j: nat)
    requires c <= |Completed(ops, |ops|)| && j < |ops| && ops[j].AddChild?
    ensures j !in EmptyBrackets(Completed(ops, |ops|), c)
  {
    var frames := Completed(ops, |ops|);
    EmptyBracketsOf(frames, c);
    forall x | 0 <= x < c ensures frames[x].begin != j && frames[x].end != j {
      assert ops[frames[x].begin].BeginGroup? && ops[frames[x].end].EndGroup?;
    }
  }

  // ----- phase 5: re-encoding -----

  /** Append a value's payload; an Invalid value falls back to a zero integer,
      which no survivor needs. */
  method EncodeValue(v: Value, w: ByteWriter)
    requires v.ListV? ==> |v.items| < TWO64
    modifies w
    ensures w.buf == old(w.buf) + if v == Invalid then SVarint(0) else ValueBytes(v)
  {
    hide Varint;
    match v {
      case Invalid => w.PutSVarint(0);
      case _ => Model.EncodeValue(v, w);
    }
  }

  method EncodeOperands(rec: OpRecord, w: ByteWriter)
    requires Encodable(rec.op, DEFAULT_LIMITS) && (rec.op.BeginGroup? ==> rec.groupChildren == [])
    modifies w
    ensures w.buf == old(w.buf) + OperandBytes(Emitted(rec.op))
  {
    hide Varint, SVarint, ValueBytes;
    match rec.op {
      case NewNode(kind, name) => w.PutVarint(kind); w.PutVarint(name);
      case SetField(node, field, value) =>
        w.PutVarint(node);
        w.PutVarint(field);
        EncodeValue(value, w);
        assert w.buf == old(w.buf) + (Varint(node) + (Varint(field) + ValueBytes(value)));
      case BeginGroup(owner, _) => w.PutVarint(owner); w.PutVarint(|rec.groupChildren|);
      case EndGroup =>
      case AddChild(child) => w.PutVarint(child);
      case LinkRef(src, field, target) => w.PutVarint(src); w.PutVarint(field); w.PutVarint(target);
      case DropNode(node) => w.PutVarint(node);
      case Snapshot(tag) => w.PutVarint(tag);
      case SetMeta(key, value) => w.PutVarint(key); w.PutVarint(value);
      case Nop =>
    }
  }

  /** Write a surviving record. A BEGIN_GROUP's hint is the number of children
      its record holds, which is none. */
  method EncodeOp(rec: OpRecord, w: ByteWriter)
    requires Encodable(rec.op, DEFAULT_LIMITS) && (rec.op.BeginGroup? ==> rec.groupChildren == [])
    modifies w
    ensures w.buf == old(w.buf) + OpBytes(Emitted(rec.op))
  {
    hide OperandBytes, Encodable;
    w.PutU8(OpByte(rec.op));
    EncodeOperands(rec, w);
  }

  method EncodeSurvivors(recs: seq<OpRecord>, dead: seq<bool>, body: ByteWriter) returns (count: nat)
    requires Marked(OpsOf(recs), dead, {IsNop, Redundant, OnDeadNode, EmptyGroup}) && body.buf == []
    requires forall rec :: rec in recs ==> Encodable(rec.op, DEFAULT_LIMITS) && (rec.op.BeginGroup? ==> rec.groupChildren == [])
    modifies body
    ensures body.buf == OpsBytes(Compacted(OpsOf(recs))) && count == |Compacted(OpsOf(recs))|
  {
    hide FateOf, OpBytes;
    count := 0;
    ghost var ops := OpsOf(recs);
    var i := 0;
    while i < |recs|
      invariant 0 <= i <= |recs|
      invariant body.buf == OpsBytes(Survivors(ops, i)) && count == |Survivors(ops, i)|
    {
      assert recs[i] in recs;
      assert FateOf(ops, i) == Kept <==> !dead[i];
      if !dead[i] {
        EncodeOp(recs[i], body);
        OpsBytesAppend(Survivors(ops, i), [Emitted(ops[i])]);
        OpsBytesOne(Emitted(ops[i]));
        count := count + 1;
      } else {
        assert Survivors(ops, i + 1) == Survivors(ops, i);
      }
      i := i + 1;
    }
  }

  /** Compact the journal at the cursor. */
  method CompactJournal(r: ByteReader, schema: Schema) returns (res: Result<(seq<Byte>, CompactionStats)>)
    requires r.Valid()
    modifies r`pos
    ensures r.Valid() && res == Compact(schema, old(r.Rest()))
  {
    hide DecodeJournal, Decodable, Compacted, OpsBytes, Marked, FateOf, LiveIds, CountFate, Balanced, Completed, Encodable;
    ghost var s := r.Rest();
    var recs :- DecodeAll(r, schema);
    var ops := OpsOf(recs);
    DecodedJournal(schema, s);
    RecordsEncodable(schema, s);
    var live := LiveNodes(ops);
    var dead, nops := MarkNops(ops);
    var redundant, deadNode, emptyGroup;
    dead, redundant := MarkRedundant(ops, dead);
    dead, deadNode := MarkDeadNodes(ops, dead, live);
    var frames := PairGroups(ops, dead);
    dead, emptyGroup := MarkEmptyGroups(ops, dead, frames);
    var body := new ByteWriter();
    var outCount := EncodeSurvivors(recs, dead, body);
    var w := new ByteWriter();
    SurvivorsFit(ops);
    w.PutVarint(outCount);
    w.PutRaw(body.buf);
    assert w.buf == JournalBytes(Compacted(ops));
    return Ok((w.buf, CompactionStats(|ops|, outCount, deadNode, redundant, nops, emptyGroup)));
  }

  lemma SurvivorsFit(ops: seq<Op>)
    ensures |Compacted(ops)| <= |ops|
  {
  }

  lemma RecordsEncodable(schema: Schema, s: seq<Byte>)
    requires DecodeJournal(schema, s).Ok?
    ensures var recs := DecodeJournal(schema, s).value;
      && Balanced(OpsOf(recs))
      && forall rec :: rec in recs ==> Encodable(rec.op, DEFAULT_LIMITS) && (rec.op.BeginGroup? ==> rec.groupChildren == [])
  {
    hide ReadVarintU32, DecodeOps;
    var recs := DecodeJournal(schema, s).value;
    var ops := OpsOf(recs);
    DecodedJournal(schema, s);
    forall i | 0 <= i < |recs| ensures Encodable(recs[i].op, DEFAULT_LIMITS) && (ops[i].EndGroup? ==> Stack(ops, i) != []) {
      assert DecodableAt(schema, ops, i);
    }
    var (count, s1) := ReadVarintU32(s).value;
    BeginRecordsHaveNoChildren(schema, START, s1, count);
  }
}
