/** What compaction removes and what its output is, described by positions in
    the journal alone: which write is the last of its key, which node ends
    live, which group has a child. */
module CompactionLaws {
  import opened Basics
  import opened Model
  import opened ReplayVm
  import opened Journal
  import opened Groups
  import opened Compaction
  import opened CompactorSpec
  import opened CompactorIdempotence
  import Compactor

  // ----- writes and nodes -----

  predicate SameKey(a: Op, b: Op) {
    a.SetField? && b.SetField? && a.node == b.node && a.field == b.field
  }

  /** A later SET_FIELD writes the same field of the same node. */
  predicate LaterWrite(ops: seq<Op>, i: nat)
    requires i < |ops|
  {
    exists j :: i < j < |ops| && SameKey(ops[i], ops[j])
  }

  function NewNodesBefore(ops: seq<Op>, p: nat): set<nat>
    requires p <= |ops|
  {
    set q: nat | q < p && ops[q].NewNode?
  }

  /** Operation p creates node n, counting NEW_NODEs from zero. */
  predicate CreatedAt(ops: seq<Op>, p: nat, n: nat) {
    p < |ops| && ops[p].NewNode? && |NewNodesBefore(ops, p)| == n
  }

  predicate DropsAt(ops: seq<Op>, j: nat, n: nat) {
    j < |ops| && ops[j].DropNode? && ops[j].dropped == n
  }

  /** Some operation creates node n and none after it drops it. */
  ghost predicate EndsLive(ops: seq<Op>, n: nat) {
    exists p: nat :: CreatedAt(ops, p, n) && forall j: nat :: p < j ==> !DropsAt(ops, j, n)
  }

  // ----- groups -----

  /** How many groups are open before operation i. */
  function Depth(ops: seq<Op>, i: nat): int
    requires i <= |ops|
  {
    if i == 0 then 0
    else Depth(ops, i - 1) + if ops[i - 1].BeginGroup? then 1 else if ops[i - 1].EndGroup? then -1 else 0
  }

  /** The group opened at b stays open up to position j. */
  ghost predicate Inside(ops: seq<Op>, b: nat, j: nat) {
    && b < j <= |ops| && ops[b].BeginGroup?
    && forall k :: b < k <= j ==> Depth(ops, k) > Depth(ops, b)
  }

  /** Operation j happens directly in the group opened at b. */
  ghost predicate DirectlyIn(ops: seq<Op>, b: nat, j: nat) {
    Inside(ops, b, j) && Depth(ops, j) == Depth(ops, b) + 1
  }

  ghost predicate Childless(ops: seq<Op>, b: nat) {
    forall j: nat :: j < |ops| && ops[j].AddChild? ==> !DirectlyIn(ops, b, j)
  }

  ghost predicate Closes(ops: seq<Op>, b: nat, e: nat) {
    e < |ops| && ops[e].EndGroup? && DirectlyIn(ops, b, e)
  }

  /** No END_GROUP without an open group. */
  ghost predicate NoUnderflow(ops: seq<Op>) {
    forall j :: 0 <= j < |ops| && ops[j].EndGroup? ==> Stack(ops, j) != []
  }

  // ----- what is removed -----

  /** Operation i is removed, and why. */
  ghost predicate Removed(ops: seq<Op>, i: nat)
    requires i < |ops|
  {
    match ops[i]
    case Nop => true
    case SetField(n, _, _) => LaterWrite(ops, i) || !EndsLive(ops, n)
    case LinkRef(n, _, _) => !EndsLive(ops, n)
    case BeginGroup(_, _) => Childless(ops, i)
    case EndGroup => exists b: nat :: Closes(ops, b, i) && Childless(ops, b)
    case _ => false
  }

  lemma {:induction false} NumberedIsCount(ops: seq<Op>, i: nat)
    requires i <= |ops|
    ensures Numbered(ops, i) == |NewNodesBefore(ops, i)|
  {
    if i > 0 {
      NumberedIsCount(ops, i - 1);
      if ops[i - 1].NewNode? {
        assert NewNodesBefore(ops, i) == NewNodesBefore(ops, i - 1) + {i - 1};
      } else {
        assert NewNodesBefore(ops, i) == NewNodesBefore(ops, i - 1);
      }
    }
  }

  /** The compactor counts n as live after i operations. */
  ghost predicate LiveAfter(ops: seq<Op>, i: nat, n: nat)
    requires i <= |ops|
  {
    exists p: nat :: p < i && CreatedAt(ops, p, n) && forall j: nat :: p < j < i ==> !DropsAt(ops, j, n)
  }

  lemma {:induction false} LiveIdsMeaning(ops: seq<Op>, i: nat, n: nat)
    requires i <= |ops|
    ensures n in LiveIds(ops, i) <==> LiveAfter(ops, i, n)
  {
    hide Numbered, CreatedAt, DropsAt;
    if i > 0 {
      LiveIdsMeaning(ops, i - 1, n);
      LastOp(ops, i - 1, n);
      if LiveAfter(ops, i - 1, n) && !DropsAt(ops, i - 1, n) {
        var p: nat :| p < i - 1 && CreatedAt(ops, p, n) && forall j: nat :: p < j < i - 1 ==> !DropsAt(ops, j, n);
        assert LiveAfter(ops, i, n);
      }
      if LiveAfter(ops, i, n) && !CreatedAt(ops, i - 1, n) {
        var p: nat :| p < i && CreatedAt(ops, p, n) && forall j: nat :: p < j < i ==> !DropsAt(ops, j, n);
        assert p < i - 1;
      }
    }
  }

  lemma LastOp(ops: seq<Op>, i: nat, n: nat)
    requires i < |ops|
    ensures CreatedAt(ops, i, n) <==> ops[i].NewNode? && n == Numbered(ops, i)
    ensures DropsAt(ops, i, n) <==> ops[i].DropNode? && ops[i].dropped == n
    ensures n in LiveIds(ops, i + 1) <==> (n in LiveIds(ops, i) && !DropsAt(ops, i, n)) || CreatedAt(ops, i, n)
  {
    NumberedIsCount(ops, i);
    hide Numbered;
  }

  lemma LiveIsEndsLive(ops: seq<Op>, n: nat)
    ensures n in LiveIds(ops, |ops|) <==> EndsLive(ops, n)
  {
    LiveIdsMeaning(ops, |ops|, n);
    hide LiveIds;
    if LiveAfter(ops, |ops|, n) {
      var p: nat :| p < |ops| && CreatedAt(ops, p, n) && forall j: nat :: p < j < |ops| ==> !DropsAt(ops, j, n);
      assert forall j: nat :: p < j ==> !DropsAt(ops, j, n);
    }
  }

  lemma PendingIsLater(ops: seq<Op>, i: nat)
    requires i < |ops| && ops[i].SetField?
    ensures Pending(ops, i + 1, ops[i].node, ops[i].field) <==> LaterWrite(ops, i)
  {
    if Pending(ops, i + 1, ops[i].node, ops[i].field) {
      var j :| i + 1 <= j < |ops| && SetsKey(ops[j], ops[i].node, ops[i].field);
      assert SameKey(ops[i], ops[j]);
    }
    if LaterWrite(ops, i) {
      var j :| i < j < |ops| && SameKey(ops[i], ops[j]);
      assert SetsKey(ops[j], ops[i].node, ops[i].field);
    }
  }

  // ----- groups by depth -----

  /** The open groups, outermost first, lie at depths 0, 1, 2 and so on. */
  ghost predicate DepthsMatch(ops: seq<Op>, i: nat)
    requires i <= |ops|
  {
    var s := Stack(ops, i);
    |s| == Depth(ops, i) && forall k :: 0 <= k < |s| ==> Depth(ops, s[k]) == k
  }

  lemma DepthsNext(ops: seq<Op>, i: nat)
    requires i < |ops| && DepthsMatch(ops, i) && (ops[i].EndGroup? ==> Stack(ops, i) != [])
    ensures DepthsMatch(ops, i + 1)
  {
    StackNext(ops, i);
    DepthNext(ops, i);
    hide Stack, Depth;
    var s, t := Stack(ops, i), Stack(ops, i + 1);
    forall k | 0 <= k < |t| ensures Depth(ops, t[k]) == k {
      if k < |s| {
        assert t[k] == s[k];
      }
    }
  }

  lemma DepthNext(ops: seq<Op>, i: nat)
    requires i < |ops|
    ensures Depth(ops, i + 1) == Depth(ops, i) + if ops[i].BeginGroup? then 1 else if ops[i].EndGroup? then -1 else 0
  {
  }

  lemma {:induction false} StackDepths(ops: seq<Op>, i: nat)
    requires NoUnderflow(ops) && i <= |ops|
    ensures DepthsMatch(ops, i)
  {
    hide DepthsMatch;
    if i == 0 {
      NoDepth(ops);
    } else {
      StackDepths(ops, i - 1);
      DepthsNext(ops, i - 1);
    }
  }

  lemma NoDepth(ops: seq<Op>)
    ensures DepthsMatch(ops, 0)
  {
  }

  lemma JustOpened(ops: seq<Op>, b: nat)
    requires b < |ops| && ops[b].BeginGroup?
    ensures b in Stack(ops, b + 1) && Inside(ops, b, b + 1)
  {
    StackNext(ops, b);
    DepthNext(ops, b);
    hide Stack, Depth;
    assert Stack(ops, b + 1)[|Stack(ops, b)|] == b;
  }

  /** A group is on the stack exactly while it stays open. */
  lemma {:induction false} OnStackIff(ops: seq<Op>, b: nat, i: nat)
    requires NoUnderflow(ops) && b < i <= |ops| && ops[b].BeginGroup?
    ensures b in Stack(ops, i) <==> Inside(ops, b, i)
    decreases i
  {
    hide Stack, Depth, NoUnderflow, Inside, DepthsMatch;
    if i == b + 1 {
      JustOpened(ops, b);
    } else {
      StackDepths(ops, i);
      StackDepths(ops, i - 1);
      OnStackIff(ops, b, i - 1);
      StillOpen(ops, b, i);
      StackStep(ops, b, i - 1);
    }
  }

  lemma StillOpen(ops: seq<Op>, b: nat, i: nat)
    requires b + 1 < i <= |ops|
    ensures Inside(ops, b, i) <==> Inside(ops, b, i - 1) && Depth(ops, i) > Depth(ops, b)
  {
    hide Depth;
  }

  lemma StackStep(ops: seq<Op>, b: nat, i: nat)
    requires i < |ops| && b < i && ops[b].BeginGroup?
    requires DepthsMatch(ops, i) && DepthsMatch(ops, i + 1)
    ensures b in Stack(ops, i + 1) <==> b in Stack(ops, i) && Depth(ops, i + 1) > Depth(ops, b)
  {
    StackNext(ops, i);
    hide Depth;
    var s, t := Stack(ops, i), Stack(ops, i + 1);
    hide Stack;
    if b in s {
      var k :| 0 <= k < |s| && s[k] == b;
      if k < |t| {
        assert t[k] == s[k];
      }
    }
    if b in t {
      var k :| 0 <= k < |t| && t[k] == b;
    }
  }

  lemma InnermostIff(ops: seq<Op>, b: nat, j: nat)
    requires NoUnderflow(ops) && j <= |ops| && b < |ops| && ops[b].BeginGroup?
    ensures Innermost(ops, j) == Some(b) <==> DirectlyIn(ops, b, j)
  {
    StackDepths(ops, j);
    if b < j {
      OnStackIff(ops, b, j);
    }
    hide Depth, Stack, NoUnderflow;
    var s := Stack(ops, j);
    if b in s {
      var k :| 0 <= k < |s| && s[k] == b;
    }
    if s != [] {
      assert s[|s| - 1] in s;
    }
  }

  lemma ChildlessIff(ops: seq<Op>, b: nat)
    requires NoUnderflow(ops) && b < |ops| && ops[b].BeginGroup?
    ensures HasChild(ops, b) <==> !Childless(ops, b)
  {
    hide NoUnderflow, Innermost, DirectlyIn;
    forall j: nat | j < |ops| && ops[j].AddChild? ensures ChildOf(ops, b, j) <==> DirectlyIn(ops, b, j) {
      InnermostIff(ops, b, j);
    }
  }

  lemma ClosesIff(ops: seq<Op>, e: nat)
    requires NoUnderflow(ops) && e < |ops| && ops[e].EndGroup?
    ensures Innermost(ops, e).Some?
    ensures forall b: nat :: Closes(ops, b, e) <==> Innermost(ops, e) == Some(b)
  {
    assert Stack(ops, e) != [];
    forall b: nat ensures Closes(ops, b, e) <==> Innermost(ops, e) == Some(b) {
      if b < |ops| && ops[b].BeginGroup? {
        InnermostIff(ops, b, e);
      }
    }
  }

  // ----- the fates -----

  /** Each fate, by position. */
  lemma FateMeaning(ops: seq<Op>, i: nat)
    requires NoUnderflow(ops) && i < |ops|
    ensures FateOf(ops, i) == IsNop <==> ops[i].Nop?
    ensures FateOf(ops, i) == Redundant <==> ops[i].SetField? && LaterWrite(ops, i)
    ensures FateOf(ops, i) == OnDeadNode <==>
      || (ops[i].SetField? && !LaterWrite(ops, i) && !EndsLive(ops, ops[i].node))
      || (ops[i].LinkRef? && !EndsLive(ops, ops[i].src))
    ensures FateOf(ops, i) == EmptyGroup <==>
      || (ops[i].BeginGroup? && Childless(ops, i))
      || (ops[i].EndGroup? && exists b: nat :: Closes(ops, b, i) && Childless(ops, b))
    ensures FateOf(ops, i) == Kept <==> !Removed(ops, i)
  {
    match ops[i] {
      case SetField(n, _, _) =>
        PendingIsLater(ops, i);
        LiveIsEndsLive(ops, n);
        hide LaterWrite, Pending, LiveIds, EndsLive;
      case LinkRef(n, _, _) =>
        LiveIsEndsLive(ops, n);
        hide LiveIds, EndsLive;
      case BeginGroup(_, _) =>
        ChildlessIff(ops, i);
        hide HasChild, Childless;
      case EndGroup =>
        ClosesIff(ops, i);
        ChildlessIff(ops, Innermost(ops, i).value);
        hide HasChild, Childless, Closes, Innermost;
      case _ =>
    }
  }

  // ----- the counters -----

  ghost predicate OnDead(ops: seq<Op>, i: nat)
    requires i < |ops|
  {
    || (ops[i].SetField? && !LaterWrite(ops, i) && !EndsLive(ops, ops[i].node))
    || (ops[i].LinkRef? && !EndsLive(ops, ops[i].src))
  }

  ghost predicate EmptyBracket(ops: seq<Op>, i: nat)
    requires i < |ops|
  {
    || (ops[i].BeginGroup? && Childless(ops, i))
    || (ops[i].EndGroup? && exists b: nat :: Closes(ops, b, i) && Childless(ops, b))
  }

  lemma FateCount(ops: seq<Op>, fate: Fate, at: set<nat>)
    requires forall i: nat :: i in at <==> i < |ops| && FateOf(ops, i) == fate
    ensures CountFate(ops, |ops|, fate) == |at|
  {
    hide FateOf, CountFate;
    Compactor.CountFateIsSize(ops, |ops|, fate);
    assert at == Compactor.WithFate(ops, |ops|, fate);
  }

  /** Each counter is the number of input positions of its kind. */
  lemma CountersMean(schema: Schema, s: seq<Byte>)
    requires Compact(schema, s).Ok?
    ensures var ops, stats := OpsOf(DecodeJournal(schema, s).value), Compact(schema, s).value.1;
      && stats.inputOps == |ops|
      && stats.nops == |set i: nat | i < |ops| && ops[i].Nop?|
      && stats.redundantSets == |set i: nat | i < |ops| && ops[i].SetField? && LaterWrite(ops, i)|
      && stats.deadNodeOps == |set i: nat | i < |ops| && OnDead(ops, i)|
      && stats.deadGroupOps == |set i: nat | i < |ops| && EmptyBracket(ops, i)|
      && stats.outputOps == |set i: nat | i < |ops| && !Removed(ops, i)|
  {
    hide DecodeJournal, FateOf, LaterWrite, OnDead, EmptyBracket, Removed, CountFate, Decodable;
    var ops := OpsOf(DecodeJournal(schema, s).value);
    DecodedJournal(schema, s);
    DecodableCloses(schema, ops);
    FatesMean(ops);
    FateCount(ops, IsNop, set i: nat | i < |ops| && ops[i].Nop?);
    FateCount(ops, Redundant, set i: nat | i < |ops| && ops[i].SetField? && LaterWrite(ops, i));
    FateCount(ops, OnDeadNode, set i: nat | i < |ops| && OnDead(ops, i));
    FateCount(ops, EmptyGroup, set i: nat | i < |ops| && EmptyBracket(ops, i));
    FateCount(ops, Kept, set i: nat | i < |ops| && !Removed(ops, i));
    KeptCount(ops, |ops|);
  }

  lemma FatesMean(ops: seq<Op>)
    requires NoUnderflow(ops)
    ensures forall i: nat :: i < |ops| ==>
      && (FateOf(ops, i) == IsNop <==> ops[i].Nop?)
      && (FateOf(ops, i) == Redundant <==> ops[i].SetField? && LaterWrite(ops, i))
      && (FateOf(ops, i) == OnDeadNode <==> OnDead(ops, i))
      && (FateOf(ops, i) == EmptyGroup <==> EmptyBracket(ops, i))
      && (FateOf(ops, i) == Kept <==> !Removed(ops, i))
  {
    hide FateOf, LaterWrite, Removed, NoUnderflow;
    forall i: nat | i < |ops|
      ensures FateOf(ops, i) == IsNop <==> ops[i].Nop?
      ensures FateOf(ops, i) == Redundant <==> ops[i].SetField? && LaterWrite(ops, i)
      ensures FateOf(ops, i) == OnDeadNode <==> OnDead(ops, i)
      ensures FateOf(ops, i) == EmptyGroup <==> EmptyBracket(ops, i)
      ensures FateOf(ops, i) == Kept <==> !Removed(ops, i)
    {
      FateMeaning(ops, i);
    }
  }

  lemma {:induction false} KeptCount(ops: seq<Op>, i: nat)
    requires i <= |ops|
    ensures |Survivors(ops, i)| == CountFate(ops, i, Kept)
  {
    hide FateOf;
    if i > 0 {
      KeptCount(ops, i - 1);
    }
  }

  // ----- the output -----

  ghost predicate Ascending(ps: seq<nat>) {
    forall a, b :: 0 <= a < b < |ps| ==> ps[a] < ps[b]
  }

  /** The output copies exactly the operations not removed, in order; only the
      hint of a BEGIN_GROUP is reset. */
  ghost predicate Copies(ops: seq<Op>, i: nat, ps: seq<nat>, out: seq<Op>)
    requires i <= |ops|
  {
    && Ascending(ps) && |ps| == |out|
    && (forall p: nat :: p in ps <==> p < i && !Removed(ops, p))
    && forall k :: 0 <= k < |ps| && ps[k] < |ops| ==> out[k] == ResetHint(ops[ps[k]])
  }

  function ResetHint(op: Op): Op {
    match op
    case BeginGroup(owner, _) => BeginGroup(owner, 0)
    case _ => op
  }

  lemma CopiesNext(ops: seq<Op>, i: nat, ps: seq<nat>, out: seq<Op>)
    requires i < |ops| && Copies(ops, i, ps, out)
    ensures Removed(ops, i) ==> Copies(ops, i + 1, ps, out)
    ensures !Removed(ops, i) ==> Copies(ops, i + 1, ps + [i], out + [ResetHint(ops[i])])
  {
    hide Removed;
    assert forall k :: 0 <= k < |ps| ==> ps[k] in ps;
  }

  lemma SurvivorsNext(ops: seq<Op>, i: nat)
    requires i < |ops|
    ensures FateOf(ops, i) == Kept ==> Survivors(ops, i + 1) == Survivors(ops, i) + [ResetHint(ops[i])]
    ensures FateOf(ops, i) != Kept ==> Survivors(ops, i + 1) == Survivors(ops, i)
  {
    hide FateOf;
  }

  lemma {:induction false} SurvivorsCopy(ops: seq<Op>, i: nat) returns (ps: seq<nat>)
    requires NoUnderflow(ops) && i <= |ops|
    ensures Copies(ops, i, ps, Survivors(ops, i))
  {
    if i == 0 {
      ps := [];
    } else {
      hide *;
      var front := SurvivorsCopy(ops, i - 1);
      ps := if Removed(ops, i - 1) then front else front + [i - 1];
      SurvivorCopied(ops, i - 1, front);
    }
  }

  lemma SurvivorCopied(ops: seq<Op>, i: nat, front: seq<nat>)
    requires NoUnderflow(ops) && i < |ops| && Copies(ops, i, front, Survivors(ops, i))
    ensures Copies(ops, i + 1, if Removed(ops, i) then front else front + [i], Survivors(ops, i + 1))
  {
    hide *;
    assert FateOf(ops, i) == Kept <==> !Removed(ops, i) by { FateMeaning(ops, i); }
    SurvivorsNext(ops, i);
    CopiesNext(ops, i, front, Survivors(ops, i));
  }

  /** What is not removed is in the output: among others the last write to each
      field of a node that ends live. */
  lemma NothingElseIsLost(ops: seq<Op>, ps: seq<nat>, out: seq<Op>, i: nat)
    requires Copies(ops, |ops|, ps, out) && i < |ops|
    ensures !Removed(ops, i) ==> ResetHint(ops[i]) in out
    ensures ops[i].SetField? && !LaterWrite(ops, i) && EndsLive(ops, ops[i].node) ==> ops[i] in out
  {
    hide LaterWrite, EndsLive;
    if !Removed(ops, i) {
      assert i in ps;
      var k :| 0 <= k < |ps| && ps[k] == i;
      assert out[k] == ResetHint(ops[i]);
    }
  }

  /** What the output of compaction decodes to: the input's operations that are
      not removed, in order. In it no write is followed by another to its key,
      there is no NOP, writes and links are on nodes that end live, and every
      group has a child. */
  lemma OutputLaw(schema: Schema, s: seq<Byte>) returns (ps: seq<nat>)
    requires Compact(schema, s).Ok?
    ensures DecodeJournal(schema, Compact(schema, s).value.0).Ok?
    ensures var ops, out := OpsOf(DecodeJournal(schema, s).value), OpsOf(DecodeJournal(schema, Compact(schema, s).value.0).value);
      && Copies(ops, |ops|, ps, out)
      && forall i: nat :: i < |out| ==> !Removed(out, i)
  {
    hide DecodeJournal, FateOf, Removed, Copies, Decodable, Compacted;
    var ops := OpsOf(DecodeJournal(schema, s).value);
    DecodedJournal(schema, s);
    DecodableCloses(schema, ops);
    CompactedDecodable(schema, ops);
    CompactedLength(ops);
    DecodeJournalRoundTrip(schema, Compacted(ops), []);
    assert JournalBytes(Compacted(ops)) + [] == JournalBytes(Compacted(ops));
    DecodableCloses(schema, Compacted(ops));
    CompactedIsTight(ops);
    FatesMean(Compacted(ops));
    ps := SurvivorsCopy(ops, |ops|);
    CompactedIsSurvivors(ops);
  }

  lemma CompactedIsSurvivors(ops: seq<Op>)
    ensures Compacted(ops) == Survivors(ops, |ops|)
  {
  }

  lemma CompactedIsTight(ops: seq<Op>)
    requires NoUnderflow(ops)
    ensures forall q :: 0 <= q < |Compacted(ops)| ==> FateOf(Compacted(ops), q) == Kept
  {
    hide FateOf;
    forall q | 0 <= q < |Compacted(ops)| ensures FateOf(Compacted(ops), q) == Kept {
      var i := Source(ops, |ops|, q);
      KeptAgain(ops, i);
    }
  }
}
