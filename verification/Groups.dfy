/** The nesting structure of a journal's groups, read off the operations alone:
    which BEGIN_GROUP is open where, and which ADD_CHILD belongs to it. */
module Groups {
  import opened Basics
  import opened ReplayVm

  /** The positions of the BEGIN_GROUPs open after the first i operations,
      outermost first. */
  function Stack(ops: seq<Op>, i: nat): (s: seq<nat>)
    requires i <= |ops|
    ensures forall k :: 0 <= k < |s| ==> s[k] < i && ops[s[k]].BeginGroup?
    ensures forall j, k :: 0 <= j < k < |s| ==> s[j] < s[k]
  {
    if i == 0 then []
    else
      var s := Stack(ops, i - 1);
      match ops[i - 1]
      case BeginGroup(_, _) => s + [i - 1]
      case EndGroup => if s == [] then [] else s[..|s| - 1]
      case _ => s
  }

  function Innermost(ops: seq<Op>, i: nat): (b: Option<nat>)
    requires i <= |ops|
    ensures b.Some? ==> b.value < i && ops[b.value].BeginGroup?
  {
    var s := Stack(ops, i);
    if s == [] then None else Some(s[|s| - 1])
  }

  /** Operation j adds a child directly to the group opened at b. */
  predicate ChildOf(ops: seq<Op>, b: nat, j: nat) {
    j < |ops| && ops[j].AddChild? && Innermost(ops, j) == Some(b)
  }

  ghost predicate HasChild(ops: seq<Op>, b: nat) {
    exists j: nat :: ChildOf(ops, b, j)
  }

  /** The names queued, among the first i operations, directly in the group
      opened at b, in order. */
  function Queued(ops: seq<Op>, b: nat, i: nat): seq<U32>
    requires i <= |ops|
  {
    if i == 0 then []
    else if ChildOf(ops, b, i - 1) then Queued(ops, b, i - 1) + [ops[i - 1].child]
    else Queued(ops, b, i - 1)
  }

  /** Every END_GROUP has a group to close and every group is closed. */
  predicate Balanced(ops: seq<Op>) {
    && Stack(ops, |ops|) == []
    && forall i :: 0 <= i < |ops| && ops[i].EndGroup? ==> Stack(ops, i) != []
  }

  lemma {:induction false} QueuedHasChild(ops: seq<Op>, b: nat, i: nat)
    requires i <= |ops|
    ensures Queued(ops, b, i) != [] ==> HasChild(ops, b)
    ensures i <= b + 1 ==> Queued(ops, b, i) == []
  {
    if i > 0 {
      QueuedHasChild(ops, b, i - 1);
    }
  }

  /** One operation's effect on the nesting. */
  lemma StackNext(ops: seq<Op>, i: nat)
    requires i < |ops|
    ensures ops[i].BeginGroup? ==> Stack(ops, i + 1) == Stack(ops, i) + [i]
    ensures ops[i].EndGroup? && Stack(ops, i) != [] ==> Stack(ops, i + 1) == Stack(ops, i)[..|Stack(ops, i)| - 1]
    ensures ops[i].EndGroup? && Stack(ops, i) == [] ==> Stack(ops, i + 1) == []
    ensures !ops[i].BeginGroup? && !ops[i].EndGroup? ==> Stack(ops, i + 1) == Stack(ops, i)
  {
  }
}
