/** Compacting a compacted journal changes nothing: every survivor is still
    kept in the survivors' own company. This needs no replay, so it holds of
    journals the machine would reject. */
module CompactorIdempotence {
  import opened Basics
  import opened Model
  import opened ReplayVm
  import opened Groups
  import opened Compaction
  import opened CompactorSpec

  /** Where operation i lands among the survivors, if it survives. */
  ghost function Pos(ops: seq<Op>, i: nat): nat
    requires i <= |ops|
  {
    |Survivors(ops, i)|
  }

  lemma {:induction false} SurvivorsPrefix(ops: seq<Op>, i: nat, n: nat)
    requires i <= n <= |ops|
    ensures Survivors(ops, i) <= Survivors(ops, n)
    decreases n
  {
    hide FateOf;
    if i < n {
      SurvivorsPrefix(ops, i, n - 1);
    }
  }

  lemma Placed(ops: seq<Op>, i: nat)
    requires i < |ops|
    ensures FateOf(ops, i) == Kept ==>
      && Pos(ops, i + 1) == Pos(ops, i) + 1 <= |Compacted(ops)|
      && Compacted(ops)[Pos(ops, i)] == Emitted(ops[i])
    ensures FateOf(ops, i) != Kept ==> Pos(ops, i + 1) == Pos(ops, i)
    ensures Pos(ops, i) <= |Compacted(ops)|
  {
    hide FateOf;
    SurvivorsPrefix(ops, i, |ops|);
    SurvivorsPrefix(ops, i + 1, |ops|);
    if FateOf(ops, i) == Kept {
      assert Survivors(ops, i + 1)[Pos(ops, i)] == Emitted(ops[i]);
    }
  }

  /** Every survivor comes from a kept operation. */
  lemma {:induction false} Source(ops: seq<Op>, n: nat, q: nat) returns (i: nat)
    requires n <= |ops| && q < Pos(ops, n)
    ensures i < n && FateOf(ops, i) == Kept && Pos(ops, i) == q
  {
    hide FateOf;
    if q < Pos(ops, n - 1) {
      i := Source(ops, n - 1, q);
    } else {
      i := n - 1;
    }
  }

  lemma {:induction false} PosOrdered(ops: seq<Op>, i: nat, j: nat)
    requires i < j <= |ops|
    ensures Pos(ops, i) <= Pos(ops, j)
    ensures FateOf(ops, i) == Kept ==> Pos(ops, i) < Pos(ops, j)
  {
    hide FateOf;
    SurvivorsPrefix(ops, i + 1, j);
    SurvivorsPrefix(ops, i, j);
    Placed(ops, i);
  }

  // ----- prefix facts carry over -----

  /** c holds at p what the survivors hold at operation i's place, and p' is
      the place after it. */
  ghost predicate Places(ops: seq<Op>, i: nat, c: seq<Op>, p: nat, p': nat)
    requires i < |ops|
  {
    && p == Pos(ops, i) && p <= |c| && p' <= |c|
    && (if FateOf(ops, i) == Kept then p' == p + 1 && c[p] == Emitted(ops[i]) else p' == p)
  }

  ghost predicate SameNumbering(ops: seq<Op>, i: nat, c: seq<Op>, p: nat)
    requires i <= |ops|
  {
    && p <= |c|
    && Numbered(c, p) == Numbered(ops, i) && LiveIds(c, p) == LiveIds(ops, i) && KindsAt(c, p) == KindsAt(ops, i)
  }

  lemma NumberingSurvivesStep(ops: seq<Op>, i: nat, c: seq<Op>, p: nat, p': nat)
    requires i < |ops| && Places(ops, i, c, p, p') && SameNumbering(ops, i, c, p)
    ensures SameNumbering(ops, i + 1, c, p')
  {
    NodeOpsAreKept(ops, i);
    hide FateOf, Pos;
  }

  lemma PlacesNext(ops: seq<Op>, i: nat)
    requires i < |ops|
    ensures Places(ops, i, Compacted(ops), Pos(ops, i), Pos(ops, i + 1))
  {
    hide FateOf;
    Placed(ops, i);
    SurvivorsPrefix(ops, i + 1, |ops|);
  }

  /** Numbering, kinds and liveness do not see the removed operations. */
  lemma {:induction false} NumberingSurvives(ops: seq<Op>, i: nat)
    requires i <= |ops|
    ensures SameNumbering(ops, i, Compacted(ops), Pos(ops, i))
  {
    if i == 0 {
      assert Pos(ops, 0) == 0;
    } else {
      hide FateOf, SameNumbering, Places, Compacted, Pos;
      NumberingSurvives(ops, i - 1);
      PlacesNext(ops, i - 1);
      NumberingSurvivesStep(ops, i - 1, Compacted(ops), Pos(ops, i - 1), Pos(ops, i));
    }
  }

  lemma NodeOpsAreKept(ops: seq<Op>, i: nat)
    requires i < |ops|
    ensures ops[i].NewNode? || ops[i].DropNode? || ops[i].AddChild? ==> FateOf(ops, i) == Kept
  {
  }

  /** The surviving open groups, at their new positions. */
  ghost function KeptStack(ops: seq<Op>, stack: seq<nat>): (r: seq<nat>)
    requires forall k :: 0 <= k < |stack| ==> stack[k] < |ops|
  {
    if stack == [] then []
    else
      var m := |stack| - 1;
      KeptStack(ops, stack[..m]) + if HasChild(ops, stack[m]) then [Pos(ops, stack[m])] else []
  }

  lemma {:induction false} StackSurvives(ops: seq<Op>, i: nat)
    requires i <= |ops| && forall j :: 0 <= j < |ops| && ops[j].EndGroup? ==> Stack(ops, j) != []
    ensures Pos(ops, i) <= |Compacted(ops)|
    ensures Stack(Compacted(ops), Pos(ops, i)) == KeptStack(ops, Stack(ops, i))
  {
    SurvivorsPrefix(ops, i, |ops|);
    if i > 0 {
      hide Stack, FateOf, KeptStack, Places;
      StackSurvives(ops, i - 1);
      PlacesNext(ops, i - 1);
      StackSurvivesStep(ops, i - 1, Compacted(ops), Pos(ops, i - 1), Pos(ops, i));
    }
  }

  lemma KeptStackPush(ops: seq<Op>, stack: seq<nat>, b: nat)
    requires b < |ops| && forall k :: 0 <= k < |stack| ==> stack[k] < |ops|
    ensures KeptStack(ops, stack + [b]) == KeptStack(ops, stack) + if HasChild(ops, b) then [Pos(ops, b)] else []
  {
    assert (stack + [b])[..|stack|] == stack;
  }

  lemma StackSurvivesBegin(ops: seq<Op>, i: nat, c: seq<Op>, p: nat, p': nat)
    requires i < |ops| && ops[i].BeginGroup? && Places(ops, i, c, p, p')
    requires Stack(c, p) == KeptStack(ops, Stack(ops, i))
    ensures Stack(c, p') == KeptStack(ops, Stack(ops, i + 1))
  {
    hide Stack, Pos, HasChild, KeptStack;
    KeptStackPush(ops, Stack(ops, i), i);
    StackNext(ops, i);
    if p' == p + 1 {
      StackNext(c, p);
    }
  }

  lemma StackSurvivesEnd(ops: seq<Op>, i: nat, c: seq<Op>, p: nat, p': nat)
    requires i < |ops| && ops[i].EndGroup? && Places(ops, i, c, p, p') && Stack(ops, i) != []
    requires Stack(c, p) == KeptStack(ops, Stack(ops, i))
    ensures Stack(c, p') == KeptStack(ops, Stack(ops, i + 1))
  {
    hide Stack, Pos, HasChild, KeptStack, FateOf;
    EndFate(ops, i);
    StackNext(ops, i);
    var s := Stack(ops, i);
    var m := |s| - 1;
    assert s == s[..m] + [s[m]];
    KeptStackPush(ops, s[..m], s[m]);
    if FateOf(ops, i) == Kept {
      var kept := KeptStack(ops, s[..m]);
      assert (kept + [Pos(ops, s[m])])[..|kept|] == kept;
      StackNext(c, p);
    }
  }

  lemma StackSurvivesStep(ops: seq<Op>, i: nat, c: seq<Op>, p: nat, p': nat)
    requires i < |ops| && Places(ops, i, c, p, p')
    requires ops[i].EndGroup? ==> Stack(ops, i) != []
    requires Stack(c, p) == KeptStack(ops, Stack(ops, i))
    ensures Stack(c, p') == KeptStack(ops, Stack(ops, i + 1))
  {
    hide Stack, Pos, KeptStack, FateOf;
    if ops[i].BeginGroup? {
      StackSurvivesBegin(ops, i, c, p, p');
    } else if ops[i].EndGroup? {
      StackSurvivesEnd(ops, i, c, p, p');
    } else {
      StackNext(ops, i);
      if p' == p + 1 {
        StackNext(c, p);
      }
    }
  }

  lemma ChildSurvives(ops: seq<Op>, b: nat)
    requires forall j :: 0 <= j < |ops| && ops[j].EndGroup? ==> Stack(ops, j) != []
    requires b < |ops| && HasChild(ops, b)
    ensures HasChild(Compacted(ops), Pos(ops, b))
  {
    var j: nat :| ChildOf(ops, b, j);
    NodeOpsAreKept(ops, j);
    Placed(ops, j);
    StackSurvives(ops, j);
    hide Compacted, Pos, FateOf;
    var s := Stack(ops, j);
    assert s[|s| - 1] == b;
    assert ChildOf(Compacted(ops), Pos(ops, b), Pos(ops, j));
  }

  // ----- every survivor is kept again -----

  /** A later write among the survivors comes from a later write. */
  lemma PendingSurvives(ops: seq<Op>, i: nat, node: nat, field: U32)
    requires i < |ops| && FateOf(ops, i) == Kept
    requires Pending(Compacted(ops), Pos(ops, i) + 1, node, field)
    ensures Pending(ops, i + 1, node, field)
  {
    hide FateOf;
    var q :| Pos(ops, i) + 1 <= q < |Compacted(ops)| && SetsKey(Compacted(ops)[q], node, field);
    var j := Source(ops, |ops|, q);
    Placed(ops, j);
    if j <= i {
      if j < i {
        PosOrdered(ops, j, i);
      }
      assert false;
    }
    assert SetsKey(ops[j], node, field);
  }

  lemma KeptAgain(ops: seq<Op>, i: nat)
    requires forall j :: 0 <= j < |ops| && ops[j].EndGroup? ==> Stack(ops, j) != []
    requires i < |ops| && FateOf(ops, i) == Kept
    ensures Pos(ops, i) < |Compacted(ops)| && FateOf(Compacted(ops), Pos(ops, i)) == Kept
  {
    var c, q := Compacted(ops), Pos(ops, i);
    Placed(ops, i);
    NumberingSurvives(ops, |ops|);
    assert LiveIds(c, |c|) == LiveIds(ops, |ops|);
    StackSurvives(ops, i);
    match ops[i] {
      case SetField(n, f, _) =>
        if Pending(c, q + 1, n, f) {
          PendingSurvives(ops, i, n, f);
        }
      case BeginGroup(_, _) => ChildSurvives(ops, i);
      case EndGroup => EndKeptAgain(ops, i);
      case _ =>
    }
  }

  lemma EndKeptAgain(ops: seq<Op>, i: nat)
    requires forall j :: 0 <= j < |ops| && ops[j].EndGroup? ==> Stack(ops, j) != []
    requires i < |ops| && ops[i].EndGroup? && FateOf(ops, i) == Kept
    ensures Pos(ops, i) <= |Compacted(ops)|
    ensures Innermost(Compacted(ops), Pos(ops, i)).Some?
    ensures HasChild(Compacted(ops), Innermost(Compacted(ops), Pos(ops, i)).value)
  {
    StackSurvives(ops, i);
    var s := Stack(ops, i);
    ChildSurvives(ops, s[|s| - 1]);
    hide Compacted, Pos, HasChild;
  }

  lemma {:induction false} AllKeptSurvive(ops: seq<Op>, i: nat)
    requires i <= |ops| && forall j :: 0 <= j < |ops| ==> FateOf(ops, j) == Kept && Emitted(ops[j]) == ops[j]
    ensures Survivors(ops, i) == ops[..i]
  {
    hide FateOf;
    if i > 0 {
      AllKeptSurvive(ops, i - 1);
      assert ops[..i] == ops[..i - 1] + [ops[i - 1]];
    }
  }

  /** On operations, compaction is idempotent. */
  lemma CompactedIsFixed(ops: seq<Op>)
    requires forall j :: 0 <= j < |ops| && ops[j].EndGroup? ==> Stack(ops, j) != []
    ensures Compacted(Compacted(ops)) == Compacted(ops)
  {
    var c := Compacted(ops);
    forall q | 0 <= q < |c| ensures FateOf(c, q) == Kept && Emitted(c[q]) == c[q] {
      var i := Source(ops, |ops|, q);
      KeptAgain(ops, i);
      Placed(ops, i);
    }
    hide FateOf;
    AllKeptSurvive(c, |c|);
    assert c[..|c|] == c;
  }

  lemma SurvivorDecodable(schema: Schema, ops: seq<Op>, i: nat)
    requires Decodable(schema, ops) && i < |ops| && FateOf(ops, i) == Kept
    ensures Pos(ops, i) < |Compacted(ops)| && DecodableAt(schema, Compacted(ops), Pos(ops, i))
  {
    assert DecodableAt(schema, ops, i);
    assert forall j :: 0 <= j < |ops| && ops[j].EndGroup? ==> DecodableAt(schema, ops, j);
    Placed(ops, i);
    NumberingSurvives(ops, i);
    if ops[i].EndGroup? {
      EndKeptAgain(ops, i);
    }
  }

  lemma CompactedDecodable(schema: Schema, ops: seq<Op>)
    requires Decodable(schema, ops) && Stack(ops, |ops|) == []
    ensures Decodable(schema, Compacted(ops)) && Stack(Compacted(ops), |Compacted(ops)|) == []
  {
    var c := Compacted(ops);
    forall q | 0 <= q < |c| ensures DecodableAt(schema, c, q) {
      var i := Source(ops, |ops|, q);
      SurvivorDecodable(schema, ops, i);
    }
    assert forall j :: 0 <= j < |ops| && ops[j].EndGroup? ==> DecodableAt(schema, ops, j);
    StackSurvives(ops, |ops|);
  }

  /** Compaction is idempotent byte for byte: whenever it succeeds, it succeeds
      on its own output, whatever follows it, returns those very bytes, and
      reports nothing removed. */
  lemma CompactIsIdempotent(schema: Schema, s: seq<Byte>, rest: seq<Byte>)
    requires Compact(schema, s).Ok?
    ensures var out := Compact(schema, s).value.0;
      var again := Compact(schema, out + rest);
      && again.Ok?
      && again.value.0 == out
      && again.value.1.inputOps == again.value.1.outputOps == Compact(schema, s).value.1.outputOps
  {
    hide DecodeJournal, Decodable, Compacted;
    var ops := OpsOf(DecodeJournal(schema, s).value);
    DecodedJournal(schema, s);
    CompactedDecodable(schema, ops);
    assert |Compacted(ops)| <= |ops| by { CompactedLength(ops); }
    DecodeJournalRoundTrip(schema, Compacted(ops), rest);
    assert forall j :: 0 <= j < |ops| && ops[j].EndGroup? ==> Stack(ops, j) != [] by { DecodableCloses(schema, ops); }
    CompactedIsFixed(ops);
  }

  lemma CompactedLength(ops: seq<Op>)
    ensures |Compacted(ops)| <= |ops|
  {
  }

  lemma DecodableCloses(schema: Schema, ops: seq<Op>)
    requires Decodable(schema, ops)
    ensures forall j :: 0 <= j < |ops| && ops[j].EndGroup? ==> Stack(ops, j) != []
  {
    forall j | 0 <= j < |ops| && ops[j].EndGroup? ensures Stack(ops, j) != [] {
      assert DecodableAt(schema, ops, j);
    }
  }
}
