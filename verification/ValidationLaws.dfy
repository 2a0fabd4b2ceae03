/** What the validator counts and reports, said of table positions. */
module ValidationLaws {
  import opened Basics
  import opened Model
  import opened ReplayVm
  import opened VmInvariants
  import opened Validation

  /** A live, defined node of a declared kind. */
  predicate Typable(schema: Schema, n: Node) {
    n.alive && !n.placeholder && n.kind < |schema.kinds|
  }

  /** Field f is declared, required and unset. */
  predicate Lacks(schema: Schema, n: Node, f: nat) {
    && n.kind < |schema.kinds| && f < |schema.kinds[n.kind].fields|
    && schema.kinds[n.kind].fields[f].flags % 2 == 1
    && !(f < TWO32 && f in n.fields)
  }

  ghost function Missing(schema: Schema, nodes: seq<Node>, i: nat): set<(nat, nat)>
    requires i <= |nodes|
  {
    set k: nat, f: nat | k < i && Typable(schema, nodes[k]) && f < |schema.kinds[nodes[k].kind].fields|
                         && Lacks(schema, nodes[k], f) :: (k, f)
  }

  /** References to no live node, and children beyond the table. */
  ghost function BadRefs(schema: Schema, nodes: seq<Node>, i: nat): set<(nat, nat)>
    requires i <= |nodes|
  {
    set k: nat, j: nat | k < i && Typable(schema, nodes[k]) && j < |nodes[k].refs|
                         && (nodes[k].refs[j] >= |nodes| || !nodes[nodes[k].refs[j]].alive) :: (k, j)
  }

  ghost function BadChildren(schema: Schema, nodes: seq<Node>, i: nat): set<(nat, nat)>
    requires i <= |nodes|
  {
    set k: nat, j: nat | k < i && Typable(schema, nodes[k]) && j < |nodes[k].children| && nodes[k].children[j] >= |nodes| :: (k, j)
  }

  // ----- one row of each -----

  lemma {:induction false} MissingRow(schema: Schema, n: Node, k: nat, f: nat)
    requires Typable(schema, n) && f <= |schema.kinds[n.kind].fields|
    ensures MissingIn(schema.kinds[n.kind].fields, n, f) == |set g: nat | g < f && Lacks(schema, n, g) :: (k, g)|
  {
    var row := set g: nat | g < f && Lacks(schema, n, g) :: (k, g);
    if f == 0 {
      assert row == {};
    } else {
      MissingRow(schema, n, k, f - 1);
      var front := set g: nat | g < f - 1 && Lacks(schema, n, g) :: (k, g);
      assert row == front + if Lacks(schema, n, f - 1) then {(k, f - 1)} else {};
      assert (k, f - 1) !in front;
    }
  }

  lemma {:induction false} DanglingRow(nodes: seq<Node>, ids: seq<nat>, k: nat, j: nat)
    requires j <= |ids|
    ensures DanglingIn(nodes, ids, j) == |set g: nat | g < j && (ids[g] >= |nodes| || !nodes[ids[g]].alive) :: (k, g)|
  {
    var row := set g: nat | g < j && (ids[g] >= |nodes| || !nodes[ids[g]].alive) :: (k, g);
    if j == 0 {
      assert row == {};
    } else {
      DanglingRow(nodes, ids, k, j - 1);
      var front := set g: nat | g < j - 1 && (ids[g] >= |nodes| || !nodes[ids[g]].alive) :: (k, g);
      assert row == front + if ids[j - 1] >= |nodes| || !nodes[ids[j - 1]].alive then {(k, j - 1)} else {};
      assert (k, j - 1) !in front;
    }
  }

  lemma {:induction false} OutOfRangeRow(size: nat, ids: seq<nat>, k: nat, j: nat)
    requires j <= |ids|
    ensures OutOfRangeIn(size, ids, j) == |set g: nat | g < j && ids[g] >= size :: (k, g)|
  {
    var row := set g: nat | g < j && ids[g] >= size :: (k, g);
    if j == 0 {
      assert row == {};
    } else {
      OutOfRangeRow(size, ids, k, j - 1);
      var front := set g: nat | g < j - 1 && ids[g] >= size :: (k, g);
      assert row == front + if ids[j - 1] >= size then {(k, j - 1)} else {};
      assert (k, j - 1) !in front;
    }
  }

  lemma Joined(a: set<(nat, nat)>, b: set<(nat, nat)>, c: set<(nat, nat)>, k: nat)
    requires c == a + b && (forall p :: p in a ==> p.0 < k) && (forall p :: p in b ==> p.0 == k)
    ensures |c| == |a| + |b|
  {
    assert a !! b;
  }

  // ----- the counters -----

  lemma {:induction false} MissingCountLaw(schema: Schema, nodes: seq<Node>, i: nat)
    requires i <= |nodes|
    ensures MissingCount(schema, nodes, i) == |Missing(schema, nodes, i)|
  {
    hide Lacks, MissingIn;
    if i == 0 {
      assert Missing(schema, nodes, 0) == {};
    } else {
      MissingCountLaw(schema, nodes, i - 1);
      var n := nodes[i - 1];
      if Typable(schema, n) {
        MissingStep(schema, nodes, i - 1);
      } else {
        assert Missing(schema, nodes, i) == Missing(schema, nodes, i - 1);
      }
    }
  }

  lemma MissingStep(schema: Schema, nodes: seq<Node>, i: nat)
    requires i < |nodes| && Typable(schema, nodes[i])
    ensures |Missing(schema, nodes, i + 1)|
         == |Missing(schema, nodes, i)| + MissingIn(schema.kinds[nodes[i].kind].fields, nodes[i], |schema.kinds[nodes[i].kind].fields|)
  {
    hide Lacks, MissingIn;
    var size := |schema.kinds[nodes[i].kind].fields|;
    MissingRow(schema, nodes[i], i, size);
    Joined(Missing(schema, nodes, i), set g: nat | g < size && Lacks(schema, nodes[i], g) :: (i, g), Missing(schema, nodes, i + 1), i);
  }

  lemma {:induction false} DanglingCountLaw(schema: Schema, nodes: seq<Node>, i: nat)
    requires i <= |nodes|
    ensures DanglingCount(schema, nodes, i) == |BadRefs(schema, nodes, i)| + |BadChildren(schema, nodes, i)|
  {
    if i == 0 {
      assert BadRefs(schema, nodes, 0) == {} && BadChildren(schema, nodes, 0) == {};
    } else {
      DanglingCountLaw(schema, nodes, i - 1);
      var n := nodes[i - 1];
      if Typable(schema, n) {
        BadRefsStep(schema, nodes, i - 1);
        BadChildrenStep(schema, nodes, i - 1);
      } else {
        assert BadRefs(schema, nodes, i) == BadRefs(schema, nodes, i - 1);
        assert BadChildren(schema, nodes, i) == BadChildren(schema, nodes, i - 1);
      }
    }
  }

  lemma BadRefsStep(schema: Schema, nodes: seq<Node>, i: nat)
    requires i < |nodes| && Typable(schema, nodes[i])
    ensures |BadRefs(schema, nodes, i + 1)| == |BadRefs(schema, nodes, i)| + DanglingIn(nodes, nodes[i].refs, |nodes[i].refs|)
  {
    var ids := nodes[i].refs;
    DanglingRow(nodes, ids, i, |ids|);
    Joined(BadRefs(schema, nodes, i), set g: nat | g < |ids| && (ids[g] >= |nodes| || !nodes[ids[g]].alive) :: (i, g),
           BadRefs(schema, nodes, i + 1), i);
  }

  lemma BadChildrenStep(schema: Schema, nodes: seq<Node>, i: nat)
    requires i < |nodes| && Typable(schema, nodes[i])
    ensures |BadChildren(schema, nodes, i + 1)|
         == |BadChildren(schema, nodes, i)| + OutOfRangeIn(|nodes|, nodes[i].children, |nodes[i].children|)
  {
    var ids := nodes[i].children;
    OutOfRangeRow(|nodes|, ids, i, |ids|);
    Joined(BadChildren(schema, nodes, i), set g: nat | g < |ids| && ids[g] >= |nodes| :: (i, g), BadChildren(schema, nodes, i + 1), i);
  }

  /** The live, defined nodes among the first i. */
  ghost function Live(nodes: seq<Node>, i: nat): set<nat>
    requires i <= |nodes|
  {
    set k: nat | k < i && nodes[k].alive && !nodes[k].placeholder
  }

  lemma {:induction false} LiveCountLaw(nodes: seq<Node>, i: nat)
    requires i <= |nodes|
    ensures LiveCount(nodes, i) == |Live(nodes, i)|
  {
    if i == 0 {
      assert Live(nodes, i) == {};
    } else {
      LiveCountLaw(nodes, i - 1);
      LiveStep(nodes, i - 1);
      hide Live;
    }
  }

  lemma LiveStep(nodes: seq<Node>, i: nat)
    requires i < |nodes|
    ensures Live(nodes, i + 1) == Live(nodes, i) + if nodes[i].alive && !nodes[i].placeholder then {i} else {}
    ensures i !in Live(nodes, i)
  {
  }

  lemma {:induction false} PlaceholderCountLaw(nodes: seq<Node>, i: nat)
    requires i <= |nodes|
    ensures PlaceholderCount(nodes[..i]) == |set k: nat | k < i && nodes[k].placeholder|
  {
    var all := set k: nat | k < i && nodes[k].placeholder;
    if i == 0 {
      assert all == {};
    } else {
      PlaceholderCountLaw(nodes, i - 1);
      assert nodes[..i][..i - 1] == nodes[..i - 1];
      assert all == (set k: nat | k < i - 1 && nodes[k].placeholder) + if nodes[i - 1].placeholder then {i - 1} else {};
    }
  }

  /** Each counter of a report is the size of a set of table positions. */
  lemma CountersMean(schema: Schema, nodes: seq<Node>, rep: Report)
    requires Counts(schema, nodes, |nodes|, rep)
    ensures rep.liveNodes == |Live(nodes, |nodes|)|
    ensures rep.unfilledPlaceholders == |set k: nat | k < |nodes| && nodes[k].placeholder|
    ensures rep.missingRequired == |Missing(schema, nodes, |nodes|)|
    ensures rep.danglingRefs == |BadRefs(schema, nodes, |nodes|)| + |BadChildren(schema, nodes, |nodes|)|
  {
    hide Missing, BadRefs, BadChildren, Live;
    LiveCountLaw(nodes, |nodes|);
    PlaceholderCountLaw(nodes, |nodes|);
    MissingCountLaw(schema, nodes, |nodes|);
    DanglingCountLaw(schema, nodes, |nodes|);
  }

  // ----- the issues -----

  /** What is wrong with node k, by code. */
  ghost predicate Problem(schema: Schema, nodes: seq<Node>, n: Node, strict: bool, code: Code) {
    || (n.placeholder && strict && code == UnresolvedRef)
    || (n.alive && !n.placeholder && n.kind >= |schema.kinds| && code == KindOutOfRange)
    || (Typable(schema, n) && code == InvariantViolation && exists f: nat :: Lacks(schema, n, f))
    || (Typable(schema, n) && strict && code == UnresolvedRef
        && ((exists t :: t in n.refs && (t >= |nodes| || !nodes[t].alive)) || (exists t :: t in n.children && t >= |nodes|)))
  }

  lemma NodeIssuesLaw(schema: Schema, nodes: seq<Node>, n: Node, strict: bool, issue: Issue)
    ensures issue in NodeIssues(schema, nodes, n, strict) <==> issue.node == n.id && Problem(schema, nodes, n, strict, issue.code)
  {
    if Typable(schema, n) {
      TypableIssues(schema, nodes, n, strict, issue);
    } else {
      hide Copies, MissingIn, DanglingIn, OutOfRangeIn, Lacks;
    }
  }

  lemma TypableIssues(schema: Schema, nodes: seq<Node>, n: Node, strict: bool, issue: Issue)
    requires Typable(schema, n)
    ensures issue in NodeIssues(schema, nodes, n, strict) <==> issue.node == n.id && Problem(schema, nodes, n, strict, issue.code)
  {
    var fields := schema.kinds[n.kind].fields;
    var missing := MissingIn(fields, n, |fields|);
    var edges := DanglingIn(nodes, n.refs, |n.refs|) + OutOfRangeIn(|nodes|, n.children, |n.children|);
    MissingIff(schema, n);
    DanglingIff(nodes, n.refs);
    OutOfRangeIff(|nodes|, n.children);
    hide MissingIn, DanglingIn, OutOfRangeIn, Lacks, Copies;
    CopiesHold(Issue(InvariantViolation, n.id), missing, issue);
    CopiesHold(Issue(UnresolvedRef, n.id), if strict then edges else 0, issue);
  }

  lemma CopiesHold(issue: Issue, n: nat, other: Issue)
    ensures other in Copies(issue, n) <==> n > 0 && other == issue
  {
    if n > 0 {
      assert Copies(issue, n)[0] == issue;
    }
  }

  lemma MissingIff(schema: Schema, n: Node)
    requires Typable(schema, n)
    ensures var fields := schema.kinds[n.kind].fields;
      MissingIn(fields, n, |fields|) > 0 <==> exists f: nat :: Lacks(schema, n, f)
  {
    var fields := schema.kinds[n.kind].fields;
    NothingMissingIff(fields, n, |fields|);
    forall f: nat ensures Lacks(schema, n, f) <==> f < |fields| && Absent(fields, n, f) {
    }
    hide MissingIn, Lacks, Absent;
  }

  lemma DanglingIff(nodes: seq<Node>, ids: seq<nat>)
    ensures DanglingIn(nodes, ids, |ids|) > 0 <==> exists t :: t in ids && (t >= |nodes| || !nodes[t].alive)
  {
    NothingDanglesIff(nodes, ids, |ids|);
    hide DanglingIn;
    if DanglingIn(nodes, ids, |ids|) > 0 {
      var j :| 0 <= j < |ids| && Dangling(nodes, ids[j]);
      assert ids[j] in ids;
    }
  }

  lemma OutOfRangeIff(size: nat, ids: seq<nat>)
    ensures OutOfRangeIn(size, ids, |ids|) > 0 <==> exists t :: t in ids && t >= size
  {
    NothingOutOfRangeIff(size, ids, |ids|);
    hide OutOfRangeIn;
    if OutOfRangeIn(size, ids, |ids|) > 0 {
      var j :| 0 <= j < |ids| && ids[j] >= size;
      assert ids[j] in ids;
    }
  }

  /** An issue is reported exactly when some node has that problem. */
  lemma {:induction false} IssuesMean(schema: Schema, nodes: seq<Node>, i: nat, strict: bool, issue: Issue)
    requires i <= |nodes|
    ensures issue in IssueList(schema, nodes, i, strict) <==>
      exists k: nat :: k < i && nodes[k].id == issue.node && Problem(schema, nodes, nodes[k], strict, issue.code)
  {
    hide NodeIssues, Problem;
    if i > 0 {
      IssuesMean(schema, nodes, i - 1, strict, issue);
      NodeIssuesLaw(schema, nodes, nodes[i - 1], strict, issue);
    }
  }

  ghost predicate InTableOrder(issues: seq<Issue>) {
    forall a, b :: 0 <= a < b < |issues| ==> issues[a].node <= issues[b].node
  }

  /** The issues follow the table. */
  lemma {:induction false} IssuesInOrder(schema: Schema, nodes: seq<Node>, i: nat, strict: bool)
    requires Positional(nodes) && i <= |nodes|
    ensures forall issue :: issue in IssueList(schema, nodes, i, strict) ==> issue.node < i
    ensures InTableOrder(IssueList(schema, nodes, i, strict))
  {
    hide NodeIssues, Problem;
    if i > 0 {
      IssuesInOrder(schema, nodes, i - 1, strict);
      var before, own := IssueList(schema, nodes, i - 1, strict), NodeIssues(schema, nodes, nodes[i - 1], strict);
      forall issue | issue in own ensures issue.node == i - 1 {
        NodeIssuesLaw(schema, nodes, nodes[i - 1], strict, issue);
      }
      FollowsTable(before, own, i - 1);
    }
  }

  lemma FollowsTable(before: seq<Issue>, own: seq<Issue>, k: nat)
    requires InTableOrder(before)
    requires (forall issue :: issue in before ==> issue.node < k) && (forall issue :: issue in own ==> issue.node == k)
    ensures InTableOrder(before + own)
  {
    var r := before + own;
    forall a, b | 0 <= a < b < |r| ensures r[a].node <= r[b].node {
      if b >= |before| {
        assert own[b - |before|] in own;
        if a < |before| {
          assert before[a] in before;
        } else {
          assert own[a - |before|] in own;
        }
      }
    }
  }
}
