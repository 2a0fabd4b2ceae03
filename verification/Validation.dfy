/** The validator's report, and what its dangling-reference counter counts on
    tables the machine produced. */
module Validation {
  import opened Basics
  import opened Model
  import opened VmInvariants

  datatype Issue = Issue(code: Code, node: nat)

  datatype Report = Report(
    issues: seq<Issue>,
    liveNodes: nat,
    danglingRefs: nat,
    unfilledPlaceholders: nat,
    missingRequired: nat)

  const CLEAN: Report := Report([], 0, 0, 0, 0)

  predicate Dangling(nodes: seq<Node>, t: nat) {
    t >= |nodes| || !nodes[t].alive
  }

  function MissingIn(fields: seq<FieldDef>, n: Node, f: nat): nat
    requires f <= |fields|
  {
    if f == 0 then 0
    else MissingIn(fields, n, f - 1) + if Absent(fields, n, f - 1) then 1 else 0
  }

  function DanglingIn(nodes: seq<Node>, ids: seq<nat>, j: nat): nat
    requires j <= |ids|
  {
    if j == 0 then 0 else DanglingIn(nodes, ids, j - 1) + if Dangling(nodes, ids[j - 1]) then 1 else 0
  }

  function OutOfRangeIn(size: nat, ids: seq<nat>, j: nat): nat
    requires j <= |ids|
  {
    if j == 0 then 0 else OutOfRangeIn(size, ids, j - 1) + if ids[j - 1] >= size then 1 else 0
  }

  /** The counters over the first i nodes. */
  function LiveCount(nodes: seq<Node>, i: nat): nat
    requires i <= |nodes|
  {
    if i == 0 then 0 else LiveCount(nodes, i - 1) + if nodes[i - 1].alive && !nodes[i - 1].placeholder then 1 else 0
  }

  /** Whether a node gets past the checks that end its examination early. */
  predicate Examined(schema: Schema, n: Node) {
    !n.placeholder && n.alive && schema.HasKind(n.kind)
  }

  function DanglingCount(schema: Schema, nodes: seq<Node>, i: nat): nat
    requires i <= |nodes|
  {
    if i == 0 then 0
    else
      var n := nodes[i - 1];
      DanglingCount(schema, nodes, i - 1) +
        if Examined(schema, n)
        then DanglingIn(nodes, n.refs, |n.refs|) + OutOfRangeIn(|nodes|, n.children, |n.children|)
        else 0
  }

  function MissingCount(schema: Schema, nodes: seq<Node>, i: nat): nat
    requires i <= |nodes|
  {
    if i == 0 then 0
    else
      var n := nodes[i - 1];
      MissingCount(schema, nodes, i - 1) +
        if Examined(schema, n) then MissingIn(schema.kinds[n.kind].fields, n, |schema.kinds[n.kind].fields|) else 0
  }

  ghost predicate Counts(schema: Schema, nodes: seq<Node>, i: nat, rep: Report)
    requires i <= |nodes|
  {
    && rep.liveNodes == LiveCount(nodes, i)
    && rep.danglingRefs == DanglingCount(schema, nodes, i)
    && rep.unfilledPlaceholders == PlaceholderCount(nodes[..i])
    && rep.missingRequired == MissingCount(schema, nodes, i)
  }

  function BadKindCount(schema: Schema, nodes: seq<Node>, i: nat): nat
    requires i <= |nodes|
  {
    if i == 0 then 0
    else
      var n := nodes[i - 1];
      BadKindCount(schema, nodes, i - 1) + if !n.placeholder && n.alive && !schema.HasKind(n.kind) then 1 else 0
  }

  // ----- the issues -----

  function Copies(issue: Issue, n: nat): (r: seq<Issue>)
    ensures |r| == n && forall i :: 0 <= i < n ==> r[i] == issue
  {
    seq(n, _ => issue)
  }

  /** One node's issues, each under the node's own id: a missing field or a bad
      kind always, a placeholder or a dangling edge when strict. */
  function NodeIssues(schema: Schema, nodes: seq<Node>, n: Node, strict: bool): seq<Issue> {
    if n.placeholder then if strict then [Issue(UnresolvedRef, n.id)] else []
    else if !n.alive then []
    else if !schema.HasKind(n.kind) then [Issue(KindOutOfRange, n.id)]
    else
      var fields := schema.kinds[n.kind].fields;
      var edges := DanglingIn(nodes, n.refs, |n.refs|) + OutOfRangeIn(|nodes|, n.children, |n.children|);
      Copies(Issue(InvariantViolation, n.id), MissingIn(fields, n, |fields|))
      + Copies(Issue(UnresolvedRef, n.id), if strict then edges else 0)
  }

  /** The issues of the first i nodes, in table order. */
  function IssueList(schema: Schema, nodes: seq<Node>, i: nat, strict: bool): seq<Issue>
    requires i <= |nodes|
  {
    if i == 0 then [] else IssueList(schema, nodes, i - 1, strict) + NodeIssues(schema, nodes, nodes[i - 1], strict)
  }

  /** Every hard problem is one issue; every soft one is an issue when strict. */
  lemma {:induction false} IssuesCounted(schema: Schema, nodes: seq<Node>, i: nat, strict: bool)
    requires i <= |nodes|
    ensures |IssueList(schema, nodes, i, strict)|
         == MissingCount(schema, nodes, i) + BadKindCount(schema, nodes, i)
            + if strict then DanglingCount(schema, nodes, i) + PlaceholderCount(nodes[..i]) else 0
  {
    hide MissingIn, DanglingIn, OutOfRangeIn;
    if i > 0 {
      IssuesCounted(schema, nodes, i - 1, strict);
      assert nodes[..i][..i - 1] == nodes[..i - 1];
    }
  }

  /** What the validator asks of a node. */
  ghost predicate Sound(schema: Schema, nodes: seq<Node>, n: Node, strict: bool) {
    if n.placeholder then !strict
    else
      n.alive ==>
        && schema.HasKind(n.kind)
        && Complete(schema.kinds[n.kind].fields, n)
        && (strict ==> (forall t :: t in n.refs ==> !Dangling(nodes, t)) && AllBelow(n.children, |nodes|))
  }

  predicate Absent(fields: seq<FieldDef>, n: Node, f: nat)
    requires f < |fields|
  {
    fields[f].IsRequired() && (f >= TWO32 || f !in n.fields)
  }

  ghost predicate Complete(fields: seq<FieldDef>, n: Node) {
    forall f: nat :: f < |fields| ==> !Absent(fields, n, f)
  }

  lemma {:induction false} NothingMissingIff(fields: seq<FieldDef>, n: Node, f: nat)
    requires f <= |fields|
    ensures MissingIn(fields, n, f) == 0 <==> forall g: nat :: g < f ==> !Absent(fields, n, g)
  {
    if f > 0 {
      NothingMissingIff(fields, n, f - 1);
      assert Absent(fields, n, f - 1) <==> MissingIn(fields, n, f) > MissingIn(fields, n, f - 1);
    }
  }

  lemma {:induction false} NothingDanglesIff(nodes: seq<Node>, ids: seq<nat>, j: nat)
    requires j <= |ids|
    ensures DanglingIn(nodes, ids, j) == 0 <==> forall i :: 0 <= i < j ==> !Dangling(nodes, ids[i])
  {
    if j > 0 {
      NothingDanglesIff(nodes, ids, j - 1);
    }
  }

  lemma {:induction false} NothingOutOfRangeIff(size: nat, ids: seq<nat>, j: nat)
    requires j <= |ids|
    ensures OutOfRangeIn(size, ids, j) == 0 <==> forall i :: 0 <= i < j ==> ids[i] < size
  {
    if j > 0 {
      NothingOutOfRangeIff(size, ids, j - 1);
    }
  }

  lemma NodeIssuesIff(schema: Schema, nodes: seq<Node>, n: Node, strict: bool)
    ensures NodeIssues(schema, nodes, n, strict) == [] <==> Sound(schema, nodes, n, strict)
  {
    hide MissingIn, DanglingIn, OutOfRangeIn, Dangling, Absent;
    if Examined(schema, n) {
      var fields := schema.kinds[n.kind].fields;
      NothingMissingIff(fields, n, |fields|);
      NothingDanglesIff(nodes, n.refs, |n.refs|);
      NothingOutOfRangeIff(|nodes|, n.children, |n.children|);
    }
  }

  /** The report is clean exactly when every node is sound. */
  lemma {:induction false} NoIssueIff(schema: Schema, nodes: seq<Node>, i: nat, strict: bool)
    requires i <= |nodes|
    ensures IssueList(schema, nodes, i, strict) == [] <==> forall k :: 0 <= k < i ==> Sound(schema, nodes, nodes[k], strict)
  {
    hide NodeIssues, Sound;
    if i > 0 {
      NoIssueIff(schema, nodes, i - 1, strict);
      NodeIssuesIff(schema, nodes, nodes[i - 1], strict);
    }
  }

  // ----- the validator -----

  method CheckRequired(fields: seq<FieldDef>, n: Node, before: Report) returns (rep: Report)
    ensures rep == before.(missingRequired := before.missingRequired + MissingIn(fields, n, |fields|),
                           issues := before.issues + Copies(Issue(InvariantViolation, n.id), MissingIn(fields, n, |fields|)))
  {
    rep := before;
    var f := 0;
    while f < |fields|
      invariant 0 <= f <= |fields|
      invariant rep == before.(missingRequired := before.missingRequired + MissingIn(fields, n, f),
                               issues := before.issues + Copies(Issue(InvariantViolation, n.id), MissingIn(fields, n, f)))
    {
      if fields[f].IsRequired() && (f >= TWO32 || f !in n.fields) {
        rep := rep.(missingRequired := rep.missingRequired + 1,
                    issues := rep.issues + [Issue(InvariantViolation, n.id)]);
      }
      f := f + 1;
    }
  }

  method CheckRefs(nodes: seq<Node>, n: Node, strict: bool, before: Report) returns (rep: Report)
    ensures var found := DanglingIn(nodes, n.refs, |n.refs|);
      rep == before.(danglingRefs := before.danglingRefs + found,
                     issues := before.issues + Copies(Issue(UnresolvedRef, n.id), if strict then found else 0))
  {
    rep := before;
    var j := 0;
    while j < |n.refs|
      invariant 0 <= j <= |n.refs|
      invariant var found := DanglingIn(nodes, n.refs, j);
        rep == before.(danglingRefs := before.danglingRefs + found,
                       issues := before.issues + Copies(Issue(UnresolvedRef, n.id), if strict then found else 0))
    {
      var t := n.refs[j];
      if t >= |nodes| || !nodes[t].alive {
        rep := rep.(danglingRefs := rep.danglingRefs + 1,
                    issues := if strict then rep.issues + [Issue(UnresolvedRef, n.id)] else rep.issues);
      }
      j := j + 1;
    }
  }

  method CheckChildren(size: nat, n: Node, strict: bool, before: Report) returns (rep: Report)
    ensures var found := OutOfRangeIn(size, n.children, |n.children|);
      rep == before.(danglingRefs := before.danglingRefs + found,
                     issues := before.issues + Copies(Issue(UnresolvedRef, n.id), if strict then found else 0))
  {
    rep := before;
    var j := 0;
    while j < |n.children|
      invariant 0 <= j <= |n.children|
      invariant var found := OutOfRangeIn(size, n.children, j);
        rep == before.(danglingRefs := before.danglingRefs + found,
                       issues := before.issues + Copies(Issue(UnresolvedRef, n.id), if strict then found else 0))
    {
      if n.children[j] >= size {
        rep := rep.(danglingRefs := rep.danglingRefs + 1,
                    issues := if strict then rep.issues + [Issue(UnresolvedRef, n.id)] else rep.issues);
      }
      j := j + 1;
    }
  }

  method CheckEdges(nodes: seq<Node>, n: Node, strict: bool, before: Report) returns (rep: Report)
    ensures var found := DanglingIn(nodes, n.refs, |n.refs|) + OutOfRangeIn(|nodes|, n.children, |n.children|);
      rep == before.(danglingRefs := before.danglingRefs + found,
                     issues := before.issues + Copies(Issue(UnresolvedRef, n.id), if strict then found else 0))
  {
    hide DanglingIn, OutOfRangeIn;
    rep := CheckRefs(nodes, n, strict, before);
    rep := CheckChildren(|nodes|, n, strict, rep);
  }

  method CheckDefined(nodes: seq<Node>, schema: Schema, n: Node, strict: bool, before: Report) returns (rep: Report)
    requires Examined(schema, n)
    ensures var fields := schema.kinds[n.kind].fields;
      rep == before.(
        missingRequired := before.missingRequired + MissingIn(fields, n, |fields|),
        danglingRefs := before.danglingRefs
                        + (DanglingIn(nodes, n.refs, |n.refs|) + OutOfRangeIn(|nodes|, n.children, |n.children|)),
        issues := before.issues + NodeIssues(schema, nodes, n, strict))
  {
    hide MissingIn, DanglingIn, OutOfRangeIn, Copies;
    rep := CheckRequired(schema.kinds[n.kind].fields, n, before);
    rep := CheckEdges(nodes, n, strict, rep);
  }

  method ValidateGraph(nodes: seq<Node>, schema: Schema, strict: bool) returns (rep: Report)
    ensures Counts(schema, nodes, |nodes|, rep) && rep.issues == IssueList(schema, nodes, |nodes|, strict)
  {
    hide MissingIn, DanglingIn, OutOfRangeIn, Copies;
    rep := CLEAN;
    var i := 0;
    while i < |nodes|
      invariant 0 <= i <= |nodes|
      invariant Counts(schema, nodes, i, rep) && rep.issues == IssueList(schema, nodes, i, strict)
    {
      var n := nodes[i];
      assert nodes[..i + 1][..i] == nodes[..i];
      if n.placeholder {
        rep := rep.(unfilledPlaceholders := rep.unfilledPlaceholders + 1,
                    issues := if strict then rep.issues + [Issue(UnresolvedRef, n.id)] else rep.issues);
      } else if n.alive {
        rep := rep.(liveNodes := rep.liveNodes + 1);
        if !schema.HasKind(n.kind) {
          rep := rep.(issues := rep.issues + [Issue(KindOutOfRange, n.id)]);
        } else {
          rep := CheckDefined(nodes, schema, n, strict, rep);
        }
      }
      i := i + 1;
    }
  }

  // ----- on the machine's tables -----

  function DeadRefs(nodes: seq<Node>, ids: seq<nat>, j: nat): nat
    requires j <= |ids| && AllBelow(ids, |nodes|)
  {
    if j == 0 then 0 else DeadRefs(nodes, ids, j - 1) + if !nodes[ids[j - 1]].alive then 1 else 0
  }

  /** References from live, defined nodes to dropped nodes, over the first i nodes. */
  ghost function RefsToDropped(nodes: seq<Node>, i: nat): nat
    requires i <= |nodes| && forall k :: 0 <= k < |nodes| ==> AllBelow(nodes[k].refs, |nodes|)
  {
    if i == 0 then 0
    else
      var n := nodes[i - 1];
      RefsToDropped(nodes, i - 1) + if n.alive && !n.placeholder then DeadRefs(nodes, n.refs, |n.refs|) else 0
  }

  lemma {:induction false} DanglingIsDead(nodes: seq<Node>, ids: seq<nat>, j: nat)
    requires j <= |ids| && AllBelow(ids, |nodes|)
    ensures DanglingIn(nodes, ids, j) == DeadRefs(nodes, ids, j) && OutOfRangeIn(|nodes|, ids, j) == 0
  {
    if j > 0 {
      DanglingIsDead(nodes, ids, j - 1);
    }
  }

  lemma EdgesInRange(schema: Schema, nodes: seq<Node>)
    requires NodesOk(schema, nodes)
    ensures forall k :: 0 <= k < |nodes| ==> AllBelow(nodes[k].refs, |nodes|) && AllBelow(nodes[k].children, |nodes|)
    ensures forall k :: 0 <= k < |nodes| && !nodes[k].placeholder ==> schema.HasKind(nodes[k].kind)
  {
    forall k | 0 <= k < |nodes|
      ensures AllBelow(nodes[k].refs, |nodes|) && AllBelow(nodes[k].children, |nodes|)
      ensures !nodes[k].placeholder ==> schema.HasKind(nodes[k].kind)
    {
      assert NodeOk(schema, |nodes|, k, nodes[k]);
    }
  }

  /** On every table the machine can produce, the dangling counter is exactly
      the number of references from live defined nodes to dropped nodes, and no
      node has a bad kind. */
  lemma {:induction false} DanglingCountsDropped(schema: Schema, nodes: seq<Node>, i: nat)
    requires NodesOk(schema, nodes) && i <= |nodes|
    ensures forall k :: 0 <= k < |nodes| ==> AllBelow(nodes[k].refs, |nodes|)
    ensures DanglingCount(schema, nodes, i) == RefsToDropped(nodes, i) && BadKindCount(schema, nodes, i) == 0
  {
    EdgesInRange(schema, nodes);
    hide NodesOk;
    if i > 0 {
      DanglingCountsDropped(schema, nodes, i - 1);
      var n := nodes[i - 1];
      DanglingIsDead(nodes, n.refs, |n.refs|);
      DanglingIsDead(nodes, n.children, |n.children|);
    }
  }
}
