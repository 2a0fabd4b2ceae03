/** Comparing two node tables by live name, and what applying the reported
    changes does. */
module Diff {
  import opened Basics
  import opened Model

  // ----- equality of values -----

  /** IEEE-754 comparison of two doubles given as bit patterns: a NaN equals
      nothing, and the two zeros are equal. */
  predicate IsNaN(bits: U64) {
    bits % 0x8000_0000_0000_0000 > 0x7FF0_0000_0000_0000
  }

  predicate IsZero(bits: U64) {
    bits % 0x8000_0000_0000_0000 == 0
  }

  predicate FloatEqual(a: U64, b: U64) {
    !IsNaN(a) && !IsNaN(b) && (a == b || (IsZero(a) && IsZero(b)))
  }

  predicate ValuesEqual(a: Value, b: Value) {
    if a.FloatV? && b.FloatV? then FloatEqual(a.bits, b.bits) else a == b
  }

  /** Identical, or the same zero with another sign. */
  predicate Same(a: Value, b: Value) {
    a == b || ValuesEqual(a, b)
  }

  lemma SameIsEquivalence(a: Value, b: Value, c: Value)
    ensures Same(a, a) && (Same(a, b) ==> Same(b, a)) && (Same(a, b) && Same(b, c) ==> Same(a, c))
    ensures Same(a, b) ==> a == b || (a.FloatV? && b.FloatV? && IsZero(a.bits) && IsZero(b.bits))
    ensures ValuesEqual(a, a) <==> !(a.FloatV? && IsNaN(a.bits))
  {
  }

  // ----- changes -----

  const ADDED: Byte := 0
  const REMOVED: Byte := 1
  const MODIFIED: Byte := 2
  const UNCHANGED: Byte := 3

  datatype FieldChange = FieldChange(field: U32, before: Value, after: Value)

  datatype NodeChange = NodeChange(
    change: Byte,
    beforeId: U32,
    afterId: U32,
    name: U32,
    kind: U32,
    fieldChanges: seq<FieldChange>,
    childrenAdded: seq<U32>,
    childrenRemoved: seq<U32>)

  datatype GraphDiff = GraphDiff(
    changes: seq<NodeChange>,
    nodesAdded: nat,
    nodesRemoved: nat,
    nodesModified: nat,
    totalFieldChanges: nat)

  const NO_DIFF: GraphDiff := GraphDiff([], 0, 0, 0, 0)

  /** Record a change and count it. */
  function Recorded(d: GraphDiff, nc: NodeChange): GraphDiff {
    GraphDiff(d.changes + [nc],
              d.nodesAdded + (if nc.change == ADDED then 1 else 0),
              d.nodesRemoved + (if nc.change == REMOVED then 1 else 0),
              d.nodesModified + (if nc.change == MODIFIED then 1 else 0),
              d.totalFieldChanges + (if nc.change == MODIFIED then |nc.fieldChanges| else 0))
  }

  function Tally(changes: seq<NodeChange>): (d: GraphDiff)
    ensures d.changes == changes
  {
    if changes == [] then NO_DIFF else Recorded(Tally(changes[..|changes| - 1]), changes[|changes| - 1])
  }

  // ----- what is compared -----

  /** The first live bearer of each name. */
  function FirstNamed(nodes: seq<Node>): (m: map<U32, nat>)
    ensures forall a :: a in m ==> m[a] < |nodes| && nodes[m[a]].alive && nodes[m[a]].name == a != INVALID_ATOM
    ensures forall k :: 0 <= k < |nodes| && nodes[k].alive && nodes[k].name != INVALID_ATOM ==>
      nodes[k].name in m && m[nodes[k].name] <= k
  {
    if nodes == [] then map[]
    else
      var k := |nodes| - 1;
      var front := FirstNamed(nodes[..k]);
      if nodes[k].alive && nodes[k].name != INVALID_ATOM && nodes[k].name !in front
      then front[nodes[k].name := k]
      else front
  }

  /** Absent and Invalid are the same. */
  function At(fields: map<U32, Value>, f: U32): Value {
    if f in fields then fields[f] else Invalid
  }

  predicate Differs(before: map<U32, Value>, after: map<U32, Value>, f: U32) {
    if f in before && f in after then !ValuesEqual(before[f], after[f]) else f in before || f in after
  }

  /** The list names each differing field once, with both of its values. */
  ghost predicate FieldsChanged(before: map<U32, Value>, after: map<U32, Value>, changes: seq<FieldChange>) {
    && (forall f :: Differs(before, after, f) <==> exists j :: 0 <= j < |changes| && changes[j].field == f)
    && (forall j :: 0 <= j < |changes| ==>
          changes[j].before == At(before, changes[j].field) && changes[j].after == At(after, changes[j].field))
    && (forall i, j :: 0 <= i < j < |changes| ==> changes[i].field != changes[j].field)
  }

  /** The names of a node's in-range, named children, in order. */
  function ChildNames(nodes: seq<Node>, ids: seq<nat>): seq<U32> {
    if ids == [] then []
    else
      var front, c := ChildNames(nodes, ids[..|ids| - 1]), ids[|ids| - 1];
      if c < |nodes| && nodes[c].name != INVALID_ATOM then front + [nodes[c].name] else front
  }

  function NameSet(names: seq<U32>): set<U32> {
    set a | a in names
  }

  ghost predicate NoRepeats(names: seq<U32>) {
    forall i, j :: 0 <= i < j < |names| ==> names[i] != names[j]
  }

  // ----- a correct diff -----

  ghost predicate AddedOk(after: seq<Node>, a: Node, nc: NodeChange) {
    && nc.change == ADDED && nc.beforeId == INVALID_NODE && nc.afterId == a.id && nc.kind == a.kind
    && FieldsChanged(map[], a.fields, nc.fieldChanges)
    && nc.childrenAdded == ChildNames(after, a.children) && nc.childrenRemoved == []
  }

  ghost predicate KeptOk(before: seq<Node>, after: seq<Node>, b: Node, a: Node, nc: NodeChange) {
    && nc.beforeId == b.id && nc.afterId == a.id && nc.kind == a.kind
    && FieldsChanged(b.fields, a.fields, nc.fieldChanges)
    && NameSet(nc.childrenAdded) == NameSet(ChildNames(after, a.children)) - NameSet(ChildNames(before, b.children))
    && NameSet(nc.childrenRemoved) == NameSet(ChildNames(before, b.children)) - NameSet(ChildNames(after, a.children))
    && NoRepeats(nc.childrenAdded) && NoRepeats(nc.childrenRemoved)
    && nc.change == if nc.fieldChanges == [] && nc.childrenAdded == [] && nc.childrenRemoved == [] && b.kind == a.kind
                    then UNCHANGED else MODIFIED
  }

  ghost predicate RemovedOk(b: Node, nc: NodeChange) {
    && nc.change == REMOVED && nc.beforeId == b.id && nc.afterId == INVALID_NODE && nc.kind == b.kind
    && nc.fieldChanges == [] && nc.childrenAdded == [] && nc.childrenRemoved == []
  }

  ghost predicate ChangeOk(before: seq<Node>, after: seq<Node>, nc: NodeChange) {
    var bi, ai := FirstNamed(before), FirstNamed(after);
    if nc.name in ai then
      if nc.name in bi then KeptOk(before, after, before[bi[nc.name]], after[ai[nc.name]], nc)
      else AddedOk(after, after[ai[nc.name]], nc)
    else nc.name in bi && RemovedOk(before[bi[nc.name]], nc)
  }

  ghost predicate NamesOnce(changes: seq<NodeChange>) {
    forall i, j :: 0 <= i < j < |changes| ==> changes[i].name != changes[j].name
  }

  function ChangedNames(changes: seq<NodeChange>): set<U32> {
    set nc | nc in changes :: nc.name
  }

  /** Each name of either table once, each described correctly, all counted. */
  ghost predicate DiffOk(before: seq<Node>, after: seq<Node>, d: GraphDiff) {
    && NamesOnce(d.changes)
    && ChangedNames(d.changes) == FirstNamed(before).Keys + FirstNamed(after).Keys
    && (forall nc :: nc in d.changes ==> ChangeOk(before, after, nc))
    && d == Tally(d.changes)
  }

  // ----- computing it -----

  ghost predicate IdsFit(nodes: seq<Node>) {
    forall k :: 0 <= k < |nodes| ==> nodes[k].id < TWO32
  }

  method IndexByName(nodes: seq<Node>) returns (m: map<U32, nat>)
    ensures m == FirstNamed(nodes)
  {
    m := map[];
    var i := 0;
    while i < |nodes|
      invariant 0 <= i <= |nodes| && m == FirstNamed(nodes[..i])
    {
      assert nodes[..i + 1][..i] == nodes[..i];
      var n := nodes[i];
      if n.alive && n.name != INVALID_ATOM && n.name !in m {
        m := m[n.name := i];
      }
      i := i + 1;
    }
    assert nodes[..|nodes|] == nodes;
  }

  /** The list so far covers exactly the differing fields among those visited. */
  ghost predicate CoversSoFar(before: map<U32, Value>, after: map<U32, Value>, seen: set<U32>, changes: seq<FieldChange>) {
    && (forall f :: f in seen && Differs(before, after, f) <==> exists j :: 0 <= j < |changes| && changes[j].field == f)
    && (forall j :: 0 <= j < |changes| ==>
          changes[j].before == At(before, changes[j].field) && changes[j].after == At(after, changes[j].field))
    && (forall i, j :: 0 <= i < j < |changes| ==> changes[i].field != changes[j].field)
  }

  lemma CoverOne(before: map<U32, Value>, after: map<U32, Value>, seen: set<U32>, changes: seq<FieldChange>, f: U32)
    requires CoversSoFar(before, after, seen, changes) && f !in seen
    ensures !Differs(before, after, f) ==> CoversSoFar(before, after, seen + {f}, changes)
    ensures Differs(before, after, f) ==>
      CoversSoFar(before, after, seen + {f}, changes + [FieldChange(f, At(before, f), At(after, f))])
  {
    hide Differs, At;
    if Differs(before, after, f) {
      var changes' := changes + [FieldChange(f, At(before, f), At(after, f))];
      forall g ensures g in seen + {f} && Differs(before, after, g) <==> exists j :: 0 <= j < |changes'| && changes'[j].field == g {
        if g == f {
          assert changes'[|changes|].field == f;
        } else if exists j :: 0 <= j < |changes| && changes[j].field == g {
          var j :| 0 <= j < |changes| && changes[j].field == g;
          assert changes'[j].field == g;
        }
      }
    }
  }

  method CompareFields(before: map<U32, Value>, after: map<U32, Value>) returns (changes: seq<FieldChange>)
    ensures FieldsChanged(before, after, changes)
  {
    hide CoversSoFar;
    changes := [];
    ghost var seen: set<U32> := {};
    assert CoversSoFar(before, after, seen, changes) by { NothingCovered(before, after); }
    var todo := after.Keys;
    while todo != {}
      invariant todo <= after.Keys && seen == after.Keys - todo
      invariant CoversSoFar(before, after, seen, changes)
      decreases todo
    {
      var f :| f in todo;
      todo := todo - {f};
      CoverOne(before, after, seen, changes, f);
      seen := seen + {f};
      if f !in before {
        changes := changes + [FieldChange(f, Invalid, after[f])];
      } else if !ValuesEqual(before[f], after[f]) {
        changes := changes + [FieldChange(f, before[f], after[f])];
      }
    }
    todo := before.Keys - after.Keys;
    while todo != {}
      invariant todo <= before.Keys - after.Keys && seen == after.Keys + (before.Keys - after.Keys - todo)
      invariant CoversSoFar(before, after, seen, changes)
      decreases todo
    {
      var f :| f in todo;
      todo := todo - {f};
      CoverOne(before, after, seen, changes, f);
      seen := seen + {f};
      changes := changes + [FieldChange(f, before[f], Invalid)];
    }
    AllCovered(before, after, seen, changes);
  }

  lemma NothingCovered(before: map<U32, Value>, after: map<U32, Value>)
    ensures CoversSoFar(before, after, {}, [])
  {
  }

  lemma AllCovered(before: map<U32, Value>, after: map<U32, Value>, seen: set<U32>, changes: seq<FieldChange>)
    requires CoversSoFar(before, after, seen, changes) && seen == after.Keys + before.Keys
    ensures FieldsChanged(before, after, changes)
  {
    assert forall f :: Differs(before, after, f) ==> f in seen;
  }

  method CollectChildNames(nodes: seq<Node>, ids: seq<nat>) returns (names: seq<U32>)
    ensures names == ChildNames(nodes, ids)
  {
    names := [];
    var j := 0;
    while j < |ids|
      invariant 0 <= j <= |ids| && names == ChildNames(nodes, ids[..j])
    {
      assert ids[..j + 1][..j] == ids[..j];
      if ids[j] < |nodes| && nodes[ids[j]].name != INVALID_ATOM {
        names := names + [nodes[ids[j]].name];
      }
      j := j + 1;
    }
    assert ids[..|ids|] == ids;
  }

  /** The members of one set missing from another, in some order. */
  method ListMissing(from: set<U32>, other: set<U32>) returns (names: seq<U32>)
    ensures NameSet(names) == from - other && NoRepeats(names)
  {
    names := [];
    var todo := from;
    while todo != {}
      invariant todo <= from && NoRepeats(names)
      invariant NameSet(names) == (from - todo) - other
      decreases todo
    {
      var a :| a in todo;
      todo := todo - {a};
      if a !in other {
        assert a !in NameSet(names);
        assert NameSet(names + [a]) == NameSet(names) + {a};
        names := names + [a];
      }
    }
  }

  method CompareKept(before: seq<Node>, after: seq<Node>, b: Node, a: Node, name: U32) returns (nc: NodeChange)
    requires b.id < TWO32 && a.id < TWO32
    ensures nc.name == name && KeptOk(before, after, b, a, nc)
  {
    hide FieldsChanged, NoRepeats, NameSet;
    var fields := CompareFields(b.fields, a.fields);
    var beforeNames := CollectChildNames(before, b.children);
    var afterNames := CollectChildNames(after, a.children);
    var beforeSet, afterSet := NameSet(beforeNames), NameSet(afterNames);
    var added := ListMissing(afterSet, beforeSet);
    var removed := ListMissing(beforeSet, afterSet);
    var changed := fields != [] || added != [] || removed != [] || b.kind != a.kind;
    nc := NodeChange(if changed then MODIFIED else UNCHANGED, b.id, a.id, name, a.kind, fields, added, removed);
  }

  method DescribeAdded(after: seq<Node>, a: Node, name: U32) returns (nc: NodeChange)
    requires a.id < TWO32
    ensures nc.name == name && AddedOk(after, a, nc)
  {
    hide FieldsChanged;
    var fields := CompareFields(map[], a.fields);
    var children := CollectChildNames(after, a.children);
    nc := NodeChange(ADDED, INVALID_NODE, a.id, name, a.kind, fields, children, []);
  }

  lemma RecordKeeps(before: seq<Node>, after: seq<Node>, d: GraphDiff, nc: NodeChange)
    requires NamesOnce(d.changes) && nc.name !in ChangedNames(d.changes) && d == Tally(d.changes)
    ensures NamesOnce(Recorded(d, nc).changes)
    ensures ChangedNames(Recorded(d, nc).changes) == ChangedNames(d.changes) + {nc.name}
    ensures Recorded(d, nc) == Tally(Recorded(d, nc).changes)
  {
    var changes' := d.changes + [nc];
    assert changes'[..|d.changes|] == d.changes;
    forall i, j | 0 <= i < j < |changes'| ensures changes'[i].name != changes'[j].name {
      if j == |d.changes| {
        assert d.changes[i] in d.changes;
      }
    }
    assert forall c :: c in changes' <==> c in d.changes || c == nc;
  }

  ghost predicate Describes(before: seq<Node>, after: seq<Node>, d: GraphDiff) {
    forall nc :: nc in d.changes ==> ChangeOk(before, after, nc)
  }

  method DiffNodeGraphs(before: seq<Node>, after: seq<Node>) returns (d: GraphDiff)
    requires IdsFit(before) && IdsFit(after)
    ensures DiffOk(before, after, d)
  {
    hide KeptOk, AddedOk, RemovedOk, Tally, NamesOnce, ChangedNames;
    var beforeByName := IndexByName(before);
    var afterByName := IndexByName(after);
    d := NO_DIFF;
    EmptyDiff();
    var todo := afterByName.Keys;
    while todo != {}
      invariant todo <= afterByName.Keys
      invariant NamesOnce(d.changes) && d == Tally(d.changes)
      invariant ChangedNames(d.changes) == afterByName.Keys - todo
      invariant Describes(before, after, d)
      decreases todo
    {
      var name :| name in todo;
      todo := todo - {name};
      var a := after[afterByName[name]];
      var nc;
      if name !in beforeByName {
        nc := DescribeAdded(after, a, name);
      } else {
        nc := CompareKept(before, after, before[beforeByName[name]], a, name);
      }
      RecordKeeps(before, after, d, nc);
      d := Recorded(d, nc);
    }
    todo := beforeByName.Keys - afterByName.Keys;
    while todo != {}
      invariant todo <= beforeByName.Keys - afterByName.Keys
      invariant NamesOnce(d.changes) && d == Tally(d.changes)
      invariant ChangedNames(d.changes) == afterByName.Keys + (beforeByName.Keys - afterByName.Keys - todo)
      invariant Describes(before, after, d)
      decreases todo
    {
      var name :| name in todo;
      todo := todo - {name};
      var b := before[beforeByName[name]];
      var nc := NodeChange(REMOVED, b.id, INVALID_NODE, name, b.kind, [], [], []);
      assert RemovedOk(b, nc) by { RemovedIsOk(b, name); }
      RecordKeeps(before, after, d, nc);
      d := Recorded(d, nc);
    }
  }

  lemma RemovedIsOk(b: Node, name: U32)
    requires b.id < TWO32
    ensures RemovedOk(b, NodeChange(REMOVED, b.id, INVALID_NODE, name, b.kind, [], [], []))
  {
  }

  lemma EmptyDiff()
    ensures NamesOnce([]) && NO_DIFF == Tally([]) && ChangedNames([]) == {}
  {
  }

  // ----- applying it -----

  /** What a name stands for: the view the diff compares. */
  datatype NodeView = NodeView(kind: U32, fields: map<U32, Value>, children: set<U32>)

  function ViewOf(nodes: seq<Node>, n: Node): NodeView {
    NodeView(n.kind, n.fields, NameSet(ChildNames(nodes, n.children)))
  }

  ghost function View(nodes: seq<Node>): map<U32, NodeView> {
    map a | a in FirstNamed(nodes) :: ViewOf(nodes, nodes[FirstNamed(nodes)[a]])
  }

  function ApplyFields(fields: map<U32, Value>, changes: seq<FieldChange>): map<U32, Value>
    decreases |changes|
  {
    if changes == [] then fields
    else
      var c := changes[|changes| - 1];
      var front := ApplyFields(fields, changes[..|changes| - 1]);
      if c.after == Invalid then front - {c.field} else front[c.field := c.after]
  }

  function ApplyNode(v: NodeView, nc: NodeChange): NodeView {
    NodeView(nc.kind, ApplyFields(v.fields, nc.fieldChanges),
             v.children - NameSet(nc.childrenRemoved) + NameSet(nc.childrenAdded))
  }

  const BLANK: NodeView := NodeView(INVALID_KIND, map[], {})

  function ApplyChange(view: map<U32, NodeView>, nc: NodeChange): map<U32, NodeView> {
    if nc.change == REMOVED then view - {nc.name}
    else if nc.change == ADDED then view[nc.name := ApplyNode(BLANK, nc)]
    else if nc.name in view then view[nc.name := ApplyNode(view[nc.name], nc)]
    else view
  }

  function ApplyAll(view: map<U32, NodeView>, changes: seq<NodeChange>): map<U32, NodeView>
    decreases |changes|
  {
    if changes == [] then view
    else ApplyChange(ApplyAll(view, changes[..|changes| - 1]), changes[|changes| - 1])
  }

  /** Equal up to unset-versus-Invalid and the sign of zero. */
  ghost predicate FieldsAgree(x: map<U32, Value>, y: map<U32, Value>) {
    forall f :: Same(At(x, f), At(y, f))
  }

  ghost predicate NodesAgree(x: NodeView, y: NodeView) {
    x.kind == y.kind && x.children == y.children && FieldsAgree(x.fields, y.fields)
  }

  ghost predicate ViewsAgree(x: map<U32, NodeView>, y: map<U32, NodeView>) {
    x.Keys == y.Keys && forall a :: a in x ==> NodesAgree(x[a], y[a])
  }

  lemma {:induction false} ApplyFieldsAt(fields: map<U32, Value>, changes: seq<FieldChange>, f: U32)
    requires forall i, j :: 0 <= i < j < |changes| ==> changes[i].field != changes[j].field
    ensures (exists j :: 0 <= j < |changes| && changes[j].field == f) ==>
      exists j :: 0 <= j < |changes| && changes[j].field == f && At(ApplyFields(fields, changes), f) == changes[j].after
    ensures !(exists j :: 0 <= j < |changes| && changes[j].field == f) ==>
      At(ApplyFields(fields, changes), f) == At(fields, f)
    decreases |changes|
  {
    if changes != [] {
      var m := |changes| - 1;
      var front := changes[..m];
      ApplyFieldsAt(fields, front, f);
      if changes[m].field == f {
        assert At(ApplyFields(fields, changes), f) == changes[m].after;
      } else {
        if j :| 0 <= j < |changes| && changes[j].field == f {
          assert front[j].field == f;
        }
        assert At(ApplyFields(fields, changes), f) == At(ApplyFields(fields, front), f);
        if j :| 0 <= j < |front| && front[j].field == f && At(ApplyFields(fields, front), f) == front[j].after {
          assert changes[j] == front[j];
        }
      }
    }
  }

  /** Applying the field changes gives the after-fields. */
  lemma FieldChangesApply(before: map<U32, Value>, after: map<U32, Value>, changes: seq<FieldChange>)
    requires FieldsChanged(before, after, changes)
    ensures FieldsAgree(ApplyFields(before, changes), after)
  {
    hide ApplyFields;
    forall f ensures Same(At(ApplyFields(before, changes), f), At(after, f)) {
      ApplyFieldsAt(before, changes, f);
      if Differs(before, after, f) {
        var j :| 0 <= j < |changes| && changes[j].field == f && At(ApplyFields(before, changes), f) == changes[j].after;
        assert changes[j].after == At(after, changes[j].field);
      } else {
        assert At(ApplyFields(before, changes), f) == At(before, f);
      }
    }
  }

  lemma NodeChangeApplies(before: seq<Node>, after: seq<Node>, nc: NodeChange)
    requires ChangeOk(before, after, nc) && nc.name in FirstNamed(after)
    ensures nc.name in FirstNamed(before) ==>
      nc.change != ADDED && nc.change != REMOVED && NodesAgree(ApplyNode(View(before)[nc.name], nc), View(after)[nc.name])
    ensures nc.name !in FirstNamed(before) ==>
      nc.change == ADDED && NodesAgree(ApplyNode(BLANK, nc), View(after)[nc.name])
  {
    hide FieldsChanged, FieldsAgree, ChildNames, ApplyFields;
    var a := after[FirstNamed(after)[nc.name]];
    if nc.name in FirstNamed(before) {
      var b := before[FirstNamed(before)[nc.name]];
      FieldChangesApply(b.fields, a.fields, nc.fieldChanges);
    } else {
      FieldChangesApply(map[], a.fields, nc.fieldChanges);
    }
  }

  /** The changed names stand for what they do in the after table, the others
      for what they did before. */
  ghost predicate Applied(before: seq<Node>, after: seq<Node>, changed: set<U32>, r: map<U32, NodeView>) {
    forall a: U32 ::
      if a in changed
      then (a in r <==> a in View(after)) && (a in r ==> NodesAgree(r[a], View(after)[a]))
      else (a in r <==> a in View(before)) && (a in r ==> r[a] == View(before)[a])
  }

  lemma OneChange(before: seq<Node>, after: seq<Node>, view: map<U32, NodeView>, nc: NodeChange)
    requires ChangeOk(before, after, nc)
    requires nc.name in view <==> nc.name in FirstNamed(before)
    requires nc.name in view ==> view[nc.name] == View(before)[nc.name]
    ensures var r := ApplyChange(view, nc);
      && (nc.name in r <==> nc.name in FirstNamed(after))
      && (nc.name in r ==> NodesAgree(r[nc.name], View(after)[nc.name]))
      && forall a: U32 :: a != nc.name ==> (a in r <==> a in view) && (a in r ==> r[a] == view[a])
  {
    hide NodesAgree, KeptOk, AddedOk, ApplyNode;
    if nc.name in FirstNamed(after) {
      NodeChangeApplies(before, after, nc);
    }
  }

  lemma AppliedStep(before: seq<Node>, after: seq<Node>, changed: set<U32>, r: map<U32, NodeView>, nc: NodeChange)
    requires Applied(before, after, changed, r) && nc.name !in changed && ChangeOk(before, after, nc)
    ensures Applied(before, after, changed + {nc.name}, ApplyChange(r, nc))
  {
    hide View, NodesAgree, ChangeOk, ApplyChange;
    ViewKeys(before);
    ViewKeys(after);
    OneChange(before, after, r, nc);
  }

  lemma ViewKeys(nodes: seq<Node>)
    ensures View(nodes).Keys == FirstNamed(nodes).Keys
  {
  }

  lemma ChangedNamesStep(changes: seq<NodeChange>)
    requires changes != [] && NamesOnce(changes)
    ensures var m := |changes| - 1;
      && NamesOnce(changes[..m]) && changes[m].name !in ChangedNames(changes[..m])
      && ChangedNames(changes) == ChangedNames(changes[..m]) + {changes[m].name}
  {
    var m := |changes| - 1;
    var front, nc := changes[..m], changes[m];
    assert forall c :: c in changes <==> c in front || c == nc;
  }

  /** Changes with distinct names each do their part. */
  lemma {:induction false} ApplyAllAt(before: seq<Node>, after: seq<Node>, changes: seq<NodeChange>)
    requires NamesOnce(changes) && forall nc :: nc in changes ==> ChangeOk(before, after, nc)
    ensures Applied(before, after, ChangedNames(changes), ApplyAll(View(before), changes))
    decreases |changes|
  {
    hide Applied, ChangeOk, View, NamesOnce, ChangedNames;
    if changes == [] {
      NothingApplied(before, after);
    } else {
      var m := |changes| - 1;
      ChangedNamesStep(changes);
      assert changes[m] in changes;
      ApplyAllAt(before, after, changes[..m]);
      AppliedStep(before, after, ChangedNames(changes[..m]), ApplyAll(View(before), changes[..m]), changes[m]);
    }
  }

  lemma NothingApplied(before: seq<Node>, after: seq<Node>)
    ensures ChangedNames([]) == {} && Applied(before, after, {}, View(before))
  {
    hide View;
  }

  /** Applying a correct diff to what the names of one table stand for gives
      what the names of the other stand for. */
  lemma DiffApplies(before: seq<Node>, after: seq<Node>, d: GraphDiff)
    requires DiffOk(before, after, d)
    ensures ViewsAgree(ApplyAll(View(before), d.changes), View(after))
  {
    hide NodesAgree, ChangeOk, View, Tally, NamesOnce, ApplyAll;
    ApplyAllAt(before, after, d.changes);
    ViewKeys(before);
    ViewKeys(after);
  }

  /** Nothing is reported that did not change: a kept name is Modified exactly
      when its kind, a field or its set of child names differs. */
  lemma ModifiedIffDifferent(before: seq<Node>, after: seq<Node>, d: GraphDiff, nc: NodeChange)
    requires DiffOk(before, after, d) && nc in d.changes
    requires nc.name in FirstNamed(before) && nc.name in FirstNamed(after)
    ensures var b, a := View(before)[nc.name], View(after)[nc.name];
      nc.change == MODIFIED <==>
        b.kind != a.kind || b.children != a.children || exists f :: Differs(b.fields, a.fields, f)
    ensures nc.change == MODIFIED || nc.change == UNCHANGED
  {
    hide Tally, NamesOnce, ChildNames, Differs;
    var b := before[FirstNamed(before)[nc.name]];
    var a := after[FirstNamed(after)[nc.name]];
    assert KeptOk(before, after, b, a, nc);
    if nc.fieldChanges != [] {
      assert Differs(b.fields, a.fields, nc.fieldChanges[0].field);
    }
    if nc.childrenAdded != [] {
      assert nc.childrenAdded[0] in NameSet(nc.childrenAdded);
    }
    if nc.childrenRemoved != [] {
      assert nc.childrenRemoved[0] in NameSet(nc.childrenRemoved);
    }
  }

  /** Compared with itself a node is Unchanged unless a field holds a NaN,
      which no comparison finds equal to itself. */
  lemma SelfDiff(nodes: seq<Node>, d: GraphDiff, nc: NodeChange)
    requires DiffOk(nodes, nodes, d) && nc in d.changes
    ensures nc.name in FirstNamed(nodes)
    ensures var fields := nodes[FirstNamed(nodes)[nc.name]].fields;
      nc.change == UNCHANGED <==> forall f :: f in fields ==> !(fields[f].FloatV? && IsNaN(fields[f].bits))
  {
    hide Tally, NamesOnce, FirstNamed, ChildNames, DiffOk;
    assert ChangeOk(nodes, nodes, nc) by { Described(nodes, nodes, d, nc); }
    ModifiedIffDifferent(nodes, nodes, d, nc);
    ViewAt(nodes, nc.name);
    var fields := nodes[FirstNamed(nodes)[nc.name]].fields;
    assert forall f :: Differs(fields, fields, f) <==> f in fields && fields[f].FloatV? && IsNaN(fields[f].bits);
  }

  lemma Described(before: seq<Node>, after: seq<Node>, d: GraphDiff, nc: NodeChange)
    requires DiffOk(before, after, d) && nc in d.changes
    ensures ChangeOk(before, after, nc)
  {
  }

  lemma ViewAt(nodes: seq<Node>, a: U32)
    requires a in FirstNamed(nodes)
    ensures a in View(nodes) && View(nodes)[a] == ViewOf(nodes, nodes[FirstNamed(nodes)[a]])
  {
  }
}
