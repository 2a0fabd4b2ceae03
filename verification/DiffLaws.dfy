/** What a diff's counters, kinds of change and child names mean, and what its
    patch is made of. */
module DiffLaws {
  import opened Basics
  import opened Model
  import opened ReplayVm
  import opened Diff
  import opened DiffPatch

  // ----- doubles -----

  function Exponent(bits: U64): nat {
    bits / 0x10_0000_0000_0000 % 0x800
  }

  function Mantissa(bits: U64): nat {
    bits % 0x10_0000_0000_0000
  }

  /** By the fields of an IEEE-754 double: a NaN has the top exponent and a
      non-zero mantissa, a zero neither exponent nor mantissa. */
  lemma DoubleClasses(bits: U64)
    ensures IsNaN(bits) <==> Exponent(bits) == 0x7FF && Mantissa(bits) != 0
    ensures IsZero(bits) <==> Exponent(bits) == 0 && Mantissa(bits) == 0
  {
  }

  /** Doubles compare as numbers, everything else by type and content. */
  lemma ValuesEqualLaw(a: Value, b: Value)
    ensures !(a.FloatV? && b.FloatV?) ==> (ValuesEqual(a, b) <==> a == b)
    ensures a.FloatV? && b.FloatV? ==> (ValuesEqual(a, b) <==>
      && !(Exponent(a.bits) == 0x7FF && Mantissa(a.bits) != 0)
      && !(Exponent(b.bits) == 0x7FF && Mantissa(b.bits) != 0)
      && (a.bits == b.bits || (a.bits % 0x8000_0000_0000_0000 == 0 && b.bits % 0x8000_0000_0000_0000 == 0)))
  {
    if a.FloatV? && b.FloatV? {
      DoubleClasses(a.bits);
      DoubleClasses(b.bits);
      hide Exponent, Mantissa;
    }
  }

  // ----- child names -----

  /** Each in-range child contributes its name if it has one, in order. */
  lemma {:induction false} ChildNamesLaw(nodes: seq<Node>, a: seq<nat>, b: seq<nat>)
    ensures ChildNames(nodes, a + b) == ChildNames(nodes, a) + ChildNames(nodes, b)
    ensures forall c: nat :: ChildNames(nodes, [c]) == if c < |nodes| && nodes[c].name != INVALID_ATOM then [nodes[c].name] else []
    ensures ChildNames(nodes, []) == []
    decreases |b|
  {
    forall c: nat ensures ChildNames(nodes, [c]) == if c < |nodes| && nodes[c].name != INVALID_ATOM then [nodes[c].name] else [] {
      assert [c][..0] == [];
    }
    if b == [] {
      assert a + b == a;
    } else {
      assert (a + b)[..|a + b| - 1] == a + b[..|b| - 1];
      ChildNamesLaw(nodes, a, b[..|b| - 1]);
    }
  }

  // ----- counters -----

  /** The names among the changes of one kind. */
  ghost function NamesOf(changes: seq<NodeChange>, change: Byte): set<U32> {
    set nc | nc in changes && nc.change == change :: nc.name
  }

  lemma {:induction false} TallyCounts(changes: seq<NodeChange>)
    requires NamesOnce(changes)
    ensures var d := Tally(changes);
      && d.nodesAdded == |NamesOf(changes, ADDED)| && d.nodesRemoved == |NamesOf(changes, REMOVED)|
      && d.nodesModified == |NamesOf(changes, MODIFIED)|
    decreases |changes|
  {
    if changes == [] {
      assert forall change: Byte :: NamesOf([], change) == {};
    } else {
      var m := |changes| - 1;
      TallyCounts(changes[..m]);
      NamesOfStep(changes, ADDED);
      NamesOfStep(changes, REMOVED);
      NamesOfStep(changes, MODIFIED);
      hide NamesOf;
    }
  }

  lemma NamesOfStep(changes: seq<NodeChange>, change: Byte)
    requires changes != [] && NamesOnce(changes)
    ensures var m := |changes| - 1;
      |NamesOf(changes, change)| == |NamesOf(changes[..m], change)| + if changes[m].change == change then 1 else 0
  {
    var m := |changes| - 1;
    var front, last := changes[..m], changes[m];
    assert forall nc :: nc in changes <==> nc in front || nc == last;
    assert NamesOf(changes, change) == NamesOf(front, change) + if last.change == change then {last.name} else {};
    forall nc | nc in front ensures nc.name != last.name {
      var i :| 0 <= i < m && front[i] == nc;
      assert changes[i].name != changes[m].name;
    }
  }

  /** The names with a live bearer. */
  ghost function LiveNames(nodes: seq<Node>): set<U32> {
    set k | 0 <= k < |nodes| && nodes[k].alive && nodes[k].name != INVALID_ATOM :: nodes[k].name
  }

  /** The first live bearer. */
  ghost predicate IsFirst(nodes: seq<Node>, name: U32, k: nat) {
    && k < |nodes| && nodes[k].alive && nodes[k].name == name != INVALID_ATOM
    && forall j :: 0 <= j < k ==> !(nodes[j].alive && nodes[j].name == name)
  }

  lemma FirstNamedLaw(nodes: seq<Node>)
    ensures FirstNamed(nodes).Keys == LiveNames(nodes)
    ensures forall a :: a in FirstNamed(nodes) ==> IsFirst(nodes, a, FirstNamed(nodes)[a])
  {
  }

  lemma FirstIsUnique(nodes: seq<Node>, name: U32, j: nat, k: nat)
    requires IsFirst(nodes, name, j) && IsFirst(nodes, name, k)
    ensures j == k
  {
  }

  /** What the first bearers of a name have in common: kind, fields and the set
      of their children's names. */
  ghost predicate Alike(before: seq<Node>, after: seq<Node>, b: Node, a: Node) {
    && b.kind == a.kind
    && (forall f: U32 :: !Differs(b.fields, a.fields, f))
    && NameSet(ChildNames(before, b.children)) == NameSet(ChildNames(after, a.children))
  }

  ghost predicate Unlike(before: seq<Node>, after: seq<Node>, name: U32) {
    exists i: nat, j: nat :: IsFirst(before, name, i) && IsFirst(after, name, j) && !Alike(before, after, before[i], after[j])
  }

  lemma KindOfChange(before: seq<Node>, after: seq<Node>, nc: NodeChange)
    requires ChangeOk(before, after, nc)
    ensures nc.change == ADDED <==> nc.name !in LiveNames(before)
    ensures nc.change == REMOVED <==> nc.name !in LiveNames(after)
    ensures nc.change == MODIFIED <==> Unlike(before, after, nc.name)
    ensures nc.name in LiveNames(before) + LiveNames(after)
  {
    FirstNamedLaw(before);
    FirstNamedLaw(after);
    hide FirstNamed, LiveNames, Alike;
    if nc.name in FirstNamed(before) && nc.name in FirstNamed(after) {
      var i, j := FirstNamed(before)[nc.name], FirstNamed(after)[nc.name];
      UnchangedIffAlike(before, after, before[i], after[j], nc);
      forall x: nat, y: nat | IsFirst(before, nc.name, x) && IsFirst(after, nc.name, y) ensures x == i && y == j {
        FirstIsUnique(before, nc.name, i, x);
        FirstIsUnique(after, nc.name, j, y);
      }
    } else {
      NotBoth(before, after, nc.name);
    }
  }

  lemma NotBoth(before: seq<Node>, after: seq<Node>, name: U32)
    requires !(name in FirstNamed(before) && name in FirstNamed(after))
    ensures !Unlike(before, after, name)
  {
    hide Alike;
    if i: nat, j: nat :| IsFirst(before, name, i) && IsFirst(after, name, j) && !Alike(before, after, before[i], after[j]) {
      FirstIsNamed(before, name, i);
      FirstIsNamed(after, name, j);
      FirstNamedLaw(before);
      FirstNamedLaw(after);
    }
  }

  lemma FirstIsNamed(nodes: seq<Node>, name: U32, k: nat)
    requires IsFirst(nodes, name, k)
    ensures name in LiveNames(nodes)
  {
  }

  lemma UnchangedIffAlike(before: seq<Node>, after: seq<Node>, b: Node, a: Node, nc: NodeChange)
    requires KeptOk(before, after, b, a, nc)
    ensures nc.change == if Alike(before, after, b, a) then UNCHANGED else MODIFIED
  {
    var x, y := ChildNames(before, b.children), ChildNames(after, a.children);
    hide ChildNames, Differs, NoRepeats;
    assert nc.childrenAdded == [] <==> NameSet(nc.childrenAdded) == {} by { EmptyNames(nc.childrenAdded); }
    assert nc.childrenRemoved == [] <==> NameSet(nc.childrenRemoved) == {} by { EmptyNames(nc.childrenRemoved); }
    assert NameSet(x) == NameSet(y) <==> NameSet(x) - NameSet(y) == {} && NameSet(y) - NameSet(x) == {} by {
      SetsEqualIff(NameSet(x), NameSet(y));
    }
    if nc.fieldChanges != [] {
      assert Differs(b.fields, a.fields, nc.fieldChanges[0].field);
    }
  }

  lemma EmptyNames(names: seq<U32>)
    ensures names == [] <==> NameSet(names) == {}
  {
    if names != [] {
      assert names[0] in NameSet(names);
    }
  }

  lemma SetsEqualIff<T>(a: set<T>, b: set<T>)
    ensures a == b <==> a - b == {} && b - a == {}
  {
    if a - b == {} && b - a == {} {
      forall x ensures x in a <==> x in b {
        assert x in a && x !in b ==> x in a - b;
        assert x in b && x !in a ==> x in b - a;
      }
    }
  }

  /** The counters: the names only the after table bears, those only the before
      table bears, and those whose first bearers differ. */
  lemma CountersMean(before: seq<Node>, after: seq<Node>, d: GraphDiff)
    requires DiffOk(before, after, d)
    ensures d.nodesAdded == |LiveNames(after) - LiveNames(before)|
    ensures d.nodesRemoved == |LiveNames(before) - LiveNames(after)|
    ensures d.nodesModified == |set a | a in LiveNames(before) && Unlike(before, after, a)|
  {
    TallyCounts(d.changes);
    FirstNamedLaw(before);
    FirstNamedLaw(after);
    var modified := set a | a in LiveNames(before) && Unlike(before, after, a);
    forall nc | nc in d.changes
      ensures nc.change == ADDED <==> nc.name in LiveNames(after) - LiveNames(before)
      ensures nc.change == REMOVED <==> nc.name in LiveNames(before) - LiveNames(after)
      ensures nc.change == MODIFIED <==> nc.name in modified
    {
      hide *;
      KindOfChange(before, after, nc);
      UnlikeIsCommon(before, after, nc.name);
    }
    forall a | a in modified ensures a in LiveNames(after) {
      UnlikeIsCommon(before, after, a);
    }
    hide *;
    NamesOfIs(d.changes, ADDED, LiveNames(after) - LiveNames(before));
    NamesOfIs(d.changes, REMOVED, LiveNames(before) - LiveNames(after));
    NamesOfIs(d.changes, MODIFIED, modified);
  }

  lemma NamesOfIs(changes: seq<NodeChange>, change: Byte, names: set<U32>)
    requires names <= ChangedNames(changes)
    requires forall nc :: nc in changes ==> (nc.change == change <==> nc.name in names)
    ensures NamesOf(changes, change) == names
  {
  }

  lemma UnlikeIsCommon(before: seq<Node>, after: seq<Node>, name: U32)
    ensures Unlike(before, after, name) ==> name in LiveNames(before) && name in LiveNames(after)
  {
    hide Alike, LiveNames;
    if i: nat, j: nat :| IsFirst(before, name, i) && IsFirst(after, name, j) && !Alike(before, after, before[i], after[j]) {
      FirstIsNamed(before, name, i);
      FirstIsNamed(after, name, j);
    }
  }

  // ----- the total of field changes -----

  ghost function FieldsOf(fcs: seq<FieldChange>): set<U32> {
    set fc | fc in fcs :: fc.field
  }

  ghost predicate FieldsOnce(fcs: seq<FieldChange>) {
    forall i, j :: 0 <= i < j < |fcs| ==> fcs[i].field != fcs[j].field
  }

  lemma {:induction false} FieldsCounted(fcs: seq<FieldChange>)
    requires FieldsOnce(fcs)
    ensures |FieldsOf(fcs)| == |fcs|
    decreases |fcs|
  {
    if fcs == [] {
      assert FieldsOf(fcs) == {};
    } else {
      var m := |fcs| - 1;
      FieldsCounted(fcs[..m]);
      forall fc | fc in fcs[..m] ensures fc.field != fcs[m].field {
        var i :| 0 <= i < m && fcs[i] == fc;
      }
      assert forall fc :: fc in fcs <==> fc in fcs[..m] || fc == fcs[m];
      assert FieldsOf(fcs) == FieldsOf(fcs[..m]) + {fcs[m].field};
    }
  }

  ghost function Tagged(name: U32, fields: set<U32>): set<(U32, U32)> {
    set f | f in fields :: (name, f)
  }

  lemma {:induction false} TaggedCounted(name: U32, fields: set<U32>)
    ensures |Tagged(name, fields)| == |fields|
  {
    if f :| f in fields {
      TaggedCounted(name, fields - {f});
      assert Tagged(name, fields) == Tagged(name, fields - {f}) + {(name, f)};
    } else {
      assert Tagged(name, fields) == {};
    }
  }

  /** The name and field of every field change of a modified node. */
  ghost function Pairs(changes: seq<NodeChange>): set<(U32, U32)> {
    set nc, f | nc in changes && nc.change == MODIFIED && f in FieldsOf(nc.fieldChanges) :: (nc.name, f)
  }

  lemma PairsStep(changes: seq<NodeChange>)
    requires changes != [] && NamesOnce(changes)
    ensures var m := |changes| - 1;
      var own := if changes[m].change == MODIFIED then Tagged(changes[m].name, FieldsOf(changes[m].fieldChanges)) else {};
      Pairs(changes) == Pairs(changes[..m]) + own && Pairs(changes[..m]) !! own
  {
    hide FieldsOf;
    var m := |changes| - 1;
    var front, last := changes[..m], changes[m];
    assert forall nc :: nc in changes <==> nc in front || nc == last;
    forall nc | nc in front ensures nc.name != last.name {
      var i :| 0 <= i < m && front[i] == nc;
    }
  }

  lemma TallyStep(changes: seq<NodeChange>)
    requires changes != []
    ensures var last := changes[|changes| - 1];
      Tally(changes).totalFieldChanges
      == Tally(changes[..|changes| - 1]).totalFieldChanges + if last.change == MODIFIED then |last.fieldChanges| else 0
  {
  }

  lemma {:induction false} TallyTotals(changes: seq<NodeChange>)
    requires NamesOnce(changes) && forall nc :: nc in changes ==> FieldsOnce(nc.fieldChanges)
    ensures Tally(changes).totalFieldChanges == |Pairs(changes)|
    decreases |changes|
  {
    if changes == [] {
      assert Pairs(changes) == {};
    } else {
      var m := |changes| - 1;
      TallyTotals(changes[..m]);
      PairsStep(changes);
      assert changes[m] in changes;
      FieldsCounted(changes[m].fieldChanges);
      TaggedCounted(changes[m].name, FieldsOf(changes[m].fieldChanges));
      TallyStep(changes);
      hide *;
    }
  }

  /** Field f of the name's first bearers differs. */
  ghost predicate DiffersAt(before: seq<Node>, after: seq<Node>, name: U32, f: U32) {
    exists i: nat, j: nat :: IsFirst(before, name, i) && IsFirst(after, name, j) && Differs(before[i].fields, after[j].fields, f)
  }

  lemma PairIff(before: seq<Node>, after: seq<Node>, nc: NodeChange, f: U32)
    requires ChangeOk(before, after, nc)
    ensures FieldsOnce(nc.fieldChanges)
    ensures nc.change == MODIFIED && f in FieldsOf(nc.fieldChanges) <==> DiffersAt(before, after, nc.name, f)
  {
    FirstNamedLaw(before);
    FirstNamedLaw(after);
    hide FirstNamed, LiveNames, ChildNames, Differs;
    if nc.name in FirstNamed(before) && nc.name in FirstNamed(after) {
      var i, j := FirstNamed(before)[nc.name], FirstNamed(after)[nc.name];
      forall x: nat, y: nat | IsFirst(before, nc.name, x) && IsFirst(after, nc.name, y) ensures x == i && y == j {
        FirstIsUnique(before, nc.name, i, x);
        FirstIsUnique(after, nc.name, j, y);
      }
      FieldIff(before[i].fields, after[j].fields, nc.fieldChanges, f);
    } else if i: nat, j: nat :| IsFirst(before, nc.name, i) && IsFirst(after, nc.name, j) {
      FirstIsNamed(before, nc.name, i);
      FirstIsNamed(after, nc.name, j);
    }
  }

  lemma FieldIff(before: map<U32, Value>, after: map<U32, Value>, fcs: seq<FieldChange>, f: U32)
    requires FieldsChanged(before, after, fcs)
    ensures f in FieldsOf(fcs) <==> Differs(before, after, f)
  {
    hide Differs;
    if f in FieldsOf(fcs) {
      var fc :| fc in fcs && fc.field == f;
      var j :| 0 <= j < |fcs| && fcs[j] == fc;
    }
    if Differs(before, after, f) {
      var j :| 0 <= j < |fcs| && fcs[j].field == f;
      assert fcs[j] in fcs;
    }
  }

  /** The total counts the pairs of a name and a field that differ. */
  lemma TotalMeans(before: seq<Node>, after: seq<Node>, d: GraphDiff) returns (differing: set<(U32, U32)>)
    requires DiffOk(before, after, d)
    ensures d.totalFieldChanges == |differing|
    ensures forall a: U32, f: U32 :: (a, f) in differing <==> DiffersAt(before, after, a, f)
  {
    differing := Pairs(d.changes);
    forall nc | nc in d.changes ensures FieldsOnce(nc.fieldChanges) {
      PairIff(before, after, nc, 0);
    }
    TallyTotals(d.changes);
    forall a: U32, f: U32 ensures (a, f) in differing <==> DiffersAt(before, after, a, f) {
      hide Tally, ChangeOk, FieldsOf, DiffersAt, FieldsOnce;
      if (a, f) in differing {
        var nc :| nc in d.changes && nc.change == MODIFIED && f in FieldsOf(nc.fieldChanges) && nc.name == a;
        PairIff(before, after, nc, f);
      }
      if DiffersAt(before, after, a, f) {
        DifferingIsNamed(before, after, a, f);
        var nc :| nc in d.changes && nc.name == a;
        PairIff(before, after, nc, f);
      }
    }
  }

  lemma DifferingIsNamed(before: seq<Node>, after: seq<Node>, name: U32, f: U32)
    requires DiffersAt(before, after, name, f)
    ensures name in FirstNamed(before).Keys + FirstNamed(after).Keys
  {
    hide Differs;
    var i: nat, j: nat :| IsFirst(before, name, i) && IsFirst(after, name, j) && Differs(before[i].fields, after[j].fields, f);
    FirstIsNamed(before, name, i);
    FirstNamedLaw(before);
  }

  // ----- patches -----

  /** A patch is put together change by change and list by list. */
  lemma {:induction false} PatchAppend(a: seq<NodeChange>, b: seq<NodeChange>)
    ensures PatchOps(a + b) == PatchOps(a) + PatchOps(b)
    decreases |b|
  {
    hide PatchOf;
    if b == [] {
      assert a + b == a;
    } else {
      assert (a + b)[..|a + b| - 1] == a + b[..|b| - 1];
      PatchAppend(a, b[..|b| - 1]);
    }
  }

  lemma {:induction false} SetsAppend(id: U32, a: seq<FieldChange>, b: seq<FieldChange>)
    ensures SetOps(id, a + b) == SetOps(id, a) + SetOps(id, b)
    decreases |b|
  {
    if b == [] {
      assert a + b == a;
    } else {
      assert (a + b)[..|a + b| - 1] == a + b[..|b| - 1];
      SetsAppend(id, a, b[..|b| - 1]);
    }
  }

  lemma {:induction false} AddsLaw(names: seq<U32>)
    ensures AddOps(names) == seq(|names|, i requires 0 <= i < |names| => AddChild(names[i]))
  {
    if names != [] {
      AddsLaw(names[..|names| - 1]);
    }
  }

  /** One of each: a removed node is dropped; an added one is created with its
      kind and name, has its fields set and, in a group on its name, its children
      added; a modified one has its new values set and its new children added,
      while a field or child that disappeared and an unchanged node are left out. */
  lemma PatchExample(v: Value, w: Value)
    requires v != Invalid && w != Invalid
    ensures PatchOps([
              NodeChange(REMOVED, 4, INVALID_NODE, 50, 6, [], [], []),
              NodeChange(ADDED, INVALID_NODE, 5, 51, 7, [FieldChange(1, Invalid, v)], [60, 61], []),
              NodeChange(MODIFIED, 2, 3, 52, 8, [FieldChange(2, w, v), FieldChange(3, v, Invalid)], [62], [63]),
              NodeChange(UNCHANGED, 1, 1, 53, 9, [], [], [])])
         == [DropNode(4),
             NewNode(7, 51), SetField(5, 1, v), BeginGroup(51, 2), AddChild(60), AddChild(61), EndGroup,
             SetField(3, 2, v), BeginGroup(52, 1), AddChild(62), EndGroup]
  {
    var r := NodeChange(REMOVED, 4, INVALID_NODE, 50, 6, [], [], []);
    var a := NodeChange(ADDED, INVALID_NODE, 5, 51, 7, [FieldChange(1, Invalid, v)], [60, 61], []);
    var m := NodeChange(MODIFIED, 2, 3, 52, 8, [FieldChange(2, w, v), FieldChange(3, v, Invalid)], [62], [63]);
    var u := NodeChange(UNCHANGED, 1, 1, 53, 9, [], [], []);
    FourPatches(r, a, m, u);
    AddedExample(v, a);
    ModifiedExample(v, w, m);
    OnePatch(r);
    OnePatch(u);
    assert PatchOps([r]) == [DropNode(4)] && PatchOps([u]) == [] by { hide PatchOps; }
    hide PatchOps;
    Joined(DropNode(4), NewNode(7, 51), SetField(5, 1, v), BeginGroup(51, 2), AddChild(60), AddChild(61), EndGroup,
           SetField(3, 2, v), BeginGroup(52, 1), AddChild(62), EndGroup);
  }

  lemma Joined<T>(r: T, a0: T, a1: T, a2: T, a3: T, a4: T, a5: T, m0: T, m1: T, m2: T, m3: T)
    ensures [r] + ([a0, a1, a2, a3, a4, a5] + ([m0, m1, m2, m3] + [])) == [r, a0, a1, a2, a3, a4, a5, m0, m1, m2, m3]
  {
  }

  lemma FourPatches(r: NodeChange, a: NodeChange, m: NodeChange, u: NodeChange)
    ensures PatchOps([r, a, m, u]) == PatchOps([r]) + (PatchOps([a]) + (PatchOps([m]) + PatchOps([u])))
  {
    hide *;
    PatchAppend([r], [a, m, u]);
    PatchAppend([a], [m, u]);
    PatchAppend([m], [u]);
    assert [r] + [a, m, u] == [r, a, m, u] && [a] + [m, u] == [a, m, u] && [m] + [u] == [m, u];
  }

  lemma AddedExample(v: Value, nc: NodeChange)
    requires v != Invalid && nc == NodeChange(ADDED, INVALID_NODE, 5, 51, 7, [FieldChange(1, Invalid, v)], [60, 61], [])
    ensures PatchOps([nc]) == [NewNode(7, 51), SetField(5, 1, v), BeginGroup(51, 2), AddChild(60), AddChild(61), EndGroup]
  {
    OnePatch(nc);
    AddsLaw([60, 61]);
    OneSet(5, FieldChange(1, Invalid, v));
    hide PatchOps, SetOps, AddOps;
  }

  lemma ModifiedExample(v: Value, w: Value, nc: NodeChange)
    requires v != Invalid
    requires nc == NodeChange(MODIFIED, 2, 3, 52, 8, [FieldChange(2, w, v), FieldChange(3, v, Invalid)], [62], [63])
    ensures PatchOps([nc]) == [SetField(3, 2, v), BeginGroup(52, 1), AddChild(62), EndGroup]
  {
    OnePatch(nc);
    AddsLaw([62]);
    OneSet(3, FieldChange(2, w, v));
    OneSet(3, FieldChange(3, v, Invalid));
    SetsAppend(3, [FieldChange(2, w, v)], [FieldChange(3, v, Invalid)]);
    assert nc.fieldChanges == [FieldChange(2, w, v)] + [FieldChange(3, v, Invalid)];
    hide PatchOps, SetOps, AddOps;
  }

  lemma OnePatch(nc: NodeChange)
    ensures PatchOps([nc]) == PatchOf(nc)
  {
    hide PatchOf;
    assert [nc][..0] == [] && PatchOps([]) == [];
  }

  lemma OneSet(id: U32, fc: FieldChange)
    ensures SetOps(id, [fc]) == if fc.after == Invalid || id == INVALID_NODE then [] else [SetField(id, fc.field, fc.after)]
  {
    assert [fc][..0] == [] && SetOps(id, []) == [];
  }
}
