/** Planning and applying schema migrations, and exactly when a migrated table
    conforms to the target schema. */
module Migration {
  import opened Basics
  import opened Model

  // ----- versions -----

  /** A registered schema with the atom pool its names index. */
  datatype Version = Version(id: U32, description: Text, atoms: seq<Text>, kinds: seq<KindDef>)

  datatype Change = AddField | RemoveField | RenameField | ChangeType

  datatype FieldMigration = FieldMigration(
    change: Change,
    kind: U32,
    field: U32,
    oldName: U32,
    newName: U32,
    oldType: ValueType,
    newType: ValueType,
    defaultValue: Value)

  // ----- names -----

  function NameOf(atoms: seq<Text>, atom: U32): Option<Text> {
    if atom < |atoms| then Some(atoms[atom]) else None
  }

  /** Where each kind name is declared; a repeated name answers its last place. */
  function KindsByName(atoms: seq<Text>, kinds: seq<KindDef>): (m: map<Text, nat>)
    ensures forall s :: s in m ==> m[s] < |kinds| && NameOf(atoms, kinds[m[s]].name) == Some(s)
  {
    if kinds == [] then map[]
    else
      var k := |kinds| - 1;
      var front, name := KindsByName(atoms, kinds[..k]), NameOf(atoms, kinds[k].name);
      if name.None? then front else front[name.value := k]
  }

  function FieldsByName(atoms: seq<Text>, fields: seq<FieldDef>): (m: map<Text, nat>)
    ensures forall s :: s in m ==> m[s] < |fields| && NameOf(atoms, fields[m[s]].name) == Some(s)
  {
    if fields == [] then map[]
    else
      var k := |fields| - 1;
      var front, name := FieldsByName(atoms, fields[..k]), NameOf(atoms, fields[k].name);
      if name.None? then front else front[name.value := k]
  }

  lemma {:induction false} KindIsListed(atoms: seq<Text>, kinds: seq<KindDef>, k: nat)
    requires k < |kinds| && NameOf(atoms, kinds[k].name).Some?
    ensures var s := NameOf(atoms, kinds[k].name).value;
      s in KindsByName(atoms, kinds) && k <= KindsByName(atoms, kinds)[s]
    decreases |kinds|
  {
    if k < |kinds| - 1 {
      KindIsListed(atoms, kinds[..|kinds| - 1], k);
    }
  }

  lemma {:induction false} FieldIsListed(atoms: seq<Text>, fields: seq<FieldDef>, k: nat)
    requires k < |fields| && NameOf(atoms, fields[k].name).Some?
    ensures var s := NameOf(atoms, fields[k].name).value;
      s in FieldsByName(atoms, fields) && k <= FieldsByName(atoms, fields)[s]
    decreases |fields|
  {
    if k < |fields| - 1 {
      FieldIsListed(atoms, fields[..|fields| - 1], k);
    }
  }

  method IndexKinds(atoms: seq<Text>, kinds: seq<KindDef>) returns (m: map<Text, nat>)
    ensures m == KindsByName(atoms, kinds)
  {
    m := map[];
    var k := 0;
    while k < |kinds|
      invariant 0 <= k <= |kinds| && m == KindsByName(atoms, kinds[..k])
    {
      assert kinds[..k + 1][..k] == kinds[..k];
      var name := NameOf(atoms, kinds[k].name);
      if name.Some? {
        m := m[name.value := k];
      }
      k := k + 1;
    }
    assert kinds[..|kinds|] == kinds;
  }

  method IndexFields(atoms: seq<Text>, fields: seq<FieldDef>) returns (m: map<Text, nat>)
    ensures m == FieldsByName(atoms, fields)
  {
    m := map[];
    var k := 0;
    while k < |fields|
      invariant 0 <= k <= |fields| && m == FieldsByName(atoms, fields[..k])
    {
      assert fields[..k + 1][..k] == fields[..k];
      var name := NameOf(atoms, fields[k].name);
      if name.Some? {
        m := m[name.value := k];
      }
      k := k + 1;
    }
    assert fields[..|fields|] == fields;
  }

  // ----- the order of names -----

  /** The order in which the name tables are walked. */
  predicate Before(a: Text, b: Text) {
    b != [] && (a == [] || a[0] < b[0] || (a[0] == b[0] && Before(a[1..], b[1..])))
  }

  lemma {:induction false} BeforeIsStrict(a: Text, b: Text)
    ensures a == b ==> !Before(a, b)
    ensures a != b ==> Before(a, b) != Before(b, a)
  {
    if a != [] && b != [] {
      BeforeIsStrict(a[1..], b[1..]);
      assert a == [a[0]] + a[1..] && b == [b[0]] + b[1..];
    }
  }

  lemma {:induction false} BeforeChains(a: Text, b: Text, c: Text)
    requires Before(a, b) && Before(b, c)
    ensures Before(a, c)
  {
    if a != [] && a[0] == b[0] == c[0] {
      BeforeChains(a[1..], b[1..], c[1..]);
    }
  }

  lemma {:induction false} SomeEarliest(keys: set<Text>) returns (s: Text)
    requires keys != {}
    ensures s in keys && forall x :: x in keys && x != s ==> Before(s, x)
  {
    var k :| k in keys;
    if keys == {k} {
      s := k;
    } else {
      s := SomeEarliest(keys - {k});
      BeforeIsStrict(s, k);
      if Before(k, s) {
        forall x | x in keys && x != k ensures Before(k, x) {
          if x != s {
            BeforeChains(k, s, x);
          }
        }
        s := k;
      }
    }
  }

  lemma EarliestExists(keys: set<Text>)
    requires keys != {}
    ensures exists s :: s in keys && forall x :: x in keys && x != s ==> Before(s, x)
    ensures forall s, t :: s in keys && t in keys && s != t ==> !(Before(s, t) && Before(t, s))
  {
    var s := SomeEarliest(keys);
    forall s, t | s in keys && t in keys && s != t ensures !(Before(s, t) && Before(t, s)) {
      BeforeIsStrict(s, t);
    }
  }

  function Earliest(keys: set<Text>): (s: Text)
    requires keys != {}
    ensures s in keys && forall x :: x in keys && x != s ==> Before(s, x)
  {
    hide Before;
    EarliestExists(keys);
    var s :| s in keys && forall x :: x in keys && x != s ==> Before(s, x);
    s
  }

  // ----- what one kind's plan must be -----

  function RemoveOf(kind: U32, fields: seq<FieldDef>, f: nat): FieldMigration
    requires f < |fields|
  {
    FieldMigration(RemoveField, kind, f % TWO32, fields[f].name, INVALID_ATOM, fields[f].ftype, TInvalid, Invalid)
  }

  function AddOf(kind: U32, fields: seq<FieldDef>, f: nat): FieldMigration
    requires f < |fields|
  {
    FieldMigration(AddField, kind, f % TWO32, INVALID_ATOM, fields[f].name, TInvalid, fields[f].ftype, Invalid)
  }

  function RetypeOf(kind: U32, from: seq<FieldDef>, f: nat, to: seq<FieldDef>, t: nat): FieldMigration
    requires f < |from| && t < |to|
  {
    FieldMigration(ChangeType, kind, f % TWO32, from[f].name, to[t].name, from[f].ftype, to[t].ftype, Invalid)
  }

  /** The two sides of a kind declared in both versions. */
  datatype Pair = Pair(kind: U32, fromAtoms: seq<Text>, from: seq<FieldDef>, toAtoms: seq<Text>, to: seq<FieldDef>) {
    function FromNames(): map<Text, nat> {
      FieldsByName(fromAtoms, from)
    }

    function ToNames(): map<Text, nat> {
      FieldsByName(toAtoms, to)
    }
  }

  predicate Gone(p: Pair, s: Text) {
    s in p.FromNames() && s !in p.ToNames()
  }

  function RemoveNamed(p: Pair, s: Text): FieldMigration
    requires Gone(p, s)
  {
    RemoveOf(p.kind, p.from, p.FromNames()[s])
  }

  predicate Fresh(p: Pair, s: Text) {
    s in p.ToNames() && s !in p.FromNames()
  }

  function AddNamed(p: Pair, s: Text): FieldMigration
    requires Fresh(p, s)
  {
    AddOf(p.kind, p.to, p.ToNames()[s])
  }

  predicate Retyped(p: Pair, s: Text) {
    s in p.FromNames() && s in p.ToNames() && p.from[p.FromNames()[s]].ftype != p.to[p.ToNames()[s]].ftype
  }

  function RetypeNamed(p: Pair, s: Text): FieldMigration
    requires Retyped(p, s)
  {
    RetypeOf(p.kind, p.from, p.FromNames()[s], p.to, p.ToNames()[s])
  }

  datatype Phase = Removing | Adding | Retyping

  predicate Due(p: Pair, phase: Phase, s: Text) {
    match phase
    case Removing => Gone(p, s)
    case Adding => Fresh(p, s)
    case Retyping => Retyped(p, s)
  }

  function Named(p: Pair, phase: Phase, s: Text): FieldMigration
    requires Due(p, phase, s)
  {
    match phase
    case Removing => RemoveNamed(p, s)
    case Adding => AddNamed(p, s)
    case Retyping => RetypeNamed(p, s)
  }

  /** A phase's migrations for some names, in name order. */
  function PhaseList(p: Pair, phase: Phase, keys: set<Text>): seq<FieldMigration> {
    if keys == {} then []
    else
      var s := Earliest(keys);
      (if Due(p, phase, s) then [Named(p, phase, s)] else []) + PhaseList(p, phase, keys - {s})
  }

  /** The list holds exactly one migration for each name that is due. */
  lemma {:induction false} PhaseListed(p: Pair, phase: Phase, keys: set<Text>)
    ensures forall s :: s in keys && Due(p, phase, s) ==> Named(p, phase, s) in PhaseList(p, phase, keys)
    ensures forall m :: m in PhaseList(p, phase, keys) ==> exists s :: s in keys && Due(p, phase, s) && m == Named(p, phase, s)
    ensures |PhaseList(p, phase, keys)| == |set s | s in keys && Due(p, phase, s)|
    decreases |keys|
  {
    hide Due, Named;
    var due := set s | s in keys && Due(p, phase, s);
    if keys != {} {
      var s := Earliest(keys);
      PhaseListed(p, phase, keys - {s});
      assert (set x | x in keys - {s} && Due(p, phase, x)) == due - {s};
    } else {
      assert due == {};
    }
  }

  /** One removal for each name only the old side has ... */
  ghost predicate Removals(p: Pair, ms: seq<FieldMigration>) {
    ms == PhaseList(p, Removing, p.FromNames().Keys)
  }

  /** ... one addition for each name only the new side has ... */
  ghost predicate Additions(p: Pair, ms: seq<FieldMigration>) {
    ms == PhaseList(p, Adding, p.ToNames().Keys)
  }

  /** ... and one conversion for each common name whose type changed. */
  ghost predicate Retypings(p: Pair, ms: seq<FieldMigration>) {
    ms == PhaseList(p, Retyping, p.FromNames().Keys)
  }

  lemma RemovalsListed(p: Pair, ms: seq<FieldMigration>)
    requires Removals(p, ms)
    ensures forall s :: Gone(p, s) ==> RemoveNamed(p, s) in ms
    ensures forall m :: m in ms ==> exists s :: Gone(p, s) && m == RemoveNamed(p, s)
  {
    hide FieldsByName;
    PhaseListed(p, Removing, p.FromNames().Keys);
    forall s | Gone(p, s) ensures RemoveNamed(p, s) in ms {
      assert Due(p, Removing, s) && s in p.FromNames().Keys;
    }
  }

  lemma AdditionsListed(p: Pair, ms: seq<FieldMigration>)
    requires Additions(p, ms)
    ensures forall s :: Fresh(p, s) ==> AddNamed(p, s) in ms
    ensures forall m :: m in ms ==> exists s :: Fresh(p, s) && m == AddNamed(p, s)
  {
    hide FieldsByName;
    PhaseListed(p, Adding, p.ToNames().Keys);
    forall s | Fresh(p, s) ensures AddNamed(p, s) in ms {
      assert Due(p, Adding, s) && s in p.ToNames().Keys;
    }
  }

  lemma RetypingsListed(p: Pair, ms: seq<FieldMigration>)
    requires Retypings(p, ms)
    ensures forall s :: Retyped(p, s) ==> RetypeNamed(p, s) in ms
    ensures forall m :: m in ms ==> exists s :: Retyped(p, s) && m == RetypeNamed(p, s)
  {
    hide FieldsByName;
    PhaseListed(p, Retyping, p.FromNames().Keys);
    forall s | Retyped(p, s) ensures RetypeNamed(p, s) in ms {
      assert Due(p, Retyping, s) && s in p.FromNames().Keys;
    }
  }

  function KindList(p: Pair): seq<FieldMigration> {
    PhaseList(p, Removing, p.FromNames().Keys) + PhaseList(p, Adding, p.ToNames().Keys)
    + PhaseList(p, Retyping, p.FromNames().Keys)
  }

  /** Removals, then additions, then conversions. */
  ghost predicate KindPlan(p: Pair, ms: seq<FieldMigration>) {
    ms == KindList(p)
  }

  function RemoveAll(kind: U32, fields: seq<FieldDef>, n: nat): seq<FieldMigration>
    requires n <= |fields|
  {
    if n == 0 then [] else RemoveAll(kind, fields, n - 1) + [RemoveOf(kind, fields, n - 1)]
  }

  function AddAll(kind: U32, fields: seq<FieldDef>, n: nat): seq<FieldMigration>
    requires n <= |fields|
  {
    if n == 0 then [] else AddAll(kind, fields, n - 1) + [AddOf(kind, fields, n - 1)]
  }

  // ----- the plan -----

  /** The migrations for one kind, in plan order. */
  function ForKind(ms: seq<FieldMigration>, kind: U32): seq<FieldMigration> {
    if ms == [] then []
    else
      var front, m := ForKind(ms[..|ms| - 1], kind), ms[|ms| - 1];
      if m.kind == kind then front + [m] else front
  }

  lemma {:induction false} ForKindAppend(a: seq<FieldMigration>, b: seq<FieldMigration>, kind: U32)
    ensures ForKind(a + b, kind) == ForKind(a, kind) + ForKind(b, kind)
    decreases |b|
  {
    if b == [] {
      assert a + b == a;
    } else {
      assert (a + b)[..|a + b| - 1] == a + b[..|b| - 1];
      ForKindAppend(a, b[..|b| - 1], kind);
    }
  }

  lemma {:induction false} ForKindOfBlock(b: seq<FieldMigration>, of: U32, kind: U32)
    requires forall m :: m in b ==> m.kind == of
    ensures ForKind(b, kind) == if kind == of then b else []
    decreases |b|
  {
    if b != [] {
      ForKindOfBlock(b[..|b| - 1], of, kind);
      assert b[|b| - 1] in b;
      assert b == b[..|b| - 1] + [b[|b| - 1]];
    }
  }

  /** Counts a 32-bit id can name. */
  ghost predicate Numbered(v: Version) {
    && |v.kinds| <= INVALID_KIND
    && forall k :: 0 <= k < |v.kinds| ==> |v.kinds[k].fields| < TWO32
  }

  function PairOf(from: Version, to: Version, k: U32, t: nat): Pair
    requires k < |from.kinds| && t < |to.kinds|
  {
    Pair(k, from.atoms, from.kinds[k].fields, to.atoms, to.kinds[t].fields)
  }

  /** What the plan says about one old kind: nothing left if its name is gone,
      a field-by-field plan if its name is kept. */
  ghost predicate KindOk(from: Version, to: Version, s: Text, ms: seq<FieldMigration>)
    requires Numbered(from) && s in KindsByName(from.atoms, from.kinds)
  {
    var k, toNames := KindsByName(from.atoms, from.kinds)[s], KindsByName(to.atoms, to.kinds);
    if s !in toNames then ms == RemoveAll(k, from.kinds[k].fields, |from.kinds[k].fields|)
    else KindPlan(PairOf(from, to, k, toNames[s]), ms)
  }

  /** Field f of a kind only the new side declares. */
  predicate NewField(from: Version, to: Version, s: Text, f: nat) {
    && s in KindsByName(to.atoms, to.kinds) && s !in KindsByName(from.atoms, from.kinds)
    && f < |to.kinds[KindsByName(to.atoms, to.kinds)[s]].fields|
  }

  function AddNewField(from: Version, to: Version, s: Text, f: nat): FieldMigration
    requires NewField(from, to, s, f)
  {
    AddOf(INVALID_KIND, to.kinds[KindsByName(to.atoms, to.kinds)[s]].fields, f)
  }

  /** The additions recorded, under no kind, for kinds only the new side has. */
  ghost predicate NewKindsOk(from: Version, to: Version, ms: seq<FieldMigration>) {
    NewIn(from, to, KindsByName(to.atoms, to.kinds).Keys, ms)
  }

  /** ... for those of them with the given names. */
  ghost predicate NewIn(from: Version, to: Version, keys: set<Text>, ms: seq<FieldMigration>) {
    && (forall s, f :: NewField(from, to, s, f) && s in keys ==> AddNewField(from, to, s, f) in ms)
    && (forall m :: m in ms ==> exists s, f :: NewField(from, to, s, f) && m == AddNewField(from, to, s, f))
  }

  ghost predicate PlanOk(from: Version, to: Version, plan: seq<FieldMigration>) {
    var fromNames := KindsByName(from.atoms, from.kinds);
    && Numbered(from)
    && (forall s :: s in fromNames ==> KindOk(from, to, s, ForKind(plan, fromNames[s])))
    && (forall k: U32 :: k != INVALID_KIND && k !in fromNames.Values ==> ForKind(plan, k) == [])
    && NewKindsOk(from, to, ForKind(plan, INVALID_KIND))
  }

  /** The migrations of one old kind. */
  function Block(from: Version, to: Version, s: Text): seq<FieldMigration>
    requires Numbered(from) && s in KindsByName(from.atoms, from.kinds)
  {
    var k, toNames := KindsByName(from.atoms, from.kinds)[s], KindsByName(to.atoms, to.kinds);
    if s !in toNames then RemoveAll(k, from.kinds[k].fields, |from.kinds[k].fields|)
    else KindList(PairOf(from, to, k, toNames[s]))
  }

  /** The old kinds' migrations, kind names in order ... */
  function OldPlan(from: Version, to: Version, keys: set<Text>): seq<FieldMigration>
    requires Numbered(from) && keys <= KindsByName(from.atoms, from.kinds).Keys
  {
    if keys == {} then []
    else
      var s := Earliest(keys);
      Block(from, to, s) + OldPlan(from, to, keys - {s})
  }

  /** ... then every field of the new kinds, kind names in order. */
  function NewPlan(from: Version, to: Version, keys: set<Text>): seq<FieldMigration>
    requires keys <= KindsByName(to.atoms, to.kinds).Keys
  {
    if keys == {} then []
    else
      var s := Earliest(keys);
      var fields := to.kinds[KindsByName(to.atoms, to.kinds)[s]].fields;
      (if s in KindsByName(from.atoms, from.kinds) then [] else AddAll(INVALID_KIND, fields, |fields|))
      + NewPlan(from, to, keys - {s})
  }

  function PlanOf(from: Version, to: Version): seq<FieldMigration>
    requires Numbered(from)
  {
    OldPlan(from, to, KindsByName(from.atoms, from.kinds).Keys) + NewPlan(from, to, KindsByName(to.atoms, to.kinds).Keys)
  }

  // ----- planning -----

  lemma PhaseStep(p: Pair, phase: Phase, todo: set<Text>, ms: seq<FieldMigration>, s: Text)
    requires todo != {} && s == Earliest(todo)
    ensures ms + PhaseList(p, phase, todo)
         == (if Due(p, phase, s) then ms + [Named(p, phase, s)] else ms) + PhaseList(p, phase, todo - {s})
  {
    hide Due, Named, Earliest;
  }

  lemma EmptyPhases(p: Pair)
    ensures forall phase: Phase :: PhaseList(p, phase, {}) == []
  {
  }

  method PlanRemovals(p: Pair) returns (ms: seq<FieldMigration>)
    ensures Removals(p, ms)
  {
    hide FieldsByName, Earliest, PhaseList;
    var fromNames := IndexFields(p.fromAtoms, p.from);
    var toNames := IndexFields(p.toAtoms, p.to);
    ms := [];
    EmptyPhases(p);
    var todo := fromNames.Keys;
    while todo != {}
      invariant todo <= fromNames.Keys
      invariant ms + PhaseList(p, Removing, todo) == PhaseList(p, Removing, fromNames.Keys)
      decreases todo
    {
      var s := Earliest(todo);
      PhaseStep(p, Removing, todo, ms, s);
      todo := todo - {s};
      if s !in toNames {
        assert Gone(p, s);
        ms := ms + [RemoveOf(p.kind, p.from, fromNames[s])];
      }
    }
  }

  method PlanAdditions(p: Pair) returns (ms: seq<FieldMigration>)
    ensures Additions(p, ms)
  {
    hide FieldsByName, Earliest, PhaseList;
    var fromNames := IndexFields(p.fromAtoms, p.from);
    var toNames := IndexFields(p.toAtoms, p.to);
    ms := [];
    EmptyPhases(p);
    var todo := toNames.Keys;
    while todo != {}
      invariant todo <= toNames.Keys
      invariant ms + PhaseList(p, Adding, todo) == PhaseList(p, Adding, toNames.Keys)
      decreases todo
    {
      var s := Earliest(todo);
      PhaseStep(p, Adding, todo, ms, s);
      todo := todo - {s};
      if s !in fromNames {
        assert Fresh(p, s);
        ms := ms + [AddOf(p.kind, p.to, toNames[s])];
      }
    }
  }

  method PlanRetypings(p: Pair) returns (ms: seq<FieldMigration>)
    ensures Retypings(p, ms)
  {
    hide FieldsByName, Earliest, PhaseList;
    var fromNames := IndexFields(p.fromAtoms, p.from);
    var toNames := IndexFields(p.toAtoms, p.to);
    ms := [];
    EmptyPhases(p);
    var todo := fromNames.Keys;
    while todo != {}
      invariant todo <= fromNames.Keys
      invariant ms + PhaseList(p, Retyping, todo) == PhaseList(p, Retyping, fromNames.Keys)
      decreases todo
    {
      var s := Earliest(todo);
      PhaseStep(p, Retyping, todo, ms, s);
      todo := todo - {s};
      if s in toNames {
        var f, t := fromNames[s], toNames[s];
        if p.from[f].ftype != p.to[t].ftype {
          assert Retyped(p, s);
          ms := ms + [RetypeOf(p.kind, p.from, f, p.to, t)];
        }
      }
    }
  }

  ghost predicate AllOfKind(ms: seq<FieldMigration>, kind: U32) {
    forall m :: m in ms ==> m.kind == kind
  }

  /** One kind's block of the plan. */
  method PlanKept(p: Pair) returns (ms: seq<FieldMigration>)
    ensures KindPlan(p, ms) && AllOfKind(ms, p.kind)
  {
    hide FieldsByName, Removals, Additions, Retypings;
    var removals := PlanRemovals(p);
    var additions := PlanAdditions(p);
    var retypings := PlanRetypings(p);
    ms := removals + additions + retypings;
    PhasesMakeAPlan(p, removals, additions, retypings);
    PhasesOfKind(p, removals, additions, retypings);
  }

  lemma PhasesMakeAPlan(p: Pair, removals: seq<FieldMigration>, additions: seq<FieldMigration>, retypings: seq<FieldMigration>)
    requires Removals(p, removals) && Additions(p, additions) && Retypings(p, retypings)
    ensures KindPlan(p, removals + additions + retypings)
  {
  }

  lemma PhasesOfKind(p: Pair, removals: seq<FieldMigration>, additions: seq<FieldMigration>, retypings: seq<FieldMigration>)
    requires Removals(p, removals) && Additions(p, additions) && Retypings(p, retypings)
    ensures AllOfKind(removals, p.kind) && AllOfKind(additions, p.kind) && AllOfKind(retypings, p.kind)
  {
    RemovalsListed(p, removals);
    AdditionsListed(p, additions);
    RetypingsListed(p, retypings);
    hide FieldsByName, Removals, Additions, Retypings;
  }

  method PlanGone(kind: U32, fields: seq<FieldDef>) returns (ms: seq<FieldMigration>)
    ensures ms == RemoveAll(kind, fields, |fields|) && AllOfKind(ms, kind)
  {
    ms := [];
    var f := 0;
    while f < |fields|
      invariant 0 <= f <= |fields| && ms == RemoveAll(kind, fields, f) && AllOfKind(ms, kind)
    {
      ms := ms + [RemoveOf(kind, fields, f)];
      f := f + 1;
    }
  }

  /** Some name no longer to do is declared at place k. */
  ghost predicate Visited(from: Version, todo: set<Text>, k: U32) {
    exists s :: s in KindsByName(from.atoms, from.kinds) && s !in todo && KindsByName(from.atoms, from.kinds)[s] == k
  }

  /** The plan so far covers exactly the kinds already visited. */
  ghost predicate PlannedSoFar(from: Version, to: Version, todo: set<Text>, plan: seq<FieldMigration>)
    requires Numbered(from)
  {
    var fromNames := KindsByName(from.atoms, from.kinds);
    && todo <= fromNames.Keys
    && (forall s :: s in fromNames && s !in todo ==> KindOk(from, to, s, ForKind(plan, fromNames[s])))
    && (forall k: U32 :: !Visited(from, todo, k) ==> ForKind(plan, k) == [])
  }

  lemma BlockAppended(plan: seq<FieldMigration>, block: seq<FieldMigration>, of: U32)
    requires AllOfKind(block, of)
    ensures forall k: U32 :: ForKind(plan + block, k) == if k == of then ForKind(plan, k) + block else ForKind(plan, k)
  {
    forall k: U32 ensures ForKind(plan + block, k) == if k == of then ForKind(plan, k) + block else ForKind(plan, k) {
      ForKindAppend(plan, block, k);
      ForKindOfBlock(block, of, k);
      assert ForKind(plan, k) + [] == ForKind(plan, k);
    }
  }

  lemma NotYetVisited(from: Version, todo: set<Text>, s: Text)
    requires Numbered(from) && s in todo && s in KindsByName(from.atoms, from.kinds)
    ensures !Visited(from, todo, KindsByName(from.atoms, from.kinds)[s])
  {
  }

  lemma PlanOne(from: Version, to: Version, todo: set<Text>, plan: seq<FieldMigration>, s: Text, block: seq<FieldMigration>)
    requires Numbered(from) && PlannedSoFar(from, to, todo, plan) && s in todo
    requires AllOfKind(block, KindsByName(from.atoms, from.kinds)[s]) && KindOk(from, to, s, block)
    ensures PlannedSoFar(from, to, todo - {s}, plan + block)
  {
    hide KindOk, KindsByName, Visited, ForKind, AllOfKind;
    var fromNames := KindsByName(from.atoms, from.kinds);
    var of := fromNames[s];
    BlockAppended(plan, block, of);
    NotYetVisited(from, todo, s);
    assert ForKind(plan, of) + block == block;
    forall x | x in fromNames && x !in todo - {s} ensures KindOk(from, to, x, ForKind(plan + block, fromNames[x])) {
      if x != s {
        DistinctPlaces(from, x, s);
      }
    }
    forall k: U32 | !Visited(from, todo - {s}, k) ensures ForKind(plan + block, k) == [] {
      VisitedGrows(from, todo, s, k);
    }
  }

  lemma VisitedGrows(from: Version, todo: set<Text>, s: Text, k: U32)
    requires Numbered(from) && s in KindsByName(from.atoms, from.kinds)
    ensures Visited(from, todo, k) || KindsByName(from.atoms, from.kinds)[s] == k ==> Visited(from, todo - {s}, k)
  {
  }

  lemma DistinctPlaces(v: Version, x: Text, y: Text)
    requires x in KindsByName(v.atoms, v.kinds) && y in KindsByName(v.atoms, v.kinds) && x != y
    ensures KindsByName(v.atoms, v.kinds)[x] != KindsByName(v.atoms, v.kinds)[y]
  {
  }

  lemma OldKindsStep(from: Version, to: Version, todo: set<Text>, plan: seq<FieldMigration>, s: Text)
    requires Numbered(from) && todo <= KindsByName(from.atoms, from.kinds).Keys && todo != {} && s == Earliest(todo)
    ensures plan + OldPlan(from, to, todo) == (plan + Block(from, to, s)) + OldPlan(from, to, todo - {s})
  {
    hide KindsByName, Earliest, Block;
  }

  method PlanOldKinds(from: Version, to: Version) returns (plan: seq<FieldMigration>)
    requires Numbered(from)
    ensures PlannedSoFar(from, to, {}, plan)
    ensures plan == OldPlan(from, to, KindsByName(from.atoms, from.kinds).Keys)
  {
    assert OldPlan(from, to, {}) == [];
    hide KindsByName, KindList, PlannedSoFar, AllOfKind, Earliest, OldPlan;
    var fromNames := IndexKinds(from.atoms, from.kinds);
    var toNames := IndexKinds(to.atoms, to.kinds);
    plan := [];
    var todo := fromNames.Keys;
    NothingPlanned(from, to);
    while todo != {}
      invariant todo <= fromNames.Keys && PlannedSoFar(from, to, todo, plan)
      invariant plan + OldPlan(from, to, todo) == OldPlan(from, to, fromNames.Keys)
      decreases todo
    {
      var s := Earliest(todo);
      var k := fromNames[s];
      var block;
      if s !in toNames {
        block := PlanGone(k, from.kinds[k].fields);
      } else {
        block := PlanKept(PairOf(from, to, k, toNames[s]));
      }
      PlanOne(from, to, todo, plan, s, block);
      OldKindsStep(from, to, todo, plan, s);
      plan := plan + block;
      todo := todo - {s};
    }
  }

  lemma NothingPlanned(from: Version, to: Version)
    requires Numbered(from)
    ensures PlannedSoFar(from, to, KindsByName(from.atoms, from.kinds).Keys, [])
  {
  }

  method PlanNew(fields: seq<FieldDef>) returns (ms: seq<FieldMigration>)
    ensures ms == AddAll(INVALID_KIND, fields, |fields|)
  {
    ms := [];
    var f := 0;
    while f < |fields|
      invariant 0 <= f <= |fields| && ms == AddAll(INVALID_KIND, fields, f)
    {
      ms := ms + [AddOf(INVALID_KIND, fields, f)];
      f := f + 1;
    }
  }

  lemma {:induction false} AddAllAt(kind: U32, fields: seq<FieldDef>, n: nat)
    requires n <= |fields|
    ensures |AddAll(kind, fields, n)| == n && forall f :: 0 <= f < n ==> AddAll(kind, fields, n)[f] == AddOf(kind, fields, f)
  {
    if n > 0 {
      AddAllAt(kind, fields, n - 1);
    }
  }

  lemma NewKindListed(from: Version, to: Version, s: Text, ms: seq<FieldMigration>)
    requires s in KindsByName(to.atoms, to.kinds) && s !in KindsByName(from.atoms, from.kinds)
    requires var fields := to.kinds[KindsByName(to.atoms, to.kinds)[s]].fields; ms == AddAll(INVALID_KIND, fields, |fields|)
    ensures forall f :: NewField(from, to, s, f) ==> AddNewField(from, to, s, f) in ms
    ensures forall m :: m in ms ==> exists f :: NewField(from, to, s, f) && m == AddNewField(from, to, s, f)
  {
    hide KindsByName;
    var fields := to.kinds[KindsByName(to.atoms, to.kinds)[s]].fields;
    AddAllAt(INVALID_KIND, fields, |fields|);
    forall f: nat | NewField(from, to, s, f) ensures AddNewField(from, to, s, f) in ms {
      assert ms[f] == AddNewField(from, to, s, f);
    }
    forall m | m in ms ensures exists f :: NewField(from, to, s, f) && m == AddNewField(from, to, s, f) {
      var f :| 0 <= f < |ms| && m == ms[f];
      assert NewField(from, to, s, f);
    }
  }

  lemma {:induction false} NewPlanListed(from: Version, to: Version, keys: set<Text>)
    requires keys <= KindsByName(to.atoms, to.kinds).Keys
    ensures NewIn(from, to, keys, NewPlan(from, to, keys))
    decreases |keys|
  {
    hide KindsByName, AddAll, NewField, AddNewField, Earliest;
    if keys != {} {
      var s := Earliest(keys);
      NewPlanListed(from, to, keys - {s});
      NewPlanStep(from, to, keys, s);
    }
  }

  lemma NewPlanStep(from: Version, to: Version, keys: set<Text>, s: Text)
    requires keys <= KindsByName(to.atoms, to.kinds).Keys && keys != {} && s == Earliest(keys)
    requires NewIn(from, to, keys - {s}, NewPlan(from, to, keys - {s}))
    ensures NewIn(from, to, keys, NewPlan(from, to, keys))
  {
    hide KindsByName, AddAll, AddNewField, Earliest;
    var fields := to.kinds[KindsByName(to.atoms, to.kinds)[s]].fields;
    if s !in KindsByName(from.atoms, from.kinds) {
      NewKindListed(from, to, s, AddAll(INVALID_KIND, fields, |fields|));
    }
  }

  lemma NewKindsStep(from: Version, to: Version, todo: set<Text>, ms: seq<FieldMigration>, s: Text)
    requires todo <= KindsByName(to.atoms, to.kinds).Keys && todo != {} && s == Earliest(todo)
    ensures var fields := to.kinds[KindsByName(to.atoms, to.kinds)[s]].fields;
      ms + NewPlan(from, to, todo)
      == (if s in KindsByName(from.atoms, from.kinds) then ms else ms + AddAll(INVALID_KIND, fields, |fields|))
         + NewPlan(from, to, todo - {s})
  {
    hide KindsByName, Earliest, AddAll;
  }

  method PlanNewKinds(from: Version, to: Version) returns (ms: seq<FieldMigration>)
    ensures ms == NewPlan(from, to, KindsByName(to.atoms, to.kinds).Keys)
  {
    var fromNames := IndexKinds(from.atoms, from.kinds);
    var toNames := IndexKinds(to.atoms, to.kinds);
    ms := [];
    var todo := toNames.Keys;
    assert NewPlan(from, to, {}) == [];
    hide *;
    while todo != {}
      invariant todo <= toNames.Keys
      invariant ms + NewPlan(from, to, todo) == NewPlan(from, to, toNames.Keys)
      decreases todo
    {
      var s := Earliest(todo);
      NewKindsStep(from, to, todo, ms, s);
      if s !in fromNames {
        var block := PlanNew(to.kinds[toNames[s]].fields);
        ms := ms + block;
      }
      todo := todo - {s};
    }
  }

  lemma NewPlanIsOk(from: Version, to: Version)
    ensures var ms := NewPlan(from, to, KindsByName(to.atoms, to.kinds).Keys);
      NewKindsOk(from, to, ms) && AllOfKind(ms, INVALID_KIND)
  {
    hide KindsByName, NewPlan, AllOfKind, NewIn;
    NewPlanListed(from, to, KindsByName(to.atoms, to.kinds).Keys);
    AddsHaveNoKind(from, to, NewPlan(from, to, KindsByName(to.atoms, to.kinds).Keys));
  }

  lemma AddsHaveNoKind(from: Version, to: Version, ms: seq<FieldMigration>)
    requires NewKindsOk(from, to, ms)
    ensures AllOfKind(ms, INVALID_KIND)
  {
    hide KindsByName;
  }

  /** The plan from one version to another. */
  method ComputePlan(from: Version, to: Version) returns (plan: seq<FieldMigration>)
    requires Numbered(from)
    ensures PlanOk(from, to, plan) && plan == PlanOf(from, to)
  {
    hide KindsByName, OldPlan, NewPlan, KindOk, AllOfKind, NewKindsOk, Visited, ForKind;
    var oldPart := PlanOldKinds(from, to);
    var newPart := PlanNewKinds(from, to);
    plan := oldPart + newPart;
    NewPlanIsOk(from, to);
    BlockAppended(oldPart, newPart, INVALID_KIND);
    PlacesAreKinds(from);
    assert ForKind(oldPart, INVALID_KIND) + newPart == newPart;
  }

  lemma PlacesAreKinds(v: Version)
    requires Numbered(v)
    ensures forall s :: s in KindsByName(v.atoms, v.kinds) ==> KindsByName(v.atoms, v.kinds)[s] < INVALID_KIND
    ensures !Visited(v, {}, INVALID_KIND)
    ensures forall k: U32 :: k !in KindsByName(v.atoms, v.kinds).Values ==> !Visited(v, {}, k)
  {
  }
}
