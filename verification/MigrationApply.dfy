/** Applying a migration plan, and exactly when every migrated node conforms to
    the target schema. */
module MigrationApply {
  import opened Basics
  import opened Model
  import opened VmInvariants
  import opened Migration

  // ----- applying -----

  /** The two numeric casts, whose results nothing here depends on. */
  datatype Casts = Casts(intToFloat: I64 -> U64, floatToInt: U64 -> I64)

  function Convert(casts: Casts, v: Value, oldType: ValueType, newType: ValueType): Value {
    if oldType == TInt && newType == TAtom then Invalid
    else if oldType == TAtom && newType == TInt then IntV(0)
    else if oldType == TInt && newType == TFloat then FloatV(casts.intToFloat(if v.IntV? then v.i else 0))
    else if oldType == TFloat && newType == TInt then IntV(casts.floatToInt(if v.FloatV? then v.bits else 0))
    else Invalid
  }

  function ApplyOne(casts: Casts, fields: map<U32, Value>, m: FieldMigration): map<U32, Value> {
    match m.change
    case RemoveField => fields - {m.field}
    case AddField => if m.field in fields then fields else fields[m.field := m.defaultValue]
    case RenameField => fields
    case ChangeType =>
      if m.field in fields then fields[m.field := Convert(casts, fields[m.field], m.oldType, m.newType)] else fields
  }

  function ApplyEach(casts: Casts, fields: map<U32, Value>, ms: seq<FieldMigration>): map<U32, Value> {
    if ms == [] then fields else ApplyOne(casts, ApplyEach(casts, fields, ms[..|ms| - 1]), ms[|ms| - 1])
  }

  function MigrateNode(casts: Casts, n: Node, plan: seq<FieldMigration>): Node {
    if !n.alive then n else n.(fields := ApplyEach(casts, n.fields, ForKind(plan, n.kind)))
  }

  method MigrateFields(casts: Casts, n: Node, plan: seq<FieldMigration>) returns (fields: map<U32, Value>)
    ensures fields == ApplyEach(casts, n.fields, ForKind(plan, n.kind))
  {
    fields := n.fields;
    var i := 0;
    while i < |plan|
      invariant 0 <= i <= |plan| && fields == ApplyEach(casts, n.fields, ForKind(plan[..i], n.kind))
    {
      assert plan[..i + 1][..i] == plan[..i];
      var m := plan[i];
      if m.kind == n.kind {
        match m.change {
          case RemoveField => fields := fields - {m.field};
          case AddField =>
            if m.field !in fields {
              fields := fields[m.field := m.defaultValue];
            }
          case RenameField =>
          case ChangeType =>
            if m.field in fields {
              fields := fields[m.field := Convert(casts, fields[m.field], m.oldType, m.newType)];
            }
        }
      }
      i := i + 1;
    }
    assert plan[..|plan|] == plan;
  }

  /** Migrate a copy of the table: live nodes by the migrations of their kind,
      dead nodes not at all. */
  method ApplyMigration(casts: Casts, nodes: seq<Node>, plan: seq<FieldMigration>) returns (r: seq<Node>)
    ensures |r| == |nodes| && forall k :: 0 <= k < |nodes| ==> r[k] == MigrateNode(casts, nodes[k], plan)
  {
    r := nodes;
    var k := 0;
    while k < |r|
      invariant 0 <= k <= |r| == |nodes|
      invariant forall j :: 0 <= j < |r| ==> r[j] == if j < k then MigrateNode(casts, nodes[j], plan) else nodes[j]
    {
      if r[k].alive {
        var fields := MigrateFields(casts, r[k], plan);
        r := r[k := r[k].(fields := fields)];
      }
      k := k + 1;
    }
  }

  // ----- what each phase does to one field -----

  ghost predicate Touches(ms: seq<FieldMigration>, f: U32) {
    exists m :: m in ms && m.field == f
  }

  lemma TouchesStep(ms: seq<FieldMigration>, f: U32)
    requires ms != []
    ensures Touches(ms, f) <==> Touches(ms[..|ms| - 1], f) || ms[|ms| - 1].field == f
  {
    var last := ms[|ms| - 1];
    assert forall m :: m in ms <==> m in ms[..|ms| - 1] || m == last;
    if Touches(ms[..|ms| - 1], f) {
      var m :| m in ms[..|ms| - 1] && m.field == f;
      assert m in ms;
    }
  }

  ghost predicate SameAt(x: map<U32, Value>, y: map<U32, Value>, f: U32) {
    (f in x <==> f in y) && (f in x ==> x[f] == y[f])
  }

  lemma {:induction false} RemovalsAt(casts: Casts, fields: map<U32, Value>, ms: seq<FieldMigration>, f: U32)
    requires forall m :: m in ms ==> m.change == RemoveField
    ensures if Touches(ms, f) then f !in ApplyEach(casts, fields, ms) else SameAt(ApplyEach(casts, fields, ms), fields, f)
    decreases |ms|
  {
    hide Touches, Convert;
    if ms == [] {
      assert !Touches(ms, f) by { NothingTouched(f); }
    } else {
      assert ms[|ms| - 1] in ms;
      RemovalsAt(casts, fields, ms[..|ms| - 1], f);
      TouchesStep(ms, f);
    }
  }

  lemma NothingTouched(f: U32)
    ensures !Touches([], f)
  {
  }

  lemma {:induction false} AdditionsAt(casts: Casts, fields: map<U32, Value>, ms: seq<FieldMigration>, f: U32)
    requires forall m :: m in ms ==> m.change == AddField && m.defaultValue == Invalid
    ensures var r := ApplyEach(casts, fields, ms);
      if f in fields then SameAt(r, fields, f) else (f in r <==> Touches(ms, f)) && (f in r ==> r[f] == Invalid)
    decreases |ms|
  {
    hide Touches, Convert;
    if ms == [] {
      assert !Touches(ms, f) by { NothingTouched(f); }
    } else {
      assert ms[|ms| - 1] in ms;
      AdditionsAt(casts, fields, ms[..|ms| - 1], f);
      TouchesStep(ms, f);
    }
  }

  /** A conversion with no rule leaves Invalid behind. */
  predicate Lossy(oldType: ValueType, newType: ValueType) {
    !((oldType == TAtom && newType == TInt) || (oldType == TInt && newType == TFloat) || (oldType == TFloat && newType == TInt))
  }

  predicate Converted(v: Value, m: FieldMigration) {
    if Lossy(m.oldType, m.newType) then v == Invalid else v.Type() == m.newType
  }

  lemma ConvertIsConverted(casts: Casts, v: Value, m: FieldMigration)
    ensures Converted(Convert(casts, v, m.oldType, m.newType), m)
  {
  }

  ghost predicate ConvertedBy(v: Value, ms: seq<FieldMigration>, f: U32) {
    exists m :: m in ms && m.field == f && Converted(v, m)
  }

  lemma {:induction false} RetypingsAt(casts: Casts, fields: map<U32, Value>, ms: seq<FieldMigration>, f: U32)
    requires forall m :: m in ms ==> m.change == ChangeType
    ensures var r := ApplyEach(casts, fields, ms);
      && (f in r <==> f in fields)
      && (!Touches(ms, f) ==> SameAt(r, fields, f))
      && (Touches(ms, f) && f in r ==> ConvertedBy(r[f], ms, f))
    decreases |ms|
  {
    hide Touches, Convert, Converted;
    if ms == [] {
      assert !Touches(ms, f) by { NothingTouched(f); }
    } else {
      var front, last := ms[..|ms| - 1], ms[|ms| - 1];
      assert last in ms;
      RetypingsAt(casts, fields, front, f);
      TouchesStep(ms, f);
      var mid := ApplyEach(casts, fields, front);
      if f in mid {
        if last.field == f {
          ConvertIsConverted(casts, mid[f], last);
        } else if Touches(front, f) {
          var m :| m in front && m.field == f && Converted(mid[f], m);
          assert m in ms;
        }
      }
    }
  }

  lemma {:induction false} ApplyAppend(casts: Casts, fields: map<U32, Value>, a: seq<FieldMigration>, b: seq<FieldMigration>)
    ensures ApplyEach(casts, fields, a + b) == ApplyEach(casts, ApplyEach(casts, fields, a), b)
    decreases |b|
  {
    hide ApplyOne;
    if b == [] {
      assert a + b == a;
    } else {
      assert (a + b)[..|a + b| - 1] == a + b[..|b| - 1];
      ApplyAppend(casts, fields, a, b[..|b| - 1]);
    }
  }

  // ----- one kind -----

  /** Every name is known and declared once, and every type is storable. */
  ghost predicate Clear(atoms: seq<Text>, fields: seq<FieldDef>) {
    && |fields| < TWO32
    && (forall f :: 0 <= f < |fields| ==> NameOf(atoms, fields[f].name).Some? && fields[f].ftype != TInvalid)
    && (forall f, g :: 0 <= f < g < |fields| ==> NameOf(atoms, fields[f].name) != NameOf(atoms, fields[g].name))
  }

  ghost predicate ClearPair(p: Pair) {
    Clear(p.fromAtoms, p.from) && Clear(p.toAtoms, p.to)
  }

  lemma NameFinds(atoms: seq<Text>, fields: seq<FieldDef>, f: nat)
    requires Clear(atoms, fields) && f < |fields|
    ensures var s := NameOf(atoms, fields[f].name).value;
      s in FieldsByName(atoms, fields) && FieldsByName(atoms, fields)[s] == f
  {
    FieldIsListed(atoms, fields, f);
  }

  function OldName(p: Pair, f: nat): Text
    requires f < |p.from|
  {
    if NameOf(p.fromAtoms, p.from[f].name).Some? then NameOf(p.fromAtoms, p.from[f].name).value else []
  }

  function NewName(p: Pair, f: nat): Text
    requires f < |p.to|
  {
    if NameOf(p.toAtoms, p.to[f].name).Some? then NameOf(p.toAtoms, p.to[f].name).value else []
  }

  /** On a clear pair, names and positions determine each other. */
  lemma Places(p: Pair)
    requires ClearPair(p)
    ensures |p.from| < TWO32 && |p.to| < TWO32
    ensures forall f: nat :: f < |p.from| ==> OldName(p, f) in p.FromNames() && p.FromNames()[OldName(p, f)] == f
    ensures forall s :: s in p.FromNames() ==> p.FromNames()[s] < |p.from| && OldName(p, p.FromNames()[s]) == s
    ensures forall f: nat :: f < |p.to| ==> NewName(p, f) in p.ToNames() && p.ToNames()[NewName(p, f)] == f
    ensures forall s :: s in p.ToNames() ==> p.ToNames()[s] < |p.to| && NewName(p, p.ToNames()[s]) == s
  {
    forall f: nat | f < |p.from| ensures OldName(p, f) in p.FromNames() && p.FromNames()[OldName(p, f)] == f {
      NameFinds(p.fromAtoms, p.from, f);
    }
    forall f: nat | f < |p.to| ensures NewName(p, f) in p.ToNames() && p.ToNames()[NewName(p, f)] == f {
      NameFinds(p.toAtoms, p.to, f);
    }
  }

  lemma OldPlace(p: Pair, f: nat)
    requires ClearPair(p) && f < |p.from|
    ensures OldName(p, f) in p.FromNames() && p.FromNames()[OldName(p, f)] == f < TWO32
  {
    NameFinds(p.fromAtoms, p.from, f);
  }

  lemma NewPlace(p: Pair, f: nat)
    requires ClearPair(p) && f < |p.to|
    ensures NewName(p, f) in p.ToNames() && p.ToNames()[NewName(p, f)] == f < TWO32
  {
    NameFinds(p.toAtoms, p.to, f);
  }

  lemma OldNamed(p: Pair, s: Text)
    requires ClearPair(p) && s in p.FromNames()
    ensures p.FromNames()[s] < |p.from| < TWO32 && OldName(p, p.FromNames()[s]) == s
  {
  }

  lemma NewNamed(p: Pair, s: Text)
    requires ClearPair(p) && s in p.ToNames()
    ensures p.ToNames()[s] < |p.to| < TWO32 && NewName(p, p.ToNames()[s]) == s
  {
  }

  ghost predicate TypedBy(defs: seq<FieldDef>, fields: map<U32, Value>) {
    forall f :: f in fields ==> f < |defs| && fields[f].Type() == defs[f].ftype
  }

  /** Only declared fields, each Invalid or of its declared type. */
  ghost predicate Conforms(defs: seq<FieldDef>, fields: map<U32, Value>) {
    forall f :: f in fields ==> f < |defs| && (fields[f] == Invalid || fields[f].Type() == defs[f].ftype)
  }

  predicate Kept(p: Pair, s: Text) {
    s in p.FromNames() && s in p.ToNames()
  }

  /** A kept field's value stays at its old position; there the new schema must
      declare a field that will take it. */
  predicate Settles(p: Pair, s: Text)
    requires Kept(p, s)
  {
    var f := p.FromNames()[s];
    && f < |p.to|
    && if Retyped(p, s)
       then Lossy(p.from[f].ftype, p.to[p.ToNames()[s]].ftype) || p.to[f].ftype == p.to[p.ToNames()[s]].ftype
       else p.to[f].ftype == p.from[f].ftype
  }

  ghost predicate KeepsPlaces(p: Pair) {
    forall s :: Kept(p, s) ==> Settles(p, s)
  }

  /** What the plan makes of field f. */
  ghost predicate Outcome(p: Pair, fields: map<U32, Value>, r: map<U32, Value>, f: U32) {
    if f in fields then
      f < |p.from|
      && var s := OldName(p, f);
         if !Kept(p, s) then f in r ==> f < |p.to| && r[f] == Invalid
         else f in r && if Retyped(p, s) then Converted(r[f], RetypeNamed(p, s)) else r[f] == fields[f]
    else
      f in r ==> f < |p.to| && (r[f] == Invalid || (f < |p.from| && Retyped(p, OldName(p, f)) && Converted(r[f], RetypeNamed(p, OldName(p, f)))))
  }

  lemma RemovalListed(p: Pair, ms: seq<FieldMigration>, f: U32)
    requires ClearPair(p) && Removals(p, ms) && f < |p.from| && Gone(p, OldName(p, f))
    ensures RemoveNamed(p, OldName(p, f)) in ms && RemoveNamed(p, OldName(p, f)).field == f
  {
    hide FieldsByName, OldName, ClearPair, Removals;
    RemovalsListed(p, ms);
    OldPlace(p, f);
  }

  lemma RemovalNames(p: Pair, ms: seq<FieldMigration>, m: FieldMigration)
    requires ClearPair(p) && Removals(p, ms) && m in ms
    ensures m.change == RemoveField && m.field < |p.from| && Gone(p, OldName(p, m.field))
  {
    hide FieldsByName, OldName, ClearPair, Removals;
    RemovalsListed(p, ms);
    var s :| Gone(p, s) && m == RemoveNamed(p, s);
    OldNamed(p, s);
  }

  lemma AdditionListed(p: Pair, ms: seq<FieldMigration>, f: U32)
    requires ClearPair(p) && Additions(p, ms) && f < |p.to| && Fresh(p, NewName(p, f))
    ensures AddNamed(p, NewName(p, f)) in ms && AddNamed(p, NewName(p, f)).field == f
  {
    hide FieldsByName, NewName, ClearPair, Additions;
    AdditionsListed(p, ms);
    NewPlace(p, f);
  }

  lemma AdditionNames(p: Pair, ms: seq<FieldMigration>, m: FieldMigration)
    requires ClearPair(p) && Additions(p, ms) && m in ms
    ensures m.change == AddField && m.defaultValue == Invalid && m.field < |p.to| && Fresh(p, NewName(p, m.field))
  {
    hide FieldsByName, NewName, ClearPair, Additions;
    AdditionsListed(p, ms);
    var s :| Fresh(p, s) && m == AddNamed(p, s);
    NewNamed(p, s);
  }

  lemma RetypingListed(p: Pair, ms: seq<FieldMigration>, f: U32)
    requires ClearPair(p) && Retypings(p, ms) && f < |p.from| && Retyped(p, OldName(p, f))
    ensures RetypeNamed(p, OldName(p, f)) in ms && RetypeNamed(p, OldName(p, f)).field == f
  {
    hide FieldsByName, OldName, ClearPair, Retypings;
    RetypingsListed(p, ms);
    OldPlace(p, f);
  }

  lemma RetypingNames(p: Pair, ms: seq<FieldMigration>, m: FieldMigration)
    requires ClearPair(p) && Retypings(p, ms) && m in ms
    ensures m.change == ChangeType && m.field < |p.from| && Retyped(p, OldName(p, m.field))
    ensures m == RetypeNamed(p, OldName(p, m.field))
  {
    hide FieldsByName, OldName, ClearPair, Retypings;
    RetypingsListed(p, ms);
    var s :| Retyped(p, s) && m == RetypeNamed(p, s);
    OldNamed(p, s);
  }

  lemma TouchedByRemoval(p: Pair, ms: seq<FieldMigration>, f: U32)
    requires ClearPair(p) && Removals(p, ms)
    ensures forall m :: m in ms ==> m.change == RemoveField
    ensures Touches(ms, f) <==> f < |p.from| && Gone(p, OldName(p, f))
  {
    hide *;
    forall m | m in ms ensures m.change == RemoveField {
      RemovalNames(p, ms, m);
    }
    if f < |p.from| && Gone(p, OldName(p, f)) {
      RemovalListed(p, ms, f);
      TouchedBy(ms, RemoveNamed(p, OldName(p, f)));
    }
    if Touches(ms, f) {
      var m := Toucher(ms, f);
      RemovalNames(p, ms, m);
    }
  }

  lemma TouchedBy(ms: seq<FieldMigration>, m: FieldMigration)
    requires m in ms
    ensures Touches(ms, m.field)
  {
  }

  lemma Toucher(ms: seq<FieldMigration>, f: U32) returns (m: FieldMigration)
    requires Touches(ms, f)
    ensures m in ms && m.field == f
  {
    m :| m in ms && m.field == f;
  }

  lemma TouchedByAddition(p: Pair, ms: seq<FieldMigration>, f: U32)
    requires ClearPair(p) && Additions(p, ms)
    ensures forall m :: m in ms ==> m.change == AddField && m.defaultValue == Invalid
    ensures Touches(ms, f) <==> f < |p.to| && Fresh(p, NewName(p, f))
  {
    hide *;
    forall m | m in ms ensures m.change == AddField && m.defaultValue == Invalid {
      AdditionNames(p, ms, m);
    }
    if f < |p.to| && Fresh(p, NewName(p, f)) {
      AdditionListed(p, ms, f);
      TouchedBy(ms, AddNamed(p, NewName(p, f)));
    }
    if Touches(ms, f) {
      var m := Toucher(ms, f);
      AdditionNames(p, ms, m);
    }
  }

  lemma TouchedByRetyping(p: Pair, ms: seq<FieldMigration>, f: U32)
    requires ClearPair(p) && Retypings(p, ms)
    ensures forall m :: m in ms ==> m.change == ChangeType
    ensures Touches(ms, f) <==> f < |p.from| && Retyped(p, OldName(p, f))
    ensures forall m :: m in ms && m.field == f ==> f < |p.from| && Retyped(p, OldName(p, f)) && m == RetypeNamed(p, OldName(p, f))
  {
    hide *;
    forall m | m in ms
      ensures m.change == ChangeType
      ensures m.field == f ==> f < |p.from| && Retyped(p, OldName(p, f)) && m == RetypeNamed(p, OldName(p, f))
    {
      RetypingNames(p, ms, m);
    }
    if f < |p.from| && Retyped(p, OldName(p, f)) {
      RetypingListed(p, ms, f);
      TouchedBy(ms, RetypeNamed(p, OldName(p, f)));
    }
    if Touches(ms, f) {
      var m := Toucher(ms, f);
      RetypingNames(p, ms, m);
    }
  }

  /** One field followed through the removals (to x), the additions (to y) and
      the conversions (to r). */
  ghost predicate Followed(p: Pair, fields: map<U32, Value>, x: map<U32, Value>, y: map<U32, Value>, r: map<U32, Value>, f: U32) {
    && (if f < |p.from| && Gone(p, OldName(p, f)) then f !in x else SameAt(x, fields, f))
    && (if f in x then SameAt(y, x, f)
        else (f in y <==> f < |p.to| && Fresh(p, NewName(p, f))) && (f in y ==> y[f] == Invalid))
    && (f in r <==> f in y)
    && (if f < |p.from| && Retyped(p, OldName(p, f))
        then f in r ==> Converted(r[f], RetypeNamed(p, OldName(p, f)))
        else SameAt(r, y, f))
  }

  lemma RemovalPhase(casts: Casts, p: Pair, ms: seq<FieldMigration>, fields: map<U32, Value>, f: U32)
    requires ClearPair(p) && Removals(p, ms)
    ensures var x := ApplyEach(casts, fields, ms);
      if f < |p.from| && Gone(p, OldName(p, f)) then f !in x else SameAt(x, fields, f)
  {
    hide *;
    TouchedByRemoval(p, ms, f);
    RemovalsAt(casts, fields, ms, f);
  }

  lemma AdditionPhase(casts: Casts, p: Pair, ms: seq<FieldMigration>, fields: map<U32, Value>, f: U32)
    requires ClearPair(p) && Additions(p, ms)
    ensures var y := ApplyEach(casts, fields, ms);
      if f in fields then SameAt(y, fields, f)
      else (f in y <==> f < |p.to| && Fresh(p, NewName(p, f))) && (f in y ==> y[f] == Invalid)
  {
    hide *;
    TouchedByAddition(p, ms, f);
    AdditionsAt(casts, fields, ms, f);
  }

  lemma RetypingPhase(casts: Casts, p: Pair, ms: seq<FieldMigration>, fields: map<U32, Value>, f: U32)
    requires ClearPair(p) && Retypings(p, ms)
    ensures var r := ApplyEach(casts, fields, ms);
      && (f in r <==> f in fields)
      && if f < |p.from| && Retyped(p, OldName(p, f))
         then f in r ==> Converted(r[f], RetypeNamed(p, OldName(p, f)))
         else SameAt(r, fields, f)
  {
    hide *;
    TouchedByRetyping(p, ms, f);
    RetypingsAt(casts, fields, ms, f);
    var r := ApplyEach(casts, fields, ms);
    if Touches(ms, f) && f in r {
      var m := Converter(r[f], ms, f);
    }
  }

  lemma Converter(v: Value, ms: seq<FieldMigration>, f: U32) returns (m: FieldMigration)
    requires ConvertedBy(v, ms, f)
    ensures m in ms && m.field == f && Converted(v, m)
  {
    m :| m in ms && m.field == f && Converted(v, m);
  }

  lemma Split(p: Pair, ms: seq<FieldMigration>) returns (a: seq<FieldMigration>, b: seq<FieldMigration>, c: seq<FieldMigration>)
    requires KindPlan(p, ms)
    ensures ms == a + b + c && Removals(p, a) && Additions(p, b) && Retypings(p, c)
  {
    var from, to := p.FromNames().Keys, p.ToNames().Keys;
    a, b, c := PhaseList(p, Removing, from), PhaseList(p, Adding, to), PhaseList(p, Retyping, from);
  }

  lemma Follow(casts: Casts, p: Pair, ms: seq<FieldMigration>, fields: map<U32, Value>, f: U32)
    returns (x: map<U32, Value>, y: map<U32, Value>)
    requires ClearPair(p) && KindPlan(p, ms)
    ensures Followed(p, fields, x, y, ApplyEach(casts, fields, ms), f)
  {
    hide ApplyEach, Removals, Additions, Retypings, ClearPair, KindPlan, SameAt, Converted, Gone, Fresh, Retyped, OldName, NewName, RetypeNamed;
    var a, b, c := Split(p, ms);
    ApplyAppend(casts, fields, a + b, c);
    ApplyAppend(casts, fields, a, b);
    x := ApplyEach(casts, fields, a);
    y := ApplyEach(casts, x, b);
    RemovalPhase(casts, p, a, fields, f);
    AdditionPhase(casts, p, b, x, f);
    RetypingPhase(casts, p, c, y, f);
  }

  lemma PlanOutcome(casts: Casts, p: Pair, ms: seq<FieldMigration>, fields: map<U32, Value>, f: U32)
    requires ClearPair(p) && KindPlan(p, ms) && TypedBy(p.from, fields)
    ensures Outcome(p, fields, ApplyEach(casts, fields, ms), f)
  {
    hide ApplyEach, KindPlan, FieldsByName, Converted, OldName, NewName, RetypeNamed;
    var x, y := Follow(casts, p, ms, fields, f);
    if f < |p.from| {
      OldPlace(p, f);
    }
    hide ClearPair;
  }

  /** If kept fields keep their places, every well-typed node conforms afterwards. */
  lemma KeptPlacesConform(casts: Casts, p: Pair, ms: seq<FieldMigration>, fields: map<U32, Value>)
    requires ClearPair(p) && KindPlan(p, ms) && TypedBy(p.from, fields) && KeepsPlaces(p)
    ensures Conforms(p.to, ApplyEach(casts, fields, ms))
  {
    Places(p);
    hide ApplyEach, KindPlan, FieldsByName, ClearPair, OldName, NewName;
    var r := ApplyEach(casts, fields, ms);
    forall f | f in r ensures f < |p.to| && (r[f] == Invalid || r[f].Type() == p.to[f].ftype) {
      PlanOutcome(casts, p, ms, fields, f);
      if f < |p.from| && Kept(p, OldName(p, f)) {
        assert Settles(p, OldName(p, f));
      }
    }
  }

  function Sample(t: ValueType): (v: Value)
    requires t != TInvalid
    ensures v.Type() == t
  {
    match t
    case TInt => IntV(0)
    case TFloat => FloatV(0)
    case TAtom => AtomV(0)
    case TRef => RefV(0)
    case TList => ListV([])
  }

  /** If some kept field does not settle, a node holding just that field does not conform. */
  lemma UnsettledFails(casts: Casts, p: Pair, ms: seq<FieldMigration>, s: Text)
    requires ClearPair(p) && KindPlan(p, ms) && Kept(p, s) && !Settles(p, s)
    ensures p.FromNames()[s] < |p.from| && p.from[p.FromNames()[s]].ftype != TInvalid && p.FromNames()[s] < TWO32
    ensures var f := p.FromNames()[s];
      var fields: map<U32, Value> := map[f := Sample(p.from[f].ftype)];
      TypedBy(p.from, fields) && !Conforms(p.to, ApplyEach(casts, fields, ms))
  {
    Places(p);
    hide ApplyEach, KindPlan, FieldsByName, OldName, NewName;
    var f := p.FromNames()[s];
    var fields: map<U32, Value> := map[f := Sample(p.from[f].ftype)];
    PlanOutcome(casts, p, ms, fields, f);
    var r := ApplyEach(casts, fields, ms);
    assert f in r;
  }

  /** A kind's plan makes every well-typed node conform to the new declaration
      if and only if each field kept by name still has, at its old position, a
      declaration that takes its (converted) value. */
  lemma ConformsIff(casts: Casts, p: Pair, ms: seq<FieldMigration>)
    requires ClearPair(p) && KindPlan(p, ms)
    ensures KeepsPlaces(p) <==>
      forall fields: map<U32, Value> :: TypedBy(p.from, fields) ==> Conforms(p.to, ApplyEach(casts, fields, ms))
  {
    hide ApplyEach, KindPlan, ClearPair, FieldsByName, TypedBy, Conforms, Settles;
    if KeepsPlaces(p) {
      forall fields: map<U32, Value> | TypedBy(p.from, fields) ensures Conforms(p.to, ApplyEach(casts, fields, ms)) {
        KeptPlacesConform(casts, p, ms, fields);
      }
    } else {
      var s :| Kept(p, s) && !Settles(p, s);
      UnsettledFails(casts, p, ms, s);
    }
  }

  /** A field kept with its name, type and position is untouched. */
  lemma UnchangedFieldsAreKept(casts: Casts, p: Pair, ms: seq<FieldMigration>, fields: map<U32, Value>, s: Text)
    requires ClearPair(p) && KindPlan(p, ms) && TypedBy(p.from, fields)
    requires Kept(p, s) && !Retyped(p, s) && p.FromNames()[s] == p.ToNames()[s]
    ensures p.FromNames()[s] < TWO32 && SameAt(ApplyEach(casts, fields, ms), fields, p.FromNames()[s])
  {
    hide ApplyEach, KindPlan, FieldsByName, Converted, OldName, NewName, RetypeNamed;
    OldNamed(p, s);
    NewNamed(p, s);
    var x, y := Follow(casts, p, ms, fields, p.FromNames()[s]);
  }

  // ----- a whole table -----

  lemma {:induction false} RemoveAllClears(casts: Casts, kind: U32, defs: seq<FieldDef>, n: nat, fields: map<U32, Value>, f: U32)
    requires n <= |defs| < TWO32
    ensures f in ApplyEach(casts, fields, RemoveAll(kind, defs, n)) <==> f in fields && f >= n
    decreases n
  {
    hide ApplyOne, ApplyEach;
    if n == 0 {
      NoneApplied(casts, fields);
    } else {
      RemoveAllClears(casts, kind, defs, n - 1, fields, f);
      LastApplied(casts, fields, RemoveAll(kind, defs, n - 1), RemoveOf(kind, defs, n - 1));
      OneRemoved(casts, ApplyEach(casts, fields, RemoveAll(kind, defs, n - 1)), RemoveOf(kind, defs, n - 1), f);
    }
  }

  lemma NoneApplied(casts: Casts, fields: map<U32, Value>)
    ensures ApplyEach(casts, fields, []) == fields
  {
  }

  lemma LastApplied(casts: Casts, fields: map<U32, Value>, front: seq<FieldMigration>, last: FieldMigration)
    ensures ApplyEach(casts, fields, front + [last]) == ApplyOne(casts, ApplyEach(casts, fields, front), last)
  {
    hide ApplyOne;
    assert (front + [last])[..|front|] == front;
  }

  lemma OneRemoved(casts: Casts, fields: map<U32, Value>, m: FieldMigration, f: U32)
    requires m.change == RemoveField
    ensures f in ApplyOne(casts, fields, m) <==> f in fields && f != m.field
  {
  }

  /** Each kind name is known and declared once, on both sides, and kept kinds
      keep their ids and their fields' places. */
  ghost predicate Compatible(from: Version, to: Version) {
    var fromNames, toNames := KindsByName(from.atoms, from.kinds), KindsByName(to.atoms, to.kinds);
    && Numbered(from)
    && (forall k :: 0 <= k < |from.kinds| ==> NameOf(from.atoms, from.kinds[k].name).Some? && Clear(from.atoms, from.kinds[k].fields))
    && (forall k :: 0 <= k < |to.kinds| ==> Clear(to.atoms, to.kinds[k].fields))
    && (forall i, j :: 0 <= i < j < |from.kinds| ==> NameOf(from.atoms, from.kinds[i].name) != NameOf(from.atoms, from.kinds[j].name))
    && (forall s :: s in fromNames && s in toNames ==>
          fromNames[s] == toNames[s] && KeepsPlaces(PairOf(from, to, fromNames[s], toNames[s])))
  }

  lemma KindFinds(from: Version, to: Version, k: nat)
    requires Compatible(from, to) && k < |from.kinds|
    ensures NameOf(from.atoms, from.kinds[k].name).Some?
    ensures var s := NameOf(from.atoms, from.kinds[k].name).value;
      s in KindsByName(from.atoms, from.kinds) && KindsByName(from.atoms, from.kinds)[s] == k
  {
    KindIsListed(from.atoms, from.kinds, k);
  }

  /** Applying the computed plan to a well-typed table leaves every live node of
      a declared kind with only fields the target schema declares for its kind,
      each Invalid or of the target type. */
  lemma MigratedNodeConforms(casts: Casts, from: Version, to: Version, plan: seq<FieldMigration>, n: Node)
    requires Compatible(from, to) && PlanOk(from, to, plan)
    requires n.alive && n.kind < |from.kinds| && FieldsTyped(Schema(from.kinds), n.kind, n.fields)
    ensures var r := MigrateNode(casts, n, plan);
      forall f :: f in r.fields ==>
        && Schema(to.kinds).FieldType(r.kind, f) != TInvalid
        && (r.fields[f] == Invalid || r.fields[f].Type() == Schema(to.kinds).FieldType(r.kind, f))
  {
    hide ApplyEach, KindPlan, KindsByName, KeepsPlaces, NewKindsOk;
    KindFinds(from, to, n.kind);
    var s := NameOf(from.atoms, from.kinds[n.kind].name).value;
    var toNames := KindsByName(to.atoms, to.kinds);
    var ms := ForKind(plan, n.kind);
    assert KindOk(from, to, s, ms);
    if s !in toNames {
      forall f: U32 ensures f !in ApplyEach(casts, n.fields, ms) {
        assert f in n.fields ==> Schema(from.kinds).FieldType(n.kind, f) != TInvalid;
        RemoveAllClears(casts, n.kind, from.kinds[n.kind].fields, |from.kinds[n.kind].fields|, n.fields, f);
      }
    } else {
      var p := PairOf(from, to, n.kind, toNames[s]);
      KindIsFound(to, s);
      KeptPlacesConform(casts, p, ms, n.fields);
    }
  }

  lemma KindIsFound(v: Version, s: Text)
    requires s in KindsByName(v.atoms, v.kinds)
    ensures KindsByName(v.atoms, v.kinds)[s] < |v.kinds|
  {
  }

  // ----- additions for new kinds -----

  /** The additions recorded for kinds only the target has carry no kind, so
      they match exactly the nodes without one: live placeholders gain an
      Invalid field for each, and nodes of declared kinds nothing. */
  lemma NewKindsReachPlaceholders(casts: Casts, from: Version, to: Version, plan: seq<FieldMigration>, n: Node, s: Text, f: U32)
    requires PlanOk(from, to, plan) && NewField(from, to, s, f)
    requires n.alive && n.kind == INVALID_KIND && n.fields == map[]
    ensures f in MigrateNode(casts, n, plan).fields && MigrateNode(casts, n, plan).fields[f] == Invalid
  {
    hide ApplyEach, Touches, KindsByName, KindOk;
    var ms := ForKind(plan, INVALID_KIND);
    assert AddNewField(from, to, s, f) in ms && AddNewField(from, to, s, f).field == f;
    assert Touches(ms, f) by { TouchedBy(ms, AddNewField(from, to, s, f)); }
    AdditionsAt(casts, n.fields, ms, f);
  }

  /** A declaration from which one field is dropped. */
  predicate Drops(p: Pair, d: nat) {
    d < |p.from| && p.toAtoms == p.fromAtoms && p.to == p.from[..d] + p.from[d + 1..]
  }

  lemma DropKeepsClear(p: Pair, d: nat)
    requires Drops(p, d) && Clear(p.fromAtoms, p.from)
    ensures ClearPair(p)
  {
    forall f, g | 0 <= f < g < |p.to|
      ensures NameOf(p.toAtoms, p.to[f].name) != NameOf(p.toAtoms, p.to[g].name)
    {
      var f', g' := if f < d then f else f + 1, if g < d then g else g + 1;
      assert p.to[f] == p.from[f'] && p.to[g] == p.from[g'];
    }
  }

  /** Where a field that stays sits before and after. */
  lemma StaysAt(p: Pair, d: nat, f: nat)
    requires Drops(p, d) && ClearPair(p) && f < |p.from| && f != d
    ensures var s := OldName(p, f);
      && Kept(p, s) && p.FromNames()[s] == f && p.ToNames()[s] == (if f < d then f else f - 1)
      && !Retyped(p, s)
  {
    var g := if f < d then f else f - 1;
    assert p.to[g] == p.from[f];
    hide Clear, ClearPair, FieldsByName;
    OldPlace(p, f);
    NewPlace(p, g);
  }

  lemma NoneNamedLikeDropped(p: Pair, d: nat, g: nat)
    requires Drops(p, d) && Clear(p.fromAtoms, p.from) && g < |p.to|
    ensures NewName(p, g) != OldName(p, d)
  {
    var f := if g < d then g else g + 1;
    assert p.to[g] == p.from[f];
  }

  lemma DroppedIsGone(p: Pair, d: nat)
    requires Drops(p, d) && ClearPair(p)
    ensures Gone(p, OldName(p, d))
  {
    hide OldName, NewName, FieldsByName;
    OldPlace(p, d);
    if OldName(p, d) in p.ToNames() {
      NewNamed(p, OldName(p, d));
      NoneNamedLikeDropped(p, d, p.ToNames()[OldName(p, d)]);
    }
  }

  /** Dropping one field of a kind leaves every well-typed node conforming if
      and only if it is the last field: otherwise the last field's value stays
      at a position the new declaration no longer has. */
  lemma DroppingAFieldConformsIff(casts: Casts, p: Pair, d: nat, ms: seq<FieldMigration>)
    requires Drops(p, d) && Clear(p.fromAtoms, p.from) && KindPlan(p, ms)
    ensures (forall fields: map<U32, Value> :: TypedBy(p.from, fields) ==> Conforms(p.to, ApplyEach(casts, fields, ms)))
      <==> d == |p.from| - 1
  {
    hide KindPlan, ApplyEach, Clear, ClearPair, FieldsByName, TypedBy, Conforms, OldName, Retyped;
    DropKeepsClear(p, d);
    ConformsIff(casts, p, ms);
    if d == |p.from| - 1 {
      forall s | Kept(p, s) ensures Settles(p, s) {
        OldNamed(p, s);
        var f := p.FromNames()[s];
        if f == d {
          DroppedIsGone(p, d);
        } else {
          StaysAt(p, d, f);
        }
      }
    } else {
      var last := |p.from| - 1;
      StaysAt(p, d, last);
      assert !Settles(p, OldName(p, last));
    }
  }
}
