/** What a migration does to each field, said of the two declarations and the
    node alone, and what a plan records. */
module MigrationLaws {
  import opened Basics
  import opened Model
  import opened Migration
  import opened MigrationApply

  // ----- names -----

  /** Names are ordered as dictionaries order them. */
  lemma {:induction false} BeforeIsAlphabetical(a: Text, b: Text)
    ensures Before(a, b) <==>
      (|a| < |b| && a == b[..|a|]) || (exists i :: 0 <= i < |a| && i < |b| && a[..i] == b[..i] && a[i] < b[i])
    decreases |a|
  {
    if a != [] && b != [] && a[0] == b[0] {
      BeforeIsAlphabetical(a[1..], b[1..]);
      PrefixStep(a, b);
      DifferenceStep(a, b);
    }
  }

  lemma PrefixStep(a: Text, b: Text)
    requires a != [] && b != [] && a[0] == b[0]
    ensures (|a| < |b| && a == b[..|a|]) <==> (|a[1..]| < |b[1..]| && a[1..] == b[1..][..|a[1..]|])
  {
    if |a| < |b| {
      assert b[1..][..|a| - 1] == b[..|a|][1..];
      assert a == [a[0]] + a[1..] && b[..|a|] == [b[0]] + b[..|a|][1..];
    }
  }

  lemma DifferenceStep(a: Text, b: Text)
    requires a != [] && b != [] && a[0] == b[0]
    ensures (exists i :: 0 <= i < |a| && i < |b| && a[..i] == b[..i] && a[i] < b[i])
       <==> (exists i :: 0 <= i < |a[1..]| && i < |b[1..]| && a[1..][..i] == b[1..][..i] && a[1..][i] < b[1..][i])
  {
    if i :| 0 <= i < |a| && i < |b| && a[..i] == b[..i] && a[i] < b[i] {
      assert a[1..][..i - 1] == a[..i][1..] && b[1..][..i - 1] == b[..i][1..];
      assert a[1..][i - 1] < b[1..][i - 1];
    }
    if i :| 0 <= i < |a[1..]| && i < |b[1..]| && a[1..][..i] == b[1..][..i] && a[1..][i] < b[1..][i] {
      assert a[..i + 1] == [a[0]] + a[1..][..i] && b[..i + 1] == [b[0]] + b[1..][..i];
      assert a[i + 1] < b[i + 1];
    }
  }

  /** Field f of the old declaration and field g of the new one have one name. */
  predicate SameName(p: Pair, f: nat, g: nat) {
    && f < |p.from| && g < |p.to|
    && p.from[f].name < |p.fromAtoms| && p.to[g].name < |p.toAtoms|
    && p.fromAtoms[p.from[f].name] == p.toAtoms[p.to[g].name]
  }

  /** No new field has old field f's name. */
  ghost predicate Discarded(p: Pair, f: nat) {
    f < |p.from| && forall g: nat :: !SameName(p, f, g)
  }

  /** No old field has new field g's name. */
  ghost predicate Introduced(p: Pair, g: nat) {
    g < |p.to| && forall f: nat :: !SameName(p, f, g)
  }

  lemma SameNameIff(p: Pair, f: nat, g: nat)
    requires ClearPair(p) && f < |p.from| && g < |p.to|
    ensures SameName(p, f, g) <==> OldName(p, f) == NewName(p, g)
  {
  }

  lemma KeptIff(p: Pair, f: nat)
    requires ClearPair(p) && f < |p.from|
    ensures Discarded(p, f) <==> Gone(p, OldName(p, f))
    ensures forall g: nat :: SameName(p, f, g) ==> Kept(p, OldName(p, f)) && p.ToNames()[OldName(p, f)] == g
  {
    hide OldName, NewName, FieldsByName, SameName, Clear, ClearPair;
    OldPlace(p, f);
    forall g: nat | SameName(p, f, g) ensures Kept(p, OldName(p, f)) && p.ToNames()[OldName(p, f)] == g {
      InBounds(p, f, g);
      SameNameIff(p, f, g);
      NewPlace(p, g);
    }
    if OldName(p, f) in p.ToNames() {
      NewNamed(p, OldName(p, f));
      SameNameIff(p, f, p.ToNames()[OldName(p, f)]);
    }
  }

  lemma InBounds(p: Pair, f: nat, g: nat)
    requires SameName(p, f, g)
    ensures f < |p.from| && g < |p.to|
  {
  }

  lemma FreshIff(p: Pair, g: nat)
    requires ClearPair(p) && g < |p.to|
    ensures Introduced(p, g) <==> Fresh(p, NewName(p, g))
  {
    hide OldName, NewName, FieldsByName, SameName, Clear, ClearPair;
    NewPlace(p, g);
    if f: nat :| SameName(p, f, g) {
      InBounds(p, f, g);
      SameNameIff(p, f, g);
      OldPlace(p, f);
    }
    if NewName(p, g) in p.FromNames() {
      OldNamed(p, NewName(p, g));
      SameNameIff(p, p.FromNames()[NewName(p, g)], g);
    }
  }

  // ----- one conversion a field -----

  function RetypedTo(casts: Casts, p: Pair, keys: set<Text>, v: Value, f: U32): Value {
    if f < |p.from| && OldName(p, f) in keys && Retyped(p, OldName(p, f))
    then Convert(casts, v, p.from[f].ftype, p.to[p.ToNames()[OldName(p, f)]].ftype)
    else v
  }

  lemma {:induction false} RetypedOnce(casts: Casts, p: Pair, keys: set<Text>, fields: map<U32, Value>, f: U32)
    requires ClearPair(p) && keys <= p.FromNames().Keys
    ensures var r := ApplyEach(casts, fields, PhaseList(p, Retyping, keys));
      && (f in r <==> f in fields)
      && (f in r ==> r[f] == RetypedTo(casts, p, keys, fields[f], f))
    decreases |keys|
  {
    hide Convert, ApplyEach, ApplyOne, FieldsByName, OldName, Clear, ClearPair, Retyped, Earliest;
    if keys == {} {
      NoneApplied(casts, fields);
    } else {
      var s := Earliest(keys);
      var rest := keys - {s};
      OldNamed(p, s);
      if f < |p.from| {
        OldPlace(p, f);
      }
      if Retyped(p, s) {
        var m := RetypeNamed(p, s);
        RetypeIs(p, s);
        assert PhaseList(p, Retyping, keys) == [m] + PhaseList(p, Retyping, rest);
        ApplyAppend(casts, fields, [m], PhaseList(p, Retyping, rest));
        OneRetyped(casts, fields, m, f);
        RetypedOnce(casts, p, rest, ApplyEach(casts, fields, [m]), f);
      } else {
        assert PhaseList(p, Retyping, keys) == [] + PhaseList(p, Retyping, rest) == PhaseList(p, Retyping, rest);
        RetypedOnce(casts, p, rest, fields, f);
      }
    }
  }

  lemma RetypeIs(p: Pair, s: Text)
    requires ClearPair(p) && Retyped(p, s)
    ensures p.FromNames()[s] < |p.from| < TWO32
    ensures var m, f := RetypeNamed(p, s), p.FromNames()[s];
      m.change == ChangeType && m.field == f && m.oldType == p.from[f].ftype && m.newType == p.to[p.ToNames()[s]].ftype
  {
    OldNamed(p, s);
  }

  lemma OneRetyped(casts: Casts, fields: map<U32, Value>, m: FieldMigration, f: U32)
    requires m.change == ChangeType
    ensures var r := ApplyEach(casts, fields, [m]);
      && (f in r <==> f in fields)
      && (f in r ==> r[f] == if f == m.field then Convert(casts, fields[f], m.oldType, m.newType) else fields[f])
  {
    hide Convert;
    assert [m][..0] == [];
    NoneApplied(casts, fields);
  }

  // ----- what becomes of each field -----

  /** What a value of one type becomes under another: integers and doubles are
      cast, an atom becomes zero, and everything else Invalid. */
  ghost predicate IsCast(casts: Casts, v: Value, a: ValueType, b: ValueType, w: Value) {
    if a == TInt && b == TFloat then w == FloatV(casts.intToFloat(if v.IntV? then v.i else 0))
    else if a == TFloat && b == TInt then w == IntV(casts.floatToInt(if v.FloatV? then v.bits else 0))
    else if a == TAtom && b == TInt then w == IntV(0)
    else w == Invalid
  }

  lemma ConvertCasts(casts: Casts, v: Value, a: ValueType, b: ValueType)
    ensures IsCast(casts, v, a, b, Convert(casts, v, a, b))
  {
  }

  /** A field whose name the new declaration keeps stays where it is: untouched
      under the same type, cast once under another. */
  lemma KeptFieldLaw(casts: Casts, p: Pair, ms: seq<FieldMigration>, fields: map<U32, Value>, f: U32, g: nat)
    requires ClearPair(p) && KindPlan(p, ms)
    requires f in fields && SameName(p, f, g)
    ensures var r := ApplyEach(casts, fields, ms);
      && f in r
      && if p.from[f].ftype == p.to[g].ftype then r[f] == fields[f]
         else IsCast(casts, fields[f], p.from[f].ftype, p.to[g].ftype, r[f])
  {
    hide ApplyEach, FieldsByName, OldName, NewName, Clear, ClearPair, Removals, Additions, Convert, SameName, PhaseList, IsCast;
    InBounds(p, f, g);
    KeptIff(p, f);
    var x, y := ThreePhases(casts, p, ms, fields, f);
    ConvertCasts(casts, fields[f], p.from[f].ftype, p.to[g].ftype);
    OldPlace(p, f);
  }

  /** The three phases, one after the other. */
  lemma ThreePhases(casts: Casts, p: Pair, ms: seq<FieldMigration>, fields: map<U32, Value>, f: U32)
    returns (x: map<U32, Value>, y: map<U32, Value>)
    requires ClearPair(p) && KindPlan(p, ms)
    ensures if f < |p.from| && Gone(p, OldName(p, f)) then f !in x else SameAt(x, fields, f)
    ensures if f in x then SameAt(y, x, f)
      else (f in y <==> f < |p.to| && Fresh(p, NewName(p, f))) && (f in y ==> y[f] == Invalid)
    ensures var r := ApplyEach(casts, fields, ms);
      && (f in r <==> f in y)
      && (f in r ==> r[f] == RetypedTo(casts, p, p.FromNames().Keys, y[f], f))
  {
    hide ApplyEach, FieldsByName, OldName, NewName, Clear, ClearPair, RetypedTo, SameAt, PhaseList, Gone, Fresh;
    var a, b, c := PhaseList(p, Removing, p.FromNames().Keys), PhaseList(p, Adding, p.ToNames().Keys),
      PhaseList(p, Retyping, p.FromNames().Keys);
    assert ms == a + b + c;
    ApplyAppend(casts, fields, a + b, c);
    ApplyAppend(casts, fields, a, b);
    x := ApplyEach(casts, fields, a);
    y := ApplyEach(casts, x, b);
    RemovalPhase(casts, p, a, fields, f);
    AdditionPhase(casts, p, b, x, f);
    RetypedOnce(casts, p, p.FromNames().Keys, y, f);
  }

  /** A field whose name is gone is removed; if the new declaration introduces a
      field at its place, that one is there instead, Invalid. */
  lemma DiscardedFieldLaw(casts: Casts, p: Pair, ms: seq<FieldMigration>, fields: map<U32, Value>, f: U32)
    requires ClearPair(p) && KindPlan(p, ms)
    requires Discarded(p, f)
    ensures var r := ApplyEach(casts, fields, ms);
      && (f in r <==> Introduced(p, f))
      && (f in r ==> r[f] == Invalid)
  {
    hide ApplyEach, FieldsByName, OldName, NewName, Clear, ClearPair, Convert, SameName, PhaseList;
    KeptIff(p, f);
    if f < |p.to| {
      FreshIff(p, f);
    }
    var x, y := ThreePhases(casts, p, ms, fields, f);
  }

  /** A place the node has no value at gets one only if the new declaration
      introduces a field there: Invalid, or, if the old field of that place is
      kept under another type, what that makes of an Invalid. */
  lemma UnsetFieldLaw(casts: Casts, p: Pair, ms: seq<FieldMigration>, fields: map<U32, Value>, f: U32)
    requires ClearPair(p) && KindPlan(p, ms)
    requires f !in fields
    ensures var r := ApplyEach(casts, fields, ms);
      && (f in r <==> Introduced(p, f))
      && (f in r && (forall g: nat :: SameName(p, f, g) ==> p.to[g].ftype == p.from[f].ftype) ==> r[f] == Invalid)
      && (forall g: nat :: f in r && SameName(p, f, g) && p.to[g].ftype != p.from[f].ftype ==>
            IsCast(casts, Invalid, p.from[f].ftype, p.to[g].ftype, r[f]))
  {
    hide ApplyEach, FieldsByName, OldName, NewName, Clear, ClearPair, Convert, SameName, PhaseList, IsCast;
    if f < |p.to| {
      FreshIff(p, f);
    }
    if f < |p.from| {
      KeptIff(p, f);
      OldPlace(p, f);
    }
    var x, y := ThreePhases(casts, p, ms, fields, f);
    var r := ApplyEach(casts, fields, ms);
    forall g: nat | SameName(p, f, g) ensures f < |p.from| && g < |p.to| {
      InBounds(p, f, g);
    }
    forall g: nat | f in r && SameName(p, f, g) && p.to[g].ftype != p.from[f].ftype
      ensures IsCast(casts, Invalid, p.from[f].ftype, p.to[g].ftype, r[f])
    {
      InBounds(p, f, g);
      ConvertCasts(casts, Invalid, p.from[f].ftype, p.to[g].ftype);
    }
  }

  // ----- what a plan records -----

  /** A removal names the old place, name and type ... */
  ghost predicate IsRemoval(p: Pair, m: FieldMigration, f: nat) {
    && Discarded(p, f) && f < TWO32
    && m == FieldMigration(RemoveField, p.kind, f, p.from[f].name, INVALID_ATOM, p.from[f].ftype, TInvalid, Invalid)
  }

  /** ... an addition the new place, name and type ... */
  ghost predicate IsAddition(p: Pair, m: FieldMigration, g: nat) {
    && Introduced(p, g) && g < TWO32
    && m == FieldMigration(AddField, p.kind, g, INVALID_ATOM, p.to[g].name, TInvalid, p.to[g].ftype, Invalid)
  }

  /** ... and a conversion the old place and both names and types. */
  ghost predicate IsConversion(p: Pair, m: FieldMigration, f: nat, g: nat) {
    && SameName(p, f, g) && p.from[f].ftype != p.to[g].ftype && f < TWO32
    && m == FieldMigration(ChangeType, p.kind, f, p.from[f].name, p.to[g].name, p.from[f].ftype, p.to[g].ftype, Invalid)
  }

  /** A kind's plan records a removal for each field discarded, an addition for
      each introduced and a conversion for each kept under another type, no others. */
  lemma PlanRecords(p: Pair, ms: seq<FieldMigration>)
    requires ClearPair(p) && KindPlan(p, ms)
    ensures forall m :: m in ms <==>
      (exists f: nat :: IsRemoval(p, m, f)) || (exists g: nat :: IsAddition(p, m, g)) || (exists f: nat, g: nat :: IsConversion(p, m, f, g))
  {
    hide *;
    var a, b, c := Split(p, ms);
    forall m ensures m in a <==> exists f: nat :: IsRemoval(p, m, f) {
      RemovalIff(p, a, m);
    }
    forall m ensures m in b <==> exists g: nat :: IsAddition(p, m, g) {
      AdditionIff(p, b, m);
    }
    forall m ensures m in c <==> exists f: nat, g: nat :: IsConversion(p, m, f, g) {
      ConversionIff(p, c, m);
    }
  }

  lemma RemovalIff(p: Pair, ms: seq<FieldMigration>, m: FieldMigration)
    requires ClearPair(p) && Removals(p, ms)
    ensures m in ms <==> exists f: nat :: IsRemoval(p, m, f)
  {
    hide FieldsByName, OldName, NewName, Clear, ClearPair, SameName, Removals, Gone, PhaseList;
    if m in ms {
      RemovalsListed(p, ms);
      var s :| Gone(p, s) && m == RemoveNamed(p, s);
      RemovalNames(p, ms, m);
      OldIsRemoved(p, m.field, s, m);
      assert IsRemoval(p, m, m.field);
    }
    if f: nat :| IsRemoval(p, m, f) {
      KeptIff(p, f);
      RemovalListed(p, ms, f);
      OldIsRemoved(p, f, OldName(p, f), RemoveNamed(p, OldName(p, f)));
    }
  }

  lemma OldIsRemoved(p: Pair, f: U32, s: Text, m: FieldMigration)
    requires ClearPair(p) && Gone(p, s) && m == RemoveNamed(p, s) && m.field == f
    ensures IsRemoval(p, m, f)
  {
    hide Clear, ClearPair, FieldsByName, OldName, SameName;
    OldNamed(p, s);
    KeptIff(p, f);
  }

  lemma AdditionIff(p: Pair, ms: seq<FieldMigration>, m: FieldMigration)
    requires ClearPair(p) && Additions(p, ms)
    ensures m in ms <==> exists g: nat :: IsAddition(p, m, g)
  {
    hide FieldsByName, OldName, NewName, Clear, ClearPair, SameName, Additions, Fresh, PhaseList;
    if m in ms {
      AdditionsListed(p, ms);
      var s :| Fresh(p, s) && m == AddNamed(p, s);
      NewIsAdded(p, m.field, s, m);
      assert IsAddition(p, m, m.field);
    }
    if g: nat :| IsAddition(p, m, g) {
      FreshIff(p, g);
      AdditionListed(p, ms, g);
      NewIsAdded(p, g, NewName(p, g), AddNamed(p, NewName(p, g)));
    }
  }

  lemma NewIsAdded(p: Pair, g: U32, s: Text, m: FieldMigration)
    requires ClearPair(p) && Fresh(p, s) && m == AddNamed(p, s) && m.field == g
    ensures IsAddition(p, m, g)
  {
    hide Clear, ClearPair, FieldsByName, NewName, SameName;
    NewNamed(p, s);
    FreshIff(p, g);
  }

  lemma ConversionIff(p: Pair, ms: seq<FieldMigration>, m: FieldMigration)
    requires ClearPair(p) && Retypings(p, ms)
    ensures m in ms <==> exists f: nat, g: nat :: IsConversion(p, m, f, g)
  {
    hide FieldsByName, OldName, NewName, Clear, ClearPair, SameName, Retypings, PhaseList;
    if m in ms {
      RetypingsListed(p, ms);
      var s :| Retyped(p, s) && m == RetypeNamed(p, s);
      OldIsRetyped(p, s, m);
    }
    if f: nat, g: nat :| IsConversion(p, m, f, g) {
      InBounds(p, f, g);
      KeptIff(p, f);
      OldPlace(p, f);
      RetypingListed(p, ms, f);
    }
  }

  lemma OldIsRetyped(p: Pair, s: Text, m: FieldMigration)
    requires ClearPair(p) && Retyped(p, s) && m == RetypeNamed(p, s)
    ensures IsConversion(p, m, p.FromNames()[s], p.ToNames()[s])
  {
    hide Clear, ClearPair, FieldsByName, NewName, OldName, SameName;
    var f, g := p.FromNames()[s], p.ToNames()[s];
    OldNamed(p, s);
    NewNamed(p, s);
    SameNameIff(p, f, g);
  }

  // ----- in which order -----

  /** The field name a migration is about. */
  function Title(p: Pair, m: FieldMigration): Text {
    if m.change == AddField then if m.newName < |p.toAtoms| then p.toAtoms[m.newName] else []
    else if m.oldName < |p.fromAtoms| then p.fromAtoms[m.oldName] else []
  }

  function Rank(c: Change): nat {
    match c
    case RemoveField => 0
    case AddField => 1
    case ChangeType => 2
    case RenameField => 3
  }

  ghost predicate Precedes(p: Pair, m: FieldMigration, n: FieldMigration) {
    Rank(m.change) < Rank(n.change) || (m.change == n.change && Before(Title(p, m), Title(p, n)))
  }

  function ChangeOf(phase: Phase): Change {
    match phase
    case Removing => RemoveField
    case Adding => AddField
    case Retyping => ChangeType
  }

  ghost predicate InPhase(p: Pair, phase: Phase, keys: set<Text>, m: FieldMigration) {
    Title(p, m) in keys && m.change == ChangeOf(phase)
  }

  ghost predicate InOrder(p: Pair, ms: seq<FieldMigration>) {
    forall i, j :: 0 <= i < j < |ms| ==> Precedes(p, ms[i], ms[j])
  }

  lemma NamedHasTitle(p: Pair, phase: Phase, s: Text)
    requires Due(p, phase, s)
    ensures Title(p, Named(p, phase, s)) == s && Named(p, phase, s).change == ChangeOf(phase)
  {
  }

  lemma FirstPrecedes(p: Pair, m: FieldMigration, rest: seq<FieldMigration>)
    requires InOrder(p, rest) && forall n :: n in rest ==> Precedes(p, m, n)
    ensures InOrder(p, [m] + rest)
  {
    hide Precedes;
    forall i, j | 0 <= i < j < |[m] + rest| ensures Precedes(p, ([m] + rest)[i], ([m] + rest)[j]) {
      assert ([m] + rest)[j] == rest[j - 1];
      if i > 0 {
        assert ([m] + rest)[i] == rest[i - 1];
      }
    }
  }

  lemma {:induction false} PhaseInOrder(p: Pair, phase: Phase, keys: set<Text>)
    ensures InOrder(p, PhaseList(p, phase, keys))
    ensures forall m :: m in PhaseList(p, phase, keys) ==> InPhase(p, phase, keys, m)
    decreases |keys|
  {
    hide Due, Named, Title, Before;
    if keys != {} {
      var s := Earliest(keys);
      var rest := PhaseList(p, phase, keys - {s});
      PhaseInOrder(p, phase, keys - {s});
      if Due(p, phase, s) {
        NamedHasTitle(p, phase, s);
        assert PhaseList(p, phase, keys) == [Named(p, phase, s)] + rest;
        FirstPrecedes(p, Named(p, phase, s), rest);
      } else {
        assert PhaseList(p, phase, keys) == [] + rest == rest;
      }
    }
  }

  lemma OrderedAppend(p: Pair, a: seq<FieldMigration>, b: seq<FieldMigration>)
    requires InOrder(p, a) && InOrder(p, b)
    requires forall m, n :: m in a && n in b ==> Rank(m.change) < Rank(n.change)
    ensures InOrder(p, a + b)
  {
    hide Title, Before, Rank;
    forall i, j | 0 <= i < j < |a + b| ensures Precedes(p, (a + b)[i], (a + b)[j]) {
      if i < |a| && |a| <= j {
        assert a[i] in a && b[j - |a|] in b;
      }
    }
  }

  /** Removals come first, then additions, then conversions, each in the order
      of the field names; so none is recorded twice. */
  lemma PlanInOrder(p: Pair, ms: seq<FieldMigration>)
    requires KindPlan(p, ms)
    ensures forall i, j :: 0 <= i < j < |ms| ==> Precedes(p, ms[i], ms[j])
  {
    hide PhaseList, Title, Before, FieldsByName, Precedes;
    var from, to := p.FromNames().Keys, p.ToNames().Keys;
    PhaseInOrder(p, Removing, from);
    PhaseInOrder(p, Adding, to);
    PhaseInOrder(p, Retyping, from);
    var a, b, c := PhaseList(p, Removing, from), PhaseList(p, Adding, to), PhaseList(p, Retyping, from);
    OrderedAppend(p, a, b);
    OrderedAppend(p, a + b, c);
  }

  /** A kind that is gone loses its fields one by one in declaration order, and
      a new kind's are added so, under no kind. */
  lemma {:induction false} WholeKindEntries(kind: U32, fields: seq<FieldDef>, n: nat)
    requires n <= |fields| < TWO32
    ensures |RemoveAll(kind, fields, n)| == n == |AddAll(kind, fields, n)|
    ensures forall f: nat :: f < n ==>
      RemoveAll(kind, fields, n)[f] == FieldMigration(RemoveField, kind, f, fields[f].name, INVALID_ATOM, fields[f].ftype, TInvalid, Invalid)
    ensures forall f: nat :: f < n ==>
      AddAll(kind, fields, n)[f] == FieldMigration(AddField, kind, f, INVALID_ATOM, fields[f].name, TInvalid, fields[f].ftype, Invalid)
  {
    if n > 0 {
      WholeKindEntries(kind, fields, n - 1);
    }
  }
}
