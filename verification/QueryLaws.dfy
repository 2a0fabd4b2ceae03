/** What each kind of query answers, told in terms of the atom pool, the schema
    and the nodes alone. */
module QueryLaws {
  import opened Basics
  import opened Model
  import opened Atoms
  import opened QueryLexer
  import opened QueryParser
  import opened QueryEval

  // ----- vocabulary -----

  /** Atom a is where the text first stands in the pool. */
  predicate IsAtom(q: Engine, text: Text, a: nat) {
    a < |q.atoms| && q.atoms[a] == text && forall b :: 0 <= b < a ==> q.atoms[b] != text
  }

  /** The node's kind declares a field of that name, first at position f, and
      the node stores something there. */
  predicate StoresAt(q: Engine, n: Node, name: Text, f: nat): (stores: bool)
    ensures stores ==> f < TWO32 && f in n.fields
  {
    && n.kind < |q.schema.kinds|
    && var fields := q.schema.kinds[n.kind].fields;
       && f < |fields| && f < TWO32 && f in n.fields && IsAtom(q, name, fields[f].name)
       && forall g :: 0 <= g < f ==> fields[g].name != fields[f].name
  }

  /** The integer, reference or atom number a value carries. */
  predicate IsNumber(v: Value, w: int) {
    (v.IntV? && v.i == w) || (v.RefV? && v.ref == w) || (v.AtomV? && v.atom == w)
  }

  /** The named field holds the number w. */
  ghost predicate StoresNumber(q: Engine, n: Node, name: Text, w: int) {
    exists f: nat :: StoresAt(q, n, name, f) && IsNumber(n.fields[f], w)
  }

  /** The named field holds an atom, numbered w. */
  ghost predicate StoresAtom(q: Engine, n: Node, name: Text, w: int) {
    exists f: nat :: StoresAt(q, n, name, f) && n.fields[f].AtomV? && n.fields[f].atom == w
  }

  /** Kind and atom ids are 32-bit, and node ids are positions. */
  ghost predicate Usual(q: Engine) {
    q.schema.Fits() && |q.atoms| < TWO32 && forall k :: 0 <= k < |q.nodes| ==> q.nodes[k].id == k
  }

  function Answers(q: Engine, e: Expr): seq<nat> {
    Matches(q, e, |q.nodes|)
  }

  predicate Live(q: Engine, k: nat) {
    k < |q.nodes| && q.nodes[k].alive
  }

  lemma AnswersAre(q: Engine, e: Expr, k: nat)
    requires Usual(q)
    ensures k in Answers(q, e) <==> Live(q, k) && Eval(q, e, q.nodes[k])
  {
    hide Eval, Matches;
    MatchesExactly(q, e, |q.nodes|);
  }

  lemma AtomIff(q: Engine, text: Text)
    ensures forall a: nat :: IsAtom(q, text, a) <==> FirstIndex(q.atoms, text) == Some(a)
  {
    hide FirstIndex;
    forall a: nat | IsAtom(q, text, a) ensures FirstIndex(q.atoms, text) == Some(a) {
      assert text in q.atoms;
    }
  }

  // ----- comparing a field -----

  /** The one field a comparison looks at. */
  lemma ComparedField(q: Engine, n: Node, name: Text)
    requires q.schema.Fits() && |q.atoms| < TWO32
    ensures forall f: nat :: StoresAt(q, n, name, f) <==>
      && q.schema.HasKind(n.kind) && n.kind != INVALID_KIND
      && FirstIndex(q.atoms, name).Some? && FirstIndex(q.atoms, name).value < TWO32
      && FieldNamed(q.schema.kinds[n.kind].fields, FirstIndex(q.atoms, name).value) == Some(f)
      && f < TWO32 && f in n.fields
  {
    hide FirstIndex, FieldNamed;
    AtomIff(q, name);
  }

  /** A comparison holds at a node exactly when the field it names compares. */
  lemma ComparisonMeans(q: Engine, n: Node, name: Text, op: CmpOp, rhs: Rhs)
    requires q.schema.Fits() && |q.atoms| < TWO32
    ensures Eval(q, FieldCmp(name, op, rhs), n) <==>
      exists f: nat :: StoresAt(q, n, name, f) && CompareValue(q, n.fields[f], op, rhs)
  {
    ComparedField(q, n, name);
    hide StoresAt, CompareValue, FirstIndex, FieldNamed;
    if Eval(q, FieldCmp(name, op, rhs), n) {
      var f := FieldNamed(q.schema.kinds[n.kind].fields, FirstIndex(q.atoms, name).value).value;
      assert StoresAt(q, n, name, f);
    }
  }

  lemma NumberCompares(q: Engine, stored: Value, op: CmpOp, v: I64)
    ensures CompareValue(q, stored, op, IntRhs(v)) <==> exists w: int :: IsNumber(stored, w) && ApplyCmp(op, w, v)
  {
    hide ApplyCmp;
    match stored
    case IntV(i) => assert IsNumber(stored, i);
    case RefV(n) => assert IsNumber(stored, n);
    case AtomV(a) => assert IsNumber(stored, a);
    case _ =>
  }

  lemma NumberOperator(q: Engine, name: Text, op: CmpOp, v: I64, k: nat)
    requires Usual(q) && k < |q.nodes|
    ensures k in Answers(q, FieldCmp(name, op, IntRhs(v))) <==>
      q.nodes[k].alive && exists w: int :: StoresNumber(q, q.nodes[k], name, w) && ApplyCmp(op, w, v)
  {
    hide ApplyCmp, CompareValue, Eval, Answers, StoresAt, IsNumber;
    var n := q.nodes[k];
    AnswersAre(q, FieldCmp(name, op, IntRhs(v)), k);
    ComparisonMeans(q, n, name, op, IntRhs(v));
    if f: nat :| StoresAt(q, n, name, f) && CompareValue(q, n.fields[f], op, IntRhs(v)) {
      NumberCompares(q, n.fields[f], op, v);
      var w: int :| IsNumber(n.fields[f], w) && ApplyCmp(op, w, v);
      assert StoresNumber(q, n, name, w);
    }
    if w: int :| StoresNumber(q, n, name, w) && ApplyCmp(op, w, v) {
      var f: nat :| StoresAt(q, n, name, f) && IsNumber(n.fields[f], w);
      NumberCompares(q, n.fields[f], op, v);
    }
  }

  /** `field:name op v` answers the live nodes whose field of that name stores
      an integer, reference or atom number in that relation to v. */
  lemma NumberQueryLaw(q: Engine, name: Text, v: I64, k: nat)
    requires Usual(q) && k < |q.nodes|
    ensures var n := q.nodes[k];
      && (k in Answers(q, FieldCmp(name, Lt, IntRhs(v))) <==> n.alive && exists w: int :: StoresNumber(q, n, name, w) && w < v)
      && (k in Answers(q, FieldCmp(name, Gt, IntRhs(v))) <==> n.alive && exists w: int :: StoresNumber(q, n, name, w) && w > v)
      && (k in Answers(q, FieldCmp(name, Le, IntRhs(v))) <==> n.alive && exists w: int :: StoresNumber(q, n, name, w) && w <= v)
      && (k in Answers(q, FieldCmp(name, Ge, IntRhs(v))) <==> n.alive && exists w: int :: StoresNumber(q, n, name, w) && w >= v)
      && (k in Answers(q, FieldCmp(name, Eq, IntRhs(v))) <==> n.alive && exists w: int :: StoresNumber(q, n, name, w) && w == v)
      && (k in Answers(q, FieldCmp(name, Neq, IntRhs(v))) <==> n.alive && exists w: int :: StoresNumber(q, n, name, w) && w != v)
  {
    hide StoresNumber, Answers;
    NumberOperator(q, name, Lt, v, k);
    NumberOperator(q, name, Gt, v, k);
    NumberOperator(q, name, Le, v, k);
    NumberOperator(q, name, Ge, v, k);
    NumberOperator(q, name, Eq, v, k);
    NumberOperator(q, name, Neq, v, k);
  }

  /** The field stores atom number w, and the text is atom number a. */
  ghost predicate AtomAgainst(q: Engine, n: Node, name: Text, text: Text, w: int, a: nat) {
    StoresAtom(q, n, name, w) && IsAtom(q, text, a)
  }

  lemma TextOperator(q: Engine, name: Text, op: CmpOp, text: Text, k: nat)
    requires Usual(q) && k < |q.nodes|
    ensures k in Answers(q, FieldCmp(name, op, TextRhs(text))) <==>
      q.nodes[k].alive && exists w: int, a: nat :: AtomAgainst(q, q.nodes[k], name, text, w, a) && ApplyCmp(op, w, a)
  {
    AtomIff(q, text);
    hide ApplyCmp, Eval, Answers, StoresAt, IsAtom, FirstIndex;
    var n := q.nodes[k];
    AnswersAre(q, FieldCmp(name, op, TextRhs(text)), k);
    ComparisonMeans(q, n, name, op, TextRhs(text));
    if f: nat :| StoresAt(q, n, name, f) && CompareValue(q, n.fields[f], op, TextRhs(text)) {
      assert AtomAgainst(q, n, name, text, n.fields[f].atom, FirstIndex(q.atoms, text).value);
    }
    if w: int, a: nat :| AtomAgainst(q, n, name, text, w, a) && ApplyCmp(op, w, a) {
      var f: nat :| StoresAt(q, n, name, f) && n.fields[f].AtomV? && n.fields[f].atom == w;
      assert CompareValue(q, n.fields[f], op, TextRhs(text));
    }
  }

  /** `field:name op "text"` answers the live nodes whose field of that name
      stores an atom in that relation to the text's own atom; with a text that
      is no atom, none. */
  lemma TextQueryLaw(q: Engine, name: Text, text: Text, k: nat)
    requires Usual(q) && k < |q.nodes|
    ensures var n := q.nodes[k];
      && (k in Answers(q, FieldCmp(name, Eq, TextRhs(text))) <==>
            n.alive && exists w: int, a: nat :: AtomAgainst(q, n, name, text, w, a) && w == a)
      && (k in Answers(q, FieldCmp(name, Neq, TextRhs(text))) <==>
            n.alive && exists w: int, a: nat :: AtomAgainst(q, n, name, text, w, a) && w != a)
      && (k in Answers(q, FieldCmp(name, Lt, TextRhs(text))) <==>
            n.alive && exists w: int, a: nat :: AtomAgainst(q, n, name, text, w, a) && w < a)
      && (k in Answers(q, FieldCmp(name, Gt, TextRhs(text))) <==>
            n.alive && exists w: int, a: nat :: AtomAgainst(q, n, name, text, w, a) && w > a)
      && (k in Answers(q, FieldCmp(name, Le, TextRhs(text))) <==>
            n.alive && exists w: int, a: nat :: AtomAgainst(q, n, name, text, w, a) && w <= a)
      && (k in Answers(q, FieldCmp(name, Ge, TextRhs(text))) <==>
            n.alive && exists w: int, a: nat :: AtomAgainst(q, n, name, text, w, a) && w >= a)
  {
    hide AtomAgainst, Answers;
    TextOperator(q, name, Eq, text, k);
    TextOperator(q, name, Neq, text, k);
    TextOperator(q, name, Lt, text, k);
    TextOperator(q, name, Gt, text, k);
    TextOperator(q, name, Le, text, k);
    TextOperator(q, name, Ge, text, k);
  }

  // ----- the other queries -----

  /** A listed id names a live node whose name is the text's atom. */
  predicate NamesLive(q: Engine, ids: seq<nat>, text: Text, j: nat) {
    j < |ids| && ids[j] < |q.nodes| && q.nodes[ids[j]].alive && IsAtom(q, text, q.nodes[ids[j]].name)
  }

  /** `kind:name` answers the live nodes of a kind of that name; `has_child` and
      `has_ref` those with a live child, or referenced node, of that name. */
  lemma NameQueryLaw(q: Engine, name: Text, k: nat)
    requires Usual(q) && k < |q.nodes|
    ensures var n := q.nodes[k];
      && (k in Answers(q, KindMatch(name)) <==>
            n.alive && n.kind < |q.schema.kinds| && IsAtom(q, name, q.schema.kinds[n.kind].name))
      && (k in Answers(q, HasChild(name)) <==> n.alive && exists j: nat :: NamesLive(q, n.children, name, j))
      && (k in Answers(q, HasRef(name)) <==> n.alive && exists j: nat :: NamesLive(q, n.refs, name, j))
  {
    AtomIff(q, name);
    AnswersAre(q, KindMatch(name), k);
    AnswersAre(q, HasChild(name), k);
    AnswersAre(q, HasRef(name), k);
    hide Answers, IsAtom, FirstIndex;
    ListsMeans(q, q.nodes[k].children, name);
    ListsMeans(q, q.nodes[k].refs, name);
    hide QueryEval.Lists, NamesLive;
  }

  lemma ListsMeans(q: Engine, ids: seq<nat>, name: Text)
    ensures (FirstIndex(q.atoms, name).Some? && QueryEval.Lists(q.nodes, ids, FirstIndex(q.atoms, name).value))
      <==> exists j: nat :: NamesLive(q, ids, name, j)
  {
    AtomIff(q, name);
    hide IsAtom, FirstIndex;
    if FirstIndex(q.atoms, name).Some? && QueryEval.Lists(q.nodes, ids, FirstIndex(q.atoms, name).value) {
      var j :| 0 <= j < |ids| && ids[j] < |q.nodes| && q.nodes[ids[j]].alive
               && q.nodes[ids[j]].name == FirstIndex(q.atoms, name).value;
      assert NamesLive(q, ids, name, j);
    }
  }

  /** The connectives answer what they say among the live nodes, and `any` and
      `alive` all of them. */
  lemma ConnectiveLaw(q: Engine, l: Expr, r: Expr, k: nat)
    requires Usual(q)
    ensures k in Answers(q, And(l, r)) <==> k in Answers(q, l) && k in Answers(q, r)
    ensures k in Answers(q, Or(l, r)) <==> k in Answers(q, l) || k in Answers(q, r)
    ensures k in Answers(q, Not(l)) <==> Live(q, k) && k !in Answers(q, l)
    ensures k in Answers(q, AnyAlive) <==> Live(q, k)
    ensures k in Answers(q, True) <==> Live(q, k)
  {
    AnswersAre(q, And(l, r), k);
    AnswersAre(q, Or(l, r), k);
    AnswersAre(q, Not(l), k);
    AnswersAre(q, l, k);
    AnswersAre(q, r, k);
    AnswersAre(q, AnyAlive, k);
    AnswersAre(q, True, k);
    hide Answers;
  }
}
