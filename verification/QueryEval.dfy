/** Evaluating a query expression over the node table. */
module QueryEval {
  import opened Basics
  import opened Model
  import opened Atoms
  import opened QueryLexer
  import opened QueryParser

  /** What the engine is given, read-only. */
  datatype Engine = Engine(atoms: seq<Text>, schema: Schema, nodes: seq<Node>)

  function ApplyCmp(op: CmpOp, lhs: int, rhs: int): bool {
    match op
    case Eq => lhs == rhs
    case Neq => lhs != rhs
    case Lt => lhs < rhs
    case Gt => lhs > rhs
    case Le => lhs <= rhs
    case Ge => lhs >= rhs
  }

  /** The first field of a kind with this name. */
  function FieldNamed(fields: seq<FieldDef>, name: U32): (r: Option<nat>)
    ensures r.Some? ==> r.value < |fields| && fields[r.value].name == name
    ensures r.Some? ==> forall k :: 0 <= k < r.value ==> fields[k].name != name
    ensures r.None? ==> forall k :: 0 <= k < |fields| ==> fields[k].name != name
  {
    if fields == [] then None
    else
      var m := |fields| - 1;
      var front := FieldNamed(fields[..m], name);
      if front.Some? then front else if fields[m].name == name then Some(m) else None
  }

  /** Whether some listed id names a live node of that name. */
  predicate Lists(nodes: seq<Node>, ids: seq<nat>, name: nat) {
    exists j :: 0 <= j < |ids| && ids[j] < |nodes| && nodes[ids[j]].alive && nodes[ids[j]].name == name
  }

  function CompareValue(q: Engine, v: Value, op: CmpOp, rhs: Rhs): bool {
    match rhs
    case TextRhs(text) =>
      v.AtomV? && FirstIndex(q.atoms, text).Some? && ApplyCmp(op, v.atom, FirstIndex(q.atoms, text).value)
    case IntRhs(i) =>
      match v
      case IntV(stored) => ApplyCmp(op, stored, i)
      case RefV(n) => ApplyCmp(op, n, i)
      case AtomV(a) => ApplyCmp(op, a, i)
      case _ => false
  }

  function Eval(q: Engine, e: Expr, n: Node): bool {
    match e
    case True => true
    case AnyAlive => true
    case And(l, r) => Eval(q, l, n) && Eval(q, r, n)
    case Or(l, r) => Eval(q, l, n) || Eval(q, r, n)
    case Not(x) => !Eval(q, x, n)
    case KindMatch(name) =>
      && FirstIndex(q.atoms, name).Some?
      && q.schema.HasKind(n.kind) && n.kind != INVALID_KIND
      && q.schema.kinds[n.kind].name == FirstIndex(q.atoms, name).value
    case FieldCmp(name, op, rhs) =>
      && q.schema.HasKind(n.kind) && n.kind != INVALID_KIND
      && FirstIndex(q.atoms, name).Some? && FirstIndex(q.atoms, name).value < TWO32
      && var f := FieldNamed(q.schema.kinds[n.kind].fields, FirstIndex(q.atoms, name).value);
         f.Some? && f.value < TWO32 && f.value in n.fields && CompareValue(q, n.fields[f.value], op, rhs)
    case HasChild(name) =>
      FirstIndex(q.atoms, name).Some? && Lists(q.nodes, n.children, FirstIndex(q.atoms, name).value)
    case HasRef(name) =>
      FirstIndex(q.atoms, name).Some? && Lists(q.nodes, n.refs, FirstIndex(q.atoms, name).value)
    case Literal => false
  }

  /** The live matches among the first i nodes, in table order. */
  function Matches(q: Engine, e: Expr, i: nat): seq<nat>
    requires i <= |q.nodes|
  {
    if i == 0 then []
    else Matches(q, e, i - 1) + if q.nodes[i - 1].alive && Eval(q, e, q.nodes[i - 1]) then [q.nodes[i - 1].id] else []
  }

  function LiveIdsOf(nodes: seq<Node>, i: nat): seq<nat>
    requires i <= |nodes|
  {
    if i == 0 then [] else LiveIdsOf(nodes, i - 1) + if nodes[i - 1].alive then [nodes[i - 1].id] else []
  }

  /** The connectives mean what they say, at every node. */
  lemma Connectives(q: Engine, l: Expr, r: Expr, n: Node)
    ensures Eval(q, Not(l), n) <==> !Eval(q, l, n)
    ensures Eval(q, And(l, r), n) <==> Eval(q, l, n) && Eval(q, r, n)
    ensures Eval(q, Or(l, r), n) <==> Eval(q, l, n) || Eval(q, r, n)
  {
  }

  /** A query and its negation partition the live nodes. */
  lemma {:induction false} NegationPartitions(q: Engine, e: Expr, i: nat)
    requires i <= |q.nodes|
    ensures multiset(Matches(q, e, i)) + multiset(Matches(q, Not(e), i)) == multiset(LiveIdsOf(q.nodes, i))
    ensures |Matches(q, e, i)| + |Matches(q, Not(e), i)| == |LiveIdsOf(q.nodes, i)|
  {
    hide Eval, Matches, LiveIdsOf;
    if i == 0 {
      NoMatches(q, e);
      NoMatches(q, Not(e));
    } else {
      NegationPartitions(q, e, i - 1);
      var n := q.nodes[i - 1];
      Connectives(q, e, e, n);
      MatchesStep(q, e, i);
      MatchesStep(q, Not(e), i);
      if n.alive && Eval(q, e, n) {
        assert multiset(Matches(q, e, i)) == multiset(Matches(q, e, i - 1)) + multiset{n.id};
      } else if n.alive {
        assert multiset(Matches(q, Not(e), i)) == multiset(Matches(q, Not(e), i - 1)) + multiset{n.id};
      }
    }
  }

  lemma NoMatches(q: Engine, e: Expr)
    ensures Matches(q, e, 0) == [] == LiveIdsOf(q.nodes, 0)
  {
  }

  lemma MatchesStep(q: Engine, e: Expr, i: nat)
    requires 0 < i <= |q.nodes|
    ensures var n := q.nodes[i - 1];
            && Matches(q, e, i) == (if n.alive && Eval(q, e, n) then Matches(q, e, i - 1) + [n.id] else Matches(q, e, i - 1))
            && LiveIdsOf(q.nodes, i) == (if n.alive then LiveIdsOf(q.nodes, i - 1) + [n.id] else LiveIdsOf(q.nodes, i - 1))
  {
    hide Eval;
  }

  /** De Morgan, as answers: the same ids in the same order. */
  lemma {:induction false} DeMorgan(q: Engine, l: Expr, r: Expr, i: nat)
    requires i <= |q.nodes|
    ensures Matches(q, Not(Or(l, r)), i) == Matches(q, And(Not(l), Not(r)), i)
    ensures Matches(q, Not(And(l, r)), i) == Matches(q, Or(Not(l), Not(r)), i)
  {
    hide Eval;
    if i > 0 {
      DeMorgan(q, l, r, i - 1);
      var n := q.nodes[i - 1];
      Connectives(q, l, r, n);
      Connectives(q, r, l, n);
      Connectives(q, Not(l), Not(r), n);
      Connectives(q, Or(l, r), And(l, r), n);
      Connectives(q, And(l, r), Or(l, r), n);
    }
  }

  /** Against any integer at most one of <, =, > holds, and each of the other
      three operators is the union of two of them. */
  lemma ComparisonsPartition(q: Engine, field: Text, v: I64, n: Node)
    ensures var lt, eq, gt := Eval(q, FieldCmp(field, Lt, IntRhs(v)), n), Eval(q, FieldCmp(field, Eq, IntRhs(v)), n),
                              Eval(q, FieldCmp(field, Gt, IntRhs(v)), n);
            var le, neq, ge := Eval(q, FieldCmp(field, Le, IntRhs(v)), n), Eval(q, FieldCmp(field, Neq, IntRhs(v)), n),
                               Eval(q, FieldCmp(field, Ge, IntRhs(v)), n);
            && !(lt && eq) && !(eq && gt) && !(lt && gt)
            && (le <==> lt || eq) && (ge <==> gt || eq) && (neq <==> lt || gt)
  {
  }

  /** A node id is reported exactly when its node is live and satisfies the query. */
  lemma {:induction false} MatchesExactly(q: Engine, e: Expr, i: nat)
    requires i <= |q.nodes| && forall k :: 0 <= k < |q.nodes| ==> q.nodes[k].id == k
    ensures forall k: nat :: k in Matches(q, e, i) <==> k < i && q.nodes[k].alive && Eval(q, e, q.nodes[k])
    ensures forall a, b :: 0 <= a < b < |Matches(q, e, i)| ==> Matches(q, e, i)[a] < Matches(q, e, i)[b]
  {
    hide Eval;
    if i > 0 {
      MatchesExactly(q, e, i - 1);
      var front := Matches(q, e, i - 1);
      assert forall a :: 0 <= a < |front| ==> front[a] in front;
    }
  }

  datatype QueryResult = QueryResult(nodes: seq<nat>, scanned: nat, matched: nat)

  /** Scan every slot; report the live ones that match. */
  method Execute(q: Engine, e: Expr) returns (r: QueryResult)
    ensures r.nodes == Matches(q, e, |q.nodes|) && r.matched == |r.nodes| && r.scanned == |q.nodes|
  {
    var found: seq<nat>, matched, i := [], 0, 0;
    while i < |q.nodes|
      invariant 0 <= i <= |q.nodes|
      invariant found == Matches(q, e, i) && matched == |found|
    {
      var n := q.nodes[i];
      if n.alive && Eval(q, e, n) {
        matched := matched + 1;
        found := found + [n.id];
      }
      i := i + 1;
    }
    return QueryResult(found, |q.nodes|, matched);
  }

  /** Parse and execute; a query that does not parse finds nothing. */
  method ExecuteText(q: Engine, text: Text) returns (r: QueryResult)
    ensures match ParseQuery(text)
            case Ok(e) => r == QueryResult(Matches(q, e, |q.nodes|), |q.nodes|, |Matches(q, e, |q.nodes|)|)
            case Err(_) => r == QueryResult([], 0, 0)
  {
    var parsed := RunQuery(text);
    if parsed.Err? {
      return QueryResult([], 0, 0);
    }
    r := Execute(q, parsed.value);
  }
}
