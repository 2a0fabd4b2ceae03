/** The field index: lookups by value, presence or name, and their agreement
    with a linear scan of the node table and with the query engine. */
module FieldIndexing {
  import opened Basics
  import opened Model
  import opened Atoms
  import opened VmInvariants
  import opened QueryLexer
  import opened QueryParser
  import opened QueryEval

  // ----- linear scans -----

  /** Only live, defined nodes are indexed. */
  predicate Indexed(n: Node) {
    n.alive && !n.placeholder
  }

  predicate Holds(n: Node, kind: U32, field: U32, v: Value) {
    Indexed(n) && n.kind == kind && field in n.fields && n.fields[field] == v
  }

  predicate Has(n: Node, kind: U32, field: U32) {
    Indexed(n) && n.kind == kind && field in n.fields && n.fields[field] != Invalid
  }

  predicate Named(n: Node, name: U32) {
    Indexed(n) && n.name == name && name != INVALID_ATOM
  }

  /** The ids of the first i nodes holding a value, in table order. */
  function ScanValue(nodes: seq<Node>, i: nat, kind: U32, field: U32, v: Value): seq<nat>
    requires i <= |nodes|
  {
    if i == 0 then []
    else ScanValue(nodes, i - 1, kind, field, v) + if Holds(nodes[i - 1], kind, field, v) then [nodes[i - 1].id] else []
  }

  function ScanHas(nodes: seq<Node>, i: nat, kind: U32, field: U32): seq<nat>
    requires i <= |nodes|
  {
    if i == 0 then []
    else ScanHas(nodes, i - 1, kind, field) + if Has(nodes[i - 1], kind, field) then [nodes[i - 1].id] else []
  }

  function ScanName(nodes: seq<Node>, i: nat, name: U32): seq<nat>
    requires i <= |nodes|
  {
    if i == 0 then []
    else
      ScanName(nodes, i - 1, name) +
        if Named(nodes[i - 1], name) then [nodes[i - 1].id] else []
  }

  function CountIndexed(nodes: seq<Node>, i: nat): nat
    requires i <= |nodes|
  {
    if i == 0 then 0 else CountIndexed(nodes, i - 1) + if Indexed(nodes[i - 1]) then 1 else 0
  }

  /** One stored field, as listed under its node's kind. */
  datatype KindEntry = KindEntry(node: nat, field: U32, value: Value)

  /** A node's entries for some of its fields; invalid values have none. */
  ghost function EntriesOf(n: Node, fields: set<U32>): set<KindEntry> {
    set f | f in fields && f in n.fields && n.fields[f] != Invalid :: KindEntry(n.id, f, n.fields[f])
  }

  ghost function AllEntries(n: Node): set<KindEntry> {
    EntriesOf(n, n.fields.Keys)
  }

  predicate InKind(n: Node, kind: U32) {
    Indexed(n) && n.kind == kind
  }

  /** The list holds the entries of the first i nodes of a kind, nodes in table
      order, each node's entries once in some order. */
  ghost predicate ListsKind(nodes: seq<Node>, i: nat, kind: U32, entries: seq<KindEntry>)
    requires i <= |nodes|
  {
    if i == 0 then entries == []
    else if !InKind(nodes[i - 1], kind) then ListsKind(nodes, i - 1, kind, entries)
    else
      var all := AllEntries(nodes[i - 1]);
      && |all| <= |entries|
      && ListsKind(nodes, i - 1, kind, entries[..|entries| - |all|])
      && multiset(entries[|entries| - |all|..]) == multiset(all)
  }

  ghost function CountEntries(nodes: seq<Node>, i: nat): nat
    requires i <= |nodes|
  {
    if i == 0 then 0 else CountEntries(nodes, i - 1) + if Indexed(nodes[i - 1]) then |AllEntries(nodes[i - 1])| else 0
  }

  lemma EntriesGrow(n: Node, fields: set<U32>, f: U32)
    requires f in n.fields && f !in fields
    ensures var e := KindEntry(n.id, f, n.fields[f]);
      && e !in EntriesOf(n, fields)
      && EntriesOf(n, fields + {f}) == EntriesOf(n, fields) + if n.fields[f] != Invalid then {e} else {}
  {
  }

  lemma NothingScanned(nodes: seq<Node>)
    ensures forall k: U32, f: U32, v: Value :: ScanValue(nodes, 0, k, f, v) == []
    ensures forall k: U32, f: U32 :: ScanHas(nodes, 0, k, f) == []
    ensures forall a: U32 :: ScanName(nodes, 0, a) == []
    ensures CountIndexed(nodes, 0) == 0 && CountEntries(nodes, 0) == 0
    ensures forall k: U32 :: ListsKind(nodes, 0, k, [])
    ensures ScansTo(nodes, 0, Lookups(map[], map[], map[])) && NamesTo(nodes, 0, map[])
  {
  }

  /** What one more node adds to a kind's list. */
  lemma ListsKindStep(nodes: seq<Node>, i: nat, kind: U32, before: seq<KindEntry>, after: seq<KindEntry>)
    requires i < |nodes| && ListsKind(nodes, i, kind, before) && Listed(before, after, nodes[i], kind)
    ensures ListsKind(nodes, i + 1, kind, after)
  {
    hide AllEntries;
    if InKind(nodes[i], kind) {
      var all, block := AllEntries(nodes[i]), after[|before|..];
      assert |block| == |multiset(block)| == |multiset(all)| == |all|;
      assert after[..|after| - |all|] == before;
    }
  }

  /** The list has grown by one node's entries, if the node is of the kind. */
  ghost predicate Listed(before: seq<KindEntry>, after: seq<KindEntry>, n: Node, kind: U32) {
    if InKind(n, kind) then before <= after && multiset(after[|before|..]) == multiset(AllEntries(n))
    else after == before
  }

  /** What one more node adds to each scan. */
  lemma ScanSteps(nodes: seq<Node>, i: nat)
    requires i < |nodes|
    ensures var n := nodes[i];
            && (forall k: U32, f: U32, v: Value ::
                  ScanValue(nodes, i + 1, k, f, v) == Grown(ScanValue(nodes, i, k, f, v), Holds(n, k, f, v), n.id))
            && (forall k: U32, f: U32 :: ScanHas(nodes, i + 1, k, f) == Grown(ScanHas(nodes, i, k, f), Has(n, k, f), n.id))
            && (forall a: U32 :: ScanName(nodes, i + 1, a) ==
                  Grown(ScanName(nodes, i, a), Named(n, a), n.id))
            && CountIndexed(nodes, i + 1) == CountIndexed(nodes, i) + (if Indexed(n) then 1 else 0)
            && CountEntries(nodes, i + 1) == CountEntries(nodes, i) + (if Indexed(n) then |AllEntries(n)| else 0)
  {
  }

  function Grown(ids: seq<nat>, add: bool, id: nat): seq<nat> {
    if add then ids + [id] else ids
  }

  function ListAt<K, V>(m: map<K, seq<V>>, key: K): seq<V> {
    if key in m then m[key] else []
  }

  function Push<K(!new), V>(m: map<K, seq<V>>, key: K, v: V): (r: map<K, seq<V>>)
    ensures forall k :: ListAt(r, k) == if k == key then ListAt(m, k) + [v] else ListAt(m, k)
  {
    m[key := ListAt(m, key) + [v]]
  }

  /** The lookups keyed by field. */
  datatype Lookups = Lookups(
    ints: map<(U32, U32, I64), seq<nat>>,
    atoms: map<(U32, U32, U32), seq<nat>>,
    has: map<(U32, U32), seq<nat>>)

  /** Each lookup answers what a scan of the first i nodes would. */
  ghost predicate ScansTo(nodes: seq<Node>, i: nat, t: Lookups)
    requires i <= |nodes|
  {
    && (forall k: U32, f: U32, v: I64 :: ListAt(t.ints, (k, f, v)) == ScanValue(nodes, i, k, f, IntV(v)))
    && (forall k: U32, f: U32, a: U32 :: ListAt(t.atoms, (k, f, a)) == ScanValue(nodes, i, k, f, AtomV(a)))
    && (forall k: U32, f: U32 :: ListAt(t.has, (k, f)) == ScanHas(nodes, i, k, f))
  }

  /** A node has entered the lookups some of its fields belong in, and no other. */
  ghost predicate Gains(n: Node, fields: set<U32>, a: Lookups, b: Lookups) {
    && (forall k: U32, f: U32, v: I64 ::
          ListAt(b.ints, (k, f, v)) == Grown(ListAt(a.ints, (k, f, v)), f in fields && Holds(n, k, f, IntV(v)), n.id))
    && (forall k: U32, f: U32, x: U32 ::
          ListAt(b.atoms, (k, f, x)) == Grown(ListAt(a.atoms, (k, f, x)), f in fields && Holds(n, k, f, AtomV(x)), n.id))
    && (forall k: U32, f: U32 ::
          ListAt(b.has, (k, f)) == Grown(ListAt(a.has, (k, f)), f in fields && Has(n, k, f), n.id))
  }

  /** The lookups after one stored field is added. */
  function WithField(n: Node, f: U32, t: Lookups): Lookups
    requires f in n.fields
  {
    var has := Push(t.has, (n.kind, f), n.id);
    match n.fields[f]
    case Invalid => t
    case IntV(i) => t.(ints := Push(t.ints, (n.kind, f, i), n.id), has := has)
    case AtomV(a) => t.(atoms := Push(t.atoms, (n.kind, f, a), n.id), has := has)
    case _ => t.(has := has)
  }

  lemma WithFieldGains(n: Node, f: U32, t: Lookups)
    requires Indexed(n) && f in n.fields
    ensures Gains(n, {f}, t, WithField(n, f, t))
  {
    hide ListAt;
  }

  /** Looking a name up answers what a scan of the first i nodes would. */
  ghost predicate NamesTo(nodes: seq<Node>, i: nat, names: map<U32, seq<nat>>)
    requires i <= |nodes|
  {
    forall a: U32 :: ListAt(names, a) == ScanName(nodes, i, a)
  }

  lemma NamesStep(nodes: seq<Node>, i: nat, a: map<U32, seq<nat>>, b: map<U32, seq<nat>>)
    requires i < |nodes| && NamesTo(nodes, i, a)
    requires forall x: U32 :: ListAt(b, x) == Grown(ListAt(a, x), Named(nodes[i], x), nodes[i].id)
    ensures NamesTo(nodes, i + 1, b)
  {
    ScanSteps(nodes, i);
    hide ScanName, ListAt;
  }

  lemma GainsNothing(n: Node, a: Lookups)
    ensures Gains(n, {}, a, a)
    ensures !Indexed(n) ==> Gains(n, n.fields.Keys, a, a)
  {
  }

  lemma GainsStep(n: Node, fields: set<U32>, f: U32, a: Lookups, b: Lookups, c: Lookups)
    requires f !in fields && Gains(n, fields, a, b) && Gains(n, {f}, b, c)
    ensures Gains(n, fields + {f}, a, c)
  {
    hide Holds, Has, ListAt;
  }

  lemma ScansStep(nodes: seq<Node>, i: nat, a: Lookups, b: Lookups)
    requires i < |nodes| && ScansTo(nodes, i, a) && Gains(nodes[i], nodes[i].fields.Keys, a, b)
    ensures ScansTo(nodes, i + 1, b)
  {
    ScanSteps(nodes, i);
    hide ScanValue, ScanHas, ListAt;
  }

  // ----- the index -----

  class FieldIndex {
    var intIndex: map<(U32, U32, I64), seq<nat>>
    var atomIndex: map<(U32, U32, U32), seq<nat>>
    var hasFieldIndex: map<(U32, U32), seq<nat>>
    var nameIndex: map<U32, seq<nat>>
    var kindEntries: map<U32, seq<KindEntry>>
    var entryCount: nat
    var nodeCount: nat

    function LookupInt(kind: U32, field: U32, v: I64): seq<nat>
      reads this`intIndex
    {
      ListAt(intIndex, (kind, field, v))
    }

    function LookupAtom(kind: U32, field: U32, a: U32): seq<nat>
      reads this`atomIndex
    {
      ListAt(atomIndex, (kind, field, a))
    }

    function LookupHasField(kind: U32, field: U32): seq<nat>
      reads this`hasFieldIndex
    {
      ListAt(hasFieldIndex, (kind, field))
    }

    function LookupByName(name: U32): seq<nat>
      reads this`nameIndex
    {
      ListAt(nameIndex, name)
    }

    function Tables(): Lookups
      reads this`intIndex, this`atomIndex, this`hasFieldIndex
    {
      Lookups(intIndex, atomIndex, hasFieldIndex)
    }

    /** What iterating over a kind visits. */
    function InOrder(kind: U32): seq<KindEntry>
      reads this`kindEntries
    {
      ListAt(kindEntries, kind)
    }

    /** Every lookup answers what a scan of the first i nodes would. */
    ghost predicate Mirrors(nodes: seq<Node>, i: nat)
      requires i <= |nodes|
      reads this
    {
      && ScansTo(nodes, i, Tables())
      && NamesTo(nodes, i, nameIndex)
      && (forall k: U32 :: ListsKind(nodes, i, k, InOrder(k)))
      && nodeCount == CountIndexed(nodes, i) && entryCount == CountEntries(nodes, i)
    }

    constructor ()
    {
      intIndex, atomIndex, hasFieldIndex, nameIndex := map[], map[], map[], map[];
      kindEntries, entryCount, nodeCount := map[], 0, 0;
    }

    lemma MirrorsAnswer(nodes: seq<Node>)
      requires Mirrors(nodes, |nodes|)
      ensures forall k: U32, f: U32, v: I64 :: LookupInt(k, f, v) == ScanValue(nodes, |nodes|, k, f, IntV(v))
      ensures forall k: U32, f: U32, a: U32 :: LookupAtom(k, f, a) == ScanValue(nodes, |nodes|, k, f, AtomV(a))
      ensures forall k: U32, f: U32 :: LookupHasField(k, f) == ScanHas(nodes, |nodes|, k, f)
      ensures forall a: U32 :: LookupByName(a) == ScanName(nodes, |nodes|, a)
    {
      hide ListsKind, ScanValue, ScanHas, ScanName, CountIndexed, CountEntries;
    }

    /** Index the table: afterwards every lookup is a linear scan's answer, in
        table order, and each kind lists its nodes' entries once. */
    method Build(nodes: seq<Node>)
      modifies this
      ensures Mirrors(nodes, |nodes|)
      ensures forall k: U32, f: U32, v: I64 :: LookupInt(k, f, v) == ScanValue(nodes, |nodes|, k, f, IntV(v))
      ensures forall k: U32, f: U32, a: U32 :: LookupAtom(k, f, a) == ScanValue(nodes, |nodes|, k, f, AtomV(a))
      ensures forall k: U32, f: U32 :: LookupHasField(k, f) == ScanHas(nodes, |nodes|, k, f)
      ensures forall a: U32 :: LookupByName(a) == ScanName(nodes, |nodes|, a)
    {
      hide ScansTo, NamesTo, CountIndexed, CountEntries, ListsKind, Listed, AllEntries, Named, Grown, Gains;
      intIndex, atomIndex, hasFieldIndex, nameIndex := map[], map[], map[], map[];
      kindEntries, entryCount, nodeCount := map[], 0, 0;
      NothingScanned(nodes);
      var i := 0;
      while i < |nodes|
        invariant 0 <= i <= |nodes| && Mirrors(nodes, i)
      {
        ScanSteps(nodes, i);
        ghost var before, names, tables := kindEntries, nameIndex, Tables();
        IndexNode(nodes[i]);
        ScansStep(nodes, i, tables, Tables());
        NamesStep(nodes, i, names, nameIndex);
        forall k: U32 ensures ListsKind(nodes, i + 1, k, InOrder(k)) {
          ListsKindStep(nodes, i, k, ListAt(before, k), InOrder(k));
        }
        i := i + 1;
      }
      MirrorsAnswer(nodes);
    }

    /** Add one node to every lookup it belongs in, and to no other. */
    method IndexNode(n: Node)
      modifies this
      ensures Gains(n, n.fields.Keys, old(Tables()), Tables())
      ensures forall a: U32 :: LookupByName(a) == Grown(old(LookupByName(a)), Named(n, a), n.id)
      ensures forall k: U32 :: Listed(old(InOrder(k)), InOrder(k), n, k)
      ensures nodeCount == old(nodeCount) + if Indexed(n) then 1 else 0
      ensures entryCount == old(entryCount) + if Indexed(n) then |AllEntries(n)| else 0
    {
      hide AllEntries, Gains;
      GainsNothing(n, Tables());
      if Indexed(n) {
        nodeCount := nodeCount + 1;
        if n.name != INVALID_ATOM {
          nameIndex := Push(nameIndex, n.name, n.id);
        }
        IndexFields(n);
      }
    }

    /** Add one stored field. */
    method IndexField(n: Node, f: U32)
      requires Indexed(n) && f in n.fields
      modifies `intIndex, `atomIndex, `hasFieldIndex, `kindEntries, `entryCount
      ensures Gains(n, {f}, old(Tables()), Tables())
      ensures kindEntries == if n.fields[f] == Invalid then old(kindEntries)
                             else Push(old(kindEntries), n.kind, KindEntry(n.id, f, n.fields[f]))
      ensures entryCount == old(entryCount) + if n.fields[f] == Invalid then 0 else 1
    {
      hide Gains, Push;
      WithFieldGains(n, f, Tables());
      var v := n.fields[f];
      if v != Invalid {
        hasFieldIndex := Push(hasFieldIndex, (n.kind, f), n.id);
        match v {
          case IntV(i) => intIndex := Push(intIndex, (n.kind, f, i), n.id);
          case AtomV(a) => atomIndex := Push(atomIndex, (n.kind, f, a), n.id);
          case _ =>
        }
        kindEntries := Push(kindEntries, n.kind, KindEntry(n.id, f, v));
        entryCount := entryCount + 1;
      }
    }

    /** Add one node's fields, in whatever order the field map yields them. */
    method IndexFields(n: Node)
      requires Indexed(n)
      modifies `intIndex, `atomIndex, `hasFieldIndex, `kindEntries, `entryCount
      ensures Gains(n, n.fields.Keys, old(Tables()), Tables())
      ensures forall k: U32 :: Listed(old(InOrder(k)), InOrder(k), n, k)
      ensures entryCount == old(entryCount) + |AllEntries(n)|
    {
      hide EntriesOf, Gains, Push, Grown;
      var todo := n.fields.Keys;
      NoEntries(n);
      GainsNothing(n, Tables());
      assert n.fields.Keys - todo == {};
      while todo != {}
        invariant todo <= n.fields.Keys
        invariant Gains(n, n.fields.Keys - todo, old(Tables()), Tables())
        invariant Filed(n, n.fields.Keys - todo, old(kindEntries), kindEntries)
        invariant entryCount == old(entryCount) + |EntriesOf(n, n.fields.Keys - todo)|
        decreases todo
      {
        var f :| f in todo;
        FiledStep(n, n.fields.Keys - todo, f, old(kindEntries), kindEntries);
        EntriesGrow(n, n.fields.Keys - todo, f);
        assert n.fields.Keys - (todo - {f}) == n.fields.Keys - todo + {f};
        ghost var tables := Tables();
        IndexField(n, f);
        GainsStep(n, n.fields.Keys - todo, f, old(Tables()), tables, Tables());
        todo := todo - {f};
      }
      assert n.fields.Keys - todo == n.fields.Keys;
    }
  }

  /** The kind lists have grown by a node's entries for some of its fields. */
  ghost predicate Filed(n: Node, fields: set<U32>, before: map<U32, seq<KindEntry>>, after: map<U32, seq<KindEntry>>) {
    && (forall k: U32 :: k != n.kind ==> ListAt(after, k) == ListAt(before, k))
    && var was, now := ListAt(before, n.kind), ListAt(after, n.kind);
       was <= now && multiset(now[|was|..]) == multiset(EntriesOf(n, fields))
  }

  lemma EntryAdded(was: seq<KindEntry>, now: seq<KindEntry>, es: set<KindEntry>, e: KindEntry)
    requires was <= now && multiset(now[|was|..]) == multiset(es) && e !in es
    ensures was <= now + [e] && multiset((now + [e])[|was|..]) == multiset(es + {e})
  {
    assert (now + [e])[|was|..] == now[|was|..] + [e];
  }

  lemma FiledStep(n: Node, fields: set<U32>, f: U32, before: map<U32, seq<KindEntry>>, after: map<U32, seq<KindEntry>>)
    requires f in n.fields && f !in fields && Filed(n, fields, before, after)
    ensures Filed(n, fields + {f}, before,
                  if n.fields[f] == Invalid then after else Push(after, n.kind, KindEntry(n.id, f, n.fields[f])))
  {
    hide EntriesOf, Push, ListAt;
    EntriesGrow(n, fields, f);
    var e := KindEntry(n.id, f, n.fields[f]);
    if n.fields[f] != Invalid {
      EntryAdded(ListAt(before, n.kind), ListAt(after, n.kind), EntriesOf(n, fields), e);
    }
  }

  lemma NoEntries(n: Node)
    ensures EntriesOf(n, n.fields.Keys - n.fields.Keys) == {}
  {
  }

  // ----- against the query engine -----

  /** Names that identify: no atom twice, no kind name twice, no field name
      twice within a kind. */
  ghost predicate NamesIdentify(q: Engine) {
    && Distinct(q.atoms) && |q.atoms| < TWO32
    && (forall i, j :: 0 <= i < j < |q.schema.kinds| ==> q.schema.kinds[i].name != q.schema.kinds[j].name)
    && (forall k :: 0 <= k < |q.schema.kinds| ==> FieldNamesDiffer(q.schema.kinds[k].fields))
  }

  ghost predicate FieldNamesDiffer(fields: seq<FieldDef>) {
    forall i, j :: 0 <= i < j < |fields| ==> fields[i].name != fields[j].name
  }

  function KindFieldQuery(q: Engine, kind: nat, field: nat, v: I64): Expr
    requires kind < |q.schema.kinds| && field < |q.schema.kinds[kind].fields|
    requires q.schema.kinds[kind].name < |q.atoms| && q.schema.kinds[kind].fields[field].name < |q.atoms|
  {
    And(KindMatch(q.atoms[q.schema.kinds[kind].name]),
        FieldCmp(q.atoms[q.schema.kinds[kind].fields[field].name], Eq, IntRhs(v)))
  }

  lemma KindFieldMeans(q: Engine, kind: U32, field: U32, v: I64, k: nat)
    requires NamesIdentify(q) && q.schema.Fits() && NodesOk(q.schema, q.nodes) && k < |q.nodes|
    requires kind < |q.schema.kinds| && field < |q.schema.kinds[kind].fields|
    requires q.schema.kinds[kind].name < |q.atoms| && q.schema.kinds[kind].fields[field].name < |q.atoms|
    requires q.schema.FieldType(kind, field) == TInt
    ensures q.nodes[k].alive && Eval(q, KindFieldQuery(q, kind, field, v), q.nodes[k])
      <==> Holds(q.nodes[k], kind, field, IntV(v))
  {
    var n := q.nodes[k];
    assert NodeOk(q.schema, |q.nodes|, k, n);
    var kindAtom, fieldAtom := q.schema.kinds[kind].name, q.schema.kinds[kind].fields[field].name;
    DistinctIndex(q.atoms, kindAtom);
    DistinctIndex(q.atoms, fieldAtom);
    if n.kind == kind {
      var fields := q.schema.kinds[kind].fields;
      assert FieldNamesDiffer(fields);
      var f := FieldNamed(fields, fieldAtom);
      assert f == Some(field);
    } else if q.schema.HasKind(n.kind) {
      assert q.schema.kinds[n.kind].name != kindAtom;
    }
  }

  /** On a table the machine produced, "kind:K AND field:F=v" over an integer
      field returns exactly what the index answers for (K, F, v). */
  lemma {:induction false} QueryIsLookup(q: Engine, kind: U32, field: U32, v: I64, i: nat)
    requires NamesIdentify(q) && q.schema.Fits() && NodesOk(q.schema, q.nodes) && i <= |q.nodes|
    requires kind < |q.schema.kinds| && field < |q.schema.kinds[kind].fields|
    requires q.schema.kinds[kind].name < |q.atoms| && q.schema.kinds[kind].fields[field].name < |q.atoms|
    requires q.schema.FieldType(kind, field) == TInt
    ensures Matches(q, KindFieldQuery(q, kind, field, v), i) == ScanValue(q.nodes, i, kind, field, IntV(v))
  {
    hide Eval, NodesOk, NamesIdentify, Holds;
    if i > 0 {
      QueryIsLookup(q, kind, field, v, i - 1);
      KindFieldMeans(q, kind, field, v, i - 1);
    }
  }
}
