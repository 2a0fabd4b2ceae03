/** What the indexes list and count, said of table positions. */
module IndexLaws {
  import opened Basics
  import opened Model
  import opened ReplayVm
  import opened Xref
  import opened FieldIndexing

  ghost predicate Ascending(ids: seq<nat>) {
    forall i, j :: 0 <= i < j < |ids| ==> ids[i] < ids[j]
  }

  ghost predicate NeverFalling(ids: seq<nat>) {
    forall i, j :: 0 <= i < j < |ids| ==> ids[i] <= ids[j]
  }

  lemma Grow(ids: seq<nat>, id: nat)
    requires Ascending(ids) && forall k :: k in ids ==> k < id
    ensures Ascending(ids + [id]) && ids + [] == ids
  {
    forall i, j | 0 <= i < j < |ids + [id]| ensures (ids + [id])[i] < (ids + [id])[j] {
      assert ids[i] in ids;
    }
  }

  // ----- the cross-reference index -----

  /** A kind lists the nodes of that kind, ascending. */
  lemma {:induction false} OfKindLaw(nodes: seq<Node>, i: nat, kind: U32)
    requires Positional(nodes) && i <= |nodes|
    ensures forall k :: k in OfKind(nodes, i, kind) <==> 0 <= k < i && nodes[k].kind == kind
    ensures Ascending(OfKind(nodes, i, kind))
  {
    if i > 0 {
      OfKindLaw(nodes, i - 1, kind);
      Grow(OfKind(nodes, i - 1, kind), nodes[i - 1].id);
    }
  }

  /** Mentions counts positions. */
  lemma {:induction false} MentionsLaw(ids: seq<nat>, t: nat)
    ensures Mentions(ids, t) == |set j | 0 <= j < |ids| && ids[j] == t|
    decreases |ids|
  {
    var all := set j | 0 <= j < |ids| && ids[j] == t;
    if ids == [] {
      assert all == {};
    } else {
      var last := |ids| - 1;
      var front := ids[..last];
      MentionsLaw(front, t);
      assert all == (set j | 0 <= j < |front| && front[j] == t) + if ids[last] == t then {last} else {};
    }
  }

  /** Referrers come in table order. */
  lemma {:induction false} ReferrersInOrder(nodes: seq<Node>, i: nat, t: nat)
    requires Positional(nodes) && i <= |nodes|
    ensures forall k :: k in ReferrersOf(nodes, i, t) ==> k < i
    ensures NeverFalling(ReferrersOf(nodes, i, t))
  {
    hide Mentions;
    if i > 0 {
      ReferrersInOrder(nodes, i - 1, t);
      Extend(ReferrersOf(nodes, i - 1, t), i - 1, Mentions(nodes[i - 1].refs, t) + Mentions(nodes[i - 1].children, t));
    }
  }

  lemma Extend(ids: seq<nat>, id: nat, n: nat)
    requires NeverFalling(ids) && forall k :: k in ids ==> k < id
    ensures var r := ids + Repeated(id, n); NeverFalling(r) && forall k :: k in r ==> k <= id
  {
    var r := ids + Repeated(id, n);
    forall a, b | 0 <= a < b < |r| ensures r[a] <= r[b] {
      if a < |ids| {
        assert ids[a] in ids;
      }
    }
  }

  /** What a stored cross-reference should say: the newest live bearer of the
      name, or no node when there is none. */
  ghost predicate RightlyNames(nodes: seq<Node>, e: XrefEntry) {
    if exists k :: e.name != INVALID_ATOM && IsNewestAlive(nodes, e.name, k)
    then IsNewestAlive(nodes, e.name, e.node)
    else e.node == INVALID_NODE
  }

  lemma StaleIff(nodes: seq<Node>, e: XrefEntry)
    requires Positional(nodes)
    ensures Stale(LiveNames(nodes), e) <==> !RightlyNames(nodes, e)
  {
    LiveNamesExact(nodes);
    hide LiveNames;
    if k :| e.name != INVALID_ATOM && IsNewestAlive(nodes, e.name, k) {
      NewestAliveUnique(nodes, e.name, k, LiveNames(nodes)[e.name]);
      if IsNewestAlive(nodes, e.name, e.node) {
        NewestAliveUnique(nodes, e.name, k, e.node);
      }
    }
  }

  /** The entries from i on that name the wrong node. */
  ghost function Wrong(nodes: seq<Node>, entries: seq<XrefEntry>, i: nat): set<nat> {
    set j: nat | i <= j < |entries| && !RightlyNames(nodes, entries[j])
  }

  lemma WrongStep(nodes: seq<Node>, entries: seq<XrefEntry>, i: nat)
    requires i < |entries|
    ensures |Wrong(nodes, entries, i)| == |Wrong(nodes, entries, i + 1)| + if RightlyNames(nodes, entries[i]) then 0 else 1
  {
    hide RightlyNames;
    if RightlyNames(nodes, entries[i]) {
      assert Wrong(nodes, entries, i) == Wrong(nodes, entries, i + 1);
    } else {
      assert Wrong(nodes, entries, i) == Wrong(nodes, entries, i + 1) + {i};
    }
  }

  /** The warnings count the entries that name the wrong node. */
  lemma StaleCountLaw(nodes: seq<Node>, entries: seq<XrefEntry>)
    requires Positional(nodes)
    ensures StaleCount(LiveNames(nodes), entries) == |Wrong(nodes, entries, 0)|
  {
    StaleFrom(nodes, entries, 0);
    assert entries[0..] == entries;
  }

  lemma {:induction false} StaleFrom(nodes: seq<Node>, entries: seq<XrefEntry>, i: nat)
    requires Positional(nodes) && i <= |entries|
    ensures StaleCount(LiveNames(nodes), entries[i..]) == |Wrong(nodes, entries, i)|
    decreases |entries| - i
  {
    hide LiveNames, RightlyNames, Stale;
    if i == |entries| {
      assert Wrong(nodes, entries, i) == {};
    } else {
      hide Wrong, Positional;
      StaleFrom(nodes, entries, i + 1);
      StaleIff(nodes, entries[i]);
      WrongStep(nodes, entries, i);
      assert entries[i..][1..] == entries[i + 1..] && entries[i..][0] == entries[i];
    }
  }

  // ----- the field index -----

  /** A value lists the live, defined nodes of the kind that store it there. */
  lemma {:induction false} ScanValueLaw(nodes: seq<Node>, i: nat, kind: U32, field: U32, v: Value)
    requires Positional(nodes) && i <= |nodes|
    ensures forall k :: k in ScanValue(nodes, i, kind, field, v) <==>
      && 0 <= k < i && nodes[k].alive && !nodes[k].placeholder && nodes[k].kind == kind
      && field in nodes[k].fields && nodes[k].fields[field] == v
    ensures Ascending(ScanValue(nodes, i, kind, field, v))
  {
    if i > 0 {
      ScanValueLaw(nodes, i - 1, kind, field, v);
      Grow(ScanValue(nodes, i - 1, kind, field, v), nodes[i - 1].id);
    }
  }

  /** A field lists those that store anything there but an Invalid. */
  lemma {:induction false} ScanHasLaw(nodes: seq<Node>, i: nat, kind: U32, field: U32)
    requires Positional(nodes) && i <= |nodes|
    ensures forall k :: k in ScanHas(nodes, i, kind, field) <==>
      && 0 <= k < i && nodes[k].alive && !nodes[k].placeholder && nodes[k].kind == kind
      && field in nodes[k].fields && nodes[k].fields[field] != Invalid
    ensures Ascending(ScanHas(nodes, i, kind, field))
  {
    if i > 0 {
      ScanHasLaw(nodes, i - 1, kind, field);
      Grow(ScanHas(nodes, i - 1, kind, field), nodes[i - 1].id);
    }
  }

  /** A name lists those that bear it; no name lists none. */
  lemma {:induction false} ScanNameLaw(nodes: seq<Node>, i: nat, name: U32)
    requires Positional(nodes) && i <= |nodes|
    ensures forall k :: k in ScanName(nodes, i, name) <==>
      0 <= k < i && nodes[k].alive && !nodes[k].placeholder && nodes[k].name == name && name != INVALID_ATOM
    ensures Ascending(ScanName(nodes, i, name))
  {
    if i > 0 {
      ScanNameLaw(nodes, i - 1, name);
      Grow(ScanName(nodes, i - 1, name), nodes[i - 1].id);
    }
  }

  /** The live, defined nodes among the first i, and their stored fields. */
  ghost function Listable(nodes: seq<Node>, i: nat): set<nat>
    requires i <= |nodes|
  {
    set k: nat | k < i && nodes[k].alive && !nodes[k].placeholder
  }

  ghost function Stored(nodes: seq<Node>, i: nat): set<(nat, U32)>
    requires i <= |nodes|
  {
    set k: nat, f: U32 | k in Listable(nodes, i) && f in nodes[k].fields && nodes[k].fields[f] != Invalid :: (k, f)
  }

  /** One node's share of them, for some of its fields. */
  ghost function Owned(n: Node, fields: set<U32>): set<(nat, U32)> {
    set f | f in fields && f in n.fields && n.fields[f] != Invalid :: (n.id, f)
  }

  /** The two counters. */
  lemma {:induction false} IndexCountsLaw(nodes: seq<Node>, i: nat)
    requires Positional(nodes) && i <= |nodes|
    ensures CountIndexed(nodes, i) == |Listable(nodes, i)|
    ensures CountEntries(nodes, i) == |Stored(nodes, i)|
  {
    hide EntriesOf, Stored, Listable, Owned;
    if i == 0 {
      NothingStored(nodes);
    } else {
      IndexCountsLaw(nodes, i - 1);
      ListableStep(nodes, i - 1);
      StoredStep(nodes, i - 1);
      EntriesAre(nodes[i - 1], nodes[i - 1].fields.Keys);
    }
  }

  lemma NothingStored(nodes: seq<Node>)
    ensures Listable(nodes, 0) == {} && Stored(nodes, 0) == {}
  {
  }

  lemma ListableStep(nodes: seq<Node>, i: nat)
    requires i < |nodes|
    ensures Listable(nodes, i + 1) == Listable(nodes, i) + if nodes[i].alive && !nodes[i].placeholder then {i} else {}
    ensures i !in Listable(nodes, i)
  {
  }

  lemma StoredStep(nodes: seq<Node>, i: nat)
    requires Positional(nodes) && i < |nodes|
    ensures |Stored(nodes, i + 1)|
         == |Stored(nodes, i)| + if nodes[i].alive && !nodes[i].placeholder then |Owned(nodes[i], nodes[i].fields.Keys)| else 0
  {
    hide Stored, Owned, Positional, Listable;
    var a, b, c := Stored(nodes, i), Owned(nodes[i], nodes[i].fields.Keys), Stored(nodes, i + 1);
    if nodes[i].alive && !nodes[i].placeholder {
      forall p: (nat, U32) ensures (p in c <==> p in a || p in b) && !(p in a && p in b) {
        StoredIff(nodes, i, p.0, p.1);
      }
      UnionOfDisjoint(a, b, c);
    } else {
      forall p: (nat, U32) ensures p in c <==> p in a {
        ListableStep(nodes, i);
        StoredIs(nodes, i, p.0, p.1);
        StoredIs(nodes, i + 1, p.0, p.1);
      }
      assert c == a;
    }
  }

  lemma StoredIff(nodes: seq<Node>, i: nat, k: nat, f: U32)
    requires Positional(nodes) && i < |nodes| && nodes[i].alive && !nodes[i].placeholder
    ensures (k, f) in Stored(nodes, i + 1) <==> (k, f) in Stored(nodes, i) || (k, f) in Owned(nodes[i], nodes[i].fields.Keys)
    ensures !((k, f) in Stored(nodes, i) && (k, f) in Owned(nodes[i], nodes[i].fields.Keys))
  {
    hide Stored, Owned, Listable;
    ListableStep(nodes, i);
    StoredIs(nodes, i, k, f);
    StoredIs(nodes, i + 1, k, f);
    OwnedIs(nodes[i], nodes[i].fields.Keys, k, f);
    assert nodes[i].id == i;
  }

  lemma StoredIs(nodes: seq<Node>, i: nat, k: nat, f: U32)
    requires i <= |nodes|
    ensures (k, f) in Stored(nodes, i) <==> k in Listable(nodes, i) && f in nodes[k].fields && nodes[k].fields[f] != Invalid
  {
    hide Listable;
  }

  lemma OwnedIs(n: Node, fields: set<U32>, k: nat, f: U32)
    ensures (k, f) in Owned(n, fields) <==> k == n.id && f in fields && f in n.fields && n.fields[f] != Invalid
  {
  }

  lemma UnionOfDisjoint<T>(a: set<T>, b: set<T>, c: set<T>)
    requires forall x :: x in c <==> x in a || x in b
    requires forall x :: !(x in a && x in b)
    ensures |c| == |a| + |b|
  {
    assert c == a + b;
  }

  lemma {:induction false} EntriesAre(n: Node, fields: set<U32>)
    requires fields <= n.fields.Keys
    ensures |EntriesOf(n, fields)| == |Owned(n, fields)|
    decreases |fields|
  {
    if fields == {} {
      assert Owned(n, fields) == {} && EntriesOf(n, fields) == {};
    } else {
      var f :| f in fields;
      var rest := fields - {f};
      EntriesAre(n, rest);
      EntriesGrow(n, rest, f);
      OwnedGrow(n, rest, f);
      assert fields == rest + {f};
      hide EntriesOf, Owned;
    }
  }

  lemma OwnedGrow(n: Node, fields: set<U32>, f: U32)
    requires f in n.fields && f !in fields
    ensures (n.id, f) !in Owned(n, fields)
    ensures Owned(n, fields + {f}) == Owned(n, fields) + if n.fields[f] != Invalid then {(n.id, f)} else {}
  {
  }

  /** A kind's list holds an entry for each stored field of its live, defined
      nodes ... */
  lemma {:induction false} ListsKindLaw(nodes: seq<Node>, i: nat, kind: U32, entries: seq<KindEntry>)
    requires i <= |nodes| && ListsKind(nodes, i, kind, entries)
    ensures forall e :: e in entries <==>
      exists k: nat :: k in Listable(nodes, i) && nodes[k].kind == kind && IsEntry(nodes[k], e)
  {
    hide AllEntries;
    if i > 0 {
      var n := nodes[i - 1];
      if InKind(n, kind) {
        var cut := |entries| - |AllEntries(n)|;
        ListsKindLaw(nodes, i - 1, kind, entries[..cut]);
        assert entries == entries[..cut] + entries[cut..];
        forall e ensures e in entries[cut..] <==> IsEntry(n, e) {
          assert e in entries[cut..] <==> e in multiset(entries[cut..]);
          EntryIff(n, e);
        }
        EntriesSplit(nodes, i, kind, entries[..cut], entries[cut..]);
      } else {
        ListsKindLaw(nodes, i - 1, kind, entries);
      }
    }
  }

  ghost predicate IsEntry(n: Node, e: KindEntry) {
    e.node == n.id && e.field in n.fields && n.fields[e.field] == e.value && e.value != Invalid
  }

  lemma EntryIff(n: Node, e: KindEntry)
    ensures e in AllEntries(n) <==> IsEntry(n, e)
  {
  }

  lemma EntriesSplit(nodes: seq<Node>, i: nat, kind: U32, a: seq<KindEntry>, b: seq<KindEntry>)
    requires 0 < i <= |nodes| && InKind(nodes[i - 1], kind)
    requires forall e :: e in a <==> exists k: nat :: k in Listable(nodes, i - 1) && nodes[k].kind == kind && IsEntry(nodes[k], e)
    requires forall e :: e in b <==> IsEntry(nodes[i - 1], e)
    ensures forall e :: e in a + b <==> exists k: nat :: k in Listable(nodes, i) && nodes[k].kind == kind && IsEntry(nodes[k], e)
  {
    hide IsEntry;
    assert Listable(nodes, i) == Listable(nodes, i - 1) + {i - 1};
    forall e ensures e in a + b <==> exists k: nat :: k in Listable(nodes, i) && nodes[k].kind == kind && IsEntry(nodes[k], e) {
      if k: nat :| k in Listable(nodes, i) && nodes[k].kind == kind && IsEntry(nodes[k], e) {
        assert k in Listable(nodes, i - 1) || k == i - 1;
      }
    }
  }

  /** ... once each, nodes in table order. */
  lemma {:induction false} ListsKindInOrder(nodes: seq<Node>, i: nat, kind: U32, entries: seq<KindEntry>)
    requires Positional(nodes) && i <= |nodes| && ListsKind(nodes, i, kind, entries)
    ensures forall j :: 0 <= j < |entries| ==> entries[j].node < i
    ensures forall a, b :: 0 <= a < b < |entries| ==> entries[a].node <= entries[b].node && entries[a] != entries[b]
  {
    hide AllEntries;
    if i > 0 {
      var n := nodes[i - 1];
      if InKind(n, kind) {
        var cut := |entries| - |AllEntries(n)|;
        ListsKindInOrder(nodes, i - 1, kind, entries[..cut]);
        var block := entries[cut..];
        SetListed(block, AllEntries(n));
        forall j | 0 <= j < |block| ensures block[j].node == i - 1 {
          EntryIff(n, block[j]);
        }
        assert forall j :: cut <= j < |entries| ==> entries[j] == block[j - cut];
        assert forall j :: 0 <= j < cut ==> entries[j] == entries[..cut][j];
      } else {
        ListsKindInOrder(nodes, i - 1, kind, entries);
      }
    }
  }

  lemma SetListed<T>(xs: seq<T>, s: set<T>)
    requires multiset(xs) == multiset(s)
    ensures forall j :: 0 <= j < |xs| ==> xs[j] in s
    ensures forall a, b :: 0 <= a < b < |xs| ==> xs[a] != xs[b]
  {
    forall j | 0 <= j < |xs| ensures xs[j] in s {
      assert xs[j] in multiset(xs);
    }
    forall a, b | 0 <= a < b < |xs| ensures xs[a] != xs[b] {
      assert xs == xs[..b] + [xs[b]] + xs[b + 1..];
      assert xs[a] in xs[..b];
      assert multiset(xs) == multiset(xs[..b]) + multiset{xs[b]} + multiset(xs[b + 1..]);
      assert multiset(s)[xs[b]] <= 1;
    }
  }
}
