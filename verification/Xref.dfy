/** The cross-reference index derived from the final node table, and the
    reconciliation of a precomputed one against it. */
module Xref {
  import opened Basics
  import opened Codec
  import opened Model
  import opened ReplayVm
  import opened VmInvariants

  // ----- what the index must answer -----

  /** The highest-numbered live node bearing the name. */
  ghost predicate IsNewestAlive(nodes: seq<Node>, name: U32, k: nat) {
    && k < |nodes| && nodes[k].alive && nodes[k].name == name
    && forall j :: k < j < |nodes| ==> !(nodes[j].alive && nodes[j].name == name)
  }

  /** How often t occurs among some ids. */
  function Mentions(ids: seq<nat>, t: nat): nat {
    if ids == [] then 0 else Mentions(ids[..|ids| - 1], t) + if ids[|ids| - 1] == t then 1 else 0
  }

  /** The ids of the first i nodes of a kind, in table order. */
  function OfKind(nodes: seq<Node>, i: nat, kind: U32): seq<nat>
    requires i <= |nodes|
  {
    if i == 0 then []
    else OfKind(nodes, i - 1, kind) + if nodes[i - 1].kind == kind then [nodes[i - 1].id] else []
  }

  lemma OfKindNext(nodes: seq<Node>, i: nat)
    requires i < |nodes|
    ensures forall kind: U32 ::
      OfKind(nodes, i + 1, kind) == if nodes[i].kind == kind then OfKind(nodes, i, kind) + [nodes[i].id] else OfKind(nodes, i, kind)
  {
  }

  function ListOf(m: map<U32, seq<nat>>, kind: U32): seq<nat> {
    if kind in m then m[kind] else []
  }

  /** Each kind lists its nodes among the first i. */
  ghost predicate KindsTo(nodes: seq<Node>, i: nat, m: map<U32, seq<nat>>)
    requires i <= |nodes|
  {
    forall kind: U32 :: ListOf(m, kind) == if kind == INVALID_KIND then [] else OfKind(nodes, i, kind)
  }

  lemma KindsStep(nodes: seq<Node>, i: nat, m: map<U32, seq<nat>>)
    requires i < |nodes| && KindsTo(nodes, i, m)
    ensures var n := nodes[i];
      KindsTo(nodes, i + 1, if n.kind == INVALID_KIND then m else m[n.kind := ListOf(m, n.kind) + [n.id]])
  {
    OfKindNext(nodes, i);
    hide OfKind;
    var n := nodes[i];
    var after := if n.kind == INVALID_KIND then m else m[n.kind := ListOf(m, n.kind) + [n.id]];
    forall kind: U32 ensures ListOf(after, kind) == if kind == INVALID_KIND then [] else OfKind(nodes, i + 1, kind) {
      assert kind != n.kind ==> ListOf(after, kind) == ListOf(m, kind);
    }
  }

  lemma KindsAnswer(nodes: seq<Node>, m: map<U32, seq<nat>>)
    requires KindsTo(nodes, |nodes|, m)
    ensures forall kind: U32 :: ListOf(m, kind) == if kind == INVALID_KIND then [] else OfKind(nodes, |nodes|, kind)
  {
  }

  function Repeated(id: nat, n: nat): (r: seq<nat>)
    ensures |r| == n && forall i :: 0 <= i < n ==> r[i] == id
  {
    seq(n, _ => id)
  }

  /** Who refers to t among the first i nodes: in table order, once for every mention. */
  function ReferrersOf(nodes: seq<Node>, i: nat, t: nat): seq<nat>
    requires i <= |nodes|
  {
    if i == 0 then []
    else
      var n := nodes[i - 1];
      ReferrersOf(nodes, i - 1, t) + Repeated(n.id, Mentions(n.refs, t) + Mentions(n.children, t))
  }

  lemma {:induction false} MentionsAppend(a: seq<nat>, b: seq<nat>, t: nat)
    ensures Mentions(a + b, t) == Mentions(a, t) + Mentions(b, t)
    decreases |b|
  {
    if b == [] {
      assert a + b == a;
    } else {
      assert (a + b)[..|a + b| - 1] == a + b[..|b| - 1];
      MentionsAppend(a, b[..|b| - 1], t);
    }
  }

  lemma {:induction false} MentionsRepeated(id: nat, n: nat, t: nat)
    ensures Mentions(Repeated(id, n), t) == if id == t then n else 0
  {
    if n > 0 {
      assert Repeated(id, n)[..n - 1] == Repeated(id, n - 1);
      MentionsRepeated(id, n - 1, t);
    }
  }

  /** A node is listed under a target as often as it mentions it. */
  lemma {:induction false} ReferrersCounted(nodes: seq<Node>, i: nat, t: nat, n: nat)
    requires i <= |nodes| && Positional(nodes)
    ensures Mentions(ReferrersOf(nodes, i, t), n)
         == if n < i then Mentions(nodes[n].refs, t) + Mentions(nodes[n].children, t) else 0
  {
    hide Mentions, Repeated;
    if i == 0 {
      MentionsNothing(n);
    } else {
      var last := nodes[i - 1];
      var times := Mentions(last.refs, t) + Mentions(last.children, t);
      ReferrersCounted(nodes, i - 1, t, n);
      MentionsAppend(ReferrersOf(nodes, i - 1, t), Repeated(last.id, times), n);
      MentionsRepeated(last.id, times, n);
    }
  }

  lemma MentionsNothing(t: nat)
    ensures Mentions([], t) == 0
  {
  }

  /** The name table the index holds: later live nodes win. */
  function LiveNames(nodes: seq<Node>): (names: map<U32, nat>)
    decreases |nodes|
  {
    if nodes == [] then map[]
    else
      var last := nodes[|nodes| - 1];
      var names := LiveNames(nodes[..|nodes| - 1]);
      if last.name != INVALID_ATOM && last.alive then names[last.name := last.id] else names
  }

  /** It maps exactly the names with a live bearer, each to its newest one. */
  lemma {:induction false} LiveNamesExact(nodes: seq<Node>)
    requires Positional(nodes)
    ensures forall a: U32 :: a in LiveNames(nodes) ==> a != INVALID_ATOM && IsNewestAlive(nodes, a, LiveNames(nodes)[a])
    ensures forall k :: 0 <= k < |nodes| && nodes[k].alive && nodes[k].name != INVALID_ATOM ==> nodes[k].name in LiveNames(nodes)
    decreases |nodes|
  {
    if nodes != [] {
      var front := nodes[..|nodes| - 1];
      LiveNamesExact(front);
      forall a: U32 | a in LiveNames(nodes) && a in LiveNames(front)
        ensures a != INVALID_ATOM && IsNewestAlive(nodes, a, LiveNames(nodes)[a])
      {
        assert IsNewestAlive(front, a, LiveNames(front)[a]);
      }
    }
  }

  // ----- the index -----

  class XrefIndex {
    var nameToId: map<U32, nat>
    var kindToIds: map<U32, seq<nat>>
    var reverseAdj: seq<seq<nat>>

    function ByName(name: U32): Option<nat>
      reads this`nameToId
    {
      if name in nameToId then Some(nameToId[name]) else None
    }

    function ByKind(kind: U32): seq<nat>
      reads this`kindToIds
    {
      ListOf(kindToIds, kind)
    }

    function Referrers(t: nat): seq<nat>
      reads this`reverseAdj
    {
      if t < |reverseAdj| then reverseAdj[t] else []
    }

    constructor ()
    {
      nameToId, kindToIds, reverseAdj := map[], map[], [];
    }

    /** Index a table whose ids are positions and whose edges are in range. A
        name answers its newest live bearer, a kind its nodes in order, and a
        target its referrers in order, each once for every mention. */
    method Build(nodes: seq<Node>)
      requires Positional(nodes)
      modifies this
      ensures nameToId == LiveNames(nodes)
      ensures forall a: U32 :: ByName(a).Some? ==> a != INVALID_ATOM && IsNewestAlive(nodes, a, ByName(a).value)
      ensures forall k :: 0 <= k < |nodes| && nodes[k].alive && nodes[k].name != INVALID_ATOM ==> ByName(nodes[k].name).Some?
      ensures forall kind: U32 :: ByKind(kind) == if kind == INVALID_KIND then [] else OfKind(nodes, |nodes|, kind)
      ensures |reverseAdj| == |nodes|
      ensures forall t: nat :: t < |nodes| ==> Referrers(t) == ReferrersOf(nodes, |nodes|, t)
      ensures forall t: nat, n: nat :: t < |nodes| && n < |nodes| ==>
        Mentions(Referrers(t), n) == Mentions(nodes[n].refs, t) + Mentions(nodes[n].children, t)
    {
      BuildNames(nodes);
      BuildKinds(nodes);
      BuildReverse(nodes);
      forall t: nat, n: nat | t < |nodes| && n < |nodes|
        ensures Mentions(Referrers(t), n) == Mentions(nodes[n].refs, t) + Mentions(nodes[n].children, t)
      {
        ReferrersCounted(nodes, |nodes|, t, n);
      }
    }

    method BuildNames(nodes: seq<Node>)
      requires Positional(nodes)
      modifies `nameToId
      ensures nameToId == LiveNames(nodes)
      ensures forall a: U32 :: ByName(a).Some? ==> a != INVALID_ATOM && IsNewestAlive(nodes, a, ByName(a).value)
      ensures forall k :: 0 <= k < |nodes| && nodes[k].alive && nodes[k].name != INVALID_ATOM ==> ByName(nodes[k].name).Some?
    {
      nameToId := map[];
      var i := 0;
      while i < |nodes|
        invariant 0 <= i <= |nodes| && nameToId == LiveNames(nodes[..i])
      {
        assert nodes[..i + 1][..i] == nodes[..i];
        if nodes[i].name != INVALID_ATOM && nodes[i].alive {
          nameToId := nameToId[nodes[i].name := nodes[i].id];
        }
        i := i + 1;
      }
      assert nodes[..|nodes|] == nodes;
      LiveNamesExact(nodes);
    }

    method BuildKinds(nodes: seq<Node>)
      modifies `kindToIds
      ensures forall kind: U32 :: ByKind(kind) == if kind == INVALID_KIND then [] else OfKind(nodes, |nodes|, kind)
    {
      kindToIds := map[];
      var i := 0;
      assert KindsTo(nodes, 0, map[]);
      hide OfKind, KindsTo, ListOf;
      while i < |nodes|
        invariant 0 <= i <= |nodes| && KindsTo(nodes, i, kindToIds)
      {
        var n := nodes[i];
        KindsStep(nodes, i, kindToIds);
        if n.kind != INVALID_KIND {
          kindToIds := kindToIds[n.kind := ByKind(n.kind) + [n.id]];
        }
        i := i + 1;
      }
      KindsAnswer(nodes, kindToIds);
    }

    method BuildReverse(nodes: seq<Node>)
      modifies `reverseAdj
      ensures |reverseAdj| == |nodes|
      ensures forall t: nat :: t < |nodes| ==> Referrers(t) == ReferrersOf(nodes, |nodes|, t)
    {
      hide Mentions, Repeated;
      reverseAdj := seq(|nodes|, _ => []);
      var i := 0;
      while i < |nodes|
        invariant 0 <= i <= |nodes| == |reverseAdj|
        invariant forall t: nat :: t < |nodes| ==> reverseAdj[t] == ReferrersOf(nodes, i, t)
      {
        var n := nodes[i];
        var listed := AddEdges(reverseAdj, n.id, n.refs);
        listed := AddEdges(listed, n.id, n.children);
        forall t: nat | t < |nodes| ensures listed[t] == ReferrersOf(nodes, i + 1, t) {
          RepeatedAppend(reverseAdj[t], n.id, Mentions(n.refs, t), Mentions(n.children, t));
        }
        reverseAdj := listed;
        i := i + 1;
      }
    }
  }

  lemma RepeatedAppend(before: seq<nat>, id: nat, m: nat, n: nat)
    ensures before + Repeated(id, m) + Repeated(id, n) == before + Repeated(id, m + n)
  {
  }

  /** List source under each in-range target, once a mention. */
  method AddEdges(adj: seq<seq<nat>>, source: nat, targets: seq<nat>) returns (adj': seq<seq<nat>>)
    ensures |adj'| == |adj|
    ensures forall t: nat :: t < |adj| ==> adj'[t] == adj[t] + Repeated(source, Mentions(targets, t))
  {
    adj' := adj;
    var j := 0;
    assert targets[..0] == [] && forall t: nat :: Mentions(targets[..0], t) == 0;
    while j < |targets|
      invariant 0 <= j <= |targets| && |adj'| == |adj|
      invariant forall t: nat :: t < |adj| ==> adj'[t] == adj[t] + Repeated(source, Mentions(targets[..j], t))
    {
      assert targets[..j + 1][..j] == targets[..j];
      var t := targets[j];
      if t < |adj'| {
        adj' := adj'[t := adj'[t] + [source]];
      }
      j := j + 1;
    }
    assert targets[..|targets|] == targets;
  }

  // ----- against the machine's own name table -----

  /** Wherever the machine resolves a name, the newest live bearer is its answer. */
  lemma IndexAgreesWithFind(schema: Schema, st: VmState, name: U32, k: nat)
    requires Inv(schema, st) && st.Find(name) == Some(k)
    ensures IsNewestAlive(st.nodes, name, k)
  {
    assert IsNewest(st.nodes, name, k);
  }

  lemma NewestAliveUnique(nodes: seq<Node>, name: U32, j: nat, k: nat)
    requires IsNewestAlive(nodes, name, j) && IsNewestAlive(nodes, name, k)
    ensures j == k
  {
  }

  lemma {:induction false} NewestExists(nodes: seq<Node>, name: U32, k: nat) returns (newest: nat)
    requires k < |nodes| && nodes[k].name == name
    ensures newest >= k && IsNewest(nodes, name, newest)
    decreases |nodes| - k
  {
    if j: nat :| k < j < |nodes| && nodes[j].name == name {
      newest := NewestExists(nodes, name, j);
    } else {
      newest := k;
    }
  }

  /** The two disagree exactly when a name's newest bearer was dropped while an
      older one lives: the index then answers and the machine does not. */
  lemma IndexDiffersIff(schema: Schema, st: VmState, name: U32, k: nat)
    requires Inv(schema, st) && name != INVALID_ATOM && IsNewestAlive(st.nodes, name, k)
    ensures st.Find(name) != Some(k) <==> exists j: nat :: k < j && IsNewest(st.nodes, name, j)
    ensures st.Find(name) != Some(k) ==> st.Find(name).None?
  {
    FindIsNewestAlive(schema, st, name);
    if st.Find(name).Some? {
      IndexAgreesWithFind(schema, st, name, st.Find(name).value);
      NewestAliveUnique(st.nodes, name, k, st.Find(name).value);
      assert IsNewest(st.nodes, name, k);
    } else {
      var j := NewestExists(st.nodes, name, k);
    }
  }

  // ----- the precomputed index -----

  /** Read n entries; count those the built index disagrees with. */
  function ReadEntries(s: seq<Byte>, n: nat, atomCount: nat, nodeCount: nat, byName: map<U32, nat>): Result<(nat, seq<Byte>)>
    decreases n
  {
    hide ReadVarintU32;
    if n == 0 then Ok((0, s))
    else
      var (name, s1) :- ReadVarintU32(s);
      var (node, s2) :- ReadVarintU32(s1);
      if name != INVALID_ATOM && name >= atomCount then Err(BadXref)
      else if node != INVALID_NODE && node >= nodeCount then Err(BadXref)
      else
        var (rest, s3) :- ReadEntries(s2, n - 1, atomCount, nodeCount, byName);
        var actual := if name in byName then byName[name] else INVALID_NODE;
        Ok((rest + (if actual != node then 1 else 0), s3))
  }

  function ReadXref(s: seq<Byte>, atomCount: nat, nodeCount: nat, lim: Limits, byName: map<U32, nat>): Result<(nat, seq<Byte>)> {
    var (n, s1) :- ReadVarintU32(s);
    if n > lim.maxNodes then Err(LimitExceeded) else ReadEntries(s1, n, atomCount, nodeCount, byName)
  }

  datatype XrefEntry = XrefEntry(name: U32, node: U32)

  function EntriesBytes(entries: seq<XrefEntry>): seq<Byte> {
    if entries == [] then []
    else Varint(entries[0].name) + Varint(entries[0].node) + EntriesBytes(entries[1..])
  }

  /** An entry that contradicts the built index. */
  predicate Stale(byName: map<U32, nat>, e: XrefEntry) {
    (if e.name in byName then byName[e.name] else INVALID_NODE) != e.node
  }

  function StaleCount(byName: map<U32, nat>, entries: seq<XrefEntry>): nat {
    if entries == [] then 0
    else StaleCount(byName, entries[1..]) + if Stale(byName, entries[0]) then 1 else 0
  }

  predicate EntryInRange(e: XrefEntry, atomCount: nat, nodeCount: nat) {
    (e.name == INVALID_ATOM || e.name < atomCount) && (e.node == INVALID_NODE || e.node < nodeCount)
  }

  /** Reconciling encoded in-range entries accepts them and reports exactly
      those that contradict the built index. */
  lemma {:induction false} EntriesRoundTrip(entries: seq<XrefEntry>, atomCount: nat, nodeCount: nat, byName: map<U32, nat>, rest: seq<Byte>)
    requires forall i :: 0 <= i < |entries| ==> EntryInRange(entries[i], atomCount, nodeCount)
    ensures ReadEntries(EntriesBytes(entries) + rest, |entries|, atomCount, nodeCount, byName)
         == Ok((StaleCount(byName, entries), rest))
  {
    hide Varint, ReadVarintU32;
    if entries == [] {
      assert EntriesBytes(entries) + rest == rest;
    } else {
      var tail := EntriesBytes(entries[1..]) + rest;
      var e := entries[0];
      assert EntriesBytes(entries) + rest == Varint(e.name) + (Varint(e.node) + tail);
      VarintU32RoundTrip(e.name, Varint(e.node) + tail);
      VarintU32RoundTrip(e.node, tail);
      EntriesRoundTrip(entries[1..], atomCount, nodeCount, byName, rest);
    }
  }

  method DecodeAndReconcile(r: ByteReader, atomCount: nat, nodeCount: nat, lim: Limits, byName: map<U32, nat>)
    returns (res: Result<nat>)
    requires r.Valid()
    modifies r`pos
    ensures r.Reads(old(r.Rest()), ReadXref(old(r.Rest()), atomCount, nodeCount, lim, byName), res)
  {
    hide ReadVarintU32;
    var n :- r.VarintU32();
    if n > lim.maxNodes {
      return Err(LimitExceeded);
    }
    ghost var spec := ReadEntries(r.Rest(), n, atomCount, nodeCount, byName);
    var warnings, i := 0, 0;
    while i < n
      invariant 0 <= i <= n && r.Valid()
      invariant match ReadEntries(r.Rest(), n - i, atomCount, nodeCount, byName)
                case Ok(tail) => spec == Ok((warnings + tail.0, tail.1))
                case Err(code) => spec == Err(code)
    {
      var name :- r.VarintU32();
      var node :- r.VarintU32();
      if name != INVALID_ATOM && name >= atomCount {
        return Err(BadXref);
      }
      if node != INVALID_NODE && node >= nodeCount {
        return Err(BadXref);
      }
      var actual := if name in byName then byName[name] else INVALID_NODE;
      if actual != node {
        warnings := warnings + 1;
      }
      i := i + 1;
    }
    return Ok(warnings);
  }
}
