/** The container builder, and what loading a built container gives back. */
module Builder {
  import opened Basics
  import opened Codec
  import opened Model
  import opened Atoms
  import opened SchemaCodec
  import opened Heap
  import opened ReplayVm
  import opened VmInvariants
  import opened Journal
  import opened Sections
  import opened Container
  import Xref

  // ----- what a producer has declared -----

  datatype Program = Program(
    atoms: seq<Text>,
    kinds: seq<KindDef>,
    heap: seq<HeapNode>,
    ops: seq<Op>,
    xref: seq<Xref.XrefEntry>,
    meta: seq<MetaEntry>,
    emitXref: bool,
    emitMeta: bool,
    flags: U16)

  function AtomPoolBytes(atoms: seq<Text>): seq<Byte> {
    Varint(|atoms|) + AtomsBytes(atoms)
  }

  /** The journal payload carries a 32-bit count. */
  function JournalPayload(ops: seq<Op>): seq<Byte> {
    Varint(|ops| % TWO32) + OpsBytes(ops)
  }

  function XrefBytes(entries: seq<Xref.XrefEntry>): seq<Byte> {
    Varint(|entries|) + Xref.EntriesBytes(entries)
  }

  function MetaBytes(entries: seq<MetaEntry>): seq<Byte> {
    Varint(|entries|) + MetaEntriesBytes(entries)
  }

  function SectionsOf(p: Program): (r: seq<Section>)
    ensures 4 <= |r| <= 6
    ensures TagsDistinct(r)
  {
    var fixed := [Section(TAG_ATOM, AtomPoolBytes(p.atoms)), Section(TAG_SCHEMA, SchemaBytes(p.kinds)),
                  Section(TAG_HEAP, HeapBytes(p.heap)), Section(TAG_JOURNAL, JournalPayload(p.ops))];
    fixed
      + (if p.emitXref then [Section(TAG_XREF, XrefBytes(p.xref))] else [])
      + (if p.emitMeta then [Section(TAG_META, MetaBytes(p.meta))] else [])
  }

  function Serialized(p: Program): seq<Byte> {
    FileBytes(p.flags, SectionsOf(p))
  }

  // ----- the round trip -----

  function EnvOf(p: Program, lim: Limits): Env {
    Env(Schema(p.kinds), |p.atoms|, lim)
  }

  /** In-range ids, values of the declared types, and counts within limits. */
  ghost predicate WellFormed(p: Program, lim: Limits) {
    && |SectionsOf(p)| <= lim.maxSections && |Serialized(p)| < TWO32
    && AtomsFit(p.atoms, lim)
    && SchemaFits(p.kinds, |p.atoms|, lim)
    && HeapFits(p.heap, EnvOf(p, lim))
    && |p.ops| <= lim.maxJournalOps && |p.ops| < TWO32
    && (forall op :: op in p.ops ==> Encodable(op, lim))
    && (p.emitMeta ==> MetaInRange(p, lim))
  }

  ghost predicate MetaInRange(p: Program, lim: Limits) {
    && |p.meta| <= lim.maxAtoms && |p.meta| < TWO32
    && forall i :: 0 <= i < |p.meta| ==> p.meta[i].key < |p.atoms| && EnvOf(p, lim).NameOk(p.meta[i].value)
  }

  ghost predicate XrefInRange(p: Program, lim: Limits, nodeCount: nat) {
    p.emitXref ==>
      && |p.xref| <= lim.maxNodes && |p.xref| < TWO32
      && forall i :: 0 <= i < |p.xref| ==> Xref.EntryInRange(p.xref[i], |p.atoms|, nodeCount)
  }

  lemma BuiltHeapIsPositional(id: nat, nodes: seq<HeapNode>)
    ensures forall k :: 0 <= k < |nodes| ==> BuiltAll(id, nodes)[k].id == id + k
    decreases |nodes|
  {
    if nodes != [] {
      BuiltHeapIsPositional(id + 1, nodes[1..]);
    }
  }

  /** The machine's state before the journal. */
  ghost function StartState(p: Program): (st: VmState)
    ensures st.Safe()
  {
    BuiltHeapIsPositional(0, p.heap);
    Seeded(BuiltAll(0, p.heap))
  }

  /** What the emitted operations do, run directly on the declared heap. */
  ghost function Replayed(p: Program, lim: Limits): Result<VmState> {
    RunOps(EnvOf(p, lim), StartState(p), p.ops)
  }

  ghost function Expected(p: Program, lim: Limits): Result<Loaded> {
    var st :- Closed(Replayed(p, lim));
    var byName := Xref.LiveNames(st.nodes);
    Ok(Loaded(FileHeader(1, 0, p.flags, |SectionsOf(p)|), p.atoms, Schema(p.kinds), st, byName,
              if p.emitXref then Xref.StaleCount(byName, p.xref) else 0,
              if p.emitMeta then MetaOnto(map[], p.meta) else map[], true))
  }

  /** The window of a tag is the payload filed under it. */
  ghost predicate Carved(file: seq<Byte>, entries: seq<Entry>, sections: seq<Section>)
  {
    && DirectoryOk(entries, |file|) && |entries| == |sections|
    && forall i :: 0 <= i < |entries| ==>
         && entries[i].tag == sections[i].tag
         && file[entries[i].offset..entries[i].offset + entries[i].length] == sections[i].payload
  }

  lemma WindowOf(file: seq<Byte>, entries: seq<Entry>, sections: seq<Section>, i: nat)
    requires Carved(file, entries, sections) && TagsDistinct(sections) && i < |sections|
    ensures Window(file, entries, sections[i].tag) == Some(sections[i].payload)
  {
    var found := FindEntry(entries, sections[i].tag);
    assert entries[i].tag == sections[i].tag;
    assert found.Some? && found.value == i;
  }

  lemma NoWindow(file: seq<Byte>, entries: seq<Entry>, sections: seq<Section>, tag: U32)
    requires Carved(file, entries, sections)
    requires forall i :: 0 <= i < |sections| ==> sections[i].tag != tag
    ensures Window(file, entries, tag) == None
  {
  }

  lemma SerializedIsCarved(p: Program, lim: Limits)
    requires |SectionsOf(p)| <= lim.maxSections && |Serialized(p)| < TWO32
    ensures var s := SectionsOf(p);
      var entries := EntriesOf(s, HEADER_SIZE + ENTRY_SIZE * |s|);
      && ReadDirectory(Serialized(p), |Serialized(p)|, lim) == Ok(((FileHeader(1, 0, p.flags, |s|), entries), Payloads(s)))
      && Carved(Serialized(p), entries, s)
  {
    hide SectionsOf, FileBytes, ReadDirectory, EntriesOf, Tiles;
    var s := SectionsOf(p);
    var start := HEADER_SIZE + ENTRY_SIZE * |s|;
    DirectoryRoundTrip(p.flags, s, lim);
    AcceptedDirectoryOk(Serialized(p), |Serialized(p)|, lim);
    WindowsTileTheFile(p.flags, s);
    TilesDisjoint(Serialized(p), s, EntriesOf(s, start), start);
  }

  /** What each section's window holds. */
  lemma WindowsOf(p: Program, file: seq<Byte>, entries: seq<Entry>)
    requires Carved(file, entries, SectionsOf(p))
    ensures Window(file, entries, TAG_ATOM) == Some(AtomPoolBytes(p.atoms))
    ensures Window(file, entries, TAG_SCHEMA) == Some(SchemaBytes(p.kinds))
    ensures Window(file, entries, TAG_HEAP) == Some(HeapBytes(p.heap))
    ensures Window(file, entries, TAG_JOURNAL) == Some(JournalPayload(p.ops))
    ensures Window(file, entries, TAG_XREF) == if p.emitXref then Some(XrefBytes(p.xref)) else None
    ensures Window(file, entries, TAG_META) == if p.emitMeta then Some(MetaBytes(p.meta)) else None
  {
    hide Window, SchemaBytes, HeapBytes, AtomPoolBytes, JournalPayload, XrefBytes, MetaBytes;
    var s := SectionsOf(p);
    forall i | 0 <= i < |s| ensures Window(file, entries, s[i].tag) == Some(s[i].payload) {
      WindowOf(file, entries, s, i);
    }
    assert s[0].tag == TAG_ATOM && s[1].tag == TAG_SCHEMA && s[2].tag == TAG_HEAP && s[3].tag == TAG_JOURNAL;
    if p.emitXref {
      assert s[4].tag == TAG_XREF;
    } else {
      NoWindow(file, entries, s, TAG_XREF);
    }
    if p.emitMeta {
      assert s[|s| - 1].tag == TAG_META;
    } else {
      NoWindow(file, entries, s, TAG_META);
    }
  }

  lemma AtomsLoad(p: Program, lim: Limits)
    requires AtomsFit(p.atoms, lim)
    ensures LoadAtoms(Some(AtomPoolBytes(p.atoms)), lim) == Ok(p.atoms)
  {
    hide ReadAtomPool, AtomsBytes, Varint;
    AtomPoolRoundTrip(p.atoms, lim, []);
    assert AtomPoolBytes(p.atoms) + [] == AtomPoolBytes(p.atoms);
  }

  lemma SchemaLoads(p: Program, lim: Limits)
    requires SchemaFits(p.kinds, |p.atoms|, lim)
    ensures LoadSchema(Some(SchemaBytes(p.kinds)), |p.atoms|, lim) == Ok(Schema(p.kinds))
  {
    hide ReadSchema, SchemaBytes;
    SchemaRoundTrip(p.kinds, |p.atoms|, lim, []);
    assert SchemaBytes(p.kinds) + [] == SchemaBytes(p.kinds);
  }

  lemma HeapLoads(p: Program, lim: Limits)
    requires HeapFits(p.heap, EnvOf(p, lim))
    ensures LoadHeap(Some(HeapBytes(p.heap)), EnvOf(p, lim)) == Ok(StartState(p))
  {
    hide ReadHeap, HeapBytes, HeapNodeFits;
    HeapRoundTrip(p.heap, EnvOf(p, lim), []);
    assert HeapBytes(p.heap) + [] == HeapBytes(p.heap);
  }

  lemma JournalLoads(p: Program, lim: Limits)
    requires WellFormed(p, lim)
    requires ValuesTyped(EnvOf(p, lim), StartState(p), p.ops)
    ensures LoadJournal(Some(JournalPayload(p.ops)), EnvOf(p, lim), StartState(p)) == Closed(Replayed(p, lim))
  {
    hide RunBytes, JournalBytes, RunOps, Inv, SectionsOf, Serialized, StartState;
    ReplayOfEncoded(EnvOf(p, lim), StartState(p), p.ops, []);
    assert JournalPayload(p.ops) == JournalBytes(p.ops) == JournalBytes(p.ops) + [] by {
      PayloadIsJournal(p.ops);
    }
  }

  lemma PayloadIsJournal(ops: seq<Op>)
    requires |ops| < TWO32
    ensures JournalPayload(ops) == JournalBytes(ops)
  {
  }

  lemma XrefLoads(p: Program, lim: Limits, nodes: seq<Node>)
    requires XrefInRange(p, lim, |nodes|)
    ensures LoadXref(if p.emitXref then Some(XrefBytes(p.xref)) else None, EnvOf(p, lim), nodes)
         == Ok(if p.emitXref then Xref.StaleCount(Xref.LiveNames(nodes), p.xref) else 0)
  {
    hide Varint, ReadVarintU32, Xref.ReadEntries, Xref.EntriesBytes, Xref.LiveNames;
    if p.emitXref {
      Xref.EntriesRoundTrip(p.xref, |p.atoms|, |nodes|, Xref.LiveNames(nodes), []);
      assert XrefBytes(p.xref) == Varint(|p.xref|) + (Xref.EntriesBytes(p.xref) + []);
      VarintU32RoundTrip(|p.xref|, Xref.EntriesBytes(p.xref) + []);
    }
  }

  lemma MetaLoads(p: Program, lim: Limits)
    requires WellFormed(p, lim)
    ensures LoadMeta(if p.emitMeta then Some(MetaBytes(p.meta)) else None, EnvOf(p, lim))
         == Ok(if p.emitMeta then MetaOnto(map[], p.meta) else map[])
  {
    hide Varint, ReadVarintU32, ReadMetaEntries, MetaEntriesBytes, MetaOnto, SectionsOf, Serialized;
    if p.emitMeta {
      MetaRoundTrip(p.meta, EnvOf(p, lim), map[], []);
      assert MetaBytes(p.meta) == Varint(|p.meta|) + (MetaEntriesBytes(p.meta) + []);
      VarintU32RoundTrip(|p.meta|, MetaEntriesBytes(p.meta) + []);
    }
  }

  /** Loading a built container rebuilds exactly the declared atoms, kinds and
      heap, replays exactly the emitted operations, and reports exactly the
      stale cross-references and the metadata; it fails exactly when, and with
      the code with which, the operations themselves fail or leave a group
      open. (A SET_FIELD value of the wrong type is the one failure the wire
      cannot carry, so a run that reaches one is excluded.) */
  lemma LoadOfSerialized(p: Program, lim: Limits)
    requires WellFormed(p, lim) && ValuesTyped(EnvOf(p, lim), StartState(p), p.ops)
    requires Closed(Replayed(p, lim)).Ok? ==> XrefInRange(p, lim, |Closed(Replayed(p, lim)).value.nodes|)
    ensures Load(Serialized(p), lim, true) == Expected(p, lim)
  {
    hide SectionsOf, Serialized, ReadDirectory, EntriesOf, Carved, Window, StartState, RunOps, Inv,
      LoadAtoms, LoadSchema, LoadHeap, LoadJournal, LoadXref, LoadMeta, XrefInRange,
      AtomPoolBytes, SchemaBytes, HeapBytes, JournalPayload, XrefBytes, MetaBytes, AtomsFit, SchemaFits, HeapFits;
    var s := SectionsOf(p);
    SerializedIsCarved(p, lim);
    var entries := EntriesOf(s, HEADER_SIZE + ENTRY_SIZE * |s|);
    AcceptedDirectoryOk(Serialized(p), |Serialized(p)|, lim);
    WindowsOf(p, Serialized(p), entries);
    AtomsLoad(p, lim);
    SchemaLoads(p, lim);
    HeapLoads(p, lim);
    JournalLoads(p, lim);
    if Closed(Replayed(p, lim)).Ok? {
      XrefLoads(p, lim, Closed(Replayed(p, lim)).value.nodes);
      MetaLoads(p, lim);
    }
  }

  /** In a built file the section windows are disjoint, in order, and tile
      everything after the directory. */
  lemma WindowsTile(p: Program, lim: Limits)
    requires |SectionsOf(p)| <= lim.maxSections && |Serialized(p)| < TWO32
    ensures var d := ReadDirectory(Serialized(p), |Serialized(p)|, lim);
      && d.Ok?
      && Tiles(Serialized(p), SectionsOf(p), d.value.0.1, HEADER_SIZE + ENTRY_SIZE * |SectionsOf(p)|)
      && forall i, j :: 0 <= i < j < |d.value.0.1| ==>
           d.value.0.1[i].offset + d.value.0.1[i].length <= d.value.0.1[j].offset
  {
    hide SectionsOf, FileBytes, ReadDirectory, EntriesOf, Tiles, Carved;
    var s := SectionsOf(p);
    var start := HEADER_SIZE + ENTRY_SIZE * |s|;
    SerializedIsCarved(p, lim);
    WindowsTileTheFile(p.flags, s);
    TilesDisjoint(Serialized(p), s, EntriesOf(s, start), start);
  }

  // ----- the builder -----

  datatype FieldSpec = FieldSpec(field: U32, bytes: seq<Byte>)

  /** A heap node as the builder keeps it, its values already encoded. */
  datatype NodeSpec = NodeSpec(kind: U32, name: U32, fields: seq<FieldSpec>)

  ghost predicate SpecOf(spec: NodeSpec, n: HeapNode) {
    && spec.kind == n.kind && spec.name == n.name && |spec.fields| == |n.fields|
    && forall j :: 0 <= j < |n.fields| ==>
         spec.fields[j].field == n.fields[j].field && spec.fields[j].bytes == ValueBytes(n.fields[j].value)
  }

  class ContainerBuilder {
    const pool: AtomPool
    const journalBody: ByteWriter
    var kinds: seq<KindDef>
    var heap: seq<NodeSpec>
    var journalOps: U32
    var xref: seq<Xref.XrefEntry>
    var meta: seq<MetaEntry>
    var emitXref: bool
    var emitMeta: bool
    var headerFlags: U16
    ghost var declared: seq<HeapNode>
    ghost var ops: seq<Op>

    /** The encoded state is the encoding of what has been declared, and the
        pool never holds a string twice. */
    ghost predicate Valid()
      reads this, pool, journalBody
    {
      && pool.Valid() && Distinct(pool.atoms)
      && journalBody.buf == OpsBytes(ops) && journalOps == |ops| % TWO32
      && |heap| == |declared|
      && forall i :: 0 <= i < |heap| ==> SpecOf(heap[i], declared[i])
    }

    ghost function Contents(): Program
      reads this, pool
    {
      Program(pool.atoms, kinds, declared, ops, xref, meta, emitXref, emitMeta, headerFlags)
    }

    constructor ()
      ensures Valid() && fresh(pool) && fresh(journalBody)
      ensures Contents() == Program([], [], [], [], [], [], false, false, 0)
    {
      pool := new AtomPool();
      journalBody := new ByteWriter();
      kinds, heap, journalOps, xref, meta := [], [], 0, [], [];
      emitXref, emitMeta, headerFlags := false, false, 0;
      declared, ops := [], [];
    }

    method Atom(text: Text) returns (id: nat)
      requires Valid()
      modifies pool
      ensures Valid() && FirstIndex(pool.atoms, text) == Some(id)
      ensures Contents() == old(Contents()).(atoms :=
        if text in old(pool.atoms) then old(pool.atoms) else old(pool.atoms) + [text])
    {
      id := pool.Intern(text);
    }

    method DefineKind(name: U32, fields: seq<FieldDef>) returns (id: nat)
      requires Valid()
      modifies this
      ensures Valid() && id == |old(kinds)|
      ensures Contents() == old(Contents()).(kinds := old(kinds) + [KindDef(name, fields)])
    {
      id := |kinds|;
      kinds := kinds + [KindDef(name, fields)];
    }

    method AddHeapNode(kind: U32, name: U32) returns (id: nat)
      requires Valid()
      modifies this
      ensures Valid() && id == |old(heap)|
      ensures Contents() == old(Contents()).(heap := old(declared) + [HeapNode(kind, name, [])])
    {
      id := |heap|;
      heap := heap + [NodeSpec(kind, name, [])];
      declared := declared + [HeapNode(kind, name, [])];
    }

    /** Attach an encoded value to a heap node. */
    method HeapField(node: nat, field: U32, v: Value)
      requires Valid() && node < |heap| && v != Invalid && (v.ListV? ==> |v.items| < TWO64)
      modifies this
      ensures Valid()
      ensures Contents() == old(Contents()).(heap :=
        old(declared)[node := old(declared)[node].(fields := old(declared)[node].fields + [FieldValue(field, v)])])
    {
      hide ValueBytes;
      var w := new ByteWriter();
      EncodeValue(v, w);
      assert w.buf == ValueBytes(v);
      var spec := heap[node];
      heap := heap[node := spec.(fields := spec.fields + [FieldSpec(field, w.buf)])];
      declared := declared[node := declared[node].(fields := declared[node].fields + [FieldValue(field, v)])];
    }

    /** Append one operation to the journal body. */
    method Emit(op: Op)
      requires Valid()
      requires op.SetField? ==> op.value != Invalid && (op.value.ListV? ==> |op.value.items| < TWO64)
      requires op.SetField? ==> op.node < TWO32
      modifies this, journalBody
      ensures Valid() && Contents() == old(Contents()).(ops := old(ops) + [op])
    {
      hide OpsBytes, OpBytes, SpecOf;
      PutOp(journalBody, op);
      OpsBytesAppend(ops, [op]);
      OpsBytesOne(op);
      journalOps := (journalOps + 1) % TWO32;
      ops := ops + [op];
    }

    method XrefEntry(name: U32, node: U32)
      requires Valid()
      modifies this
      ensures Valid()
      ensures Contents() == old(Contents()).(xref := old(xref) + [Xref.XrefEntry(name, node)], emitXref := true)
    {
      xref := xref + [Xref.XrefEntry(name, node)];
      emitXref := true;
    }

    method AddMetaEntry(key: U32, value: U32)
      requires Valid()
      modifies this
      ensures Valid()
      ensures Contents() == old(Contents()).(meta := old(meta) + [MetaEntry(key, value)], emitMeta := true)
    {
      meta := meta + [MetaEntry(key, value)];
      emitMeta := true;
    }

    /** Lay the declared program out as a container. */
    method Serialize() returns (bytes: seq<Byte>)
      requires Valid() && Countable(Contents())
      ensures bytes == Serialized(Contents())
    {
      hide FileBytes, AtomPoolBytes, SchemaBytes, HeapBytes, OpsBytes, XrefBytes, MetaBytes, SpecOf, Varint;
      var atoms := EncodeAtoms(pool.atoms);
      var schema := EncodeSchema(kinds);
      var heapBytes := EncodeHeap(heap, declared);
      var journal := new ByteWriter();
      journal.PutVarint(journalOps);
      journal.PutRaw(journalBody.buf);
      assert journal.buf == JournalPayload(ops);
      var sections := [Section(TAG_ATOM, atoms.buf), Section(TAG_SCHEMA, schema.buf),
                       Section(TAG_HEAP, heapBytes.buf), Section(TAG_JOURNAL, journal.buf)];
      if emitXref {
        var w := EncodeXref(xref);
        sections := sections + [Section(TAG_XREF, w.buf)];
      }
      if emitMeta {
        var w := EncodeMeta(meta);
        sections := sections + [Section(TAG_META, w.buf)];
      }
      assert sections == SectionsOf(Contents());
      var out := Layout(headerFlags, sections);
      return out.buf;
    }
  }

  /** Sizes a 64-bit machine can hold. */
  ghost predicate Countable(p: Program) {
    && |p.atoms| < TWO64 && (forall t :: t in p.atoms ==> |t| < TWO64)
    && |p.kinds| < TWO64 && (forall k :: k in p.kinds ==> |k.fields| < TWO64)
    && |p.heap| < TWO64 && (forall n :: n in p.heap ==> |n.fields| < TWO64)
    && |p.xref| < TWO64 && |p.meta| < TWO64
  }

  method PutOp(w: ByteWriter, op: Op)
    requires op.SetField? ==> op.node < TWO32 && (op.value.ListV? ==> |op.value.items| < TWO64)
    modifies w
    ensures w.buf == old(w.buf) + OpBytes(op)
  {
    hide Varint, ValueBytes;
    w.PutU8(OpByte(op));
    match op {
      case NewNode(kind, name) => w.PutVarint(kind); w.PutVarint(name);
      case SetField(node, field, value) =>
        w.PutVarint(node);
        w.PutVarint(field);
        EncodeValue(value, w);
      case BeginGroup(owner, hint) => w.PutVarint(owner); w.PutVarint(hint);
      case EndGroup =>
      case AddChild(child) => w.PutVarint(child);
      case LinkRef(src, field, target) => w.PutVarint(src); w.PutVarint(field); w.PutVarint(target);
      case DropNode(node) => w.PutVarint(node);
      case Snapshot(tag) => w.PutVarint(tag);
      case SetMeta(key, value) => w.PutVarint(key); w.PutVarint(value);
      case Nop =>
    }
    assert w.buf == old(w.buf) + ([OpByte(op)] + OperandBytes(op));
  }

  method EncodeAtoms(atoms: seq<Text>) returns (w: ByteWriter)
    requires |atoms| < TWO64 && forall t :: t in atoms ==> |t| < TWO64
    ensures fresh(w) && w.buf == AtomPoolBytes(atoms)
  {
    hide Varint, LpString, AtomsBytes;
    w := new ByteWriter();
    w.PutVarint(|atoms|);
    var i := 0;
    assert atoms[0..] == atoms;
    while i < |atoms|
      invariant 0 <= i <= |atoms| && fresh(w)
      invariant w.buf + AtomsBytes(atoms[i..]) == AtomPoolBytes(atoms)
    {
      AtomsStep(atoms, i, w.buf);
      w.PutLpString(atoms[i]);
      i := i + 1;
    }
    NothingLeft();
    assert atoms[|atoms|..] == [];
  }

  lemma NothingLeft()
    ensures AtomsBytes([]) == [] && Xref.EntriesBytes([]) == [] && MetaEntriesBytes([]) == [] && FieldValuesBytes([]) == []
    ensures forall id: nat :: HeapNodesBytes(id, []) == []
  {
  }

  lemma AtomsStep(atoms: seq<Text>, i: nat, before: seq<Byte>)
    requires i < |atoms|
    ensures before + AtomsBytes(atoms[i..]) == before + LpString(atoms[i]) + AtomsBytes(atoms[i + 1..])
  {
    hide LpString;
    assert atoms[i..][1..] == atoms[i + 1..];
  }

  method EncodeHeap(heap: seq<NodeSpec>, ghost declared: seq<HeapNode>) returns (w: ByteWriter)
    requires |heap| == |declared| < TWO64
    requires forall i :: 0 <= i < |heap| ==> SpecOf(heap[i], declared[i])
    requires forall n :: n in declared ==> |n.fields| < TWO64
    ensures fresh(w) && w.buf == HeapBytes(declared)
  {
    hide Varint, HeapNodesBytes, HeapNodeBytes, SpecOf;
    w := new ByteWriter();
    w.PutVarint(|heap|);
    var i := 0;
    assert declared[0..] == declared;
    while i < |heap|
      invariant 0 <= i <= |heap| && fresh(w)
      invariant w.buf + HeapNodesBytes(i, declared[i..]) == HeapBytes(declared)
    {
      HeapStep(declared, i, w.buf);
      EncodeNode(w, i, heap[i], declared[i]);
      i := i + 1;
    }
    NothingLeft();
    assert declared[|heap|..] == [];
  }

  lemma HeapStep(nodes: seq<HeapNode>, i: nat, before: seq<Byte>)
    requires i < |nodes|
    ensures before + HeapNodesBytes(i, nodes[i..]) == before + HeapNodeBytes(i, nodes[i]) + HeapNodesBytes(i + 1, nodes[i + 1..])
  {
    hide HeapNodeBytes;
    assert nodes[i..][1..] == nodes[i + 1..];
  }

  method EncodeNode(w: ByteWriter, id: U64, spec: NodeSpec, ghost n: HeapNode)
    requires SpecOf(spec, n) && |n.fields| < TWO64
    modifies w
    ensures w.buf == old(w.buf) + HeapNodeBytes(id, n)
  {
    hide Varint, FieldValuesBytes, ValueBytes;
    w.PutVarint(id);
    w.PutVarint(spec.kind);
    w.PutVarint(spec.name);
    w.PutVarint(|spec.fields|);
    var i := 0;
    assert n.fields[0..] == n.fields;
    assert w.buf + FieldValuesBytes(n.fields) == old(w.buf) + HeapNodeBytes(id, n);
    while i < |spec.fields|
      invariant 0 <= i <= |spec.fields|
      invariant w.buf + FieldValuesBytes(n.fields[i..]) == old(w.buf) + HeapNodeBytes(id, n)
    {
      FieldStep(n.fields, i, w.buf);
      w.PutVarint(spec.fields[i].field);
      w.PutRaw(spec.fields[i].bytes);
      i := i + 1;
    }
    NothingLeft();
    assert n.fields[|spec.fields|..] == [];
  }

  lemma FieldStep(fields: seq<FieldValue>, i: nat, before: seq<Byte>)
    requires i < |fields|
    ensures before + FieldValuesBytes(fields[i..])
         == before + Varint(fields[i].field) + ValueBytes(fields[i].value) + FieldValuesBytes(fields[i + 1..])
  {
    hide Varint, ValueBytes;
    assert fields[i..][1..] == fields[i + 1..];
  }

  method EncodeXref(entries: seq<Xref.XrefEntry>) returns (w: ByteWriter)
    requires |entries| < TWO64
    ensures fresh(w) && w.buf == XrefBytes(entries)
  {
    hide Varint, Xref.EntriesBytes;
    w := new ByteWriter();
    w.PutVarint(|entries|);
    var i := 0;
    assert entries[0..] == entries;
    while i < |entries|
      invariant 0 <= i <= |entries| && fresh(w)
      invariant w.buf + Xref.EntriesBytes(entries[i..]) == XrefBytes(entries)
    {
      XrefStep(entries, i, w.buf);
      w.PutVarint(entries[i].name);
      w.PutVarint(entries[i].node);
      i := i + 1;
    }
    NothingLeft();
    assert entries[|entries|..] == [];
  }

  lemma XrefStep(entries: seq<Xref.XrefEntry>, i: nat, before: seq<Byte>)
    requires i < |entries|
    ensures before + Xref.EntriesBytes(entries[i..])
         == before + Varint(entries[i].name) + Varint(entries[i].node) + Xref.EntriesBytes(entries[i + 1..])
  {
    hide Varint;
    assert entries[i..][1..] == entries[i + 1..];
  }

  method EncodeMeta(entries: seq<MetaEntry>) returns (w: ByteWriter)
    requires |entries| < TWO64
    ensures fresh(w) && w.buf == MetaBytes(entries)
  {
    hide Varint, MetaEntriesBytes;
    w := new ByteWriter();
    w.PutVarint(|entries|);
    var i := 0;
    assert entries[0..] == entries;
    while i < |entries|
      invariant 0 <= i <= |entries| && fresh(w)
      invariant w.buf + MetaEntriesBytes(entries[i..]) == MetaBytes(entries)
    {
      MetaStep(entries, i, w.buf);
      w.PutVarint(entries[i].key);
      w.PutVarint(entries[i].value);
      i := i + 1;
    }
    NothingLeft();
    assert entries[|entries|..] == [];
  }

  lemma MetaStep(entries: seq<MetaEntry>, i: nat, before: seq<Byte>)
    requires i < |entries|
    ensures before + MetaEntriesBytes(entries[i..])
         == before + Varint(entries[i].key) + Varint(entries[i].value) + MetaEntriesBytes(entries[i + 1..])
  {
    hide Varint;
    assert entries[i..][1..] == entries[i + 1..];
  }
}
