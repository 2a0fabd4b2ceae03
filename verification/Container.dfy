/** The loading pipeline, from a container's bytes to a replayed and validated
    graph, and the soundness of every graph it accepts. */
module Container {
  import opened Basics
  import opened Codec
  import opened Model
  import opened Atoms
  import opened SchemaCodec
  import opened Heap
  import opened ReplayVm
  import opened VmInvariants
  import opened Validation
  import Xref
  import Sections

  // ----- standalone metadata -----

  datatype MetaEntry = MetaEntry(key: U32, value: U32)

  function MetaEntriesBytes(entries: seq<MetaEntry>): seq<Byte> {
    if entries == [] then []
    else Varint(entries[0].key) + Varint(entries[0].value) + MetaEntriesBytes(entries[1..])
  }

  function ReadMetaEntries(s: seq<Byte>, n: nat, env: Env, entries: map<U32, U32>): Result<(map<U32, U32>, seq<Byte>)>
    decreases n
  {
    hide ReadVarintU32;
    if n == 0 then Ok((entries, s))
    else
      var (key, s1) :- ReadVarintU32(s);
      var (value, s2) :- ReadVarintU32(s1);
      if key >= env.atomCount then Err(AtomOutOfRange)
      else if !env.NameOk(value) then Err(AtomOutOfRange)
      else ReadMetaEntries(s2, n - 1, env, entries[key := value])
  }

  function ReadMeta(s: seq<Byte>, env: Env): Result<(map<U32, U32>, seq<Byte>)> {
    var (n, s1) :- ReadVarintU32(s);
    if n > env.lim.maxAtoms then Err(LimitExceeded) else ReadMetaEntries(s1, n, env, map[])
  }

  /** Later entries win. */
  function MetaOnto(meta: map<U32, U32>, entries: seq<MetaEntry>): map<U32, U32>
    decreases |entries|
  {
    if entries == [] then meta else MetaOnto(meta[entries[0].key := entries[0].value], entries[1..])
  }

  lemma {:induction false} MetaRoundTrip(entries: seq<MetaEntry>, env: Env, meta: map<U32, U32>, rest: seq<Byte>)
    requires forall i :: 0 <= i < |entries| ==> entries[i].key < env.atomCount && env.NameOk(entries[i].value)
    ensures ReadMetaEntries(MetaEntriesBytes(entries) + rest, |entries|, env, meta) == Ok((MetaOnto(meta, entries), rest))
    decreases |entries|
  {
    hide Varint, ReadVarintU32;
    if entries == [] {
      assert MetaEntriesBytes(entries) + rest == rest;
    } else {
      var e, tail := entries[0], MetaEntriesBytes(entries[1..]) + rest;
      assert MetaEntriesBytes(entries) + rest == Varint(e.key) + (Varint(e.value) + tail);
      VarintU32RoundTrip(e.key, Varint(e.value) + tail);
      VarintU32RoundTrip(e.value, tail);
      MetaRoundTrip(entries[1..], env, meta[e.key := e.value], rest);
    }
  }

  method DecodeMeta(r: ByteReader, env: Env) returns (res: Result<map<U32, U32>>)
    requires r.Valid()
    modifies r`pos
    ensures r.Reads(old(r.Rest()), ReadMeta(old(r.Rest()), env), res)
  {
    hide ReadVarintU32;
    var n :- r.VarintU32();
    if n > env.lim.maxAtoms {
      return Err(LimitExceeded);
    }
    ghost var spec := ReadMetaEntries(r.Rest(), n, env, map[]);
    var meta: map<U32, U32>, i := map[], 0;
    while i < n
      invariant 0 <= i <= n && r.Valid()
      invariant ReadMetaEntries(r.Rest(), n - i, env, meta) == spec
    {
      var key :- r.VarintU32();
      var value :- r.VarintU32();
      if key >= env.atomCount {
        return Err(AtomOutOfRange);
      }
      if value != INVALID_ATOM && value >= env.atomCount {
        return Err(AtomOutOfRange);
      }
      meta := meta[key := value];
      i := i + 1;
    }
    return Ok(meta);
  }

  // ----- the loading pipeline -----

  /** What a successful load holds. */
  datatype Loaded = Loaded(
    header: Sections.FileHeader,
    atoms: seq<Text>,
    schema: Schema,
    vm: VmState,
    byName: map<U32, nat>,
    xrefWarnings: nat,
    meta: map<U32, U32>,
    journalRan: bool)

  /** The bytes of the section with a tag, if the directory has one. */
  function Window(data: seq<Byte>, entries: seq<Sections.Entry>, tag: U32): Option<seq<Byte>>
    requires Sections.DirectoryOk(entries, |data|)
  {
    match Sections.FindEntry(entries, tag)
    case None => None
    case Some(i) => Some(data[entries[i].offset..entries[i].offset + entries[i].length])
  }

  function LoadAtoms(window: Option<seq<Byte>>, lim: Limits): Result<seq<Text>> {
    if window.None? then Ok([])
    else
      var (atoms, _) :- ReadAtomPool(window.value, lim);
      Ok(atoms)
  }

  function LoadSchema(window: Option<seq<Byte>>, atomCount: nat, lim: Limits): (r: Result<Schema>)
    ensures r.Ok? ==> r.value.Fits()
  {
    if window.None? then Ok(Schema([]))
    else
      var (kinds, _) :- ReadSchema(window.value, atomCount, lim);
      Ok(Schema(kinds))
  }

  /** The machine's starting state: seeded with the heap if there is one. */
  function LoadHeap(window: Option<seq<Byte>>, env: Env): (r: Result<VmState>)
    ensures r.Ok? ==> r.value.Safe()
  {
    hide *;
    if window.None? then
      EmptyOk(env.schema);
      InvSafe(env.schema, EMPTY);
      Ok(EMPTY)
    else
      var (heap, _) :- ReadHeap(window.value, env);
      AcceptedHeapIsOk(window.value, env);
      Ok(Seeded(heap))
  }

  lemma LoadedHeapKeeps(window: Option<seq<Byte>>, env: Env)
    requires LoadHeap(window, env).Ok?
    ensures Inv(env.schema, LoadHeap(window, env).value)
  {
    hide ReadHeap, Inv, HeapOk, Seeded, Positional;
    EmptyOk(env.schema);
    if window.Some? {
      AcceptedHeapIsOk(window.value, env);
      SeededOk(env.schema, ReadHeap(window.value, env).value.0);
    }
  }

  function LoadJournal(window: Option<seq<Byte>>, env: Env, st: VmState): (r: Result<VmState>)
    requires st.Safe()
    ensures r.Ok? ==> r.value.Safe()
  {
    hide *;
    if window.None? then Ok(st)
    else
      var (st', _) :- RunBytes(env, st, window.value);
      Ok(st')
  }

  lemma LoadedJournalKeeps(window: Option<seq<Byte>>, env: Env, st: VmState)
    requires st.Safe() && Inv(env.schema, st) && env.schema.Fits() && LoadJournal(window, env, st).Ok?
    ensures Inv(env.schema, LoadJournal(window, env, st).value)
  {
    hide RunBytes, Inv;
    if window.Some? {
      ReplayKeeps(env, st, window.value);
    }
  }

  function LoadXref(window: Option<seq<Byte>>, env: Env, nodes: seq<Node>): Result<nat> {
    if window.None? then Ok(0)
    else
      var (warnings, _) :- Xref.ReadXref(window.value, env.atomCount, |nodes|, env.lim, Xref.LiveNames(nodes));
      Ok(warnings)
  }

  function LoadMeta(window: Option<seq<Byte>>, env: Env): Result<map<U32, U32>> {
    if window.None? then Ok(map[])
    else
      var (meta, _) :- ReadMeta(window.value, env);
      Ok(meta)
  }

  /** What the sections the graph depends on amount to. */
  datatype Graph = Graph(
    header: Sections.FileHeader,
    entries: seq<Sections.Entry>,
    atoms: seq<Text>,
    schema: Schema,
    vm: VmState,
    journalRan: bool)

  ghost function LoadGraph(data: seq<Byte>, lim: Limits, runJournal: bool): (r: Result<Graph>)
    ensures r.Ok? ==> Sections.DirectoryOk(r.value.entries, |data|)
    ensures r.Ok? && r.value.journalRan ==> runJournal
  {
    hide Sections.ReadDirectory, LoadAtoms, LoadSchema, LoadHeap, LoadJournal;
    var ((header, entries), _) :- Sections.ReadDirectory(data, |data|, lim);
    Sections.AcceptedDirectoryOk(data, |data|, lim);
    var atoms :- LoadAtoms(Window(data, entries, Sections.TAG_ATOM), lim);
    var schema :- LoadSchema(Window(data, entries, Sections.TAG_SCHEMA), |atoms|, lim);
    var env := Env(schema, |atoms|, lim);
    var start :- LoadHeap(Window(data, entries, Sections.TAG_HEAP), env);
    var journal := if runJournal then Window(data, entries, Sections.TAG_JOURNAL) else None;
    var end :- LoadJournal(journal, env, start);
    Ok(Graph(header, entries, atoms, schema, end, journal.Some?))
  }

  /** Directory, atoms, schema, heap, journal, index, reconciliation, metadata:
      the first failure is the result. */
  ghost function Load(data: seq<Byte>, lim: Limits, runJournal: bool): Result<Loaded> {
    hide LoadGraph, LoadXref, LoadMeta;
    var g :- LoadGraph(data, lim, runJournal);
    var env := Env(g.schema, |g.atoms|, lim);
    var warnings :- LoadXref(Window(data, g.entries, Sections.TAG_XREF), env, g.vm.nodes);
    var meta :- LoadMeta(Window(data, g.entries, Sections.TAG_META), env);
    Ok(Loaded(g.header, g.atoms, g.schema, g.vm, Xref.LiveNames(g.vm.nodes), warnings, meta, g.journalRan))
  }

  lemma GraphIsSound(data: seq<Byte>, lim: Limits, runJournal: bool)
    requires LoadGraph(data, lim, runJournal).Ok?
    ensures var g := LoadGraph(data, lim, runJournal).value; g.schema.Fits() && Inv(g.schema, g.vm)
  {
    hide Sections.ReadDirectory, Sections.DirectoryOk, LoadAtoms, LoadSchema, LoadHeap, LoadJournal, Window, Inv;
    var (header, entries) := Sections.ReadDirectory(data, |data|, lim).value.0;
    Sections.AcceptedDirectoryOk(data, |data|, lim);
    var atoms := LoadAtoms(Window(data, entries, Sections.TAG_ATOM), lim).value;
    var schema := LoadSchema(Window(data, entries, Sections.TAG_SCHEMA), |atoms|, lim).value;
    var env := Env(schema, |atoms|, lim);
    var heap := Window(data, entries, Sections.TAG_HEAP);
    LoadedHeapKeeps(heap, env);
    LoadedJournalKeeps(if runJournal then Window(data, entries, Sections.TAG_JOURNAL) else None, env, LoadHeap(heap, env).value);
  }

  /** Whatever bytes load, the reconstructed graph satisfies the machine's
      invariant: typed, in range, exactly indexed, counters balanced. */
  lemma LoadedGraphIsSound(data: seq<Byte>, lim: Limits, runJournal: bool)
    requires Load(data, lim, runJournal).Ok?
    ensures var l := Load(data, lim, runJournal).value;
      Inv(l.schema, l.vm) && l.schema.Fits() && (l.journalRan ==> runJournal)
  {
    hide LoadGraph, LoadXref, LoadMeta, Inv;
    GraphIsSound(data, lim, runJournal);
  }

  class LoadedContainer {
    const lim: Limits
    const atoms: AtomPool
    const schema: Schema
    const sections: Sections.SectionTable
    const vm: ReplayVM
    const xref: Xref.XrefIndex
    const report: Report
    const sectionMeta: map<U32, U32>
    const xrefWarnings: nat
    const journalRan: bool

    constructor (lim: Limits, atoms: AtomPool, schema: Schema, sections: Sections.SectionTable, vm: ReplayVM,
                 xref: Xref.XrefIndex, report: Report, sectionMeta: map<U32, U32>, xrefWarnings: nat, journalRan: bool)
      ensures this.lim == lim && this.atoms == atoms && this.schema == schema && this.sections == sections
      ensures this.vm == vm && this.xref == xref && this.report == report
      ensures this.sectionMeta == sectionMeta && this.xrefWarnings == xrefWarnings && this.journalRan == journalRan
    {
      this.lim, this.atoms, this.schema, this.sections, this.vm := lim, atoms, schema, sections, vm;
      this.xref, this.report, this.sectionMeta, this.xrefWarnings := xref, report, sectionMeta, xrefWarnings;
      this.journalRan := journalRan;
    }

    /** The container holds what the pipeline computes, and a validator's
        report on the final graph. */
    ghost predicate Holds(l: Loaded, strict: bool)
      reads atoms, sections, vm, xref
    {
      && atoms.atoms == l.atoms && schema == l.schema && sections.header == l.header
      && vm.State() == l.vm && xref.nameToId == l.byName
      && xrefWarnings == l.xrefWarnings && sectionMeta == l.meta && journalRan == l.journalRan
      && Counts(schema, vm.nodes, |vm.nodes|, report)
      && report.issues == IssueList(schema, vm.nodes, |vm.nodes|, strict)
    }
  }

  /** Carve out a section, if the directory has it. */
  method Carve(base: ByteReader, table: Sections.SectionTable, tag: U32) returns (r: Option<ByteReader>)
    requires Sections.DirectoryOk(table.entries, |base.data|)
    ensures match Window(base.data, table.entries, tag)
            case None => r.None?
            case Some(bytes) => r.Some? && fresh(r.value) && r.value.Valid() && r.value.Rest() == bytes
  {
    var e := table.Find(tag);
    if e.None? {
      return None;
    }
    var w := base.Window(e.value.offset, e.value.length);
    return Some(w.value);
  }

  method BuildMachine(base: ByteReader, table: Sections.SectionTable, env: Env, runJournal: bool)
    returns (res: Result<ReplayVM>, ran: bool)
    requires Sections.DirectoryOk(table.entries, |base.data|) && env.schema.Fits()
    ensures var start := LoadHeap(Window(base.data, table.entries, Sections.TAG_HEAP), env);
            var journal := if runJournal then Window(base.data, table.entries, Sections.TAG_JOURNAL) else None;
            match start
            case Err(code) => res == Err(code)
            case Ok(st) =>
              match LoadJournal(journal, env, st)
              case Err(code) => res == Err(code)
              case Ok(end) => res.Ok? && fresh(res.value) && res.value.State() == end && ran == journal.Some?
  {
    hide ReadHeap, RunBytes, Inv, Sections.FindEntry;
    ran := false;
    var vm := new ReplayVM(env);
    var heapReader := Carve(base, table, Sections.TAG_HEAP);
    if heapReader.Some? {
      ghost var bytes := heapReader.value.Rest();
      var heap := DecodeHeap(heapReader.value, env);
      if heap.Err? {
        return Err(heap.code), false;
      }
      AcceptedHeapIsOk(bytes, env);
      vm.Seed(heap.value);
    }
    if runJournal {
      var journalReader := Carve(base, table, Sections.TAG_JOURNAL);
      if journalReader.Some? {
        var done := vm.Run(journalReader.value);
        if done.Err? {
          return Err(done.code), false;
        }
        ran := true;
      }
    }
    return Ok(vm), ran;
  }

  method OpenAtoms(base: ByteReader, table: Sections.SectionTable, lim: Limits) returns (res: Result<AtomPool>)
    requires Sections.DirectoryOk(table.entries, |base.data|)
    ensures match LoadAtoms(Window(base.data, table.entries, Sections.TAG_ATOM), lim)
            case Err(code) => res == Err(code)
            case Ok(atoms) => res.Ok? && fresh(res.value) && res.value.atoms == atoms
  {
    hide ReadAtomPool, Sections.FindEntry;
    var pool := new AtomPool();
    var r := Carve(base, table, Sections.TAG_ATOM);
    if r.Some? {
      var done := pool.Decode(r.value, lim);
      if done.Err? {
        return Err(done.code);
      }
    }
    return Ok(pool);
  }

  method OpenSchema(base: ByteReader, table: Sections.SectionTable, atomCount: nat, lim: Limits) returns (res: Result<Schema>)
    requires Sections.DirectoryOk(table.entries, |base.data|)
    ensures res == LoadSchema(Window(base.data, table.entries, Sections.TAG_SCHEMA), atomCount, lim)
  {
    hide ReadSchema, Sections.FindEntry;
    var r := Carve(base, table, Sections.TAG_SCHEMA);
    if r.None? {
      return Ok(Schema([]));
    }
    var kinds := DecodeSchema(r.value, atomCount, lim);
    match kinds {
      case Ok(ks) => return Ok(Schema(ks));
      case Err(code) => return Err(code);
    }
  }

  method Reconcile(base: ByteReader, table: Sections.SectionTable, env: Env, nodes: seq<Node>, xref: Xref.XrefIndex)
    returns (res: Result<nat>)
    requires Sections.DirectoryOk(table.entries, |base.data|) && xref.nameToId == Xref.LiveNames(nodes)
    ensures res == LoadXref(Window(base.data, table.entries, Sections.TAG_XREF), env, nodes)
  {
    hide Xref.ReadXref, Xref.LiveNames, Sections.FindEntry;
    var r := Carve(base, table, Sections.TAG_XREF);
    if r.None? {
      return Ok(0);
    }
    res := Xref.DecodeAndReconcile(r.value, env.atomCount, |nodes|, env.lim, xref.nameToId);
  }

  method OpenMeta(base: ByteReader, table: Sections.SectionTable, env: Env) returns (res: Result<map<U32, U32>>)
    requires Sections.DirectoryOk(table.entries, |base.data|)
    ensures res == LoadMeta(Window(base.data, table.entries, Sections.TAG_META), env)
  {
    hide ReadMeta, Sections.FindEntry;
    var r := Carve(base, table, Sections.TAG_META);
    if r.None? {
      return Ok(map[]);
    }
    res := DecodeMeta(r.value, env);
  }

  method BuildGraph(base: ByteReader, lim: Limits, runJournal: bool)
    returns (res: Result<ReplayVM>, table: Sections.SectionTable, atoms: AtomPool, schema: Schema, ran: bool)
    requires base.Valid() && base.Rest() == base.data
    modifies base`pos
    ensures match LoadGraph(base.data, lim, runJournal)
            case Err(code) => res == Err(code)
            case Ok(g) =>
              && res.Ok? && fresh(res.value) && res.value.State() == g.vm
              && fresh(table) && table.header == g.header && table.entries == g.entries
              && fresh(atoms) && atoms.atoms == g.atoms && schema == g.schema && ran == g.journalRan
  {
    hide Sections.ReadDirectory, Sections.FindEntry, Sections.DirectoryOk, LoadAtoms, LoadSchema, LoadHeap, LoadJournal, Window, Inv;
    table := new Sections.SectionTable();
    atoms := new AtomPool();
    schema, ran := Schema([]), false;
    var directory := table.Decode(base, |base.data|, lim);
    if directory.Err? {
      return Err(directory.code), table, atoms, schema, ran;
    }
    Sections.AcceptedDirectoryOk(base.data, |base.data|, lim);
    var pool := OpenAtoms(base, table, lim);
    if pool.Err? {
      return Err(pool.code), table, atoms, schema, ran;
    }
    atoms := pool.value;
    var kinds := OpenSchema(base, table, |atoms.atoms|, lim);
    if kinds.Err? {
      return Err(kinds.code), table, atoms, schema, ran;
    }
    schema := kinds.value;
    res, ran := BuildMachine(base, table, Env(schema, |atoms.atoms|, lim), runJournal);
  }

  method BuildIndex(nodes: seq<Node>) returns (xref: Xref.XrefIndex)
    requires Positional(nodes)
    ensures fresh(xref) && xref.nameToId == Xref.LiveNames(nodes)
  {
    hide Xref.IsNewestAlive, Xref.Mentions, Xref.LiveNames;
    xref := new Xref.XrefIndex();
    xref.Build(nodes);
  }

  method LoadContainer(data: seq<Byte>, lim: Limits, runJournal: bool, strict: bool) returns (res: Result<LoadedContainer>)
    ensures match Load(data, lim, runJournal)
            case Err(code) => res == Err(code)
            case Ok(l) => res.Ok? && fresh(res.value) && res.value.Holds(l, strict)
  {
    hide LoadGraph, LoadXref, LoadMeta, Sections.DirectoryOk, Window, Inv, Counts, IssueList, Positional, Xref.LiveNames;
    var base := new ByteReader(data);
    var machine, table, atoms, schema, ran := BuildGraph(base, lim, runJournal);
    var vm :- machine;
    var env := Env(schema, |atoms.atoms|, lim);
    GraphIsSound(data, lim, runJournal);
    InvPositional(schema, vm.State());
    var xref := BuildIndex(vm.nodes);
    var warnings :- Reconcile(base, table, env, vm.nodes, xref);
    var meta :- OpenMeta(base, table, env);
    var report := ValidateGraph(vm.nodes, schema, strict);
    var loaded := new LoadedContainer(lim, atoms, schema, table, vm, xref, report, meta, warnings, ran);
    return Ok(loaded);
  }

  lemma InvPositional(schema: Schema, st: VmState)
    requires Inv(schema, st)
    ensures Positional(st.nodes)
  {
    forall k | 0 <= k < |st.nodes| ensures st.nodes[k].id == k {
      assert NodeOk(schema, |st.nodes|, k, st.nodes[k]);
    }
  }
}
