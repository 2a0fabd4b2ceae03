/** Which encoded input each section decoder refuses, and with which code.
    Every number below is arbitrary, and so is what follows it. */
module Refusals {
  import opened Basics
  import opened Codec
  import opened Model
  import opened ReplayVm
  import Atoms
  import CompactorSpec
  import SchemaCodec
  import Heap
  import Container
  import Xref
  import DiffCodec
  import Migration
  import Registry

  /** Too many strings, one too long, or one cut off. */
  lemma AtomPools(lim: Limits, n: U32, len: U64, rest: seq<Byte>)
    ensures n > lim.maxAtoms ==> Atoms.ReadAtomPool(Varint(n) + rest, lim) == Err(LimitExceeded)
    ensures 0 < n <= lim.maxAtoms && (len > lim.maxAtomLen || len > |rest|) ==>
      Atoms.ReadAtomPool(Varint(n) + (Varint(len) + rest), lim) == Err(BadAtomPool)
  {
    VarintU32RoundTrip(n, rest);
    VarintU32RoundTrip(n, Varint(len) + rest);
    VarintRoundTrip(len, rest);
    hide Varint, ReadVarint, ReadVarintU32;
  }

  /** Too many kinds or fields, a name that is no atom, or a type byte above 4. */
  lemma Schemas(lim: Limits, atomCount: nat, n: U32, name: U32, count: U32, raw: Byte, rest: seq<Byte>)
    ensures n > lim.maxKinds ==> SchemaCodec.ReadSchema(Varint(n) + rest, atomCount, lim) == Err(LimitExceeded)
    ensures name >= atomCount ==> SchemaCodec.ReadKind(Varint(name) + rest, atomCount, lim) == Err(BadSchema)
    ensures name < atomCount && count > lim.maxFieldsPerKind ==>
      SchemaCodec.ReadKind(Varint(name) + (Varint(count) + rest), atomCount, lim) == Err(LimitExceeded)
    ensures name >= atomCount ==> SchemaCodec.ReadField(Varint(name) + rest, atomCount) == Err(BadSchema)
    ensures name < atomCount && raw > 4 ==> SchemaCodec.ReadField(Varint(name) + ([raw] + rest), atomCount) == Err(BadSchema)
  {
    VarintU32RoundTrip(n, rest);
    VarintU32RoundTrip(name, rest);
    VarintU32RoundTrip(name, Varint(count) + rest);
    VarintU32RoundTrip(count, rest);
    VarintU32RoundTrip(name, [raw] + rest);
    hide Varint, ReadVarintU32;
  }

  /** Too many nodes ... */
  lemma Heaps(env: Env, n: U32, rest: seq<Byte>)
    ensures n > env.lim.maxNodes ==> Heap.ReadHeap(Varint(n) + rest, env) == Err(LimitExceeded)
  {
    VarintU32RoundTrip(n, rest);
    hide Varint, ReadVarintU32;
  }

  /** ... a node out of sequence, of no kind, of no name or with more fields
      than its kind ... */
  lemma HeapNodes(env: Env, id: nat, onDisk: U32, kind: U32, name: U32, count: U32, rest: seq<Byte>)
    ensures onDisk != id ==> Heap.ReadHeapNode(Varint(onDisk) + rest, id, env) == Err(BadHeap)
    ensures onDisk == id && kind >= |env.schema.kinds| ==>
      Heap.ReadHeapNode(Varint(onDisk) + (Varint(kind) + rest), id, env) == Err(KindOutOfRange)
    ensures onDisk == id && kind < |env.schema.kinds| && name != INVALID_ATOM && name >= env.atomCount ==>
      Heap.ReadHeapNode(Varint(onDisk) + (Varint(kind) + (Varint(name) + rest)), id, env) == Err(AtomOutOfRange)
    ensures onDisk == id && kind < |env.schema.kinds| && (name == INVALID_ATOM || name < env.atomCount)
            && count > |env.schema.kinds[kind].fields| ==>
      Heap.ReadHeapNode(Varint(onDisk) + (Varint(kind) + (Varint(name) + (Varint(count) + rest))), id, env) == Err(BadHeap)
  {
    hide Varint, ReadVarintU32;
    VarintU32RoundTrip(onDisk, rest);
    VarintU32RoundTrip(onDisk, Varint(kind) + rest);
    VarintU32RoundTrip(kind, rest);
    VarintU32RoundTrip(onDisk, Varint(kind) + (Varint(name) + rest));
    VarintU32RoundTrip(kind, Varint(name) + rest);
    VarintU32RoundTrip(name, rest);
    VarintU32RoundTrip(onDisk, Varint(kind) + (Varint(name) + (Varint(count) + rest)));
    VarintU32RoundTrip(kind, Varint(name) + (Varint(count) + rest));
    VarintU32RoundTrip(name, Varint(count) + rest);
    VarintU32RoundTrip(count, rest);
  }

  /** ... a field its kind does not declare, or a value that does not decode. */
  lemma HeapFields(lim: Limits, kind: KindDef, field: U32, rest: seq<Byte>)
    ensures field >= |kind.fields| ==> Heap.ReadFieldValue(Varint(field) + rest, kind, lim) == Err(FieldOutOfRange)
    ensures field < |kind.fields| && ReadValue(rest, kind.fields[field].ftype, lim).Err? ==>
      Heap.ReadFieldValue(Varint(field) + rest, kind, lim) == Err(BadHeap)
  {
    VarintU32RoundTrip(field, rest);
    hide Varint, ReadVarintU32;
  }

  /** A list beyond the limit, a double cut off, or a value of no type. */
  lemma Values(lim: Limits, n: U32, rest: seq<Byte>)
    ensures n > lim.maxListLen ==> ReadValue(Varint(n) + rest, TList, lim) == Err(LimitExceeded)
    ensures |rest| < 8 ==> ReadValue(rest, TFloat, lim) == Err(Truncated)
    ensures ReadValue(rest, TInvalid, lim) == Err(BadValue)
  {
    VarintU32RoundTrip(n, rest);
    hide Varint, ReadVarintU32;
  }

  /** An opcode byte that is none of the ten, or a journal that is too long. */
  lemma Journals(env: Env, st: VmState, raw: Byte, n: U32, rest: seq<Byte>)
    requires st.Safe()
    ensures raw == 0 || raw > 10 ==> ExecOne(env, st, [raw] + rest) == Err(BadOpcode)
    ensures ExecOne(env, st, []) == Err(Truncated)
    ensures n > env.lim.maxJournalOps ==> RunBytes(env, st, Varint(n) + rest) == Err(LimitExceeded)
  {
    VarintU32RoundTrip(n, rest);
    hide Varint, ReadVarintU32, ExecMany, ExecNewNode, ExecSetField, ExecBeginGroup, ExecAddChild, ExecLinkRef, ExecDropNode,
      ExecSnapshot, ExecSetMeta, EndGroupStep;
  }

  /** To the compactor, too, a group must be open to be closed, and none may stay
      open; but it lets a child be added outside any group. */
  lemma CompactedJournals(schema: Schema, ds: CompactorSpec.DecodeState, raw: Byte, name: U32, hint: U32, rest: seq<Byte>)
    ensures raw == 0 || raw > 10 ==> CompactorSpec.DecodeOp(schema, ds, [raw] + rest) == Err(BadOpcode)
    ensures ds.stack == [] ==> CompactorSpec.DecodeOp(schema, ds, [0x04] + rest) == Err(GroupUnderflow)
    ensures ds.stack == [] ==>
      CompactorSpec.DecodeOp(schema, ds, [0x05] + (Varint(name) + rest)) == Ok(((CompactorSpec.OpRecord(AddChild(name), []), ds), rest))
    ensures CompactorSpec.DecodeJournal(schema, Varint(1) + ([0x03] + (Varint(name) + (Varint(hint) + rest)))) == Err(GroupUnderflow)
  {
    VarintU32RoundTrip(name, rest);
    VarintU32RoundTrip(name, Varint(hint) + rest);
    VarintU32RoundTrip(hint, rest);
    VarintU32RoundTrip(1, [0x03] + (Varint(name) + (Varint(hint) + rest)));
    hide Varint, ReadVarintU32;
  }

  /** Too many entries, or a key or value that is no atom; only a value may be
      the missing one. */
  lemma Metadata(env: Env, n: U32, key: U32, value: U32, rest: seq<Byte>)
    ensures n > env.lim.maxAtoms ==> Container.ReadMeta(Varint(n) + rest, env) == Err(LimitExceeded)
    ensures 0 < n <= env.lim.maxAtoms && (key >= env.atomCount || (value != INVALID_ATOM && value >= env.atomCount)) ==>
      Container.ReadMeta(Varint(n) + (Varint(key) + (Varint(value) + rest)), env) == Err(AtomOutOfRange)
  {
    VarintU32RoundTrip(n, rest);
    VarintU32RoundTrip(n, Varint(key) + (Varint(value) + rest));
    VarintU32RoundTrip(key, Varint(value) + rest);
    VarintU32RoundTrip(value, rest);
    hide Varint, ReadVarintU32;
  }

  /** Too many entries, or a name or node that does not exist; either may be the
      missing one. */
  lemma CrossReferences(lim: Limits, atomCount: nat, nodeCount: nat, byName: map<U32, nat>, n: U32, name: U32, node: U32, rest: seq<Byte>)
    ensures n > lim.maxNodes ==> Xref.ReadXref(Varint(n) + rest, atomCount, nodeCount, lim, byName) == Err(LimitExceeded)
    ensures 0 < n <= lim.maxNodes
            && ((name != INVALID_ATOM && name >= atomCount) || (node != INVALID_NODE && node >= nodeCount)) ==>
      Xref.ReadXref(Varint(n) + (Varint(name) + (Varint(node) + rest)), atomCount, nodeCount, lim, byName) == Err(BadXref)
  {
    VarintU32RoundTrip(n, rest);
    VarintU32RoundTrip(n, Varint(name) + (Varint(node) + rest));
    VarintU32RoundTrip(name, Varint(node) + rest);
    VarintU32RoundTrip(node, rest);
    hide Varint, ReadVarintU32;
  }

  /** A tag that is neither a type nor the mark of an absent value. */
  lemma Diffs(raw: Byte, rest: seq<Byte>)
    ensures 4 < raw < 0xFF ==> DiffCodec.ReadTagged([raw] + rest) == Err(BadValue)
    ensures DiffCodec.ReadTagged([0xFF] + rest) == Ok((Invalid, rest))
  {
    assert ([raw] + rest)[1..] == rest && ([0xFF] + rest)[1..] == rest;
  }

  /** Too many versions, strings, kinds or fields, or an id already registered. */
  lemma Registries(lim: Limits, n: U64, name: U32, rest: seq<Byte>, s: seq<Byte>, more: nat, known: seq<Migration.Version>)
    ensures n > lim.maxSections ==> Registry.ReadRegistry(Varint(n) + rest, lim) == Err(LimitExceeded)
    ensures n > lim.maxAtoms ==> Registry.ReadPool(Varint(n) + rest, lim) == Err(LimitExceeded)
    ensures n > lim.maxKinds ==> Registry.ReadKindTable(Varint(n) + rest, lim) == Err(LimitExceeded)
    ensures n > lim.maxFieldsPerKind ==> Registry.ReadLooseKind(Varint(name) + (Varint(n) + rest), lim) == Err(LimitExceeded)
    ensures more > 0 && Registry.ReadVersion(s, lim).Ok?
            && (exists i :: 0 <= i < |known| && known[i].id == Registry.ReadVersion(s, lim).value.0.id) ==>
      Registry.ReadVersions(s, more, lim, known) == Err(InvariantViolation)
  {
    VarintRoundTrip(n, rest);
    VarintU32RoundTrip(name, Varint(n) + rest);
    hide Varint, ReadVarint, ReadVarintU32, Registry.ReadVersion;
  }
}
