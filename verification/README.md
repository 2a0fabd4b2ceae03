# Stratavm: verified model

Stratavm is a binary container format for typed object graphs, with a journal
replay machine at its centre. A container interns strings, declares kinds of
nodes with typed fields, gives an initial heap, and carries a journal of
operations that turn the heap into the final graph. This project models that
machine and the code around it in Dafny and proves what they are for.

Each imperative component is a class or a method with loops, proved against a
specification function; the properties are lemmas about those functions. Bytes
are integers below 256, machine words are bounded subset types, a double is its
64-bit pattern and a `std::string` is its bytes.

- `Basics`, `Codec`, `CodecLaws`, `Model`, `Atoms`, `SchemaCodec`, `Heap`,
  `Sections`: machine integers, varints (section 7.6 of DWARF Version 5), values, and
  the payload formats of a container.
- `Formats`, `DecodingLaws`, `Refusals`: what the writers write byte for byte, what
  stands at which offset, and which input is refused with which code.
- `ReplayVm`, `ReplayLaws`, `Journal`, `VmInvariants`, `Groups`, `GroupSemantics`:
  the replay machine, what each operation does to a reachable state, its journal
  bytes, the invariant of every run, and what groups mean.
- `Compaction`, `CompactorSpec`, `CompactionLaws`, `CompactorSize`, `Misreads`,
  `CompactorTheorems`, `CompactorIdempotence`, `CompactionLimits`, `Compactor`: the
  journal compactor, what it removes and counts by input position, the simulation
  between a journal and its survivors, exactly when it decodes what the machine
  executes, and exactly when its survivors reach an equivalent state.
- `Xref`, `FieldIndexing`, `IndexLaws`, `Validation`, `ValidationLaws`, `QueryLexer`,
  `QueryParser`, `QuerySyntaxLaws`, `QueryEval`, `QueryLaws`: what is derived from the
  final graph and how it is queried.
- `Crc`, `CrcCheck`, `Wire`: CRC-32/ISO-HDLC (section 8 of RFC 1952) and the streaming frames.
- `Container`, `LoadLaws`, `Builder`: loading, building, and the round trip between
  them.
- `Diff`, `DiffLaws`, `DiffCodec`, `DiffPatch`, `Migration`, `MigrationApply`,
  `MigrationLaws`, `Registry`: graph diffs, patches, schema migrations and the schema
  registry.

The modules whose names end in `Laws`, with `Formats`, `Refusals` and `CrcCheck`, say
what the specification functions compute in other terms than their own: by input
position, by table position, by bit field, by byte, or by the newest live bearer of a
name.

Some results to start from:

- `Compaction.EquivalentIff`: from any ready machine, the survivors of every
  accepted run are accepted, and they reach an equivalent state if and only if every
  node that ends alive without the compactor counting it ends with the fields it
  started with. `CompactionLimits.EquivalentFromEmptyIff` and `EquivalentFromHeapIff`
  spell that out for an empty and for a seeded machine.
- `CompactorTheorems.CompactedReplaysIff`: the same on bytes, for every accepted
  journal that the compactor decodes faithfully, that is up to written values that
  read back; the output is accepted whole and takes no more bytes. `DecodeFollowsRun`
  says exactly which journals are decoded as the machine decodes them,
  `CompatibleIsFaithful` adds those whose writes are read as other varints, and
  `CompactionPreservesReplay` that no journal is lost while nodes are created before
  placeholders.
- `CompactionLimits.HeapBreaksCompaction`, `PlaceholderBreaksCompaction` and
  `KindMixUpBreaksDecoding`: accepted journals, byte for byte, for which the header's
  promise of an equivalent journal (`include/stratavm/compactor.hpp:1-2`) fails.
- `CompactorIdempotence.CompactIsIdempotent`: compaction is idempotent byte for
  byte, also on journals the machine rejects.
- `CompactionLaws.OutputLaw` and `CountersMean`: the compacted journal decodes to
  exactly the operations that are not overwritten, dead, empty or idle, in order, and
  each counter is the number of input positions of its kind.
- `ReplayLaws`: from any reachable state, what each of the ten operations does, refuses
  and leaves alone, names being what their newest live bearer is.
- `VmInvariants.ReplayKeeps` and `GroupSemantics.EndGroupLinksItsOwner`: what holds
  after replaying any bytes at all, and what closing a group links.
- `Builder.LoadOfSerialized`: loading a built container gives back what was
  declared and replays exactly what was emitted, errors included.
- `Wire.StreamingDecodesTheStream`, `Crc.BurstsAreDetected`, `CrcCheck.CheckValue`,
  `CodecLaws.ReadVarintLaw`, `QueryParser.ParseInvertsPrint`,
  `QueryLaws.NumberQueryLaw`, `Diff.DiffApplies`, `DiffLaws.CountersMean`,
  `DiffPatch.FieldPatchReplays`, `MigrationApply.ConformsIff`,
  `MigrationLaws.KeptFieldLaw`, `DecodingLaws.EntriesLaw`.

Where code and comments disagree the model follows the code: `values_equal`
(`src/diff.cpp:107-108`) compares doubles as numbers, not bits; migrations recorded
for new kinds (`src/schema_registry.cpp:247-249`) do reach live placeholders; the
reserve hint the compactor writes (`src/compactor.cpp:225`) is always zero.

## Model

| member | source | states |
|---|---|---|
| Codec.VarintFromRoundTrip | include/stratavm/byte_reader.hpp:100-116 | Decoding resumed at byte i of a varint, with the digits before it already accumulated, yields the encoded number and leaves what follows: the digit weights of writer and reader agree and no 64-bit value is cut off at the tenth byte. |
| Codec.VarintRoundTrip | include/stratavm/byte_writer.hpp:49-55 | Every 64-bit value comes back from its varint and exactly its bytes are consumed, whatever follows; which bytes these are is CodecLaws.VarintLaw. |
| Codec.SVarintRoundTrip | include/stratavm/byte_reader.hpp:128-134 | Every signed 64-bit value comes back from its zig-zag varint, whatever follows. |
| Codec.ZigZagBijection | include/stratavm/byte_writer.hpp:57-61 | Zig-zag and its inverse undo each other in both directions, and one byte suffices exactly for -64 to 63. |
| Codec.VarintLength | include/stratavm/byte_writer.hpp:49-55 | A varint takes at most ten bytes, and at most five for a 32-bit value. |
| Codec.LittleEndianInverse | include/stratavm/byte_writer.hpp:26-47 | Fixed-width bytes read back as the number written. |
| Codec.FromLittleEndianInverse | include/stratavm/byte_reader.hpp:51-95 | Any bytes read as a fixed-width number and written again are the same bytes, and the number fits the width. |
| Codec.ByteReader.Varint | include/stratavm/byte_reader.hpp:100-116 | The varint loop computes the specified value and rest, or the specified error, with truncation and the ten-byte limit told apart. |
| Codec.ByteReader.Window | include/stratavm/byte_reader.hpp:42-49 | A window succeeds exactly when it lies in the span and then reads exactly those bytes. |
| Codec.ByteWriter.PatchU32 | include/stratavm/byte_writer.hpp:79-83 | Patching overwrites the four reserved bytes with the value and changes no other byte or the length. |
| CodecLaws.VarintLaw | include/stratavm/byte_writer.hpp:49-55 | Every byte of a varint but the last is at least 128 and the last is below; the low seven bits of byte i, weighing 128 to the power i, sum to the number. |
| CodecLaws.VarintIsUnique | include/stratavm/byte_writer.hpp:49-55 | A byte string whose last byte alone is below 128, and is not a superfluous zero, is the varint of the number its digits sum to. |
| CodecLaws.ReadVarintLaw | include/stratavm/byte_reader.hpp:100-116 | A varint ends at the first byte below 128, which must be among the first ten; its value is the sum of its digits modulo 2^64 and exactly its bytes are consumed; otherwise it is truncated or too long. |
| CodecLaws.ReadVarintOkIff | include/stratavm/byte_reader.hpp:100-116 | A varint is read if and only if one of the first ten bytes is below 128. |
| CodecLaws.DerivedReaders | include/stratavm/byte_reader.hpp:118-152 | A 32-bit varint refuses larger numbers, a signed one undoes the zig-zag code, and a string is its length and then exactly that many bytes, within its limit. |
| CodecLaws.ZigZagLaw | include/stratavm/byte_writer.hpp:57-61 | The k-th natural number has code 2k and the k-th negative one, counting from zero, code 2k + 1, both ways. |
| CodecLaws.FromLittleEndianLaw | include/stratavm/byte_reader.hpp:51-95 | A fixed-width word is the sum of its bytes, byte i weighing 256 to the power i. |
| CodecLaws.LittleEndianLaw | include/stratavm/byte_writer.hpp:26-47 | The bytes written for a word that fits have that sum and that width. |
| CodecLaws.Examples | include/stratavm/byte_writer.hpp:26-61 | 300 is written AC 02 and read back; -1, 1 and -65 are 01, 02 and 81 01; a word is written low byte first. |
| Model.ValueRoundTrip | src/value.cpp:8-52 | Reading a value's untagged payload under its own type gives the value back and consumes exactly its bytes, for all five types and every list within the limit. |
| Model.VarintListRoundTrip | src/value.cpp:34-47 | A list of node ids of any length comes back in order. |
| Model.DecodeValue | src/value.cpp:8-52 | The imperative decoder follows the typed payload format, list limit and error codes included. |
| Model.EncodeValue | src/diff.cpp:421-447 | The encoder appends exactly the payload the decoder reads back, and nothing for an Invalid value. |
| Formats.TypeBytes | include/stratavm/format.hpp:54-61 | The type bytes are 0 to 4 and 0xFF, and no other byte is a type. |
| Formats.ValuePayloads | src/value.cpp:8-52 | The bytes of one value of each type. |
| Atoms.ReadAtomsRoundTrip | src/atom_pool.cpp:15-26 | Any run of strings within limits decodes to itself in order, duplicates included. |
| Atoms.FirstIndex | src/atom_pool.cpp:20-25 | Looking a string up answers its first position and fails exactly when it is absent. |
| Atoms.AtomPool.Intern | src/atom_pool.cpp:30-37 | Interning answers the string's first position, appends it only if new, and moves no existing id. |
| Atoms.AtomPool.Decode | src/atom_pool.cpp:5-28 | The decoded pool is the payload's strings in order, with lookups answering first occurrences. |
| SchemaCodec.SchemaRoundTrip | src/schema.cpp:18-56 | A schema whose names are atoms and whose counts are within limits comes back unchanged. |
| SchemaCodec.AcceptedSchemaFits | src/schema.cpp:18-56 | From any bytes, an accepted schema has only pool names, storable field types and counts within limits. |
| SchemaCodec.KindsRoundTrip | src/builder.cpp:183-196 | The kinds written by the builder read back in order, fields included. |
| SchemaCodec.DecodeSchema | src/schema.cpp:18-56 | The nested decode loops follow the format and its error codes. |
| Heap.HeapRoundTrip | src/heap.cpp:5-56 | A declared heap that fits its schema decodes to exactly its nodes, a repeated field taking its last value. |
| Heap.AcceptedHeapIsOk | src/heap.cpp:15-54 | From any bytes, accepted heap nodes are live, numbered by position, typed by their kinds and without edges. |
| Heap.ReadFieldValuesTyped | src/heap.cpp:41-52 | Reading fields keeps a node's field map typed by its kind. |
| Heap.DecodeHeap | src/heap.cpp:5-56 | The decode loop follows the format; a bad value is reported as a bad heap, other failures keep their code. |
| LoadLaws.FieldsLastWins | src/heap.cpp:41-52 | The last declared value of a field is the node's. |
| LoadLaws.FieldsOthersStay | src/heap.cpp:41-52 | A field that is not declared is as before. |
| LoadLaws.BuiltAllLaw | src/heap.cpp:15-54 | Heap node k is live, defined, numbered k, of the declared kind and name, with the declared fields and no edges. |
| Refusals.AtomPools | src/atom_pool.cpp:5-28 | Too many strings exceed the limit; one too long or cut off makes a bad pool. |
| Refusals.Schemas | src/schema.cpp:18-56 | Too many kinds or fields exceed the limit; a kind or field name that is no atom, or a type byte above 4, makes a bad schema. |
| Refusals.Heaps | src/heap.cpp:7-10 | Too many heap nodes exceed the limit. |
| Refusals.HeapNodes | src/heap.cpp:15-39 | A heap node out of sequence, of an undeclared kind, of an unknown name or with more fields than its kind is refused, each with its own code. |
| Refusals.HeapFields | src/heap.cpp:41-52 | An undeclared field is out of range, and a value that does not decode makes a bad heap. |
| Refusals.Values | src/value.cpp:8-52 | A list beyond the limit, a double cut off and a value of no type are refused, each with its own code. |
| Formats.AtomsExample | src/builder.cpp:172-181 | The bytes of a two-string pool. |
| Formats.SchemaExample | src/builder.cpp:183-196 | The bytes of a kind with two fields. |
| Formats.HeapExample | src/builder.cpp:198-213 | The bytes of a two-node heap. |
| Sections.AcceptedDirectoryOk | src/section.cpp:7-55 | From any bytes, an accepted directory has every window inside the file, no known tag twice, and as many entries as the header declares. |
| Sections.DirectoryRoundTrip | src/section.cpp:7-55 | The directory of a laid-out file reads back as its flags and one entry a section at the offset the payload was placed. |
| Sections.PayloadsTile | src/builder.cpp:281-291 | Payloads appended one after another occupy back-to-back windows, the last ending the file. |
| Sections.TilesDisjoint | include/stratavm/section.hpp:3-8 | Windows that tile a file are disjoint and in order, and each holds its own section. |
| Sections.Layout | src/builder.cpp:250-292 | Writing a blank directory, appending payloads and patching each entry yields the file whose directory names every payload's place. |
| Sections.SectionTable.Decode | src/section.cpp:7-55 | The decode loop, with its scan for repeated tags, follows the directory format and error codes. |
| DecodingLaws.HeaderLaw | src/section.cpp:7-26 | The header's fields stand at fixed offsets; what is too short, foreign, of another major version or declares too many sections is refused, in that order, and a minor version never is. |
| DecodingLaws.EntryLaw | src/section.cpp:31-39 | A directory entry's fields stand at fixed offsets, with one reserved byte. |
| DecodingLaws.EntriesLaw | src/section.cpp:31-55 | The directory is exactly the entries at multiples of sixteen bytes, if each is there, lies in the file and repeats no earlier tag but the unknown one; otherwise the first that does not decides the code. |
| Formats.Tags | include/stratavm/format.hpp:34-43 | The six section tags are the letters ATOM, SCMA, HEAP, JRNL, XREF and META. |
| Formats.FileExample | src/builder.cpp:267-291 | The bytes of a one-section file. |
| Journal.ReplayOfEncoded | src/replay_vm.cpp:22-57 | Running an encoded journal reaches the same state, or fails with the same code, as running the operations; only a run that reaches a SET_FIELD value of the wrong type is excluded, because the wire carries no types. |
| Journal.ExecManyIsRunOps | src/replay_vm.cpp:22-57 | Every accepted byte journal is a run of decoded operations, each of which the wire format can carry again. |
| Journal.ExecOneDecodes | src/compactor.cpp:39-168 | Decoding one operation without executing it agrees with what the machine executes, given the machine's node kinds. |
| Formats.Operations | include/stratavm/format.hpp:65-76 | The opcode and the operands of each of the ten operations, in order. |
| Formats.MissingIds | src/builder.cpp:52-131 | A missing name, node or kind is the all-ones word, five bytes as a varint. |
| Formats.JournalExample | src/builder.cpp:216-221 | The bytes of a two-operation journal. |
| Refusals.Journals | src/replay_vm.cpp:22-57 | A byte that is none of the ten opcodes, a missing opcode and a journal that is too long are refused, each with its own code. |
| ReplayVm.ReplayVM.Run | src/replay_vm.cpp:22-57 | The run loop computes the state the operations specify, checks the operation limit first and refuses a journal that leaves a group open. |
| ReplayVm.ReplayVM.Seed | src/replay_vm.cpp:13-20 | Seeding installs the heap, indexes its names with later nodes winning, and counts its nodes. |
| ReplayVm.ReplayVM.DoNewNode | src/replay_vm.cpp:59-81 | A new node takes the next id and its name, after the kind, name and node-limit checks in that order; an existing placeholder is never filled. |
| ReplayVm.ReplayVM.DoSetField | src/replay_vm.cpp:83-122 | A field is stored under its declared type with the edges it carries; a dead node or undeclared field is refused and nothing changes. |
| ReplayVm.ReplayVM.DoBeginGroup | src/replay_vm.cpp:124-153 | A group opens on the node its owner's name means now, within the depth limit. |
| ReplayVm.ReplayVM.ResolveFrame | src/replay_vm.cpp:190-207 | Closing a group links its queued names in order, materialising a placeholder for an unknown one. |
| ReplayVm.ReplayVM.DoLinkRef | src/replay_vm.cpp:209-233 | A reference is stored and recorded when its name resolves, counted as unresolved otherwise; ReplayLaws.LinkRefLaw says to which node. |
| ReplayVm.ReplayVM.DoDropNode | src/replay_vm.cpp:235-252 | Dropping kills the node once, bumps its generation, frees its slot, and releases its name only if it still owns it. |
| ReplayVm.ReplayVM.DoSnapshot | src/replay_vm.cpp:254-268 | A snapshot records the table size and the number of live nodes. |
| ReplayLaws.NewNodeLaw | src/replay_vm.cpp:59-81 | From any reachable state: the three refusals in order; otherwise the node is live, empty and last, its name now stands for it and every other name for what it did, and nothing else changes. |
| ReplayLaws.DropNodeLaw | src/replay_vm.cpp:235-252 | A live node dies, its generation moves on and its slot is freed; its name stands for nothing if it stood for that node, and every other name for what it did; a dead node is left alone. |
| ReplayLaws.SetFieldLaw | src/replay_vm.cpp:83-122 | The four refusals in order; otherwise exactly that field holds the value, the node gains exactly the value's in-range targets as edges, in order, and the others are counted as unresolved. |
| ReplayLaws.FieldTypeLaw | include/stratavm/schema.hpp:63-76 | A field has the type its kind declares, and none if the kind or the field is undeclared. |
| ReplayLaws.LinkRefLaw | src/replay_vm.cpp:209-233 | If the target name's newest bearer lives, the source's field refers to that node, the source gains exactly that edge and nothing else changes; if it does not, only the count of unresolved references moves. |
| ReplayLaws.BeginGroupLaw | src/replay_vm.cpp:124-153 | A group opens, with an empty queue, on the newest live bearer of the name; too deep or no bearer is refused. |
| ReplayLaws.AddChildLaw | src/replay_vm.cpp:155-172 | The name joins the innermost open group's queue at its end and no other queue changes. |
| ReplayLaws.EndGroupAndNopLaw | src/replay_vm.cpp:166-207 | Closing a group is refused exactly when none is open; otherwise the innermost one closes, each queued child counts as linked and each node the table gains as a placeholder, and nothing but the table and its names changes besides; NOP only counts itself. |
| ReplayLaws.SnapshotLaw | src/replay_vm.cpp:254-268 | The label, the table's size and the number of live positions are recorded, and nothing else changes. |
| ReplayLaws.SetMetaLaw | src/replay_vm.cpp:270-281 | The key, a known atom, maps to the value, known or missing; no other key and nothing else changes. |
| ReplayLaws.SeededLaw | src/replay_vm.cpp:13-20 | A seeded machine holds exactly the heap, and a name stands for a node exactly when that is its newest bearer. |
| ReplayLaws.RunLaw | src/replay_vm.cpp:22-57 | A journal longer than the limit is refused before anything runs, and one that leaves a group open after everything has; a failing operation's code is the run's. |
| VmInvariants.StepKeeps | src/replay_vm.cpp:59-281 | Every operation keeps the machine's invariant: positional ids, typed fields, edges in range, an exact name index, and every counter balanced. |
| VmInvariants.RunKeeps | src/replay_vm.cpp:22-57 | Every run of operations keeps the invariant. |
| VmInvariants.ReplayKeeps | src/replay_vm.cpp:22-57 | Replaying any accepted bytes keeps the invariant. |
| VmInvariants.SeededOk | src/replay_vm.cpp:13-20 | A machine seeded with a decoded heap satisfies the invariant. |
| VmInvariants.FindIsNewestAlive | src/replay_vm.cpp:8-20 | In a reachable state a name resolves if and only if its newest bearer is alive, and then to that bearer. |
| VmInvariants.OwnerIsNeverDropped | src/replay_vm.cpp:124-153 | BEGIN_GROUP's "owner dropped" error is unreachable, and a group opens exactly when depth allows and the name's newest bearer lives. |
| VmInvariants.DropKeepsNames | src/replay_vm.cpp:235-252 | Dropping a node leaves the name index exact. |
| VmInvariants.LinkChildrenKeeps | src/replay_vm.cpp:190-207 | Linking any queue of children, materialising what is missing, keeps the invariant. |
| VmInvariants.IdsFitIn32Bits | include/stratavm/format.hpp:81-93 | Under the stock limits no run builds a table whose ids reach the 32-bit sentinel, so no id is ever truncated. |
| GroupSemantics.EndGroupLinksItsOwner | src/replay_vm.cpp:124-207 | In every accepted run each END_GROUP appends to its own BEGIN_GROUP's owner exactly the children queued at that level, in order, resolved at close time with one placeholder per unknown name, each link leaving its back-reference. |
| GroupSemantics.ResolveMeaning | src/replay_vm.cpp:190-207 | A known name resolves to its node, an unknown one to a new slot, the same slot each time unless the name is anonymous. |
| GroupSemantics.TargetsBearNames | src/replay_vm.cpp:174-207 | Every resolved target bears its name, and every slot added is such a target. |
| GroupSemantics.LinkAll | src/replay_vm.cpp:190-207 | Linking a queue changes only the owner's children and the targets' references, by exactly the resolved links. |
| Compaction.EquivalentIff | src/compactor.cpp:301-498 | From any state that satisfies the machine's invariant and has no open group, the survivors of every accepted run are accepted, and they reach an equivalent state if and only if every node that ends alive without the compactor counting it as live ends with the fields it started with. |
| Compaction.SimInvariant | src/compactor.cpp:328-431 | Along every accepted run, after every prefix the survivors among it have run and are related to the original run: same identities, names, frames, snapshots, metadata, and fields except those still to be overwritten or on nodes the compactor does not count as ending alive. |
| Compaction.EffectSim | src/compactor.cpp:328-431 | One original operation, kept or removed, preserves that relation, whatever numbers the machine gives its nodes. |
| Compaction.NumberingInvariant | src/compactor.cpp:62-64 | While no node is created after a placeholder, the compactor's node numbers are the machine's ids at every step. |
| CompactorTheorems.CompactedReplaysIff | src/compactor.cpp:265-498 | From any ready machine, an accepted journal that the compactor decodes to the executed operations, up to values of which the surviving ones read back as those the machine wrote, compacts; the output is accepted, consumed whole and takes no more bytes; and it reaches an equivalent state if and only if every live uncounted node ends with the fields it started with. |
| CompactorTheorems.CompactionPreservesReplay | src/compactor.cpp:265-498 | A journal accepted from an empty heap under the stock limits, with no NEW_NODE after a placeholder, compacts; the output is accepted, consumed whole, has no more bytes or operations, and reaches a state equal in ids, kinds, names, liveness, children, name index, metadata, snapshots and live fields, with references a subsequence. |
| CompactorSize.CompactNeverGrows | src/compactor.cpp:207-259 | Whatever bytes compact, accepted by the machine or not, the output takes no more bytes than the input. |
| CompactorSize.OpShrinks | src/compactor.cpp:207-259 | A decoded operation is written back in no more bytes than it was read from, because varints are written minimally and the hint is zero. |
| CompactorTheorems.DecodeFollowsRun | src/compactor.cpp:39-168 | The compactor decodes an accepted journal to exactly the operations the machine executes if and only if each write carries a value of the type the compactor reads there. |
| CompactorTheorems.CompatibleIsFaithful | src/compactor.cpp:70-91 | A journal whose writes are read under their own types, or as another varint type that holds the number, is decoded so, and every value reads back. |
| CompactorTheorems.DecodeFollowsCompatible | src/compactor.cpp:39-168 | Such a journal decodes to the executed operations with the values in the other types in their places. |
| CompactorTheorems.DecodeFollowsExec | src/compactor.cpp:39-168 | From the middle of any such run, in any decoder state that has tracked it so far, it decodes the operations that remain. |
| Misreads.ReadsUnderIff | src/value.cpp:8-52 | The bytes of an integer, atom or reference read under another of these types if and only if the number fits it, and then consume the same bytes. |
| Misreads.ReplayCarried | src/replay_vm.cpp:22-57 | A journal written with other values that read back, under the types the machine reads, as the values of a run replays that run. |
| Misreads.AlikeFates | src/compactor.cpp:328-431 | What compaction removes does not depend on the values written. |
| CompactorTheorems.NodesFirstSameTypes | src/compactor.cpp:70-79 | While no NEW_NODE executes after a placeholder, every write of an accepted run is read under its own type. |
| CompactorIdempotence.CompactIsIdempotent | src/compactor.cpp:265-498 | Whenever compaction succeeds it succeeds on its own output, returns those very bytes and removes nothing more, also for journals the machine rejects. |
| CompactorIdempotence.CompactedIsFixed | src/compactor.cpp:328-431 | On operations, compacting twice is compacting once. |
| CompactorIdempotence.NumberingSurvives | src/compactor.cpp:303-316 | Node numbers, kinds and liveness do not see the removed operations. |
| CompactorSpec.OpsAreConserved | src/compactor.cpp:298-498 | Every input operation is emitted or counted by exactly one of the four removal counters. |
| Refusals.CompactedJournals | src/compactor.cpp:93-168 | The compactor refuses an unknown opcode, a group closed that was not open and a group left open, each with its own code; it accepts, unlike the machine, a child added outside any group. |
| CompactionLaws.FateMeaning | src/compactor.cpp:328-431 | By position: a write is redundant if a later one has its key, dead if its node does not end live, a link likewise, and a bracket is empty if its group has no child directly in it. |
| CompactionLaws.CountersMean | src/compactor.cpp:298-498 | Each counter of the statistics is the number of input positions of its kind, described by position alone. |
| CompactionLaws.OutputLaw | src/compactor.cpp:298-498 | The output decodes to exactly the operations that are not removed, in order, hints reset; in it no write is followed by another to its key, nothing is idle or on a node that does not end live, and every group has a child. |
| CompactionLaws.NothingElseIsLost | src/compactor.cpp:338-356 | Every operation not removed is in the output, among them the last write to each field of a node that ends live. |
| CompactorSpec.DecodeJournalRoundTrip | src/compactor.cpp:265-299 | A decodable, balanced journal decodes back to its operations. |
| CompactorSpec.DecodedIsDecodable | src/compactor.cpp:39-168 | Whatever decodes could have been encoded. |
| CompactorSpec.BeginRecordsHaveNoChildren | src/compactor.cpp:93-118 | The record of a BEGIN_GROUP never receives its children, so the hint emitted for it is zero. |
| CompactionLimits.NumberingsAgreeIff | src/compactor.cpp:62-64 | From an empty heap the compactor's numbering is the machine's if and only if no NEW_NODE executes after a placeholder was materialised. |
| CompactionLimits.EquivalentFromEmptyIff | src/compactor.cpp:301-498 | From an empty heap the survivors of every accepted run are accepted, and reach an equivalent state if and only if no node numbered at or beyond the compactor's count ends alive with a field. |
| CompactionLimits.EquivalentFromHeapIff | src/compactor.cpp:301-498 | From a decoded heap likewise, if and only if every live uncounted node ends with its heap fields, or with none if the journal made it. |
| CompactionLimits.CompactFromEmptyIff | src/compactor.cpp:265-498 | The empty-heap equivalence on bytes, for every accepted journal that is decoded faithfully. |
| CompactionLimits.AliveIsLive | src/compactor.cpp:303-316 | From an empty heap, a live node within the compactor's count is one it counts as live. |
| CompactionLimits.HeapBreaksCompaction | src/compactor.cpp:301-316 | With a one-node heap, the bytes of a journal that creates a node and writes to it compact to the creation alone; both replay, and the second ends without the field. |
| CompactionLimits.PlaceholderBreaksCompaction | src/compactor.cpp:301-316 | The same from an empty heap, for a journal that creates a node after a placeholder and writes to it. |
| CompactionLimits.KindMixUpBreaksDecoding | src/compactor.cpp:70-79 | After a placeholder a write is read under another node's kind: the machine accepts these bytes, and the compactor refuses them with a bad opcode. |
| Compactor.CompactJournal | src/compactor.cpp:265-498 | The whole multi-pass method computes the specified output, statistics and errors. |
| Compactor.DecodeAll | src/compactor.cpp:285-297 | The decode loop yields the journal's records and refuses unbalanced groups. |
| Compactor.MarkRedundant | src/compactor.cpp:338-356 | The backward pass marks exactly the writes to a field that a later write overrides, and counts them; CompactionLaws.FateMeaning and CountersMean say so by position. |
| Compactor.MarkDeadNodes | src/compactor.cpp:360-368 | The pass marks exactly the remaining writes and links on nodes that do not end alive, and counts them. |
| Compactor.PairGroups | src/compactor.cpp:382-407 | The stack pairs each END_GROUP with its own BEGIN_GROUP and gathers exactly its children. |
| Compactor.MarkEmptyGroups | src/compactor.cpp:409-431 | Exactly the groups without a child are removed, both brackets counted. |
| Compactor.EncodeOp | src/compactor.cpp:207-259 | A surviving record is re-encoded as its operation, with a zero hint on BEGIN_GROUP. |
| Compactor.EncodeValue | src/compactor.cpp:174-201 | The payload the decoder reads back is appended, or a zero integer for an Invalid value. |
| Xref.XrefIndex.Build | src/xref_index.cpp:5-30 | A name answers its newest live bearer, a kind its nodes in order, and a target its referrers in table order, each repeated once for every reference and child that names it. |
| Xref.ReferrersCounted | src/xref_index.cpp:20-29 | In that list a node occurs exactly as often as its references and children name the target. |
| Xref.LiveNamesExact | src/xref_index.cpp:10-15 | The name table maps exactly the names with a live bearer, each to its newest one. |
| Xref.IndexAgreesWithFind | src/xref_index.cpp:10-15 | Wherever the machine resolves a name, the index gives the same node. |
| Xref.IndexDiffersIff | src/replay_vm.cpp:245-249 | The two disagree exactly when a name's newest bearer was dropped while an older one lives, and then only the index answers. |
| Xref.EntriesRoundTrip | src/xref_index.cpp:40-58 | Reconciling written in-range entries accepts them and counts exactly those that contradict the built index. |
| Xref.DecodeAndReconcile | src/xref_index.cpp:32-60 | The reconciliation loop follows the format, its range errors and its warning count. |
| IndexLaws.OfKindLaw | src/xref_index.cpp:13-14 | A kind lists exactly the nodes of that kind, ascending. |
| IndexLaws.MentionsLaw | src/xref_index.cpp:20-29 | The number of mentions is the number of positions that hold the target. |
| IndexLaws.ReferrersInOrder | src/xref_index.cpp:20-29 | Referrers come in table order. |
| IndexLaws.StaleCountLaw | src/xref_index.cpp:53-56 | The warnings are the number of entries that do not give their name's newest live bearer, or no node when there is none. |
| Refusals.CrossReferences | src/xref_index.cpp:36-51 | Too many entries exceed the limit; a name or node that does not exist makes a bad index, the missing ones excepted. |
| FieldIndexing.FieldIndex.Build | src/field_index.cpp:29-72 | Afterwards every lookup by integer, atom, presence or name is what a linear scan of the table gives, in table order; iterating over a kind visits each stored field of its live defined nodes exactly once, node by node; and both counters count them. |
| FieldIndexing.FieldIndex.IndexFields | src/field_index.cpp:45-70 | A node's fields enter exactly the lookups they belong in, and its kind's list once each, whatever order the map yields them. |
| FieldIndexing.QueryIsLookup | src/query_eval.cpp:93-165 | On machine-produced tables with identifying names, `kind:K AND field:F=v` over an integer field returns exactly the index's answer. |
| IndexLaws.ScanValueLaw | src/field_index.cpp:29-63 | A value lists exactly the live, defined nodes of the kind that store it in the field, ascending. |
| IndexLaws.ScanHasLaw | src/field_index.cpp:45-49 | A field lists exactly those that store anything but an Invalid there, ascending. |
| IndexLaws.ScanNameLaw | src/field_index.cpp:40-42 | A name lists exactly its live, defined bearers, ascending, and the missing name none. |
| IndexLaws.IndexCountsLaw | src/field_index.cpp:37-70 | The counters are the number of live, defined nodes and of the valid fields they store. |
| IndexLaws.ListsKindLaw | src/field_index.cpp:66-69 | A kind's list holds exactly the node, field and value of each valid field of its live, defined nodes. |
| IndexLaws.ListsKindInOrder | src/field_index.cpp:66-69 | It holds none twice, and nodes follow the table. |
| Validation.ValidateGraph | src/validator.cpp:13-66 | The report's counters are the counts of live, dangling, placeholder and missing-field findings, and its issues are exactly, in table order and under each node's own id, the bad kinds and missing fields plus, when strict, the placeholders and dangling edges. |
| Validation.NoIssueIff | include/stratavm/validator.hpp:3-7 | The report is clean if and only if every live defined node has a declared kind and all its required fields and, when strict, no placeholder is left, every reference is live and in range and every child in range. |
| Validation.IssuesCounted | src/validator.cpp:13-66 | The number of issues is exactly the hard findings plus, when strict, the soft ones. |
| Validation.DanglingCountsDropped | src/validator.cpp:44-63 | On machine-produced tables the dangling counter is exactly the number of references from live defined nodes to dropped nodes, and no kind is bad. |
| ValidationLaws.CountersMean | src/validator.cpp:19-64 | Each counter is the number of table positions with that finding: live defined nodes, placeholders, required fields unset, references to no live node and children beyond the table. |
| ValidationLaws.IssuesMean | src/validator.cpp:19-64 | An issue with a code and a node is reported exactly when a node of that id has that problem, strict or not. |
| ValidationLaws.IssuesInOrder | src/validator.cpp:19-64 | The issues follow the table. |
| QueryEval.NegationPartitions | src/query_eval.cpp:85-88 | A query's matches and its negation's partition the live nodes. |
| QueryEval.MatchesExactly | src/query_eval.cpp:201-217 | Exactly the live nodes satisfying the query are reported, ascending. |
| QueryEval.DeMorgan | src/query_eval.cpp:71-88 | Negated conjunctions and disjunctions give the same answers in the same order as their duals. |
| QueryEval.ComparisonsPartition | src/query_eval.cpp:38-48 | At most one of less, equal and greater holds of a stored number, and the other three operators are exactly their unions; which is which, QueryLaws.NumberQueryLaw says. |
| QueryEval.Execute | src/query_eval.cpp:201-217 | The scan loop reports the matches in table order and counts slots and matches. |
| QueryLaws.NumberQueryLaw | src/query_eval.cpp:34-160 | A comparison with v answers exactly the live nodes whose field of that name stores an integer, reference or atom number w with w below, above, at most, at least, equal to or unequal to v. |
| QueryLaws.TextQueryLaw | src/query_eval.cpp:34-160 | With a text, exactly those that store an atom in that relation to the text's own atom; a text that is no atom answers none. |
| QueryLaws.NameQueryLaw | src/query_eval.cpp:93-195 | A kind query answers the live nodes of a kind so named, and the child and reference queries those with a live child or target so named. |
| QueryLaws.ConnectiveLaw | src/query_eval.cpp:54-88 | The connectives are intersection, union and complement among the live nodes. |
| QueryLexer.LexRender | src/query_parser.cpp:58-182 | Lexing rendered tokens gives them back followed by the end marker. |
| QueryLexer.LexedAreLexable | src/query_parser.cpp:58-182 | Every token the lexer produces is one the renderer can write. |
| QueryLexer.LexInteger | src/query_parser.cpp:120-152 | The decimal digits of every 64-bit number lex back to it, sign included. |
| QueryLexer.LexIntegerIff | src/query_parser.cpp:120-152 | A number lexes if and only if it fits 64 bits; otherwise the lexer stops with `std::out_of_range`, which `std::stoll` throws and nothing catches. |
| QueryLexer.Lexer.Tokenize | src/query_parser.cpp:58-182 | The scanning loop computes the token list, errors included. |
| QuerySyntaxLaws.SymbolLaw | src/query_parser.cpp:86-118 | Each operator and bracket is its character or two, the longer one first. |
| QuerySyntaxLaws.WordLaw | src/query_parser.cpp:154-170 | The six keywords are exact and lower case, the three operators ignore case, and every other word is a name. |
| QuerySyntaxLaws.WordTakesAll | src/query_parser.cpp:154-170 | A word takes every letter, digit and underscore there is. |
| QuerySyntaxLaws.DecimalLaw | src/query_parser.cpp:120-152 | Digits are read in base ten, most significant first. |
| QuerySyntaxLaws.BlanksLaw | src/query_parser.cpp:188-193 | The six blank characters in front of a token are skipped. |
| QuerySyntaxLaws.StraysAreRefused | src/query_parser.cpp:172-176 | Every other character is refused, and so are a lone exclamation mark and a minus without a digit. |
| QueryParser.ParseInvertsPrint | src/query_parser.cpp:237-450 | The minimally bracketed text of any tree of parser shape lexes and parses back to exactly that tree. |
| QueryParser.ParsePrinted | src/query_parser.cpp:278-450 | Parsing the tokens of any printed tree gives back the tree. |
| QueryParser.PrintNormalizes | src/query_parser.cpp:237-450 | Whatever parses can be printed, and its printed text parses to the same tree. |
| QueryParser.Parser.Run | src/query_parser.cpp:237-251 | On every token list the recursive-descent parser terminates with the specified result and its cursor inside the list. |
| QuerySyntaxLaws.LeafLaw | src/query_parser.cpp:330-450 | What each form of leaf parses to. |
| QuerySyntaxLaws.AndBindsTighter | src/query_parser.cpp:278-310 | Conjunction binds tighter than disjunction on either side. |
| QuerySyntaxLaws.GroupsToTheLeft | src/query_parser.cpp:278-330 | Both group to the left, and brackets override. |
| QuerySyntaxLaws.NotBindsTightest | src/query_parser.cpp:312-330 | A negation applies to what follows it and to no more. |
| QuerySyntaxLaws.LeafTokens | src/query_parser.cpp:330-450 | The tokens printed for a leaf are those that parse to it. |
| Crc.TableIsDivision | src/wire.cpp:31-78 | The table-driven checksum is the bit-at-a-time reflected division of every byte string; CrcCheck.CheckValue fixes its polynomial. |
| CrcCheck.CheckValue | src/wire.cpp:31-78 | The checksum of the nine digits 123456789 is 0xCBF43926, the value that identifies CRC-32/ISO-HDLC: it fixes the polynomial, the preset and the final complement. |
| Crc.BurstsAreDetected | src/wire.cpp:71-78 | Two equal-length messages that differ only in bits within 32 consecutive ones, at any bit offset, have different checksums. |
| Crc.TrailerBurstsAreDetected | src/wire.cpp:71-78 | Such a burst in a message followed by its checksum, or across the border between them, never yields a message followed by its checksum. |
| Crc.ResidueIff | src/wire.cpp:71-78 | Four bytes after a message bring the register to one fixed residue if and only if they are its checksum. |
| Crc.WindowInjective | src/wire.cpp:71-78 | From one register, different runs of at most 32 bits lead to different registers. |
| Crc.FeedInjective | src/wire.cpp:71-78 | The same bits take different registers to different registers. |
| Crc.BitStepInjective | src/wire.cpp:35-42 | One division step loses no information. |
| Crc.FeedIsWordSteps | src/wire.cpp:71-78 | Feeding a run of bits is adding them as one word and dividing all the way. |
| Crc.FoldIsFeed | src/wire.cpp:71-78 | The table-driven register is the one that feeding the message bit by bit gives. |
| Crc.BuildTable | src/wire.cpp:31-47 | The generated table holds, for each byte, the remainder of its eight division steps. |
| Crc.WireCrc32 | src/wire.cpp:71-78 | The checksum loop computes the specified CRC. |
| Wire.FrameRoundTrip | src/wire.cpp:84-113 | An encoded frame followed by anything peels off exactly, payload, flags and sequence number. |
| Wire.MessagesRoundTrip | src/wire.cpp:84-229 | A list of messages comes back with its payloads and flags, numbered from the encoder's counter modulo 2^32. |
| Wire.StreamingDecodesTheStream | src/wire.cpp:133-229 | However the stream is cut into chunks and whenever it is polled, the frames delivered are a prefix of the one-shot decoding, and all of it once drained. |
| Wire.ChunkingIsIrrelevant | src/wire.cpp:133-229 | From any decoder state, what was delivered and what the buffered and coming bytes still decode to never depend on the chunking. |
| Wire.Drive | src/wire.cpp:133-229 | A real decoder driven through any feeds and polls keeps the pending bytes and delivers the frames the stream theorems speak of. |
| Wire.DecodeStream | src/wire.cpp:133-229 | A fresh decoder delivers a prefix of the one-shot decoding of all it was fed, and all of it once polling finds nothing more. |
| Wire.CorruptionIsAbsorbing | src/wire.cpp:170-229 | After a corrupt frame no further bytes or polls deliver anything or change the error. |
| Wire.PeelExtend | src/wire.cpp:170-229 | More bytes never change a frame already complete nor repair a corrupt one. |
| Wire.BurstIsReported | src/wire.cpp:170-229 | A burst of at most 32 bits anywhere in a frame, checksum included, is reported: as a bad magic number if it touches that, and as a bad checksum otherwise, unless it changes the stored length. |
| Wire.HasFrameMeaning | src/wire.cpp:159-168 | A yes means polling will not ask for more bytes; a no means it will, unless the header is already bad. |
| Wire.WireDecoder.NextFrame | src/wire.cpp:170-229 | Polling delivers the next frame and consumes it, or reports the error and consumes nothing. |
| Wire.WireDecoder.MaybeCompact | src/wire.cpp:150-157 | Dropping the consumed prefix leaves at most twice the pending bytes and does not touch them. |
| Wire.WireEncoder.EncodeFrame | src/wire.cpp:84-113 | One frame is appended with the next sequence number; an oversized payload is refused and nothing changes. |
| DecodingLaws.PeelLaw | src/wire.cpp:170-229 | A frame's fields stand at fixed offsets; too few bytes are not an error yet, and a bad magic, an oversized length and a wrong checksum are, in that order. |
| Formats.FrameExample | src/wire.cpp:84-113 | The bytes of a frame, up to the checksum of what precedes it. |
| Container.LoadContainer | src/loader.cpp:36-110 | The pipeline yields what the sections amount to, or the first stage's error. |
| Container.LoadedGraphIsSound | src/loader.cpp:36-110 | Whatever bytes load, the reconstructed graph satisfies the machine's invariant. |
| Container.BuildMachine | src/loader.cpp:64-84 | The machine is seeded if there is a heap and runs the journal if asked and there is one. |
| Container.MetaRoundTrip | src/loader.cpp:7-26 | Written metadata comes back, a repeated key taking its last value. |
| LoadLaws.MetaLastWins | src/loader.cpp:7-26 | The last entry of a key decides its value. |
| LoadLaws.MetaOthersStay | src/loader.cpp:7-26 | A key without an entry keeps what it had. |
| Refusals.Metadata | src/loader.cpp:7-26 | Too many entries exceed the limit; a key that is no atom, or a value that is neither an atom nor missing, is out of range. |
| Builder.LoadOfSerialized | src/builder.cpp:244-293 | Loading a built container rebuilds exactly the declared atoms, kinds, heap and metadata, replays exactly the emitted operations and counts exactly the stale cross-references; unless the run reaches a SET_FIELD value of the wrong type, it fails exactly when, and with the code with which, the operations fail or leave a group open. |
| Builder.WindowsTile | src/builder.cpp:244-293 | In a built file the section windows are disjoint and tile everything after the directory. |
| Builder.WindowsOf | src/section.cpp:57-62 | Each section's window in a built file holds exactly its payload, and a section not emitted has none. |
| Builder.ContainerBuilder.Serialize | src/builder.cpp:244-293 | The serialized bytes are the layout of everything declared so far. |
| Builder.ContainerBuilder.Emit | src/builder.cpp:52-131 | Emitting appends exactly that operation to the journal and counts it. |
| Builder.ContainerBuilder.HeapField | src/builder.cpp:36-51 | The encoded value is attached to the given heap node and no other. |
| Formats.IndexExamples | src/builder.cpp:223-241 | The bytes of a cross-reference and of a metadata entry. |
| Formats.SmallestContainer | src/builder.cpp:244-293 | The 84 bytes of the container of nothing: header, four sections in order, one byte each. |
| Diff.DiffApplies | src/diff.cpp:125-277 | Applying the reported changes to what the names of one table stand for gives what the names of the other stand for, up to unset-versus-Invalid and the sign of a zero. |
| Diff.ModifiedIffDifferent | src/diff.cpp:176-258 | A name in both tables is Modified exactly when its kind, a field or its set of child names differs. |
| Diff.SelfDiff | src/diff.cpp:101-119 | Compared with itself a node is Unchanged exactly when no field holds a NaN. |
| Diff.SameIsEquivalence | src/diff.cpp:101-119 | Agreement up to the sign of zero is an equivalence, and a value equals itself unless it is a NaN. |
| Diff.ApplyFieldsAt | src/diff.cpp:186-217 | Applying field changes with distinct fields sets each named field to its after-value and leaves the others. |
| Diff.DiffNodeGraphs | src/diff.cpp:125-277 | Each name of either table is reported once, described correctly, and counted. |
| Diff.CompareFields | src/diff.cpp:186-217 | The list names each differing field once with both its values, whatever order the maps yield. |
| DiffLaws.DoubleClasses | src/diff.cpp:107-108 | A NaN has the top exponent and a non-zero mantissa, a zero neither exponent nor mantissa. |
| DiffLaws.ValuesEqualLaw | src/diff.cpp:101-119 | Doubles are equal if neither is a NaN and they are identical or both zero; all other values if type and content are. |
| DiffLaws.ChildNamesLaw | src/diff.cpp:220-234 | Each in-range child contributes its name if it has one, in order. |
| DiffLaws.KindOfChange | src/diff.cpp:125-277 | A change is an addition, a removal or a modification exactly when the name has no live bearer before, none after, or first bearers in both that differ in kind, a field or the set of child names. |
| DiffLaws.CountersMean | src/diff.cpp:125-277 | The counters are the number of names borne only after, only before, and by differing first bearers. |
| DiffLaws.TotalMeans | src/diff.cpp:125-277 | The total is the number of pairs of a name and a field at which the first bearers differ. |
| DiffCodec.DiffRoundTrip | src/diff.cpp:283-406 | A diff whose counters count its changes comes back, counters included. |
| DiffCodec.DecodedCountersAgree | src/diff.cpp:388-402 | From any bytes, the decoded counters count the decoded changes. |
| DiffCodec.FieldChangesRoundTrip | src/diff.cpp:24-95 | Tagged before- and after-values, Invalid included, come back in order. |
| DiffCodec.DeserializeDiff | src/diff.cpp:320-406 | The decode loops follow the format and its errors. |
| DiffCodec.SerializeDiff | src/diff.cpp:283-314 | The encode loops write the format. |
| Formats.DiffExample | src/diff.cpp:283-314 | The bytes of a diff of one modified node, and the four kinds of change. |
| Refusals.Diffs | src/diff.cpp:50-95 | A tag that is neither a type nor the mark of an absent value is a bad value. |
| DiffPatch.FieldPatchReplays | src/diff.cpp:449-557 | When only fields of live, uniquely named nodes differ and none disappears, replaying the patch on the before state succeeds and produces the after-fields everywhere, changing nothing else but references. |
| DiffPatch.RunSets | src/replay_vm.cpp:83-122 | Setting fields to their after-values always succeeds; mentioned fields hold them and the rest are untouched. |
| DiffPatch.DifferencesAreSet | src/diff.cpp:507-543 | Every difference is set by some operation of the patch. |
| DiffPatch.DiffToJournal | src/diff.cpp:449-557 | The journal written encodes exactly the patch's operations, with their count, for every kind of change. |
| DiffLaws.PatchAppend | src/diff.cpp:449-557 | A patch is that of its changes one after another. |
| DiffLaws.SetsAppend | src/diff.cpp:507-543 | The writes of a change are those of its field changes one after another. |
| DiffLaws.AddsLaw | src/diff.cpp:507-543 | Each added child is added once, in order. |
| DiffLaws.PatchExample | src/diff.cpp:449-557 | The patch of one removed, one added, one modified and one unchanged node, with what it leaves out. |
| Migration.ComputePlan | src/schema_registry.cpp:98-228 | The plan is, old kind by old kind in name order, the removals of what only the old side has, the additions of what only the new side has and the conversions of what changed type, each phase in field-name order; then, under no kind, every field of the new kinds. |
| Migration.PhaseListed | src/schema_registry.cpp:153-202 | A phase holds exactly one migration for each field name it is due for, and no other. |
| Migration.ForKindAppend | src/schema_registry.cpp:98-228 | One kind's migrations, in plan order, are those of the plan's parts put together. |
| Migration.FieldIsListed | src/schema_registry.cpp:38-48 | A field's name is found, at its last place. |
| MigrationApply.ConformsIff | src/schema_registry.cpp:98-309 | A kind's plan makes every well-typed node conform to the new declaration if and only if each field kept by name still has, at its old position, a declaration that takes its value. |
| MigrationApply.MigratedNodeConforms | src/schema_registry.cpp:234-309 | When kept kinds keep their ids and kept fields their places, every live node of a declared kind ends with only fields the target declares, each Invalid or of the target type. |
| MigrationApply.UnchangedFieldsAreKept | src/schema_registry.cpp:234-309 | A field kept with its name, type and position is untouched. |
| MigrationApply.UnsettledFails | src/schema_registry.cpp:234-309 | If some kept field's place does not take its value, a node holding just that field does not conform. |
| MigrationApply.DroppingAFieldConformsIff | src/schema_registry.cpp:98-309 | Dropping one field of a kind leaves every well-typed node conforming if and only if it is the last field: otherwise later values stay at positions the new declaration gives to others or does not have. |
| MigrationApply.NewKindsReachPlaceholders | src/schema_registry.cpp:246-262 | Additions recorded for new kinds reach live placeholders, which gain an Invalid field for each. |
| MigrationApply.ApplyMigration | src/schema_registry.cpp:234-309 | Live nodes are migrated by the migrations of their kind in plan order; dead nodes not at all. |
| MigrationApply.RetypingsAt | src/schema_registry.cpp:270-303 | Conversions touch only the fields they name, and leave each of them Invalid or of the new type. |
| MigrationLaws.KeptFieldLaw | src/schema_registry.cpp:270-303 | In a kind whose field names are known and declared once on either side, a field whose name is kept stays at its place: untouched under the same type, and cast exactly once under another, an integer to a double and back, an atom to zero, anything else to Invalid. |
| MigrationLaws.DiscardedFieldLaw | src/schema_registry.cpp:153-180 | A field whose name is gone is removed, and at its place stands an Invalid exactly when the target introduces a field there. |
| MigrationLaws.UnsetFieldLaw | src/schema_registry.cpp:246-303 | An unset place is filled exactly when the target introduces a field there: with Invalid, or what a conversion due at that place makes of it. |
| MigrationLaws.PlanRecords | src/schema_registry.cpp:153-202 | A kind's plan records, with places, names and types, a removal for each discarded field, an addition for each introduced one and a conversion for each kept under another type, and nothing else. |
| MigrationLaws.PlanInOrder | src/schema_registry.cpp:153-202 | Removals come first, then additions, then conversions, each in the order of the field names. |
| MigrationLaws.WholeKindEntries | src/schema_registry.cpp:120-137 | A kind that is gone has its fields removed in declaration order, and a new one its fields added so, under no kind. |
| MigrationLaws.BeforeIsAlphabetical | src/schema_registry.cpp:23-48 | Names are ordered as dictionaries order them: a proper prefix first, otherwise by the first byte that differs. |
| Registry.RegistryRoundTrip | src/schema_registry.cpp:315-476 | A registry of duplicate-free pools within limits comes back unchanged. |
| Registry.PoolRoundTripIff | src/schema_registry.cpp:393-412 | A pool comes back if and only if it holds no string twice, because decoding interns. |
| Registry.ReadVersionsSorted | src/schema_registry.cpp:367-476 | From any bytes, the decoded versions are in ascending order with unique ids. |
| Registry.InsertKeeps | src/schema_registry.cpp:54-69 | Registering a new id keeps the order and adds exactly that version. |
| Registry.SchemaRegistry.ComputeMigration | src/schema_registry.cpp:98-109 | An unknown version is reported as not found; otherwise the result is the plan between the two versions found. |
| Registry.Deserialize | src/schema_registry.cpp:367-476 | The decode loops follow the format, its limits and the duplicate-id error. |
| Formats.RegistryExample | src/schema_registry.cpp:315-365 | The bytes of a registry of one version. |
| Refusals.Registries | src/schema_registry.cpp:367-476 | Too many versions, strings, kinds or fields exceed the limit, and a repeated id violates the invariant. |

## Left out

- Diff.DiffNodeGraphs: does not state the order of the changes, of a change's fields or of its child names, because the original takes them from hash maps; node ids are taken to be below 2^32, and the counters are not wrapped at 32 bits.
- DiffPatch.FieldPatchReplays: covers the field-only case. For added, removed, re-kinded or re-parented nodes the original emits in hash-map order, addresses new nodes by their after ids and skips removed fields and children, so its patch does not reproduce the after state; DiffPatch.DiffToJournal still states what is emitted in every case.
- CompactorTheorems.CompactedReplaysIff: covers the journals that are decoded faithfully. On the others the compactor decodes other operations than the machine executes, as CompactionLimits.KindMixUpBreaksDecoding illustrates, or writes back a value the machine reads as another; what its output then replays to is not stated, except that it is no longer than the input and a fixed point of compaction.
- CompactorTheorems.CompactionPreservesReplay: is the case of an empty heap and nodes created before placeholders; CompactorTheorems.CompactedReplaysIff and the members of CompactionLimits state what happens otherwise.
- MigrationApply.ApplyMigration: takes the two numeric casts between integers and doubles as parameters, because IEEE-754 arithmetic is not modelled; a cast out of range is undefined in the original.
- Builder.ContainerBuilder.Emit: stands for the journal emitters of every operation, and HeapField for the typed heap setters; the operation or value chooses the encoder. The setters of the header flags and of the two section switches are plain field assignments and have no member.
- ReplayVm.ReplayVM.DoBeginGroup: identifies a group's owner by id; the raw pointer kept as a fast path, the capacity reserved from the producer's hint and reallocation are not modelled.
- ReplayVm.ReplayVM.Run: node ids are natural numbers and "not found" is an option value; VmInvariants.IdsFitIn32Bits shows the 32-bit sentinel is never reached under the stock limits.
- Registry.SchemaRegistry.ComputeMigration: the ordered map of versions is a sequence sorted by id.
- Compactor.CompactJournal: the table of last writes and the per-group count of surviving children are computed by the original and never used, so they are not modelled.
- Wire.WireDecoder.NextFrame: `WireSession`, which pairs an encoder and a decoder, and the container wrapper of the encoder are not modelled.
- Error detail strings, code and opcode names, `Value::to_string`, token positions and reader seek and skip: diagnostics and helpers only.
- Allocation failures and tables of 2^32 or more atoms, kinds, fields or report entries: not modelled.
- `tools/`, `fuzz/`, `src/samples.cpp`, `src/env.cpp` and the build files: file access, drivers and fixtures.
