/** The formats byte for byte: what each encoder writes, spelled out. The round
    trips elsewhere say the decoders read the same. */
module Formats {
  import opened Basics
  import opened Codec
  import opened Model
  import opened Atoms
  import opened SchemaCodec
  import opened Heap
  import opened ReplayVm
  import opened Journal
  import Container
  import Xref
  import Builder
  import Sections
  import Wire
  import Crc
  import Diff
  import DiffCodec
  import Migration
  import Registry

  /** Numbers below 128 are one byte. */
  lemma OneByte(v: nat)
    requires v < 128
    ensures Varint(v) == [v]
  {
  }

  lemma TwoBytes(v: nat)
    requires 128 <= v < 0x4000
    ensures Varint(v) == [v % 128 + 128, v / 128]
  {
    assert Varint(v / 128) == [v / 128];
  }

  // ----- values -----

  /** The type bytes, both ways. */
  lemma TypeBytes()
    ensures TypeByte(TInt) == 0 && TypeByte(TFloat) == 1 && TypeByte(TAtom) == 2 && TypeByte(TRef) == 3 && TypeByte(TList) == 4
    ensures TypeByte(TInvalid) == 0xFF
    ensures StorableType(0) == Some(TInt) && StorableType(1) == Some(TFloat) && StorableType(2) == Some(TAtom)
    ensures StorableType(3) == Some(TRef) && StorableType(4) == Some(TList)
    ensures forall b: Byte :: b > 4 ==> StorableType(b) == None
  {
  }

  /** Each payload: a zig-zag varint, eight bytes, a varint, a varint, and a
      count with that many varints. */
  lemma ValuePayloads()
    ensures ValueBytes(IntV(-3)) == [0x05]
    ensures ValueBytes(FloatV(0x3FF8_0000_0000_0001)) == [0x01, 0, 0, 0, 0, 0, 0xF8, 0x3F]
    ensures ValueBytes(AtomV(300)) == [0xAC, 0x02]
    ensures ValueBytes(RefV(7)) == [0x07]
    ensures ValueBytes(ListV([4, 300])) == [0x02, 0x04, 0xAC, 0x02]
    ensures ValueBytes(Invalid) == []
  {
    TwoBytes(300);
    EightBytes();
    assert [4, 300][1..] == [300] && [300][1..] == [];
    assert VarintList([300]) == [0xAC, 0x02] + [] == [0xAC, 0x02];
    assert VarintList([4, 300]) == [0x04] + [0xAC, 0x02];
  }

  lemma EightBytes()
    ensures LittleEndian(0x3FF8_0000_0000_0001, 8) == [0x01, 0, 0, 0, 0, 0, 0xF8, 0x3F]
  {
    assert LittleEndian(0x3FF8, 2) == [0xF8, 0x3F];
    assert LittleEndian(0x3FF8_0000, 4) == [0] + ([0] + LittleEndian(0x3FF8, 2));
    assert LittleEndian(0x3FF8_0000_0000, 6) == [0] + ([0] + LittleEndian(0x3FF8_0000, 4));
    assert LittleEndian(0x3FF8_0000_0000_0001, 8) == [1] + ([0] + LittleEndian(0x3FF8_0000_0000, 6));
  }

  // ----- operations -----

  /** The ten operations: the opcode and the operands in order. */
  lemma Operations(a: Byte, b: Byte, c: Byte)
    requires a < 128 && b < 128 && c < 128
    ensures OpBytes(NewNode(a, b)) == [0x01, a, b]
    ensures OpBytes(SetField(a, b, AtomV(c))) == [0x02, a, b, c]
    ensures OpBytes(BeginGroup(a, b)) == [0x03, a, b]
    ensures OpBytes(EndGroup) == [0x04]
    ensures OpBytes(AddChild(a)) == [0x05, a]
    ensures OpBytes(LinkRef(a, b, c)) == [0x06, a, b, c]
    ensures OpBytes(DropNode(a)) == [0x07, a]
    ensures OpBytes(Snapshot(a)) == [0x08, a]
    ensures OpBytes(SetMeta(a, b)) == [0x09, a, b]
    ensures OpBytes(Nop) == [0x0A]
  {
  }

  /** An anonymous node, and a cross-reference to no node, carry the all-ones word. */
  lemma MissingIds()
    ensures OpBytes(NewNode(0, INVALID_ATOM)) == [0x01, 0x00, 0xFF, 0xFF, 0xFF, 0xFF, 0x0F]
    ensures Builder.XrefBytes([Xref.XrefEntry(3, INVALID_NODE)]) == [0x01, 0x03, 0xFF, 0xFF, 0xFF, 0xFF, 0x0F]
    ensures INVALID_KIND == INVALID_ATOM
  {
    AllOnes();
    var entries := [Xref.XrefEntry(3, INVALID_NODE)];
    assert entries[1..] == [];
    OneByte(0);
    OneByte(1);
    OneByte(3);
    hide Varint;
    assert Xref.EntriesBytes(entries) == [0x03] + [0xFF, 0xFF, 0xFF, 0xFF, 0x0F] + [];
  }

  lemma AllOnes()
    ensures Varint(0xFFFF_FFFF) == [0xFF, 0xFF, 0xFF, 0xFF, 0x0F]
  {
    TwoBytes(0x7FF);
    assert Varint(0x3_FFFF) == [0xFF] + Varint(0x7FF);
    assert Varint(0x1FF_FFFF) == [0xFF] + Varint(0x3_FFFF);
    assert Varint(0xFFFF_FFFF) == [0xFF] + Varint(0x1FF_FFFF);
  }

  /** A journal: the number of operations, then each. */
  lemma JournalExample()
    ensures JournalBytes([DropNode(5), EndGroup]) == [0x02, 0x07, 0x05, 0x04]
    ensures Builder.JournalPayload([DropNode(5), EndGroup]) == [0x02, 0x07, 0x05, 0x04]
  {
    var ops := [DropNode(5), EndGroup];
    var tail: seq<Op> := [EndGroup];
    assert ops[1..] == tail && tail[1..] == [];
    assert OpsBytes(tail) == [0x04];
    assert OpsBytes(ops) == [0x07, 0x05] + [0x04];
  }

  // ----- section payloads -----

  /** "ab" and "c": a count, then each string behind its length. */
  lemma AtomsExample()
    ensures Builder.AtomPoolBytes([[0x61, 0x62], [0x63]]) == [0x02, 0x02, 0x61, 0x62, 0x01, 0x63]
  {
    var atoms: seq<Text> := [[0x61, 0x62], [0x63]];
    assert atoms[1..] == [[0x63]] && atoms[1..][1..] == [];
    assert AtomsBytes(atoms[1..]) == [0x01, 0x63];
    assert AtomsBytes(atoms) == [0x02, 0x61, 0x62] + [0x01, 0x63];
  }

  /** One kind of two fields: name, count, then name, type and flags of each. */
  lemma SchemaExample()
    ensures SchemaBytes([KindDef(3, [FieldDef(5, TAtom, 1), FieldDef(6, TList, 0)])])
         == [0x01, 0x03, 0x02, 0x05, 0x02, 0x01, 0x06, 0x04, 0x00]
  {
    var fields := [FieldDef(5, TAtom, 1), FieldDef(6, TList, 0)];
    assert fields[1..] == [FieldDef(6, TList, 0)] && fields[1..][1..] == [];
    assert FieldsBytes(fields[1..]) == [0x06, 0x04, 0x00];
    assert FieldsBytes(fields) == [0x05, 0x02, 0x01] + [0x06, 0x04, 0x00];
    var kinds := [KindDef(3, fields)];
    assert kinds[1..] == [];
    assert KindsBytes(kinds) == KindBytes(kinds[0]) + [];
  }

  /** Two nodes: id, kind, name, number of fields, then each field's number and value. */
  lemma HeapExample()
    ensures HeapBytes([HeapNode(5, 6, []), HeapNode(7, 8, [FieldValue(9, RefV(0))])])
         == [0x02, 0x00, 0x05, 0x06, 0x00, 0x01, 0x07, 0x08, 0x01, 0x09, 0x00]
  {
    var fields := [FieldValue(9, RefV(0))];
    assert fields[1..] == [];
    assert FieldValuesBytes(fields) == [0x09, 0x00];
    var nodes := [HeapNode(5, 6, []), HeapNode(7, 8, fields)];
    assert nodes[1..] == [HeapNode(7, 8, fields)] && nodes[1..][1..] == [];
    assert HeapNodeBytes(1, nodes[1]) == [0x01, 0x07, 0x08, 0x01, 0x09, 0x00];
    assert HeapNodesBytes(1, nodes[1..]) == HeapNodeBytes(1, nodes[1]) + [];
    assert HeapNodeBytes(0, nodes[0]) == [0x00, 0x05, 0x06, 0x00];
  }

  /** A cross-reference is a name and a node; a metadata entry a key and a value. */
  lemma IndexExamples()
    ensures Builder.XrefBytes([Xref.XrefEntry(3, 4)]) == [0x01, 0x03, 0x04]
    ensures Builder.MetaBytes([Container.MetaEntry(3, 4)]) == [0x01, 0x03, 0x04]
  {
    assert [Xref.XrefEntry(3, 4)][1..] == [] && [Container.MetaEntry(3, 4)][1..] == [];
  }

  // ----- the file -----

  /** The tags are four letters. */
  lemma Tags()
    ensures LittleEndian(Sections.TAG_ATOM, 4) == [0x41, 0x54, 0x4F, 0x4D]      // ATOM
    ensures LittleEndian(Sections.TAG_SCHEMA, 4) == [0x53, 0x43, 0x4D, 0x41]    // SCMA
    ensures LittleEndian(Sections.TAG_HEAP, 4) == [0x48, 0x45, 0x41, 0x50]      // HEAP
    ensures LittleEndian(Sections.TAG_JOURNAL, 4) == [0x4A, 0x52, 0x4E, 0x4C]   // JRNL
    ensures LittleEndian(Sections.TAG_XREF, 4) == [0x58, 0x52, 0x45, 0x46]      // XREF
    ensures LittleEndian(Sections.TAG_META, 4) == [0x4D, 0x45, 0x54, 0x41]      // META
  {
    FourBytes(0x41, 0x54, 0x4F, 0x4D);
    FourBytes(0x53, 0x43, 0x4D, 0x41);
    FourBytes(0x48, 0x45, 0x41, 0x50);
    FourBytes(0x4A, 0x52, 0x4E, 0x4C);
    FourBytes(0x58, 0x52, 0x45, 0x46);
    FourBytes(0x4D, 0x45, 0x54, 0x41);
  }

  lemma FourBytes(a: Byte, b: Byte, c: Byte, d: Byte)
    ensures LittleEndian(a + 0x100 * b + 0x1_0000 * c + 0x100_0000 * d, 4) == [a, b, c, d]
  {
    assert LittleEndian(d, 1) == [d];
    assert LittleEndian(c + 0x100 * d, 2) == [c] + LittleEndian(d, 1);
    assert LittleEndian(b + 0x100 * c + 0x1_0000 * d, 3) == [b] + LittleEndian(c + 0x100 * d, 2);
  }

  lemma TwoByteWord(a: Byte, b: Byte)
    ensures LittleEndian(a + 0x100 * b, 2) == [a, b]
  {
    assert LittleEndian(b, 1) == [b];
  }

  lemma HeaderExample()
    ensures Sections.HeaderBytes(0x0201, 1) ==
      [0x53, 0x54, 0x52, 0x41, 0x54, 0x41, 0x56, 0x4D, 0x01, 0x00, 0x01, 0x02, 0x01, 0x00, 0x00, 0x00]
  {
    TwoByteWord(0x01, 0x02);
    FourBytes(1, 0, 0, 0);
    hide LittleEndian;
  }

  lemma EntryExample()
    ensures Sections.EntryBytes(Sections.TAG_META, 0x20, 1) ==
      [0x4D, 0x45, 0x54, 0x41, 0x01, 0x00, 0x00, 0x00, 0x20, 0x00, 0x00, 0x00, 0x01, 0x00, 0x00, 0x00]
  {
    Tags();
    TwoByteWord(0, 0);
    FourBytes(0x20, 0, 0, 0);
    FourBytes(1, 0, 0, 0);
    hide LittleEndian;
  }

  /** A file with one section of one byte: the magic, the version, the flags and
      the count; then tag, version, a reserved byte, flags, offset and length;
      then the payload. */
  lemma FileExample()
    ensures Sections.FileBytes(0x0201, [Sections.Section(Sections.TAG_META, [0x63])]) ==
      [0x53, 0x54, 0x52, 0x41, 0x54, 0x41, 0x56, 0x4D, 0x01, 0x00, 0x01, 0x02, 0x01, 0x00, 0x00, 0x00] +
      [0x4D, 0x45, 0x54, 0x41, 0x01, 0x00, 0x00, 0x00, 0x20, 0x00, 0x00, 0x00, 0x01, 0x00, 0x00, 0x00] +
      [0x63]
  {
    HeaderExample();
    EntryExample();
    OneSection(0x20);
    hide Sections.HeaderBytes, Sections.EntryBytes, Sections.DirectoryBytes, Sections.Payloads;
  }

  lemma OneSection(offset: nat)
    ensures var sections := [Sections.Section(Sections.TAG_META, [0x63])];
      && Sections.Payloads(sections) == [0x63]
      && Sections.DirectoryBytes(sections, offset) == Sections.EntryBytes(Sections.TAG_META, offset, 1)
  {
    hide Sections.EntryBytes;
    var sections := [Sections.Section(Sections.TAG_META, [0x63])];
    assert sections[1..] == [];
    assert Sections.Payloads(sections) == [0x63] + [];
    assert Sections.DirectoryBytes(sections, offset) == Sections.EntryBytes(Sections.TAG_META, offset, 1) + [];
  }

  lemma EntryOf(tag: U32, offset: Byte, a: Byte, b: Byte, c: Byte, d: Byte)
    requires LittleEndian(tag, 4) == [a, b, c, d]
    ensures Sections.EntryBytes(tag, offset, 1) == [a, b, c, d, 0x01, 0x00, 0x00, 0x00, offset, 0x00, 0x00, 0x00, 0x01, 0x00, 0x00, 0x00]
  {
    TwoByteWord(0, 0);
    FourBytes(offset, 0, 0, 0);
    FourBytes(1, 0, 0, 0);
    hide LittleEndian;
  }

  lemma BlankHeader()
    ensures Sections.HeaderBytes(0, 4) ==
      [0x53, 0x54, 0x52, 0x41, 0x54, 0x41, 0x56, 0x4D, 0x01, 0x00, 0x00, 0x00, 0x04, 0x00, 0x00, 0x00]
  {
    TwoByteWord(0, 0);
    FourBytes(4, 0, 0, 0);
    hide LittleEndian;
  }

  /** The container of nothing: four sections, in this order, of one byte each. */
  lemma SmallestContainer()
    ensures Builder.Serialized(Builder.Program([], [], [], [], [], [], false, false, 0)) ==
      [0x53, 0x54, 0x52, 0x41, 0x54, 0x41, 0x56, 0x4D, 0x01, 0x00, 0x00, 0x00, 0x04, 0x00, 0x00, 0x00] +
      ([0x41, 0x54, 0x4F, 0x4D, 0x01, 0x00, 0x00, 0x00, 0x50, 0x00, 0x00, 0x00, 0x01, 0x00, 0x00, 0x00] +
       ([0x53, 0x43, 0x4D, 0x41, 0x01, 0x00, 0x00, 0x00, 0x51, 0x00, 0x00, 0x00, 0x01, 0x00, 0x00, 0x00] +
        ([0x48, 0x45, 0x41, 0x50, 0x01, 0x00, 0x00, 0x00, 0x52, 0x00, 0x00, 0x00, 0x01, 0x00, 0x00, 0x00] +
         ([0x4A, 0x52, 0x4E, 0x4C, 0x01, 0x00, 0x00, 0x00, 0x53, 0x00, 0x00, 0x00, 0x01, 0x00, 0x00, 0x00] +
          [0x00, 0x00, 0x00, 0x00]))))
  {
    var a, b, c, d := SmallestSections();
    FourEntries(a, b, c, d);
    FourTags();
    BlankHeader();
    hide *;
    Nested(Sections.HeaderBytes(0, 4), Sections.EntryBytes(a.tag, 0x50, 1), Sections.EntryBytes(b.tag, 0x51, 1),
           Sections.EntryBytes(c.tag, 0x52, 1), Sections.EntryBytes(d.tag, 0x53, 1), [0x00, 0x00, 0x00, 0x00]);
  }

  lemma SmallestSections() returns (a: Sections.Section, b: Sections.Section, c: Sections.Section, d: Sections.Section)
    ensures a.payload == [0x00] && b.payload == [0x00] && c.payload == [0x00] && d.payload == [0x00]
    ensures a.tag == Sections.TAG_ATOM && b.tag == Sections.TAG_SCHEMA && c.tag == Sections.TAG_HEAP && d.tag == Sections.TAG_JOURNAL
    ensures Builder.Serialized(Builder.Program([], [], [], [], [], [], false, false, 0))
         == Sections.HeaderBytes(0, 4) + (Sections.DirectoryBytes([a, b, c, d], 0x50) + Sections.Payloads([a, b, c, d]))
  {
    EmptyPayloads();
    a, b := Sections.Section(Sections.TAG_ATOM, [0x00]), Sections.Section(Sections.TAG_SCHEMA, [0x00]);
    c, d := Sections.Section(Sections.TAG_HEAP, [0x00]), Sections.Section(Sections.TAG_JOURNAL, [0x00]);
    hide Sections.HeaderBytes, Sections.DirectoryBytes, Sections.Payloads, Builder.AtomPoolBytes, SchemaBytes, HeapBytes,
      Builder.JournalPayload;
    assert Builder.SectionsOf(Builder.Program([], [], [], [], [], [], false, false, 0)) == [a, b, c, d];
  }

  lemma FourTags()
    ensures Sections.EntryBytes(Sections.TAG_ATOM, 0x50, 1)
         == [0x41, 0x54, 0x4F, 0x4D, 0x01, 0x00, 0x00, 0x00, 0x50, 0x00, 0x00, 0x00, 0x01, 0x00, 0x00, 0x00]
    ensures Sections.EntryBytes(Sections.TAG_SCHEMA, 0x51, 1)
         == [0x53, 0x43, 0x4D, 0x41, 0x01, 0x00, 0x00, 0x00, 0x51, 0x00, 0x00, 0x00, 0x01, 0x00, 0x00, 0x00]
    ensures Sections.EntryBytes(Sections.TAG_HEAP, 0x52, 1)
         == [0x48, 0x45, 0x41, 0x50, 0x01, 0x00, 0x00, 0x00, 0x52, 0x00, 0x00, 0x00, 0x01, 0x00, 0x00, 0x00]
    ensures Sections.EntryBytes(Sections.TAG_JOURNAL, 0x53, 1)
         == [0x4A, 0x52, 0x4E, 0x4C, 0x01, 0x00, 0x00, 0x00, 0x53, 0x00, 0x00, 0x00, 0x01, 0x00, 0x00, 0x00]
  {
    Tags();
    hide LittleEndian, Sections.EntryBytes;
    EntryOf(Sections.TAG_ATOM, 0x50, 0x41, 0x54, 0x4F, 0x4D);
    EntryOf(Sections.TAG_SCHEMA, 0x51, 0x53, 0x43, 0x4D, 0x41);
    EntryOf(Sections.TAG_HEAP, 0x52, 0x48, 0x45, 0x41, 0x50);
    EntryOf(Sections.TAG_JOURNAL, 0x53, 0x4A, 0x52, 0x4E, 0x4C);
  }

  lemma Nested(h: seq<Byte>, a: seq<Byte>, b: seq<Byte>, c: seq<Byte>, d: seq<Byte>, rest: seq<Byte>)
    ensures h + ((a + (b + (c + d))) + rest) == h + (a + (b + (c + (d + rest))))
  {
  }

  lemma EmptyPayloads()
    ensures Builder.AtomPoolBytes([]) == [0x00] && SchemaBytes([]) == [0x00] && HeapBytes([]) == [0x00]
    ensures Builder.JournalPayload([]) == [0x00]
  {
  }

  lemma FourEntries(a: Sections.Section, b: Sections.Section, c: Sections.Section, d: Sections.Section)
    requires a.payload == [0x00] && b.payload == [0x00] && c.payload == [0x00] && d.payload == [0x00]
    ensures Sections.DirectoryBytes([a, b, c, d], 0x50) ==
      Sections.EntryBytes(a.tag, 0x50, 1) + (Sections.EntryBytes(b.tag, 0x51, 1) +
        (Sections.EntryBytes(c.tag, 0x52, 1) + Sections.EntryBytes(d.tag, 0x53, 1)))
    ensures Sections.Payloads([a, b, c, d]) == [0x00, 0x00, 0x00, 0x00]
  {
    hide Sections.EntryBytes;
    var s := [a, b, c, d];
    assert s[1..] == [b, c, d] && [b, c, d][1..] == [c, d] && [c, d][1..] == [d] && [d][1..] == [];
    assert Sections.Payloads([d]) == [0x00];
    assert Sections.Payloads([c, d]) == [0x00, 0x00];
    assert Sections.Payloads([b, c, d]) == [0x00, 0x00, 0x00];
    assert Sections.DirectoryBytes([d], 0x53) == Sections.EntryBytes(d.tag, 0x53, 1);
    assert Sections.DirectoryBytes([c, d], 0x52) == Sections.EntryBytes(c.tag, 0x52, 1) + Sections.DirectoryBytes([d], 0x53);
    assert Sections.DirectoryBytes([b, c, d], 0x51) == Sections.EntryBytes(b.tag, 0x51, 1) + Sections.DirectoryBytes([c, d], 0x52);
  }

  // ----- frames -----

  lemma FourWords(a: seq<Byte>, b: seq<Byte>, c: seq<Byte>, d: seq<Byte>)
    requires a == [0x53, 0x57, 0x46, 0x52] && b == [0x05, 0x06, 0x07, 0x08]
    requires c == [0x01, 0x02, 0x03, 0x04] && d == [0x02, 0x00, 0x00, 0x00]
    ensures a + b + c + d == [0x53, 0x57, 0x46, 0x52, 0x05, 0x06, 0x07, 0x08, 0x01, 0x02, 0x03, 0x04, 0x02, 0x00, 0x00, 0x00]
  {
  }

  /** A frame: "SWFR", flags, sequence number, payload length, payload, and the
      checksum of all that. */
  lemma FrameExample(payload: seq<Byte>)
    requires |payload| == 2
    ensures
      var body := [0x53, 0x57, 0x46, 0x52, 0x05, 0x06, 0x07, 0x08, 0x01, 0x02, 0x03, 0x04, 0x02, 0x00, 0x00, 0x00] + payload;
      Wire.FrameBytes(Wire.WireFrame(0x0403_0201, 0x0807_0605, payload)) == body + LittleEndian(Crc.Crc32(body), 4)
  {
    FourBytes(0x53, 0x57, 0x46, 0x52);
    FourBytes(0x05, 0x06, 0x07, 0x08);
    FourBytes(0x01, 0x02, 0x03, 0x04);
    FourBytes(0x02, 0, 0, 0);
    hide LittleEndian, Crc.Crc32;
    FourWords(LittleEndian(Wire.FRAME_MAGIC, 4), LittleEndian(0x0807_0605, 4), LittleEndian(0x0403_0201, 4), LittleEndian(2, 4));
  }

  // ----- diffs -----

  /** One change: its kind, name, ids and node kind, the field changes with both
      tagged values, the names of children added and of children removed. */
  lemma DiffExample()
    ensures Diff.ADDED == 0 && Diff.REMOVED == 1 && Diff.MODIFIED == 2 && Diff.UNCHANGED == 3
    ensures DiffCodec.DiffBytes(Diff.GraphDiff(
              [Diff.NodeChange(2, 4, 5, 3, 6, [Diff.FieldChange(7, AtomV(8), Invalid)], [9], [10, 11])], 0, 0, 1, 1))
         == [0x01, 0x02, 0x03, 0x04, 0x05, 0x06, 0x01, 0x07, 0x02, 0x08, 0xFF, 0x01, 0x09, 0x02, 0x0A, 0x0B]
  {
    var nc := Diff.NodeChange(2, 4, 5, 3, 6, [Diff.FieldChange(7, AtomV(8), Invalid)], [9], [10, 11]);
    ChangeExample(nc);
    OneByte(1);
    hide DiffCodec.NodeChangeBytes, Varint;
    assert [nc][1..] == [];
    assert DiffCodec.ChangesBytes([nc]) == DiffCodec.NodeChangeBytes(nc) + [];
  }

  lemma ChangeExample(nc: Diff.NodeChange)
    requires nc == Diff.NodeChange(2, 4, 5, 3, 6, [Diff.FieldChange(7, AtomV(8), Invalid)], [9], [10, 11])
    ensures DiffCodec.NodeChangeBytes(nc)
         == [0x02, 0x03, 0x04, 0x05, 0x06, 0x01, 0x07, 0x02, 0x08, 0xFF, 0x01, 0x09, 0x02, 0x0A, 0x0B]
  {
    ListsExample(nc);
    OneByte(3);
    OneByte(4);
    OneByte(5);
    OneByte(6);
    hide DiffCodec.ListsBytes, Varint;
  }

  lemma ListsExample(nc: Diff.NodeChange)
    requires nc.fieldChanges == [Diff.FieldChange(7, AtomV(8), Invalid)] && nc.childrenAdded == [9] && nc.childrenRemoved == [10, 11]
    ensures DiffCodec.ListsBytes(nc) == [0x01, 0x07, 0x02, 0x08, 0xFF, 0x01, 0x09, 0x02, 0x0A, 0x0B]
  {
    OneFieldChange(nc.fieldChanges);
    NamesExample();
    OneByte(1);
    hide DiffCodec.FieldChangesBytes, DiffCodec.NamesBytes, Varint;
  }

  lemma OneFieldChange(fcs: seq<Diff.FieldChange>)
    requires fcs == [Diff.FieldChange(7, AtomV(8), Invalid)]
    ensures DiffCodec.FieldChangesBytes(fcs) == [0x07, 0x02, 0x08, 0xFF]
  {
    assert fcs[1..] == [];
  }

  lemma NamesExample()
    ensures DiffCodec.NamesBytes([9]) == [0x01, 0x09] && DiffCodec.NamesBytes([10, 11]) == [0x02, 0x0A, 0x0B]
  {
    assert [10, 11][1..] == [11] && [11][1..] == [] && [9][1..] == [];
    assert VarintList([11]) == [0x0B];
    assert VarintList([10, 11]) == [0x0A] + [0x0B];
  }

  // ----- the registry -----

  /** One version: its id in four bytes, its description, its atoms, its kinds. */
  lemma RegistryExample()
    ensures Registry.RegistryBytes([Migration.Version(0x0403_0201, [0x61], [[0x62]], [KindDef(0, [])])])
         == [0x01, 0x01, 0x02, 0x03, 0x04, 0x01, 0x61, 0x01, 0x01, 0x62, 0x01, 0x00, 0x00]
  {
    FourBytes(1, 2, 3, 4);
    hide LittleEndian;
    var atoms: seq<Text> := [[0x62]];
    assert atoms[1..] == [];
    assert AtomsBytes(atoms) == [0x01, 0x62];
    var kinds := [KindDef(0, [])];
    assert kinds[1..] == [];
    assert KindsBytes(kinds) == [0x00, 0x00];
    var v := Migration.Version(0x0403_0201, [0x61], atoms, kinds);
    assert [v][1..] == [];
    assert Registry.VersionsBytes([v]) == Registry.VersionBytes(v) + [];
  }
}
