/** The file header and section directory. */
module Sections {
  import opened Basics
  import opened Codec

  const MAGIC: seq<Byte> := [0x53, 0x54, 0x52, 0x41, 0x54, 0x41, 0x56, 0x4D]

  const TAG_ATOM: U32 := 0x4D4F_5441
  const TAG_SCHEMA: U32 := 0x414D_4353
  const TAG_HEAP: U32 := 0x5041_4548
  const TAG_JOURNAL: U32 := 0x4C4E_524A
  const TAG_XREF: U32 := 0x4645_5258
  const TAG_META: U32 := 0x4154_454D
  const TAG_UNKNOWN: U32 := 0

  const HEADER_SIZE: nat := 16
  const ENTRY_SIZE: nat := 16

  datatype FileHeader = FileHeader(major: Byte, minor: Byte, flags: U16, count: U32)

  datatype Entry = Entry(tag: U32, version: Byte, flags: U16, offset: U32, length: U32)

  /** A payload waiting to be placed. */
  datatype Section = Section(tag: U32, payload: seq<Byte>)

  // ----- layout -----

  function HeaderBytes(flags: U16, count: nat): (s: seq<Byte>)
    ensures |s| == HEADER_SIZE
  {
    MAGIC + ([1] + ([0] + (LittleEndian(flags, 2) + LittleEndian(count % TWO32, 4))))
  }

  function EntryBytes(tag: U32, offset: nat, length: nat): (s: seq<Byte>)
    ensures |s| == ENTRY_SIZE
  {
    LittleEndian(tag, 4) +
      ([1] + ([0] + (LittleEndian(0, 2) + (LittleEndian(offset % TWO32, 4) + LittleEndian(length % TWO32, 4)))))
  }

  function DirectoryBytes(sections: seq<Section>, offset: nat): (s: seq<Byte>)
    ensures |s| == ENTRY_SIZE * |sections|
    decreases |sections|
  {
    if sections == [] then []
    else EntryBytes(sections[0].tag, offset, |sections[0].payload|)
         + DirectoryBytes(sections[1..], offset + |sections[0].payload|)
  }

  function Payloads(sections: seq<Section>): seq<Byte> {
    if sections == [] then [] else sections[0].payload + Payloads(sections[1..])
  }

  function FileBytes(flags: U16, sections: seq<Section>): seq<Byte> {
    HeaderBytes(flags, |sections|)
      + (DirectoryBytes(sections, HEADER_SIZE + ENTRY_SIZE * |sections|) + Payloads(sections))
  }

  // ----- decoding -----

  function ReadHeader(s: seq<Byte>, lim: Limits): Result<(FileHeader, seq<Byte>)> {
    var (magic, s1) :- ReadBytes(s, |MAGIC|);
    if magic != MAGIC then Err(BadMagic)
    else
      var (major, s2) :- ReadU8(s1);
      var (minor, s3) :- ReadU8(s2);
      var (flags, s4) :- ReadU16(s3);
      var (count, s5) :- ReadU32(s4);
      if major != 1 then Err(UnsupportedVersion)
      else if count > lim.maxSections then Err(LimitExceeded)
      else Ok((FileHeader(major, minor, flags, count), s5))
  }

  function ReadU16(s: seq<Byte>): Result<(U16, seq<Byte>)> {
    if |s| < 2 then Err(Truncated)
    else
      Pow256Values();
      FromLittleEndianInverse(s[..2]);
      Ok((FromLittleEndian(s[..2]), s[2..]))
  }

  function ReadU32(s: seq<Byte>): Result<(U32, seq<Byte>)> {
    if |s| < 4 then Err(Truncated)
    else
      Pow256Values();
      FromLittleEndianInverse(s[..4]);
      Ok((FromLittleEndian(s[..4]), s[4..]))
  }

  function ReadEntry(s: seq<Byte>): Result<(Entry, seq<Byte>)> {
    var (tag, s1) :- ReadU32(s);
    var (version, s2) :- ReadU8(s1);
    var (_, s3) :- ReadU8(s2);
    var (flags, s4) :- ReadU16(s3);
    var (offset, s5) :- ReadU32(s4);
    var (length, s6) :- ReadU32(s5);
    Ok((Entry(tag, version, flags, offset, length), s6))
  }

  predicate Repeats(seen: seq<Entry>, tag: U32) {
    exists j :: 0 <= j < |seen| && seen[j].tag == tag
  }

  function AdmitEntry(e: Entry, seen: seq<Entry>, fileSize: nat): Result<Entry> {
    if e.offset > fileSize || e.length > fileSize - e.offset then Err(BadSectionTable)
    else if e.tag != TAG_UNKNOWN && Repeats(seen, e.tag) then Err(DuplicateSection)
    else Ok(e)
  }

  /** Read n more entries after those already seen. */
  function ReadEntries(s: seq<Byte>, n: nat, fileSize: nat, seen: seq<Entry>): Result<(seq<Entry>, seq<Byte>)>
    decreases n
  {
    hide ReadEntry;
    if n == 0 then Ok((seen, s))
    else
      var (e, s1) :- ReadEntry(s);
      var admitted :- AdmitEntry(e, seen, fileSize);
      ReadEntries(s1, n - 1, fileSize, seen + [admitted])
  }

  function ReadDirectory(s: seq<Byte>, fileSize: nat, lim: Limits): Result<((FileHeader, seq<Entry>), seq<Byte>)> {
    var (header, s1) :- ReadHeader(s, lim);
    var (entries, s2) :- ReadEntries(s1, header.count, fileSize, []);
    Ok(((header, entries), s2))
  }

  /** The first entry with the tag. */
  function FindEntry(entries: seq<Entry>, tag: U32): (r: Option<nat>)
    ensures r.Some? ==> r.value < |entries| && entries[r.value].tag == tag
    ensures r.Some? ==> forall j :: 0 <= j < r.value ==> entries[j].tag != tag
    ensures r.None? ==> forall j :: 0 <= j < |entries| ==> entries[j].tag != tag
  {
    if entries == [] then None
    else
      var m := |entries| - 1;
      var front := FindEntry(entries[..m], tag);
      if front.Some? then front else if entries[m].tag == tag then Some(m) else None
  }

  // ----- what an accepted directory is -----

  /** Every window lies in the file, and no known tag is declared twice. */
  ghost predicate DirectoryOk(entries: seq<Entry>, fileSize: nat) {
    && (forall i :: 0 <= i < |entries| ==> entries[i].offset + entries[i].length <= fileSize)
    && (forall i, j :: 0 <= i < j < |entries| && entries[i].tag != TAG_UNKNOWN ==> entries[i].tag != entries[j].tag)
  }

  lemma {:induction false} ReadEntriesOk(s: seq<Byte>, n: nat, fileSize: nat, seen: seq<Entry>)
    requires ReadEntries(s, n, fileSize, seen).Ok? && DirectoryOk(seen, fileSize)
    ensures var entries := ReadEntries(s, n, fileSize, seen).value.0;
      |entries| == |seen| + n && DirectoryOk(entries, fileSize)
    decreases n
  {
    hide ReadEntry;
    if n > 0 {
      var (e, s1) := ReadEntry(s).value;
      ReadEntriesOk(s1, n - 1, fileSize, seen + [e]);
    }
  }

  /** Every directory the decoder accepts, from any bytes, is in bounds and
      unambiguous, and has as many entries as the header declares. */
  lemma AcceptedDirectoryOk(s: seq<Byte>, fileSize: nat, lim: Limits)
    requires ReadDirectory(s, fileSize, lim).Ok?
    ensures var (header, entries) := ReadDirectory(s, fileSize, lim).value.0;
      |entries| == header.count <= lim.maxSections && header.major == 1 && DirectoryOk(entries, fileSize)
  {
    hide ReadHeader, ReadEntries;
    var (header, s1) := ReadHeader(s, lim).value;
    assert DirectoryOk([], fileSize);
    ReadEntriesOk(s1, header.count, fileSize, []);
    HeaderAdmits(s, lim);
  }

  lemma HeaderAdmits(s: seq<Byte>, lim: Limits)
    requires ReadHeader(s, lim).Ok?
    ensures ReadHeader(s, lim).value.0.major == 1 && ReadHeader(s, lim).value.0.count <= lim.maxSections
  {
    hide ReadU16, ReadU32;
  }

  // ----- the directory of a laid-out file -----

  function EntriesOf(sections: seq<Section>, offset: nat): (r: seq<Entry>)
    ensures |r| == |sections|
    decreases |sections|
  {
    if sections == [] then []
    else [Entry(sections[0].tag, 1, 0, offset % TWO32, |sections[0].payload| % TWO32)]
         + EntriesOf(sections[1..], offset + |sections[0].payload|)
  }

  lemma U16RoundTrip(v: U16, rest: seq<Byte>)
    ensures ReadU16(LittleEndian(v, 2) + rest) == Ok((v, rest))
  {
    Pow256Values();
    FixedRoundTrip(v, 2, rest);
    var s := LittleEndian(v, 2) + rest;
    assert ReadFixed(s, 2) == Ok((FromLittleEndian(s[..2]), s[2..]));
  }

  lemma U32RoundTrip(v: U32, rest: seq<Byte>)
    ensures ReadU32(LittleEndian(v, 4) + rest) == Ok((v, rest))
  {
    Pow256Values();
    FixedRoundTrip(v, 4, rest);
    var s := LittleEndian(v, 4) + rest;
    assert ReadFixed(s, 4) == Ok((FromLittleEndian(s[..4]), s[4..]));
  }

  lemma U8RoundTrip(b: Byte, rest: seq<Byte>)
    ensures ReadU8([b] + rest) == Ok((b, rest))
  {
  }

  lemma HeaderRoundTrip(flags: U16, count: nat, lim: Limits, rest: seq<Byte>)
    requires count <= lim.maxSections && count < TWO32
    ensures ReadHeader(HeaderBytes(flags, count) + rest, lim) == Ok((FileHeader(1, 0, flags, count), rest))
  {
    hide ReadU8, ReadU16, ReadU32, LittleEndian;
    var s5 := LittleEndian(count, 4) + rest;
    var s4 := LittleEndian(flags, 2) + s5;
    var s3: seq<Byte> := [0] + s4;
    var s2: seq<Byte> := [1] + s3;
    assert HeaderBytes(flags, count) + rest == MAGIC + s2;
    BytesRoundTrip(MAGIC, s2);
    U8RoundTrip(1, s3);
    U8RoundTrip(0, s4);
    U16RoundTrip(flags, s5);
    U32RoundTrip(count, rest);
  }

  lemma EntryRoundTrip(tag: U32, offset: nat, length: nat, rest: seq<Byte>)
    ensures ReadEntry(EntryBytes(tag, offset, length) + rest) == Ok((Entry(tag, 1, 0, offset % TWO32, length % TWO32), rest))
  {
    hide ReadU8, ReadU16, ReadU32, LittleEndian;
    var s6 := LittleEndian(length % TWO32, 4) + rest;
    var s5 := LittleEndian(offset % TWO32, 4) + s6;
    var s4 := LittleEndian(0, 2) + s5;
    var s3: seq<Byte> := [0] + s4;
    var s2: seq<Byte> := [1] + s3;
    assert EntryBytes(tag, offset, length) + rest == LittleEndian(tag, 4) + s2;
    U32RoundTrip(tag, s2);
    U8RoundTrip(1, s3);
    U8RoundTrip(0, s4);
    U16RoundTrip(0, s5);
    U32RoundTrip(offset % TWO32, s6);
    U32RoundTrip(length % TWO32, rest);
  }

  ghost predicate TagsDistinct(sections: seq<Section>) {
    forall i, j :: 0 <= i < j < |sections| ==> sections[i].tag != sections[j].tag
  }

  lemma OneEntry(sections: seq<Section>, offset: nat, fileSize: nat, seen: seq<Entry>, rest: seq<Byte>)
    requires sections != [] && offset + |sections[0].payload| <= fileSize < TWO32
    requires !Repeats(seen, sections[0].tag)
    ensures var length := |sections[0].payload|;
      ReadEntries(DirectoryBytes(sections, offset) + rest, |sections|, fileSize, seen)
        == ReadEntries(DirectoryBytes(sections[1..], offset + length) + rest, |sections| - 1, fileSize,
                       seen + [Entry(sections[0].tag, 1, 0, offset, length)])
  {
    hide EntryBytes, ReadEntry, Repeats;
    var length := |sections[0].payload|;
    var tail := DirectoryBytes(sections[1..], offset + length) + rest;
    assert DirectoryBytes(sections, offset) + rest == EntryBytes(sections[0].tag, offset, length) + tail;
    EntryRoundTrip(sections[0].tag, offset, length, tail);
  }

  lemma {:induction false} EntriesRoundTrip(sections: seq<Section>, offset: nat, fileSize: nat, seen: seq<Entry>, rest: seq<Byte>)
    requires offset + |Payloads(sections)| <= fileSize < TWO32
    requires TagsDistinct(sections)
    requires forall i :: 0 <= i < |sections| ==> !Repeats(seen, sections[i].tag)
    ensures ReadEntries(DirectoryBytes(sections, offset) + rest, |sections|, fileSize, seen)
         == Ok((seen + EntriesOf(sections, offset), rest))
    decreases |sections|
  {
    hide DirectoryBytes, ReadEntries, EntriesOf;
    if sections == [] {
      assert DirectoryBytes(sections, offset) + rest == rest;
      assert seen + EntriesOf(sections, offset) == seen;
      NoEntries(rest, fileSize, seen);
    } else {
      var length := |sections[0].payload|;
      var e := Entry(sections[0].tag, 1, 0, offset, length);
      OneEntry(sections, offset, fileSize, seen, rest);
      forall i | 0 <= i < |sections[1..]| ensures !Repeats(seen + [e], sections[1..][i].tag) {
        assert sections[1..][i] == sections[i + 1];
        assert !Repeats(seen, sections[i + 1].tag);
      }
      EntriesRoundTrip(sections[1..], offset + length, fileSize, seen + [e], rest);
      EntriesOfStep(sections, offset, seen);
    }
  }

  lemma EntriesOfStep(sections: seq<Section>, offset: nat, seen: seq<Entry>)
    requires sections != [] && offset + |sections[0].payload| < TWO32
    ensures seen + [Entry(sections[0].tag, 1, 0, offset, |sections[0].payload|)]
              + EntriesOf(sections[1..], offset + |sections[0].payload|)
         == seen + EntriesOf(sections, offset)
  {
  }

  lemma NoEntries(s: seq<Byte>, fileSize: nat, seen: seq<Entry>)
    ensures ReadEntries(s, 0, fileSize, seen) == Ok((seen, s))
  {
  }

  /** Reading a laid-out file's directory gives back its flags and one entry a
      section, at the offsets the payloads were placed. */
  lemma DirectoryRoundTrip(flags: U16, sections: seq<Section>, lim: Limits)
    requires |FileBytes(flags, sections)| < TWO32 && |sections| <= lim.maxSections && TagsDistinct(sections)
    ensures var file := FileBytes(flags, sections);
      ReadDirectory(file, |file|, lim)
        == Ok(((FileHeader(1, 0, flags, |sections|), EntriesOf(sections, HEADER_SIZE + ENTRY_SIZE * |sections|)), Payloads(sections)))
  {
    hide HeaderBytes, ReadHeader, DirectoryBytes, ReadEntries;
    var file := FileBytes(flags, sections);
    var start := HEADER_SIZE + ENTRY_SIZE * |sections|;
    HeaderRoundTrip(flags, |sections|, lim, DirectoryBytes(sections, start) + Payloads(sections));
    EntriesRoundTrip(sections, start, |file|, [], Payloads(sections));
    assert [] + EntriesOf(sections, start) == EntriesOf(sections, start);
  }

  /** The windows follow the directory back to back, each holding exactly its
      section's payload, and the last one ends the file. */
  ghost predicate Tiles(file: seq<Byte>, sections: seq<Section>, entries: seq<Entry>, offset: nat)
    decreases |sections|
  {
    && |entries| == |sections|
    && if sections == [] then offset == |file|
       else && entries[0].tag == sections[0].tag
            && entries[0].offset == offset
            && offset + entries[0].length <= |file|
            && file[offset..offset + entries[0].length] == sections[0].payload
            && Tiles(file, sections[1..], entries[1..], offset + entries[0].length)
  }

  lemma {:induction false} PayloadsTile(front: seq<Byte>, sections: seq<Section>)
    requires |front + Payloads(sections)| < TWO32
    ensures Tiles(front + Payloads(sections), sections, EntriesOf(sections, |front|), |front|)
    decreases |sections|
  {
    if sections != [] {
      var p := sections[0].payload;
      assert front + Payloads(sections) == front + p + Payloads(sections[1..]);
      PayloadsTile(front + p, sections[1..]);
      assert (front + p + Payloads(sections[1..]))[|front|..|front| + |p|] == p;
    }
  }

  lemma WindowsTileTheFile(flags: U16, sections: seq<Section>)
    requires |FileBytes(flags, sections)| < TWO32
    ensures var start := HEADER_SIZE + ENTRY_SIZE * |sections|;
      Tiles(FileBytes(flags, sections), sections, EntriesOf(sections, start), start)
  {
    var start := HEADER_SIZE + ENTRY_SIZE * |sections|;
    var front := HeaderBytes(flags, |sections|) + DirectoryBytes(sections, start);
    assert FileBytes(flags, sections) == front + Payloads(sections);
    PayloadsTile(front, sections);
  }

  /** Tiling windows are disjoint, and none reaches before the start. */
  lemma {:induction false} TilesDisjoint(file: seq<Byte>, sections: seq<Section>, entries: seq<Entry>, offset: nat)
    requires Tiles(file, sections, entries, offset)
    ensures forall i :: 0 <= i < |entries| ==> entries[i].offset >= offset
    ensures forall i, j :: 0 <= i < j < |entries| ==> entries[i].offset + entries[i].length <= entries[j].offset
    ensures forall i :: 0 <= i < |entries| ==> entries[i].tag == sections[i].tag
    ensures forall i :: 0 <= i < |entries| ==>
      entries[i].offset + entries[i].length <= |file|
      && file[entries[i].offset..entries[i].offset + entries[i].length] == sections[i].payload
    decreases |sections|
  {
    if sections != [] {
      TilesDisjoint(file, sections[1..], entries[1..], offset + entries[0].length);
      assert forall i :: 1 <= i < |entries| ==> entries[i] == entries[1..][i - 1] && sections[i] == sections[1..][i - 1];
    }
  }

  // ----- the imperative table and layout -----

  class SectionTable {
    var header: FileHeader
    var entries: seq<Entry>

    constructor ()
      ensures entries == []
    {
      header := FileHeader(0, 0, 0, 0);
      entries := [];
    }

    method DecodeHeader(r: ByteReader, lim: Limits) returns (res: Result<()>)
      requires r.Valid()
      modifies `header, r`pos
      ensures r.Valid()
      ensures match ReadHeader(old(r.Rest()), lim)
              case Ok(pair) => res.Ok? && header == pair.0 && r.Rest() == pair.1
              case Err(code) => res == Err(code)
    {
      var magic :- r.Bytes(|MAGIC|);
      if magic != MAGIC {
        return Err(BadMagic);
      }
      var major :- r.U8();
      var minor :- r.U8();
      var flags :- FixedU16(r);
      var count :- FixedU32(r);
      if major != 1 {
        return Err(UnsupportedVersion);
      }
      if count > lim.maxSections {
        return Err(LimitExceeded);
      }
      header := FileHeader(major, minor, flags, count);
      return Ok(());
    }

    method Decode(r: ByteReader, fileSize: nat, lim: Limits) returns (res: Result<()>)
      requires r.Valid()
      modifies this, r`pos
      ensures r.Valid()
      ensures match ReadDirectory(old(r.Rest()), fileSize, lim)
              case Ok(pair) => res.Ok? && header == pair.0.0 && entries == pair.0.1 && r.Rest() == pair.1
              case Err(code) => res == Err(code)
    {
      hide ReadHeader, ReadEntry;
      var done :- DecodeHeader(r, lim);
      entries := [];
      ghost var spec := ReadEntries(r.Rest(), header.count, fileSize, []);
      var i := 0;
      while i < header.count
        invariant 0 <= i <= header.count && r.Valid() && header == ReadHeader(old(r.Rest()), lim).value.0
        invariant ReadEntries(r.Rest(), header.count - i, fileSize, entries) == spec
      {
        var e :- DecodeEntry(r);
        if e.offset > fileSize || e.length > fileSize - e.offset {
          return Err(BadSectionTable);
        }
        if e.tag != TAG_UNKNOWN {
          var j := 0;
          while j < |entries|
            invariant 0 <= j <= |entries|
            invariant forall k :: 0 <= k < j ==> entries[k].tag != e.tag
          {
            if entries[j].tag == e.tag {
              return Err(DuplicateSection);
            }
            j := j + 1;
          }
        }
        entries := entries + [e];
        i := i + 1;
      }
      return Ok(());
    }

    method Find(tag: U32) returns (r: Option<Entry>)
      ensures match FindEntry(entries, tag)
              case Some(i) => r == Some(entries[i])
              case None => r == None
    {
      var i := 0;
      while i < |entries|
        invariant 0 <= i <= |entries|
        invariant forall k :: 0 <= k < i ==> entries[k].tag != tag
      {
        if entries[i].tag == tag {
          return Some(entries[i]);
        }
        i := i + 1;
      }
      return None;
    }
  }

  // ----- laying a file out -----

  /** A directory whose offsets and lengths are still to be filled in. */
  function BlankDirectory(sections: seq<Section>): (s: seq<Byte>)
    ensures |s| == ENTRY_SIZE * |sections|
  {
    if sections == [] then [] else EntryBytes(sections[0].tag, 0, 0) + BlankDirectory(sections[1..])
  }

  lemma {:induction false} BlankAppend(sections: seq<Section>, last: Section)
    ensures BlankDirectory(sections + [last]) == BlankDirectory(sections) + EntryBytes(last.tag, 0, 0)
  {
    hide EntryBytes;
    if sections == [] {
      assert [last][1..] == [];
    } else {
      assert (sections + [last])[1..] == sections[1..] + [last];
      BlankAppend(sections[1..], last);
    }
  }

  lemma {:induction false} LayoutAppend(sections: seq<Section>, last: Section, offset: nat)
    ensures Payloads(sections + [last]) == Payloads(sections) + last.payload
    ensures DirectoryBytes(sections + [last], offset)
         == DirectoryBytes(sections, offset) + EntryBytes(last.tag, offset + |Payloads(sections)|, |last.payload|)
    decreases |sections|
  {
    hide EntryBytes;
    if sections == [] {
      assert [last][1..] == [];
    } else {
      assert (sections + [last])[1..] == sections[1..] + [last];
      LayoutAppend(sections[1..], last, offset + |sections[0].payload|);
    }
  }

  /** The file with its first i payloads placed and their entries patched. */
  ghost function PartialFile(flags: U16, sections: seq<Section>, i: nat): seq<Byte>
    requires i <= |sections|
  {
    HeaderBytes(flags, |sections|)
      + DirectoryBytes(sections[..i], HEADER_SIZE + ENTRY_SIZE * |sections|)
      + BlankDirectory(sections[i..])
      + Payloads(sections[..i])
  }

  lemma PatchedEntry(front: seq<Byte>, tag: U32, offset: nat, length: nat, back: seq<Byte>,
                     blank: seq<Byte>, once: seq<Byte>, twice: seq<Byte>)
    requires blank == front + EntryBytes(tag, 0, 0) + back
    requires once == blank[..|front| + 8] + LittleEndian(offset % TWO32, 4) + blank[|front| + 12..]
    requires twice == once[..|front| + 12] + LittleEndian(length % TWO32, 4) + once[|front| + 16..]
    ensures twice == front + EntryBytes(tag, offset, length) + back
  {
    hide LittleEndian;
    var head := LittleEndian(tag, 4) + ([1] + ([0] + LittleEndian(0, 2)));
    assert EntryBytes(tag, 0, 0) == head + LittleEndian(0, 4) + LittleEndian(0, 4);
    assert EntryBytes(tag, offset, length) == head + LittleEndian(offset % TWO32, 4) + LittleEndian(length % TWO32, 4);
    assert blank[..|front| + 8] == front + head;
    assert blank[|front| + 12..] == LittleEndian(0, 4) + back;
    assert once[..|front| + 12] == front + head + LittleEndian(offset % TWO32, 4);
    assert once[|front| + 16..] == back;
  }

  /** The file with i payloads placed, split around entry i. */
  lemma AroundEntry(flags: U16, sections: seq<Section>, i: nat) returns (front: seq<Byte>, back: seq<Byte>)
    requires i < |sections|
    ensures |front| == HEADER_SIZE + ENTRY_SIZE * i
    ensures PartialFile(flags, sections, i) == front + EntryBytes(sections[i].tag, 0, 0) + back
    ensures PartialFile(flags, sections, i + 1)
         == front + EntryBytes(sections[i].tag, |PartialFile(flags, sections, i)|, |sections[i].payload|)
            + (back + sections[i].payload)
  {
    hide EntryBytes, HeaderBytes, DirectoryBytes, BlankDirectory, Payloads;
    var s, start, placed := sections[i], HEADER_SIZE + ENTRY_SIZE * |sections|, sections[..i];
    assert sections[..i + 1] == placed + [s];
    LayoutAppend(placed, s, start);
    BlankStep(sections, i);
    front := HeaderBytes(flags, |sections|) + DirectoryBytes(placed, start);
    back := BlankDirectory(sections[i + 1..]) + Payloads(placed);
  }

  lemma BlankStep(sections: seq<Section>, i: nat)
    requires i < |sections|
    ensures BlankDirectory(sections[i..]) == EntryBytes(sections[i].tag, 0, 0) + BlankDirectory(sections[i + 1..])
  {
    hide EntryBytes;
    assert sections[i..][1..] == sections[i + 1..];
  }

  lemma PlaceOne(flags: U16, sections: seq<Section>, i: nat, appended: seq<Byte>, once: seq<Byte>, twice: seq<Byte>)
    requires i < |sections|
    requires HEADER_SIZE + ENTRY_SIZE * i + 16 <= |appended| == |once|
    requires appended == PartialFile(flags, sections, i) + sections[i].payload
    requires once == appended[..HEADER_SIZE + ENTRY_SIZE * i + 8] + LittleEndian(|PartialFile(flags, sections, i)| % TWO32, 4)
                   + appended[HEADER_SIZE + ENTRY_SIZE * i + 12..]
    requires twice == once[..HEADER_SIZE + ENTRY_SIZE * i + 12] + LittleEndian(|sections[i].payload| % TWO32, 4)
                    + once[HEADER_SIZE + ENTRY_SIZE * i + 16..]
    ensures twice == PartialFile(flags, sections, i + 1)
  {
    hide LittleEndian, EntryBytes, PartialFile;
    var front, back := AroundEntry(flags, sections, i);
    PatchedEntry(front, sections[i].tag, |PartialFile(flags, sections, i)|, |sections[i].payload|,
                 back + sections[i].payload, appended, once, twice);
  }

  method PutBlankEntry(out: ByteWriter, tag: U32) returns (offsetSlot: nat, lengthSlot: nat)
    modifies out
    ensures out.buf == old(out.buf) + EntryBytes(tag, 0, 0)
    ensures offsetSlot == |old(out.buf)| + 8 && lengthSlot == |old(out.buf)| + 12
  {
    hide LittleEndian;
    out.PutFixed(tag, 4);
    out.PutU8(1);
    out.PutU8(0);
    out.PutFixed(0, 2);
    offsetSlot := |out.buf|;
    out.PutFixed(0, 4);
    lengthSlot := |out.buf|;
    out.PutFixed(0, 4);
    assert out.buf == old(out.buf) + (LittleEndian(tag, 4) + ([1] + ([0] + (LittleEndian(0, 2) + (LittleEndian(0, 4) + LittleEndian(0, 4))))));
  }

  method PutHeader(out: ByteWriter, flags: U16, count: nat)
    modifies out
    ensures out.buf == old(out.buf) + HeaderBytes(flags, count)
  {
    hide LittleEndian;
    out.PutRaw(MAGIC);
    out.PutU8(1);
    out.PutU8(0);
    out.PutFixed(flags, 2);
    out.PutFixed(count % TWO32, 4);
    assert out.buf == old(out.buf) + (MAGIC + ([1] + ([0] + (LittleEndian(flags, 2) + LittleEndian(count % TWO32, 4)))));
  }

  /** Write the blank directory, remembering where each entry's slots are. */
  method PutBlankDirectory(out: ByteWriter, sections: seq<Section>) returns (offsetSlots: seq<nat>, lengthSlots: seq<nat>)
    modifies out
    ensures out.buf == old(out.buf) + BlankDirectory(sections)
    ensures |offsetSlots| == |lengthSlots| == |sections|
    ensures forall k :: 0 <= k < |sections| ==>
      offsetSlots[k] == |old(out.buf)| + ENTRY_SIZE * k + 8 && lengthSlots[k] == |old(out.buf)| + ENTRY_SIZE * k + 12
  {
    hide EntryBytes, BlankDirectory;
    offsetSlots, lengthSlots := [], [];
    var i := 0;
    assert BlankDirectory(sections[..0]) == [];
    while i < |sections|
      invariant 0 <= i <= |sections|
      invariant |offsetSlots| == |lengthSlots| == i
      invariant out.buf == old(out.buf) + BlankDirectory(sections[..i])
      invariant forall k :: 0 <= k < i ==>
        offsetSlots[k] == |old(out.buf)| + ENTRY_SIZE * k + 8 && lengthSlots[k] == |old(out.buf)| + ENTRY_SIZE * k + 12
    {
      assert sections[..i + 1] == sections[..i] + [sections[i]];
      BlankAppend(sections[..i], sections[i]);
      var offsetSlot, lengthSlot := PutBlankEntry(out, sections[i].tag);
      offsetSlots := offsetSlots + [offsetSlot];
      lengthSlots := lengthSlots + [lengthSlot];
      i := i + 1;
    }
    assert sections[..|sections|] == sections;
  }

  /** Write the header and a blank directory, append each payload and go back to
      patch its entry. */
  method Layout(flags: U16, sections: seq<Section>) returns (out: ByteWriter)
    ensures fresh(out) && out.buf == FileBytes(flags, sections)
  {
    hide LittleEndian, EntryBytes, HeaderBytes, FileBytes, PartialFile;
    out := new ByteWriter();
    PutHeader(out, flags, |sections|);
    var offsetSlots, lengthSlots := PutBlankDirectory(out, sections);
    WholeFile(flags, sections);
    assert out.buf == PartialFile(flags, sections, 0);
    var i := 0;
    while i < |sections|
      invariant 0 <= i <= |sections| && fresh(out)
      invariant out.buf == PartialFile(flags, sections, i)
    {
      var offset := |out.buf|;
      var bytes := sections[i].payload;
      out.PutRaw(bytes);
      ghost var appended := out.buf;
      PartialLength(flags, sections, i);
      out.PatchU32(offsetSlots[i], offset % TWO32);
      ghost var once := out.buf;
      out.PatchU32(lengthSlots[i], |bytes| % TWO32);
      PlaceOne(flags, sections, i, appended, once, out.buf);
      i := i + 1;
    }
  }

  lemma PartialLength(flags: U16, sections: seq<Section>, i: nat)
    requires i < |sections|
    ensures HEADER_SIZE + ENTRY_SIZE * i + 16 <= |PartialFile(flags, sections, i)|
  {
  }

  lemma NothingPlaced(offset: nat)
    ensures DirectoryBytes([], offset) == [] == BlankDirectory([]) && Payloads([]) == []
  {
  }

  lemma WholeFile(flags: U16, sections: seq<Section>)
    ensures PartialFile(flags, sections, 0) == HeaderBytes(flags, |sections|) + BlankDirectory(sections)
    ensures PartialFile(flags, sections, |sections|) == FileBytes(flags, sections)
  {
    hide HeaderBytes, DirectoryBytes, BlankDirectory, Payloads;
    NothingPlaced(HEADER_SIZE + ENTRY_SIZE * |sections|);
    assert sections[..|sections|] == sections == sections[0..];
    assert sections[|sections|..] == [] && sections[..0] == [];
  }

  method FixedU16(r: ByteReader) returns (res: Result<U16>)
    requires r.Valid()
    modifies r`pos
    ensures r.Reads(old(r.Rest()), ReadU16(old(r.Rest())), res)
  {
    ghost var before := r.Rest();
    if 2 <= |before| {
      Pow256Values();
      FromLittleEndianInverse(before[..2]);
    }
    var v :- r.Fixed(2);
    return Ok(v);
  }

  method FixedU32(r: ByteReader) returns (res: Result<U32>)
    requires r.Valid()
    modifies r`pos
    ensures r.Reads(old(r.Rest()), ReadU32(old(r.Rest())), res)
  {
    ghost var before := r.Rest();
    if 4 <= |before| {
      Pow256Values();
      FromLittleEndianInverse(before[..4]);
    }
    var v :- r.Fixed(4);
    return Ok(v);
  }

  method DecodeEntry(r: ByteReader) returns (res: Result<Entry>)
    requires r.Valid()
    modifies r`pos
    ensures r.Reads(old(r.Rest()), ReadEntry(old(r.Rest())), res)
  {
    var tag :- FixedU32(r);
    var version :- r.U8();
    var reserved :- r.U8();
    var flags :- FixedU16(r);
    var offset :- FixedU32(r);
    var length :- FixedU32(r);
    return Ok(Entry(tag, version, flags, offset, length));
  }
}
