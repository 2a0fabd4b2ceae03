/** What the fixed layouts hold at which offset, and which input each decoder
    refuses with which code. */
module DecodingLaws {
  import opened Basics
  import opened Codec
  import opened Sections
  import Crc
  import Wire

  // ----- little-endian words -----

  function Word16(s: seq<Byte>, at: nat): nat
    requires at + 2 <= |s|
  {
    var a: int, b: int := s[at], s[at + 1];
    a + 0x100 * b
  }

  function Word32(s: seq<Byte>, at: nat): nat
    requires at + 4 <= |s|
  {
    var a: int, b: int, c: int, d: int := s[at], s[at + 1], s[at + 2], s[at + 3];
    a + 0x100 * b + 0x1_0000 * c + 0x100_0000 * d
  }

  lemma TwoBytesAre(s: seq<Byte>)
    requires |s| == 2
    ensures FromLittleEndian(s) == Word16(s, 0)
  {
    assert s[1..][1..] == [] && FromLittleEndian([]) == 0;
    assert FromLittleEndian(s[1..]) == s[1];
  }

  lemma FourBytesAre(s: seq<Byte>)
    requires |s| == 4
    ensures FromLittleEndian(s) == Word32(s, 0)
  {
    assert s[2..] == s[1..][1..];
    TwoBytesAre(s[2..]);
    assert FromLittleEndian(s[1..]) == s[1] + 256 * FromLittleEndian(s[2..]);
  }

  lemma WordsAre(s: seq<Byte>, t: seq<Byte>, at: nat)
    requires at <= |s| && t == s[at..]
    ensures |t| >= 2 ==> ReadU16(t) == Ok((Word16(s, at), s[at + 2..]))
    ensures |t| >= 4 ==> ReadU32(t) == Ok((Word32(s, at), s[at + 4..]))
    ensures |t| >= 1 ==> ReadU8(t) == Ok((s[at], s[at + 1..]))
    ensures |t| < 2 ==> ReadU16(t) == Err(Truncated)
    ensures |t| < 4 ==> ReadU32(t) == Err(Truncated)
    ensures |t| < 1 ==> ReadU8(t) == Err(Truncated)
  {
    if |t| >= 2 {
      TwoBytesAre(t[..2]);
      assert t[2..] == s[at + 2..];
    }
    if |t| >= 4 {
      FourBytesAre(t[..4]);
      assert t[4..] == s[at + 4..];
    }
  }

  // ----- the directory -----

  /** The header: magic, major and minor version, flags, section count; what is
      too short, foreign, of another major version or too long is refused, in
      that order. */
  lemma HeaderLaw(s: seq<Byte>, lim: Limits)
    ensures ReadHeader(s, lim) ==
      if |s| < 8 then Err(Truncated)
      else if s[..8] != [0x53, 0x54, 0x52, 0x41, 0x54, 0x41, 0x56, 0x4D] then Err(BadMagic)
      else if |s| < 16 then Err(Truncated)
      else if s[8] != 1 then Err(UnsupportedVersion)
      else if Word32(s, 12) > lim.maxSections then Err(LimitExceeded)
      else Ok((FileHeader(s[8], s[9], Word16(s, 10), Word32(s, 12)), s[16..]))
  {
    if |s| >= 8 {
      WordsAre(s, s[8..], 8);
      if |s| >= 9 {
        WordsAre(s, s[9..], 9);
      }
      if |s| >= 10 {
        WordsAre(s, s[10..], 10);
      }
      if |s| >= 12 {
        WordsAre(s, s[12..], 12);
      }
      hide ReadU16, ReadU32, ReadU8, Word16, Word32;
    }
  }

  /** An entry: tag, version, a reserved byte, flags, offset, length. */
  lemma EntryLaw(s: seq<Byte>, at: nat)
    requires at <= |s|
    ensures ReadEntry(s[at..]) ==
      if |s| < at + 16 then Err(Truncated)
      else Ok((EntryAt(s, at), s[at + 16..]))
  {
    hide ReadU16, ReadU32, ReadU8, Word16, Word32;
    WordsAre(s, s[at..], at);
    if |s| >= at + 4 {
      WordsAre(s, s[at + 4..], at + 4);
    }
    if |s| >= at + 5 {
      WordsAre(s, s[at + 5..], at + 5);
    }
    if |s| >= at + 6 {
      WordsAre(s, s[at + 6..], at + 6);
    }
    if |s| >= at + 8 {
      WordsAre(s, s[at + 8..], at + 8);
    }
    if |s| >= at + 12 {
      WordsAre(s, s[at + 12..], at + 12);
    }
  }

  function EntryAt(s: seq<Byte>, at: nat): Entry
    requires at + 16 <= |s|
  {
    Entry(Word32(s, at), s[at + 4], Word16(s, at + 6), Word32(s, at + 8), Word32(s, at + 12))
  }

  /** The window of entry i reaches beyond the file. */
  predicate BeyondFile(s: seq<Byte>, i: nat, fileSize: nat)
    requires 16 * i + 16 <= |s|
  {
    EntryAt(s, 16 * i).offset + EntryAt(s, 16 * i).length > fileSize
  }

  /** An earlier entry has the tag of entry i, which is not the unknown one. */
  predicate DeclaredBefore(s: seq<Byte>, i: nat)
    requires 16 * i + 16 <= |s|
  {
    EntryAt(s, 16 * i).tag != 0 && exists j: nat :: j < i && EntryAt(s, 16 * j).tag == EntryAt(s, 16 * i).tag
  }

  predicate Admissible(s: seq<Byte>, i: nat, fileSize: nat) {
    16 * i + 16 <= |s| && !BeyondFile(s, i, fileSize) && !DeclaredBefore(s, i)
  }

  /** The entries before the first bad one are read; that one's fault is the
      result: missing bytes, a window beyond the file, a tag declared twice. */
  lemma EntriesLaw(s: seq<Byte>, n: nat, fileSize: nat, i: nat)
    requires i <= n && forall j: nat :: j < i ==> Admissible(s, j, fileSize)
    requires i < n ==> !Admissible(s, i, fileSize)
    ensures i == n ==> 16 * n <= |s| && ReadEntries(s, n, fileSize, []) == Ok((EntriesAt(s, n), s[16 * n..]))
    ensures i < n ==> ReadEntries(s, n, fileSize, []) == Err(
      if |s| < 16 * i + 16 then Truncated else if BeyondFile(s, i, fileSize) then BadSectionTable else DuplicateSection)
  {
    hide Admissible;
    assert i > 0 ==> Admissible(s, i - 1, fileSize);
    LongEnough(s, fileSize, i);
    ReadFrom(s, n, fileSize, i, 0);
    assert s[0..] == s;
    if i < n {
      FirstFault(s, n, fileSize, i);
    }
  }

  lemma LongEnough(s: seq<Byte>, fileSize: nat, i: nat)
    requires i > 0 ==> Admissible(s, i - 1, fileSize)
    ensures 16 * i <= |s|
  {
  }

  function EntriesAt(s: seq<Byte>, n: nat): (entries: seq<Entry>)
    requires 16 * n <= |s|
    ensures |entries| == n
  {
    seq(n, i requires 0 <= i < n => EntryAt(s, 16 * i))
  }

  lemma {:induction false} ReadFrom(s: seq<Byte>, n: nat, fileSize: nat, i: nat, k: nat)
    requires k <= i <= n && 16 * i <= |s| && forall j: nat :: j < i ==> Admissible(s, j, fileSize)
    ensures ReadEntries(s[16 * k..], n - k, fileSize, EntriesAt(s, k)) == ReadEntries(s[16 * i..], n - i, fileSize, EntriesAt(s, i))
    decreases i - k
  {
    hide *;
    if k < i {
      assert Admissible(s, k, fileSize);
      OneEntry(s, n, fileSize, k);
      ReadFrom(s, n, fileSize, i, k + 1);
    }
  }

  lemma OneEntry(s: seq<Byte>, n: nat, fileSize: nat, k: nat)
    requires k < n && Admissible(s, k, fileSize)
    ensures 16 * k + 16 <= |s|
    ensures ReadEntries(s[16 * k..], n - k, fileSize, EntriesAt(s, k))
         == ReadEntries(s[16 * (k + 1)..], n - (k + 1), fileSize, EntriesAt(s, k + 1))
  {
    hide ReadEntry, EntryAt, AdmitEntry, BeyondFile, DeclaredBefore;
    EntryLaw(s, 16 * k);
    AdmitsIff(s, k, fileSize);
    assert EntriesAt(s, k) + [EntryAt(s, 16 * k)] == EntriesAt(s, k + 1);
    assert 16 * k + 16 == 16 * (k + 1);
  }

  lemma AdmitsIff(s: seq<Byte>, i: nat, fileSize: nat)
    requires 16 * i + 16 <= |s|
    ensures AdmitEntry(EntryAt(s, 16 * i), EntriesAt(s, i), fileSize) ==
      if BeyondFile(s, i, fileSize) then Err(BadSectionTable)
      else if DeclaredBefore(s, i) then Err(DuplicateSection)
      else Ok(EntryAt(s, 16 * i))
  {
    hide EntryAt;
    var e := EntryAt(s, 16 * i);
    assert Repeats(EntriesAt(s, i), e.tag) <==> exists j: nat :: j < i && EntryAt(s, 16 * j).tag == e.tag by {
      if j: nat :| j < i && EntryAt(s, 16 * j).tag == e.tag {
        assert EntriesAt(s, i)[j].tag == e.tag;
      }
    }
  }

  lemma FirstFault(s: seq<Byte>, n: nat, fileSize: nat, i: nat)
    requires i < n && 16 * i <= |s| && !Admissible(s, i, fileSize)
    ensures ReadEntries(s[16 * i..], n - i, fileSize, EntriesAt(s, i)) == Err(
      if |s| < 16 * i + 16 then Truncated else if BeyondFile(s, i, fileSize) then BadSectionTable else DuplicateSection)
  {
    hide ReadEntry, EntryAt, BeyondFile, DeclaredBefore, AdmitEntry;
    EntryLaw(s, 16 * i);
    if 16 * i + 16 <= |s| {
      AdmitsIff(s, i, fileSize);
    }
  }

  // ----- frames -----

  function FrameAt(s: seq<Byte>): Result<(Wire.WireFrame, seq<Byte>)>
    requires |s| >= 20
  {
    var n := Word32(s, 12);
    if s[..4] != [0x53, 0x57, 0x46, 0x52] then Err(BadMagic)
    else if n > 0x1000_0000 then Err(LimitExceeded)
    else if |s| < 16 + n + 4 then Err(Truncated)
    else if Word32(s, 16 + n) != Crc.Crc32(s[..16 + n]) then Err(BadChecksum)
    else Ok((Wire.WireFrame(Word32(s, 8), Word32(s, 4), s[16..16 + n]), s[16 + n + 4..]))
  }

  /** A frame: magic, flags, sequence number, payload length, payload, checksum.
      Too few bytes for the smallest frame, or for the declared one, is not an
      error yet; a bad magic, an oversized length and a wrong checksum are, in
      that order. */
  lemma PeelLaw(s: seq<Byte>)
    ensures |s| < 20 ==> Wire.Peel(s) == Err(Truncated)
    ensures |s| >= 20 ==> Wire.Peel(s) == FrameAt(s)
  {
    if |s| >= 20 {
      WireWordIs(s, 0);
      WireWordIs(s, 4);
      WireWordIs(s, 8);
      WireWordIs(s, 12);
      MagicIs(s);
      var n := Word32(s, 12);
      if |s| >= 20 + n {
        WireWordIs(s, 16 + n);
      }
      hide Wire.ReadWord, Word32, Crc.Crc32;
    }
  }

  lemma WireWordIs(s: seq<Byte>, at: nat)
    requires at + 4 <= |s|
    ensures Wire.ReadWord(s, at) == Word32(s, at)
  {
    FourBytesAre(s[at..at + 4]);
  }

  lemma MagicIs(s: seq<Byte>)
    requires |s| >= 4
    ensures s[..4] == [0x53, 0x57, 0x46, 0x52] <==> Word32(s, 0) == Wire.FRAME_MAGIC
  {
    if Word32(s, 0) == Wire.FRAME_MAGIC {
      assert s[0] == 0x53 && s[1] == 0x57 && s[2] == 0x46 && s[3] == 0x52;
    }
  }
}
