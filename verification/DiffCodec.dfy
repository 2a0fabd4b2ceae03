/** The binary form of a graph diff. */
module DiffCodec {
  import opened Basics
  import opened Codec
  import opened Model
  import opened Diff

  // A diff's list values are bounded only by their 32-bit count.
  const ANY_LENGTH: Limits := DEFAULT_LIMITS.(maxListLen := TWO32)

  // ----- encoding -----

  /** A value with its type byte in front. */
  function TaggedBytes(v: Value): seq<Byte> {
    [TypeByte(v.Type())] + ValueBytes(v)
  }

  function FieldChangeBytes(fc: FieldChange): seq<Byte> {
    Varint(fc.field) + (TaggedBytes(fc.before) + TaggedBytes(fc.after))
  }

  function FieldChangesBytes(fcs: seq<FieldChange>): seq<Byte> {
    if fcs == [] then [] else FieldChangeBytes(fcs[0]) + FieldChangesBytes(fcs[1..])
  }

  function NamesBytes(names: seq<U32>): seq<Byte> {
    Varint(|names|) + VarintList(names)
  }

  function ListsBytes(nc: NodeChange): seq<Byte> {
    Varint(|nc.fieldChanges|) + (FieldChangesBytes(nc.fieldChanges) + (NamesBytes(nc.childrenAdded) + NamesBytes(nc.childrenRemoved)))
  }

  function NodeChangeBytes(nc: NodeChange): seq<Byte> {
    [nc.change] + (Varint(nc.name) + (Varint(nc.beforeId) + (Varint(nc.afterId) + (Varint(nc.kind) + ListsBytes(nc)))))
  }

  function ChangesBytes(changes: seq<NodeChange>): seq<Byte> {
    if changes == [] then [] else NodeChangeBytes(changes[0]) + ChangesBytes(changes[1..])
  }

  function DiffBytes(d: GraphDiff): seq<Byte> {
    Varint(|d.changes|) + ChangesBytes(d.changes)
  }

  // ----- decoding -----

  function ReadTagged(s: seq<Byte>): Result<(Value, seq<Byte>)> {
    var (raw, s1) :- ReadU8(s);
    if raw == 0xFF then Ok((Invalid, s1))
    else
      match StorableType(raw)
      case None => Err(BadValue)
      case Some(t) => ReadValue(s1, t, ANY_LENGTH)
  }

  function ReadFieldChange(s: seq<Byte>): Result<(FieldChange, seq<Byte>)> {
    hide ReadVarintU32, ReadTagged;
    var (field, s1) :- ReadVarintU32(s);
    var (before, s2) :- ReadTagged(s1);
    var (after, s3) :- ReadTagged(s2);
    Ok((FieldChange(field, before, after), s3))
  }

  function ReadFieldChanges(s: seq<Byte>, n: nat): Result<(seq<FieldChange>, seq<Byte>)>
    decreases n
  {
    hide ReadFieldChange;
    if n == 0 then Ok(([], s))
    else
      var (fc, s1) :- ReadFieldChange(s);
      var (rest, s2) :- ReadFieldChanges(s1, n - 1);
      Ok(([fc] + rest, s2))
  }

  function ReadNames(s: seq<Byte>): Result<(seq<U32>, seq<Byte>)> {
    var (n, s1) :- ReadVarintU32(s);
    ReadVarintList(s1, n)
  }

  /** The three lists that end a change. */
  function ReadLists(s: seq<Byte>, nc: NodeChange): Result<(NodeChange, seq<Byte>)> {
    hide ReadVarintU32, ReadFieldChanges, ReadNames;
    var (n, s1) :- ReadVarintU32(s);
    var (fieldChanges, s2) :- ReadFieldChanges(s1, n);
    var (added, s3) :- ReadNames(s2);
    var (removed, s4) :- ReadNames(s3);
    Ok((nc.(fieldChanges := fieldChanges, childrenAdded := added, childrenRemoved := removed), s4))
  }

  function ReadNodeChange(s: seq<Byte>): Result<(NodeChange, seq<Byte>)> {
    hide ReadVarintU32, ReadLists;
    var (change, s1) :- ReadU8(s);
    var (name, s2) :- ReadVarintU32(s1);
    var (beforeId, s3) :- ReadVarintU32(s2);
    var (afterId, s4) :- ReadVarintU32(s3);
    var (kind, s5) :- ReadVarintU32(s4);
    ReadLists(s5, NodeChange(change, beforeId, afterId, name, kind, [], [], []))
  }

  /** Read n more changes, recording and counting each. */
  function ReadChanges(s: seq<Byte>, n: nat, d: GraphDiff): Result<(GraphDiff, seq<Byte>)>
    decreases n
  {
    hide ReadNodeChange;
    if n == 0 then Ok((d, s))
    else
      var (nc, s1) :- ReadNodeChange(s);
      ReadChanges(s1, n - 1, Recorded(d, nc))
  }

  function ReadDiff(s: seq<Byte>): Result<(GraphDiff, seq<Byte>)> {
    var (n, s1) :- ReadVarintU32(s);
    ReadChanges(s1, n, NO_DIFF)
  }

  // ----- round trip -----

  ghost predicate ValueFits(v: Value) {
    v.ListV? ==> |v.items| < TWO32
  }

  ghost predicate ChangeFits(nc: NodeChange) {
    && |nc.fieldChanges| < TWO32 && |nc.childrenAdded| < TWO32 && |nc.childrenRemoved| < TWO32
    && forall j :: 0 <= j < |nc.fieldChanges| ==> ValueFits(nc.fieldChanges[j].before) && ValueFits(nc.fieldChanges[j].after)
  }

  ghost predicate DiffFits(d: GraphDiff) {
    |d.changes| < TWO32 && forall i :: 0 <= i < |d.changes| ==> ChangeFits(d.changes[i])
  }

  lemma TaggedRoundTrip(v: Value, rest: seq<Byte>)
    requires ValueFits(v)
    ensures ReadTagged(TaggedBytes(v) + rest) == Ok((v, rest))
  {
    hide ReadValue, ValueBytes;
    assert (TaggedBytes(v) + rest)[1..] == ValueBytes(v) + rest;
    if v == Invalid {
      assert ValueBytes(v) + rest == rest by { InvalidIsEmpty(); }
    } else {
      assert StorableType(TypeByte(v.Type())) == Some(v.Type());
      ValueRoundTrip(v, ANY_LENGTH, rest);
    }
  }

  lemma InvalidIsEmpty()
    ensures ValueBytes(Invalid) == []
  {
  }

  lemma FieldChangeRoundTrip(fc: FieldChange, rest: seq<Byte>)
    requires ValueFits(fc.before) && ValueFits(fc.after)
    ensures ReadFieldChange(FieldChangeBytes(fc) + rest) == Ok((fc, rest))
  {
    hide Varint, ReadVarintU32, TaggedBytes, ReadTagged;
    var s2 := TaggedBytes(fc.after) + rest;
    var s1 := TaggedBytes(fc.before) + s2;
    assert FieldChangeBytes(fc) + rest == Varint(fc.field) + s1;
    VarintU32RoundTrip(fc.field, s1);
    TaggedRoundTrip(fc.before, s2);
    TaggedRoundTrip(fc.after, rest);
  }

  lemma {:induction false} FieldChangesRoundTrip(fcs: seq<FieldChange>, rest: seq<Byte>)
    requires forall j :: 0 <= j < |fcs| ==> ValueFits(fcs[j].before) && ValueFits(fcs[j].after)
    ensures ReadFieldChanges(FieldChangesBytes(fcs) + rest, |fcs|) == Ok((fcs, rest))
  {
    hide FieldChangeBytes, ReadFieldChange, ValueFits;
    if fcs == [] {
      assert FieldChangesBytes(fcs) + rest == rest;
    } else {
      var tail := FieldChangesBytes(fcs[1..]) + rest;
      assert FieldChangesBytes(fcs) + rest == FieldChangeBytes(fcs[0]) + tail;
      FieldChangeRoundTrip(fcs[0], tail);
      FieldChangesRoundTrip(fcs[1..], rest);
      assert [fcs[0]] + fcs[1..] == fcs;
    }
  }

  lemma NamesRoundTrip(names: seq<U32>, rest: seq<Byte>)
    requires |names| < TWO32
    ensures ReadNames(NamesBytes(names) + rest) == Ok((names, rest))
  {
    hide Varint, ReadVarintU32, VarintList, ReadVarintList;
    assert NamesBytes(names) + rest == Varint(|names|) + (VarintList(names) + rest);
    VarintU32RoundTrip(|names|, VarintList(names) + rest);
    VarintListRoundTrip(names, rest);
  }

  lemma ListsRoundTrip(nc: NodeChange, blank: NodeChange, rest: seq<Byte>)
    requires ChangeFits(nc) && nc == blank.(fieldChanges := nc.fieldChanges, childrenAdded := nc.childrenAdded, childrenRemoved := nc.childrenRemoved)
    ensures ReadLists(ListsBytes(nc) + rest, blank) == Ok((nc, rest))
  {
    hide Varint, ReadVarintU32, FieldChangesBytes, ReadFieldChanges, NamesBytes, ReadNames, ValueFits;
    var s3 := NamesBytes(nc.childrenRemoved) + rest;
    var s2 := NamesBytes(nc.childrenAdded) + s3;
    var s1 := FieldChangesBytes(nc.fieldChanges) + s2;
    assert ListsBytes(nc) + rest == Varint(|nc.fieldChanges|) + s1;
    VarintU32RoundTrip(|nc.fieldChanges|, s1);
    FieldChangesRoundTrip(nc.fieldChanges, s2);
    NamesRoundTrip(nc.childrenAdded, s3);
    NamesRoundTrip(nc.childrenRemoved, rest);
  }

  lemma NodeChangeRoundTrip(nc: NodeChange, rest: seq<Byte>)
    requires ChangeFits(nc)
    ensures ReadNodeChange(NodeChangeBytes(nc) + rest) == Ok((nc, rest))
  {
    hide Varint, ReadVarintU32, ListsBytes, ReadLists, ChangeFits;
    var s5 := ListsBytes(nc) + rest;
    var s4 := Varint(nc.kind) + s5;
    var s3 := Varint(nc.afterId) + s4;
    var s2 := Varint(nc.beforeId) + s3;
    var s1 := Varint(nc.name) + s2;
    assert NodeChangeBytes(nc) + rest == [nc.change] + s1;
    VarintU32RoundTrip(nc.name, s2);
    VarintU32RoundTrip(nc.beforeId, s3);
    VarintU32RoundTrip(nc.afterId, s4);
    VarintU32RoundTrip(nc.kind, s5);
    ListsRoundTrip(nc, NodeChange(nc.change, nc.beforeId, nc.afterId, nc.name, nc.kind, [], [], []), rest);
  }

  function RecordAll(d: GraphDiff, changes: seq<NodeChange>): GraphDiff
    decreases |changes|
  {
    if changes == [] then d else RecordAll(Recorded(d, changes[0]), changes[1..])
  }

  lemma {:induction false} RecordAllTallies(done: seq<NodeChange>, changes: seq<NodeChange>)
    ensures RecordAll(Tally(done), changes) == Tally(done + changes)
    decreases |changes|
  {
    if changes == [] {
      assert done + changes == done;
    } else {
      var done' := done + [changes[0]];
      assert done'[..|done|] == done;
      assert done' + changes[1..] == done + changes;
      RecordAllTallies(done', changes[1..]);
    }
  }

  lemma {:induction false} ChangesRoundTrip(changes: seq<NodeChange>, d: GraphDiff, rest: seq<Byte>)
    requires forall i :: 0 <= i < |changes| ==> ChangeFits(changes[i])
    ensures ReadChanges(ChangesBytes(changes) + rest, |changes|, d) == Ok((RecordAll(d, changes), rest))
    decreases |changes|
  {
    hide NodeChangeBytes, ReadNodeChange, ChangeFits, Recorded;
    if changes == [] {
      assert ChangesBytes(changes) + rest == rest;
    } else {
      var tail := ChangesBytes(changes[1..]) + rest;
      assert ChangesBytes(changes) + rest == NodeChangeBytes(changes[0]) + tail;
      NodeChangeRoundTrip(changes[0], tail);
      ChangesRoundTrip(changes[1..], Recorded(d, changes[0]), rest);
    }
  }

  /** A diff whose counters count its changes round trips, counters included. */
  lemma DiffRoundTrip(d: GraphDiff, rest: seq<Byte>)
    requires DiffFits(d) && d == Tally(d.changes)
    ensures ReadDiff(DiffBytes(d) + rest) == Ok((d, rest))
  {
    hide Varint, ReadVarintU32, ChangesBytes, ReadChanges, ChangeFits, Tally, RecordAll;
    assert DiffBytes(d) + rest == Varint(|d.changes|) + (ChangesBytes(d.changes) + rest);
    VarintU32RoundTrip(|d.changes|, ChangesBytes(d.changes) + rest);
    ChangesRoundTrip(d.changes, NO_DIFF, rest);
    assert Tally([]) == NO_DIFF by { EmptyDiff(); }
    RecordAllTallies([], d.changes);
    assert [] + d.changes == d.changes;
  }

  lemma RecordedTallies(d: GraphDiff, nc: NodeChange)
    requires d == Tally(d.changes)
    ensures Recorded(d, nc) == Tally(Recorded(d, nc).changes) && |Recorded(d, nc).changes| == |d.changes| + 1
  {
    assert Recorded(d, nc).changes[..|d.changes|] == d.changes;
  }

  lemma {:induction false} ReadChangesCount(s: seq<Byte>, n: nat, d: GraphDiff)
    requires d == Tally(d.changes) && ReadChanges(s, n, d).Ok?
    ensures var r := ReadChanges(s, n, d).value.0; r == Tally(r.changes) && |r.changes| == |d.changes| + n
    decreases n
  {
    hide ReadNodeChange, Recorded, Tally;
    if n > 0 {
      var (nc, s1) := ReadNodeChange(s).value;
      RecordedTallies(d, nc);
      ReadChangesCount(s1, n - 1, Recorded(d, nc));
    }
  }

  /** Whatever bytes decode, the counters count the decoded changes. */
  lemma DecodedCountersAgree(s: seq<Byte>)
    requires ReadDiff(s).Ok?
    ensures ReadDiff(s).value.0 == Tally(ReadDiff(s).value.0.changes)
  {
    hide ReadVarintU32, ReadChanges, Tally;
    EmptyDiff();
    var (n, s1) := ReadVarintU32(s).value;
    ReadChangesCount(s1, n, NO_DIFF);
  }

  // ----- the decoder as loops -----

  method DecodeTagged(r: ByteReader) returns (res: Result<Value>)
    requires r.Valid()
    modifies r`pos
    ensures r.Reads(old(r.Rest()), ReadTagged(old(r.Rest())), res)
  {
    hide ReadValue;
    var raw :- r.U8();
    if raw == 0xFF {
      return Ok(Invalid);
    }
    var t := StorableType(raw);
    if t.None? {
      return Err(BadValue);
    }
    res := DecodeValue(r, t.value, ANY_LENGTH);
  }

  method DecodeFieldChange(r: ByteReader) returns (res: Result<FieldChange>)
    requires r.Valid()
    modifies r`pos
    ensures r.Reads(old(r.Rest()), ReadFieldChange(old(r.Rest())), res)
  {
    hide ReadVarintU32, ReadTagged;
    var field :- r.VarintU32();
    var before :- DecodeTagged(r);
    var after :- DecodeTagged(r);
    return Ok(FieldChange(field, before, after));
  }

  method DecodeFieldChanges(r: ByteReader, n: nat) returns (res: Result<seq<FieldChange>>)
    requires r.Valid()
    modifies r`pos
    ensures r.Reads(old(r.Rest()), ReadFieldChanges(old(r.Rest()), n), res)
  {
    hide ReadFieldChange;
    ghost var spec := ReadFieldChanges(r.Rest(), n);
    var fcs: seq<FieldChange>, j := [], 0;
    if spec.Ok? {
      assert [] + spec.value.0 == spec.value.0;
    }
    while j < n
      invariant 0 <= j <= n && r.Valid()
      invariant match ReadFieldChanges(r.Rest(), n - j)
                case Ok(tail) => spec == Ok((fcs + tail.0, tail.1))
                case Err(code) => spec == Err(code)
    {
      var fc :- DecodeFieldChange(r);
      ghost var tail := ReadFieldChanges(r.Rest(), n - j - 1);
      if tail.Ok? {
        assert fcs + ([fc] + tail.value.0) == fcs + [fc] + tail.value.0;
      }
      fcs := fcs + [fc];
      j := j + 1;
    }
    assert fcs + [] == fcs;
    return Ok(fcs);
  }

  method DecodeNames(r: ByteReader) returns (res: Result<seq<U32>>)
    requires r.Valid()
    modifies r`pos
    ensures r.Reads(old(r.Rest()), ReadNames(old(r.Rest())), res)
  {
    hide ReadVarintU32, ReadVarintList;
    var n :- r.VarintU32();
    res := DecodeVarintList(r, n);
  }

  method DecodeNodeChange(r: ByteReader) returns (res: Result<NodeChange>)
    requires r.Valid()
    modifies r`pos
    ensures r.Reads(old(r.Rest()), ReadNodeChange(old(r.Rest())), res)
  {
    hide ReadVarintU32, ReadFieldChanges, ReadNames;
    var change :- r.U8();
    var name :- r.VarintU32();
    var beforeId :- r.VarintU32();
    var afterId :- r.VarintU32();
    var kind :- r.VarintU32();
    var n :- r.VarintU32();
    var fieldChanges :- DecodeFieldChanges(r, n);
    var added :- DecodeNames(r);
    var removed :- DecodeNames(r);
    return Ok(NodeChange(change, beforeId, afterId, name, kind, fieldChanges, added, removed));
  }

  method DeserializeDiff(r: ByteReader) returns (res: Result<GraphDiff>)
    requires r.Valid()
    modifies r`pos
    ensures r.Reads(old(r.Rest()), ReadDiff(old(r.Rest())), res)
  {
    hide ReadVarintU32, ReadNodeChange;
    var n :- r.VarintU32();
    ghost var spec := ReadChanges(r.Rest(), n, NO_DIFF);
    var d, i := NO_DIFF, 0;
    while i < n
      invariant 0 <= i <= n && r.Valid()
      invariant ReadChanges(r.Rest(), n - i, d) == spec
    {
      var nc :- DecodeNodeChange(r);
      d := Recorded(d, nc);
      i := i + 1;
    }
    return Ok(d);
  }

  // ----- the encoder as loops -----

  method PutTagged(w: ByteWriter, v: Value)
    requires v.ListV? ==> |v.items| < TWO64
    modifies w
    ensures w.buf == old(w.buf) + TaggedBytes(v)
  {
    hide ValueBytes;
    w.PutU8(TypeByte(v.Type()));
    EncodeValue(v, w);
    assert w.buf == old(w.buf) + ([TypeByte(v.Type())] + ValueBytes(v));
  }

  method PutNames(w: ByteWriter, names: seq<U32>)
    requires |names| < TWO64
    modifies w
    ensures w.buf == old(w.buf) + NamesBytes(names)
  {
    w.PutVarint(|names|);
    EncodeItems(names, w);
    assert w.buf == old(w.buf) + (Varint(|names|) + VarintList(names));
  }

  ghost predicate FieldChangeCountable(fc: FieldChange) {
    && (fc.before.ListV? ==> |fc.before.items| < TWO64)
    && (fc.after.ListV? ==> |fc.after.items| < TWO64)
  }

  /** Sizes a 64-bit machine can hold. */
  ghost predicate Countable(nc: NodeChange) {
    && |nc.fieldChanges| < TWO64 && |nc.childrenAdded| < TWO64 && |nc.childrenRemoved| < TWO64
    && forall fc :: fc in nc.fieldChanges ==> FieldChangeCountable(fc)
  }

  method PutFieldChange(w: ByteWriter, fc: FieldChange)
    requires FieldChangeCountable(fc)
    modifies w
    ensures w.buf == old(w.buf) + FieldChangeBytes(fc)
  {
    hide Varint, TaggedBytes;
    w.PutVarint(fc.field);
    PutTagged(w, fc.before);
    PutTagged(w, fc.after);
    assert w.buf == old(w.buf) + (Varint(fc.field) + (TaggedBytes(fc.before) + TaggedBytes(fc.after)));
  }

  method PutFieldChanges(w: ByteWriter, fcs: seq<FieldChange>)
    requires forall fc :: fc in fcs ==> FieldChangeCountable(fc)
    modifies w
    ensures w.buf == old(w.buf) + FieldChangesBytes(fcs)
  {
    hide FieldChangeBytes, FieldChangesBytes, FieldChangeCountable;
    var j := 0;
    assert fcs[0..] == fcs;
    while j < |fcs|
      invariant 0 <= j <= |fcs|
      invariant w.buf + FieldChangesBytes(fcs[j..]) == old(w.buf) + FieldChangesBytes(fcs)
    {
      FieldChangesStep(fcs, j, w.buf);
      PutFieldChange(w, fcs[j]);
      j := j + 1;
    }
    NothingLeft();
    assert fcs[|fcs|..] == [];
  }

  lemma FieldChangesStep(fcs: seq<FieldChange>, j: nat, before: seq<Byte>)
    requires j < |fcs|
    ensures before + FieldChangesBytes(fcs[j..]) == before + FieldChangeBytes(fcs[j]) + FieldChangesBytes(fcs[j + 1..])
  {
    hide FieldChangeBytes;
    assert fcs[j..][1..] == fcs[j + 1..];
  }

  lemma NothingLeft()
    ensures FieldChangesBytes([]) == [] && ChangesBytes([]) == []
  {
  }

  method PutNodeChange(w: ByteWriter, nc: NodeChange)
    requires Countable(nc)
    modifies w
    ensures w.buf == old(w.buf) + NodeChangeBytes(nc)
  {
    hide Varint, FieldChangesBytes, NamesBytes, FieldChangeCountable;
    w.PutU8(nc.change);
    w.PutVarint(nc.name);
    w.PutVarint(nc.beforeId);
    w.PutVarint(nc.afterId);
    w.PutVarint(nc.kind);
    w.PutVarint(|nc.fieldChanges|);
    PutFieldChanges(w, nc.fieldChanges);
    PutNames(w, nc.childrenAdded);
    PutNames(w, nc.childrenRemoved);
    assert w.buf == old(w.buf) + ([nc.change] + (Varint(nc.name) + (Varint(nc.beforeId) + (Varint(nc.afterId)
      + (Varint(nc.kind) + (Varint(|nc.fieldChanges|) + (FieldChangesBytes(nc.fieldChanges)
      + (NamesBytes(nc.childrenAdded) + NamesBytes(nc.childrenRemoved)))))))));
  }

  method SerializeDiff(d: GraphDiff) returns (bytes: seq<Byte>)
    requires |d.changes| < TWO64 && forall nc :: nc in d.changes ==> Countable(nc)
    ensures bytes == DiffBytes(d)
  {
    hide Varint, NodeChangeBytes, ChangesBytes, Countable;
    var w := new ByteWriter();
    w.PutVarint(|d.changes|);
    var i := 0;
    assert d.changes[0..] == d.changes;
    while i < |d.changes|
      invariant 0 <= i <= |d.changes| && fresh(w)
      invariant w.buf + ChangesBytes(d.changes[i..]) == DiffBytes(d)
    {
      ChangesStep(d.changes, i, w.buf);
      PutNodeChange(w, d.changes[i]);
      i := i + 1;
    }
    NothingLeft();
    assert d.changes[|d.changes|..] == [];
    return w.buf;
  }

  lemma ChangesStep(changes: seq<NodeChange>, i: nat, before: seq<Byte>)
    requires i < |changes|
    ensures before + ChangesBytes(changes[i..]) == before + NodeChangeBytes(changes[i]) + ChangesBytes(changes[i + 1..])
  {
    hide NodeChangeBytes;
    assert changes[i..][1..] == changes[i + 1..];
  }
}
