/** The schema table's byte format and its decoder. */
module SchemaCodec {
  import opened Basics
  import opened Codec
  import opened Model

  // ----- encoding -----

  function FieldBytes(f: FieldDef): seq<Byte> {
    Varint(f.name) + ([TypeByte(f.ftype)] + [f.flags])
  }

  function FieldsBytes(fields: seq<FieldDef>): seq<Byte> {
    if fields == [] then [] else FieldBytes(fields[0]) + FieldsBytes(fields[1..])
  }

  function KindBytes(k: KindDef): seq<Byte> {
    Varint(k.name) + (Varint(|k.fields|) + FieldsBytes(k.fields))
  }

  function KindsBytes(kinds: seq<KindDef>): seq<Byte> {
    if kinds == [] then [] else KindBytes(kinds[0]) + KindsBytes(kinds[1..])
  }

  /** The SCMA payload. */
  function SchemaBytes(kinds: seq<KindDef>): seq<Byte> {
    Varint(|kinds|) + KindsBytes(kinds)
  }

  // ----- decoding -----

  function ReadField(s: seq<Byte>, atomCount: nat): Result<(FieldDef, seq<Byte>)> {
    var (name, s1) :- ReadVarintU32(s);
    if name >= atomCount then Err(BadSchema)
    else
      var (raw, s2) :- ReadU8(s1);
      match StorableType(raw)
      case None => Err(BadSchema)
      case Some(t) =>
        var (flags, s3) :- ReadU8(s2);
        Ok((FieldDef(name, t, flags), s3))
  }

  function ReadFields(s: seq<Byte>, n: nat, atomCount: nat): Result<(seq<FieldDef>, seq<Byte>)>
    decreases n
  {
    hide ReadField;
    if n == 0 then Ok(([], s))
    else
      var (f, s1) :- ReadField(s, atomCount);
      var (rest, s2) :- ReadFields(s1, n - 1, atomCount);
      Ok(([f] + rest, s2))
  }

  function ReadKind(s: seq<Byte>, atomCount: nat, lim: Limits): Result<(KindDef, seq<Byte>)> {
    var (name, s1) :- ReadVarintU32(s);
    if name >= atomCount then Err(BadSchema)
    else
      var (n, s2) :- ReadVarintU32(s1);
      if n > lim.maxFieldsPerKind then Err(LimitExceeded)
      else
        var (fields, s3) :- ReadFields(s2, n, atomCount);
        Ok((KindDef(name, fields), s3))
  }

  function ReadKinds(s: seq<Byte>, n: nat, atomCount: nat, lim: Limits): (r: Result<(seq<KindDef>, seq<Byte>)>)
    ensures r.Ok? ==> |r.value.0| == n
    decreases n
  {
    hide ReadKind;
    if n == 0 then Ok(([], s))
    else
      var (k, s1) :- ReadKind(s, atomCount, lim);
      var (rest, s2) :- ReadKinds(s1, n - 1, atomCount, lim);
      Ok(([k] + rest, s2))
  }

  function ReadSchema(s: seq<Byte>, atomCount: nat, lim: Limits): (r: Result<(seq<KindDef>, seq<Byte>)>)
    ensures r.Ok? ==> Schema(r.value.0).Fits()
  {
    hide ReadVarint;
    var (n, s1) :- ReadVarintU32(s);
    if n > lim.maxKinds then Err(LimitExceeded) else ReadKinds(s1, n, atomCount, lim)
  }

  // ----- round trip -----

  ghost predicate FieldFits(f: FieldDef, atomCount: nat) {
    f.name < atomCount && f.ftype != TInvalid
  }

  ghost predicate KindFits(k: KindDef, atomCount: nat, lim: Limits) {
    && k.name < atomCount && |k.fields| <= lim.maxFieldsPerKind && |k.fields| < TWO32
    && forall i :: 0 <= i < |k.fields| ==> FieldFits(k.fields[i], atomCount)
  }

  ghost predicate SchemaFits(kinds: seq<KindDef>, atomCount: nat, lim: Limits) {
    && |kinds| <= lim.maxKinds && |kinds| < TWO32
    && forall i :: 0 <= i < |kinds| ==> KindFits(kinds[i], atomCount, lim)
  }

  lemma FieldRoundTrip(f: FieldDef, atomCount: nat, rest: seq<Byte>)
    requires FieldFits(f, atomCount)
    ensures ReadField(FieldBytes(f) + rest, atomCount) == Ok((f, rest))
  {
    hide Varint, ReadVarintU32;
    var s1 := [TypeByte(f.ftype)] + ([f.flags] + rest);
    assert FieldBytes(f) + rest == Varint(f.name) + s1;
    VarintU32RoundTrip(f.name, s1);
    assert s1[1..] == [f.flags] + rest && ([f.flags] + rest)[1..] == rest;
    assert StorableType(TypeByte(f.ftype)) == Some(f.ftype);
  }

  lemma {:induction false} FieldsRoundTrip(fields: seq<FieldDef>, atomCount: nat, rest: seq<Byte>)
    requires forall i :: 0 <= i < |fields| ==> FieldFits(fields[i], atomCount)
    ensures ReadFields(FieldsBytes(fields) + rest, |fields|, atomCount) == Ok((fields, rest))
  {
    hide FieldBytes, ReadField;
    if fields == [] {
      assert FieldsBytes(fields) + rest == rest;
    } else {
      var tail := FieldsBytes(fields[1..]) + rest;
      assert FieldsBytes(fields) + rest == FieldBytes(fields[0]) + tail;
      FieldRoundTrip(fields[0], atomCount, tail);
      FieldsRoundTrip(fields[1..], atomCount, rest);
      assert [fields[0]] + fields[1..] == fields;
    }
  }

  lemma KindRoundTrip(k: KindDef, atomCount: nat, lim: Limits, rest: seq<Byte>)
    requires KindFits(k, atomCount, lim)
    ensures ReadKind(KindBytes(k) + rest, atomCount, lim) == Ok((k, rest))
  {
    hide Varint, ReadVarintU32, FieldsBytes, ReadFields;
    var s2 := FieldsBytes(k.fields) + rest;
    var s1 := Varint(|k.fields|) + s2;
    assert KindBytes(k) + rest == Varint(k.name) + s1;
    VarintU32RoundTrip(k.name, s1);
    VarintU32RoundTrip(|k.fields|, s2);
    FieldsRoundTrip(k.fields, atomCount, rest);
  }

  lemma {:induction false} KindsRoundTrip(kinds: seq<KindDef>, atomCount: nat, lim: Limits, rest: seq<Byte>)
    requires forall i :: 0 <= i < |kinds| ==> KindFits(kinds[i], atomCount, lim)
    ensures ReadKinds(KindsBytes(kinds) + rest, |kinds|, atomCount, lim) == Ok((kinds, rest))
  {
    hide KindBytes, ReadKind, KindFits;
    if kinds == [] {
      assert KindsBytes(kinds) + rest == rest;
    } else {
      var tail := KindsBytes(kinds[1..]) + rest;
      assert KindsBytes(kinds) + rest == KindBytes(kinds[0]) + tail;
      KindRoundTrip(kinds[0], atomCount, lim, tail);
      KindsRoundTrip(kinds[1..], atomCount, lim, rest);
      assert [kinds[0]] + kinds[1..] == kinds;
    }
  }

  /** A schema within limits whose names are atoms of the pool round trips. */
  lemma SchemaRoundTrip(kinds: seq<KindDef>, atomCount: nat, lim: Limits, rest: seq<Byte>)
    requires SchemaFits(kinds, atomCount, lim)
    ensures ReadSchema(SchemaBytes(kinds) + rest, atomCount, lim) == Ok((kinds, rest))
  {
    hide Varint, ReadVarintU32, KindsBytes, ReadKinds, KindFits;
    assert SchemaBytes(kinds) + rest == Varint(|kinds|) + (KindsBytes(kinds) + rest);
    VarintU32RoundTrip(|kinds|, KindsBytes(kinds) + rest);
    KindsRoundTrip(kinds, atomCount, lim, rest);
  }

  lemma ReadFieldFits(s: seq<Byte>, atomCount: nat)
    requires ReadField(s, atomCount).Ok?
    ensures FieldFits(ReadField(s, atomCount).value.0, atomCount)
  {
  }

  lemma {:induction false} ReadFieldsFit(s: seq<Byte>, n: nat, atomCount: nat)
    requires ReadFields(s, n, atomCount).Ok?
    ensures |ReadFields(s, n, atomCount).value.0| == n
    ensures forall f :: f in ReadFields(s, n, atomCount).value.0 ==> FieldFits(f, atomCount)
    decreases n
  {
    hide ReadField, FieldFits;
    if n > 0 {
      ReadFieldFits(s, atomCount);
      ReadFieldsFit(ReadField(s, atomCount).value.1, n - 1, atomCount);
    }
  }

  lemma ReadKindFits(s: seq<Byte>, atomCount: nat, lim: Limits)
    requires ReadKind(s, atomCount, lim).Ok?
    ensures KindFits(ReadKind(s, atomCount, lim).value.0, atomCount, lim)
  {
    hide ReadVarint, ReadFields, FieldFits;
    var s1 := ReadVarintU32(s).value.1;
    var (n, s2) := ReadVarintU32(s1).value;
    ReadFieldsFit(s2, n, atomCount);
    var fields := ReadFields(s2, n, atomCount).value.0;
    assert forall i :: 0 <= i < |fields| ==> fields[i] in fields;
  }

  lemma {:induction false} ReadKindsFit(s: seq<Byte>, n: nat, atomCount: nat, lim: Limits)
    requires ReadKinds(s, n, atomCount, lim).Ok?
    ensures forall k :: k in ReadKinds(s, n, atomCount, lim).value.0 ==> KindFits(k, atomCount, lim)
    decreases n
  {
    hide ReadKind, KindFits;
    if n > 0 {
      ReadKindFits(s, atomCount, lim);
      ReadKindsFit(ReadKind(s, atomCount, lim).value.1, n - 1, atomCount, lim);
    }
  }

  /** The decoder accepts nothing the encoder could not have written: names are
      atoms, types are storable and counts are within limits. */
  lemma AcceptedSchemaFits(s: seq<Byte>, atomCount: nat, lim: Limits)
    requires ReadSchema(s, atomCount, lim).Ok?
    ensures SchemaFits(ReadSchema(s, atomCount, lim).value.0, atomCount, lim)
  {
    hide ReadVarint, ReadKinds, KindFits;
    var (n, s1) := ReadVarintU32(s).value;
    ReadKindsFit(s1, n, atomCount, lim);
    var kinds := ReadKinds(s1, n, atomCount, lim).value.0;
    assert forall i :: 0 <= i < |kinds| ==> kinds[i] in kinds;
  }

  // ----- the decoder and encoder as loops -----

  method DecodeField(r: ByteReader, atomCount: nat) returns (res: Result<FieldDef>)
    requires r.Valid()
    modifies r`pos
    ensures r.Reads(old(r.Rest()), ReadField(old(r.Rest()), atomCount), res)
  {
    hide ReadVarintU32;
    var name :- r.VarintU32();
    if name >= atomCount {
      return Err(BadSchema);
    }
    var raw :- r.U8();
    var t := StorableType(raw);
    if t.None? {
      return Err(BadSchema);
    }
    var flags :- r.U8();
    return Ok(FieldDef(name, t.value, flags));
  }

  method DecodeKind(r: ByteReader, atomCount: nat, lim: Limits) returns (res: Result<KindDef>)
    requires r.Valid()
    modifies r`pos
    ensures r.Reads(old(r.Rest()), ReadKind(old(r.Rest()), atomCount, lim), res)
  {
    hide ReadVarintU32, ReadField;
    var name :- r.VarintU32();
    if name >= atomCount {
      return Err(BadSchema);
    }
    var n :- r.VarintU32();
    if n > lim.maxFieldsPerKind {
      return Err(LimitExceeded);
    }
    ghost var spec := ReadFields(r.Rest(), n, atomCount);
    var fields: seq<FieldDef>, i := [], 0;
    if spec.Ok? {
      assert [] + spec.value.0 == spec.value.0;
    }
    while i < n
      invariant 0 <= i <= n && r.Valid()
      invariant match ReadFields(r.Rest(), n - i, atomCount)
                case Ok(tail) => spec == Ok((fields + tail.0, tail.1))
                case Err(code) => spec == Err(code)
    {
      var f :- DecodeField(r, atomCount);
      ghost var tail := ReadFields(r.Rest(), n - i - 1, atomCount);
      if tail.Ok? {
        assert fields + ([f] + tail.value.0) == fields + [f] + tail.value.0;
      }
      fields := fields + [f];
      i := i + 1;
    }
    assert fields + [] == fields;
    return Ok(KindDef(name, fields));
  }

  method DecodeSchema(r: ByteReader, atomCount: nat, lim: Limits) returns (res: Result<seq<KindDef>>)
    requires r.Valid()
    modifies r`pos
    ensures r.Reads(old(r.Rest()), ReadSchema(old(r.Rest()), atomCount, lim), res)
  {
    hide ReadVarintU32, ReadKind;
    var n :- r.VarintU32();
    if n > lim.maxKinds {
      return Err(LimitExceeded);
    }
    ghost var spec := ReadKinds(r.Rest(), n, atomCount, lim);
    var kinds: seq<KindDef>, i := [], 0;
    if spec.Ok? {
      assert [] + spec.value.0 == spec.value.0;
    }
    while i < n
      invariant 0 <= i <= n && r.Valid()
      invariant match ReadKinds(r.Rest(), n - i, atomCount, lim)
                case Ok(tail) => spec == Ok((kinds + tail.0, tail.1))
                case Err(code) => spec == Err(code)
    {
      var k :- DecodeKind(r, atomCount, lim);
      ghost var tail := ReadKinds(r.Rest(), n - i - 1, atomCount, lim);
      if tail.Ok? {
        assert kinds + ([k] + tail.value.0) == kinds + [k] + tail.value.0;
      }
      kinds := kinds + [k];
      i := i + 1;
    }
    assert kinds + [] == kinds;
    return Ok(kinds);
  }

  method EncodeSchema(kinds: seq<KindDef>) returns (w: ByteWriter)
    requires |kinds| < TWO64 && forall k :: k in kinds ==> |k.fields| < TWO64
    ensures fresh(w) && w.buf == SchemaBytes(kinds)
  {
    hide Varint, KindBytes, KindsBytes;
    w := new ByteWriter();
    w.PutVarint(|kinds|);
    assert w.buf == Varint(|kinds|);
    var i := 0;
    assert kinds[0..] == kinds;
    while i < |kinds|
      invariant 0 <= i <= |kinds| && fresh(w)
      invariant w.buf + KindsBytes(kinds[i..]) == SchemaBytes(kinds)
    {
      var k := kinds[i];
      ghost var before := w.buf;
      KindsStep(kinds, i, before);
      EncodeKind(w, k);
      i := i + 1;
    }
    NothingLeft();
    assert kinds[|kinds|..] == [];
  }

  lemma NothingLeft()
    ensures KindsBytes([]) == [] && FieldsBytes([]) == []
  {
  }

  lemma KindsStep(kinds: seq<KindDef>, i: nat, before: seq<Byte>)
    requires i < |kinds|
    ensures before + KindsBytes(kinds[i..]) == before + KindBytes(kinds[i]) + KindsBytes(kinds[i + 1..])
  {
    hide KindBytes;
    assert kinds[i..][1..] == kinds[i + 1..];
  }

  lemma FieldsStep(fields: seq<FieldDef>, i: nat, before: seq<Byte>)
    requires i < |fields|
    ensures before + FieldsBytes(fields[i..]) == before + FieldBytes(fields[i]) + FieldsBytes(fields[i + 1..])
  {
    hide FieldBytes;
    assert fields[i..][1..] == fields[i + 1..];
  }

  method EncodeField(w: ByteWriter, f: FieldDef)
    modifies w
    ensures w.buf == old(w.buf) + FieldBytes(f)
  {
    hide Varint;
    w.PutVarint(f.name);
    w.PutU8(TypeByte(f.ftype));
    w.PutU8(f.flags);
    assert w.buf == old(w.buf) + (Varint(f.name) + ([TypeByte(f.ftype)] + [f.flags]));
  }

  method EncodeKind(w: ByteWriter, k: KindDef)
    requires |k.fields| < TWO64
    modifies w
    ensures w.buf == old(w.buf) + KindBytes(k)
  {
    hide Varint, FieldBytes, FieldsBytes;
    w.PutVarint(k.name);
    w.PutVarint(|k.fields|);
    var i := 0;
    assert k.fields[0..] == k.fields;
    assert w.buf + FieldsBytes(k.fields) == old(w.buf) + KindBytes(k);
    while i < |k.fields|
      invariant 0 <= i <= |k.fields|
      invariant w.buf + FieldsBytes(k.fields[i..]) == old(w.buf) + KindBytes(k)
    {
      FieldsStep(k.fields, i, w.buf);
      EncodeField(w, k.fields[i]);
      i := i + 1;
    }
    NothingLeft();
    assert k.fields[|k.fields|..] == [];
  }
}
