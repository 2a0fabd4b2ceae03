/** The schema registry: versions in ascending order of id, its byte format and
    the migrations it plans. */
module Registry {
  import opened Basics
  import opened Codec
  import opened Model
  import opened Atoms
  import opened SchemaCodec
  import opened Migration
  import Sections

  // ----- an ordered table of versions -----

  ghost predicate Sorted(versions: seq<Version>) {
    forall i, j :: 0 <= i < j < |versions| ==> versions[i].id < versions[j].id
  }

  predicate Registered(versions: seq<Version>, id: U32) {
    exists i :: 0 <= i < |versions| && versions[i].id == id
  }

  function Insert(versions: seq<Version>, v: Version): seq<Version> {
    if versions == [] || versions[|versions| - 1].id < v.id then versions + [v]
    else Insert(versions[..|versions| - 1], v) + [versions[|versions| - 1]]
  }

  /** Inserting a new id keeps the order and adds exactly that version. */
  lemma {:induction false} InsertKeeps(versions: seq<Version>, v: Version)
    requires Sorted(versions) && !Registered(versions, v.id)
    ensures Sorted(Insert(versions, v)) && |Insert(versions, v)| == |versions| + 1
    ensures forall x :: x in Insert(versions, v) <==> x in versions || x == v
    decreases |versions|
  {
    if versions != [] && versions[|versions| - 1].id >= v.id {
      var front, last := versions[..|versions| - 1], versions[|versions| - 1];
      InsertKeeps(front, v);
      var r := Insert(front, v);
      forall i | 0 <= i < |r| ensures r[i].id < last.id {
        assert r[i] in r;
      }
      assert forall x :: x in versions <==> x in front || x == last;
    }
  }

  function FindVersion(versions: seq<Version>, id: U32): (r: Option<Version>)
    ensures r.Some? ==> r.value in versions && r.value.id == id
    ensures r.None? <==> !Registered(versions, id)
  {
    if versions == [] then None
    else if versions[|versions| - 1].id == id then Some(versions[|versions| - 1])
    else FindVersion(versions[..|versions| - 1], id)
  }

  // ----- encoding -----

  function VersionBytes(v: Version): seq<Byte> {
    LittleEndian(v.id, 4)
      + (LpString(v.description) + (Varint(|v.atoms|) + (AtomsBytes(v.atoms) + (Varint(|v.kinds|) + KindsBytes(v.kinds)))))
  }

  function VersionsBytes(versions: seq<Version>): seq<Byte> {
    if versions == [] then [] else VersionBytes(versions[0]) + VersionsBytes(versions[1..])
  }

  function RegistryBytes(versions: seq<Version>): seq<Byte> {
    Varint(|versions|) + VersionsBytes(versions)
  }

  // ----- decoding -----

  function Interned(atoms: seq<Text>, s: Text): seq<Text> {
    if s in atoms then atoms else atoms + [s]
  }

  function ReadTexts(s: seq<Byte>, n: nat, lim: Limits, atoms: seq<Text>): Result<(seq<Text>, seq<Byte>)>
    decreases n
  {
    hide ReadLpString;
    if n == 0 then Ok((atoms, s))
    else
      var (text, s1) :- ReadLpString(s, lim.maxAtomLen);
      ReadTexts(s1, n - 1, lim, Interned(atoms, text))
  }

  /** Names are not checked against the pool, and counts are 64-bit. */
  function ReadLooseKind(s: seq<Byte>, lim: Limits): Result<(KindDef, seq<Byte>)> {
    var (name, s1) :- ReadVarintU32(s);
    var (n, s2) :- ReadVarint(s1);
    if n > lim.maxFieldsPerKind then Err(LimitExceeded)
    else
      var (fields, s3) :- ReadFields(s2, n, TWO32);
      Ok((KindDef(name, fields), s3))
  }

  function ReadLooseKinds(s: seq<Byte>, n: nat, lim: Limits): Result<(seq<KindDef>, seq<Byte>)>
    decreases n
  {
    hide ReadLooseKind;
    if n == 0 then Ok(([], s))
    else
      var (k, s1) :- ReadLooseKind(s, lim);
      var (rest, s2) :- ReadLooseKinds(s1, n - 1, lim);
      Ok(([k] + rest, s2))
  }

  function ReadPool(s: seq<Byte>, lim: Limits): Result<(seq<Text>, seq<Byte>)> {
    var (n, s1) :- ReadVarint(s);
    if n > lim.maxAtoms then Err(LimitExceeded) else ReadTexts(s1, n, lim, [])
  }

  function ReadKindTable(s: seq<Byte>, lim: Limits): Result<(seq<KindDef>, seq<Byte>)> {
    var (n, s1) :- ReadVarint(s);
    if n > lim.maxKinds then Err(LimitExceeded) else ReadLooseKinds(s1, n, lim)
  }

  function ReadVersion(s: seq<Byte>, lim: Limits): Result<(Version, seq<Byte>)> {
    hide ReadLpString, ReadPool, ReadKindTable;
    var (id, s1) :- Sections.ReadU32(s);
    var (description, s2) :- ReadLpString(s1, lim.maxAtomLen);
    var (atoms, s3) :- ReadPool(s2, lim);
    var (kinds, s4) :- ReadKindTable(s3, lim);
    Ok((Version(id, description, atoms, kinds), s4))
  }

  function ReadVersions(s: seq<Byte>, n: nat, lim: Limits, versions: seq<Version>): Result<(seq<Version>, seq<Byte>)>
    decreases n
  {
    hide ReadVersion;
    if n == 0 then Ok((versions, s))
    else
      var (v, s1) :- ReadVersion(s, lim);
      if Registered(versions, v.id) then Err(InvariantViolation)
      else ReadVersions(s1, n - 1, lim, Insert(versions, v))
  }

  function ReadRegistry(s: seq<Byte>, lim: Limits): Result<(seq<Version>, seq<Byte>)> {
    var (n, s1) :- ReadVarint(s);
    if n > lim.maxSections then Err(LimitExceeded) else ReadVersions(s1, n, lim, [])
  }

  /** Whatever bytes decode, the table is sorted, so ids are unique. */
  lemma {:induction false} ReadVersionsSorted(s: seq<Byte>, n: nat, lim: Limits, versions: seq<Version>)
    requires Sorted(versions) && ReadVersions(s, n, lim, versions).Ok?
    ensures Sorted(ReadVersions(s, n, lim, versions).value.0)
    ensures |ReadVersions(s, n, lim, versions).value.0| == |versions| + n
    decreases n
  {
    hide ReadVersion, Sorted, Insert, Registered;
    if n > 0 {
      var (v, s1) := ReadVersion(s, lim).value;
      InsertKeeps(versions, v);
      ReadVersionsSorted(s1, n - 1, lim, Insert(versions, v));
    }
  }

  // ----- round trip -----

  ghost predicate VersionFits(v: Version, lim: Limits) {
    && |v.description| <= lim.maxAtomLen && |v.description| < TWO64
    && AtomsFit(v.atoms, lim) && Distinct(v.atoms)
    && |v.kinds| <= lim.maxKinds && |v.kinds| < TWO64
    && forall k :: 0 <= k < |v.kinds| ==> KindFits(v.kinds[k], TWO32, lim)
  }

  lemma {:induction false} TextsRoundTrip(done: seq<Text>, atoms: seq<Text>, lim: Limits, rest: seq<Byte>)
    requires Distinct(done + atoms)
    requires forall i :: 0 <= i < |atoms| ==> |atoms[i]| <= lim.maxAtomLen && |atoms[i]| < TWO64
    ensures ReadTexts(AtomsBytes(atoms) + rest, |atoms|, lim, done) == Ok((done + atoms, rest))
    decreases |atoms|
  {
    hide LpString, ReadLpString;
    if atoms == [] {
      assert AtomsBytes(atoms) + rest == rest;
      assert done + atoms == done;
    } else {
      var tail := AtomsBytes(atoms[1..]) + rest;
      assert AtomsBytes(atoms) + rest == LpString(atoms[0]) + tail;
      LpStringRoundTrip(atoms[0], lim.maxAtomLen, tail);
      assert done + [atoms[0]] + atoms[1..] == done + atoms;
      assert atoms[0] !in done by { NotAgain(done, atoms); }
      TextsRoundTrip(done + [atoms[0]], atoms[1..], lim, rest);
    }
  }

  lemma NotAgain(done: seq<Text>, atoms: seq<Text>)
    requires Distinct(done + atoms) && atoms != []
    ensures atoms[0] !in done
  {
    var all := done + atoms;
    assert all[|done|] == atoms[0];
    assert forall i :: 0 <= i < |done| ==> all[i] == done[i] && all[i] != all[|done|];
  }

  lemma LooseKindRoundTrip(k: KindDef, lim: Limits, rest: seq<Byte>)
    requires KindFits(k, TWO32, lim)
    ensures ReadLooseKind(KindBytes(k) + rest, lim) == Ok((k, rest))
  {
    hide Varint, ReadVarint, ReadVarintU32, FieldsBytes, ReadFields, FieldFits;
    var s2 := FieldsBytes(k.fields) + rest;
    var s1 := Varint(|k.fields|) + s2;
    assert KindBytes(k) + rest == Varint(k.name) + s1;
    VarintU32RoundTrip(k.name, s1);
    VarintRoundTrip(|k.fields|, s2);
    FieldsRoundTrip(k.fields, TWO32, rest);
  }

  lemma {:induction false} LooseKindsRoundTrip(kinds: seq<KindDef>, lim: Limits, rest: seq<Byte>)
    requires forall i :: 0 <= i < |kinds| ==> KindFits(kinds[i], TWO32, lim)
    ensures ReadLooseKinds(KindsBytes(kinds) + rest, |kinds|, lim) == Ok((kinds, rest))
  {
    hide KindBytes, ReadLooseKind, KindFits;
    if kinds == [] {
      assert KindsBytes(kinds) + rest == rest;
    } else {
      var tail := KindsBytes(kinds[1..]) + rest;
      assert KindsBytes(kinds) + rest == KindBytes(kinds[0]) + tail;
      LooseKindRoundTrip(kinds[0], lim, tail);
      LooseKindsRoundTrip(kinds[1..], lim, rest);
      assert [kinds[0]] + kinds[1..] == kinds;
    }
  }

  lemma PoolRoundTrip(atoms: seq<Text>, lim: Limits, rest: seq<Byte>)
    requires AtomsFit(atoms, lim) && Distinct(atoms)
    ensures ReadPool(Varint(|atoms|) + (AtomsBytes(atoms) + rest), lim) == Ok((atoms, rest))
  {
    hide Varint, ReadVarint, AtomsBytes, ReadTexts;
    VarintRoundTrip(|atoms|, AtomsBytes(atoms) + rest);
    assert [] + atoms == atoms;
    TextsRoundTrip([], atoms, lim, rest);
  }

  lemma KindTableRoundTrip(kinds: seq<KindDef>, lim: Limits, rest: seq<Byte>)
    requires |kinds| <= lim.maxKinds && |kinds| < TWO64
    requires forall k :: 0 <= k < |kinds| ==> KindFits(kinds[k], TWO32, lim)
    ensures ReadKindTable(Varint(|kinds|) + (KindsBytes(kinds) + rest), lim) == Ok((kinds, rest))
  {
    hide Varint, ReadVarint, KindsBytes, ReadLooseKinds, KindFits;
    VarintRoundTrip(|kinds|, KindsBytes(kinds) + rest);
    LooseKindsRoundTrip(kinds, lim, rest);
  }

  lemma VersionRoundTrip(v: Version, lim: Limits, rest: seq<Byte>)
    requires VersionFits(v, lim)
    ensures ReadVersion(VersionBytes(v) + rest, lim) == Ok((v, rest))
  {
    hide Varint, LittleEndian, Sections.ReadU32, LpString, ReadLpString, AtomsBytes, ReadPool, KindsBytes, ReadKindTable, KindFits, AtomsFit, Distinct;
    var s3 := Varint(|v.kinds|) + (KindsBytes(v.kinds) + rest);
    var s2 := Varint(|v.atoms|) + (AtomsBytes(v.atoms) + s3);
    var s1 := LpString(v.description) + s2;
    assert VersionBytes(v) + rest == LittleEndian(v.id, 4) + s1;
    Sections.U32RoundTrip(v.id, s1);
    LpStringRoundTrip(v.description, lim.maxAtomLen, s2);
    PoolRoundTrip(v.atoms, lim, s3);
    KindTableRoundTrip(v.kinds, lim, rest);
  }

  lemma AppendsAtEnd(done: seq<Version>, v: Version, rest: seq<Version>)
    requires Sorted(done + [v] + rest)
    ensures !Registered(done, v.id) && Insert(done, v) == done + [v]
  {
    var all := done + [v] + rest;
    assert forall i :: 0 <= i < |done| ==> all[i] == done[i] && all[|done|] == v;
  }

  lemma {:induction false} VersionsRoundTrip(done: seq<Version>, versions: seq<Version>, lim: Limits, rest: seq<Byte>)
    requires Sorted(done + versions) && forall i :: 0 <= i < |versions| ==> VersionFits(versions[i], lim)
    ensures ReadVersions(VersionsBytes(versions) + rest, |versions|, lim, done) == Ok((done + versions, rest))
    decreases |versions|
  {
    hide VersionBytes, ReadVersion, VersionFits, Sorted, Insert, Registered;
    if versions == [] {
      assert VersionsBytes(versions) + rest == rest;
      assert done + versions == done;
    } else {
      var tail := VersionsBytes(versions[1..]) + rest;
      assert VersionsBytes(versions) + rest == VersionBytes(versions[0]) + tail;
      VersionRoundTrip(versions[0], lim, tail);
      assert done + [versions[0]] + versions[1..] == done + versions;
      AppendsAtEnd(done, versions[0], versions[1..]);
      VersionsRoundTrip(done + [versions[0]], versions[1..], lim, rest);
    }
  }

  /** A registry of duplicate-free pools within limits round trips. */
  lemma RegistryRoundTrip(versions: seq<Version>, lim: Limits, rest: seq<Byte>)
    requires Sorted(versions) && |versions| <= lim.maxSections && |versions| < TWO64
    requires forall i :: 0 <= i < |versions| ==> VersionFits(versions[i], lim)
    ensures ReadRegistry(RegistryBytes(versions) + rest, lim) == Ok((versions, rest))
  {
    hide Varint, ReadVarint, VersionsBytes, ReadVersions, VersionFits, Sorted;
    assert RegistryBytes(versions) + rest == Varint(|versions|) + (VersionsBytes(versions) + rest);
    VarintRoundTrip(|versions|, VersionsBytes(versions) + rest);
    assert [] + versions == versions;
    VersionsRoundTrip([], versions, lim, rest);
  }

  lemma {:induction false} TextsAreDistinct(s: seq<Byte>, n: nat, lim: Limits, atoms: seq<Text>)
    requires Distinct(atoms) && ReadTexts(s, n, lim, atoms).Ok?
    ensures Distinct(ReadTexts(s, n, lim, atoms).value.0)
    decreases n
  {
    hide ReadLpString;
    if n > 0 {
      var (text, s1) := ReadLpString(s, lim.maxAtomLen).value;
      assert Distinct(Interned(atoms, text));
      TextsAreDistinct(s1, n - 1, lim, Interned(atoms, text));
    }
  }

  /** A pool with a repeated string never comes back: decoding interns, so the
      round trip holds for duplicate-free pools and no others. */
  lemma PoolRoundTripIff(atoms: seq<Text>, lim: Limits, rest: seq<Byte>)
    requires AtomsFit(atoms, lim)
    ensures ReadPool(Varint(|atoms|) + (AtomsBytes(atoms) + rest), lim) == Ok((atoms, rest)) <==> Distinct(atoms)
  {
    hide Varint, ReadVarint, AtomsBytes, ReadTexts, AtomsFit;
    if Distinct(atoms) {
      PoolRoundTrip(atoms, lim, rest);
    } else if ReadPool(Varint(|atoms|) + (AtomsBytes(atoms) + rest), lim) == Ok((atoms, rest)) {
      var (n, s1) := ReadVarint(Varint(|atoms|) + (AtomsBytes(atoms) + rest)).value;
      TextsAreDistinct(s1, n, lim, []);
      assert false;
    }
  }

  // ----- the registry -----

  class SchemaRegistry {
    var versions: seq<Version>

    ghost predicate Valid()
      reads this
    {
      Sorted(versions)
    }

    constructor ()
      ensures Valid() && versions == []
    {
      versions := [];
    }

    method RegisterVersion(v: Version) returns (res: Result<()>)
      requires Valid()
      modifies this
      ensures Valid()
      ensures if Registered(old(versions), v.id) then res == Err(InvariantViolation) && versions == old(versions)
              else res.Ok? && versions == Insert(old(versions), v)
    {
      if Registered(versions, v.id) {
        return Err(InvariantViolation);
      }
      InsertKeeps(versions, v);
      versions := Insert(versions, v);
      return Ok(());
    }

    method Find(id: U32) returns (r: Option<Version>)
      ensures r == FindVersion(versions, id)
    {
      var i := |versions|;
      assert versions[..i] == versions;
      while i > 0
        invariant 0 <= i <= |versions|
        invariant FindVersion(versions, id) == FindVersion(versions[..i], id)
      {
        assert versions[..i][..i - 1] == versions[..i - 1];
        if versions[i - 1].id == id {
          return Some(versions[i - 1]);
        }
        i := i - 1;
      }
      return None;
    }

    /** Every registered id once, ascending. */
    method VersionIds() returns (ids: seq<U32>)
      requires Valid()
      ensures |ids| == |versions| && forall i :: 0 <= i < |ids| ==> ids[i] == versions[i].id
      ensures forall i, j :: 0 <= i < j < |ids| ==> ids[i] < ids[j]
    {
      ids := [];
      var i := 0;
      while i < |versions|
        invariant 0 <= i <= |versions| && |ids| == i
        invariant forall k :: 0 <= k < i ==> ids[k] == versions[k].id
      {
        ids := ids + [versions[i].id];
        i := i + 1;
      }
    }

    method ComputeMigration(fromId: U32, toId: U32) returns (res: Result<seq<FieldMigration>>)
      requires forall v :: v in versions ==> Numbered(v)
      ensures var from, to := FindVersion(versions, fromId), FindVersion(versions, toId);
        if from.None? || to.None? then res == Err(NotFound)
        else res == Ok(PlanOf(from.value, to.value)) && PlanOk(from.value, to.value, res.value)
    {
      var from := Find(fromId);
      if from.None? {
        return Err(NotFound);
      }
      var to := Find(toId);
      if to.None? {
        return Err(NotFound);
      }
      var plan := ComputePlan(from.value, to.value);
      return Ok(plan);
    }

    method Serialize() returns (bytes: seq<Byte>)
      requires |versions| < TWO64 && forall v :: v in versions ==> Countable(v)
      ensures bytes == RegistryBytes(versions)
    {
      hide Varint, VersionBytes, VersionsBytes, Countable;
      var w := new ByteWriter();
      w.PutVarint(|versions|);
      var i := 0;
      assert versions[0..] == versions;
      while i < |versions|
        invariant 0 <= i <= |versions| && fresh(w)
        invariant w.buf + VersionsBytes(versions[i..]) == RegistryBytes(versions)
      {
        VersionsStep(versions, i, w.buf);
        PutVersion(w, versions[i]);
        i := i + 1;
      }
      NothingMore();
      assert versions[|versions|..] == [];
      return w.buf;
    }
  }

  lemma NothingMore()
    ensures VersionsBytes([]) == [] && AtomsBytes([]) == [] && KindsBytes([]) == []
  {
  }

  lemma VersionsStep(versions: seq<Version>, i: nat, before: seq<Byte>)
    requires i < |versions|
    ensures before + VersionsBytes(versions[i..]) == before + VersionBytes(versions[i]) + VersionsBytes(versions[i + 1..])
  {
    hide VersionBytes;
    assert versions[i..][1..] == versions[i + 1..];
  }

  /** Sizes a 64-bit machine can hold. */
  ghost predicate Countable(v: Version) {
    && |v.description| < TWO64 && |v.atoms| < TWO64 && |v.kinds| < TWO64
    && (forall t :: t in v.atoms ==> |t| < TWO64)
    && (forall k :: k in v.kinds ==> |k.fields| < TWO64)
  }

  method PutTexts(w: ByteWriter, atoms: seq<Text>)
    requires forall t :: t in atoms ==> |t| < TWO64
    modifies w
    ensures w.buf == old(w.buf) + AtomsBytes(atoms)
  {
    hide AtomsBytes, LpString;
    var i := 0;
    assert atoms[0..] == atoms;
    while i < |atoms|
      invariant 0 <= i <= |atoms|
      invariant w.buf + AtomsBytes(atoms[i..]) == old(w.buf) + AtomsBytes(atoms)
    {
      AtomsAt(atoms, i, w.buf);
      w.PutLpString(atoms[i]);
      i := i + 1;
    }
    NothingMore();
    assert atoms[|atoms|..] == [];
  }

  lemma AtomsAt(atoms: seq<Text>, i: nat, before: seq<Byte>)
    requires i < |atoms|
    ensures before + AtomsBytes(atoms[i..]) == before + LpString(atoms[i]) + AtomsBytes(atoms[i + 1..])
  {
    hide LpString;
    assert atoms[i..][1..] == atoms[i + 1..];
  }

  method PutKinds(w: ByteWriter, kinds: seq<KindDef>)
    requires forall k :: k in kinds ==> |k.fields| < TWO64
    modifies w
    ensures w.buf == old(w.buf) + KindsBytes(kinds)
  {
    hide KindsBytes, KindBytes;
    var i := 0;
    assert kinds[0..] == kinds;
    while i < |kinds|
      invariant 0 <= i <= |kinds|
      invariant w.buf + KindsBytes(kinds[i..]) == old(w.buf) + KindsBytes(kinds)
    {
      KindsStep(kinds, i, w.buf);
      EncodeKind(w, kinds[i]);
      i := i + 1;
    }
    NothingMore();
    assert kinds[|kinds|..] == [];
  }

  method PutVersion(w: ByteWriter, v: Version)
    requires Countable(v)
    modifies w
    ensures w.buf == old(w.buf) + VersionBytes(v)
  {
    hide Varint, LittleEndian, LpString, AtomsBytes, KindsBytes;
    w.PutFixed(v.id, 4);
    w.PutLpString(v.description);
    w.PutVarint(|v.atoms|);
    PutTexts(w, v.atoms);
    w.PutVarint(|v.kinds|);
    PutKinds(w, v.kinds);
    assert w.buf == old(w.buf) + (LittleEndian(v.id, 4)
      + (LpString(v.description) + (Varint(|v.atoms|) + (AtomsBytes(v.atoms) + (Varint(|v.kinds|) + KindsBytes(v.kinds))))));
  }

  // ----- the decoder as loops -----

  method InternText(pool: AtomPool, text: Text) returns (id: nat)
    requires pool.Valid()
    modifies pool
    ensures pool.Valid() && pool.atoms == Interned(old(pool.atoms), text) && FirstIndex(pool.atoms, text) == Some(id)
  {
    id := pool.Intern(text);
  }

  method DecodePool(r: ByteReader, lim: Limits) returns (res: Result<seq<Text>>)
    requires r.Valid()
    modifies r`pos
    ensures r.Reads(old(r.Rest()), ReadPool(old(r.Rest()), lim), res)
  {
    hide ReadVarint, ReadLpString, FirstIndex, Interned;
    var n :- r.Varint();
    if n > lim.maxAtoms {
      return Err(LimitExceeded);
    }
    ghost var spec := ReadTexts(r.Rest(), n, lim, []);
    var pool := new AtomPool();
    var i := 0;
    while i < n
      invariant 0 <= i <= n && r.Valid() && pool.Valid() && fresh(pool)
      invariant ReadTexts(r.Rest(), n - i, lim, pool.atoms) == spec
    {
      var text :- r.LpString(lim.maxAtomLen);
      var id := InternText(pool, text);
      i := i + 1;
    }
    return Ok(pool.atoms);
  }

  method DecodeLooseKind(r: ByteReader, lim: Limits) returns (res: Result<KindDef>)
    requires r.Valid()
    modifies r`pos
    ensures r.Reads(old(r.Rest()), ReadLooseKind(old(r.Rest()), lim), res)
  {
    hide ReadVarintU32, ReadVarint, ReadField;
    var name :- r.VarintU32();
    var n :- r.Varint();
    if n > lim.maxFieldsPerKind {
      return Err(LimitExceeded);
    }
    ghost var spec := ReadFields(r.Rest(), n, TWO32);
    var fields: seq<FieldDef>, i := [], 0;
    if spec.Ok? {
      assert [] + spec.value.0 == spec.value.0;
    }
    while i < n
      invariant 0 <= i <= n && r.Valid()
      invariant match ReadFields(r.Rest(), n - i, TWO32)
                case Ok(tail) => spec == Ok((fields + tail.0, tail.1))
                case Err(code) => spec == Err(code)
    {
      var f :- DecodeField(r, TWO32);
      ghost var tail := ReadFields(r.Rest(), n - i - 1, TWO32);
      if tail.Ok? {
        assert fields + ([f] + tail.value.0) == fields + [f] + tail.value.0;
      }
      fields := fields + [f];
      i := i + 1;
    }
    assert fields + [] == fields;
    return Ok(KindDef(name, fields));
  }

  method DecodeKindTable(r: ByteReader, lim: Limits) returns (res: Result<seq<KindDef>>)
    requires r.Valid()
    modifies r`pos
    ensures r.Reads(old(r.Rest()), ReadKindTable(old(r.Rest()), lim), res)
  {
    hide ReadVarint, ReadLooseKind;
    var n :- r.Varint();
    if n > lim.maxKinds {
      return Err(LimitExceeded);
    }
    ghost var spec := ReadLooseKinds(r.Rest(), n, lim);
    var kinds: seq<KindDef>, i := [], 0;
    if spec.Ok? {
      assert [] + spec.value.0 == spec.value.0;
    }
    while i < n
      invariant 0 <= i <= n && r.Valid()
      invariant match ReadLooseKinds(r.Rest(), n - i, lim)
                case Ok(tail) => spec == Ok((kinds + tail.0, tail.1))
                case Err(code) => spec == Err(code)
    {
      var k :- DecodeLooseKind(r, lim);
      ghost var tail := ReadLooseKinds(r.Rest(), n - i - 1, lim);
      if tail.Ok? {
        assert kinds + ([k] + tail.value.0) == kinds + [k] + tail.value.0;
      }
      kinds := kinds + [k];
      i := i + 1;
    }
    assert kinds + [] == kinds;
    return Ok(kinds);
  }

  method DecodeVersion(r: ByteReader, lim: Limits) returns (res: Result<Version>)
    requires r.Valid()
    modifies r`pos
    ensures r.Reads(old(r.Rest()), ReadVersion(old(r.Rest()), lim), res)
  {
    hide Sections.ReadU32, ReadLpString, ReadPool, ReadKindTable;
    var id :- Sections.FixedU32(r);
    var description :- r.LpString(lim.maxAtomLen);
    var atoms :- DecodePool(r, lim);
    var kinds :- DecodeKindTable(r, lim);
    return Ok(Version(id, description, atoms, kinds));
  }

  method Deserialize(r: ByteReader, lim: Limits) returns (res: Result<SchemaRegistry>)
    requires r.Valid()
    modifies r`pos
    ensures r.Valid()
    ensures match ReadRegistry(old(r.Rest()), lim)
            case Ok(pair) => res.Ok? && fresh(res.value) && res.value.Valid() && res.value.versions == pair.0 && r.Rest() == pair.1
            case Err(code) => res == Err(code)
  {
    hide ReadVarint, ReadVersion, Sorted, Insert, Registered;
    var reg := new SchemaRegistry();
    var n :- r.Varint();
    if n > lim.maxSections {
      return Err(LimitExceeded);
    }
    ghost var spec := ReadVersions(r.Rest(), n, lim, []);
    var i := 0;
    while i < n
      invariant 0 <= i <= n && r.Valid() && reg.Valid() && fresh(reg)
      invariant ReadVersions(r.Rest(), n - i, lim, reg.versions) == spec
    {
      var v :- DecodeVersion(r, lim);
      var done :- reg.RegisterVersion(v);
      i := i + 1;
    }
    return Ok(reg);
  }
}
