/** Values, the schema and nodes: the vocabulary shared by the heap decoder,
    the replay machine, the compactor and the indexes. */
module Model {
  import opened Basics
  import opened Codec

  datatype ValueType = TInt | TFloat | TAtom | TRef | TList | TInvalid

  /** A tagged field value. A double is its 64-bit pattern. */
  datatype Value =
    | Invalid
    | IntV(i: I64)
    | FloatV(bits: U64)
    | AtomV(atom: U32)
    | RefV(ref: U32)
    | ListV(items: seq<U32>)
  {
    function Type(): ValueType {
      match this
      case Invalid => TInvalid
      case IntV(_) => TInt
      case FloatV(_) => TFloat
      case AtomV(_) => TAtom
      case RefV(_) => TRef
      case ListV(_) => TList
    }
  }

  datatype FieldDef = FieldDef(name: U32, ftype: ValueType, flags: Byte) {
    predicate IsRequired() {
      flags % 2 == 1
    }
  }

  datatype KindDef = KindDef(name: U32, fields: seq<FieldDef>)

  datatype Schema = Schema(kinds: seq<KindDef>) {
    predicate HasKind(kind: nat) {
      kind < |kinds|
    }

    /** TInvalid when either index is out of range. */
    function FieldType(kind: nat, field: nat): ValueType {
      if kind < |kinds| && field < |kinds[kind].fields| then kinds[kind].fields[field].ftype else TInvalid
    }

    /** Kind ids are 32-bit and the last one is reserved. */
    ghost predicate Fits() {
      |kinds| <= INVALID_KIND
    }
  }

  function TypeByte(t: ValueType): Byte {
    match t
    case TInt => 0
    case TFloat => 1
    case TAtom => 2
    case TRef => 3
    case TList => 4
    case TInvalid => 0xFF
  }

  /** The inverse of TypeByte on the five storable types; None otherwise. */
  function StorableType(raw: Byte): (t: Option<ValueType>)
    ensures t.Some? <==> raw < 5
    ensures t.Some? ==> TypeByte(t.value) == raw && t.value != TInvalid
  {
    match raw
    case 0 => Some(TInt)
    case 1 => Some(TFloat)
    case 2 => Some(TAtom)
    case 3 => Some(TRef)
    case 4 => Some(TList)
    case _ => None
  }

  datatype Node = Node(
    id: nat,
    kind: U32,
    name: U32,
    alive: bool,
    placeholder: bool,
    generation: nat,
    fields: map<U32, Value>,
    children: seq<nat>,
    refs: seq<nat>)

  function FreshNode(id: nat, kind: U32, name: U32): Node {
    Node(id, kind, name, true, false, 0, map[], [], [])
  }

  // ----- the schema-driven value codec -----

  function VarintList(xs: seq<U32>): seq<Byte> {
    if xs == [] then [] else Varint(xs[0]) + VarintList(xs[1..])
  }

  /** The payload bytes of a value; its type travels separately. */
  function ValueBytes(v: Value): seq<Byte> {
    match v
    case Invalid => []
    case IntV(i) => SVarint(i)
    case FloatV(bits) => LittleEndian(bits, 8)
    case AtomV(a) => Varint(a)
    case RefV(n) => Varint(n)
    case ListV(items) => Varint(|items|) + VarintList(items)
  }

  function ReadVarintList(s: seq<Byte>, n: nat): (r: Result<(seq<U32>, seq<Byte>)>)
    ensures r.Ok? ==> |r.value.0| == n
  {
    if n == 0 then Ok(([], s))
    else
      var (x, s1) :- ReadVarintU32(s);
      var (xs, s2) :- ReadVarintList(s1, n - 1);
      Ok(([x] + xs, s2))
  }

  function ReadF64(s: seq<Byte>): Result<(U64, seq<Byte>)> {
    if |s| < 8 then Err(Truncated)
    else
      Pow256Values();
      FromLittleEndianInverse(s[..8]);
      Ok((FromLittleEndian(s[..8]), s[8..]))
  }

  function ReadValue(s: seq<Byte>, t: ValueType, lim: Limits): (r: Result<(Value, seq<Byte>)>)
    ensures r.Ok? ==> r.value.0.Type() == t && t != TInvalid
    ensures r.Ok? && t == TList ==> |r.value.0.items| <= lim.maxListLen
  {
    match t
    case TInt => var (i, rest) :- ReadSVarint(s); Ok((IntV(i), rest))
    case TFloat => var (bits, rest) :- ReadF64(s); Ok((FloatV(bits), rest))
    case TAtom => var (a, rest) :- ReadVarintU32(s); Ok((AtomV(a), rest))
    case TRef => var (n, rest) :- ReadVarintU32(s); Ok((RefV(n), rest))
    case TList =>
      var (n, s1) :- ReadVarintU32(s);
      if n > lim.maxListLen then Err(LimitExceeded)
      else
        var (items, s2) :- ReadVarintList(s1, n);
        Ok((ListV(items), s2))
    case TInvalid => Err(BadValue)
  }

  lemma {:induction false} VarintListRoundTrip(xs: seq<U32>, rest: seq<Byte>)
    ensures ReadVarintList(VarintList(xs) + rest, |xs|) == Ok((xs, rest))
  {
    hide Varint, ReadVarint, ReadVarintU32;
    if xs == [] {
      assert VarintList(xs) + rest == rest;
    } else {
      var tail := VarintList(xs[1..]) + rest;
      assert VarintList(xs) + rest == Varint(xs[0]) + tail;
      VarintU32RoundTrip(xs[0], tail);
      VarintListRoundTrip(xs[1..], rest);
      assert [xs[0]] + xs[1..] == xs;
    }
  }

  /** A value a reader with these limits would accept. */
  predicate Storable(v: Value, lim: Limits) {
    v != Invalid && (v.ListV? ==> |v.items| <= lim.maxListLen && |v.items| < TWO32)
  }

  /** Reading a value's payload under its own type gives it back and consumes
      exactly its bytes. */
  lemma ValueRoundTrip(v: Value, lim: Limits, rest: seq<Byte>)
    requires Storable(v, lim)
    ensures ReadValue(ValueBytes(v) + rest, v.Type(), lim) == Ok((v, rest))
  {
    hide Varint, ReadVarint, ReadVarintU32, ReadSVarint, SVarint;
    match v
    case IntV(i) => SVarintRoundTrip(i, rest);
    case FloatV(bits) =>
      Pow256Values();
      FixedRoundTrip(bits, 8, rest);
    case AtomV(a) => VarintU32RoundTrip(a, rest);
    case RefV(n) => VarintU32RoundTrip(n, rest);
    case ListV(items) =>
      var tail := VarintList(items) + rest;
      assert ValueBytes(v) + rest == Varint(|items|) + tail;
      VarintU32RoundTrip(|items|, tail);
      VarintListRoundTrip(items, rest);
  }

  /** What a reader accepts is storable, so decode-encode-decode is stable. */
  lemma ReadValueStorable(s: seq<Byte>, t: ValueType, lim: Limits)
    requires ReadValue(s, t, lim).Ok?
    ensures Storable(ReadValue(s, t, lim).value.0, lim)
  {
  }

  /** Decode a value of the declared type at the cursor. */
  method DecodeValue(r: ByteReader, t: ValueType, lim: Limits) returns (res: Result<Value>)
    requires r.Valid()
    modifies r`pos
    ensures r.Reads(old(r.Rest()), ReadValue(old(r.Rest()), t, lim), res)
  {
    ghost var before := r.Rest();
    match t {
      case TInt =>
        var i :- r.SVarint();
        return Ok(IntV(i));
      case TFloat =>
        if 8 <= |before| {
          Pow256Values();
          FromLittleEndianInverse(before[..8]);
        }
        var bits :- r.Fixed(8);
        return Ok(FloatV(bits));
      case TAtom =>
        var a :- r.VarintU32();
        return Ok(AtomV(a));
      case TRef =>
        var n :- r.VarintU32();
        return Ok(RefV(n));
      case TList =>
        var n :- r.VarintU32();
        if n > lim.maxListLen {
          return Err(LimitExceeded);
        }
        var items := DecodeVarintList(r, n);
        match items {
          case Ok(xs) => return Ok(ListV(xs));
          case Err(code) => return Err(code);
        }
      case TInvalid =>
        return Err(BadValue);
    }
  }

  method DecodeVarintList(r: ByteReader, n: nat) returns (res: Result<seq<U32>>)
    requires r.Valid()
    modifies r`pos
    ensures r.Reads(old(r.Rest()), ReadVarintList(old(r.Rest()), n), res)
  {
    hide ReadVarint, ReadVarintU32;
    ghost var spec := ReadVarintList(r.Rest(), n);
    var items: seq<U32>, i := [], 0;
    if spec.Ok? {
      assert [] + spec.value.0 == spec.value.0;
    }
    while i < n
      invariant 0 <= i <= n && r.Valid()
      invariant match ReadVarintList(r.Rest(), n - i)
                case Ok(tail) => spec == Ok((items + tail.0, tail.1))
                case Err(code) => spec == Err(code)
    {
      ghost var here := r.Rest();
      var x :- r.VarintU32();
      ghost var after := ReadVarintList(r.Rest(), n - i - 1);
      if after.Ok? {
        assert items + ([x] + after.value.0) == items + [x] + after.value.0;
      }
      items := items + [x];
      i := i + 1;
    }
    assert items + [] == items;
    return Ok(items);
  }

  /** Append a value's payload bytes. */
  method EncodeValue(v: Value, w: ByteWriter)
    requires v.ListV? ==> |v.items| < TWO64
    modifies w
    ensures w.buf == old(w.buf) + ValueBytes(v)
  {
    match v {
      case Invalid =>
      case IntV(i) => w.PutSVarint(i);
      case FloatV(bits) => w.PutFixed(bits, 8);
      case AtomV(a) => w.PutVarint(a);
      case RefV(n) => w.PutVarint(n);
      case ListV(items) =>
        w.PutVarint(|items|);
        EncodeItems(items, w);
    }
  }

  method EncodeItems(items: seq<U32>, w: ByteWriter)
    modifies w
    ensures w.buf == old(w.buf) + VarintList(items)
  {
    var k := 0;
    assert items[0..] == items;
    while k < |items|
      invariant 0 <= k <= |items|
      invariant w.buf + VarintList(items[k..]) == old(w.buf) + VarintList(items)
    {
      assert items[k..][1..] == items[k + 1..];
      assert w.buf + VarintList(items[k..]) == w.buf + Varint(items[k]) + VarintList(items[k + 1..]);
      w.PutVarint(items[k]);
      k := k + 1;
    }
  }
}
