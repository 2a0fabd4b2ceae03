/** The byte-level codec: unsigned LEB128 varints (section 7.6 of DWARF
    Version 5), zig-zag signed varints, fixed-width little-endian integers and
    length-prefixed strings. Decoders are functions from the unread suffix to
    a value and the rest; ByteReader and ByteWriter are the imperative
    cursors, proved against them. */
module Codec {
  import opened Basics

  // ----- encoders -----

  function Varint(v: nat): (s: seq<Byte>)
    ensures |s| >= 1
    decreases v
  {
    if v < 128 then [v] else [v % 128 + 128] + Varint(v / 128)
  }

  /** Zig-zag: 0, -1, 1, -2, ... become 0, 1, 2, 3, ... */
  function ZigZag(v: I64): U64 {
    if v >= 0 then 2 * v else -2 * v - 1
  }

  function UnZigZag(u: U64): I64 {
    if u % 2 == 0 then u / 2 else -(u / 2) - 1
  }

  function SVarint(v: I64): seq<Byte> {
    Varint(ZigZag(v))
  }

  /** The low n bytes of v, least significant first. */
  function LittleEndian(v: nat, n: nat): (s: seq<Byte>)
    ensures |s| == n
  {
    if n == 0 then [] else [v % 256] + LittleEndian(v / 256, n - 1)
  }

  function LpString(text: Text): seq<Byte> {
    Varint(|text|) + text
  }

  // ----- decoders -----

  function ReadU8(s: seq<Byte>): Result<(Byte, seq<Byte>)> {
    if |s| < 1 then Err(Truncated) else Ok((s[0], s[1..]))
  }

  function FromLittleEndian(s: seq<Byte>): (v: nat) {
    if s == [] then 0 else s[0] + 256 * FromLittleEndian(s[1..])
  }

  function ReadFixed(s: seq<Byte>, n: nat): Result<(nat, seq<Byte>)> {
    if |s| < n then Err(Truncated) else Ok((FromLittleEndian(s[..n]), s[n..]))
  }

  /** Add one more seven-bit digit to a 64-bit accumulator. */
  function AddDigit(value: nat, b: Byte, weight: nat): U64 {
    (value + (b % 128) * weight) % TWO64
  }

  /** Continue a varint: i bytes are behind us, value is what they amount to,
      and weight is 128 to the power i. At most ten bytes are read, and what a
      64-bit word cannot hold is shifted out. */
  function ReadVarintFrom(s: seq<Byte>, i: nat, weight: nat, value: nat): Result<(U64, seq<Byte>)>
    requires i <= 10
    decreases 10 - i
  {
    if i == 10 then Err(BadValue)
    else if |s| < 1 then Err(Truncated)
    else
      var value' := AddDigit(value, s[0], weight);
      if s[0] < 128 then Ok((value', s[1..]))
      else ReadVarintFrom(s[1..], i + 1, weight * 128, value')
  }

  function ReadVarint(s: seq<Byte>): Result<(U64, seq<Byte>)> {
    ReadVarintFrom(s, 0, 1, 0)
  }

  function ReadVarintU32(s: seq<Byte>): Result<(U32, seq<Byte>)> {
    var (v, rest) :- ReadVarint(s);
    if v > 0xFFFF_FFFF then Err(BadValue) else Ok((v, rest))
  }

  function ReadSVarint(s: seq<Byte>): Result<(I64, seq<Byte>)> {
    var (u, rest) :- ReadVarint(s);
    Ok((UnZigZag(u), rest))
  }

  function ReadBytes(s: seq<Byte>, n: nat): Result<(seq<Byte>, seq<Byte>)> {
    if |s| < n then Err(Truncated) else Ok((s[..n], s[n..]))
  }

  function ReadLpString(s: seq<Byte>, maxLen: nat): Result<(Text, seq<Byte>)> {
    var (n, rest) :- ReadVarint(s);
    if n > maxLen then Err(LimitExceeded) else ReadBytes(rest, n)
  }

  // ----- round trips -----

  function Pow128(i: nat): (p: nat)
    ensures p >= 1
  {
    if i == 0 then 1 else 128 * Pow128(i - 1)
  }

  lemma SplitDigit(v: nat, p: nat)
    ensures (v % 128) * p + (v / 128) * (p * 128) == v * p
    ensures (v % 128) * p >= 0 && (v / 128) * (p * 128) >= 0
  {
    var q, d := v / 128, v % 128;
    assert v == q * 128 + d;
    assert (q * 128 + d) * p == q * (p * 128) + d * p;
  }

  lemma VarintStep(v: nat, i: nat, acc: nat)
    requires v >= 128 && i < 10 && acc + v * Pow128(i) < TWO64
    ensures i + 1 < 10
    ensures acc + (v % 128) * Pow128(i) + (v / 128) * Pow128(i + 1) == acc + v * Pow128(i)
    ensures AddDigit(acc, v % 128 + 128, Pow128(i)) == acc + (v % 128) * Pow128(i)
    ensures Pow128(i + 1) == Pow128(i) * 128
  {
    var p := Pow128(i);
    SplitDigit(v, p);
    assert Pow128(i + 1) == p * 128;
    assert i < 9 by {
      assert v * p >= 128 * p;
      Pow128Nine();
    }
    var term := (v % 128) * p;
    assert (v % 128 + 128) % 128 == v % 128;
    assert AddDigit(acc, v % 128 + 128, p) == (acc + term) % TWO64;
  }

  lemma Pow128Nine()
    ensures Pow128(9) == 0x8000_0000_0000_0000
  {
    assert Pow128(3) == 0x20_0000;
    assert Pow128(6) == 0x400_0000_0000;
  }

  lemma {:induction false} VarintFromRoundTrip(v: nat, rest: seq<Byte>, i: nat, acc: nat)
    requires i < 10 && acc + v * Pow128(i) < TWO64
    ensures ReadVarintFrom(Varint(v) + rest, i, Pow128(i), acc) == Ok((acc + v * Pow128(i), rest))
    decreases v
  {
    var s := Varint(v) + rest;
    if v < 128 {
      assert s[0] == v && s[1..] == rest;
      assert AddDigit(acc, v, Pow128(i)) == acc + v * Pow128(i);
    } else {
      VarintStep(v, i, acc);
      var acc' := acc + (v % 128) * Pow128(i);
      assert s[0] == v % 128 + 128;
      assert s[1..] == Varint(v / 128) + rest;
      VarintFromRoundTrip(v / 128, rest, i + 1, acc');
    }
  }

  /** Reading an encoded 64-bit value gives it back and consumes exactly the
      bytes written. */
  lemma VarintRoundTrip(v: U64, rest: seq<Byte>)
    ensures ReadVarint(Varint(v) + rest) == Ok((v, rest))
  {
    VarintFromRoundTrip(v, rest, 0, 0);
  }

  lemma VarintU32RoundTrip(v: U32, rest: seq<Byte>)
    ensures ReadVarintU32(Varint(v) + rest) == Ok((v, rest))
  {
    VarintRoundTrip(v, rest);
  }

  lemma SVarintRoundTrip(v: I64, rest: seq<Byte>)
    ensures ReadSVarint(SVarint(v) + rest) == Ok((v, rest))
  {
    VarintRoundTrip(ZigZag(v), rest);
  }

  /** Zig-zag is a bijection, and it sends small magnitudes to small codes. */
  lemma ZigZagBijection(v: I64, u: U64)
    ensures UnZigZag(ZigZag(v)) == v
    ensures ZigZag(UnZigZag(u)) == u
    ensures -64 <= v < 64 <==> |SVarint(v)| == 1
  {
  }

  lemma {:induction false} VarintBound(v: nat, k: nat)
    requires k >= 1 && v < Pow128(k)
    ensures |Varint(v)| <= k
    decreases v
  {
    if v >= 128 {
      assert Pow128(k) == 128 * Pow128(k - 1) && Pow128(0) == 1;
      VarintBound(v / 128, k - 1);
    }
  }

  /** A 64-bit value needs at most ten bytes, a 32-bit one at most five. */
  lemma VarintLength(v: U64)
    ensures |Varint(v)| <= 10
    ensures v < TWO32 ==> |Varint(v)| <= 5
  {
    Pow128Nine();
    assert Pow128(10) == 128 * Pow128(9);
    VarintBound(v, 10);
    if v < TWO32 {
      assert Pow128(3) == 0x20_0000;
      assert Pow128(5) == 0x8_0000_0000;
      VarintBound(v, 5);
    }
  }

  function Pow256(n: nat): (p: nat)
    ensures p >= 1
  {
    if n == 0 then 1 else 256 * Pow256(n - 1)
  }

  lemma {:induction false} LittleEndianInverse(v: nat, n: nat)
    requires v < Pow256(n)
    ensures FromLittleEndian(LittleEndian(v, n)) == v
  {
    if n > 0 {
      assert LittleEndian(v, n)[1..] == LittleEndian(v / 256, n - 1);
      LittleEndianInverse(v / 256, n - 1);
    }
  }

  /** The bytes are the digits: two fixed-width runs with the same value agree. */
  lemma {:induction false} FromLittleEndianInverse(s: seq<Byte>)
    ensures FromLittleEndian(s) < Pow256(|s|)
    ensures LittleEndian(FromLittleEndian(s), |s|) == s
  {
    if s != [] {
      FromLittleEndianInverse(s[1..]);
      var tail := FromLittleEndian(s[1..]);
      var v := FromLittleEndian(s);
      assert v % 256 == s[0] && v / 256 == tail;
      assert LittleEndian(v, |s|) == [s[0]] + LittleEndian(tail, |s| - 1);
    }
  }

  lemma Pow256Values()
    ensures Pow256(2) == 0x1_0000
    ensures Pow256(4) == TWO32
    ensures Pow256(8) == TWO64
  {
    assert Pow256(3) == 0x100_0000;
    assert Pow256(6) == 0x1_0000_0000_0000;
  }

  lemma FixedRoundTrip(v: nat, n: nat, rest: seq<Byte>)
    requires v < Pow256(n)
    ensures ReadFixed(LittleEndian(v, n) + rest, n) == Ok((v, rest))
  {
    var s := LittleEndian(v, n) + rest;
    assert s[..n] == LittleEndian(v, n) && s[n..] == rest;
    LittleEndianInverse(v, n);
  }

  lemma BytesRoundTrip(text: seq<Byte>, rest: seq<Byte>)
    ensures ReadBytes(text + rest, |text|) == Ok((text, rest))
  {
    assert (text + rest)[..|text|] == text && (text + rest)[|text|..] == rest;
  }

  /** A string within the limit comes back, whatever the size of the limit. */
  lemma LpStringRoundTrip(text: Text, maxLen: nat, rest: seq<Byte>)
    requires |text| <= maxLen && |text| < TWO64
    ensures ReadLpString(LpString(text) + rest, maxLen) == Ok((text, rest))
  {
    hide Varint, ReadVarint;
    assert LpString(text) + rest == Varint(|text|) + (text + rest);
    VarintRoundTrip(|text|, text + rest);
    BytesRoundTrip(text, rest);
  }

  // ----- the imperative reader -----

  /** A bounds-checked cursor over an immutable byte span. */
  class ByteReader {
    const data: seq<Byte>
    var pos: nat

    ghost predicate Valid()
      reads this
    {
      pos <= |data|
    }

    ghost function Rest(): seq<Byte>
      requires Valid()
      reads this
    {
      data[pos..]
    }

    constructor (bytes: seq<Byte>)
      ensures Valid() && data == bytes && Rest() == bytes
    {
      data := bytes;
      pos := 0;
    }

    /** The common shape of every read: on success the decoded value and the
        rest, on failure the code. */
    ghost predicate Reads<T>(before: seq<Byte>, spec: Result<(T, seq<Byte>)>, r: Result<T>)
      reads this
    {
      && Valid()
      && match spec
         case Ok(pair) => r == Ok(pair.0) && Rest() == pair.1
         case Err(code) => r == Err(code)
    }

    method U8() returns (r: Result<Byte>)
      requires Valid()
      modifies `pos
      ensures Reads(old(Rest()), ReadU8(old(Rest())), r)
    {
      if |data| - pos < 1 {
        return Err(Truncated);
      }
      var b := data[pos];
      pos := pos + 1;
      return Ok(b);
    }

    method Fixed(n: nat) returns (r: Result<nat>)
      requires Valid()
      modifies `pos
      ensures Reads(old(Rest()), ReadFixed(old(Rest()), n), r)
    {
      if |data| - pos < n {
        return Err(Truncated);
      }
      var v, weight, i := 0, 1, 0;
      ghost var before := Rest();
      assert before[0..n] == before[..n];
      while i < n
        invariant 0 <= i <= n && pos == old(pos)
        invariant v + weight * FromLittleEndian(before[i..n]) == FromLittleEndian(before[..n])
      {
        assert before[i..n][1..] == before[i + 1..n];
        assert data[pos + i] == before[i];
        ghost var tail := FromLittleEndian(before[i + 1..n]);
        assert weight * (data[pos + i] + 256 * tail) == weight * data[pos + i] + weight * 256 * tail;
        v := v + weight * data[pos + i];
        weight := weight * 256;
        i := i + 1;
      }
      assert before[n..n] == [];
      pos := pos + n;
      assert data[pos..] == before[n..];
      return Ok(v);
    }

    method Varint() returns (r: Result<U64>)
      requires Valid()
      modifies `pos
      ensures Reads(old(Rest()), ReadVarint(old(Rest())), r)
    {
      var value: U64, weight: nat, i := 0, 1, 0;
      while i < 10
        invariant 0 <= i <= 10 && Valid()
        invariant ReadVarint(old(Rest())) == ReadVarintFrom(Rest(), i, weight, value)
      {
        if |data| - pos < 1 {
          return Err(Truncated);
        }
        var b := data[pos];
        assert Rest()[0] == b && Rest()[1..] == data[pos + 1..];
        pos := pos + 1;
        value := AddDigit(value, b, weight);
        if b < 128 {
          return Ok(value);
        }
        weight := weight * 128;
        i := i + 1;
      }
      return Err(BadValue);
    }

    method VarintU32() returns (r: Result<U32>)
      requires Valid()
      modifies `pos
      ensures Reads(old(Rest()), ReadVarintU32(old(Rest())), r)
    {
      var v :- Varint();
      if v > 0xFFFF_FFFF {
        return Err(BadValue);
      }
      return Ok(v);
    }

    method SVarint() returns (r: Result<I64>)
      requires Valid()
      modifies `pos
      ensures Reads(old(Rest()), ReadSVarint(old(Rest())), r)
    {
      var u :- Varint();
      return Ok(UnZigZag(u));
    }

    method Bytes(n: nat) returns (r: Result<seq<Byte>>)
      requires Valid()
      modifies `pos
      ensures Reads(old(Rest()), ReadBytes(old(Rest()), n), r)
    {
      if |data| - pos < n {
        return Err(Truncated);
      }
      var out := data[pos..pos + n];
      assert out == Rest()[..n] && data[pos + n..] == Rest()[n..];
      pos := pos + n;
      return Ok(out);
    }

    method LpString(maxLen: nat) returns (r: Result<Text>)
      requires Valid()
      modifies `pos
      ensures Reads(old(Rest()), ReadLpString(old(Rest()), maxLen), r)
    {
      var n :- Varint();
      if n > maxLen {
        return Err(LimitExceeded);
      }
      r := Bytes(n);
    }

    /** A sub-reader over [offset, offset + length), or None past the end. */
    method Window(offset: nat, length: nat) returns (r: Result<ByteReader>)
      ensures r.Ok? <==> offset + length <= |data|
      ensures r.Err? ==> r.code == Truncated
      ensures r.Ok? ==> fresh(r.value) && r.value.Valid() && r.value.Rest() == data[offset..offset + length]
    {
      if offset > |data| || length > |data| - offset {
        return Err(Truncated);
      }
      var sub := new ByteReader(data[offset..offset + length]);
      return Ok(sub);
    }
  }

  // ----- the imperative writer -----

  class ByteWriter {
    var buf: seq<Byte>

    constructor ()
      ensures buf == []
    {
      buf := [];
    }

    method PutU8(b: Byte)
      modifies this
      ensures buf == old(buf) + [b]
    {
      buf := buf + [b];
    }

    method PutFixed(v: nat, n: nat)
      modifies this
      ensures buf == old(buf) + LittleEndian(v, n)
    {
      var rest, i := v, 0;
      while i < n
        invariant 0 <= i <= n
        invariant buf + LittleEndian(rest, n - i) == old(buf) + LittleEndian(v, n)
      {
        assert buf + LittleEndian(rest, n - i) == buf + [rest % 256] + LittleEndian(rest / 256, n - i - 1);
        buf := buf + [rest % 256];
        rest := rest / 256;
        i := i + 1;
      }
    }

    method PutVarint(v: U64)
      modifies this
      ensures buf == old(buf) + Varint(v)
    {
      var rest: nat := v;
      while rest >= 128
        invariant buf + Varint(rest) == old(buf) + Varint(v)
      {
        assert buf + Varint(rest) == buf + [rest % 128 + 128] + Varint(rest / 128);
        buf := buf + [rest % 128 + 128];
        rest := rest / 128;
      }
      buf := buf + [rest];
    }

    method PutSVarint(v: I64)
      modifies this
      ensures buf == old(buf) + SVarint(v)
    {
      PutVarint(ZigZag(v));
    }

    method PutRaw(bytes: seq<Byte>)
      modifies this
      ensures buf == old(buf) + bytes
    {
      buf := buf + bytes;
    }

    method PutLpString(text: Text)
      requires |text| < TWO64
      modifies this
      ensures buf == old(buf) + LpString(text)
    {
      PutVarint(|text|);
      PutRaw(text);
    }

    /** Overwrite a reserved four-byte slot; nothing else moves. */
    method PatchU32(at: nat, v: U32)
      requires at + 4 <= |buf|
      modifies this
      ensures buf == old(buf)[..at] + LittleEndian(v, 4) + old(buf)[at + 4..]
    {
      ghost var before := buf;
      var rest: nat, i := v, 0;
      while i < 4
        invariant 0 <= i <= 4 && |buf| == |before|
        invariant buf[at + i..] == before[at + i..]
        invariant buf[..at + i] + LittleEndian(rest, 4 - i) == before[..at] + LittleEndian(v, 4)
      {
        assert LittleEndian(rest, 4 - i) == [rest % 256] + LittleEndian(rest / 256, 4 - i - 1);
        ghost var prev := buf;
        buf := buf[at + i := rest % 256];
        assert buf[..at + i + 1] == prev[..at + i] + [rest % 256];
        assert buf[at + i + 1..] == prev[at + i..][1..];
        assert before[at + i + 1..] == before[at + i..][1..];
        assert buf[..at + i + 1] + LittleEndian(rest / 256, 4 - i - 1)
            == prev[..at + i] + ([rest % 256] + LittleEndian(rest / 256, 4 - i - 1));
        rest := rest / 256;
        i := i + 1;
      }
      assert buf == buf[..at + 4] + buf[at + 4..];
    }
  }
}
