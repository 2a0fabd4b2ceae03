/** What the codec's bytes mean, digit by digit: the varint of section 7.6 of
    DWARF Version 5, the zig-zag codes and the little-endian words, each
    described without the codec's own functions. */
module CodecLaws {
  import opened Basics
  import opened Codec

  // ----- varints -----

  /** The digits of s as a number, the first having weight 128 to the power k. */
  function DigitSum(s: seq<Byte>, k: nat): nat {
    if s == [] then 0 else (s[0] % 128) * Pow128(k) + DigitSum(s[1..], k + 1)
  }

  /** Every byte but the last has its top bit set, and the last has not. */
  predicate Terminated(s: seq<Byte>) {
    && s != [] && s[|s| - 1] < 128
    && forall i :: 0 <= i < |s| - 1 ==> s[i] >= 128
  }

  lemma {:induction false} DigitSumShift(s: seq<Byte>, k: nat)
    ensures DigitSum(s, k + 1) == 128 * DigitSum(s, k)
  {
    if s != [] {
      DigitSumShift(s[1..], k + 1);
      assert Pow128(k + 1) == 128 * Pow128(k);
    }
  }

  lemma DigitSumCons(b: Byte, tail: seq<Byte>)
    ensures DigitSum([b] + tail, 0) == b % 128 + 128 * DigitSum(tail, 0)
  {
    assert ([b] + tail)[1..] == tail && Pow128(0) == 1;
    DigitSumShift(tail, 0);
  }

  lemma TerminatedCons(b: Byte, tail: seq<Byte>)
    requires b >= 128 && Terminated(tail)
    ensures Terminated([b] + tail) && ([b] + tail)[|tail|] == tail[|tail| - 1]
  {
  }

  /** The varint of v: its base-128 digits, least significant first, all but
      the last marked, and no superfluous zero digit at the end. */
  lemma {:induction false} VarintLaw(v: nat)
    ensures Terminated(Varint(v)) && DigitSum(Varint(v), 0) == v
    ensures |Varint(v)| > 1 ==> Varint(v)[|Varint(v)| - 1] > 0
  {
    if v < 128 {
      assert [v as Byte] + [] == Varint(v);
      DigitSumCons(v, []);
    } else {
      VarintLaw(v / 128);
      assert Varint(v) == [v % 128 + 128] + Varint(v / 128);
      hide *;
      OneMoreDigit(v, Varint(v / 128));
    }
  }

  lemma OneMoreDigit(v: nat, tail: seq<Byte>)
    requires v >= 128 && Terminated(tail) && DigitSum(tail, 0) == v / 128
    requires |tail| > 1 ==> tail[|tail| - 1] > 0
    ensures var s := [v % 128 + 128] + tail; Terminated(s) && DigitSum(s, 0) == v && s[|s| - 1] > 0
  {
    hide DigitSum;
    DigitSumCons(v % 128 + 128, tail);
    TerminatedCons(v % 128 + 128, tail);
    if |tail| == 1 {
      SingleDigit(tail);
    }
  }

  lemma SingleDigit(s: seq<Byte>)
    requires |s| == 1 && Terminated(s)
    ensures DigitSum(s, 0) == s[0]
  {
    assert s == [s[0]] + [];
    DigitSumCons(s[0], []);
  }

  /** These properties leave one choice. */
  lemma {:induction false} VarintIsUnique(s: seq<Byte>)
    requires Terminated(s) && (|s| > 1 ==> s[|s| - 1] > 0)
    ensures Varint(DigitSum(s, 0)) == s
  {
    var v := DigitSum(s, 0);
    assert Pow128(0) == 1;
    DigitSumShift(s[1..], 0);
    if |s| == 1 {
      assert s[1..] == [] && s == [s[0]];
    } else {
      VarintIsUnique(s[1..]);
      var rest := DigitSum(s[1..], 0);
      PositiveTail(s[1..]);
      assert v == s[0] % 128 + 128 * rest && v / 128 == rest && v % 128 == s[0] % 128;
      assert s == [s[0]] + s[1..] && s[0] == v % 128 + 128;
    }
  }

  lemma {:induction false} PositiveTail(s: seq<Byte>)
    requires Terminated(s) && s[|s| - 1] > 0
    ensures DigitSum(s, 0) > 0
  {
    assert Pow128(0) == 1;
    if |s| > 1 {
      DigitSumShift(s[1..], 0);
      PositiveTail(s[1..]);
    }
  }

  /** The varint at the front of s is its first n bytes. */
  predicate EndsAt(s: seq<Byte>, n: nat) {
    1 <= n <= |s| && Terminated(s[..n])
  }

  lemma AddDigitKeepsSum(value: nat, b: Byte, weight: nat, more: nat)
    ensures (AddDigit(value, b, weight) + more) % TWO64 == (value + ((b % 128) * weight + more)) % TWO64
  {
    var x := value + (b % 128) * weight;
    assert x == TWO64 * (x / TWO64) + x % TWO64;
    ModShift(x % TWO64 + more, x / TWO64);
  }

  lemma ModShift(a: nat, q: nat)
    ensures (a + TWO64 * q) % TWO64 == a % TWO64
  {
  }

  lemma FirstDigitAdds(s: seq<Byte>, n: nat, i: nat, value: nat)
    requires 0 < n <= |s|
    ensures (AddDigit(value, s[0], Pow128(i)) + DigitSum(s[1..][..n - 1], i + 1)) % TWO64 == (value + DigitSum(s[..n], i)) % TWO64
  {
    hide AddDigit;
    assert s[..n][0] == s[0] && s[..n][1..] == s[1..][..n - 1];
    AddDigitKeepsSum(value, s[0], Pow128(i), DigitSum(s[1..][..n - 1], i + 1));
  }

  /** One byte read: the last one, or one more digit. */
  lemma ReadByte(s: seq<Byte>, i: nat, value: nat)
    requires i < 10 && s != []
    ensures var value' := AddDigit(value, s[0], Pow128(i));
      ReadVarintFrom(s, i, Pow128(i), value)
      == if s[0] < 128 then Ok((value', s[1..])) else ReadVarintFrom(s[1..], i + 1, Pow128(i + 1), value')
  {
    hide AddDigit;
    assert Pow128(i + 1) == Pow128(i) * 128;
  }

  lemma {:induction false} ReadFromLaw(s: seq<Byte>, n: nat, i: nat, value: nat)
    requires EndsAt(s, n) && i + n <= 10
    ensures ReadVarintFrom(s, i, Pow128(i), value) == Ok(((value + DigitSum(s[..n], i)) % TWO64, s[n..]))
    decreases n
  {
    EndsLater(s, n);
    hide AddDigit, DigitSum, Pow128, ReadVarintFrom, EndsAt;
    ReadByte(s, i, value);
    FirstDigitAdds(s, n, i, value);
    if n == 1 {
      NoDigits(s[1..][..0], i + 1);
    } else {
      ReadFromLaw(s[1..], n - 1, i + 1, AddDigit(value, s[0], Pow128(i)));
      assert s[1..][n - 1..] == s[n..];
    }
  }

  lemma NoDigits(s: seq<Byte>, k: nat)
    requires s == []
    ensures DigitSum(s, k) == 0
  {
  }

  lemma EndsLater(s: seq<Byte>, n: nat)
    requires EndsAt(s, n)
    ensures 0 < n <= |s| && (s[0] < 128 <==> n == 1) && (n > 1 ==> EndsAt(s[1..], n - 1))
  {
    var t := s[..n];
    assert s[0] == t[0];
    if n > 1 {
      assert s[1..][..n - 1] == t[1..];
      assert forall i :: 0 <= i < n - 1 ==> t[1..][i] == t[i + 1];
    }
  }

  lemma {:induction false} ReadFromFails(s: seq<Byte>, i: nat, weight: nat, value: nat)
    requires i <= 10 && forall j :: 0 <= j < |s| && j < 10 - i ==> s[j] >= 128
    ensures ReadVarintFrom(s, i, weight, value) == Err(if |s| < 10 - i then Truncated else BadValue)
    decreases 10 - i
  {
    hide AddDigit;
    if i < 10 && s != [] {
      ReadFromFails(s[1..], i + 1, weight * 128, AddDigit(value, s[0], weight));
    }
  }

  /** Reading a varint: it ends at the first unmarked byte, which must be among
      the first ten; its value is the sum of its digits, modulo 2^64; and
      exactly its bytes are consumed. Without such a byte the input is
      truncated or the varint too long. */
  lemma ReadVarintLaw(s: seq<Byte>, n: nat)
    ensures EndsAt(s, n) && n <= 10 ==> ReadVarint(s) == Ok((DigitSum(s[..n], 0) % TWO64, s[n..]))
    ensures (forall j :: 0 <= j < |s| && j < 10 ==> s[j] >= 128) ==>
      ReadVarint(s) == Err(if |s| < 10 then Truncated else BadValue)
  {
    hide ReadVarintFrom;
    assert Pow128(0) == 1;
    if EndsAt(s, n) && n <= 10 {
      ReadFromLaw(s, n, 0, 0);
    }
    if forall j :: 0 <= j < |s| && j < 10 ==> s[j] >= 128 {
      ReadFromFails(s, 0, 1, 0);
    }
  }

  lemma {:induction false} FirstUnmarked(s: seq<Byte>, i: nat) returns (n: nat)
    requires i < |s| && s[i] < 128
    ensures EndsAt(s, n) && n <= i + 1
    decreases i
  {
    if j: nat :| j < i && s[j] < 128 {
      n := FirstUnmarked(s, j);
    } else {
      n := i + 1;
    }
  }

  /** The two cases above are all there are. */
  lemma ReadVarintOkIff(s: seq<Byte>)
    ensures ReadVarint(s).Ok? <==> exists n: nat :: n <= 10 && EndsAt(s, n)
  {
    hide ReadVarint, EndsAt;
    if j: nat :| j < |s| && j < 10 && s[j] < 128 {
      var n := FirstUnmarked(s, j);
      ReadVarintLaw(s, n);
    } else {
      ReadVarintLaw(s, 0);
      if n: nat :| n <= 10 && EndsAt(s, n) {
        EndIsUnmarked(s, n);
        assert false;
      }
    }
  }

  lemma EndIsUnmarked(s: seq<Byte>, n: nat)
    requires EndsAt(s, n)
    ensures 1 <= n <= |s| && s[n - 1] < 128
  {
    assert s[..n][n - 1] == s[n - 1];
  }

  // ----- zig-zag -----

  /** The k-th natural number has code 2k and the k-th negative one, counting
      from zero, code 2k + 1; so too the other way. */
  lemma ZigZagLaw(k: nat)
    requires k < 0x8000_0000_0000_0000
    ensures ZigZag(k) == k + k && ZigZag(-1 - k) == k + k + 1
    ensures UnZigZag(k + k) == k && UnZigZag(k + k + 1) == -1 - k
    ensures SVarint(k) == Varint(k + k) && SVarint(-1 - k) == Varint(k + k + 1)
  {
  }

  /** The readers built on the varint: a 32-bit one refuses larger numbers, a
      signed one undoes the code, and a string is its length and then exactly
      that many bytes. */
  lemma DerivedReaders(s: seq<Byte>, k: nat, maxLen: nat, rest: seq<Byte>)
    ensures ReadVarint(s) == Ok((k, rest)) && k < TWO32 ==> ReadVarintU32(s) == Ok((k, rest))
    ensures ReadVarint(s) == Ok((k, rest)) && k >= TWO32 ==> ReadVarintU32(s) == Err(BadValue)
    ensures ReadVarint(s) == Ok((k + k, rest)) && k + k < TWO64 ==> ReadSVarint(s) == Ok((k, rest))
    ensures ReadVarint(s) == Ok((k + k + 1, rest)) && k + k + 1 < TWO64 ==> ReadSVarint(s) == Ok((-1 - k, rest))
    ensures ReadVarint(s) == Ok((k, rest)) && k <= maxLen && k <= |rest| ==> ReadLpString(s, maxLen) == Ok((rest[..k], rest[k..]))
    ensures ReadVarint(s) == Ok((k, rest)) && k > maxLen ==> ReadLpString(s, maxLen) == Err(LimitExceeded)
    ensures ReadVarint(s) == Ok((k, rest)) && |rest| < k <= maxLen ==> ReadLpString(s, maxLen) == Err(Truncated)
  {
    hide ReadVarint;
  }

  // ----- fixed-width words -----

  /** The bytes of s as a number, the first having weight 256 to the power k. */
  function ByteSum(s: seq<Byte>, k: nat): nat {
    if s == [] then 0 else s[0] * Pow256(k) + ByteSum(s[1..], k + 1)
  }

  lemma {:induction false} ByteSumShift(s: seq<Byte>, k: nat)
    ensures ByteSum(s, k + 1) == 256 * ByteSum(s, k)
  {
    if s != [] {
      ByteSumShift(s[1..], k + 1);
      assert Pow256(k + 1) == 256 * Pow256(k);
    }
  }

  /** A word read is the sum of its bytes, byte i weighing 256 to the power i. */
  lemma {:induction false} FromLittleEndianLaw(s: seq<Byte>)
    ensures FromLittleEndian(s) == ByteSum(s, 0)
  {
    if s != [] {
      FromLittleEndianLaw(s[1..]);
      ByteSumShift(s[1..], 0);
      assert Pow256(0) == 1;
    }
  }

  /** A word written has v's base-256 digits, least significant first. */
  lemma LittleEndianLaw(v: nat, n: nat)
    requires v < Pow256(n)
    ensures |LittleEndian(v, n)| == n && ByteSum(LittleEndian(v, n), 0) == v
  {
    LittleEndianInverse(v, n);
    FromLittleEndianLaw(LittleEndian(v, n));
  }

  // ----- examples -----

  lemma Examples()
    ensures Varint(300) == [0xAC, 0x02] && ReadVarint([0xAC, 0x02]) == Ok((300, []))
    ensures SVarint(-1) == [0x01] && SVarint(1) == [0x02] && SVarint(-65) == [0x81, 0x01]
    ensures LittleEndian(0x1234_5678, 4) == [0x78, 0x56, 0x34, 0x12]
  {
    assert Varint(2) == [2];
    assert Varint(300) == [0xAC] + Varint(2) == [0xAC, 0x02];
    VarintRoundTrip(300, []);
    assert [0xAC, 0x02] + [] == [0xAC as Byte, 0x02];
  }
}
