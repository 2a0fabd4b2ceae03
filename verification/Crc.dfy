/** CRC-32/ISO-HDLC, the checksum of section 8 of RFC 1952: the table-driven
    form the wire uses, the bit-at-a-time division it stands for, and the
    errors it is certain to detect. Words are naturals and exclusive-or is
    defined bit by bit. */
module Crc {
  import opened Basics
  import opened Codec

  // ----- exclusive-or -----

  function Xor(a: nat, b: nat): nat
    decreases a + b
  {
    if a == 0 && b == 0 then 0 else (a % 2 + b % 2) % 2 + 2 * Xor(a / 2, b / 2)
  }

  lemma {:induction false} XorZero(a: nat)
    ensures Xor(a, 0) == a && Xor(0, a) == a
  {
    if a > 0 {
      XorZero(a / 2);
    }
  }

  lemma {:induction false} XorComm(a: nat, b: nat)
    ensures Xor(a, b) == Xor(b, a)
    decreases a + b
  {
    if a != 0 || b != 0 {
      XorComm(a / 2, b / 2);
    }
  }

  lemma XorBits(a: nat, b: nat)
    ensures Xor(a, b) % 2 == (a % 2 + b % 2) % 2
    ensures Xor(a, b) / 2 == Xor(a / 2, b / 2)
  {
  }

  lemma {:induction false} XorAssoc(a: nat, b: nat, c: nat)
    ensures Xor(Xor(a, b), c) == Xor(a, Xor(b, c))
    decreases a + b + c
  {
    hide Xor;
    if a == 0 && b == 0 && c == 0 {
      XorZero(0);
    } else {
      XorAssoc(a / 2, b / 2, c / 2);
      XorBits(a, b);
      XorBits(b, c);
      XorBits(Xor(a, b), c);
      XorBits(a, Xor(b, c));
    }
  }

  lemma {:induction false} XorSelf(a: nat)
    ensures Xor(a, a) == 0
  {
    if a > 0 {
      XorSelf(a / 2);
    }
  }

  /** Exclusive-or with a fixed word is injective. */
  lemma XorCancel(a: nat, b: nat, c: nat)
    requires Xor(a, b) == Xor(a, c)
    ensures b == c
  {
    XorAssoc(a, a, b);
    XorAssoc(a, a, c);
    XorSelf(a);
    XorZero(b);
    XorZero(c);
  }

  /** Four words in another grouping. */
  lemma XorSwap(a: nat, b: nat, c: nat, d: nat)
    ensures Xor(Xor(a, b), Xor(c, d)) == Xor(Xor(a, c), Xor(b, d))
  {
    XorAssoc(a, b, Xor(c, d));
    XorAssoc(b, c, d);
    XorComm(b, c);
    XorAssoc(c, b, d);
    XorAssoc(a, c, Xor(b, d));
  }

  function Pow2(k: nat): (p: nat)
    ensures p >= 1
  {
    if k == 0 then 1 else 2 * Pow2(k - 1)
  }

  lemma {:induction false} XorBound(a: nat, b: nat, k: nat)
    requires a < Pow2(k) && b < Pow2(k)
    ensures Xor(a, b) < Pow2(k)
    decreases k
  {
    if k > 0 {
      XorBound(a / 2, b / 2, k - 1);
    }
  }

  /** The top bit of one word survives a word without it. */
  lemma {:induction false} XorTop(a: nat, b: nat, k: nat)
    requires Pow2(k) <= a < 2 * Pow2(k) && b < Pow2(k)
    ensures Xor(a, b) >= Pow2(k)
    decreases k
  {
    if k > 0 {
      XorTop(a / 2, b / 2, k - 1);
    }
  }

  lemma ShiftOut(k: nat, h: nat)
    requires k > 0
    ensures Pow2(k) * h == 2 * (Pow2(k - 1) * h)
    ensures Pow2(k - 1) * h >= 0
  {
    assert Pow2(k) == 2 * Pow2(k - 1);
  }

  /** Words with disjoint bits add. */
  lemma {:induction false} XorDisjoint(low: nat, high: nat, k: nat)
    requires low < Pow2(k)
    ensures Pow2(k) * high >= 0
    ensures Xor(low, Pow2(k) * high) == low + Pow2(k) * high
    decreases k
  {
    hide Xor;
    if k == 0 {
      XorZero(high);
    } else {
      var h := Pow2(k - 1) * high;
      ShiftOut(k, high);
      XorDisjoint(low / 2, high, k - 1);
      HalvesJoin(low, h);
    }
  }

  lemma HalvesJoin(low: nat, h: nat)
    requires Xor(low / 2, h) == low / 2 + h
    ensures Xor(low, 2 * h) == low + 2 * h
  {
    hide Xor;
    XorBits(low, 2 * h);
    var x := Xor(low, 2 * h);
    assert (2 * h) / 2 == h && (2 * h) % 2 == 0;
    assert x == 2 * (x / 2) + x % 2;
  }

  lemma Pow2Values()
    ensures Pow2(8) == 256 && Pow2(31) == 0x8000_0000 && Pow2(32) == TWO32
  {
    assert Pow2(4) == 16;
    assert Pow2(12) == 4096;
    assert Pow2(16) == 0x1_0000;
    assert Pow2(20) == 0x10_0000;
    assert Pow2(24) == 0x100_0000;
    assert Pow2(28) == 0x1000_0000;
  }

  // ----- one bit of division -----

  /** The reflected generator polynomial. */
  const POLY: U32 := 0xEDB8_8320

  /** Divide once: shift right, subtracting the generator when a one falls out. */
  function BitStep(c: nat): nat {
    if c % 2 == 1 then Xor(POLY, c / 2) else c / 2
  }

  function BitSteps(c: nat, n: nat): nat
    decreases n
  {
    if n == 0 then c else BitSteps(BitStep(c), n - 1)
  }

  lemma BitStepLinear(a: nat, b: nat)
    ensures BitStep(Xor(a, b)) == Xor(BitStep(a), BitStep(b))
  {
    hide Xor;
    var x, y := a / 2, b / 2;
    XorBits(a, b);
    if a % 2 == 1 && b % 2 == 1 {
      XorSwap(POLY, x, POLY, y);
      XorSelf(POLY);
      XorZero(Xor(x, y));
    } else if a % 2 == 1 {
      XorAssoc(POLY, x, y);
    } else if b % 2 == 1 {
      XorAssoc(POLY, x, y);
      XorAssoc(x, POLY, y);
      XorComm(POLY, x);
    }
  }

  lemma {:induction false} BitStepsLinear(a: nat, b: nat, n: nat)
    ensures BitSteps(Xor(a, b), n) == Xor(BitSteps(a, n), BitSteps(b, n))
    decreases n
  {
    if n > 0 {
      BitStepLinear(a, b);
      BitStepsLinear(BitStep(a), BitStep(b), n - 1);
    }
  }

  /** Steps that shift only zeros out just shift. */
  lemma {:induction false} BitStepsShift(h: nat, n: nat)
    ensures Pow2(n) * h >= 0
    ensures BitSteps(Pow2(n) * h, n) == h
    decreases n
  {
    hide Xor;
    if n > 0 {
      ShiftOut(n, h);
      BitStepsShift(h, n - 1);
      EvenStep(Pow2(n - 1) * h, n);
    }
  }

  lemma EvenStep(g: nat, n: nat)
    requires n > 0
    ensures BitSteps(2 * g, n) == BitSteps(g, n - 1)
  {
  }

  lemma BitStepBound(c: U32)
    ensures BitStep(c) < TWO32
  {
    Pow2Values();
    XorBound(POLY, c / 2, 32);
  }

  /** A step can be undone: its top bit says what fell out. */
  lemma BitStepInjective(a: U32, b: U32)
    requires BitStep(a) == BitStep(b)
    ensures a == b
  {
    Pow2Values();
    if a % 2 == 1 && b % 2 == 1 {
      XorCancel(POLY, a / 2, b / 2);
    } else if a % 2 == 1 {
      XorTop(POLY, a / 2, 31);
    } else if b % 2 == 1 {
      XorTop(POLY, b / 2, 31);
    }
  }

  lemma {:induction false} BitStepsInjective(a: U32, b: U32, n: nat)
    requires BitSteps(a, n) == BitSteps(b, n)
    ensures a == b
    decreases n
  {
    if n > 0 {
      BitStepBound(a);
      BitStepBound(b);
      BitStepsInjective(BitStep(a), BitStep(b), n - 1);
      BitStepInjective(a, b);
    }
  }

  // ----- the table -----

  function TableEntry(i: nat): nat {
    BitSteps(i, 8)
  }

  /** Advance the register by a byte, by table. */
  function TableStep(c: nat, b: Byte): nat {
    Xor(TableEntry(Xor(c, b) % 256), c / 256)
  }

  function TableFold(c: nat, data: seq<Byte>): nat
    decreases |data|
  {
    if data == [] then c else TableFold(TableStep(c, data[0]), data[1..])
  }

  const ONES: U32 := 0xFFFF_FFFF

  /** The checksum the wire carries. */
  function Crc32(data: seq<Byte>): nat {
    Xor(TableFold(ONES, data), ONES)
  }

  // ----- the division it stands for -----

  /** Feed one message bit to the division register. */
  function FeedBit(c: nat, bit: nat): nat {
    if (c % 2 + bit) % 2 == 1 then Xor(POLY, c / 2) else c / 2
  }

  /** Feed the low n bits of b, least significant first. */
  function FeedBits(c: nat, b: nat, n: nat): nat
    decreases n
  {
    if n == 0 then c else FeedBits(FeedBit(c, b % 2), b / 2, n - 1)
  }

  function DivideMessage(c: nat, data: seq<Byte>): nat
    decreases |data|
  {
    if data == [] then c else DivideMessage(FeedBits(c, data[0], 8), data[1..])
  }

  /** Feeding bits one by one is adding them all and then dividing. */
  lemma {:induction false} FeedBitsIsSteps(c: nat, b: nat, n: nat)
    requires b < Pow2(n)
    ensures FeedBits(c, b, n) == BitSteps(Xor(c, b), n)
    decreases n
  {
    if n == 0 {
      XorZero(c);
    } else {
      XorBits(c, b);
      FeedBitsIsSteps(FeedBit(c, b % 2), b / 2, n - 1);
      if Xor(c, b) % 2 == 1 {
        XorAssoc(POLY, c / 2, b / 2);
      }
    }
  }

  lemma StepsOfParts(low: Byte, high: nat)
    ensures BitSteps(low + 256 * high, 8) == Xor(TableEntry(low), high)
  {
    hide Xor, BitSteps;
    Pow2Values();
    XorDisjoint(low, high, 8);
    BitStepsLinear(low, 256 * high, 8);
    BitStepsShift(high, 8);
  }

  /** A byte's worth of steps looks at the low byte and shifts the rest. */
  lemma StepsByTable(x: nat)
    ensures BitSteps(x, 8) == Xor(TableEntry(x % 256), x / 256)
  {
    hide Xor, BitSteps, TableEntry;
    StepsOfParts(x % 256, x / 256);
    assert x == x % 256 + 256 * (x / 256);
  }

  lemma {:induction false} HighOfXor(a: nat, b: nat, k: nat)
    requires b < Pow2(k)
    ensures Xor(a, b) / Pow2(k) == a / Pow2(k)
    decreases k
  {
    if k == 0 {
      XorZero(a);
    } else {
      var p := Pow2(k - 1);
      XorBits(a, b);
      HighOfXor(a / 2, b / 2, k - 1);
      DivTwice(Xor(a, b), p);
      DivTwice(a, p);
    }
  }

  lemma DivTwice(a: nat, p: nat)
    requires p >= 1
    ensures a / (2 * p) == (a / 2) / p
  {
    var q, r := (a / 2) / p, (a / 2) % p;
    assert a == 2 * (q * p + r) + a % 2;
    assert a == (2 * p) * q + (2 * r + a % 2);
    assert 0 <= 2 * r + a % 2 < 2 * p;
    DivUnique(a, 2 * p, q, 2 * r + a % 2);
  }

  lemma DivUnique(a: nat, d: nat, q: nat, r: nat)
    requires d >= 1 && a == d * q + r && r < d
    ensures a / d == q
  {
    var q', r' := a / d, a % d;
    assert a == d * q' + r';
    if q < q' {
      MulMonotone(d, q + 1, q');
    } else if q' < q {
      MulMonotone(d, q' + 1, q);
    }
  }

  lemma MulMonotone(d: nat, x: nat, y: nat)
    requires x <= y
    ensures d * x <= d * y
  {
  }

  lemma TableStepIsSteps(c: nat, b: Byte)
    ensures TableStep(c, b) == BitSteps(Xor(c, b), 8) == FeedBits(c, b, 8)
  {
    Pow2Values();
    StepsByTable(Xor(c, b));
    HighOfXor(c, b, 8);
    FeedBitsIsSteps(c, b, 8);
  }

  lemma {:induction false} TableFoldIsDivision(c: nat, data: seq<Byte>)
    ensures TableFold(c, data) == DivideMessage(c, data)
    decreases |data|
  {
    if data != [] {
      TableStepIsSteps(c, data[0]);
      TableFoldIsDivision(TableStep(c, data[0]), data[1..]);
    }
  }

  /** The table-driven checksum is the bit-at-a-time reflected division, with
      the register preset to ones and complemented at the end. */
  lemma TableIsDivision(data: seq<Byte>)
    ensures Crc32(data) == Xor(DivideMessage(ONES, data), ONES) < TWO32
  {
    TableFoldIsDivision(ONES, data);
    FoldBound(ONES, data);
    Pow2Values();
    XorBound(TableFold(ONES, data), ONES, 32);
  }

  // ----- messages as bits -----

  type Bit = b: nat | b < 2

  /** The low n bits of b in the order they are divided, lowest first. */
  function LowBits(b: nat, n: nat): (bits: seq<Bit>)
    ensures |bits| == n
    decreases n
  {
    if n == 0 then [] else [b % 2] + LowBits(b / 2, n - 1)
  }

  function Bits(data: seq<Byte>): (bits: seq<Bit>)
    ensures |bits| == 8 * |data|
  {
    if data == [] then [] else LowBits(data[0], 8) + Bits(data[1..])
  }

  /** The number some bits stand for, lowest first. */
  function WordOf(bits: seq<Bit>): nat {
    if bits == [] then 0 else bits[0] + 2 * WordOf(bits[1..])
  }

  function Feed(c: nat, bits: seq<Bit>): nat
    decreases |bits|
  {
    if bits == [] then c else Feed(FeedBit(c, bits[0]), bits[1..])
  }

  lemma {:induction false} WordOfLowBits(b: nat, n: nat)
    requires b < Pow2(n)
    ensures WordOf(LowBits(b, n)) == b
    decreases n
  {
    if n > 0 {
      WordOfLowBits(b / 2, n - 1);
      assert LowBits(b, n)[1..] == LowBits(b / 2, n - 1);
    }
  }

  lemma {:induction false} WordOfBound(bits: seq<Bit>)
    ensures WordOf(bits) < Pow2(|bits|)
  {
    if bits != [] {
      WordOfBound(bits[1..]);
    }
  }

  lemma {:induction false} WordOfInjective(v: seq<Bit>, w: seq<Bit>)
    requires |v| == |w| && WordOf(v) == WordOf(w)
    ensures v == w
  {
    if v != [] {
      assert v[0] == WordOf(v) % 2 == w[0];
      WordOfInjective(v[1..], w[1..]);
      assert v == [v[0]] + v[1..] && w == [w[0]] + w[1..];
    }
  }

  /** Different messages of one length differ in some bit. */
  lemma {:induction false} BitsInjective(a: seq<Byte>, b: seq<Byte>)
    requires |a| == |b| && Bits(a) == Bits(b)
    ensures a == b
  {
    hide LowBits;
    if a != [] {
      Pow2Values();
      assert LowBits(a[0], 8) == Bits(a)[..8] == Bits(b)[..8] == LowBits(b[0], 8);
      assert Bits(a[1..]) == Bits(a)[8..] == Bits(b)[8..] == Bits(b[1..]);
      WordOfLowBits(a[0], 8);
      WordOfLowBits(b[0], 8);
      BitsInjective(a[1..], b[1..]);
      assert a == [a[0]] + a[1..] && b == [b[0]] + b[1..];
    }
  }

  lemma {:induction false} FeedConcat(c: nat, a: seq<Bit>, b: seq<Bit>)
    ensures Feed(c, a + b) == Feed(Feed(c, a), b)
    decreases |a|
  {
    hide FeedBit;
    if a == [] {
      assert a + b == b;
    } else {
      assert (a + b)[1..] == a[1..] + b;
      FeedConcat(FeedBit(c, a[0]), a[1..], b);
    }
  }

  lemma {:induction false} FeedBitsIsFeed(c: nat, b: nat, n: nat)
    ensures FeedBits(c, b, n) == Feed(c, LowBits(b, n))
    decreases n
  {
    hide FeedBit;
    if n > 0 {
      FeedBitsIsFeed(FeedBit(c, b % 2), b / 2, n - 1);
      assert LowBits(b, n)[1..] == LowBits(b / 2, n - 1);
    }
  }

  /** The table-driven register is what feeding the message's bits gives. */
  lemma {:induction false} FoldIsFeed(c: nat, data: seq<Byte>)
    ensures TableFold(c, data) == Feed(c, Bits(data))
    decreases |data|
  {
    hide TableStep, LowBits, FeedBits;
    if data != [] {
      var b := data[0];
      TableStepIsSteps(c, b);
      FeedBitsIsFeed(c, b, 8);
      FeedConcat(c, LowBits(b, 8), Bits(data[1..]));
      FoldIsFeed(TableStep(c, b), data[1..]);
    }
  }

  // ----- what it detects -----

  /** Feeding a bit is adding it and dividing once. */
  lemma FeedBitIsStep(c: nat, bit: Bit)
    ensures FeedBit(c, bit) == BitStep(Xor(c, bit))
  {
    hide Xor;
    XorBits(c, bit);
    XorZero(c / 2);
  }

  lemma FeedBitBound(c: U32, bit: Bit)
    ensures Xor(c, bit) < TWO32 && FeedBit(c, bit) < TWO32
  {
    Pow2Values();
    XorBound(c, bit, 32);
    FeedBitIsStep(c, bit);
    BitStepBound(Xor(c, bit));
  }

  lemma {:induction false} FeedBound(c: U32, bits: seq<Bit>)
    ensures Feed(c, bits) < TWO32
    decreases |bits|
  {
    hide FeedBit;
    if bits != [] {
      FeedBitBound(c, bits[0]);
      FeedBound(FeedBit(c, bits[0]), bits[1..]);
    }
  }

  /** The same bits take different registers to different registers. */
  lemma {:induction false} FeedInjective(x: U32, y: U32, bits: seq<Bit>)
    requires Feed(x, bits) == Feed(y, bits)
    ensures x == y
    decreases |bits|
  {
    hide FeedBit, Xor, BitStep;
    if bits != [] {
      var b := bits[0];
      FeedBitBound(x, b);
      FeedBitBound(y, b);
      FeedInjective(FeedBit(x, b), FeedBit(y, b), bits[1..]);
      FeedBitIsStep(x, b);
      FeedBitIsStep(y, b);
      BitStepInjective(Xor(x, b), Xor(y, b));
      XorComm(x, b);
      XorComm(y, b);
      XorCancel(b, x, y);
    }
  }

  /** Feeding a run of bits is adding them as one word and then dividing all
      the way. */
  lemma FeedIsWordSteps(c: nat, bits: seq<Bit>)
    ensures Feed(c, bits) == BitSteps(Xor(c, WordOf(bits)), |bits|)
  {
    hide Xor, BitSteps, FeedBit;
    WordOfBound(bits);
    FeedBitsIsSteps(c, WordOf(bits), |bits|);
    FeedIsFeedBits(c, bits);
  }

  lemma {:induction false} FeedIsFeedBits(c: nat, bits: seq<Bit>)
    ensures Feed(c, bits) == FeedBits(c, WordOf(bits), |bits|)
    decreases |bits|
  {
    hide FeedBit;
    if bits != [] {
      FeedIsFeedBits(FeedBit(c, bits[0]), bits[1..]);
      assert WordOf(bits) % 2 == bits[0] && WordOf(bits) / 2 == WordOf(bits[1..]);
    }
  }

  lemma {:induction false} Pow2Monotone(m: nat, n: nat)
    requires m <= n
    ensures Pow2(m) <= Pow2(n)
    decreases n
  {
    if m < n {
      Pow2Monotone(m, n - 1);
    }
  }

  /** From one register, two different runs of at most 32 bits lead to
      different registers. */
  lemma WindowInjective(c: U32, v: seq<Bit>, w: seq<Bit>)
    requires |v| == |w| <= 32 && Feed(c, v) == Feed(c, w)
    ensures v == w
  {
    hide Xor, BitSteps, WordOf, Feed;
    Pow2Values();
    FeedIsWordSteps(c, v);
    FeedIsWordSteps(c, w);
    WordOfBound(v);
    WordOfBound(w);
    Pow2Monotone(|v|, 32);
    var x, y := WordOf(v), WordOf(w);
    XorBound(c, x, 32);
    XorBound(c, y, 32);
    BitStepsInjective(Xor(c, x), Xor(c, y), |v|);
    XorCancel(c, x, y);
    WordOfInjective(v, w);
  }

  /** Two messages of one length that differ, and only in bits p up to p + 31. */
  ghost predicate Burst(a: seq<Byte>, b: seq<Byte>, p: nat) {
    && |a| == |b| && a != b
    && forall j :: 0 <= j < |Bits(a)| && Bits(a)[j] != Bits(b)[j] ==> p <= j < p + 32
  }

  /** A burst anywhere changes the register. */
  lemma BurstSeparates(c: U32, a: seq<Byte>, b: seq<Byte>, p: nat)
    requires Burst(a, b, p)
    ensures TableFold(c, a) != TableFold(c, b)
  {
    hide Bits, Feed, TableFold;
    var x, y := Bits(a), Bits(b);
    var lo := if p < |x| then p else |x|;
    var hi := if p + 32 < |x| then p + 32 else |x|;
    assert x[..lo] == y[..lo] && x[hi..] == y[hi..];
    assert x == x[..lo] + x[lo..hi] + x[hi..] && y == y[..lo] + y[lo..hi] + y[hi..];
    if TableFold(c, a) == TableFold(c, b) {
      FoldIsFeed(c, a);
      FoldIsFeed(c, b);
      SameWindow(c, x[..lo], x[lo..hi], y[lo..hi], x[hi..]);
      BitsInjective(a, b);
    }
  }

  lemma SameWindow(c: U32, before: seq<Bit>, v: seq<Bit>, w: seq<Bit>, after: seq<Bit>)
    requires |v| == |w| <= 32 && Feed(c, before + v + after) == Feed(c, before + w + after)
    ensures v == w
  {
    hide Feed;
    FeedConcat(c, before + v, after);
    FeedConcat(c, before + w, after);
    FeedConcat(c, before, v);
    FeedConcat(c, before, w);
    FeedBound(c, before);
    var r := Feed(c, before);
    FeedBound(r, v);
    FeedBound(r, w);
    FeedInjective(Feed(r, v), Feed(r, w), after);
    WindowInjective(r, v, w);
  }

  /** A burst of at most 32 bits, at any bit offset, changes the checksum. */
  lemma BurstsAreDetected(a: seq<Byte>, b: seq<Byte>, p: nat)
    requires Burst(a, b, p)
    ensures Crc32(a) != Crc32(b)
  {
    hide Burst, TableFold, Xor;
    BurstSeparates(ONES, a, b, p);
    if Crc32(a) == Crc32(b) {
      XorComm(TableFold(ONES, a), ONES);
      XorComm(TableFold(ONES, b), ONES);
      XorCancel(ONES, TableFold(ONES, a), TableFold(ONES, b));
    }
  }

  // ----- message and checksum together -----

  lemma {:induction false} FoldConcat(c: nat, a: seq<Byte>, b: seq<Byte>)
    ensures TableFold(c, a + b) == TableFold(TableFold(c, a), b)
    decreases |a|
  {
    if a == [] {
      assert a + b == b;
    } else {
      assert (a + b)[1..] == a[1..] + b;
      FoldConcat(TableStep(c, a[0]), a[1..], b);
    }
  }

  lemma FoldBound(c: U32, data: seq<Byte>)
    ensures TableFold(c, data) < TWO32
  {
    FoldIsFeed(c, data);
    FeedBound(c, Bits(data));
  }

  lemma {:induction false} WordOfJoin(b: nat, k: nat, tail: seq<Bit>)
    requires b < Pow2(k)
    ensures WordOf(LowBits(b, k) + tail) == b + Pow2(k) * WordOf(tail)
    decreases k
  {
    if k == 0 {
      assert LowBits(b, k) + tail == tail;
    } else {
      var bits := LowBits(b, k) + tail;
      assert bits[1..] == LowBits(b / 2, k - 1) + tail && bits[0] == b % 2;
      assert WordOf(bits) == b % 2 + 2 * WordOf(bits[1..]);
      assert b / 2 < Pow2(k - 1);
      hide LowBits, WordOf, Pow2;
      WordOfJoin(b / 2, k - 1, tail);
      ShiftOut(k, WordOf(tail));
    }
  }

  /** The bits of a fixed-width number stand for it. */
  lemma {:induction false} WordOfFixed(v: nat, n: nat)
    requires v < Pow256(n)
    ensures WordOf(Bits(LittleEndian(v, n))) == v
    decreases n
  {
    hide LowBits, WordOf;
    if n == 0 {
      assert WordOf([]) == 0 by { NoWord(); }
    } else {
      Pow2Values();
      WordOfFixed(v / 256, n - 1);
      assert LittleEndian(v, n)[1..] == LittleEndian(v / 256, n - 1);
      WordOfJoin(v % 256, 8, Bits(LittleEndian(v / 256, n - 1)));
    }
  }

  lemma NoWord()
    ensures WordOf([]) == 0
  {
  }

  /** What the register holds after a message and its checksum. */
  const RESIDUE: nat := BitSteps(ONES, 32)

  /** Four bytes after a message bring the register to the residue exactly when
      they are its checksum. */
  lemma ResidueIff(data: seq<Byte>, crc: U32)
    ensures TableFold(ONES, data + LittleEndian(crc, 4)) == RESIDUE <==> crc == Crc32(data)
  {
    hide Xor, BitSteps, LittleEndian, TableFold, Bits, Feed, WordOf;
    Pow2Values();
    var r := TableFold(ONES, data);
    FoldBound(ONES, data);
    FoldConcat(ONES, data, LittleEndian(crc, 4));
    FoldIsFeed(r, LittleEndian(crc, 4));
    FeedIsWordSteps(r, Bits(LittleEndian(crc, 4)));
    Pow256Values();
    WordOfFixed(crc, 4);
    XorBound(r, crc, 32);
    if BitSteps(Xor(r, crc), 32) == RESIDUE {
      BitStepsInjective(Xor(r, crc), ONES, 32);
    }
    XorAssoc(r, r, crc);
    XorAssoc(r, r, ONES);
    XorSelf(r);
    XorZero(crc);
    XorZero(ONES);
  }

  /** A burst of at most 32 bits in a message followed by its checksum, or
      across the border, never leaves a message followed by its checksum. */
  lemma TrailerBurstsAreDetected(data: seq<Byte>, data': seq<Byte>, crc: U32, p: nat)
    requires Burst(data + LittleEndian(Crc32(data), 4), data' + LittleEndian(crc, 4), p)
    ensures crc != Crc32(data')
  {
    hide Burst, TableFold, LittleEndian, Crc32;
    TableIsDivision(data);
    BurstSeparates(ONES, data + LittleEndian(Crc32(data), 4), data' + LittleEndian(crc, 4), p);
    ResidueIff(data, Crc32(data));
    ResidueIff(data', crc);
  }

  // ----- the loops -----

  method BuildTable() returns (t: array<nat>)
    ensures fresh(t) && t.Length == 256
    ensures forall i :: 0 <= i < 256 ==> t[i] == TableEntry(i)
  {
    hide Xor;
    t := new nat[256];
    var i := 0;
    while i < 256
      invariant 0 <= i <= 256
      invariant forall j :: 0 <= j < i ==> t[j] == TableEntry(j)
    {
      var c: nat, k := i, 0;
      while k < 8
        invariant 0 <= k <= 8
        invariant BitSteps(c, 8 - k) == TableEntry(i)
      {
        c := if c % 2 == 1 then Xor(POLY, c / 2) else c / 2;
        k := k + 1;
      }
      t[i] := c;
      i := i + 1;
    }
  }

  method WireCrc32(data: seq<Byte>) returns (crc: U32)
    ensures crc == Crc32(data)
  {
    hide TableEntry, Xor;
    var table := BuildTable();
    var c, i := ONES as nat, 0;
    assert data[0..] == data;
    while i < |data|
      invariant 0 <= i <= |data|
      invariant TableFold(c, data[i..]) == TableFold(ONES, data)
    {
      assert data[i..][1..] == data[i + 1..];
      c := Xor(table[Xor(c, data[i]) % 256], c / 256);
      i := i + 1;
    }
    TableIsDivision(data);
    return Xor(c, ONES);
  }
}
