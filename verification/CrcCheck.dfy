/** The check value of CRC-32/ISO-HDLC, which fixes the generator, the preset
    and the final complement together. The register is computed with here as
    four bytes of bits. */
module CrcCheck {
  import opened Basics
  import opened Crc

  // ----- exclusive-or, byte by byte -----

  lemma Halves(a: bv8)
    ensures a as nat == 2 * ((a >> 1) as nat) + ((a & 1) as nat)
    ensures (a as nat) / 2 == (a >> 1) as nat && (a as nat) % 2 == (a & 1) as nat
  {
  }

  lemma HalvesOfXor(a: bv8, b: bv8)
    ensures (a ^ b) >> 1 == (a >> 1) ^ (b >> 1)
    ensures ((a ^ b) & 1) as nat == (((a & 1) as nat) + ((b & 1) as nat)) % 2
  {
  }

  lemma XorFromHalves(a: nat, b: nat, h: nat)
    requires Xor(a / 2, b / 2) == h
    ensures Xor(a, b) == 2 * h + (a % 2 + b % 2) % 2
  {
    hide Xor;
    XorBits(a, b);
  }

  lemma {:induction false} XorOfBits(a: bv8, b: bv8, n: nat)
    requires a as nat < Pow2(n) && b as nat < Pow2(n)
    ensures Xor(a as nat, b as nat) == (a ^ b) as nat
    decreases n
  {
    hide Xor;
    if n == 0 {
      NoBits(a, b);
    } else {
      assert Pow2(n) == 2 * Pow2(n - 1);
      Halves(a);
      Halves(b);
      XorOfBits(a >> 1, b >> 1, n - 1);
      XorJoins(a, b);
    }
  }

  lemma NoBits(a: bv8, b: bv8)
    requires a as nat == 0 && b as nat == 0
    ensures Xor(a as nat, b as nat) == (a ^ b) as nat
  {
    hide Xor;
    XorZero(0);
    assert a == 0 && b == 0;
  }

  lemma XorJoins(a: bv8, b: bv8)
    requires Xor((a >> 1) as nat, (b >> 1) as nat) == ((a >> 1) ^ (b >> 1)) as nat
    ensures Xor(a as nat, b as nat) == (a ^ b) as nat
  {
    hide Xor;
    Halves(a);
    Halves(b);
    XorOfHalves(a, b);
    XorFromHalves(a as nat, b as nat, ((a >> 1) ^ (b >> 1)) as nat);
  }

  lemma XorOfBytes(a: bv8, b: bv8)
    ensures Xor(a as nat, b as nat) == (a ^ b) as nat
  {
    hide Xor;
    Pow2Values();
    XorOfBits(a, b, 8);
  }

  lemma XorOfHalves(a: bv8, b: bv8)
    ensures (a ^ b) as nat == 2 * (((a >> 1) ^ (b >> 1)) as nat) + ((a as nat) % 2 + (b as nat) % 2) % 2
  {
    Halves(a);
    Halves(b);
    Halves(a ^ b);
    HalvesOfXor(a, b);
  }

  lemma {:induction false} XorShifted(a: nat, b: nat, k: nat)
    ensures Pow2(k) * a >= 0 && Pow2(k) * b >= 0 && Pow2(k) * Xor(a, b) >= 0
    ensures Xor(Pow2(k) * a, Pow2(k) * b) == Pow2(k) * Xor(a, b)
    decreases k
  {
    hide Xor;
    if k > 0 {
      ShiftOut(k, a);
      ShiftOut(k, b);
      ShiftOut(k, Xor(a, b));
      XorShifted(a, b, k - 1);
      XorDoubled(Pow2(k - 1) * a, Pow2(k - 1) * b);
    }
  }

  lemma XorDoubled(a: nat, b: nat)
    ensures Xor(2 * a, 2 * b) == 2 * Xor(a, b)
  {
    XorBits(2 * a, 2 * b);
  }

  /** Words are exclusive-ored byte by byte. */
  lemma XorBytewise(a: nat, x: Byte, b: nat, y: Byte)
    ensures Xor(256 * a + x, 256 * b + y) == 256 * Xor(a, b) + Xor(x, y)
  {
    hide Xor;
    Pow2Values();
    XorDisjoint(x, a, 8);
    XorDisjoint(y, b, 8);
    XorSwap(x, 256 * a, y, 256 * b);
    XorShifted(a, b, 8);
    XorBound(x, y, 8);
    XorDisjoint(Xor(x, y), Xor(a, b), 8);
  }

  // ----- the register as four bytes -----

  function Word(b3: nat, b2: nat, b1: nat, b0: nat): nat {
    256 * (256 * (256 * b3 + b2) + b1) + b0
  }

  datatype Register = Register(b3: bv8, b2: bv8, b1: bv8, b0: bv8) {
    function Value(): nat {
      Word(b3 as nat, b2 as nat, b1 as nat, b0 as nat)
    }
  }

  function XorRegisters(r: Register, s: Register): Register {
    Register(r.b3 ^ s.b3, r.b2 ^ s.b2, r.b1 ^ s.b1, r.b0 ^ s.b0)
  }

  lemma XorOfWords(a: Byte, b: Byte, c: Byte, d: Byte, w: Byte, x: Byte, y: Byte, z: Byte)
    ensures Xor(Word(a, b, c, d), Word(w, x, y, z)) == Word(Xor(a, w), Xor(b, x), Xor(c, y), Xor(d, z))
  {
    hide Xor;
    XorBytewise(a, b, w, x);
    XorBytewise(256 * a + b, c, 256 * w + x, y);
    XorBytewise(256 * (256 * a + b) + c, d, 256 * (256 * w + x) + y, z);
  }

  lemma XorOfRegisters(r: Register, s: Register)
    ensures Xor(r.Value(), s.Value()) == XorRegisters(r, s).Value()
  {
    hide Xor, Word;
    var a: Byte, b: Byte, c: Byte, d: Byte := r.b3 as nat, r.b2 as nat, r.b1 as nat, r.b0 as nat;
    var w: Byte, x: Byte, y: Byte, z: Byte := s.b3 as nat, s.b2 as nat, s.b1 as nat, s.b0 as nat;
    XorOfWords(a, b, c, d, w, x, y, z);
    XorValue(r, s);
  }

  lemma XorValue(r: Register, s: Register)
    ensures XorRegisters(r, s).Value()
         == Word(Xor(r.b3 as nat, s.b3 as nat), Xor(r.b2 as nat, s.b2 as nat), Xor(r.b1 as nat, s.b1 as nat), Xor(r.b0 as nat, s.b0 as nat))
  {
    hide Xor, Word;
    XorOfBytes(r.b3, s.b3);
    XorOfBytes(r.b2, s.b2);
    XorOfBytes(r.b1, s.b1);
    XorOfBytes(r.b0, s.b0);
  }

  function Shift(r: Register): Register {
    Register(r.b3 >> 1, (r.b2 >> 1) | (r.b3 << 7), (r.b1 >> 1) | (r.b2 << 7), (r.b0 >> 1) | (r.b1 << 7))
  }

  /** A bit shifted out of one byte becomes the top bit of the next. */
  lemma CarryIn(high: bv8, low: bv8)
    ensures ((low >> 1) | (high << 7)) as nat == ((low >> 1) as nat) + 128 * ((high & 1) as nat)
  {
  }

  lemma WordHalves(h3: nat, l3: nat, h2: nat, l2: nat, h1: nat, l1: nat, h0: nat, l0: nat)
    requires l0 < 2
    ensures var w := Word(2 * h3 + l3, 2 * h2 + l2, 2 * h1 + l1, 2 * h0 + l0);
      w / 2 == Word(h3, h2 + 128 * l3, h1 + 128 * l2, h0 + 128 * l1) && w % 2 == l0
  {
  }

  function High(a: bv8): nat {
    (a >> 1) as nat
  }

  function Low(a: bv8): nat {
    (a & 1) as nat
  }

  lemma ShiftValue(r: Register)
    ensures Shift(r).Value()
         == Word(High(r.b3), High(r.b2) + 128 * Low(r.b3), High(r.b1) + 128 * Low(r.b2), High(r.b0) + 128 * Low(r.b1))
  {
    hide Word;
    CarryIn(r.b3, r.b2);
    CarryIn(r.b2, r.b1);
    CarryIn(r.b1, r.b0);
  }

  lemma HalvesValue(r: Register)
    ensures r.Value()
         == Word(2 * High(r.b3) + Low(r.b3), 2 * High(r.b2) + Low(r.b2), 2 * High(r.b1) + Low(r.b1), 2 * High(r.b0) + Low(r.b0))
  {
    hide Word;
    Halves(r.b3);
    Halves(r.b2);
    Halves(r.b1);
    Halves(r.b0);
  }

  lemma ShiftHalves(r: Register)
    ensures Shift(r).Value() == r.Value() / 2
    ensures Low(r.b0) == r.Value() % 2
  {
    hide *;
    ShiftValue(r);
    HalvesValue(r);
    LowBit(r.b0);
    WordHalves(High(r.b3), Low(r.b3), High(r.b2), Low(r.b2), High(r.b1), Low(r.b1), High(r.b0), Low(r.b0));
  }

  lemma LowBit(a: bv8)
    ensures Low(a) < 2
    ensures a & 1 == 1 <==> Low(a) == 1
  {
  }

  // The generator of CRC-32/ISO-HDLC, 0x04C11DB7, bit-reversed.
  const GENERATOR: Register := Register(0xED, 0xB8, 0x83, 0x20)

  function Divide(r: Register): Register {
    if r.b0 & 1 == 1 then XorRegisters(GENERATOR, Shift(r)) else Shift(r)
  }

  lemma DivideIsStep(r: Register)
    ensures Divide(r).Value() == BitStep(r.Value())
  {
    hide Xor;
    ShiftHalves(r);
    LowBit(r.b0);
    XorOfRegisters(GENERATOR, Shift(r));
    assert GENERATOR.Value() == POLY;
  }

  function Divides(r: Register, n: nat): Register
    decreases n
  {
    if n == 0 then r else Divides(Divide(r), n - 1)
  }

  lemma {:induction false} DividesAreSteps(r: Register, n: nat)
    ensures Divides(r, n).Value() == BitSteps(r.Value(), n)
    decreases n
  {
    hide Divide, BitStep;
    if n > 0 {
      DivideIsStep(r);
      DividesAreSteps(Divide(r), n - 1);
    }
  }

  /** Feeding one byte. */
  function Fed(r: Register, b: bv8): Register {
    Divide(Divide(Divide(Divide(Divide(Divide(Divide(Divide(r.(b0 := r.b0 ^ b)))))))))
  }

  lemma FedDivides(r: Register, b: bv8)
    ensures Fed(r, b) == Divides(r.(b0 := r.b0 ^ b), 8)
  {
    hide Divide, Divides;
    EightDivides(r.(b0 := r.b0 ^ b));
  }

  lemma AddByte(r: Register, b: bv8)
    ensures Xor(r.Value(), b as nat) == r.(b0 := r.b0 ^ b).Value()
  {
    hide Xor, XorRegisters, Word;
    XorOfRegisters(r, Register(0, 0, 0, b));
    ByteAsRegister(b);
    XorLowByte(r, b);
  }

  lemma ByteAsRegister(b: bv8)
    ensures Register(0, 0, 0, b).Value() == b as nat
  {
  }

  lemma XorLowByte(r: Register, b: bv8)
    ensures XorRegisters(r, Register(0, 0, 0, b)) == r.(b0 := r.b0 ^ b)
  {
  }

  lemma FedIsTableStep(r: Register, b: bv8)
    ensures Fed(r, b).Value() == TableStep(r.Value(), b as nat)
  {
    hide *;
    FedDivides(r, b);
    AddByte(r, b);
    DividesAreSteps(r.(b0 := r.b0 ^ b), 8);
    TableStepIsSteps(r.Value(), b as nat);
  }

  lemma EightDivides(s: Register)
    ensures Divides(s, 8) == Divide(Divide(Divide(Divide(Divide(Divide(Divide(Divide(s))))))))
  {
    hide Divide;
    assert Divides(s, 8) == Divides(Divide(Divide(Divide(Divide(s)))), 4);
  }

  // ----- the check value -----

  // "123456789"
  const DIGITS: seq<Byte> := [0x31, 0x32, 0x33, 0x34, 0x35, 0x36, 0x37, 0x38, 0x39]

  /** What is left to fold from digit i on, by register. */
  ghost predicate Reaches(i: nat, r: Register) {
    i <= |DIGITS| && TableFold(PRESET.Value(), DIGITS) == TableFold(r.Value(), DIGITS[i..])
  }

  const PRESET: Register := Register(0xFF, 0xFF, 0xFF, 0xFF)

  lemma FoldOne(c: nat, data: seq<Byte>, i: nat)
    requires i < |data|
    ensures TableFold(c, data[i..]) == TableFold(TableStep(c, data[i]), data[i + 1..])
  {
    hide TableStep;
    assert data[i..][1..] == data[i + 1..];
  }

  lemma Next(i: nat, r: Register, b: bv8, after: Register)
    requires i < |DIGITS| && DIGITS[i] == b as Byte && Reaches(i, r) && Fed(r, b) == after
    ensures Reaches(i + 1, after)
  {
    hide Fed, TableStep, TableFold, Word;
    FedIsTableStep(r, b);
    FoldOne(r.Value(), DIGITS, i);
  }

  lemma AfterOne()
    requires Reaches(0, Register(0xFF, 0xFF, 0xFF, 0xFF))
    ensures Reaches(1, Register(0x7C, 0x23, 0x10, 0x48))
  {
    hide Reaches;
    Next(0, Register(0xFF, 0xFF, 0xFF, 0xFF), 0x31, Register(0x7C, 0x23, 0x10, 0x48));
  }

  lemma AfterTwo()
    requires Reaches(1, Register(0x7C, 0x23, 0x10, 0x48))
    ensures Reaches(2, Register(0xB0, 0xAC, 0xBB, 0x32))
  {
    hide Reaches;
    Next(1, Register(0x7C, 0x23, 0x10, 0x48), 0x32, Register(0xB0, 0xAC, 0xBB, 0x32));
  }

  lemma AfterThree()
    requires Reaches(2, Register(0xB0, 0xAC, 0xBB, 0x32))
    ensures Reaches(3, Register(0x77, 0xB7, 0x9C, 0x2D))
  {
    hide Reaches;
    Next(2, Register(0xB0, 0xAC, 0xBB, 0x32), 0x33, Register(0x77, 0xB7, 0x9C, 0x2D));
  }

  lemma AfterFour()
    requires Reaches(3, Register(0x77, 0xB7, 0x9C, 0x2D))
    ensures Reaches(4, Register(0x64, 0x1C, 0x1F, 0x5C))
  {
    hide Reaches;
    Next(3, Register(0x77, 0xB7, 0x9C, 0x2D), 0x34, Register(0x64, 0x1C, 0x1F, 0x5C));
  }

  lemma AfterFive()
    requires Reaches(4, Register(0x64, 0x1C, 0x1F, 0x5C))
    ensures Reaches(5, Register(0x34, 0x0A, 0xC5, 0xE3))
  {
    hide Reaches;
    Next(4, Register(0x64, 0x1C, 0x1F, 0x5C), 0x35, Register(0x34, 0x0A, 0xC5, 0xE3));
  }

  lemma AfterSix()
    requires Reaches(5, Register(0x34, 0x0A, 0xC5, 0xE3))
    ensures Reaches(6, Register(0xF6, 0x8D, 0x2C, 0x9E))
  {
    hide Reaches;
    Next(5, Register(0x34, 0x0A, 0xC5, 0xE3), 0x36, Register(0xF6, 0x8D, 0x2C, 0x9E));
  }

  lemma AfterSeven()
    requires Reaches(6, Register(0xF6, 0x8D, 0x2C, 0x9E))
    ensures Reaches(7, Register(0xAF, 0xFC, 0x96, 0x60))
  {
    hide Reaches;
    Next(6, Register(0xF6, 0x8D, 0x2C, 0x9E), 0x37, Register(0xAF, 0xFC, 0x96, 0x60));
  }

  lemma AfterEight()
    requires Reaches(7, Register(0xAF, 0xFC, 0x96, 0x60))
    ensures Reaches(8, Register(0x65, 0x1F, 0x25, 0x50))
  {
    hide Reaches;
    Next(7, Register(0xAF, 0xFC, 0x96, 0x60), 0x38, Register(0x65, 0x1F, 0x25, 0x50));
  }

  lemma AfterNine()
    requires Reaches(8, Register(0x65, 0x1F, 0x25, 0x50))
    ensures Reaches(9, Register(0x34, 0x0B, 0xC6, 0xD9))
  {
    hide Reaches;
    Next(8, Register(0x65, 0x1F, 0x25, 0x50), 0x39, Register(0x34, 0x0B, 0xC6, 0xD9));
  }

  lemma Start()
    ensures Reaches(0, PRESET)
  {
    assert DIGITS[0..] == DIGITS;
  }

  lemma Finish(r: Register)
    requires Reaches(9, r) && r == Register(0x34, 0x0B, 0xC6, 0xD9)
    ensures Crc32(DIGITS) == 0xCBF4_3926
  {
    hide TableStep, Xor;
    assert DIGITS[9..] == [];
    XorOfRegisters(r, PRESET);
    assert PRESET.Value() == ONES;
  }

  /** The checksum of "123456789" is the check value of CRC-32/ISO-HDLC. */
  lemma CheckValue()
    ensures Crc32([0x31, 0x32, 0x33, 0x34, 0x35, 0x36, 0x37, 0x38, 0x39]) == 0xCBF4_3926
  {
    hide Reaches, Crc32, TableFold;
    Start();
    AfterOne();
    AfterTwo();
    AfterThree();
    AfterFour();
    AfterFive();
    AfterSix();
    AfterSeven();
    AfterEight();
    AfterNine();
    Finish(Register(0x34, 0x0B, 0xC6, 0xD9));
  }
}
