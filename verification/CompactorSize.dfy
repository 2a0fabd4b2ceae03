/** The compacted journal never takes more bytes than the journal it came
    from: varints are written minimally, every survivor is re-encoded in no more
    bytes than it was read from, and the reserve hint shrinks to one byte. */
module CompactorSize {
  import opened Basics
  import opened Codec
  import opened Model
  import opened ReplayVm
  import opened Journal
  import opened Compaction
  import opened CompactorSpec

  // ----- numbers -----

  lemma Scaled(d: nat, p: nat)
    requires d < 128
    ensures d * p + p <= 128 * p && d * p >= 0
  {
    assert d * p + p == (d + 1) * p;
    assert (128 - (d + 1)) * p >= 0;
    assert (128 - (d + 1)) * p == 128 * p - (d + 1) * p;
  }

  lemma DigitFits(b: Byte, value: nat, i: nat)
    requires value < Pow128(i)
    ensures AddDigit(value, b, Pow128(i)) < Pow128(i + 1)
    ensures Pow128(i + 1) == Pow128(i) * 128
  {
    var sum := value + (b % 128) * Pow128(i);
    assert Pow128(i + 1) == 128 * Pow128(i);
    hide Pow128;
    Scaled(b % 128, Pow128(i));
    assert sum % TWO64 <= sum;
  }

  lemma {:induction false} ReadFits(s: seq<Byte>, i: nat, value: nat)
    requires i <= 10 && value < Pow128(i) && ReadVarintFrom(s, i, Pow128(i), value).Ok?
    ensures var (v, rest) := ReadVarintFrom(s, i, Pow128(i), value).value;
      |rest| < |s| && v < Pow128(i + |s| - |rest|)
    decreases 10 - i
  {
    hide AddDigit, Pow128;
    DigitFits(s[0], value, i);
    if s[0] >= 128 {
      ReadFits(s[1..], i + 1, AddDigit(value, s[0], Pow128(i)));
    }
  }

  /** A varint is written in no more bytes than it can be read from. */
  lemma VarintShrinks(s: seq<Byte>)
    requires ReadVarint(s).Ok?
    ensures |Varint(ReadVarint(s).value.0)| + |ReadVarint(s).value.1| <= |s|
  {
    assert Pow128(0) == 1;
    hide ReadVarintFrom, Varint;
    ReadFits(s, 0, 0);
    VarintBound(ReadVarint(s).value.0, |s| - |ReadVarint(s).value.1|);
  }

  lemma VarintU32Shrinks(s: seq<Byte>)
    requires ReadVarintU32(s).Ok?
    ensures |Varint(ReadVarintU32(s).value.0)| + |ReadVarintU32(s).value.1| <= |s|
  {
    hide ReadVarint, Varint;
    VarintShrinks(s);
  }

  lemma SVarintShrinks(s: seq<Byte>)
    requires ReadSVarint(s).Ok?
    ensures |SVarint(ReadSVarint(s).value.0)| + |ReadSVarint(s).value.1| <= |s|
  {
    hide ReadVarint, Varint;
    VarintShrinks(s);
    ZigZagBijection(0, ReadVarint(s).value.0);
  }

  lemma {:induction false} VarintMonotone(v: nat, w: nat)
    requires v <= w
    ensures |Varint(v)| <= |Varint(w)|
    decreases w
  {
    if w >= 128 && v >= 128 {
      VarintMonotone(v / 128, w / 128);
    }
  }

  // ----- values and operations -----

  lemma {:induction false} VarintListShrinks(s: seq<Byte>, n: nat)
    requires ReadVarintList(s, n).Ok?
    ensures |VarintList(ReadVarintList(s, n).value.0)| + |ReadVarintList(s, n).value.1| <= |s|
    decreases n
  {
    hide ReadVarintU32, Varint;
    if n > 0 {
      VarintU32Shrinks(s);
      var (x, s1) := ReadVarintU32(s).value;
      VarintListShrinks(s1, n - 1);
      assert ReadVarintList(s, n).value.0[1..] == ReadVarintList(s1, n - 1).value.0;
    }
  }

  lemma ValueShrinks(s: seq<Byte>, t: ValueType, lim: Limits)
    requires ReadValue(s, t, lim).Ok?
    ensures |ValueBytes(ReadValue(s, t, lim).value.0)| + |ReadValue(s, t, lim).value.1| <= |s|
  {
    hide ReadVarintU32, ReadSVarint, Varint, SVarint, VarintList, ReadVarintList;
    match t {
      case TInt => SVarintShrinks(s);
      case TFloat =>
      case TAtom => VarintU32Shrinks(s);
      case TRef => VarintU32Shrinks(s);
      case TList =>
        VarintU32Shrinks(s);
        var (n, s1) := ReadVarintU32(s).value;
        VarintListShrinks(s1, n);
    }
  }

  lemma OneShrinks(s: seq<Byte>)
    requires ReadVarintU32(s).Ok?
    ensures var (v, rest) := ReadVarintU32(s).value; 1 <= |Varint(v)| && |Varint(v)| + |rest| <= |s|
  {
    hide Varint, ReadVarint;
    VarintU32Shrinks(s);
  }

  lemma TwoShrink(s: seq<Byte>)
    requires ReadVarintU32(s).Ok? && ReadVarintU32(ReadVarintU32(s).value.1).Ok?
    ensures var (a, s1) := ReadVarintU32(s).value;
      var (b, s2) := ReadVarintU32(s1).value;
      |Varint(a)| + |Varint(b)| + |s2| <= |s| && 1 <= |Varint(b)|
  {
    hide Varint, ReadVarint, ReadVarintU32;
    OneShrinks(s);
    OneShrinks(ReadVarintU32(s).value.1);
  }

  lemma SetFieldShrinks(schema: Schema, kinds: seq<U32>, lim: Limits, s: seq<Byte>)
    requires ReadSetField(schema, kinds, lim, s).Ok?
    ensures var (op, rest) := ReadSetField(schema, kinds, lim, s).value;
      op.SetField? && |OperandBytes(op)| + |rest| <= |s|
  {
    hide Varint, ReadVarintU32, ReadValue, ValueBytes, WireType;
    TwoShrink(s);
    var (node, s1) := ReadVarintU32(s).value;
    var (field, s2) := ReadVarintU32(s1).value;
    ValueShrinks(s2, WireType(schema, kinds, node, field), lim);
  }

  lemma LinkRefShrinks(s: seq<Byte>)
    requires ReadLinkRef(s).Ok?
    ensures var (op, rest) := ReadLinkRef(s).value; op.LinkRef? && |OperandBytes(op)| + |rest| <= |s|
  {
    hide Varint, ReadVarintU32;
    TwoShrink(s);
    OneShrinks(ReadVarintU32(ReadVarintU32(s).value.1).value.1);
  }

  lemma ZeroIsOneByte()
    ensures |Varint(0)| == 1
  {
  }

  lemma OperandsShrink(schema: Schema, kinds: seq<U32>, lim: Limits, raw: Byte, s: seq<Byte>)
    requires ReadOperands(schema, kinds, lim, raw, s).Ok?
    ensures var (op, rest) := ReadOperands(schema, kinds, lim, raw, s).value;
      |OperandBytes(Emitted(op))| + |rest| <= |s|
  {
    hide Varint, ReadVarintU32, ReadSetField, ReadLinkRef;
    ZeroIsOneByte();
    if raw == 0x02 {
      SetFieldShrinks(schema, kinds, lim, s);
    } else if raw == 0x06 {
      LinkRefShrinks(s);
    } else if raw == 0x01 || raw == 0x03 || raw == 0x09 {
      TwoShrink(s);
    } else if raw == 0x05 || raw == 0x07 || raw == 0x08 {
      OneShrinks(s);
    }
  }

  /** A decoded operation is emitted in no more bytes than it was read from. */
  lemma OpShrinks(schema: Schema, kinds: seq<U32>, lim: Limits, s: seq<Byte>)
    requires ReadOp(schema, kinds, lim, s).Ok?
    ensures |OpBytes(Emitted(ReadOp(schema, kinds, lim, s).value.0))| + |ReadOp(schema, kinds, lim, s).value.1| <= |s|
  {
    hide ReadOperands, OperandBytes;
    OperandsShrink(schema, kinds, lim, s[0], s[1..]);
  }

  // ----- journals -----

  /** Every operation in its emitted form, removed ones included. */
  function EmittedAll(ops: seq<Op>): (r: seq<Op>)
    ensures |r| == |ops|
  {
    seq(|ops|, i requires 0 <= i < |ops| => Emitted(ops[i]))
  }

  lemma {:induction false} OpsShrink(schema: Schema, ds: DecodeState, s: seq<Byte>, count: nat)
    requires DecodeOps(schema, ds, s, count).Ok?
    ensures var r := DecodeOps(schema, ds, s, count).value;
      |OpsBytes(EmittedAll(OpsOf(r.0.0)))| + |r.1| <= |s|
    decreases count
  {
    hide ReadOp, Track, OpBytes, Emitted;
    if count > 0 {
      var op := ReadOp(schema, ds.kinds, DEFAULT_LIMITS, s).value.0;
      TrackKeepsOp(ds, op);
      OpShrinks(schema, ds.kinds, DEFAULT_LIMITS, s);
      var ((rec, ds1), s1) := DecodeOp(schema, ds, s).value;
      OpsShrink(schema, ds1, s1, count - 1);
      var recs := DecodeOps(schema, ds1, s1, count - 1).value.0.0;
      var all := EmittedAll(OpsOf([rec] + recs));
      assert all[0] == Emitted(op) && all[1..] == EmittedAll(OpsOf(recs));
    }
  }

  lemma {:induction false} SurvivorsShrink(ops: seq<Op>, i: nat)
    requires i <= |ops|
    ensures |OpsBytes(Survivors(ops, i))| <= |OpsBytes(EmittedAll(ops)[..i])|
  {
    hide FateOf, OpBytes, OpsBytes, Emitted;
    if i == 0 {
      assert EmittedAll(ops)[..0] == [];
    } else {
      SurvivorsShrink(ops, i - 1);
      var last := [Emitted(ops[i - 1])];
      assert EmittedAll(ops)[..i] == EmittedAll(ops)[..i - 1] + last;
      OpsBytesAppend(EmittedAll(ops)[..i - 1], last);
      if FateOf(ops, i - 1) == Kept {
        OpsBytesAppend(Survivors(ops, i - 1), last);
      } else {
        assert Survivors(ops, i) == Survivors(ops, i - 1);
      }
    }
  }

  /** Whatever bytes compact, the output takes no more of them. */
  lemma CompactNeverGrows(schema: Schema, s: seq<Byte>)
    requires Compact(schema, s).Ok?
    ensures |Compact(schema, s).value.0| <= |s|
  {
    hide ReadVarintU32, DecodeOps, Varint, OpsBytes, Survivors;
    var (count, s1) := ReadVarintU32(s).value;
    var ops := OpsOf(DecodeJournal(schema, s).value);
    VarintU32Shrinks(s);
    VarintMonotone(|Compacted(ops)|, count);
    OpsShrink(schema, START, s1, count);
    SurvivorsShrink(ops, |ops|);
    assert EmittedAll(ops)[..|ops|] == EmittedAll(ops);
  }
}
