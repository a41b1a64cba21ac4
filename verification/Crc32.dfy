/**
 CRC-32/ISO-HDLC, the integrity field of an MVP transport frame.

 The source computes it with two lookups per byte in a table of sixteen words. The reference here is
 the definition of the code: reflected polynomial division, one message bit at a time. The method
 `Update` is proved equal to that division, and the algebra of the code is proved about it: it is
 linear, it is a bijection of the accumulator, it detects every error burst of up to 32 bits, and a
 trailer is the right one exactly when the accumulator ends at the good-FCS constant.
 */
module Crc32 {
  import opened BitFold

  const POLYNOMIAL: bv32 := 0xEDB8_8320
  const ALL_ONES: bv32 := 0xFFFF_FFFF
  const TOP_BIT: bv32 := 0x8000_0000

  const NIBBLE_TABLE: seq<bv32> := [
    0x0000_0000, 0x1DB7_1064, 0x3B6E_20C8, 0x26D9_30AC, 0x76DC_4190, 0x6B6B_51F4, 0x4DB2_6158, 0x5005_713C,
    0xEDB8_8320, 0xF00F_9344, 0xD6D6_A3E8, 0xCB61_B38C, 0x9B64_C2B0, 0x86D3_D2D4, 0xA00A_E278, 0xBDBD_F21C]

  // ---------------------------------------------------------------------------
  // The reference: division of a bit string
  // ---------------------------------------------------------------------------

  function Xor(a: bv32, b: bv32): bv32 {
    a ^ b
  }

  /** One division step with a zero message bit. */
  function Shift(crc: bv32): bv32 {
    if crc & 1 == 1 then (crc >> 1) ^ POLYNOMIAL else crc >> 1
  }

  /** The division step undone. */
  function Unshift(crc: bv32): bv32 {
    if crc & TOP_BIT != 0 then ((crc ^ POLYNOMIAL) << 1) | 1 else crc << 1
  }

  const DIVIDER := Register(Shift, Unshift, Xor, 1)

  function Divide(crc: bv32, bits: seq<bool>): bv32 {
    Fold(DIVIDER, crc, bits)
  }

  predicate Has(b: bv8, mask: bv8) {
    b & mask != 0
  }

  function Mask(i: nat): bv8 {
    if i == 0 then 1 else if i == 1 then 2 else if i == 2 then 4 else if i == 3 then 8
    else if i == 4 then 16 else if i == 5 then 32 else if i == 6 then 64 else 128
  }

  function BitAt(b: bv8, i: nat): bool {
    Has(b, Mask(i))
  }

  function ByteBits(b: bv8): (bits: seq<bool>)
    ensures |bits| == 8
    ensures forall i :: 0 <= i < 8 ==> bits[i] == BitAt(b, i)
  {
    seq(8, i requires 0 <= i < 8 => BitAt(b, i))
  }

  /** The message bits in processing order: least significant bit of each byte first. */
  function Bits(data: seq<bv8>): (bits: seq<bool>)
    ensures |bits| == 8 * |data|
  {
    if data == [] then [] else ByteBits(data[0]) + Bits(data[1..])
  }

  function Init(): bv32 {
    ALL_ONES
  }

  function Finish(crc: bv32): bv32 {
    Xor(crc, ALL_ONES)
  }

  /** The frame check sequence of a message. */
  function Checksum(data: seq<bv8>): bv32 {
    Finish(Divide(Init(), Bits(data)))
  }

  // ---------------------------------------------------------------------------
  // Bit-vector facts
  // ---------------------------------------------------------------------------

  lemma XorHalves(a: bv32, b: bv32)
    ensures (a ^ b) & 1 == (a & 1) ^ (b & 1)
    ensures (a ^ b) >> 1 == (a >> 1) ^ (b >> 1)
  {
  }

  lemma XorFourWays(u: bv32, v: bv32, p: bv32)
    ensures (u ^ p) ^ (v ^ p) == u ^ v
    ensures (u ^ p) ^ v == (u ^ v) ^ p
    ensures u ^ (v ^ p) == (u ^ v) ^ p
  {
  }

  lemma LowBit(a: bv32)
    ensures a & 1 == 0 || a & 1 == 1
  {
  }

  lemma ShiftIsAdditive(a: bv32, b: bv32)
    ensures Shift(a ^ b) == Shift(a) ^ Shift(b)
  {
    XorHalves(a, b);
    LowBit(a);
    LowBit(b);
    XorFourWays(a >> 1, b >> 1, POLYNOMIAL);
  }

  lemma OddRoundTrip(crc: bv32)
    requires crc & 1 == 1
    ensures ((crc >> 1) ^ POLYNOMIAL) & TOP_BIT != 0
    ensures ((((crc >> 1) ^ POLYNOMIAL) ^ POLYNOMIAL) << 1) | 1 == crc
  {
  }

  lemma EvenRoundTrip(crc: bv32)
    requires crc & 1 != 1
    ensures (crc >> 1) & TOP_BIT == 0
    ensures (crc >> 1) << 1 == crc
  {
  }

  lemma HighRoundTrip(crc: bv32)
    requires crc & TOP_BIT != 0
    ensures (((crc ^ POLYNOMIAL) << 1) | 1) & 1 == 1
    ensures ((((crc ^ POLYNOMIAL) << 1) | 1) >> 1) ^ POLYNOMIAL == crc
  {
  }

  lemma LowRoundTrip(crc: bv32)
    requires crc & TOP_BIT == 0
    ensures (crc << 1) & 1 != 1
    ensures (crc << 1) >> 1 == crc
  {
  }

  lemma UnshiftUndoesShift(crc: bv32)
    ensures Unshift(Shift(crc)) == crc
  {
    if crc & 1 == 1 {
      OddRoundTrip(crc);
    } else {
      EvenRoundTrip(crc);
    }
  }

  lemma ShiftUndoesUnshift(crc: bv32)
    ensures Shift(Unshift(crc)) == crc
  {
    if crc & TOP_BIT != 0 {
      HighRoundTrip(crc);
    } else {
      LowRoundTrip(crc);
    }
  }

  lemma XorTwice(u: bv32, b: bv32)
    ensures (u ^ b) ^ b == u
  {
  }

  lemma DividerDistributes()
    ensures ShiftDistributes(DIVIDER)
  {
    forall u, v
      ensures Shift(Xor(u, v)) == Xor(Shift(u), Shift(v))
    {
      ShiftIsAdditive(u, v);
    }
  }

  lemma DividerOnesCancel()
    ensures forall u, v :: OnesCancel(DIVIDER, u, v)
  {
    forall u, v
      ensures OnesCancel(DIVIDER, u, v)
    {
      assert (u ^ 1) ^ (v ^ 1) == u ^ v;
    }
  }

  lemma XorCommutes(u: bv32, v: bv32)
    ensures Xor(u, v) == Xor(v, u)
  {
  }

  lemma DividerOneMovesLeft()
    ensures forall u, v :: OneMovesLeft(DIVIDER, u, v)
  {
    DividerOneMovesRight();
    forall u, v
      ensures OneMovesLeft(DIVIDER, u, v)
    {
      XorCommutes(Xor(u, 1), v);
      assert OneMovesRight(DIVIDER, v, u);
      XorCommutes(u, v);
    }
  }

  lemma DividerOneMovesRight()
    ensures forall u, v :: OneMovesRight(DIVIDER, u, v)
  {
    forall u, v
      ensures OneMovesRight(DIVIDER, u, v)
    {
      assert u ^ (v ^ 1) == (u ^ v) ^ 1;
    }
  }

  lemma DividerIsAdditive()
    ensures Additive(DIVIDER)
  {
    DividerDistributes();
    DividerOnesCancel();
    DividerOneMovesLeft();
    DividerOneMovesRight();
  }

  lemma DividerIsReversible()
    ensures Reversible(DIVIDER)
  {
    forall u
      ensures Unshift(Shift(u)) == u
      ensures Shift(Unshift(u)) == u
      ensures Xor(Xor(u, 1), 1) == u
    {
      UnshiftUndoesShift(u);
      ShiftUndoesUnshift(u);
      XorTwice(u, 1);
    }
  }

  lemma XorIsZero(a: bv32, b: bv32)
    ensures Xor(a, b) == 0 <==> a == b
  {
    XorTwice(a, b);
    XorCommutes(0, b);
    XorZero(b);
    XorSelf(a);
  }

  lemma XorSelf(a: bv32)
    ensures Xor(a, a) == 0
  {
  }

  lemma XorZero(a: bv32)
    ensures Xor(a, 0) == a
  {
  }

  lemma XorAssociates(a: bv32, b: bv32, c: bv32)
    ensures Xor(Xor(a, b), c) == Xor(a, b ^ c)
  {
    assert (a ^ b) ^ c == a ^ (b ^ c);
  }

  // ---------------------------------------------------------------------------
  // Chunking, linearity, bijectivity
  // ---------------------------------------------------------------------------

  lemma {:induction false} BitsConcat(a: seq<bv8>, b: seq<bv8>)
    ensures Bits(a + b) == Bits(a) + Bits(b)
  {
    if a == [] {
      assert a + b == b;
    } else {
      assert (a + b)[1..] == a[1..] + b;
      BitsConcat(a[1..], b);
    }
  }

  /** Processing a message in chunks gives the same accumulator as processing it whole. */
  lemma UpdateInChunks(crc: bv32, a: seq<bv8>, b: seq<bv8>)
    ensures Divide(crc, Bits(a + b)) == Divide(Divide(crc, Bits(a)), Bits(b))
  {
    BitsConcat(a, b);
    FoldConcat(DIVIDER, crc, Bits(a), Bits(b));
  }

  function XorBytes(a: seq<bv8>, b: seq<bv8>): (x: seq<bv8>)
    requires |a| == |b|
    ensures |x| == |a|
    ensures forall i :: 0 <= i < |x| ==> x[i] == a[i] ^ b[i]
  {
    seq(|a|, i requires 0 <= i < |a| => a[i] ^ b[i])
  }

  lemma HasOfXor(a: bv8, b: bv8, mask: bv8)
    requires mask & (mask - 1) == 0
    ensures Has(a ^ b, mask) == (Has(a, mask) != Has(b, mask))
  {
  }

  lemma BitAtXor(a: bv8, b: bv8, i: nat)
    ensures BitAt(a ^ b, i) == (BitAt(a, i) != BitAt(b, i))
  {
    HasOfXor(a, b, Mask(i));
  }

  lemma ByteBitsXor(a: bv8, b: bv8)
    ensures ByteBits(a ^ b) == XorBits(ByteBits(a), ByteBits(b))
  {
    forall i | 0 <= i < 8
      ensures ByteBits(a ^ b)[i] == XorBits(ByteBits(a), ByteBits(b))[i]
    {
      BitAtXor(a, b, i);
    }
  }

  lemma XorBytesFirst(a: seq<bv8>, b: seq<bv8>)
    requires |a| == |b| && a != []
    ensures XorBytes(a, b)[0] == a[0] ^ b[0] && XorBytes(a, b)[1..] == XorBytes(a[1..], b[1..])
  {
  }

  lemma XorBitsConcat(a: seq<bool>, b: seq<bool>, c: seq<bool>, d: seq<bool>)
    requires |a| == |b| && |c| == |d|
    ensures XorBits(a + c, b + d) == XorBits(a, b) + XorBits(c, d)
  {
  }

  lemma BitsFirst(a: seq<bv8>)
    requires a != []
    ensures Bits(a) == ByteBits(a[0]) + Bits(a[1..])
  {
  }

  lemma {:induction false} BitsXor(a: seq<bv8>, b: seq<bv8>)
    requires |a| == |b|
    ensures Bits(XorBytes(a, b)) == XorBits(Bits(a), Bits(b))
  {
    if a == [] {
    } else {
      hide ByteBits;
      hide Bits;
      hide XorBytes;
      XorBytesFirst(a, b);
      BitsFirst(a);
      BitsFirst(b);
      BitsFirst(XorBytes(a, b));
      BitsXor(a[1..], b[1..]);
      ByteBitsXor(a[0], b[0]);
      XorBitsConcat(ByteBits(a[0]), ByteBits(b[0]), Bits(a[1..]), Bits(b[1..]));
    }
  }

  lemma DivideIsLinear(c: bv32, d: bv32, a: seq<bool>, b: seq<bool>)
    requires |a| == |b|
    ensures Divide(Xor(c, d), XorBits(a, b)) == Xor(Divide(c, a), Divide(d, b))
  {
    DividerIsAdditive();
    AdditiveIsLinear(DIVIDER);
    FoldIsLinear(DIVIDER, c, d, a, b);
  }

  /** `Update` is linear over exclusive or, in the accumulator and the message together. */
  lemma UpdateIsLinear(c: bv32, d: bv32, a: seq<bv8>, b: seq<bv8>)
    requires |a| == |b|
    ensures Divide(Xor(c, d), Bits(XorBytes(a, b))) == Xor(Divide(c, Bits(a)), Divide(d, Bits(b)))
  {
    BitsXor(a, b);
    DivideIsLinear(c, d, Bits(a), Bits(b));
  }

  /** For every message, `Update` is a bijection of the accumulator, with the inverse shown. */
  lemma UpdateIsBijective(crc: bv32, bits: seq<bool>)
    ensures Divide(Unfold(DIVIDER, crc, bits), bits) == crc
    ensures Unfold(DIVIDER, Divide(crc, bits), bits) == crc
  {
    DividerIsReversible();
    FoldIsBijective(DIVIDER, crc, bits);
  }

  // ---------------------------------------------------------------------------
  // Words of up to 32 bits
  // ---------------------------------------------------------------------------

  function Half(w: bv32): bv32 {
    w >> 1
  }

  /** The word whose only set bit is bit `n`, for `n` up to 31. */
  function Unit(n: nat): bv32 {
    Iterate(Half, TOP_BIT, if n < 31 then 31 - n else 0)
  }

  lemma UnitIsHalf(n: nat)
    requires n < 31
    ensures Unit(n) == Half(Unit(n + 1))
  {
    IterateAdds(Half, TOP_BIT, 30 - n, 1);
  }

  lemma PlusFour(f: bv32 -> bv32, w: bv32, n: nat)
    ensures Iterate(f, w, n + 4) == Iterate(f, f(f(f(f(w)))), n)
  {
    var w1 := f(w);
    var w2 := f(w1);
    var w3 := f(w2);
    assert Iterate(f, w, n + 4) == Iterate(f, w1, n + 3);
    assert Iterate(f, w1, n + 3) == Iterate(f, w2, n + 2);
    assert Iterate(f, w2, n + 2) == Iterate(f, w3, n + 1);
  }

  lemma FourHalves(w: bv32)
    ensures Half(Half(Half(Half(w)))) == w >> 4
  {
  }

  lemma LowUnits()
    ensures Unit(0) == 1 && Unit(1) == 2 && Unit(2) == 4 && Unit(3) == 8
    ensures Unit(4) == 16 && Unit(5) == 32 && Unit(6) == 64 && Unit(7) == 128
  {
    PlusFour(Half, TOP_BIT, 20);
    FourHalves(TOP_BIT);
    PlusFour(Half, 0x0800_0000, 16);
    FourHalves(0x0800_0000);
    PlusFour(Half, 0x0080_0000, 12);
    FourHalves(0x0080_0000);
    PlusFour(Half, 0x0008_0000, 8);
    FourHalves(0x0008_0000);
    PlusFour(Half, 0x0000_8000, 4);
    FourHalves(0x0000_8000);
    PlusFour(Half, 0x0000_0800, 0);
    FourHalves(0x0000_0800);
    assert Unit(7) == 128;
    UnitIsHalf(6);
    assert Unit(6) == 64;
    UnitIsHalf(5);
    assert Unit(5) == 32;
    UnitIsHalf(4);
    assert Unit(4) == 16;
    UnitIsHalf(3);
    assert Unit(3) == 8;
    UnitIsHalf(2);
    assert Unit(2) == 4;
    UnitIsHalf(1);
    assert Unit(1) == 2;
    UnitIsHalf(0);
  }

  lemma HalfOfPower(u: bv32)
    requires u & (u - 1) == 0
    ensures Half(u) & (Half(u) - 1) == 0
    ensures Half(u) != 0 ==> u & 1 == 0
  {
  }

  lemma {:induction false} UnitIsPower(n: nat)
    ensures Unit(n) & (Unit(n) - 1) == 0
    decreases 31 - n
  {
    if n < 31 {
      UnitIsPower(n + 1);
      UnitIsHalf(n);
      HalfOfPower(Unit(n + 1));
    }
  }

  lemma {:induction false} UnitIsNonzero(n: nat)
    ensures Unit(n) != 0
    decreases n
  {
    if n == 0 {
      LowUnits();
    } else if n < 32 {
      UnitIsNonzero(n - 1);
      UnitIsHalf(n - 1);
    }
  }

  lemma ShiftOfUnit(n: nat)
    requires 0 < n < 32
    ensures Shift(Unit(n)) == Unit(n - 1)
  {
    UnitIsPower(n);
    UnitIsNonzero(n - 1);
    UnitIsHalf(n - 1);
    HalfOfPower(Unit(n));
  }

  lemma {:induction false} UnitShiftsDownToOne(n: nat)
    requires n < 32
    ensures Iterate(Shift, Unit(n), n) == 1
    decreases n
  {
    if n == 0 {
      LowUnits();
    } else {
      ShiftOfUnit(n);
      UnitShiftsDownToOne(n - 1);
    }
  }

  /** Feeding up to 32 bits one at a time is folding them in as one word and then shifting. */
  lemma FeedWord(crc: bv32, bits: seq<bool>)
    requires |bits| <= 32
    ensures Divide(crc, bits) == Iterate(Shift, Gather(Xor, Unit, crc, bits), |bits|)
  {
    DividerDistributes();
    forall n: nat | n < |bits|
      ensures Iterate(Shift, Unit(n), n) == 1
    {
      UnitShiftsDownToOne(n);
    }
    FeedAtOnce(DIVIDER, Unit, crc, bits);
  }

  lemma BelowNextUnit(w: bv32, u: bv32, next: bv32)
    requires next & (next - 1) == 0 && u == Half(next) && u != 0 && w < u
    ensures w < next && Xor(w, u) < next
  {
  }

  lemma {:induction false} WordIsBelowUnit(bits: seq<bool>)
    requires |bits| <= 31
    ensures Gather(Xor, Unit, 0, bits) < Unit(|bits|)
    decreases |bits|
  {
    if bits == [] {
      LowUnits();
    } else {
      var last := |bits| - 1;
      WordIsBelowUnit(bits[..last]);
      UnitIsPower(|bits|);
      UnitIsNonzero(last);
      UnitIsHalf(last);
      BelowNextUnit(Gather(Xor, Unit, 0, bits[..last]), Unit(last), Unit(|bits|));
    }
  }

  /** A word of at most 32 bits that are not all clear is not zero. */
  lemma {:induction false} WordIsNonzero(bits: seq<bool>, i: nat)
    requires |bits| <= 32 && i < |bits| && bits[i]
    ensures Gather(Xor, Unit, 0, bits) != 0
    decreases |bits|
  {
    var last := |bits| - 1;
    if bits[last] {
      WordIsBelowUnit(bits[..last]);
      XorIsZero(Gather(Xor, Unit, 0, bits[..last]), Unit(last));
    } else {
      WordIsNonzero(bits[..last], i);
    }
  }

  // ---------------------------------------------------------------------------
  // The nibble table
  // ---------------------------------------------------------------------------

  lemma LowNibble(crc: bv32)
    ensures (crc & 0x0F) as int < 16
  {
    assert crc & 0x0F < 16;
  }

  function NibbleStep(crc: bv32): bv32 {
    LowNibble(crc);
    (crc >> 4) ^ NIBBLE_TABLE[(crc & 0x0F) as int]
  }

  /** Each table entry holds the effect of four division steps. */
  lemma NibbleIsFourShifts(crc: bv32)
    ensures NibbleStep(crc) == Shift(Shift(Shift(Shift(crc))))
  {
    LowNibble(crc);
    var low := crc & 0x0F;
    assert low < 16;
    if low == 0 {
    } else if low == 1 {
    } else if low == 2 {
    } else if low == 3 {
    } else if low == 4 {
    } else if low == 5 {
    } else if low == 6 {
    } else if low == 7 {
    } else if low == 8 {
    } else if low == 9 {
    } else if low == 10 {
    } else if low == 11 {
    } else if low == 12 {
    } else if low == 13 {
    } else if low == 14 {
    } else {
      assert low == 15;
    }
  }

  /** What the loop of the source does with one message byte. */
  function NibbleByte(crc: bv32, b: bv8): bv32 {
    NibbleStep(NibbleStep(crc ^ (b as bv32)))
  }

  lemma SplitByte(b: bv8, low: bv8, bit: bv8)
    requires bit & (bit - 1) == 0 && low & bit == 0
    ensures (b & (low | bit)) as bv32 == if Has(b, bit) then ((b & low) as bv32) ^ (bit as bv32) else (b & low) as bv32
  {
  }

  /** The low `k` bits of a byte. */
  function LowPart(b: bv8, k: nat): bv32 {
    (b & (if k >= 8 then 255 else Mask(k) - 1)) as bv32
  }

  lemma LowPartGrows(b: bv8, k: nat)
    requires k < 8
    ensures LowPart(b, k + 1) == if BitAt(b, k) then LowPart(b, k) ^ Unit(k) else LowPart(b, k)
  {
    LowUnits();
    SplitByte(b, Mask(k) - 1, Mask(k));
  }

  lemma AddNextBit(w: bv32, b: bv8, k: nat)
    requires k < 8
    ensures Xor(w, LowPart(b, k + 1))
            == if BitAt(b, k) then Xor(Xor(w, LowPart(b, k)), Unit(k)) else Xor(w, LowPart(b, k))
  {
    LowPartGrows(b, k);
    XorAssociates(w, LowPart(b, k), Unit(k));
  }

  lemma GatherByte(w: bv32, b: bv8)
    ensures Gather(Xor, Unit, w, ByteBits(b)) == Xor(w, b as bv32)
  {
    var part := (k: nat) => LowPart(b, k);
    forall k: nat | k < 8
      ensures Xor(w, part(k + 1))
              == if ByteBits(b)[k] then Xor(Xor(w, part(k)), Unit(k)) else Xor(w, part(k))
    {
      AddNextBit(w, b, k);
    }
    XorZero(w);
    GatherIsSum(Xor, Unit, part, w, ByteBits(b));
    assert part(8) == b as bv32 by {
      WholeByte(b);
    }
  }

  lemma WholeByte(b: bv8)
    ensures LowPart(b, 0) == 0
    ensures LowPart(b, 8) == b as bv32
  {
    assert b & 255 == b;
  }

  lemma DivideByte(crc: bv32, b: bv8)
    ensures Divide(crc, ByteBits(b)) == Iterate(Shift, crc ^ (b as bv32), 8)
  {
    FeedWord(crc, ByteBits(b));
    GatherByte(crc, b);
  }

  /** The loop body of the source equals eight bitwise division steps. */
  lemma ByteStep(crc: bv32, b: bv8)
    ensures NibbleByte(crc, b) == Divide(crc, ByteBits(b))
  {
    var c := crc ^ (b as bv32);
    DivideByte(crc, b);
    NibbleIsFourShifts(c);
    NibbleIsFourShifts(NibbleStep(c));
    PlusFour(Shift, c, 4);
    PlusFour(Shift, NibbleStep(c), 0);
  }

  lemma DivideFirst(crc: bv32, data: seq<bv8>)
    requires data != []
    ensures Divide(crc, Bits(data)) == Divide(NibbleByte(crc, data[0]), Bits(data[1..]))
  {
    ByteStep(crc, data[0]);
    FoldConcat(DIVIDER, crc, ByteBits(data[0]), Bits(data[1..]));
  }

  // ---------------------------------------------------------------------------
  // The operations of the source
  // ---------------------------------------------------------------------------

  /** The table-driven loop computes polynomial division of the message bits. */
  method Update(start: bv32, data: seq<bv8>) returns (crc: bv32)
    ensures crc == Divide(start, Bits(data))
  {
    crc := start;
    var index := 0;
    while index < |data|
      invariant 0 <= index <= |data|
      invariant Divide(start, Bits(data)) == Divide(crc, Bits(data[index..]))
    {
      DivideFirst(crc, data[index..]);
      assert data[index..][1..] == data[index + 1..];
      ghost var next := NibbleByte(crc, data[index]);
      crc := crc ^ (data[index] as bv32);
      crc := NibbleStep(crc);
      crc := NibbleStep(crc);
      assert crc == next;
      index := index + 1;
    }
    assert data[index..] == [];
  }

  method Compute(data: seq<bv8>) returns (value: bv32)
    ensures value == Checksum(data)
  {
    var crc := Update(Init(), data);
    value := Finish(crc);
  }

  // ---------------------------------------------------------------------------
  // The start value
  // ---------------------------------------------------------------------------

  lemma EmptyMessageHasZeroChecksum()
    ensures Checksum([]) == 0
  {
    assert Bits([]) == [];
  }

  lemma ByteChangesAllOnes(b: bv8)
    ensures NibbleByte(ALL_ONES, b) != ALL_ONES
  {
  }

  /** The all-ones start at work: a byte in front of any message, a zero byte included, changes its checksum. */
  lemma LeadingByteIsSeen(b: bv8, data: seq<bv8>)
    ensures Checksum([b] + data) != Checksum(data)
  {
    var start, behind := Init(), NibbleByte(Init(), b);
    DivideFirst(start, [b] + data);
    assert ([b] + data)[1..] == data;
    ByteChangesAllOnes(b);
    UpdateIsBijective(start, Bits(data));
    UpdateIsBijective(behind, Bits(data));
    FinishIsInjective(Divide(start, Bits(data)), Divide(behind, Bits(data)));
  }

  const CHECK_MESSAGE: seq<bv8> := [0x31, 0x32, 0x33, 0x34, 0x35, 0x36, 0x37, 0x38, 0x39]

  lemma FirstCheckBytes()
    ensures NibbleByte(ALL_ONES, 0x31) == 0x7C23_1048
    ensures NibbleByte(0x7C23_1048, 0x32) == 0xB0AC_BB32
    ensures NibbleByte(0xB0AC_BB32, 0x33) == 0x77B7_9C2D
  {
  }

  lemma MiddleCheckBytes()
    ensures NibbleByte(0x77B7_9C2D, 0x34) == 0x641C_1F5C
    ensures NibbleByte(0x641C_1F5C, 0x35) == 0x340A_C5E3
    ensures NibbleByte(0x340A_C5E3, 0x36) == 0xF68D_2C9E
  {
  }

  lemma LastCheckBytes()
    ensures NibbleByte(0xF68D_2C9E, 0x37) == 0xAFFC_9660
    ensures NibbleByte(0xAFFC_9660, 0x38) == 0x651F_2550
    ensures NibbleByte(0x651F_2550, 0x39) == 0x340B_C6D9
  {
  }

  /** Three bytes of a message taken in. */
  lemma DivideThree(crc: bv32, data: seq<bv8>, i: nat)
    requires i + 3 <= |data|
    ensures Divide(crc, Bits(data[i..]))
         == Divide(NibbleByte(NibbleByte(NibbleByte(crc, data[i]), data[i + 1]), data[i + 2]), Bits(data[i + 3..]))
  {
    hide NibbleByte;
    var one := NibbleByte(crc, data[i]);
    assert data[i..][1..] == data[i + 1..] && data[i + 1..][1..] == data[i + 2..];
    assert data[i + 2..][1..] == data[i + 3..];
    DivideFirst(crc, data[i..]);
    DivideFirst(one, data[i + 1..]);
    DivideFirst(NibbleByte(one, data[i + 1]), data[i + 2..]);
  }

  /** The published check value of CRC-32/ISO-HDLC: the checksum of the digits "123456789". */
  lemma CheckValue()
    ensures Checksum(CHECK_MESSAGE) == 0xCBF4_3926
  {
    hide NibbleByte;
    FirstCheckBytes();
    MiddleCheckBytes();
    LastCheckBytes();
    var data := CHECK_MESSAGE;
    assert data[0..] == data && data[9..] == [];
    DivideThree(Init(), data, 0);
    DivideThree(0x77B7_9C2D, data, 3);
    DivideThree(0xF68D_2C9E, data, 6);
    assert Xor(0x340B_C6D9, ALL_ONES) == 0xCBF4_3926;
  }

  // ---------------------------------------------------------------------------
  // Burst detection
  // ---------------------------------------------------------------------------

  ghost predicate AllClear(bits: seq<bool>) {
    forall i :: 0 <= i < |bits| ==> !bits[i]
  }

  lemma {:induction false} ZerosKeepZero(bits: seq<bool>)
    requires AllClear(bits)
    ensures Divide(0, bits) == 0
    decreases |bits|
  {
    if bits == [] {
    } else {
      assert !bits[0];
      assert Shift(0) == 0;
      ZerosKeepZero(bits[1..]);
    }
  }

  lemma DivideKeepsNonzero(crc: bv32, bits: seq<bool>)
    requires crc != 0 && AllClear(bits)
    ensures Divide(crc, bits) != 0
  {
    ZerosKeepZero(bits);
    UpdateIsBijective(crc, bits);
    UpdateIsBijective(0, bits);
  }

  lemma ShiftKeepsNonzero(crc: bv32)
    requires crc != 0
    ensures Shift(crc) != 0
  {
    UnshiftUndoesShift(crc);
  }

  lemma {:induction false} ShiftingKeepsNonzero(crc: bv32, n: nat)
    requires crc != 0
    ensures Iterate(Shift, crc, n) != 0
    decreases n
  {
    if n == 0 {
    } else {
      ShiftKeepsNonzero(crc);
      ShiftingKeepsNonzero(Shift(crc), n - 1);
    }
  }

  lemma WindowIsNonzero(bits: seq<bool>, i: nat)
    requires |bits| <= 32 && i < |bits| && bits[i]
    ensures Divide(0, bits) != 0
  {
    FeedWord(0, bits);
    WordIsNonzero(bits, i);
    ShiftingKeepsNonzero(Gather(Xor, Unit, 0, bits), |bits|);
  }

  ghost predicate ClearOutside(bits: seq<bool>, start: nat, end: nat) {
    forall k :: 0 <= k < |bits| && !(start <= k < end) ==> !bits[k]
  }

  /** A bit string whose set bits lie in a window of at most 32 positions does not divide to zero. */
  lemma BurstIsNonzero(bits: seq<bool>, start: nat, end: nat, i: nat)
    requires start <= i < end <= |bits| && end <= start + 32
    requires bits[i] && ClearOutside(bits, start, end)
    ensures Divide(0, bits) != 0
  {
    var before, burst, after := bits[..start], bits[start..end], bits[end..];
    assert bits == before + (burst + after);
    assert AllClear(before) && AllClear(after);
    assert burst[i - start];
    BurstBetweenZeros(before, burst, after, i - start);
  }

  lemma BurstBetweenZeros(before: seq<bool>, burst: seq<bool>, after: seq<bool>, i: nat)
    requires AllClear(before) && AllClear(after)
    requires |burst| <= 32 && i < |burst| && burst[i]
    ensures Divide(0, before + (burst + after)) != 0
  {
    FoldConcat(DIVIDER, 0, before, burst + after);
    ZerosKeepZero(before);
    FoldConcat(DIVIDER, 0, burst, after);
    WindowIsNonzero(burst, i);
    DivideKeepsNonzero(Divide(0, burst), after);
  }

  lemma BytesDifferInABit(a: bv8, b: bv8) returns (i: nat)
    requires a != b
    ensures i < 8 && BitAt(a, i) != BitAt(b, i)
  {
    i := if Has(a, 1) != Has(b, 1) then 0 else if Has(a, 2) != Has(b, 2) then 1
         else if Has(a, 4) != Has(b, 4) then 2 else if Has(a, 8) != Has(b, 8) then 3
         else if Has(a, 16) != Has(b, 16) then 4 else if Has(a, 32) != Has(b, 32) then 5
         else if Has(a, 64) != Has(b, 64) then 6 else 7;
  }

  lemma {:induction false} MessagesDifferInABit(a: seq<bv8>, b: seq<bv8>) returns (i: nat)
    requires |a| == |b| && a != b
    ensures i < 8 * |a| && Bits(a)[i] != Bits(b)[i]
    decreases |a|
  {
    if a[0] == b[0] {
      assert a == [a[0]] + a[1..] && b == [b[0]] + b[1..];
      var j := MessagesDifferInABit(a[1..], b[1..]);
      i := j + 8;
    } else {
      i := BytesDifferInABit(a[0], b[0]);
    }
  }

  lemma FinishIsInjective(u: bv32, v: bv32)
    requires Xor(u, v) != 0
    ensures Finish(u) != Finish(v)
  {
    XorIsZero(u, v);
    assert u != v ==> u ^ ALL_ONES != v ^ ALL_ONES;
  }

  /**
   Two different messages of equal length whose differing bits lie within 32 consecutive positions, in
   processing order and at any offset, always have different checksums.
   */
  lemma BurstsAreDetected(a: seq<bv8>, b: seq<bv8>, start: nat)
    requires |a| == |b| && a != b
    requires forall k :: 0 <= k < 8 * |a| && !(start <= k < start + 32) ==> Bits(a)[k] == Bits(b)[k]
    ensures Checksum(a) != Checksum(b)
  {
    var i := MessagesDifferInABit(a, b);
    var end := if start + 32 <= 8 * |a| then start + 32 else 8 * |a|;
    BurstIsNonzero(XorBits(Bits(a), Bits(b)), start, end, i);
    DivideIsLinear(Init(), Init(), Bits(a), Bits(b));
    XorIsZero(Init(), Init());
    FinishIsInjective(Divide(Init(), Bits(a)), Divide(Init(), Bits(b)));
  }

  /** The generator itself, 33 bits from its first set bit to its last. */
  const GENERATOR: seq<bv8> := [0x41, 0x06, 0x71, 0xDB, 0x01]

  lemma FirstGeneratorBytes()
    ensures NibbleByte(0, 0x41) == 0x01DB_7106
    ensures NibbleByte(0x01DB_7106, 0x06) == 0x0001_DB71
  {
  }

  lemma LastGeneratorBytes()
    ensures NibbleByte(0x0001_DB71, 0x71) == 0x1DB
    ensures NibbleByte(0x1DB, 0xDB) == 1
    ensures NibbleByte(1, 0x01) == 0
  {
  }

  lemma GeneratorDividesToZero()
    ensures Divide(0, Bits(GENERATOR)) == 0
  {
    hide NibbleByte;
    var g := GENERATOR;
    FirstGeneratorBytes();
    LastGeneratorBytes();
    DivideFirst(0, g);
    assert g[1..][1..] == g[2..] && g[2..][1..] == g[3..] && g[3..][1..] == g[4..] && g[4..][1..] == [];
    DivideFirst(0x01DB_7106, g[1..]);
    DivideFirst(0x0001_DB71, g[2..]);
    DivideFirst(0x1DB, g[3..]);
    DivideFirst(1, g[4..]);
  }

  lemma GeneratorChangesByte(w: bv8)
    ensures w ^ 0x41 != w
  {
  }

  /** The bound of 32 is exact: in any message, a burst shaped like the generator goes unnoticed. */
  lemma GeneratorBurstIsMissed(before: seq<bv8>, window: seq<bv8>, after: seq<bv8>)
    requires |window| == 5
    ensures XorBytes(window, GENERATOR) != window
    ensures Checksum(before + (window + after)) == Checksum(before + (XorBytes(window, GENERATOR) + after))
  {
    var hit := XorBytes(window, GENERATOR);
    GeneratorChangesByte(window[0]);
    var c := Divide(Init(), Bits(before));
    UpdateInChunks(Init(), before, window + after);
    UpdateInChunks(Init(), before, hit + after);
    UpdateInChunks(c, window, after);
    UpdateInChunks(c, hit, after);
    GeneratorDividesToZero();
    UpdateIsLinear(c, 0, window, GENERATOR);
    XorZero(c);
    XorZero(Divide(c, Bits(window)));
  }

  // ---------------------------------------------------------------------------
  // The residue
  // ---------------------------------------------------------------------------

  /** The accumulator left by every intact frame: the good final FCS of RFC 1662, appendix C.3. */
  const GOOD_FCS: bv32 := 0xDEBB_20E3

  /** A 32-bit value as it is put on the wire, least significant byte first. */
  function LittleEndian(w: bv32): (bytes: seq<bv8>)
    ensures |bytes| == 4
  {
    [(w & 0xFF) as bv8, ((w >> 8) & 0xFF) as bv8, ((w >> 16) & 0xFF) as bv8, ((w >> 24) & 0xFF) as bv8]
  }

  lemma FourZeroBits(w: bv32)
    requires w & 0x0F == 0
    ensures NibbleStep(w) == w >> 4
  {
    assert (w & 0x0F) as int == 0;
    assert (w >> 4) ^ 0 == w >> 4;
  }

  lemma EightShifts(w: bv32)
    ensures Iterate(Shift, w, 8) == NibbleStep(NibbleStep(w))
  {
    NibbleIsFourShifts(w);
    NibbleIsFourShifts(NibbleStep(w));
    PlusFour(Shift, w, 4);
    PlusFour(Shift, NibbleStep(w), 0);
  }

  function High(w: bv32): bv32 {
    w & 0xFFFF_FF00
  }

  lemma HighHalves(w: bv32)
    ensures High(w) & 0x0F == 0
    ensures (High(w) >> 4) & 0x0F == 0
    ensures (High(w) >> 4) >> 4 == w >> 8
  {
  }

  lemma HighByteShifts(w: bv32, n: nat)
    requires n == 8
    ensures Iterate(Shift, High(w), n) == w >> 8
  {
    var h := High(w);
    HighHalves(w);
    EightShifts(h);
    FourZeroBits(h);
    FourZeroBits(h >> 4);
  }

  lemma SplitWord(crc: bv32, w: bv32)
    ensures Xor(crc ^ (w & 0xFF), High(w)) == crc ^ w
  {
    assert w == (w & 0xFF) ^ (w & 0xFFFF_FF00);
    assert (crc ^ (w & 0xFF)) ^ (w & 0xFFFF_FF00) == crc ^ ((w & 0xFF) ^ (w & 0xFFFF_FF00));
  }

  /** Taking in the low byte of a word leaves the rest of it waiting, shifted down. */
  lemma AbsorbByte(crc: bv32, w: bv32, n: nat)
    requires n == 8
    ensures Xor(Iterate(Shift, crc ^ (w & 0xFF), n), w >> 8) == Iterate(Shift, crc ^ w, n)
  {
    DividerDistributes();
    IterateIsAdditive(DIVIDER, crc ^ (w & 0xFF), High(w), n);
    HighByteShifts(w, n);
    SplitWord(crc, w);
  }

  lemma DivideFour(crc: bv32, t: seq<bv8>)
    requires |t| == 4
    ensures Divide(crc, Bits(t)) == NibbleByte(NibbleByte(NibbleByte(NibbleByte(crc, t[0]), t[1]), t[2]), t[3])
  {
    assert t[1..][1..] == t[2..] && t[2..][1..] == t[3..] && t[3..][1..] == [];
    DivideFirst(crc, t);
    DivideFirst(NibbleByte(crc, t[0]), t[1..]);
    DivideFirst(NibbleByte(NibbleByte(crc, t[0]), t[1]), t[2..]);
    DivideFirst(NibbleByte(NibbleByte(NibbleByte(crc, t[0]), t[1]), t[2]), t[3..]);
  }

  lemma LowByteWord(w: bv32)
    ensures (w & 0xFF) as bv8 as bv32 == w & 0xFF
  {
  }

  lemma NibbleByteShifts(crc: bv32, w: bv32, n: nat)
    requires n == 8
    ensures NibbleByte(crc, (w & 0xFF) as bv8) == Iterate(Shift, crc ^ (w & 0xFF), n)
  {
    LowByteWord(w);
    EightShifts(crc ^ (w & 0xFF));
  }

  /** One trailer byte, with the rest of the trailer kept added to the accumulator. */
  lemma TakeTrailerByte(crc: bv32, w: bv32, b: bv8, rest: bv32, n: nat)
    requires n == 8 && b == (w & 0xFF) as bv8 && rest == w >> 8
    ensures Xor(NibbleByte(crc, b), rest) == Iterate(Shift, Xor(crc, w), n)
  {
    NibbleByteShifts(crc, w, n);
    AbsorbByte(crc, w, n);
  }

  lemma TrailerRests(w: bv32, w1: bv32, w2: bv32, w3: bv32)
    requires w1 == w >> 8 && w2 == w >> 16 && w3 == w >> 24
    ensures w2 == w1 >> 8 && w3 == w2 >> 8 && w3 >> 8 == 0
  {
  }

  /** Feeding a 32-bit value least significant byte first folds it in as one word. */
  lemma DivideWord(crc: bv32, w: bv32, n: nat)
    requires n == 8
    ensures Divide(crc, Bits(LittleEndian(w))) == Iterate(Shift, Xor(crc, w), 4 * n)
  {
    var t := LittleEndian(w);
    var w1, w2, w3 := w >> 8, w >> 16, w >> 24;
    TrailerRests(w, w1, w2, w3);
    FeedTrailer(crc, w, w1, w2, w3, t, n);
  }

  lemma FeedTrailer(crc: bv32, w: bv32, w1: bv32, w2: bv32, w3: bv32, t: seq<bv8>, n: nat)
    requires n == 8 && |t| == 4
    requires t[0] == (w & 0xFF) as bv8 && w1 == w >> 8
    requires t[1] == (w1 & 0xFF) as bv8 && w2 == w1 >> 8
    requires t[2] == (w2 & 0xFF) as bv8 && w3 == w2 >> 8
    requires t[3] == (w3 & 0xFF) as bv8 && w3 >> 8 == 0
    ensures Divide(crc, Bits(t)) == Iterate(Shift, Xor(crc, w), 4 * n)
  {
    DivideFour(crc, t);
    var c1 := NibbleByte(crc, t[0]);
    var c2 := NibbleByte(c1, t[1]);
    var c3 := NibbleByte(c2, t[2]);
    var c4 := NibbleByte(c3, t[3]);
    TakeTrailerByte(crc, w, t[0], w1, n);
    TakeTrailerByte(c1, w1, t[1], w2, n);
    TakeTrailerByte(c2, w2, t[2], w3, n);
    TakeTrailerByte(c3, w3, t[3], 0, n);
    FourRuns(Shift, Xor(crc, w), Xor(c1, w1), Xor(c2, w2), Xor(c3, w3), Xor(c4, 0), n);
    XorZero(c4);
  }

  lemma AllOnesShiftsToGoodFcs()
    ensures Iterate(Shift, ALL_ONES, 32) == GOOD_FCS
  {
    var c1 := NibbleStep(NibbleStep(ALL_ONES));
    EightShifts(ALL_ONES);
    var c2 := NibbleStep(NibbleStep(c1));
    EightShifts(c1);
    var c3 := NibbleStep(NibbleStep(c2));
    EightShifts(c2);
    EightShifts(c3);
    IterateAdds(Shift, ALL_ONES, 8, 8);
    IterateAdds(Shift, ALL_ONES, 16, 8);
    IterateAdds(Shift, ALL_ONES, 24, 8);
    assert NibbleStep(NibbleStep(c3)) == GOOD_FCS;
  }

  lemma FinishComplements(crc: bv32)
    ensures Xor(crc, Finish(crc)) == ALL_ONES
  {
  }

  /** From any accumulator, the right trailer leads to the good-FCS value. */
  lemma RightTrailerLeavesGoodFcs(crc: bv32)
    ensures Divide(crc, Bits(LittleEndian(Finish(crc)))) == GOOD_FCS
  {
    DivideWord(crc, Finish(crc), 8);
    FinishComplements(crc);
    AllOnesShiftsToGoodFcs();
  }

  lemma TrailersGiveDifferentAccumulators(crc: bv32, s: seq<bv8>, t: seq<bv8>)
    requires |s| == |t| == 4 && s != t
    ensures Divide(crc, Bits(s)) != Divide(crc, Bits(t))
  {
    var i := MessagesDifferInABit(s, t);
    WindowIsNonzero(XorBits(Bits(s), Bits(t)), i);
    DivideIsLinear(crc, crc, Bits(s), Bits(t));
    XorIsZero(crc, crc);
    XorIsZero(Divide(crc, Bits(s)), Divide(crc, Bits(t)));
  }

  /**
   The receiver's whole check in one pass: a frame's last four bytes are the checksum of what precedes
   them exactly when running the accumulator over the whole frame ends at the good-FCS value.
   */
  lemma ResidueDecidesTrailer(data: seq<bv8>, trailer: seq<bv8>)
    requires |trailer| == 4
    ensures Divide(Init(), Bits(data + trailer)) == GOOD_FCS <==> trailer == LittleEndian(Checksum(data))
  {
    var crc := Divide(Init(), Bits(data));
    UpdateInChunks(Init(), data, trailer);
    RightTrailerLeavesGoodFcs(crc);
    if trailer != LittleEndian(Checksum(data)) {
      TrailersGiveDifferentAccumulators(crc, trailer, LittleEndian(Checksum(data)));
    }
  }
}
