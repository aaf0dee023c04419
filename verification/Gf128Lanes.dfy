/** `gf128_mul`: the branch-free multiplication over two 64-bit lanes, refined to `Gf128.Mul`. */
module Gf128Lanes {
  import opened Bytes
  import opened Gf128

  // ----- Bits of bytes and lanes, counted from the left -----

  function ByteBit(b: Byte, j: nat): bool
    requires j < 8
  {
    (b >> Counted(7 - j)) & 1 == 1
  }

  function LaneBit(w: bv64, i: nat): bool
    requires i < 64
  {
    (w >> Counted(63 - i)) & 1 == 1
  }

  /** The polynomial a 16-byte block stands for. */
  function PolyOf(b: Block): Poly {
    seq(128, k requires 0 <= k < 128 => ByteBit(b[k / 8], k % 8))
  }

  function PolyOfLanes(hi: bv64, lo: bv64): Poly {
    seq(128, k requires 0 <= k < 128 => if k < 64 then LaneBit(hi, k) else LaneBit(lo, k - 64))
  }

  lemma ByteBitXor(a: Byte, b: Byte, j: nat)
    requires j < 8
    ensures ByteBit(Xor(a, b), j) == (ByteBit(a, j) != ByteBit(b, j))
  {
    hide Counted;
    XorBit8(a, b, Counted(7 - j));
  }

  lemma XorBit8(a: Byte, b: Byte, k: Byte)
    requires k < 8
    ensures ((a ^ b) >> k) & 1 == ((a >> k) & 1) ^ ((b >> k) & 1)
  {
  }

  lemma XorOfBlocks(a: Block, b: Block)
    ensures PolyOf(XorBytes(a, b)) == Add(PolyOf(a), PolyOf(b))
  {
    hide ByteBit, Xor;
    forall k | 0 <= k < 128
      ensures PolyOf(XorBytes(a, b))[k] == Add(PolyOf(a), PolyOf(b))[k]
    {
      ByteBitXor(a[k / 8], b[k / 8], k % 8);
    }
  }

  // The word operations of the loop, named so that the lane lemmas can treat them as opaque.

  function Xor64(a: bv64, b: bv64): bv64 {
    a ^ b
  }

  /** `v` under the mask `0 - c`. */
  function Masked(c: bv64, v: bv64): bv64 {
    (0 - c) & v
  }

  function LowBit(v: bv64): (c: bv64)
    ensures c <= 1
  {
    v & 1
  }

  /** `v` shifted right by one place, with `c` entering on the left. */
  function ShiftIn(v: bv64, c: bv64): bv64 {
    (v >> 1) | (c << 63)
  }

  lemma LaneBitXor(a: bv64, b: bv64, i: nat)
    requires i < 64
    ensures LaneBit(Xor64(a, b), i) == (LaneBit(a, i) != LaneBit(b, i))
  {
    hide Counted;
    XorBit64(a, b, Counted(63 - i));
  }

  lemma XorBit64(a: bv64, b: bv64, k: Byte)
    requires k < 64
    ensures ((a ^ b) >> k) & 1 == ((a >> k) & 1) ^ ((b >> k) & 1)
  {
  }

  /** A 0/1 word subtracted from zero is the all-zeros or the all-ones mask. */
  lemma MaskIs(c: bv64, v: bv64)
    requires c <= 1
    ensures Masked(c, v) == if c == 1 then v else 0
  {
    if c == 1 {
      assert (0 - (1 as bv64)) & v == v;
    } else {
      assert c == 0;
      assert (0 - (0 as bv64)) & v == 0;
    }
  }

  lemma LaneOfZero(i: nat)
    requires i < 64
    ensures !LaneBit(0, i)
  {
    var k := Counted(63 - i);
    assert (0 as bv64) >> k == 0;
  }

  lemma LaneSelect(c: bv64, v: bv64, i: nat)
    requires c <= 1 && i < 64
    ensures LaneBit(Masked(c, v), i) == (c == 1 && LaneBit(v, i))
  {
    hide LaneBit, Masked;
    MaskIs(c, v);
    LaneOfZero(i);
  }

  lemma LaneShift(v: bv64, c: bv64, i: nat)
    requires c <= 1 && i < 64
    ensures LaneBit(ShiftIn(v, c), i) == if i == 0 then c == 1 else LaneBit(v, i - 1)
  {
    var k := Counted(63 - i);
    if i == 0 {
      CountedIs(63, 63);
      ShiftInTop(v, c);
    } else {
      CountedIs(64 - i, k + 1);
      ShiftBit(v, c, k);
    }
  }

  lemma ShiftInTop(v: bv64, c: bv64)
    requires c <= 1
    ensures (((v >> 1) | (c << 63)) >> 63) & 1 == c
  {
  }

  lemma ShiftBit(v: bv64, c: bv64, k: Byte)
    requires c <= 1 && k < 63
    ensures (((v >> 1) | (c << 63)) >> k) & 1 == (v >> (k + 1)) & 1
  {
  }

  const R_HI: bv64 := 0xE100_0000_0000_0000

  lemma ReductionBits(i: nat)
    requires i < 64
    ensures LaneBit(R_HI, i) == (i == 0 || i == 1 || i == 2 || i == 7)
  {
    var k := Counted(63 - i);
    assert (0xE100_0000_0000_0000 >> k) & (1 as bv64) == 1 <==> k == 63 || k == 62 || k == 61 || k == 56;
    assert i == 0 <==> k as int == 63;
    assert i == 1 <==> k as int == 62;
    assert i == 2 <==> k as int == 61;
    assert i == 7 <==> k as int == 56;
  }

  lemma LastBit(v: bv64)
    ensures LaneBit(v, 63) == (LowBit(v) == 1)
  {
    CountedIs(0, 0);
  }

  // ----- The loop -----

  function ShiftedHi(hi: bv64, lo: bv64): bv64 {
    Xor64(ShiftIn(hi, 0), Masked(LowBit(lo), R_HI))
  }

  function ShiftedLo(hi: bv64, lo: bv64): bv64 {
    ShiftIn(lo, LowBit(hi))
  }

  lemma ShiftStepHi(hi: bv64, lo: bv64, k: nat)
    requires k < 64
    ensures LaneBit(ShiftedHi(hi, lo), k)
         == ((k > 0 && LaneBit(hi, k - 1)) != (LaneBit(lo, 63) && (k == 0 || k == 1 || k == 2 || k == 7)))
  {
    hide LaneBit, Xor64, ShiftIn, Masked, LowBit;
    LaneBitXor(ShiftIn(hi, 0), Masked(LowBit(lo), R_HI), k);
    LaneSelect(LowBit(lo), R_HI, k);
    ReductionBits(k);
    LastBit(lo);
    LaneShift(hi, 0, k);
  }

  /** One step of the lane shift multiplies by x. */
  lemma ShiftStep(hi: bv64, lo: bv64)
    ensures PolyOfLanes(ShiftedHi(hi, lo), ShiftedLo(hi, lo)) == TimesX(PolyOfLanes(hi, lo))
  {
    hide LaneBit, ShiftedHi, ShiftIn, LowBit;
    var before, after := PolyOfLanes(hi, lo), PolyOfLanes(ShiftedHi(hi, lo), ShiftedLo(hi, lo));
    forall k | 0 <= k < 128
      ensures after[k] == TimesX(before)[k]
    {
      if k < 64 {
        ShiftStepHi(hi, lo, k);
      } else {
        LaneShift(lo, LowBit(hi), k - 64);
        LastBit(hi);
      }
    }
  }

  function AccumulatedLane(z: bv64, bit: bv64, v: bv64): bv64 {
    Xor64(z, Masked(bit, v))
  }

  lemma AccumulatedBit(z: bv64, bit: bv64, v: bv64, i: nat)
    requires bit <= 1 && i < 64
    ensures LaneBit(AccumulatedLane(z, bit, v), i) == (LaneBit(z, i) != (bit == 1 && LaneBit(v, i)))
  {
    hide LaneBit, Xor64, Masked;
    LaneBitXor(z, Masked(bit, v), i);
    LaneSelect(bit, v, i);
  }

  /** One masked accumulation adds the shifted operand when the scanned bit is set. */
  lemma AccumulateStep(zHi: bv64, zLo: bv64, bit: bv64, hi: bv64, lo: bv64)
    requires bit <= 1
    ensures PolyOfLanes(AccumulatedLane(zHi, bit, hi), AccumulatedLane(zLo, bit, lo))
         == Add(PolyOfLanes(zHi, zLo), Term(bit == 1, PolyOfLanes(hi, lo)))
  {
    hide LaneBit, AccumulatedLane;
    var after := PolyOfLanes(AccumulatedLane(zHi, bit, hi), AccumulatedLane(zLo, bit, lo));
    var sum := Add(PolyOfLanes(zHi, zLo), Term(bit == 1, PolyOfLanes(hi, lo)));
    forall k | 0 <= k < 128
      ensures after[k] == sum[k]
    {
      if k < 64 {
        AccumulatedBit(zHi, bit, hi, k);
      } else {
        AccumulatedBit(zLo, bit, lo, k - 64);
      }
    }
  }

  // ----- Loading and storing lanes -----

  function AppendByte(v: bv64, b: Byte): bv64 {
    (v << 8) | b as bv64
  }

  lemma AppendedBit(v: bv64, b: Byte, i: nat)
    requires i < 64
    ensures LaneBit(AppendByte(v, b), i) == if i < 56 then LaneBit(v, i + 8) else ByteBit(b, i - 56)
  {
    var k := Counted(63 - i);
    if i < 56 {
      CountedIs(55 - i, k - 8);
      assert (((v << 8) | b as bv64) >> k) & 1 == (v >> (k - 8)) & 1;
    } else {
      assert (((v << 8) | b as bv64) >> k) & 1 == ((b >> k) & 1) as bv64;
    }
  }

  function DropByte(v: bv64): bv64 {
    v >> 8
  }

  function LowByte(v: bv64): Byte {
    (v & 0xff) as Byte
  }

  lemma DroppedBit(v: bv64, i: nat)
    requires 8 <= i < 64
    ensures LaneBit(DropByte(v), i) == LaneBit(v, i - 8)
  {
    var k := Counted(63 - i);
    CountedIs(71 - i, k + 8);
    assert ((v >> 8) >> k) & 1 == (v >> (k + 8)) & 1;
  }

  lemma LowByteBit(v: bv64, j: nat)
    requires j < 8
    ensures ByteBit(LowByte(v), j) == LaneBit(v, 56 + j)
  {
    var k := Counted(7 - j);
    assert ((((v & 0xff) as Byte) >> k) & 1) as bv64 == (v >> k) & 1;
  }

  /** Byte `j` of the lane, counted from the most significant end, is `b`. */
  ghost predicate HoldsByte(w: bv64, j: nat, b: Byte)
    requires j < 8
  {
    forall i :: 0 <= i < 8 ==> LaneBit(w, 8 * j + i) == ByteBit(b, i)
  }

  ghost predicate Holds(w: bv64, p: seq<Byte>)
    requires |p| == 8
  {
    forall j :: 0 <= j < 8 ==> HoldsByte(w, j, p[j])
  }

  lemma AppendHolds(v: bv64, b: Byte)
    ensures HoldsByte(AppendByte(v, b), 7, b)
    ensures forall j, c :: 0 < j < 8 && HoldsByte(v, j, c) ==> HoldsByte(AppendByte(v, b), j - 1, c)
  {
    hide LaneBit, ByteBit, AppendByte;
    forall i | 0 <= i < 64
      ensures LaneBit(AppendByte(v, b), i) == if i < 56 then LaneBit(v, i + 8) else ByteBit(b, i - 56)
    {
      AppendedBit(v, b, i);
    }
    forall j, c | 0 < j < 8 && HoldsByte(v, j, c)
      ensures HoldsByte(AppendByte(v, b), j - 1, c)
    {
      forall i | 0 <= i < 8
        ensures LaneBit(AppendByte(v, b), 8 * (j - 1) + i) == ByteBit(c, i)
      {
        assert LaneBit(v, 8 * j + i) == ByteBit(c, i);
      }
    }
  }

  /** The 64-bit value of big-endian bytes. */
  function LaneOf(p: seq<Byte>): bv64 {
    if p == [] then 0 else AppendByte(LaneOf(p[..|p| - 1]), p[|p| - 1])
  }

  /** The 64-bit value of an unsigned integer, reduced modulo 2^64. */
  function U64(n: nat): bv64 {
    LaneOf(BigEndian(n, 8))
  }

  lemma {:induction false} LaneOfTail(p: seq<Byte>)
    requires |p| <= 8
    ensures forall j :: 0 <= j < |p| ==> HoldsByte(LaneOf(p), 8 - |p| + j, p[j])
  {
    hide HoldsByte, AppendByte;
    if p != [] {
      var front := p[..|p| - 1];
      LaneOfTail(front);
      AppendHolds(LaneOf(front), p[|p| - 1]);
      forall j | 0 <= j < |p| - 1
        ensures HoldsByte(LaneOf(p), 8 - |p| + j, p[j])
      {
        assert HoldsByte(LaneOf(front), 8 - |front| + j, front[j]);
      }
    }
  }

  lemma LaneOfHolds(p: seq<Byte>)
    requires |p| == 8
    ensures Holds(LaneOf(p), p)
  {
    hide HoldsByte, AppendByte;
    LaneOfTail(p);
  }

  method LoadBe64(p: seq<Byte>) returns (v: bv64)
    requires |p| == 8
    ensures v == LaneOf(p) && Holds(v, p)
  {
    hide HoldsByte, AppendByte;
    v := 0;
    for n := 0 to 8
      invariant v == LaneOf(p[..n])
    {
      v := AppendByte(v, p[n]);
      assert p[..n + 1][..n] == p[..n];
    }
    assert p[..8] == p;
    LaneOfHolds(p);
  }

  /** One lane holds one byte string: storing is the inverse of loading. */
  lemma HoldsUnique(w: bv64, p: seq<Byte>, q: seq<Byte>)
    requires |p| == |q| == 8 && Holds(w, p) && Holds(w, q)
    ensures p == q
  {
    hide LaneBit, ByteBit;
    forall j | 0 <= j < 8
      ensures p[j] == q[j]
    {
      assert HoldsByte(w, j, p[j]) && HoldsByte(w, j, q[j]);
      forall i | 0 <= i < 8
        ensures ByteBit(p[j], i) == ByteBit(q[j], i)
      {
        assert LaneBit(w, 8 * j + i) == ByteBit(p[j], i);
      }
      SameBits(p[j], q[j]);
    }
  }

  lemma DropHolds(w: bv64, v: bv64, i: nat)
    requires 0 < i <= 8
    requires forall k :: 64 - 8 * i <= k < 64 ==> LaneBit(v, k) == LaneBit(w, k - (64 - 8 * i))
    ensures HoldsByte(w, i - 1, LowByte(v))
    ensures forall k :: 72 - 8 * i <= k < 64 ==> LaneBit(DropByte(v), k) == LaneBit(w, k - (72 - 8 * i))
  {
    hide LaneBit, ByteBit, DropByte, LowByte;
    forall b | 0 <= b < 8
      ensures LaneBit(w, 8 * (i - 1) + b) == ByteBit(LowByte(v), b)
    {
      LowByteBit(v, b);
      assert LaneBit(v, 56 + b) == LaneBit(w, 56 + b - (64 - 8 * i));
    }
    forall k | 72 - 8 * i <= k < 64
      ensures LaneBit(DropByte(v), k) == LaneBit(w, k - (72 - 8 * i))
    {
      DroppedBit(v, k);
      assert LaneBit(v, k - 8) == LaneBit(w, k - 8 - (64 - 8 * i));
    }
  }

  method StoreBe64(p: array<Byte>, at: nat, w: bv64)
    requires at + 8 <= p.Length
    modifies p
    ensures Holds(w, p[at..at + 8])
    ensures forall j :: 0 <= j < p.Length && !(at <= j < at + 8) ==> p[j] == old(p[j])
  {
    hide LaneBit, HoldsByte, DropByte, LowByte;
    var v := w;
    for i := 8 downto 0
      invariant forall k :: 64 - 8 * i <= k < 64 ==> LaneBit(v, k) == LaneBit(w, k - (64 - 8 * i))
      invariant forall j :: at + i <= j < at + 8 ==> HoldsByte(w, j - at, p[j])
      invariant forall j :: 0 <= j < p.Length && !(at <= j < at + 8) ==> p[j] == old(p[j])
    {
      DropHolds(w, v, i + 1);
      p[at + i] := LowByte(v);
      v := DropByte(v);
    }
  }

  lemma LanesOfBlock(b: Block, hi: bv64, lo: bv64)
    requires Holds(hi, b[..8]) && Holds(lo, b[8..])
    ensures PolyOf(b) == PolyOfLanes(hi, lo)
  {
    hide LaneBit, ByteBit;
    forall k | 0 <= k < 128
      ensures PolyOf(b)[k] == PolyOfLanes(hi, lo)[k]
    {
      if k < 64 {
        assert HoldsByte(hi, k / 8, b[k / 8]);
        assert LaneBit(hi, 8 * (k / 8) + k % 8) == ByteBit(b[k / 8], k % 8);
      } else {
        assert HoldsByte(lo, k / 8 - 8, b[8..][k / 8 - 8]);
        assert LaneBit(lo, 8 * (k / 8 - 8) + k % 8) == ByteBit(b[k / 8], k % 8);
      }
    }
  }

  /** A block is determined by its polynomial, so an equation between polynomials is one between blocks. */
  lemma PolyOfInjective(a: Block, b: Block)
    requires PolyOf(a) == PolyOf(b)
    ensures a == b
  {
    forall j | 0 <= j < 16
      ensures a[j] == b[j]
    {
      forall i | 0 <= i < 8
        ensures ByteBit(a[j], i) == ByteBit(b[j], i)
      {
        assert (8 * j + i) / 8 == j && (8 * j + i) % 8 == i;
        assert PolyOf(a)[8 * j + i] == PolyOf(b)[8 * j + i];
      }
      SameBits(a[j], b[j]);
    }
  }

  lemma SameBits(a: Byte, b: Byte)
    requires forall i :: 0 <= i < 8 ==> ByteBit(a, i) == ByteBit(b, i)
    ensures a == b
  {
    hide ByteBit;
    ByteBits(a);
    ByteBits(b);
    EightBits(a, b);
  }

  lemma ByteBits(b: Byte)
    ensures ByteBit(b, 7) == (b & 1 == 1) && ByteBit(b, 6) == ((b >> 1) & 1 == 1)
    ensures ByteBit(b, 5) == ((b >> 2) & 1 == 1) && ByteBit(b, 4) == ((b >> 3) & 1 == 1)
    ensures ByteBit(b, 3) == ((b >> 4) & 1 == 1) && ByteBit(b, 2) == ((b >> 5) & 1 == 1)
    ensures ByteBit(b, 1) == ((b >> 6) & 1 == 1) && ByteBit(b, 0) == ((b >> 7) & 1 == 1)
  {
  }

  lemma EightBits(a: Byte, b: Byte)
    requires a & 1 == 1 <==> b & 1 == 1
    requires (a >> 1) & 1 == 1 <==> (b >> 1) & 1 == 1
    requires (a >> 2) & 1 == 1 <==> (b >> 2) & 1 == 1
    requires (a >> 3) & 1 == 1 <==> (b >> 3) & 1 == 1
    requires (a >> 4) & 1 == 1 <==> (b >> 4) & 1 == 1
    requires (a >> 5) & 1 == 1 <==> (b >> 5) & 1 == 1
    requires (a >> 6) & 1 == 1 <==> (b >> 6) & 1 == 1
    requires (a >> 7) & 1 == 1 <==> (b >> 7) & 1 == 1
    ensures a == b
  {
  }

  /** Coefficient 8j + i is bit i of byte j, the most significant bit first. */
  lemma CoefficientsOf(b: Block, j: nat)
    requires j < 16
    ensures
      var p := PolyOf(b);
      && p[8 * j] == (b[j] & 0x80 != 0) && p[8 * j + 1] == (b[j] & 0x40 != 0)
      && p[8 * j + 2] == (b[j] & 0x20 != 0) && p[8 * j + 3] == (b[j] & 0x10 != 0)
      && p[8 * j + 4] == (b[j] & 0x08 != 0) && p[8 * j + 5] == (b[j] & 0x04 != 0)
      && p[8 * j + 6] == (b[j] & 0x02 != 0) && p[8 * j + 7] == (b[j] & 0x01 != 0)
  {
    hide ByteBit;
    ByteBits(b[j]);
    MaskedBits(b[j]);
    forall i | 0 <= i < 8
      ensures PolyOf(b)[8 * j + i] == ByteBit(b[j], i)
    {
      assert (8 * j + i) / 8 == j && (8 * j + i) % 8 == i;
    }
  }

  lemma MaskedBits(b: Byte)
    ensures (b & 1 == 1) == (b & 0x01 != 0) && ((b >> 1) & 1 == 1) == (b & 0x02 != 0)
    ensures ((b >> 2) & 1 == 1) == (b & 0x04 != 0) && ((b >> 3) & 1 == 1) == (b & 0x08 != 0)
    ensures ((b >> 4) & 1 == 1) == (b & 0x10 != 0) && ((b >> 5) & 1 == 1) == (b & 0x20 != 0)
    ensures ((b >> 6) & 1 == 1) == (b & 0x40 != 0) && ((b >> 7) & 1 == 1) == (b & 0x80 != 0)
  {
  }

  /** The block 0x80 followed by zeros is the polynomial 1. */
  lemma IdentityBlock(b: Block)
    requires b == [0x80] + Zeros(15)
    ensures PolyOf(b) == ONE
  {
    hide ByteBit;
    forall k | 0 <= k < 128
      ensures PolyOf(b)[k] == (k == 0)
    {
      ByteBits(b[k / 8]);
      assert k / 8 > 0 ==> b[k / 8] == 0;
    }
  }

  // ----- The multiplication -----

  /** Bit `i` of the scanned operand, read from the lane that holds it. */
  function ScannedBit(yHi: bv64, yLo: bv64, i: Byte): (bit: bv64)
    requires i < 128
    ensures bit <= 1
  {
    if i < 64 then (yHi >> (63 - i)) & 1 else (yLo >> (63 - (i - 64))) & 1
  }

  lemma ScannedBitIs(yHi: bv64, yLo: bv64, i: Byte)
    requires i < 128
    ensures PolyOfLanes(yHi, yLo)[i as int] == (ScannedBit(yHi, yLo, i) == 1)
  {
    hide Counted;
    var k := i as int;
    if i < 64 {
      CountedIs(63 - k, 63 - i);
    } else {
      HighIndex(i);
      CountedIs(127 - k, 127 - i);
      assert PolyOfLanes(yHi, yLo)[k] == LaneBit(yLo, k - 64);
    }
  }

  lemma HighIndex(i: Byte)
    requires 64 <= i < 128
    ensures (127 - i) as int == 127 - i as int && 63 - (i - 64) == 127 - i
  {
  }

  method LoadLanes(b: Block) returns (hi: bv64, lo: bv64)
    ensures PolyOfLanes(hi, lo) == PolyOf(b)
  {
    hide Holds, PolyOf, PolyOfLanes;
    hi := LoadBe64(b[..8]);
    lo := LoadBe64(b[8..]);
    LanesOfBlock(b, hi, lo);
  }

  method StoreLanes(hi: bv64, lo: bv64) returns (out: Block)
    ensures PolyOf(out) == PolyOfLanes(hi, lo)
  {
    hide Holds, PolyOf, PolyOfLanes;
    var a := new Byte[16](_ => 0);
    StoreBe64(a, 0, hi);
    ghost var stored := a[0..8];
    StoreBe64(a, 8, lo);
    out := a[..];
    assert out[..8] == stored && out[8..] == a[8..16];
    LanesOfBlock(out, hi, lo);
  }

  /** The accumulator plus the terms of the bits not yet scanned. */
  ghost function Pending(zHi: bv64, zLo: bv64, vHi: bv64, vLo: bv64, yHi: bv64, yLo: bv64, i: nat): Poly
    requires i <= 128
  {
    Add(PolyOfLanes(zHi, zLo), Sum(PolyOfLanes(vHi, vLo), PolyOfLanes(yHi, yLo)[i..]))
  }

  /** One pass through the loop keeps what has been accumulated plus what is still to come. */
  lemma LaneLoopStep(zHi: bv64, zLo: bv64, vHi: bv64, vLo: bv64, yHi: bv64, yLo: bv64, i: Byte)
    requires i < 128
    ensures
      var bit := ScannedBit(yHi, yLo, i);
      Pending(AccumulatedLane(zHi, bit, vHi), AccumulatedLane(zLo, bit, vLo), ShiftedHi(vHi, vLo), ShiftedLo(vHi, vLo), yHi, yLo, i as int + 1)
      == Pending(zHi, zLo, vHi, vLo, yHi, yLo, i as int)
  {
    hide ScannedBit, ShiftedHi, ShiftedLo, AccumulatedLane, Sum, PolyOfLanes, Add, TimesX, Term;
    LoopStep(PolyOfLanes(zHi, zLo), PolyOfLanes(vHi, vLo), PolyOfLanes(yHi, yLo), i as int);
    ScannedBitIs(yHi, yLo, i);
    AccumulateStep(zHi, zLo, ScannedBit(yHi, yLo, i), vHi, vLo);
    ShiftStep(vHi, vLo);
  }

  lemma PendingAtStart(vHi: bv64, vLo: bv64, yHi: bv64, yLo: bv64)
    ensures Pending(0, 0, vHi, vLo, yHi, yLo, 0) == Mul(PolyOfLanes(vHi, vLo), PolyOfLanes(yHi, yLo))
  {
    hide PolyOfLanes, Add, Sum;
    var y := PolyOfLanes(yHi, yLo);
    assert y[0..] == y;
    ZeroLanes();
    AddZero(Mul(PolyOfLanes(vHi, vLo), y));
  }

  lemma PendingAtEnd(zHi: bv64, zLo: bv64, vHi: bv64, vLo: bv64, yHi: bv64, yLo: bv64)
    ensures Pending(zHi, zLo, vHi, vLo, yHi, yLo, 128) == PolyOfLanes(zHi, zLo)
  {
    hide PolyOfLanes, Add, Sum;
    assert PolyOfLanes(yHi, yLo)[128..] == [];
    SumOfNone(PolyOfLanes(vHi, vLo));
    AddZero(PolyOfLanes(zHi, zLo));
  }

  method MultiplyLanes(xHi: bv64, xLo: bv64, yHi: bv64, yLo: bv64) returns (zHi: bv64, zLo: bv64)
    ensures PolyOfLanes(zHi, zLo) == Mul(PolyOfLanes(xHi, xLo), PolyOfLanes(yHi, yLo))
  {
    hide ScannedBit, ShiftedHi, ShiftedLo, AccumulatedLane, PolyOfLanes, Pending, Mul;
    var vHi, vLo := xHi, xLo;
    zHi, zLo := 0, 0;
    PendingAtStart(vHi, vLo, yHi, yLo);
    var i: Byte := 0;
    while i < 128
      invariant i <= 128
      invariant Pending(zHi, zLo, vHi, vLo, yHi, yLo, i as int) == Mul(PolyOfLanes(xHi, xLo), PolyOfLanes(yHi, yLo))
      decreases 128 - i as int
    {
      LaneLoopStep(zHi, zLo, vHi, vLo, yHi, yLo, i);
      var bit := ScannedBit(yHi, yLo, i);
      zHi := AccumulatedLane(zHi, bit, vHi);
      zLo := AccumulatedLane(zLo, bit, vLo);
      vHi, vLo := ShiftedHi(vHi, vLo), ShiftedLo(vHi, vLo);
      NextIndex(i);
      i := i + 1;
    }
    PendingAtEnd(zHi, zLo, vHi, vLo, yHi, yLo);
  }

  lemma NextIndex(i: Byte)
    requires i < 128
    ensures (i + 1) as int == i as int + 1
  {
  }

  method Gf128Mul(x: Block, y: Block) returns (out: Block)
    ensures PolyOf(out) == Mul(PolyOf(x), PolyOf(y))
    ensures PolyOf(out) == StandardProduct(PolyOf(x), PolyOf(y))
  {
    hide PolyOf, PolyOfLanes, Mul, StandardProduct;
    var vHi, vLo := LoadLanes(x);
    var yHi, yLo := LoadLanes(y);
    var zHi, zLo := MultiplyLanes(vHi, vLo, yHi, yLo);
    out := StoreLanes(zHi, zLo);
    MulIsStandard(PolyOf(x), PolyOf(y));
  }

  lemma ZeroLanes()
    ensures PolyOfLanes(0, 0) == ZERO
  {
    hide LaneBit;
    forall k | 0 <= k < 64
      ensures !LaneBit(0, k)
    {
      LaneOfZero(k);
    }
  }

  lemma SumOfNone(v: Poly)
    ensures Sum(v, []) == ZERO
  {
  }

  lemma LoopStep(z: Poly, v: Poly, y: Poly, i: nat)
    requires i < 128
    ensures Add(Add(z, Term(y[i], v)), Sum(TimesX(v), y[i + 1..])) == Add(z, Sum(v, y[i..]))
  {
    hide Add, TimesX;
    assert y[i..][1..] == y[i + 1..];
    AddAssociative(z, Term(y[i], v), Sum(TimesX(v), y[i + 1..]));
  }
}
