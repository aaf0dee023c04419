/** GF(2^8) modulo x^8 + x^4 + x^3 + x + 1 (section 4 of FIPS-197), as `aes_core_soft.cpp`
    computes in it: masked multiplication, inversion as the 254th power, and the S-box. */
module Gf256 {
  import opened Bytes

  /** Multiplication by x, with the reduction selected by a mask. */
  function XTime(b: Byte): Byte {
    (b << 1) ^ ((0 - (b >> 7)) & 0x1b)
  }

  /** `a` when the lowest bit of `b` is set, zero otherwise. */
  function LowTerm(b: Byte, a: Byte): Byte {
    (0 - (b & 1)) & a
  }

  /** The sum of a * x^k over the positions k of the bits set in `b`. */
  function Mul(a: Byte, b: Byte): Byte
    decreases b
  {
    if b == 0 then 0 else Xor(LowTerm(b, a), Mul(XTime(a), b >> 1))
  }

  function Pow(x: Byte, n: nat): Byte {
    if n == 0 then 1 else Mul(Pow(x, n - 1), x)
  }

  // ----- Bit-level facts -----

  /** The conditional form the source writes. */
  lemma XTimeConditional(b: Byte)
    ensures XTime(b) == (b << 1) ^ (if b & 0x80 != 0 then 0x1b else 0)
  {
  }

  lemma XTimeAdds(a: Byte, b: Byte)
    ensures XTime(Xor(a, b)) == Xor(XTime(a), XTime(b))
  {
  }

  lemma LowTermAdds(y: Byte, a: Byte, b: Byte)
    ensures LowTerm(y, Xor(a, b)) == Xor(LowTerm(y, a), LowTerm(y, b))
  {
    hide Xor, LowTerm;
    LowTermOf(y, a);
    LowTermOf(y, b);
    LowTermOf(y, Xor(a, b));
    XorLaws(0, 0, 0);
  }

  lemma LowTermXTime(y: Byte, a: Byte)
    ensures LowTerm(y, XTime(a)) == XTime(LowTerm(y, a))
  {
    hide XTime, LowTerm;
    LowTermOf(y, a);
    LowTermOf(y, XTime(a));
    XTimeZero();
  }

  lemma XTimeZero()
    ensures XTime(0) == 0
  {
  }

  lemma LowTermOf(y: Byte, a: Byte)
    ensures LowTerm(y, a) == if y & 1 == 1 then a else 0
  {
  }

  // ----- Field laws -----

  lemma MulStep(a: Byte, b: Byte)
    ensures Mul(a, b) == Xor(LowTerm(b, a), Mul(XTime(a), b >> 1))
  {
    if b == 0 {
      assert LowTerm(0, a) == 0 && (0 as Byte) >> 1 == 0;
    }
  }

  lemma {:induction false} MulAdds(a: Byte, b: Byte, y: Byte)
    ensures Mul(Xor(a, b), y) == Xor(Mul(a, y), Mul(b, y))
    decreases y
  {
    hide Xor, XTime, LowTerm;
    XorLaws(0, 0, 0);
    if y != 0 {
      XTimeAdds(a, b);
      LowTermAdds(y, a, b);
      MulAdds(XTime(a), XTime(b), y >> 1);
      XorExchange(LowTerm(y, a), LowTerm(y, b), Mul(XTime(a), y >> 1), Mul(XTime(b), y >> 1));
    }
  }

  lemma {:induction false} MulXTime(a: Byte, y: Byte)
    ensures Mul(XTime(a), y) == XTime(Mul(a, y))
    decreases y
  {
    hide Xor, XTime, LowTerm;
    XTimeZero();
    if y != 0 {
      MulXTime(XTime(a), y >> 1);
      LowTermXTime(y, a);
      XTimeAdds(LowTerm(y, a), Mul(XTime(a), y >> 1));
    }
  }

  lemma {:induction false} MulZeroLeft(y: Byte)
    ensures Mul(0, y) == 0
    decreases y
  {
    if y != 0 {
      MulZeroLeft(y >> 1);
    }
  }

  lemma {:induction false} MulSwaps(a: Byte, x: Byte, y: Byte)
    ensures Mul(Mul(a, x), y) == Mul(Mul(a, y), x)
    decreases x
  {
    hide Xor, XTime, LowTerm;
    MulZeroLeft(y);
    if x != 0 {
      MulAdds(LowTerm(x, a), Mul(XTime(a), x >> 1), y);
      MulSwaps(XTime(a), x >> 1, y);
      MulXTime(a, y);
      LowTermOf(x, a);
      LowTermOf(x, Mul(a, y));
    }
  }

  /** The product written out: eight masked terms. */
  function Unrolled(a: Byte, b: Byte): Byte {
    var a1, b1 := XTime(a), b >> 1;
    var a2, b2 := XTime(a1), b1 >> 1;
    var a3, b3 := XTime(a2), b2 >> 1;
    var a4, b4 := XTime(a3), b3 >> 1;
    var a5, b5 := XTime(a4), b4 >> 1;
    var a6, b6 := XTime(a5), b5 >> 1;
    var a7, b7 := XTime(a6), b6 >> 1;
    Xor(LowTerm(b, a), Xor(LowTerm(b1, a1), Xor(LowTerm(b2, a2), Xor(LowTerm(b3, a3),
      Xor(LowTerm(b4, a4), Xor(LowTerm(b5, a5), Xor(LowTerm(b6, a6), LowTerm(b7, a7))))))))
  }

  lemma MulUnrolled(a: Byte, b: Byte)
    ensures Mul(a, b) == Unrolled(a, b)
  {
    hide Mul, LowTerm, XTime, Xor;
    var a1, b1 := XTime(a), b >> 1;
    var a2, b2 := XTime(a1), b1 >> 1;
    var a3, b3 := XTime(a2), b2 >> 1;
    var a4, b4 := XTime(a3), b3 >> 1;
    var a5, b5 := XTime(a4), b4 >> 1;
    var a6, b6 := XTime(a5), b5 >> 1;
    var a7, b7 := XTime(a6), b6 >> 1;
    MulStep(a, b);
    MulStep(a1, b1);
    MulStep(a2, b2);
    MulStep(a3, b3);
    MulStep(a4, b4);
    MulStep(a5, b5);
    MulStep(a6, b6);
    MulStep(a7, b7);
    assert b7 >> 1 == 0;
    MulByZero(XTime(a7));
    XorLaws(LowTerm(b7, a7), 0, 0);
  }

  lemma MulByZero(a: Byte)
    ensures Mul(a, 0) == 0
  {
  }

  lemma MulOne(y: Byte)
    ensures Mul(1, y) == y && Mul(y, 1) == y
  {
    hide Mul;
    MulUnrolled(1, y);
    MulUnrolled(y, 1);
  }

  lemma MulTwo(y: Byte)
    ensures Mul(y, 2) == XTime(y)
  {
    hide Mul;
    MulUnrolled(y, 2);
  }

  lemma MulCommutative(x: Byte, y: Byte)
    ensures Mul(x, y) == Mul(y, x)
  {
    hide Mul;
    MulOne(x);
    MulOne(y);
    MulSwaps(1, x, y);
  }

  lemma MulAssociative(x: Byte, y: Byte, z: Byte)
    ensures Mul(Mul(x, y), z) == Mul(x, Mul(y, z))
  {
    hide Mul;
    MulCommutative(x, y);
    MulSwaps(y, x, z);
    MulCommutative(Mul(y, z), x);
  }

  lemma MulAddsRight(a: Byte, x: Byte, y: Byte)
    ensures Mul(a, Xor(x, y)) == Xor(Mul(a, x), Mul(a, y))
  {
    hide Mul, Xor;
    MulCommutative(a, Xor(x, y));
    MulCommutative(a, x);
    MulCommutative(a, y);
    MulAdds(x, y, a);
  }

  // ----- Squaring and inversion -----

  /** Squaring, which is linear over GF(2): bit k contributes x^(2k). */
  function Square(x: Byte): Byte {
    ((0 - (x & 1)) & 0x01) ^ ((0 - ((x >> 1) & 1)) & 0x04) ^ ((0 - ((x >> 2) & 1)) & 0x10) ^ ((0 - ((x >> 3) & 1)) & 0x40)
      ^ ((0 - ((x >> 4) & 1)) & 0x1b) ^ ((0 - ((x >> 5) & 1)) & 0x6c) ^ ((0 - ((x >> 6) & 1)) & 0xab) ^ ((0 - ((x >> 7) & 1)) & 0x9a)
  }

  lemma SquareIs(x: Byte)
    ensures Mul(x, x) == Square(x)
  {
    hide Mul;
    MulUnrolled(x, x);
  }

  lemma EightSquarings(x: Byte)
    ensures Square(Square(Square(Square(Square(Square(Square(Square(x)))))))) == x
  {
  }

  lemma Idempotents(e: Byte)
    requires Square(e) == e
    ensures e == 0 || e == 1
  {
  }

  lemma {:induction false} PowAdds(x: Byte, m: nat, n: nat)
    ensures Pow(x, m + n) == Mul(Pow(x, m), Pow(x, n))
    decreases n
  {
    hide Mul;
    if n == 0 {
      MulOne(Pow(x, m));
    } else {
      PowAdds(x, m, n - 1);
      MulAssociative(Pow(x, m), Pow(x, n - 1), x);
    }
  }

  lemma PowDoubles(x: Byte, n: nat)
    ensures Pow(x, 2 * n) == Square(Pow(x, n))
  {
    hide Mul, Pow;
    PowAdds(x, n, n);
    SquareIs(Pow(x, n));
  }

  lemma PowOne(x: Byte)
    ensures Pow(x, 0) == 1 && Pow(x, 1) == x
  {
    MulOne(x);
  }

  /** Raising to the 256th power is eight squarings, hence the identity. */
  lemma PowerOf256(x: Byte)
    ensures Pow(x, 256) == x
  {
    hide Mul, Pow, Square;
    PowOne(x);
    PowDoubles(x, 1);
    PowDoubles(x, 2);
    PowDoubles(x, 4);
    PowDoubles(x, 8);
    PowDoubles(x, 16);
    PowDoubles(x, 32);
    PowDoubles(x, 64);
    PowDoubles(x, 128);
    EightSquarings(x);
  }

  /** x^255 is its own square, and only 0 and 1 are; it cannot be 0 because x^255 * x = x. */
  lemma PowerOf255(x: Byte)
    requires x != 0
    ensures Pow(x, 255) == 1
  {
    hide Mul, Pow, Square;
    var e := Pow(x, 255);
    PowOne(x);
    PowerOf256(x);
    PowAdds(x, 255, 1);
    PowAdds(x, 254, 1);
    PowAdds(x, 254, 256);
    PowDoubles(x, 255);
    Idempotents(e);
    MulZeroLeft(x);
  }

  /** What `gf256_inv` computes. */
  function Inverse(x: Byte): Byte {
    Pow(x, 254)
  }

  /** The 254th power is the multiplicative inverse, and zero maps to zero. */
  lemma InverseIs(x: Byte)
    ensures x != 0 ==> Mul(x, Inverse(x)) == 1
    ensures Inverse(0) == 0
  {
    hide Mul, Pow;
    PowAdds(x, 254, 1);
    PowOne(x);
    MulCommutative(x, Pow(x, 254));
    if x != 0 {
      PowerOf255(x);
    }
    PowAdds(0, 253, 1);
    PowOne(0);
    MulByZero(Pow(0, 253));
  }

  lemma InverseIsUnique(x: Byte, y: Byte)
    requires Mul(x, y) == 1
    ensures y == Inverse(x)
  {
    hide Mul, Inverse;
    InverseIs(x);
    MulZeroLeft(y);
    MulCommutative(x, y);
    MulAssociative(y, x, Inverse(x));
    MulOne(y);
    MulOne(Inverse(x));
  }

  lemma InverseInvolutive(x: Byte)
    ensures Inverse(Inverse(x)) == x
  {
    hide Mul, Inverse;
    InverseIs(x);
    if x != 0 {
      MulCommutative(x, Inverse(x));
      InverseIsUnique(Inverse(x), x);
    }
  }

  // ----- The S-box -----

  function RotateLeft(v: Byte, shift: Byte): Byte
    requires 0 < shift < 8
  {
    (v << shift) | (v >> (8 - shift))
  }

  function Affine(b: Byte): Byte {
    b ^ RotateLeft(b, 1) ^ RotateLeft(b, 2) ^ RotateLeft(b, 3) ^ RotateLeft(b, 4) ^ 0x63
  }

  function InverseAffine(b: Byte): Byte {
    RotateLeft(b, 1) ^ RotateLeft(b, 3) ^ RotateLeft(b, 6) ^ 0x05
  }

  lemma AffineInverts(b: Byte)
    ensures InverseAffine(Affine(b)) == b && Affine(InverseAffine(b)) == b
  {
  }

  function Sbox(x: Byte): Byte {
    Affine(Inverse(x))
  }

  /** Bit `i` of a byte, counted from the least significant. */
  function BitOf(b: Byte, i: Byte): Byte
    requires i < 8
  {
    (b >> i) & 1
  }

  /** The rotations add five bits and the constant. */
  lemma AffineBits(b: Byte, i: Byte)
    requires i < 8
    ensures BitOf(Affine(b), i)
         == BitOf(b, i) ^ BitOf(b, (i + 4) % 8) ^ BitOf(b, (i + 5) % 8) ^ BitOf(b, (i + 6) % 8) ^ BitOf(b, (i + 7) % 8) ^ BitOf(0x63, i)
  {
  }

  /** Section 5.1.1 of FIPS-197: for the byte y that multiplies x to 1 (zero for zero), bit i of
      the result is y_i + y_(i+4) + y_(i+5) + y_(i+6) + y_(i+7) + c_i with c = 0x63. */
  lemma SboxBits(x: Byte, y: Byte, i: Byte)
    requires (Mul(x, y) == 1 || (x == 0 && y == 0)) && i < 8
    ensures BitOf(Sbox(x), i)
         == BitOf(y, i) ^ BitOf(y, (i + 4) % 8) ^ BitOf(y, (i + 5) % 8) ^ BitOf(y, (i + 6) % 8) ^ BitOf(y, (i + 7) % 8) ^ BitOf(0x63, i)
  {
    hide Mul, Inverse, Affine;
    MulZeroLeft(y);
    InverseIs(x);
    if x != 0 {
      InverseIsUnique(x, y);
    }
    AffineBits(y, i);
  }

  function InverseSbox(y: Byte): Byte {
    Inverse(InverseAffine(y))
  }

  /** The S-box is a bijection on bytes. */
  lemma SboxInverts(x: Byte)
    ensures InverseSbox(Sbox(x)) == x && Sbox(InverseSbox(x)) == x
  {
    hide Inverse, Affine, InverseAffine;
    AffineInverts(Inverse(x));
    AffineInverts(x);
    InverseInvolutive(x);
    InverseInvolutive(InverseAffine(x));
  }

  // ----- The loops -----

  method Gmul(a0: Byte, b0: Byte) returns (product: Byte)
    ensures product == Mul(a0, b0)
  {
    hide Mul, XTime, Xor, LowTerm;
    var a, b := a0, b0;
    product := 0;
    XorLaws(Mul(a0, b0), 0, 0);
    var i: Byte := 0;
    while i < 8
      invariant i <= 8 && b == b0 >> i
      invariant Xor(product, Mul(a, b)) == Mul(a0, b0)
      decreases 8 - i as int
    {
      MulStep(a, b);
      XorLaws(product, LowTerm(b, a), Mul(XTime(a), b >> 1));
      product := Xor(product, LowTerm(b, a));
      a := XTime(a);
      b := b >> 1;
      i := i + 1;
    }
    MulByZero(a);
    XorLaws(product, 0, 0);
  }

  function Pow2(k: nat): (p: nat)
    ensures p > 0
  {
    if k == 0 then 1 else 2 * Pow2(k - 1)
  }

  /** Square-and-multiply over the exponent 254, left to right: after the bits from `bit` up,
      the result is x to the value of those bits. */
  method Gf256Inv(x: Byte) returns (result: Byte)
    ensures result == Inverse(x)
  {
    hide Mul, Pow, Pow2;
    result := 1;
    PowOne(x);
    assert 254 / Pow2(8) == 0 && Pow2(0) == 1 by { Pow2Values(); }
    for bit := 8 downto 0
      invariant result == Pow(x, 254 / Pow2(bit))
    {
      ghost var n := 254 / Pow2(bit + 1);
      result := Gmul(result, result);
      PowAdds(x, n, n);
      Pow2Next(bit);
      PrefixStep(254, Pow2(bit));
      if 254 / Pow2(bit) % 2 == 1 {
        result := Gmul(result, x);
        PowAdds(x, 2 * n, 1);
      }
    }
  }

  lemma Pow2Values()
    ensures Pow2(0) == 1 && Pow2(8) == 256
  {
  }

  lemma Pow2Next(k: nat)
    ensures Pow2(k + 1) == 2 * Pow2(k)
  {
  }

  lemma PrefixStep(n: nat, p: nat)
    requires p > 0
    ensures n / p == 2 * (n / (2 * p)) + n / p % 2
  {
    var q := n / p;
    assert n == p * q + n % p;
    assert p * q == (2 * p) * (q / 2) + p * (q % 2) by {
      assert q == 2 * (q / 2) + q % 2;
      assert p * (2 * (q / 2)) == (2 * p) * (q / 2);
    }
    assert p * (q % 2) == if q % 2 == 1 then p else 0;
    ModUnique(n, 2 * p, q / 2, p * (q % 2) + n % p);
  }

  /** y_i + y_(i+4) + y_(i+5) + y_(i+6) + y_(i+7) + c_i. */
  function AffineBit(y: Byte, i: Byte): Byte
    requires i < 8
  {
    BitOf(y, i) ^ BitOf(y, (i + 4) % 8) ^ BitOf(y, (i + 5) % 8) ^ BitOf(y, (i + 6) % 8) ^ BitOf(y, (i + 7) % 8) ^ BitOf(0x63, i)
  }

  /** The table-free S-box, also stated without naming it: from the bits of whatever byte
      multiplies x to 1. */
  method CtSbox(x: Byte) returns (y: Byte)
    ensures y == Sbox(x)
    ensures forall inv: Byte, i: Byte :: i < 8 && (Mul(x, inv) == 1 || (x == 0 && inv == 0)) ==> BitOf(y, i) == AffineBit(inv, i)
  {
    hide Inverse, Mul, BitOf, AffineBit;
    var inv := Gf256Inv(x);
    y := inv ^ RotateLeft(inv, 1) ^ RotateLeft(inv, 2) ^ RotateLeft(inv, 3) ^ RotateLeft(inv, 4) ^ 0x63;
    assert y == Sbox(x);
    SubstitutedBits(x);
  }

  lemma SubstitutedBits(x: Byte)
    ensures forall inv: Byte, i: Byte :: i < 8 && (Mul(x, inv) == 1 || (x == 0 && inv == 0)) ==> BitOf(Sbox(x), i) == AffineBit(inv, i)
  {
    hide BitOf, Sbox, Mul;
    forall inv: Byte, i: Byte | i < 8 && (Mul(x, inv) == 1 || (x == 0 && inv == 0))
      ensures BitOf(Sbox(x), i) == AffineBit(inv, i)
    {
      SboxBits(x, inv, i);
    }
  }
}
