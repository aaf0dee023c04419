/** The field of section 6.3 of NIST SP 800-38D: polynomials over GF(2) of degree below 128,
    modulo x^128 + x^7 + x^2 + x + 1. Coefficient i is bit i of a block counted from the left,
    so the "reflected" bit order of the standard is just the order of the coefficients. */
module Gf128 {

  type Poly = p: seq<bool> | |p| == 128 witness Constant(false)

  /** The constant polynomial 0 or 1. */
  function Constant(c: bool): (p: seq<bool>)
    ensures |p| == 128
  {
    seq(128, i => c && i == 0)
  }

  const ZERO: Poly := Constant(false)
  const ONE: Poly := Constant(true)

  function Add(a: seq<bool>, b: seq<bool>): (sum: seq<bool>)
    requires |a| == |b|
    ensures |sum| == |a|
  {
    seq(|a|, i requires 0 <= i < |a| => a[i] != b[i])
  }

  /** Multiplication by x: coefficients move up one place, and x^128 becomes x^7 + x^2 + x + 1. */
  function TimesX(v: Poly): Poly {
    seq(128, i requires 0 <= i < 128 => (i > 0 && v[i - 1]) != (v[127] && (i == 0 || i == 1 || i == 2 || i == 7)))
  }

  function Term(c: bool, v: Poly): Poly {
    if c then v else ZERO
  }

  /** The sum of v * x^k over the positions k of the bits that are set. */
  function Sum(v: Poly, bits: seq<bool>): Poly
    decreases |bits|
  {
    if bits == [] then ZERO else Add(Term(bits[0], v), Sum(TimesX(v), bits[1..]))
  }

  function Mul(v: Poly, y: Poly): Poly {
    Sum(v, y)
  }

  /** Algorithm 1 of section 6.3 from the state (Z, V) on, with the unscanned bits of X. */
  function Algorithm1(z: Poly, v: Poly, bits: seq<bool>): Poly
    decreases |bits|
  {
    if bits == [] then z else Algorithm1(if bits[0] then Add(z, v) else z, TimesX(v), bits[1..])
  }

  /** X * Y as the standard defines it: X is scanned, Y is shifted. */
  function StandardProduct(x: Poly, y: Poly): Poly {
    Algorithm1(ZERO, y, x)
  }

  // ----- Addition -----

  lemma AddAssociative(a: Poly, b: Poly, c: Poly)
    ensures Add(Add(a, b), c) == Add(a, Add(b, c))
  {
  }

  lemma AddZero(a: Poly)
    ensures Add(a, ZERO) == a && Add(ZERO, a) == a && Add(a, a) == ZERO
  {
  }

  lemma AddExchange(a: Poly, b: Poly, c: Poly, d: Poly)
    ensures Add(Add(a, b), Add(c, d)) == Add(Add(a, c), Add(b, d))
  {
  }

  lemma AddCancels(a: Poly, b: Poly)
    ensures Add(a, b) == ZERO <==> a == b
  {
    AddZero(a);
    if Add(a, b) == ZERO {
      assert forall i :: 0 <= i < 128 ==> Add(a, b)[i] == (a[i] != b[i]);
      assert a == b;
    }
  }

  lemma TimesXAdds(a: Poly, b: Poly)
    ensures TimesX(Add(a, b)) == Add(TimesX(a), TimesX(b))
  {
  }

  lemma TimesXZero()
    ensures TimesX(ZERO) == ZERO
  {
  }

  // ----- Multiplication -----

  lemma {:induction false} SumAdds(a: Poly, b: Poly, bits: seq<bool>)
    ensures Sum(Add(a, b), bits) == Add(Sum(a, bits), Sum(b, bits))
    decreases |bits|
  {
    hide Add, TimesX;
    AddZero(ZERO);
    if bits != [] {
      TimesXAdds(a, b);
      SumAdds(TimesX(a), TimesX(b), bits[1..]);
      AddExchange(Term(bits[0], a), Term(bits[0], b), Sum(TimesX(a), bits[1..]), Sum(TimesX(b), bits[1..]));
    }
  }

  lemma {:induction false} SumAddsRight(v: Poly, y: seq<bool>, z: seq<bool>)
    requires |y| == |z|
    ensures Sum(v, Add(y, z)) == Add(Sum(v, y), Sum(v, z))
    decreases |y|
  {
    hide TimesX;
    AddZero(ZERO);
    if y != [] {
      SumAddsRight(TimesX(v), y[1..], z[1..]);
      AddZero(v);
      assert Add(y, z)[1..] == Add(y[1..], z[1..]);
      assert Term(Add(y, z)[0], v) == Add(Term(y[0], v), Term(z[0], v));
      AddExchange(Term(y[0], v), Term(z[0], v), Sum(TimesX(v), y[1..]), Sum(TimesX(v), z[1..]));
    }
  }

  lemma {:induction false} SumTimesX(v: Poly, bits: seq<bool>)
    ensures Sum(TimesX(v), bits) == TimesX(Sum(v, bits))
    decreases |bits|
  {
    hide Add, TimesX;
    TimesXZero();
    if bits != [] {
      SumTimesX(TimesX(v), bits[1..]);
      TimesXAdds(Term(bits[0], v), Sum(TimesX(v), bits[1..]));
    }
  }

  lemma {:induction false} SumZero(bits: seq<bool>)
    ensures Sum(ZERO, bits) == ZERO
  {
    hide Add, TimesX;
    TimesXZero();
    AddZero(ZERO);
    if bits != [] {
      SumZero(bits[1..]);
    }
  }

  /** x^k, as a polynomial. */
  function Monomial(k: nat): Poly {
    seq(128, i => i == k)
  }

  /** `y` without its coefficients below `i`. */
  function From(y: Poly, i: nat): Poly {
    seq(128, k requires 0 <= k < 128 => i <= k && y[k])
  }

  lemma {:induction false} SumOfMonomials(y: Poly, i: nat)
    requires i <= 128
    ensures Sum(Monomial(i), y[i..]) == From(y, i)
    decreases 128 - i
  {
    if i < 128 {
      SumOfMonomials(y, i + 1);
      assert y[i..][1..] == y[i + 1..];
      if i < 127 {
        assert TimesX(Monomial(i)) == Monomial(i + 1);
      } else {
        assert y[i + 1..] == [];
      }
    } else {
      assert ZERO == From(y, i);
    }
  }

  lemma MulOneLeft(y: Poly)
    ensures Mul(ONE, y) == y
  {
    assert ONE == Monomial(0);
    SumOfMonomials(y, 0);
    assert y[0..] == y;
    assert y == From(y, 0);
  }

  /** What makes an operation the field's product: it distributes over addition on the left,
      commutes with multiplication by x, and leaves y alone when the left operand is 1. */
  ghost predicate IsProduct(f: (Poly, Poly) -> Poly) {
    && (forall a: Poly, b: Poly, y: Poly :: f(Add(a, b), y) == Add(f(a, y), f(b, y)))
    && (forall a: Poly, y: Poly :: f(TimesX(a), y) == TimesX(f(a, y)))
    && (forall y: Poly :: f(ONE, y) == y)
  }

  lemma ProductOfZero(f: (Poly, Poly) -> Poly, y: Poly)
    requires IsProduct(f)
    ensures f(ZERO, y) == ZERO
  {
    hide Add, TimesX;
    AddZero(ZERO);
    AddZero(f(ZERO, y));
  }

  /** Any such operation carries a sum of shifted terms through its left operand term by term. */
  lemma {:induction false} ProductOfSum(f: (Poly, Poly) -> Poly, a: Poly, bits: seq<bool>, y: Poly)
    requires IsProduct(f)
    ensures f(Sum(a, bits), y) == Sum(f(a, y), bits)
    decreases |bits|
  {
    hide Add, TimesX;
    ProductOfZero(f, y);
    if bits != [] {
      ProductOfSum(f, TimesX(a), bits[1..], y);
      assert f(Term(bits[0], a), y) == Term(bits[0], f(a, y));
    }
  }

  /** There is exactly one product: every operation that meets `IsProduct` is `Mul`, operands swapped. */
  lemma ProductIsUnique(f: (Poly, Poly) -> Poly, x: Poly, y: Poly)
    requires IsProduct(f)
    ensures f(x, y) == Mul(y, x)
  {
    MulOneLeft(x);
    ProductOfSum(f, ONE, x, y);
  }

  lemma MulIsProduct()
    ensures IsProduct(Mul)
  {
    hide Add, TimesX, Sum;
    forall a: Poly, b: Poly, y: Poly ensures Mul(Add(a, b), y) == Add(Mul(a, y), Mul(b, y)) { SumAdds(a, b, y); }
    forall a: Poly, y: Poly ensures Mul(TimesX(a), y) == TimesX(Mul(a, y)) { SumTimesX(a, y); }
    forall y: Poly ensures Mul(ONE, y) == y { MulOneLeft(y); }
  }

  lemma MulCommutative(x: Poly, y: Poly)
    ensures Mul(x, y) == Mul(y, x)
  {
    MulIsProduct();
    ProductIsUnique(Mul, x, y);
  }

  lemma MulOne(x: Poly)
    ensures Mul(ONE, x) == x && Mul(x, ONE) == x
  {
    MulOneLeft(x);
    MulCommutative(ONE, x);
  }

  lemma MulAssociative(x: Poly, y: Poly, z: Poly)
    ensures Mul(Mul(x, y), z) == Mul(x, Mul(y, z))
  {
    hide Mul, Sum;
    MulIsProduct();
    MulSwaps(y, x, z);
    MulCommutative(x, y);
    MulCommutative(Mul(y, z), x);
  }

  lemma MulSwaps(a: Poly, x: Poly, y: Poly)
    ensures Mul(Mul(a, x), y) == Mul(Mul(a, y), x)
  {
    MulIsProduct();
    ProductOfSum(Mul, a, x, y);
  }

  lemma MulDistributes(a: Poly, b: Poly, y: Poly)
    ensures Mul(Add(a, b), y) == Add(Mul(a, y), Mul(b, y))
    ensures Mul(y, Add(a, b)) == Add(Mul(y, a), Mul(y, b))
  {
    hide Sum, Add;
    SumAdds(a, b, y);
    SumAddsRight(y, a, b);
  }

  lemma MulZero(y: Poly)
    ensures Mul(ZERO, y) == ZERO
  {
    SumZero(y);
  }

  lemma {:induction false} Algorithm1IsSum(z: Poly, v: Poly, bits: seq<bool>)
    ensures Algorithm1(z, v, bits) == Add(z, Sum(v, bits))
    decreases |bits|
  {
    hide Add, TimesX;
    AddZero(z);
    if bits != [] {
      var t := Term(bits[0], v);
      assert (if bits[0] then Add(z, v) else z) == Add(z, t);
      Algorithm1IsSum(Add(z, t), TimesX(v), bits[1..]);
      AddAssociative(z, t, Sum(TimesX(v), bits[1..]));
    }
  }

  /** The library scans its right operand and shifts its left one, the standard does the
      reverse; the two products agree on every pair of blocks. */
  lemma MulIsStandard(x: Poly, y: Poly)
    ensures Mul(x, y) == StandardProduct(x, y)
  {
    Algorithm1IsSum(ZERO, y, x);
    AddZero(Mul(y, x));
    MulCommutative(x, y);
  }
}
