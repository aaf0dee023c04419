/** Bytes, byte strings and the fixed-width integer encodings shared by every component. */
module Bytes {

  type Byte = bv8

  datatype Option<+T> = None | Some(value: T)

  /** The three exception classes the library throws on bad input. */
  datatype Error = FormatError | LimitError | AuthenticationError

  datatype Result<+T> = Ok(value: T) | Err(error: Error)

  const TWO_32: nat := 0x1_0000_0000
  const TWO_61: nat := 0x2000_0000_0000_0000
  const TWO_64: nat := 0x1_0000_0000_0000_0000

  /** Truncation of an unsigned integer to its low byte, as `static_cast<std::byte>` does. */
  function ByteOf(n: nat): Byte {
    (n % 256) as bv8
  }

  function ValueOf(b: Byte): (n: nat)
    ensures n < 256
  {
    b as nat
  }

  /** The byte counted up to from zero. */
  function Counted(n: nat): (a: Byte)
    ensures n < 256 ==> a as int == n
  {
    if n == 0 then 0 else
      var before := Counted(n - 1);
      assert n < 256 ==> before < 255 && (before + 1) as int == before as int + 1;
      before + 1
  }

  lemma CountedIs(n: nat, a: Byte)
    requires n < 256 && a as int == n
    ensures Counted(n) == a
  {
  }

  lemma ByteOfValue(b: Byte)
    ensures ByteOf(ValueOf(b)) == b
  {
    assert (b as nat) % 256 == b as nat;
    assert (b as nat) as bv8 == b;
  }

  lemma ValueOfByte(n: nat)
    ensures ValueOf(ByteOf(n)) == n % 256
  {
    var b := Counted(n % 256);
    assert (b as nat) as bv8 == b;
  }

  function Zeros(n: nat): (s: seq<Byte>)
    ensures |s| == n && forall i :: 0 <= i < n ==> s[i] == 0
  {
    seq(n, i => 0)
  }

  /** `Block`: sixteen bytes. */
  type Block = s: seq<Byte> | |s| == 16 witness Zeros(16)

  /** Exclusive or of two bytes, named so that a proof can treat it as opaque. */
  function Xor(a: Byte, b: Byte): Byte {
    a ^ b
  }

  lemma XorLaws(a: Byte, b: Byte, c: Byte)
    ensures Xor(Xor(a, b), c) == Xor(a, Xor(b, c))
    ensures Xor(a, b) == Xor(b, a)
    ensures Xor(a, 0) == a && Xor(0, a) == a
    ensures Xor(a, a) == 0 && Xor(Xor(a, b), b) == a
  {
  }

  lemma XorExchange(a: Byte, b: Byte, c: Byte, d: Byte)
    ensures Xor(Xor(a, b), Xor(c, d)) == Xor(Xor(a, c), Xor(b, d))
  {
    hide Xor;
    XorLaws(a, b, Xor(c, d));
    XorLaws(b, c, d);
    XorLaws(c, b, d);
    XorLaws(a, c, Xor(b, d));
  }

  /** Position-wise exclusive or; the shorter operand decides the length. */
  function XorBytes(a: seq<Byte>, b: seq<Byte>): (s: seq<Byte>)
    ensures |s| == if |a| <= |b| then |a| else |b|
    ensures forall i :: 0 <= i < |s| ==> s[i] == Xor(a[i], b[i])
  {
    seq(if |a| <= |b| then |a| else |b|, i requires 0 <= i < |a| && i < |b| => Xor(a[i], b[i]))
  }

  function Pow256(k: nat): (p: nat)
    ensures p > 0
  {
    if k == 0 then 1 else 256 * Pow256(k - 1)
  }

  /** n >> 8 * i. */
  function ShiftRight(n: nat, i: nat): nat
    decreases i
  {
    if i == 0 then n else ShiftRight(n / 256, i - 1)
  }

  /** The low `k` bytes of `n`, least significant first. */
  function LittleEndian(n: nat, k: nat): (s: seq<Byte>)
    ensures |s| == k
  {
    seq(k, i requires 0 <= i => ByteOf(ShiftRight(n, i)))
  }

  function LittleEndianValue(s: seq<Byte>): (n: nat)
    ensures n < Pow256(|s|)
  {
    if s == [] then 0 else ValueOf(s[0]) + 256 * LittleEndianValue(s[1..])
  }

  /** The low `k` bytes of `n`, most significant first. */
  function BigEndian(n: nat, k: nat): (s: seq<Byte>)
    ensures |s| == k
  {
    seq(k, i requires 0 <= i < k => ByteOf(ShiftRight(n, k - 1 - i)))
  }

  lemma LittleEndianStep(n: nat, k: nat)
    requires k > 0
    ensures LittleEndian(n, k) == [ByteOf(n)] + LittleEndian(n / 256, k - 1)
  {
    hide ByteOf;
  }

  lemma BigEndianStep(n: nat, k: nat)
    requires k > 0
    ensures BigEndian(n, k) == BigEndian(n / 256, k - 1) + [ByteOf(n)]
  {
    hide ByteOf;
    var whole, front := BigEndian(n, k), BigEndian(n / 256, k - 1);
    forall i | 0 <= i < k - 1
      ensures whole[i] == front[i]
    {
      assert ShiftRight(n, k - 1 - i) == ShiftRight(n / 256, k - 2 - i);
    }
    assert whole == whole[..k - 1] + [whole[k - 1]];
    assert whole[..k - 1] == front && ShiftRight(n, 0) == n;
  }

  lemma DivModStep(n: nat, p: nat)
    requires p > 0
    ensures n % (256 * p) == n % 256 + 256 * (n / 256 % p)
  {
    var q := n / 256;
    var r := q % p;
    assert q == q / p * p + r;
    assert n == 256 * q + n % 256;
    assert n == (256 * p) * (q / p) + (n % 256 + 256 * r) by {
      assert 256 * (q / p * p) == (256 * p) * (q / p);
    }
    assert 0 <= n % 256 + 256 * r < 256 * p;
    ModUnique(n, 256 * p, q / p, n % 256 + 256 * r);
  }

  lemma ModUnique(n: nat, d: nat, q: nat, r: nat)
    requires d > 0 && r < d && n == d * q + r
    ensures n % d == r && n / d == q
  {
    var q' := n / d;
    var e := q' - q;
    assert d * e == r - n % d by { assert d * e == d * q' - d * q; }
  }

  /** Decoding what was encoded gives the value back, truncated to the field's width. */
  lemma {:induction false} LittleEndianRoundTrip(n: nat, k: nat)
    ensures LittleEndianValue(LittleEndian(n, k)) == n % Pow256(k)
    decreases k
  {
    hide ByteOf, ValueOf, LittleEndian;
    if k > 0 {
      LittleEndianStep(n, k);
      ValueOfByte(n);
      LittleEndianRoundTrip(n / 256, k - 1);
      DivModStep(n, Pow256(k - 1));
      assert LittleEndian(n, k)[1..] == LittleEndian(n / 256, k - 1);
    }
  }

  /** Encoding what was decoded gives the same bytes back: the field has one encoding only. */
  lemma {:induction false} LittleEndianBytesRoundTrip(s: seq<Byte>)
    ensures LittleEndian(LittleEndianValue(s), |s|) == s
  {
    hide ByteOf, ValueOf, LittleEndian;
    if s == [] {
      assert LittleEndian(0, 0) == [];
    } else {
      LittleEndianStep(LittleEndianValue(s), |s|);
      var v, rest := ValueOf(s[0]), LittleEndianValue(s[1..]);
      assert (v + 256 * rest) % 256 == v && (v + 256 * rest) / 256 == rest;
      ByteOfValue(s[0]);
      ByteOfMod(v + 256 * rest);
      LittleEndianBytesRoundTrip(s[1..]);
      assert s == [s[0]] + s[1..];
    }
  }

  lemma ByteOfMod(n: nat)
    ensures ByteOf(n) == ByteOf(n % 256)
  {
  }

  /** Equal encodings come from values equal modulo the width. */
  lemma {:induction false} BigEndianInjective(m: nat, n: nat, k: nat)
    requires BigEndian(m, k) == BigEndian(n, k)
    ensures m % Pow256(k) == n % Pow256(k)
    decreases k
  {
    hide ByteOf, BigEndian;
    if k > 0 {
      BigEndianStep(m, k);
      BigEndianStep(n, k);
      var a, b := BigEndian(m, k), BigEndian(n, k);
      assert a[k - 1] == ByteOf(m) && b[k - 1] == ByteOf(n);
      assert a[..k - 1] == BigEndian(m / 256, k - 1) && b[..k - 1] == BigEndian(n / 256, k - 1);
      BigEndianInjective(m / 256, n / 256, k - 1);
      ValueOfByte(m);
      ValueOfByte(n);
      DivModStep(m, Pow256(k - 1));
      DivModStep(n, Pow256(k - 1));
    }
  }

  lemma {:induction false} BigEndianTruncates(n: nat, k: nat)
    ensures BigEndian(n, k) == BigEndian(n % Pow256(k), k)
    decreases k
  {
    hide ByteOf, BigEndian;
    if k == 0 {
      assert BigEndian(n, 0) == [] == BigEndian(n % Pow256(0), 0);
    } else {
      var m, p := n % Pow256(k), Pow256(k - 1);
      BigEndianStep(n, k);
      BigEndianStep(m, k);
      DivModStep(n, p);
      assert m % 256 == n % 256 && m / 256 == n / 256 % p;
      ByteOfMod(n);
      ByteOfMod(m);
      BigEndianTruncates(n / 256, k - 1);
    }
  }

  function BigEndianValue(s: seq<Byte>): nat {
    if s == [] then 0 else 256 * BigEndianValue(s[..|s| - 1]) + ValueOf(s[|s| - 1])
  }

  lemma {:induction false} BigEndianRoundTrip(n: nat, k: nat)
    ensures BigEndianValue(BigEndian(n, k)) == n % Pow256(k)
    decreases k
  {
    hide ByteOf, ValueOf, BigEndian;
    if k > 0 {
      BigEndianStep(n, k);
      ValueOfByte(n);
      BigEndianRoundTrip(n / 256, k - 1);
      DivModStep(n, Pow256(k - 1));
      assert BigEndian(n, k)[..k - 1] == BigEndian(n / 256, k - 1);
    }
  }

  lemma {:induction false} BigEndianValueInjective(s: seq<Byte>, t: seq<Byte>)
    requires |s| == |t| && BigEndianValue(s) == BigEndianValue(t)
    ensures s == t
  {
    hide ValueOf;
    if s != [] {
      var k := |s| - 1;
      DigitsUnique(BigEndianValue(s[..k]), ValueOf(s[k]), BigEndianValue(t[..k]), ValueOf(t[k]));
      BigEndianValueInjective(s[..k], t[..k]);
      SameValue(s[k], t[k]);
      assert s == s[..k] + [s[k]] && t == t[..k] + [t[k]];
    }
  }

  lemma DigitsUnique(a: nat, x: nat, b: nat, y: nat)
    requires 256 * a + x == 256 * b + y && x < 256 && y < 256
    ensures a == b && x == y
  {
  }

  lemma SameValue(a: Byte, b: Byte)
    requires ValueOf(a) == ValueOf(b)
    ensures a == b
  {
    hide ValueOf, ByteOf;
    ByteOfValue(a);
    ByteOfValue(b);
  }

  /** A big-endian field is the one byte string of its width with its value. */
  lemma BigEndianIs(s: seq<Byte>, n: nat)
    requires BigEndianValue(s) == n % Pow256(|s|)
    ensures s == BigEndian(n, |s|)
  {
    hide BigEndian, BigEndianValue;
    BigEndianRoundTrip(n, |s|);
    BigEndianValueInjective(s, BigEndian(n, |s|));
  }

  lemma {:induction false} ZerosThenByte(k: nat, b: Byte)
    ensures BigEndianValue(Zeros(k)) == 0 && BigEndianValue(Zeros(k) + [b]) == ValueOf(b)
  {
    hide ValueOf, BigEndianValue;
    LowestLast(Zeros(k), b);
    if k == 0 {
      assert Zeros(0) == [];
    } else {
      ZerosThenByte(k - 1, 0);
      assert Zeros(k) == Zeros(k - 1) + [0];
      ValueOfZero();
    }
  }

  lemma ValueOfZero()
    ensures ValueOf(0) == 0
  {
  }

  /** Which byte counts how much, in either order. */
  lemma FourByteValues(a: Byte, b: Byte, c: Byte, d: Byte)
    ensures LittleEndianValue([a, b, c, d])
         == ValueOf(a) + 0x100 * ValueOf(b) + 0x1_0000 * ValueOf(c) + 0x100_0000 * ValueOf(d)
    ensures BigEndianValue([a, b, c, d])
         == 0x100_0000 * ValueOf(a) + 0x1_0000 * ValueOf(b) + 0x100 * ValueOf(c) + ValueOf(d)
  {
    hide ValueOf, LittleEndianValue, BigEndianValue;
    LittleBytes(a, b, c, d);
    BigBytes(a, b, c, d);
  }

  lemma LittleBytes(a: Byte, b: Byte, c: Byte, d: Byte)
    ensures LittleEndianValue([a, b, c, d])
         == ValueOf(a) + 0x100 * ValueOf(b) + 0x1_0000 * ValueOf(c) + 0x100_0000 * ValueOf(d)
  {
    hide ValueOf, LittleEndianValue;
    LowestFirst(d, []);
    LowestFirst(c, [d]);
    LowestFirst(b, [c, d]);
    LowestFirst(a, [b, c, d]);
    assert [d] + [] == [d] && [c] + [d] == [c, d] && [b] + [c, d] == [b, c, d] && [a] + [b, c, d] == [a, b, c, d];
  }

  lemma LowestFirst(b: Byte, s: seq<Byte>)
    ensures LittleEndianValue([b] + s) == ValueOf(b) + 256 * LittleEndianValue(s)
    ensures LittleEndianValue([]) == 0
  {
    hide ValueOf;
    assert ([b] + s)[1..] == s;
  }

  lemma BigBytes(a: Byte, b: Byte, c: Byte, d: Byte)
    ensures BigEndianValue([a, b, c, d])
         == 0x100_0000 * ValueOf(a) + 0x1_0000 * ValueOf(b) + 0x100 * ValueOf(c) + ValueOf(d)
  {
    hide ValueOf, BigEndianValue;
    LowestLast([], a);
    LowestLast([a], b);
    LowestLast([a, b], c);
    LowestLast([a, b, c], d);
    assert [] + [a] == [a] && [a] + [b] == [a, b] && [a, b] + [c] == [a, b, c] && [a, b, c] + [d] == [a, b, c, d];
  }

  lemma LowestLast(s: seq<Byte>, b: Byte)
    ensures BigEndianValue(s + [b]) == 256 * BigEndianValue(s) + ValueOf(b)
    ensures BigEndianValue([]) == 0
  {
    hide ValueOf;
    assert (s + [b])[..|s|] == s;
  }

  /** A 64-bit field holding a bit length tells byte lengths apart exactly modulo 2^61. */
  lemma LengthFieldExact(a: nat, a': nat)
    ensures BigEndian(8 * a, 8) == BigEndian(8 * a', 8) <==> a % TWO_61 == a' % TWO_61
  {
    hide BigEndian;
    assert Pow256(8) == TWO_64;
    assert (8 * a) % TWO_64 == 8 * (a % TWO_61) && (8 * a') % TWO_64 == 8 * (a' % TWO_61);
    if BigEndian(8 * a, 8) == BigEndian(8 * a', 8) {
      BigEndianInjective(8 * a, 8 * a', 8);
    }
    if a % TWO_61 == a' % TWO_61 {
      BigEndianTruncates(8 * a, 8);
      BigEndianTruncates(8 * a', 8);
    }
  }
}
