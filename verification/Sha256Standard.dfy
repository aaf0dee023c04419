/** The functions of `Sha256` pinned down without naming their bodies: bit by bit for the logical
    functions of section 4.1.2 of FIPS 180-4, as numbers for constants, words and digest, and as
    two interleaved recurrences for the eight working variables. */
module Sha256Standard {
  import opened Bytes
  import opened MachineWords
  import opened WordSums
  import opened Sha256Constants
  import opened Sha256

  /** Bit `i` of a word, counted from the least significant. */
  function Bit(x: bv32, i: bv32): (b: bv32)
    requires i < 32
    ensures b <= 1
  {
    (x >> i) & 1
  }

  // ----- Section 4.1.2, bit by bit -----

  lemma XorBit(x: bv32, y: bv32, i: bv32)
    requires i < 32
    ensures Bit(Xor32(x, y), i) == Bit(x, i) ^ Bit(y, i)
  {
  }

  lemma AndBit(x: bv32, y: bv32, i: bv32)
    requires i < 32
    ensures Bit(And32(x, y), i) == Bit(x, i) & Bit(y, i)
  {
  }

  lemma NotBit(x: bv32, i: bv32)
    requires i < 32
    ensures Bit(Not32(x), i) == 1 ^ Bit(x, i)
  {
  }

  /** x chooses between y and z. */
  lemma ChBit(x: bv32, y: bv32, z: bv32, i: bv32)
    requires i < 32
    ensures Bit(Ch(x, y, z), i) == if Bit(x, i) == 1 then Bit(y, i) else Bit(z, i)
  {
    hide Bit, Xor32, And32, Not32;
    XorBit(And32(x, y), And32(Not32(x), z), i);
    AndBit(x, y, i);
    AndBit(Not32(x), z, i);
    NotBit(x, i);
  }

  /** Two that agree outvote the third. */
  lemma MajBit(x: bv32, y: bv32, z: bv32, i: bv32)
    requires i < 32
    ensures Bit(Maj(x, y, z), i) == if Bit(x, i) == Bit(y, i) then Bit(x, i) else Bit(z, i)
  {
    hide Bit, Xor32, And32;
    XorBit(Xor32(And32(x, y), And32(x, z)), And32(y, z), i);
    XorBit(And32(x, y), And32(x, z), i);
    AndBit(x, y, i);
    AndBit(x, z, i);
    AndBit(y, z, i);
  }

  /** Place i + n modulo 32, from which a right rotation by n takes bit i. */
  function Turned(i: bv32, n: bv32): (k: bv32)
    ensures k < 32
  {
    (i + n) & 31
  }

  lemma ThreeBits(x: bv32, y: bv32, z: bv32, i: bv32)
    requires i < 32
    ensures Bit(Xor32(Xor32(x, y), z), i) == Bit(x, i) ^ Bit(y, i) ^ Bit(z, i)
  {
    hide Bit, Xor32;
    XorBit(Xor32(x, y), z, i);
    XorBit(x, y, i);
  }

  lemma Sigma0Bit(x: bv32, i: bv32)
    requires i < 32
    ensures Bit(Sigma0(x), i) == Bit(x, Turned(i, 2)) ^ Bit(x, Turned(i, 13)) ^ Bit(x, Turned(i, 22))
  {
    hide Bit, Ror, Xor32, Turned;
    ThreeBits(Ror(x, 2), Ror(x, 13), Ror(x, 22), i);
    Rotated2(x, i);
    Rotated13(x, i);
    Rotated22(x, i);
  }

  lemma Sigma1Bit(x: bv32, i: bv32)
    requires i < 32
    ensures Bit(Sigma1(x), i) == Bit(x, Turned(i, 6)) ^ Bit(x, Turned(i, 11)) ^ Bit(x, Turned(i, 25))
  {
    hide Bit, Ror, Xor32, Turned;
    ThreeBits(Ror(x, 6), Ror(x, 11), Ror(x, 25), i);
    Rotated6(x, i);
    Rotated11(x, i);
    Rotated25(x, i);
  }

  /** A shift, unlike a rotation, brings in zeros. */
  lemma Gamma0Bit(x: bv32, i: bv32)
    requires i < 32
    ensures Bit(Gamma0(x), i) == Bit(x, Turned(i, 7)) ^ Bit(x, Turned(i, 18)) ^ (if i < 29 then Bit(x, Turned(i, 3)) else 0)
  {
    hide Bit, Ror, Shr, Xor32, Turned;
    ThreeBits(Ror(x, 7), Ror(x, 18), Shr(x, 3), i);
    Rotated7(x, i);
    Rotated18(x, i);
    Shifted3(x, i);
  }

  lemma Gamma1Bit(x: bv32, i: bv32)
    requires i < 32
    ensures Bit(Gamma1(x), i) == Bit(x, Turned(i, 17)) ^ Bit(x, Turned(i, 19)) ^ (if i < 22 then Bit(x, Turned(i, 10)) else 0)
  {
    hide Bit, Ror, Shr, Xor32, Turned;
    ThreeBits(Ror(x, 17), Ror(x, 19), Shr(x, 10), i);
    Rotated17(x, i);
    Rotated19(x, i);
    Shifted10(x, i);
  }

  lemma Rotated2(x: bv32, i: bv32)
    requires i < 32
    ensures Bit(Ror(x, 2), i) == Bit(x, Turned(i, 2))
  {
  }

  lemma Rotated13(x: bv32, i: bv32)
    requires i < 32
    ensures Bit(Ror(x, 13), i) == Bit(x, Turned(i, 13))
  {
  }

  lemma Rotated22(x: bv32, i: bv32)
    requires i < 32
    ensures Bit(Ror(x, 22), i) == Bit(x, Turned(i, 22))
  {
  }

  lemma Rotated6(x: bv32, i: bv32)
    requires i < 32
    ensures Bit(Ror(x, 6), i) == Bit(x, Turned(i, 6))
  {
  }

  lemma Rotated11(x: bv32, i: bv32)
    requires i < 32
    ensures Bit(Ror(x, 11), i) == Bit(x, Turned(i, 11))
  {
  }

  lemma Rotated25(x: bv32, i: bv32)
    requires i < 32
    ensures Bit(Ror(x, 25), i) == Bit(x, Turned(i, 25))
  {
  }

  lemma Rotated7(x: bv32, i: bv32)
    requires i < 32
    ensures Bit(Ror(x, 7), i) == Bit(x, Turned(i, 7))
  {
  }

  lemma Rotated18(x: bv32, i: bv32)
    requires i < 32
    ensures Bit(Ror(x, 18), i) == Bit(x, Turned(i, 18))
  {
  }

  lemma Rotated17(x: bv32, i: bv32)
    requires i < 32
    ensures Bit(Ror(x, 17), i) == Bit(x, Turned(i, 17))
  {
  }

  lemma Rotated19(x: bv32, i: bv32)
    requires i < 32
    ensures Bit(Ror(x, 19), i) == Bit(x, Turned(i, 19))
  {
  }

  lemma Shifted3(x: bv32, i: bv32)
    requires i < 32
    ensures Bit(Shr(x, 3), i) == if i < 29 then Bit(x, Turned(i, 3)) else 0
  {
  }

  lemma Shifted10(x: bv32, i: bv32)
    requires i < 32
    ensures Bit(Shr(x, 10), i) == if i < 22 then Bit(x, Turned(i, 10)) else 0
  {
  }

  // ----- Words, constants and digest as numbers -----

  /** A message word is the big-endian value of its four bytes. */
  lemma WordAtIs(b: seq<Byte>, i: nat)
    requires i + 4 <= |b|
    ensures NumberOf32(WordAt(b, i)) == BigEndianValue(b[i..i + 4])
  {
    hide ValueOf, LittleEndianValue, BigEndianValue, WordAt, BytesOf32, NumberOf32;
    var b0, b1, b2, b3 := b[i], b[i + 1], b[i + 2], b[i + 3];
    WordAtBytes(b, i);
    NumberIsLittleEndian(WordAt(b, i));
    FourByteValues(b3, b2, b1, b0);
    FourByteValues(b0, b1, b2, b3);
    assert b[i..i + 4] == [b0, b1, b2, b3];
  }

  lemma WordAtBytes(b: seq<Byte>, i: nat)
    requires i + 4 <= |b|
    ensures BytesOf32(WordAt(b, i)) == [b[i + 3], b[i + 2], b[i + 1], b[i]]
  {
    JoinedBigEndian(b[i], b[i + 1], b[i + 2], b[i + 3]);
  }

  lemma JoinedBigEndian(b0: Byte, b1: Byte, b2: Byte, b3: Byte)
    ensures BytesOf32((b0 as bv32 << 24) | (b1 as bv32 << 16) | (b2 as bv32 << 8) | b3 as bv32) == [b3, b2, b1, b0]
  {
  }

  /** The bytes of a word are its number in big-endian order. */
  lemma WordBytesAre(x: bv32)
    ensures BigEndianValue(WordBytes(x)) == NumberOf32(x)
  {
    hide ValueOf, LittleEndianValue, BigEndianValue;
    var s := BytesOf32(x);
    NumberIsLittleEndian(x);
    FourByteValues(s[0], s[1], s[2], s[3]);
    FourByteValues(s[3], s[2], s[1], s[0]);
    assert WordBytes(x) == [s[3], s[2], s[1], s[0]] && s == [s[0], s[1], s[2], s[3]];
  }

  /** The digest is the eight hash words in order, four bytes each. */
  lemma DigestIs(s: Words)
    ensures
      var d := Digest(s);
      && BigEndianValue(d[0..4]) == NumberOf32(s.a) && BigEndianValue(d[4..8]) == NumberOf32(s.b)
      && BigEndianValue(d[8..12]) == NumberOf32(s.c) && BigEndianValue(d[12..16]) == NumberOf32(s.d)
      && BigEndianValue(d[16..20]) == NumberOf32(s.e) && BigEndianValue(d[20..24]) == NumberOf32(s.f)
      && BigEndianValue(d[24..28]) == NumberOf32(s.g) && BigEndianValue(d[28..32]) == NumberOf32(s.h)
  {
    hide WordBytes, NumberOf32, BigEndianValue;
    EightParts(WordBytes(s.a), WordBytes(s.b), WordBytes(s.c), WordBytes(s.d), WordBytes(s.e), WordBytes(s.f), WordBytes(s.g), WordBytes(s.h));
    WordBytesAre(s.a);
    WordBytesAre(s.b);
    WordBytesAre(s.c);
    WordBytesAre(s.d);
    WordBytesAre(s.e);
    WordBytesAre(s.f);
    WordBytesAre(s.g);
    WordBytesAre(s.h);
  }

  lemma EightParts(a: seq<Byte>, b: seq<Byte>, c: seq<Byte>, d: seq<Byte>, e: seq<Byte>, f: seq<Byte>, g: seq<Byte>, h: seq<Byte>)
    requires |a| == |b| == |c| == |d| == |e| == |f| == |g| == |h| == 4
    ensures
      var t := a + b + c + d + e + f + g + h;
      && t[0..4] == a && t[4..8] == b && t[8..12] == c && t[12..16] == d
      && t[16..20] == e && t[20..24] == f && t[24..28] == g && t[28..32] == h
  {
    var u := a + b + c + d;
    var t := u + e + f + g + h;
    assert u[0..4] == a && u[4..8] == b && u[8..12] == c && u[12..16] == d;
    assert t[..16] == u;
    assert t[0..4] == u[0..4] && t[4..8] == u[4..8] && t[8..12] == u[8..12] && t[12..16] == u[12..16];
  }

  /** `k` holds the first 32 bits of the fractional part of the square root of `p`. */
  ghost predicate IsSquareRootFraction(p: nat, k: nat) {
    exists i: nat :: SquareRootAt(p, i, k)
  }

  predicate SquareRootAt(p: nat, i: nat, k: nat) {
    var c := i * TWO_32 + k;
    k < TWO_32 && c * c <= p * (TWO_32 * TWO_32) < (c + 1) * (c + 1)
  }

  /** Section 5.3.3: the initial hash value comes from the first eight primes. */
  lemma InitialAreSquareRoots()
    ensures IsSquareRootFraction(2, NumberOf32(INITIAL.a)) && IsSquareRootFraction(3, NumberOf32(INITIAL.b))
    ensures IsSquareRootFraction(5, NumberOf32(INITIAL.c)) && IsSquareRootFraction(7, NumberOf32(INITIAL.d))
    ensures IsSquareRootFraction(11, NumberOf32(INITIAL.e)) && IsSquareRootFraction(13, NumberOf32(INITIAL.f))
    ensures IsSquareRootFraction(17, NumberOf32(INITIAL.g)) && IsSquareRootFraction(19, NumberOf32(INITIAL.h))
  {
    hide NumberOf32, IsSquareRootFraction;
    InitialNumbers();
    RootIs(2, 1, 0x6a09e667);
    RootIs(3, 1, 0xbb67ae85);
    RootIs(5, 2, 0x3c6ef372);
    RootIs(7, 2, 0xa54ff53a);
    RootIs(11, 3, 0x510e527f);
    RootIs(13, 3, 0x9b05688c);
    RootIs(17, 4, 0x1f83d9ab);
    RootIs(19, 4, 0x5be0cd19);
  }

  lemma RootIs(p: nat, i: nat, k: nat)
    requires SquareRootAt(p, i, k)
    ensures IsSquareRootFraction(p, k)
  {
    hide SquareRootAt;
  }

  lemma InitialNumbers()
    ensures NumberOf32(INITIAL.a) == 0x6a09e667 && NumberOf32(INITIAL.b) == 0xbb67ae85
    ensures NumberOf32(INITIAL.c) == 0x3c6ef372 && NumberOf32(INITIAL.d) == 0xa54ff53a
    ensures NumberOf32(INITIAL.e) == 0x510e527f && NumberOf32(INITIAL.f) == 0x9b05688c
    ensures NumberOf32(INITIAL.g) == 0x1f83d9ab && NumberOf32(INITIAL.h) == 0x5be0cd19
  {
  }

  // ----- Section 6.2.2 as two recurrences -----

  /** The rotating variables are two sequences: a, b, c, d are the last four values of one and
      e, f, g, h of the other. What round `t` adds to them: */
  ghost predicate RoundHolds(w: seq<bv32>, a: seq<bv32>, e: seq<bv32>, t: nat)
    requires |w| == 64 && |a| == |e| == 68 && t < 64
  {
    var t1 := Plus(Plus(Plus(Plus(e[t], Sigma1(e[t + 3])), Ch(e[t + 3], e[t + 2], e[t + 1])), K(t)), w[t]);
    && e[t + 4] == Plus(a[t], t1)
    && a[t + 4] == Plus(t1, Plus(Sigma0(a[t + 3]), Maj(a[t + 3], a[t + 2], a[t + 1])))
  }

  /** What the message schedule holds at `t`: the block's own words, then the expansion. */
  ghost predicate ScheduleHolds(m: Chunk, w: seq<bv32>, t: nat)
    requires |w| == 64 && t < 64
  {
    if t < 16 then NumberOf32(w[t]) == BigEndianValue(m[4 * t..4 * t + 4])
    else w[t] == Plus(Plus(Plus(Gamma1(w[t - 2]), w[t - 7]), Gamma0(w[t - 15])), w[t - 16])
  }

  lemma {:induction false} RoundsAreRecurrences(s: Words, m: Chunk, w: seq<bv32>, a: seq<bv32>, e: seq<bv32>, t: nat)
    requires |w| == 64 && |a| == |e| == 68 && t <= 64
    requires [a[3], a[2], a[1], a[0]] == [s.a, s.b, s.c, s.d] && [e[3], e[2], e[1], e[0]] == [s.e, s.f, s.g, s.h]
    requires forall j :: 0 <= j < 64 ==> w[j] == Schedule(m, j)
    requires forall j :: 0 <= j < 64 ==> RoundHolds(w, a, e, j)
    ensures Rounds(s, m, t) == Words(a[t + 3], a[t + 2], a[t + 1], a[t], e[t + 3], e[t + 2], e[t + 1], e[t])
  {
    hide Plus, Sigma0, Sigma1, Ch, Maj, K, Schedule;
    if t == 0 {
      var p, q := [a[3], a[2], a[1], a[0]], [e[3], e[2], e[1], e[0]];
      assert p[0] == s.a && p[1] == s.b && p[2] == s.c && p[3] == s.d;
      assert q[0] == s.e && q[1] == s.f && q[2] == s.g && q[3] == s.h;
    } else {
      RoundsAreRecurrences(s, m, w, a, e, t - 1);
      assert RoundHolds(w, a, e, t - 1) && w[t - 1] == Schedule(m, t - 1);
    }
  }

  /** The compression of one block, from the block's bytes: w is the message schedule, a and e the
      two sequences, and the last values of both are added to the old hash. */
  lemma CompressIsStandard(h: Words, m: Chunk, w: seq<bv32>, a: seq<bv32>, e: seq<bv32>)
    requires |w| == 64 && |a| == |e| == 68
    requires [a[3], a[2], a[1], a[0]] == [h.a, h.b, h.c, h.d] && [e[3], e[2], e[1], e[0]] == [h.e, h.f, h.g, h.h]
    requires forall t :: 0 <= t < 64 ==> ScheduleHolds(m, w, t)
    requires forall t :: 0 <= t < 64 ==> RoundHolds(w, a, e, t)
    ensures Compress(h, m) == Words(Plus(h.a, a[67]), Plus(h.b, a[66]), Plus(h.c, a[65]), Plus(h.d, a[64]),
                                    Plus(h.e, e[67]), Plus(h.f, e[66]), Plus(h.g, e[65]), Plus(h.h, e[64]))
  {
    hide Plus, Schedule, ScheduleHolds, RoundHolds;
    forall j | 0 <= j < 64
      ensures w[j] == Schedule(m, j)
    {
      ScheduleIsStandard(m, w, j);
    }
    RoundsAreRecurrences(h, m, w, a, e, 64);
  }

  lemma {:induction false} ScheduleIsStandard(m: Chunk, w: seq<bv32>, t: nat)
    requires |w| == 64 && t < 64
    requires forall j :: 0 <= j < 64 ==> ScheduleHolds(m, w, j)
    ensures w[t] == Schedule(m, t)
    decreases t
  {
    hide Plus, Schedule, NumberOf32, BigEndianValue, Gamma0, Gamma1, WordAt;
    ScheduleIs(m, t);
    assert ScheduleHolds(m, w, t);
    if t < 16 {
      WordAtIs(m, 4 * t);
      NumberDetermines(w[t], WordAt(m, 4 * t));
    } else {
      ScheduleIsStandard(m, w, t - 2);
      ScheduleIsStandard(m, w, t - 7);
      ScheduleIsStandard(m, w, t - 15);
      ScheduleIsStandard(m, w, t - 16);
    }
  }

  lemma NumberDetermines(x: bv32, y: bv32)
    requires NumberOf32(x) == NumberOf32(y)
    ensures x == y
  {
    hide NumberOf32, BigEndianValue, WordBytes;
    WordBytesAre(x);
    WordBytesAre(y);
    BigEndianValueInjective(WordBytes(x), WordBytes(y));
    WordBytesDetermine(x, y);
  }

  lemma WordBytesDetermine(x: bv32, y: bv32)
    requires WordBytes(x) == WordBytes(y)
    ensures x == y
  {
    var b, c := WordBytes(x), WordBytes(y);
    assert b[0] == c[0] && b[1] == c[1] && b[2] == c[2] && b[3] == c[3];
    FourBytesDetermine(x, y);
  }

  lemma FourBytesDetermine(x: bv32, y: bv32)
    requires ((x >> 24) & 0xff) as Byte == ((y >> 24) & 0xff) as Byte && ((x >> 16) & 0xff) as Byte == ((y >> 16) & 0xff) as Byte
    requires ((x >> 8) & 0xff) as Byte == ((y >> 8) & 0xff) as Byte && (x & 0xff) as Byte == (y & 0xff) as Byte
    ensures x == y
  {
  }

  // ----- Section 5.1.1 -----

  /** The padded message, place by place: the message, 0x80, zeros, and in the last eight bytes the
      bit length modulo 2^64; the length is the least multiple of 64 that has room for this. */
  lemma PadIsStandard(msg: seq<Byte>)
    ensures
      var p, n := Pad(msg), |msg|;
      && |p| % 64 == 0 && n + 9 <= |p| < n + 73
      && p[..n] == msg && p[n] == 0x80
      && (forall i :: n < i < |p| - 8 ==> p[i] == 0)
      && BigEndianValue(p[|p| - 8..]) == 8 * n % 0x1_0000_0000_0000_0000
  {
    hide BigEndian, BigEndianValue, ZeroCount;
    var p, n := Pad(msg), |msg|;
    ZeroCountOf(n / 64 * 64, n % 64);
    BigEndianRoundTrip(8 * n, 8);
    assert Pow256(8) == TWO_64;
    assert p[|p| - 8..] == BigEndian(8 * n, 8);
  }

  /** The hash folds the compression over the padded message's blocks, from the initial value. */
  lemma HashIsFold(msg: seq<Byte>, h: seq<Words>)
    requires |h| == |Pad(msg)| / 64 + 1 && h[0] == INITIAL
    requires forall i :: 0 <= i < |h| - 1 ==> h[i + 1] == Compress(h[i], Pad(msg)[64 * i..64 * i + 64])
    ensures Hash(msg) == Digest(h[|h| - 1])
  {
    hide Compress, Digest, Pad;
    FoldIsSequence(Pad(msg), h, |h| - 1);
    assert Pad(msg)[..64 * (|h| - 1)] == Pad(msg);
  }

  lemma {:induction false} FoldIsSequence(data: seq<Byte>, h: seq<Words>, n: nat)
    requires |data| % 64 == 0 && |h| == |data| / 64 + 1 && h[0] == INITIAL && n < |h|
    requires forall i :: 0 <= i < |h| - 1 ==> h[i + 1] == Compress(h[i], data[64 * i..64 * i + 64])
    ensures Fold(data[..64 * n]) == h[n]
  {
    hide Compress, Fold;
    if n == 0 {
      FoldNone(data[..0]);
    } else {
      FoldIsSequence(data, h, n - 1);
      FoldNext(data[..64 * (n - 1)], data[64 * (n - 1)..64 * n]);
      assert data[..64 * n] == data[..64 * (n - 1)] + data[64 * (n - 1)..64 * n];
      assert h[n - 1 + 1] == Compress(h[n - 1], data[64 * (n - 1)..64 * (n - 1) + 64]);
    }
  }
}
