/** GHASH (section 6.4 of NIST SP 800-38D): the padding fold of `ghash`, its closed form and
    its linearity. */
module Ghash {
  import opened Bytes
  import opened Gf128
  import opened Gf128Lanes

  // ----- The block sequence -----

  /** `data` cut into 16-byte blocks, the last one padded with zeros. */
  function Blocks(data: seq<Byte>): seq<Block> {
    if data == [] then []
    else if |data| <= 16 then [data + Zeros(16 - |data|)]
    else [data[..16]] + Blocks(data[16..])
  }

  /** The two 64-bit big-endian bit lengths; `* 8` wraps as it does on `std::uint64_t`. */
  function LengthBlock(aadLen: nat, ciphertextLen: nat): Block {
    BigEndian(8 * aadLen, 8) + BigEndian(8 * ciphertextLen, 8)
  }

  function GhashBlocks(aad: seq<Byte>, ciphertext: seq<Byte>): seq<Block> {
    Blocks(aad) + Blocks(ciphertext) + [LengthBlock(|aad|, |ciphertext|)]
  }

  function Polys(blocks: seq<Block>): (ps: seq<Poly>)
    ensures |ps| == |blocks|
    ensures forall i :: 0 <= i < |ps| ==> ps[i] == PolyOf(blocks[i])
  {
    seq(|blocks|, i requires 0 <= i < |blocks| => PolyOf(blocks[i]))
  }

  // ----- Recursion and closed form -----

  /** The recursion Y_i = (Y_{i-1} + X_i) * H. */
  function Horner(y: Poly, h: Poly, xs: seq<Poly>): Poly
    decreases |xs|
  {
    if xs == [] then y else Horner(Mul(Add(y, xs[0]), h), h, xs[1..])
  }

  function Power(h: Poly, k: nat): Poly {
    if k == 0 then ONE else Mul(h, Power(h, k - 1))
  }

  /** X_1 * H^n + X_2 * H^(n-1) + ... + X_n * H. */
  function PolynomialSum(h: Poly, xs: seq<Poly>): Poly {
    if xs == [] then ZERO else Add(Mul(xs[0], Power(h, |xs|)), PolynomialSum(h, xs[1..]))
  }

  function GhashOf(h: Block, aad: seq<Byte>, ciphertext: seq<Byte>): Poly {
    PolynomialSum(PolyOf(h), Polys(GhashBlocks(aad, ciphertext)))
  }

  lemma {:induction false} HornerIsPolynomial(y: Poly, h: Poly, xs: seq<Poly>)
    ensures Horner(y, h, xs) == Add(Mul(y, Power(h, |xs|)), PolynomialSum(h, xs))
    decreases |xs|
  {
    hide Mul, Add;
    if xs == [] {
      MulOne(y);
      AddZero(y);
    } else {
      var x, rest, p := xs[0], xs[1..], Power(h, |xs| - 1);
      HornerIsPolynomial(Mul(Add(y, x), h), h, rest);
      MulAssociative(Add(y, x), h, p);
      MulDistributes(y, x, Power(h, |xs|));
      AddAssociative(Mul(y, Power(h, |xs|)), Mul(x, Power(h, |xs|)), PolynomialSum(h, rest));
    }
  }

  lemma {:induction false} HornerAppends(y: Poly, h: Poly, xs: seq<Poly>, zs: seq<Poly>)
    ensures Horner(y, h, xs + zs) == Horner(Horner(y, h, xs), h, zs)
    decreases |xs|
  {
    hide Mul, Add;
    if xs == [] {
      assert xs + zs == zs;
    } else {
      assert (xs + zs)[1..] == xs[1..] + zs;
      HornerAppends(Mul(Add(y, xs[0]), h), h, xs[1..], zs);
    }
  }

  // ----- Linearity -----

  function Differences(xs: seq<Poly>, zs: seq<Poly>): (ds: seq<Poly>)
    requires |xs| == |zs|
    ensures |ds| == |xs|
  {
    seq(|xs|, i requires 0 <= i < |xs| => Add(xs[i], zs[i]))
  }

  lemma {:induction false} PolynomialSumAdds(h: Poly, xs: seq<Poly>, zs: seq<Poly>)
    requires |xs| == |zs|
    ensures Add(PolynomialSum(h, xs), PolynomialSum(h, zs)) == PolynomialSum(h, Differences(xs, zs))
  {
    hide Mul, Add;
    if xs == [] {
      AddZero(ZERO);
    } else {
      var p, ds := Power(h, |xs|), Differences(xs, zs);
      assert ds[1..] == Differences(xs[1..], zs[1..]);
      PolynomialSumAdds(h, xs[1..], zs[1..]);
      MulDistributes(xs[0], zs[0], p);
      AddExchange(Mul(xs[0], p), PolynomialSum(h, xs[1..]), Mul(zs[0], p), PolynomialSum(h, zs[1..]));
    }
  }

  lemma {:induction false} BlocksCount(data: seq<Byte>)
    ensures |Blocks(data)| == (|data| + 15) / 16
  {
    if |data| > 16 {
      BlocksCount(data[16..]);
    }
  }

  /** Two inputs of equal lengths have equal hashes exactly when the hash recursion over their
      block differences alone, started at zero, ends at zero. */
  lemma HashesAgree(h: Block, aad: seq<Byte>, ciphertext: seq<Byte>, aad': seq<Byte>, ciphertext': seq<Byte>)
    requires |aad| == |aad'| && |ciphertext| == |ciphertext'|
    ensures |GhashBlocks(aad, ciphertext)| == |GhashBlocks(aad', ciphertext')|
    ensures GhashOf(h, aad, ciphertext) == GhashOf(h, aad', ciphertext')
       <==> Horner(ZERO, PolyOf(h), Differences(Polys(GhashBlocks(aad, ciphertext)), Polys(GhashBlocks(aad', ciphertext')))) == ZERO
  {
    hide Mul, Add, PolyOf, Horner, PolynomialSum;
    BlocksCount(aad);
    BlocksCount(aad');
    BlocksCount(ciphertext);
    BlocksCount(ciphertext');
    var xs, zs := Polys(GhashBlocks(aad, ciphertext)), Polys(GhashBlocks(aad', ciphertext'));
    var k := PolyOf(h);
    PolynomialSumAdds(k, xs, zs);
    HornerIsPolynomial(ZERO, k, Differences(xs, zs));
    MulZero(Power(k, |xs|));
    AddZero(PolynomialSum(k, Differences(xs, zs)));
    AddCancels(PolynomialSum(k, xs), PolynomialSum(k, zs));
  }

  // ----- The length field -----

  /** The length block tells lengths apart exactly up to 2^61 bytes, the standard's own bound;
      beyond it the 64-bit product wraps. */
  lemma LengthBlockExact(a: nat, c: nat, a': nat, c': nat)
    ensures LengthBlock(a, c) == LengthBlock(a', c') <==> a % TWO_61 == a' % TWO_61 && c % TWO_61 == c' % TWO_61
  {
    LengthFieldExact(a, a');
    LengthFieldExact(c, c');
    var l, l' := LengthBlock(a, c), LengthBlock(a', c');
    assert l[..8] == BigEndian(8 * a, 8) && l[8..] == BigEndian(8 * c, 8);
    assert l'[..8] == BigEndian(8 * a', 8) && l'[8..] == BigEndian(8 * c', 8);
  }

  /** The AAD's bit length comes first, the ciphertext's second. */
  lemma LengthBlockValues(a: nat, c: nat)
    ensures BigEndianValue(LengthBlock(a, c)[..8]) == 8 * a % 0x1_0000_0000_0000_0000
    ensures BigEndianValue(LengthBlock(a, c)[8..]) == 8 * c % 0x1_0000_0000_0000_0000
  {
    hide BigEndian, BigEndianValue;
    BigEndianRoundTrip(8 * a, 8);
    BigEndianRoundTrip(8 * c, 8);
    assert Pow256(8) == TWO_64;
    assert LengthBlock(a, c)[..8] == BigEndian(8 * a, 8) && LengthBlock(a, c)[8..] == BigEndian(8 * c, 8);
  }

  // ----- The hash as the standard states it -----

  /** Byte i of padded block j. */
  lemma {:induction false} BlocksAt(data: seq<Byte>, j: nat, i: nat)
    requires 16 * j < |data| && i < 16
    ensures |Blocks(data)| == (|data| + 15) / 16
    ensures Blocks(data)[j][i] == if 16 * j + i < |data| then data[16 * j + i] else 0
    decreases j
  {
    BlocksCount(data);
    if j > 0 {
      BlocksAt(data[16..], j - 1, i);
    }
  }

  /** A 16-byte block is determined by its two big-endian halves. */
  lemma HalvesDetermine(b: Block, a: Block)
    requires BigEndianValue(a[..8]) == BigEndianValue(b[..8]) && BigEndianValue(a[8..]) == BigEndianValue(b[8..])
    ensures a == b
  {
    hide BigEndianValue;
    BigEndianValueInjective(a[..8], b[..8]);
    BigEndianValueInjective(a[8..], b[8..]);
    assert a == a[..8] + a[8..] && b == b[..8] + b[8..];
  }

  lemma {:induction false} HornerIsRecurrence(h: Poly, xs: seq<Poly>, y: seq<Poly>)
    requires |y| == |xs| + 1 && forall j :: 0 <= j < |xs| ==> y[j + 1] == Mul(Add(y[j], xs[j]), h)
    ensures Horner(y[0], h, xs) == y[|xs|]
    decreases |xs|
  {
    hide Mul, Add;
    if xs != [] {
      forall j | 0 <= j < |xs| - 1
        ensures y[1..][j + 1] == Mul(Add(y[1..][j], xs[1..][j]), h)
      {
        assert y[j + 2] == Mul(Add(y[j + 1], xs[j + 1]), h);
      }
      HornerIsRecurrence(h, xs[1..], y[1..]);
    }
  }

  /** Section 6.4 of SP 800-38D with the blocks of section 7.1, nothing of this module assumed:
      x is the zero-padded AAD, the zero-padded ciphertext and the two 64-bit bit lengths, and
      Y_j+1 = (Y_j + X_j) * H from Y_0 = 0. */
  lemma GhashIsStandard(h: Block, aad: seq<Byte>, ciphertext: seq<Byte>, x: seq<Block>, y: seq<Poly>)
    requires
      var m, n := (|aad| + 15) / 16, (|ciphertext| + 15) / 16;
      && |x| == m + n + 1 && |y| == m + n + 2
      && (forall j, i :: 0 <= j < m && 0 <= i < 16 ==> x[j][i] == if 16 * j + i < |aad| then aad[16 * j + i] else 0)
      && (forall j, i :: m <= j < m + n && 0 <= i < 16 ==>
            x[j][i] == if 16 * (j - m) + i < |ciphertext| then ciphertext[16 * (j - m) + i] else 0)
      && BigEndianValue(x[m + n][..8]) == 8 * |aad| % 0x1_0000_0000_0000_0000
      && BigEndianValue(x[m + n][8..]) == 8 * |ciphertext| % 0x1_0000_0000_0000_0000
      && y[0] == ZERO
      && forall j :: 0 <= j <= m + n ==> y[j + 1] == Mul(Add(y[j], PolyOf(x[j])), PolyOf(h))
    ensures GhashOf(h, aad, ciphertext) == y[|x|]
  {
    hide PolyOf, Mul, Add, Horner, PolynomialSum, BigEndianValue, LengthBlock, Blocks;
    BlocksCount(aad);
    BlocksCount(ciphertext);
    var m, n, blocks := |Blocks(aad)|, |Blocks(ciphertext)|, GhashBlocks(aad, ciphertext);
    forall j | 0 <= j < m + n
      ensures x[j] == blocks[j]
    {
      forall i | 0 <= i < 16
        ensures x[j][i] == blocks[j][i]
      {
        if j < m { BlocksAt(aad, j, i); } else { BlocksAt(ciphertext, j - m, i); }
      }
    }
    LengthBlockValues(|aad|, |ciphertext|);
    HalvesDetermine(LengthBlock(|aad|, |ciphertext|), x[m + n]);
    assert x == blocks;
    HornerIsRecurrence(PolyOf(h), Polys(x), y);
    HornerIsPolynomial(ZERO, PolyOf(h), Polys(x));
    MulZero(Power(PolyOf(h), |x|));
    AddZero(PolynomialSum(PolyOf(h), Polys(x)));
  }

  /** Under H = 1 and without AAD, one ciphertext block is hashed to itself plus the block that
      holds its 128 bits in the right half. */
  lemma HashOfOneBlock(h: Block, x: Block)
    requires h == [0x80] + Zeros(15)
    ensures GhashOf(h, [], x) == Add(PolyOf(x), PolyOf(Zeros(15) + [0x80]))
  {
    hide PolyOf, Mul, Add, BigEndianValue, GhashOf, BigEndian;
    var l: Block := Zeros(15) + [0x80];
    assert l[..8] == Zeros(8) && l[8..] == Zeros(7) + [0x80];
    ZerosThenByte(8, 0);
    ZerosThenByte(7, 0x80);
    assert ValueOf(0x80) == 128;
    IdentityBlock(h);
    var y1, y2 := Add(ZERO, PolyOf(x)), Add(Add(ZERO, PolyOf(x)), PolyOf(l));
    MulOne(y1);
    MulOne(y2);
    AddZero(PolyOf(x));
    GhashIsStandard(h, [], x, [x, l], [ZERO, y1, y2]);
  }

  /** Without AAD and ciphertext the hash is zero, whatever H. */
  lemma HashOfNothing(h: Block)
    ensures GhashOf(h, [], []) == ZERO
  {
    hide PolyOf, Mul, Add, BigEndianValue, GhashOf, BigEndian;
    var l: Block := Zeros(16);
    assert l[..8] == Zeros(8) && l[8..] == Zeros(8);
    ZerosThenByte(8, 0);
    ZeroBlock(l);
    AddZero(ZERO);
    MulZero(PolyOf(h));
    GhashIsStandard(h, [], [], [l], [ZERO, ZERO]);
  }

  // ----- The code -----

  method XorInto(y: array<Byte>, block: Block)
    requires y.Length == 16
    modifies y
    ensures y[..] == XorBytes(old(y[..]), block)
  {
    hide Xor;
    for i := 0 to 16
      invariant forall j :: 0 <= j < 16 ==> y[j] == if j < i then Xor(old(y[j]), block[j]) else old(y[j])
    {
      y[i] := Xor(y[i], block[i]);
    }
  }

  /** One step of the recursion: fold a block in, then multiply by H. */
  method FoldBlock(y: array<Byte>, h: Block, block: Block)
    requires y.Length == 16
    modifies y
    ensures PolyOf(y[..]) == Mul(Add(old(PolyOf(y[..])), PolyOf(block)), PolyOf(h))
  {
    hide PolyOf, Mul, Add, StandardProduct;
    XorOfBlocks(y[..], block);
    XorInto(y, block);
    var product := Gf128Mul(y[..], h);
    forall i | 0 <= i < 16 { y[i] := product[i]; }
    assert y[..] == product;
  }

  method PaddedBlock(data: seq<Byte>, offset: nat, chunk: nat) returns (block: Block)
    requires offset + chunk <= |data| && chunk <= 16
    ensures block == data[offset..offset + chunk] + Zeros(16 - chunk)
  {
    var a := new Byte[16](_ => 0);
    for i := 0 to chunk
      invariant forall j :: 0 <= j < 16 ==> a[j] == if j < i then data[offset + j] else 0
    {
      a[i] := data[offset + i];
    }
    block := a[..];
  }

  method FoldInto(y: array<Byte>, h: Block, data: seq<Byte>)
    requires y.Length == 16
    modifies y
    ensures PolyOf(y[..]) == Horner(old(PolyOf(y[..])), PolyOf(h), Polys(Blocks(data)))
  {
    hide PolyOf, Mul, Add, Blocks;
    var offset := 0;
    assert data[0..] == data;
    while offset < |data|
      invariant 0 <= offset <= |data|
      invariant Horner(PolyOf(y[..]), PolyOf(h), Polys(Blocks(data[offset..])))
             == Horner(old(PolyOf(y[..])), PolyOf(h), Polys(Blocks(data)))
    {
      var chunk := if |data| - offset < 16 then |data| - offset else 16;
      var block := PaddedBlock(data, offset, chunk);
      NextBlock(data, offset, chunk, block);
      FoldBlock(y, h, block);
      offset := offset + chunk;
    }
    NoBlocks(data[offset..]);
  }

  lemma NoBlocks(data: seq<Byte>)
    requires data == []
    ensures Polys(Blocks(data)) == []
  {
  }

  lemma NextBlock(data: seq<Byte>, offset: nat, chunk: nat, block: Block)
    requires offset < |data| && chunk == (if |data| - offset < 16 then |data| - offset else 16)
    requires block == data[offset..offset + chunk] + Zeros(16 - chunk)
    ensures |Polys(Blocks(data[offset..]))| > 0
    ensures Polys(Blocks(data[offset..]))[0] == PolyOf(block)
    ensures Polys(Blocks(data[offset..]))[1..] == Polys(Blocks(data[offset + chunk..]))
  {
    hide PolyOf;
    var rest := data[offset..];
    assert rest[..chunk] == data[offset..offset + chunk] && rest[chunk..] == data[offset + chunk..];
    if chunk == 16 {
      assert block == rest[..16];
      if |rest| == 16 {
        assert rest[16..] == [] && block == rest + Zeros(0);
      }
    } else {
      assert rest == rest[..chunk];
    }
  }

  method StoreLengths(aadLen: nat, ciphertextLen: nat) returns (block: Block)
    ensures block == LengthBlock(aadLen, ciphertextLen)
    ensures BigEndianValue(block[..8]) == 8 * aadLen % 0x1_0000_0000_0000_0000
    ensures BigEndianValue(block[8..]) == 8 * ciphertextLen % 0x1_0000_0000_0000_0000
  {
    hide Holds, BigEndian, LaneOf, BigEndianValue;
    LengthBlockValues(aadLen, ciphertextLen);
    var a := new Byte[16](_ => 0);
    StoreBe64(a, 0, U64(8 * aadLen));
    ghost var first := a[0..8];
    StoreBe64(a, 8, U64(8 * ciphertextLen));
    LaneOfHolds(BigEndian(8 * aadLen, 8));
    LaneOfHolds(BigEndian(8 * ciphertextLen, 8));
    HoldsUnique(U64(8 * aadLen), first, BigEndian(8 * aadLen, 8));
    HoldsUnique(U64(8 * ciphertextLen), a[8..16], BigEndian(8 * ciphertextLen, 8));
    block := a[..];
    assert block[..8] == first && block[8..] == a[8..16];
  }

  method ComputeGhash(h: Block, aad: seq<Byte>, ciphertext: seq<Byte>) returns (out: Block)
    ensures PolyOf(out) == GhashOf(h, aad, ciphertext)
  {
    hide PolyOf, Mul, Add, Horner, PolynomialSum, LengthBlock;
    var y := new Byte[16](_ => 0);
    ZeroBlock(y[..]);
    FoldInto(y, h, aad);
    FoldInto(y, h, ciphertext);
    var lenBlock := StoreLengths(|aad|, |ciphertext|);
    FoldBlock(y, h, lenBlock);
    out := y[..];
    HashIsRecursion(h, aad, ciphertext);
  }

  lemma ZeroBlock(b: Block)
    requires forall i :: 0 <= i < 16 ==> b[i] == 0
    ensures PolyOf(b) == ZERO
  {
    forall k | 0 <= k < 128
      ensures !PolyOf(b)[k]
    {
      var a := Counted(7 - k % 8);
      assert (0 as Byte) >> a == 0;
    }
  }

  /** The code's three folds, one after the other, are the closed polynomial sum. */
  lemma HashIsRecursion(h: Block, aad: seq<Byte>, ciphertext: seq<Byte>)
    ensures
      var k := PolyOf(h);
      var y1 := Horner(ZERO, k, Polys(Blocks(aad)));
      var y2 := Horner(y1, k, Polys(Blocks(ciphertext)));
      Mul(Add(y2, PolyOf(LengthBlock(|aad|, |ciphertext|))), k) == GhashOf(h, aad, ciphertext)
  {
    hide PolyOf, Mul, Add, PolynomialSum, Blocks, LengthBlock;
    var k := PolyOf(h);
    var xs, cs, l := Polys(Blocks(aad)), Polys(Blocks(ciphertext)), [PolyOf(LengthBlock(|aad|, |ciphertext|))];
    assert Polys(GhashBlocks(aad, ciphertext)) == xs + cs + l;
    HornerAppends(ZERO, k, xs + cs, l);
    HornerAppends(ZERO, k, xs, cs);
    HornerIsPolynomial(ZERO, k, xs + cs + l);
    MulZero(Power(k, |xs + cs + l|));
    AddZero(PolynomialSum(k, xs + cs + l));
  }
}
