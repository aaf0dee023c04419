/** Counter mode and GCM (`aes256_ctr.cpp`, `aes_gcm.cpp`), over any block function `e`. */
module Modes {
  import opened Bytes
  import opened Gf128
  import opened Gf128Lanes
  import opened Ghash

  type Nonce = s: seq<Byte> | |s| == 12 witness Zeros(12)

  datatype Container = Container(nonce: Nonce, ciphertext: seq<Byte>)
  datatype GcmContainer = GcmContainer(nonce: Nonce, tag: Block, ciphertext: seq<Byte>)

  /** 2^32 blocks of 16 bytes. */
  const CTR_MAX_BYTES: nat := TWO_32 * 16
  /** Counters 2 .. 2^32 - 1: counter 1 is spent on the tag. */
  const GCM_MAX_BYTES: nat := (TWO_32 - 2) * 16

  /** The 96-bit nonce followed by a 32-bit big-endian counter, which wraps. */
  function CounterBlock(nonce: Nonce, counter: nat): Block {
    nonce + BigEndian(counter, 4)
  }

  /** Byte i is input byte i plus byte i mod 16 of the encrypted counter start + i / 16. */
  function Keystreamed(e: Block -> Block, nonce: Nonce, start: nat, input: seq<Byte>): (out: seq<Byte>)
    ensures |out| == |input|
  {
    seq(|input|, i requires 0 <= i < |input| => Xor(input[i], e(CounterBlock(nonce, (start + i / 16) % TWO_32))[i % 16]))
  }

  function CtrEncrypt(e: Block -> Block, nonce: Nonce, plaintext: seq<Byte>): Result<Container> {
    if |plaintext| > CTR_MAX_BYTES then Err(LimitError) else Ok(Container(nonce, Keystreamed(e, nonce, 0, plaintext)))
  }

  function CtrDecrypt(e: Block -> Block, c: Container): Result<seq<Byte>> {
    if |c.ciphertext| > CTR_MAX_BYTES then Err(LimitError) else Ok(Keystreamed(e, c.nonce, 0, c.ciphertext))
  }

  /** E(J0) + GHASH, with H = E(0^128) and J0 = nonce || 1. */
  function TagPoly(e: Block -> Block, nonce: Nonce, aad: seq<Byte>, ciphertext: seq<Byte>): Poly {
    Add(PolyOf(e(CounterBlock(nonce, 1))), GhashOf(e(Zeros(16)), aad, ciphertext))
  }

  /** A container that `AesGcm::encrypt` produces. */
  ghost predicate Sealed(e: Block -> Block, c: GcmContainer, plaintext: seq<Byte>, aad: seq<Byte>) {
    && |plaintext| <= GCM_MAX_BYTES
    && c.ciphertext == Keystreamed(e, c.nonce, 2, plaintext)
    && PolyOf(c.tag) == TagPoly(e, c.nonce, aad, c.ciphertext)
  }

  function GcmOpen(e: Block -> Block, c: GcmContainer, aad: seq<Byte>): Result<seq<Byte>> {
    if |c.ciphertext| > GCM_MAX_BYTES then Err(LimitError)
    else if PolyOf(c.tag) != TagPoly(e, c.nonce, aad, c.ciphertext) then Err(AuthenticationError)
    else Ok(Keystreamed(e, c.nonce, 2, c.ciphertext))
  }

  // ----- Counter blocks, keystream and tag, byte by byte -----

  /** Bytes 0 to 11 are the nonce, bytes 12 to 15 the counter in big-endian order. */
  lemma CounterBlockBytes(nonce: Nonce, counter: nat)
    ensures forall i :: 0 <= i < 12 ==> CounterBlock(nonce, counter)[i] == nonce[i]
    ensures BigEndianValue(CounterBlock(nonce, counter)[12..]) == counter % 0x1_0000_0000
  {
    hide BigEndian, BigEndianValue;
    BigEndianRoundTrip(counter, 4);
    assert Pow256(4) == TWO_32;
    assert CounterBlock(nonce, counter)[12..] == BigEndian(counter, 4);
  }

  /** J0. */
  function FirstInput(nonce: Nonce): (b: Block)
    ensures b == nonce + [0, 0, 0, 1]
  {
    nonce + [0, 0, 0, 1]
  }

  lemma FirstCounterBlock(nonce: Nonce)
    ensures CounterBlock(nonce, 1) == FirstInput(nonce)
  {
    hide BigEndian, BigEndianValue, CounterBlock;
    var b := FirstInput(nonce);
    FourByteValues(0, 0, 0, 1);
    ValueOfZero();
    assert ValueOf(1) == 1;
    assert b[..12] == nonce && b[12..] == [0, 0, 0, 1];
    CounterBlockIs(nonce, 1, b);
  }

  /** Ciphertext byte i of CTR, for any block function: the counter starts at 0. */
  lemma CtrBytes(e: Block -> Block, nonce: Nonce, plaintext: seq<Byte>, i: nat, block: Block)
    requires i < |plaintext| <= 0x10_0000_0000
    requires block[..12] == nonce && BigEndianValue(block[12..]) == i / 16
    ensures CtrEncrypt(e, nonce, plaintext).Ok? && CtrEncrypt(e, nonce, plaintext).value.nonce == nonce
    ensures CtrEncrypt(e, nonce, plaintext).value.ciphertext[i] == plaintext[i] ^ e(block)[i % 16]
  {
    hide CounterBlock, BigEndianValue;
    CounterBlockIs(nonce, i / 16, block);
  }

  /** Ciphertext byte i of GCM: the counter starts at 2. */
  lemma GcmBytes(e: Block -> Block, c: GcmContainer, plaintext: seq<Byte>, aad: seq<Byte>, i: nat, block: Block)
    requires Sealed(e, c, plaintext, aad) && i < |plaintext|
    requires block[..12] == c.nonce && BigEndianValue(block[12..]) == i / 16 + 2
    ensures |plaintext| <= 0xF_FFFF_FFE0 && |c.ciphertext| == |plaintext|
    ensures c.ciphertext[i] == plaintext[i] ^ e(block)[i % 16]
  {
    hide CounterBlock, BigEndianValue, TagPoly, PolyOf;
    CounterBlockIs(c.nonce, i / 16 + 2, block);
  }

  lemma CounterBlockIs(nonce: Nonce, counter: nat, block: Block)
    requires block[..12] == nonce && BigEndianValue(block[12..]) == counter < TWO_32
    ensures block == CounterBlock(nonce, counter)
  {
    hide BigEndianValue, CounterBlock;
    var b := CounterBlock(nonce, counter);
    CounterBlockBytes(nonce, counter);
    BigEndianValueInjective(b[12..], block[12..]);
    assert b[..12] == nonce;
    assert b == b[..12] + b[12..] && block == block[..12] + block[12..];
  }

  /** The tag, from the block function and GHASH alone: the hash under E(0), masked with E(nonce, 1). */
  lemma TagIs(e: Block -> Block, nonce: Nonce, aad: seq<Byte>, ciphertext: seq<Byte>)
    ensures TagPoly(e, nonce, aad, ciphertext) == Add(PolyOf(e(FirstInput(nonce))), GhashOf(e(Zeros(16)), aad, ciphertext))
  {
    hide CounterBlock, GhashOf, PolyOf, Add, FirstInput;
    FirstCounterBlock(nonce);
  }

  /** The tag of nothing is the encrypted first counter block itself. */
  lemma EmptyTag(e: Block -> Block, nonce: Nonce, tag: Block)
    requires PolyOf(tag) == TagPoly(e, nonce, [], [])
    ensures tag == e(FirstInput(nonce))
  {
    hide GhashOf, PolyOf, Add, TagPoly, FirstInput;
    TagIs(e, nonce, [], []);
    HashOfNothing(e(Zeros(16)));
    AddZero(PolyOf(e(FirstInput(nonce))));
    PolyOfInjective(tag, e(FirstInput(nonce)));
  }

  /** Under two nonces the tags of the same data differ by the two masks and nothing else. */
  lemma TagsOfTwoNonces(e: Block -> Block, nonce: Nonce, nonce': Nonce, aad: seq<Byte>, ciphertext: seq<Byte>)
    ensures Add(TagPoly(e, nonce, aad, ciphertext), TagPoly(e, nonce', aad, ciphertext))
         == Add(PolyOf(e(FirstInput(nonce))), PolyOf(e(FirstInput(nonce'))))
  {
    hide GhashOf, PolyOf, Add, TagPoly, FirstInput;
    TagIs(e, nonce, aad, ciphertext);
    TagIs(e, nonce', aad, ciphertext);
    var m, m', g := PolyOf(e(FirstInput(nonce))), PolyOf(e(FirstInput(nonce'))), GhashOf(e(Zeros(16)), aad, ciphertext);
    AddExchange(m, g, m', g);
    AddZero(g);
    AddZero(Add(m, m'));
  }

  // ----- Decryption undoes encryption -----

  lemma KeystreamTwice(e: Block -> Block, nonce: Nonce, start: nat, input: seq<Byte>)
    ensures Keystreamed(e, nonce, start, Keystreamed(e, nonce, start, input)) == input
  {
    hide Xor, CounterBlock;
    var once := Keystreamed(e, nonce, start, input);
    forall i | 0 <= i < |input|
      ensures Keystreamed(e, nonce, start, once)[i] == input[i]
    {
      var k := e(CounterBlock(nonce, (start + i / 16) % TWO_32))[i % 16];
      XorLaws(input[i], k, k);
    }
  }

  lemma CtrRoundTrip(e: Block -> Block, nonce: Nonce, plaintext: seq<Byte>)
    ensures CtrEncrypt(e, nonce, plaintext).Err? <==> |plaintext| > 0x10_0000_0000
    ensures |plaintext| <= 0x10_0000_0000 ==> CtrDecrypt(e, CtrEncrypt(e, nonce, plaintext).value) == Ok(plaintext)
  {
    hide Keystreamed;
    KeystreamTwice(e, nonce, 0, plaintext);
  }

  lemma GcmRoundTrip(e: Block -> Block, c: GcmContainer, plaintext: seq<Byte>, aad: seq<Byte>)
    ensures Sealed(e, c, plaintext, aad) ==> GcmOpen(e, c, aad) == Ok(plaintext)
  {
    hide Keystreamed, TagPoly, PolyOf;
    KeystreamTwice(e, c.nonce, 2, plaintext);
  }

  // ----- Altered containers -----

  /** The hash recursion over the block differences of two (AAD, ciphertext) pairs. */
  function DifferenceHash(h: Block, aad: seq<Byte>, ct: seq<Byte>, aad': seq<Byte>, ct': seq<Byte>): Poly
    requires |aad| == |aad'| && |ct| == |ct'|
  {
    BlocksCount(aad);
    BlocksCount(aad');
    BlocksCount(ct);
    BlocksCount(ct');
    Horner(ZERO, PolyOf(h), Differences(Polys(GhashBlocks(aad, ct)), Polys(GhashBlocks(aad', ct'))))
  }

  /** With key, nonce, tag and both lengths kept, an altered container is accepted exactly when
      the hash of the differences alone is zero. */
  lemma AlteredAcceptedIff(e: Block -> Block, c: GcmContainer, aad: seq<Byte>, c': GcmContainer, aad': seq<Byte>)
    requires c'.nonce == c.nonce && c'.tag == c.tag && |aad'| == |aad| && |c'.ciphertext| == |c.ciphertext|
    ensures GcmOpen(e, c, aad).Ok? ==>
      (GcmOpen(e, c', aad').Ok? <==> DifferenceHash(e(Zeros(16)), aad, c.ciphertext, aad', c'.ciphertext) == ZERO)
  {
    hide Keystreamed, PolyOf, Add, GhashOf, Horner, CounterBlock;
    var h, mask := e(Zeros(16)), PolyOf(e(CounterBlock(c.nonce, 1)));
    HashesAgree(h, aad, c.ciphertext, aad', c'.ciphertext);
    var g, g' := GhashOf(h, aad, c.ciphertext), GhashOf(h, aad', c'.ciphertext);
    if Add(mask, g) == Add(mask, g') {
      AddAssociative(mask, mask, g);
      AddAssociative(mask, mask, g');
      AddZero(mask);
      AddZero(g);
      AddZero(g');
    }
  }

  /** Changing only the tag always fails. */
  lemma OneTagOnly(e: Block -> Block, c: GcmContainer, aad: seq<Byte>, tag: Block)
    requires tag != c.tag
    ensures GcmOpen(e, c, aad).Ok? ==> GcmOpen(e, c.(tag := tag), aad) == Err(AuthenticationError)
  {
    hide Keystreamed, PolyOf, TagPoly;
    if PolyOf(tag) == PolyOf(c.tag) {
      PolyOfInjective(tag, c.tag);
    }
  }

  // ----- No block-function input is used twice -----

  lemma CounterBlockInjective(nonce: Nonce, a: nat, b: nat)
    requires CounterBlock(nonce, a) == CounterBlock(nonce, b)
    ensures a % TWO_32 == b % TWO_32
  {
    hide BigEndian;
    assert CounterBlock(nonce, a)[12..] == BigEndian(a, 4) && CounterBlock(nonce, b)[12..] == BigEndian(b, 4);
    BigEndianInjective(a, b, 4);
    assert Pow256(4) == TWO_32;
  }

  function BlockCount(len: nat): nat {
    (len + 15) / 16
  }

  ghost predicate PairwiseDistinct(f: nat -> Block, n: nat) {
    forall i: nat, j: nat :: i < j < n ==> f(i) != f(j)
  }

  function CtrInput(nonce: Nonce): nat -> Block {
    k => CounterBlock(nonce, k % TWO_32)
  }

  /** Input 0 gives H, input 1 masks the tag, the rest are the keystream inputs. */
  function GcmInput(nonce: Nonce): nat -> Block {
    k => if k == 0 then Zeros(16) else CounterBlock(nonce, k % TWO_32)
  }

  /** CTR's length limit is exactly the point at which a counter block would repeat. */
  lemma CtrLimitIsExact(nonce: Nonce, len: nat)
    ensures len <= 0x10_0000_0000 <==> PairwiseDistinct(CtrInput(nonce), BlockCount(len))
  {
    hide CounterBlock;
    var f, n := CtrInput(nonce), BlockCount(len);
    if len <= CTR_MAX_BYTES {
      forall i: nat, j: nat | i < j < n
        ensures f(i) != f(j)
      {
        if f(i) == f(j) {
          CounterBlockInjective(nonce, i, j);
        }
      }
    } else {
      assert n > TWO_32 && f(0) == f(TWO_32);
    }
  }

  lemma {:induction false} BigEndianZero(k: nat)
    ensures BigEndian(0, k) == Zeros(k)
  {
    hide ByteOf, BigEndian;
    if k == 0 {
      assert BigEndian(0, 0) == [];
    } else {
      BigEndianStep(0, k);
      BigEndianZero(k - 1);
      ZeroByte();
    }
  }

  lemma ZeroByte()
    ensures ByteOf(0) == 0
  {
  }

  /** GCM's limit is exactly the point up to which, whatever the nonce, the hash subkey input,
      the tag mask input and all keystream inputs differ. */
  lemma GcmLimitIsExact(len: nat)
    ensures len <= 0xF_FFFF_FFE0 <==> forall nonce: Nonce :: PairwiseDistinct(GcmInput(nonce), BlockCount(len) + 2)
  {
    if len <= GCM_MAX_BYTES {
      forall nonce: Nonce
        ensures PairwiseDistinct(GcmInput(nonce), BlockCount(len) + 2)
      {
        GcmInputsDistinct(nonce, BlockCount(len) + 2);
      }
    } else {
      var nonce: Nonce := Zeros(12);
      var f := GcmInput(nonce);
      BigEndianZero(4);
      assert CounterBlock(nonce, 0) == Zeros(16);
      assert f(0) == f(TWO_32);
      assert !PairwiseDistinct(f, BlockCount(len) + 2);
    }
  }

  lemma CounterNotZero(nonce: Nonce, j: nat)
    requires 0 < j < TWO_32
    ensures CounterBlock(nonce, j) != Zeros(16)
  {
    hide BigEndian;
    var b := CounterBlock(nonce, j);
    if b == Zeros(16) {
      BigEndianZero(4);
      assert b[12..] == BigEndian(j, 4) && Zeros(16)[12..] == Zeros(4);
      assert Pow256(4) == TWO_32;
      BigEndianInjective(j, 0, 4);
    }
  }

  lemma GcmInputsDistinct(nonce: Nonce, n: nat)
    requires n <= TWO_32
    ensures PairwiseDistinct(GcmInput(nonce), n)
  {
    hide CounterBlock;
    var f := GcmInput(nonce);
    forall i: nat, j: nat | i < j < n
      ensures f(i) != f(j)
    {
      CounterNotZero(nonce, j);
      if i > 0 && f(i) == f(j) {
        CounterBlockInjective(nonce, i, j);
      }
    }
  }

  ghost predicate Injective(e: Block -> Block) {
    forall a: Block, b: Block :: e(a) == e(b) ==> a == b
  }

  /** Hence for an injective block function H, the tag mask and every keystream block differ. */
  lemma GcmOutputsDistinct(e: Block -> Block, nonce: Nonce, len: nat, i: nat, j: nat)
    requires Injective(e) && len <= GCM_MAX_BYTES && i < j < BlockCount(len) + 2
    ensures e(GcmInput(nonce)(i)) != e(GcmInput(nonce)(j))
  {
    GcmInputsDistinct(nonce, BlockCount(len) + 2);
  }

  lemma CtrOutputsDistinct(e: Block -> Block, nonce: Nonce, len: nat, i: nat, j: nat)
    requires Injective(e) && len <= CTR_MAX_BYTES && i < j < BlockCount(len)
    ensures e(CtrInput(nonce)(i)) != e(CtrInput(nonce)(j))
  {
    CtrLimitIsExact(nonce, len);
  }
}
