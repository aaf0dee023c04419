/** The mode drivers as the library runs them: a `SecretKey`, a backend looked up again for every
    block, a running 32-bit counter and output buffers filled chunk by chunk. */
module Drivers {
  import opened Bytes
  import opened Gf128
  import opened Gf128Lanes
  import opened Ghash
  import opened Aes
  import opened AesSoft
  import opened AesNi
  import opened AesArm
  import opened AesRiscv
  import opened SecretKeys
  import opened Modes
  import opened Traces

  datatype Backend = Software | AesNiHardware | ArmHardware | RiscvHardware

  /** The block function of a key's storage and logical size. */
  function BlockFn(bytes: seq<Byte>, size: KeySize): Block -> Block
    requires |bytes| == 32
  {
    (b: Block) => Encrypt(bytes, size, b)
  }

  lemma BlockFnIsAes(bytes: seq<Byte>, size: KeySize, b: Block)
    requires |bytes| == 32
    ensures BlockFn(bytes, size)(b) == Encrypt(bytes, size, b)
  {
    hide Encrypt;
  }

  lemma BlockFnInjective(bytes: seq<Byte>, size: KeySize)
    requires |bytes| == 32
    ensures Injective(BlockFn(bytes, size))
  {
    hide Encrypt;
    forall a: Block, b: Block | BlockFn(bytes, size)(a) == BlockFn(bytes, size)(b)
      ensures a == b
    {
      EncryptInjective(bytes, size, a, b);
    }
  }

  /** Every backend computes the same block function. */
  method EncryptBlock(key: SecretKey, block: Block, backend: Backend, ghost trace: Trace) returns (out: Block)
    requires key.Valid()
    modifies trace
    ensures out == BlockFn(key.bytes, key.size)(block)
    ensures trace.ops == old(trace.ops) + [Cipher(key.bytes, key.size, block)]
  {
    hide Encrypt;
    trace.ops := trace.ops + [Cipher(key.bytes, key.size, block)];
    match backend
    case Software => out := EncryptBlockSoft(key.bytes, key.size, block);
    case AesNiHardware => out := EncryptBlockNi(key.bytes, key.size, block);
    case ArmHardware => out := EncryptBlockArm(key.bytes, key.size, block);
    case RiscvHardware => out := EncryptBlockRiscv(key.bytes, key.size, block);
  }

  method MakeCounterBlock(nonce: Nonce, counter: nat) returns (block: Block)
    requires counter < TWO_32
    ensures block == CounterBlock(nonce, counter)
    ensures block[..12] == nonce && BigEndianValue(block[12..]) == counter
  {
    hide ByteOf, BigEndianValue;
    CounterBlockBytes(nonce, counter);
    var a := new Byte[16](_ => 0);
    for i := 0 to 12
      invariant a[..i] == nonce[..i]
    {
      a[i] := nonce[i];
      assert a[..i + 1] == a[..i] + [a[i]];
    }
    a[12] := ByteOf(counter / 0x100_0000);
    a[13] := ByteOf(counter / 0x1_0000);
    a[14] := ByteOf(counter / 0x100);
    a[15] := ByteOf(counter);
    block := a[..];
    FourBytes(counter);
    assert block[..12] == nonce;
  }

  lemma FourBytes(n: nat)
    ensures BigEndian(n, 4) == [ByteOf(n / 0x100_0000), ByteOf(n / 0x1_0000), ByteOf(n / 0x100), ByteOf(n)]
  {
    hide ByteOf;
    assert ShiftRight(n, 1) == n / 0x100 && ShiftRight(n, 2) == n / 0x1_0000 && ShiftRight(n, 3) == n / 0x100_0000;
    var b := BigEndian(n, 4);
    assert ShiftRight(n, 0) == n;
    assert b == [b[0], b[1], b[2], b[3]];
  }

  lemma KeystreamedAt(e: Block -> Block, nonce: Nonce, start: nat, input: seq<Byte>, n: nat, i: nat)
    requires i < 16 && 16 * n + i < |input|
    ensures Keystreamed(e, nonce, start, input)[16 * n + i] == Xor(input[16 * n + i], e(CounterBlock(nonce, (start + n) % TWO_32))[i])
  {
    hide Xor, CounterBlock;
    QuotientOf(n, i);
  }

  lemma QuotientOf(n: nat, i: nat)
    requires i < 16
    ensures (16 * n + i) / 16 == n && (16 * n + i) % 16 == i
  {
  }

  /** XORs up to one block of keystream into the output at `offset`. */
  method XorChunk(output: array<Byte>, input: seq<Byte>, offset: nat, keystream: Block)
    requires output.Length == |input| && offset < |input|
    modifies output
    ensures forall i :: 0 <= i < output.Length ==>
      output[i] == if offset <= i < offset + 16 then Xor(input[i], keystream[i - offset]) else old(output[i])
  {
    hide Xor;
    var chunk := if |input| - offset < 16 then |input| - offset else 16;
    for i := 0 to chunk
      invariant forall j :: 0 <= j < output.Length ==>
        output[j] == if offset <= j < offset + i then Xor(input[j], keystream[j - offset]) else old(output[j])
    {
      output[offset + i] := Xor(input[offset + i], keystream[i]);
    }
  }

  /** The inputs from which `apply_keystream` makes its keystream. */
  ghost function KeystreamOps(bytes: seq<Byte>, size: KeySize, nonce: Nonce, start: nat, n: nat): seq<Op> {
    CipherOps(bytes, size, k => CounterBlock(nonce, (start + k) % TWO_32), n)
  }

  lemma KeystreamOpsNext(bytes: seq<Byte>, size: KeySize, nonce: Nonce, start: nat, n: nat)
    ensures KeystreamOps(bytes, size, nonce, start, 0) == []
    ensures KeystreamOps(bytes, size, nonce, start, n + 1)
         == KeystreamOps(bytes, size, nonce, start, n) + [Cipher(bytes, size, CounterBlock(nonce, (start + n) % TWO_32))]
  {
    hide CounterBlock;
  }

  /** `start` is 0 for CTR and 2 for GCM; `backends` answers the per-block backend lookups. */
  method ApplyKeystream(key: SecretKey, nonce: Nonce, start: nat, input: seq<Byte>, backends: nat -> Backend, ghost trace: Trace)
    returns (out: seq<Byte>)
    requires key.Valid() && start < TWO_32
    modifies trace
    ensures out == Keystreamed(BlockFn(key.bytes, key.size), nonce, start, input)
    ensures trace.ops == old(trace.ops) + KeystreamOps(key.bytes, key.size, nonce, start, BlockCount(|input|))
  {
    hide BlockFn, CounterBlock, Xor, Keystreamed, KeystreamOps, BlockCount, BigEndianValue;
    ghost var e := BlockFn(key.bytes, key.size);
    ghost var expected := Keystreamed(e, nonce, start, input);
    var output := new Byte[|input|](_ => 0);
    var counter, offset := start, 0;
    ghost var n := 0;
    KeystreamOpsNext(key.bytes, key.size, nonce, start, 0);
    while offset < |input|
      invariant offset == 16 * n && offset < |input| + 16
      invariant counter == (start + n) % TWO_32
      invariant forall i :: 0 <= i < offset && i < |input| ==> output[i] == expected[i]
      invariant trace.ops == old(trace.ops) + KeystreamOps(key.bytes, key.size, nonce, start, n)
      decreases |input| + 16 - offset
    {
      var block := MakeCounterBlock(nonce, counter);
      var keystream := EncryptBlock(key, block, backends(offset / 16), trace);
      KeystreamOpsNext(key.bytes, key.size, nonce, start, n);
      XorChunk(output, input, offset, keystream);
      forall i | offset <= i < offset + 16 && i < |input|
        ensures output[i] == expected[i]
      {
        KeystreamedAt(e, nonce, start, input, n, i - offset);
      }
      offset := offset + 16;
      counter := (counter + 1) % TWO_32;
      n := n + 1;
    }
    BlocksCovering(|input|, n);
    out := output[..];
  }

  lemma BlocksCovering(len: nat, n: nat)
    requires len <= 16 * n < len + 16
    ensures n == BlockCount(len)
  {
  }

  method ConstantTimeEqual(a: seq<Byte>, b: seq<Byte>) returns (equal: bool)
    requires |a| == |b|
    ensures equal <==> a == b
  {
    var diff: Byte := 0;
    for i := 0 to |a|
      invariant diff == 0 <==> a[..i] == b[..i]
    {
      OrOfXor(diff, a[i], b[i]);
      diff := diff | (a[i] ^ b[i]);
      assert a[..i + 1] == a[..i] + [a[i]] && b[..i + 1] == b[..i] + [b[i]];
    }
    assert a[..|a|] == a && b[..|b|] == b;
    equal := diff == 0;
  }

  lemma OrOfXor(d: Byte, x: Byte, y: Byte)
    ensures d | (x ^ y) == 0 <==> d == 0 && x == y
  {
  }

  /** The first `n` block cipher calls of a GCM decryption: for the hash subkey, for the tag mask,
      then for the keystream. */
  ghost function GcmOps(bytes: seq<Byte>, size: KeySize, nonce: Nonce, n: nat): (ops: seq<Op>)
    ensures |ops| == n
  {
    CipherOps(bytes, size, GcmInput(nonce), n)
  }

  /** The same calls in the order of an encryption, which makes the keystream first. */
  ghost function SealingOps(bytes: seq<Byte>, size: KeySize, nonce: Nonce, n: nat): seq<Op>
    requires n >= 2
  {
    GcmOps(bytes, size, nonce, n)[2..] + GcmOps(bytes, size, nonce, 2)
  }

  ghost function CtrOps(bytes: seq<Byte>, size: KeySize, nonce: Nonce, n: nat): seq<Op> {
    CipherOps(bytes, size, CtrInput(nonce), n)
  }

  lemma KeystreamOpsAre(bytes: seq<Byte>, size: KeySize, nonce: Nonce, n: nat)
    ensures KeystreamOps(bytes, size, nonce, 0, n) == CtrOps(bytes, size, nonce, n)
    ensures KeystreamOps(bytes, size, nonce, 2, n) == GcmOps(bytes, size, nonce, n + 2)[2..]
    ensures GcmOps(bytes, size, nonce, n + 2) == GcmOps(bytes, size, nonce, 2) + GcmOps(bytes, size, nonce, n + 2)[2..]
  {
    hide CounterBlock;
  }

  method ComputeTag(key: SecretKey, nonce: Nonce, aad: seq<Byte>, ciphertext: seq<Byte>, hBackend: Backend, maskBackend: Backend, ghost trace: Trace)
    returns (tag: Block)
    requires key.Valid()
    modifies trace
    ensures PolyOf(tag) == TagPoly(BlockFn(key.bytes, key.size), nonce, aad, ciphertext)
    ensures trace.ops == old(trace.ops) + GcmOps(key.bytes, key.size, nonce, 2)
  {
    hide BlockFn, PolyOf, Add, GhashOf, Xor, CounterBlock, BigEndianValue;
    var h := EncryptBlock(key, Zeros(16), hBackend, trace);
    var j0 := MakeCounterBlock(nonce, 1);
    var s := ComputeGhash(h, aad, ciphertext);
    var mask := EncryptBlock(key, j0, maskBackend, trace);
    tag := XorBytes(mask, s);
    Gf128Lanes.XorOfBlocks(mask, s);
  }

  method EncryptCtr(key: SecretKey, nonce: Nonce, plaintext: seq<Byte>, backends: nat -> Backend, ghost trace: Trace)
    returns (r: Result<Container>)
    requires key.Valid()
    modifies trace
    ensures r == CtrEncrypt(BlockFn(key.bytes, key.size), nonce, plaintext)
    ensures r.Ok? <==> |plaintext| <= 0x10_0000_0000
    ensures trace.ops == old(trace.ops)
      + if r.Ok? then CtrOps(key.bytes, key.size, nonce, BlockCount(|plaintext|)) else []
  {
    hide BlockFn, Keystreamed, KeystreamOps, CtrOps, GcmOps;
    if |plaintext| > CTR_MAX_BYTES {
      return Err(LimitError);
    }
    KeystreamOpsAre(key.bytes, key.size, nonce, BlockCount(|plaintext|));
    var ciphertext := ApplyKeystream(key, nonce, 0, plaintext, backends, trace);
    r := Ok(Container(nonce, ciphertext));
  }

  method DecryptCtr(key: SecretKey, c: Container, backends: nat -> Backend, ghost trace: Trace) returns (r: Result<seq<Byte>>)
    requires key.Valid()
    modifies trace
    ensures r == CtrDecrypt(BlockFn(key.bytes, key.size), c)
    ensures r.Ok? <==> |c.ciphertext| <= 0x10_0000_0000
    ensures trace.ops == old(trace.ops)
      + if r.Ok? then CtrOps(key.bytes, key.size, c.nonce, BlockCount(|c.ciphertext|)) else []
  {
    hide BlockFn, Keystreamed, KeystreamOps, CtrOps, GcmOps;
    if |c.ciphertext| > CTR_MAX_BYTES {
      return Err(LimitError);
    }
    KeystreamOpsAre(key.bytes, key.size, c.nonce, BlockCount(|c.ciphertext|));
    var plaintext := ApplyKeystream(key, c.nonce, 0, c.ciphertext, backends, trace);
    r := Ok(plaintext);
  }

  /** An over-long plaintext is refused before a ticket is drawn; otherwise a ticket is drawn
      first and checked against the limit afterwards. A refused call never uses the block cipher. */
  method EncryptGcm(key: SecretKey, nonce: Nonce, plaintext: seq<Byte>, aad: seq<Byte>, backends: nat -> Backend, ghost trace: Trace)
    returns (r: Result<GcmContainer>)
    requires key.Valid()
    modifies key`gcmInvocations, trace
    ensures key.Valid()
    ensures |plaintext| > 0xF_FFFF_FFE0 ==> r == Err(LimitError) && key.gcmInvocations == old(key.gcmInvocations)
    ensures |plaintext| <= 0xF_FFFF_FFE0 ==> key.gcmInvocations == (old(key.gcmInvocations) + 1) % 0x1_0000_0000_0000_0000
    ensures r.Ok? <==> |plaintext| <= 0xF_FFFF_FFE0 && old(key.gcmInvocations) < 0x1_0000_0000
    ensures r.Err? ==> r == Err(LimitError)
    ensures r.Ok? ==> r.value.nonce == nonce && Sealed(BlockFn(key.bytes, key.size), r.value, plaintext, aad)
    ensures trace.ops == old(trace.ops)
      + if r.Ok? then SealingOps(key.bytes, key.size, nonce, BlockCount(|plaintext|) + 2) else []
  {
    hide BlockFn, Keystreamed, PolyOf, TagPoly, KeystreamOps, CtrOps, GcmOps;
    if |plaintext| > GCM_MAX_BYTES {
      return Err(LimitError);
    }
    var prior := key.ConsumeGcmInvocation();
    if !PassesCheck(prior) {
      return Err(LimitError);
    }
    KeystreamOpsAre(key.bytes, key.size, nonce, BlockCount(|plaintext|));
    var ciphertext := ApplyKeystream(key, nonce, 2, plaintext, (k: nat) => backends(k + 2), trace);
    var tag := ComputeTag(key, nonce, aad, ciphertext, backends(0), backends(1), trace);
    r := Ok(GcmContainer(nonce, tag, ciphertext));
  }

  /** Until the tag has matched, the block cipher is used for the hash subkey and the tag mask
      only; the keystream inputs follow exactly when the container opens. */
  method DecryptGcm(key: SecretKey, c: GcmContainer, aad: seq<Byte>, backends: nat -> Backend, ghost trace: Trace)
    returns (r: Result<seq<Byte>>)
    requires key.Valid()
    modifies trace
    ensures r == GcmOpen(BlockFn(key.bytes, key.size), c, aad)
    ensures r == Err(LimitError) <==> |c.ciphertext| > 0xF_FFFF_FFE0
    ensures trace.ops == old(trace.ops) + OpeningOps(key.bytes, key.size, c, aad)
  {
    hide BlockFn, Keystreamed, PolyOf, TagPoly, KeystreamOps, CtrOps, GcmOps;
    if |c.ciphertext| > GCM_MAX_BYTES {
      return Err(LimitError);
    }
    var expectedTag := ComputeTag(key, c.nonce, aad, c.ciphertext, backends(0), backends(1), trace);
    var equal := ConstantTimeEqual(expectedTag, c.tag);
    if !equal {
      if PolyOf(expectedTag) == PolyOf(c.tag) {
        PolyOfInjective(expectedTag, c.tag);
      }
      return Err(AuthenticationError);
    }
    KeystreamOpsAre(key.bytes, key.size, c.nonce, BlockCount(|c.ciphertext|));
    var plaintext := ApplyKeystream(key, c.nonce, 2, c.ciphertext, (k: nat) => backends(k + 2), trace);
    r := Ok(plaintext);
  }

  /** What opening a container does with the block cipher: nothing when it is over-long, the two
      tag inputs when its tag is wrong, all of GCM's inputs when it is right. */
  ghost function OpeningOps(bytes: seq<Byte>, size: KeySize, c: GcmContainer, aad: seq<Byte>): seq<Op>
    requires |bytes| == 32
  {
    if |c.ciphertext| > GCM_MAX_BYTES then []
    else if PolyOf(c.tag) != TagPoly(BlockFn(bytes, size), c.nonce, aad, c.ciphertext) then GcmOps(bytes, size, c.nonce, 2)
    else GcmOps(bytes, size, c.nonce, BlockCount(|c.ciphertext|) + 2)
  }

  /** A counter block of the ciphertext is encrypted exactly when the container is accepted and
      long enough to need it. */
  lemma KeystreamOnlyIfAuthentic(bytes: seq<Byte>, size: KeySize, c: GcmContainer, aad: seq<Byte>, k: nat)
    requires |bytes| == 32 && 2 <= k < TWO_32
    ensures Cipher(bytes, size, CounterBlock(c.nonce, k)) in OpeningOps(bytes, size, c, aad)
      <==> GcmOpen(BlockFn(bytes, size), c, aad).Ok? && k < BlockCount(|c.ciphertext|) + 2
  {
    hide CounterBlock, TagPoly, PolyOf, Keystreamed, BlockFn;
    var op, ops := Cipher(bytes, size, CounterBlock(c.nonce, k)), OpeningOps(bytes, size, c, aad);
    GcmInputsDistinct(c.nonce, TWO_32);
    assert GcmInput(c.nonce)(k) == CounterBlock(c.nonce, k);
    if k < |ops| {
      assert ops[k] == op;
    }
  }

  /** The block a block cipher call returns. */
  ghost function OutputOf(op: Op): Block
    requires op.Cipher? && |op.bytes| == 32
  {
    Encrypt(op.bytes, op.size, op.input)
  }

  /** The calls return pairwise different blocks. */
  ghost predicate NeverRepeats(ops: seq<Op>) {
    && (forall i :: 0 <= i < |ops| ==> ops[i].Cipher? && |ops[i].bytes| == 32)
    && forall i, j :: 0 <= i < j < |ops| ==> OutputOf(ops[i]) != OutputOf(ops[j])
  }

  lemma CipherOpsNeverRepeat(bytes: seq<Byte>, size: KeySize, inputs: nat -> Block, n: nat)
    requires |bytes| == 32 && PairwiseDistinct(inputs, n)
    ensures NeverRepeats(CipherOps(bytes, size, inputs, n))
  {
    hide Encrypt;
    var e, ops := BlockFn(bytes, size), CipherOps(bytes, size, inputs, n);
    BlockFnInjective(bytes, size);
    forall i, j | 0 <= i < j < |ops|
      ensures OutputOf(ops[i]) != OutputOf(ops[j])
    {
      assert inputs(i) != inputs(j);
      assert OutputOf(ops[i]) == e(inputs(i)) && OutputOf(ops[j]) == e(inputs(j));
    }
  }

  /** With AES as the block function: within one accepted GCM call, in either direction, the hash
      subkey, the tag mask and all keystream blocks are pairwise different, and so are the
      keystream blocks of a CTR call. */
  lemma AesNeverRepeats(bytes: seq<Byte>, size: KeySize, nonce: Nonce, len: nat)
    requires |bytes| == 32
    ensures len <= GCM_MAX_BYTES ==>
      && NeverRepeats(GcmOps(bytes, size, nonce, BlockCount(len) + 2))
      && NeverRepeats(SealingOps(bytes, size, nonce, BlockCount(len) + 2))
    ensures len <= CTR_MAX_BYTES ==> NeverRepeats(CtrOps(bytes, size, nonce, BlockCount(len)))
  {
    hide NeverRepeats;
    if len <= GCM_MAX_BYTES {
      GcmInputsDistinct(nonce, BlockCount(len) + 2);
      CipherOpsNeverRepeat(bytes, size, GcmInput(nonce), BlockCount(len) + 2);
      KeystreamOpsAre(bytes, size, nonce, BlockCount(len));
      RotatedNeverRepeats(GcmOps(bytes, size, nonce, 2), GcmOps(bytes, size, nonce, BlockCount(len) + 2)[2..]);
    }
    CtrLimitIsExact(nonce, len);
    if len <= CTR_MAX_BYTES {
      CipherOpsNeverRepeat(bytes, size, CtrInput(nonce), BlockCount(len));
    }
  }

  lemma RotatedNeverRepeats(first: seq<Op>, rest: seq<Op>)
    requires NeverRepeats(first + rest)
    ensures NeverRepeats(rest + first)
  {
    hide OutputOf;
    var ops, rotated := first + rest, rest + first;
    forall i | 0 <= i < |rotated|
      ensures rotated[i] == ops[if i < |rest| then |first| + i else i - |rest|]
    {
    }
  }
}
