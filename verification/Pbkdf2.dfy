/** HMAC-SHA256 (RFC 2104) and PBKDF2 (section 5.2 of RFC 8018) as `sha256.cpp` computes them. */
module Pbkdf2 {
  import opened Bytes
  import opened Traces
  import Sha256

  // ----- HMAC -----

  function Repeated(b: Byte, n: nat): (s: seq<Byte>)
    ensures |s| == n && forall i :: 0 <= i < n ==> s[i] == b
  {
    seq(n, i => b)
  }

  /** The key hashed if longer than a block, then zero-filled to a block. */
  function BlockKey(key: seq<Byte>): (k: seq<Byte>)
    ensures |k| == 64
  {
    if |key| > 64 then Sha256.Hash(key) + Zeros(32) else key + Zeros(64 - |key|)
  }

  /** H(K xor opad || H(K xor ipad || data)). */
  function Hmac(key: seq<Byte>, data: seq<Byte>): (d: seq<Byte>)
    ensures |d| == 32
  {
    var k := BlockKey(key);
    Sha256.Hash(XorBytes(k, Repeated(0x5c, 64)) + Sha256.Hash(XorBytes(k, Repeated(0x36, 64)) + data))
  }

  /** Section 2 of RFC 2104 for keys of up to a block, byte by byte: 0x36 inside, 0x5c outside. */
  lemma HmacIsStandard(key: seq<Byte>, data: seq<Byte>, inner: seq<Byte>, outer: seq<Byte>)
    requires |key| <= 64 && |inner| == |outer| == 64
    requires forall i :: 0 <= i < 64 ==> inner[i] == (if i < |key| then key[i] else 0) ^ 0x36
    requires forall i :: 0 <= i < 64 ==> outer[i] == (if i < |key| then key[i] else 0) ^ 0x5c
    ensures Hmac(key, data) == Sha256.Hash(outer + Sha256.Hash(inner + data))
  {
    var k := BlockKey(key);
    assert inner == XorBytes(k, Repeated(0x36, 64));
    assert outer == XorBytes(k, Repeated(0x5c, 64));
  }

  /** A longer key is replaced by its hash. */
  lemma HmacOfLongKey(key: seq<Byte>, data: seq<Byte>)
    requires |key| > 64
    ensures Hmac(key, data) == Hmac(Sha256.Hash(key), data)
  {
    assert BlockKey(key) == BlockKey(Sha256.Hash(key));
  }

  /** `memset` with the pad byte, then XOR with the key: the untouched rest is the pad byte itself. */
  method PadKey(key: seq<Byte>, pad: Byte) returns (out: seq<Byte>)
    requires |key| <= 64
    ensures out == XorBytes(key + Zeros(64 - |key|), Repeated(pad, 64))
  {
    hide Xor;
    var a := new Byte[64](_ => pad);
    for i := 0 to |key|
      invariant forall j :: 0 <= j < 64 ==> a[j] == if j < i then Xor(pad, key[j]) else pad
    {
      a[i] := Xor(a[i], key[i]);
    }
    out := a[..];
    forall i | 0 <= i < 64
      ensures out[i] == XorBytes(key + Zeros(64 - |key|), Repeated(pad, 64))[i]
    {
      XorLaws(pad, if i < |key| then key[i] else 0, 0);
    }
  }

  const INLINE_CAP: nat := 256

  /** ipad || data, in a fixed buffer when it fits and in an exactly sized one otherwise. */
  method InnerInput(ipad: seq<Byte>, data: seq<Byte>) returns (input: seq<Byte>)
    requires |ipad| == 64
    ensures input == ipad + data
  {
    var buffer: array<Byte>;
    if |data| <= INLINE_CAP {
      buffer := new Byte[64 + INLINE_CAP](_ => 0);
    } else {
      buffer := new Byte[64 + |data|](_ => 0);
    }
    forall i | 0 <= i < 64 { buffer[i] := ipad[i]; }
    forall i | 0 <= i < |data| { buffer[64 + i] := data[i]; }
    input := buffer[..64 + |data|];
  }

  method HmacSha256(key: seq<Byte>, data: seq<Byte>, ghost trace: Trace) returns (tag: seq<Byte>)
    modifies trace
    ensures tag == Hmac(key, data)
    ensures trace.ops == old(trace.ops) + [Mac(key, data)]
  {
    trace.ops := trace.ops + [Mac(key, data)];
    var actual := key;
    ghost var fed;
    if |key| > 64 {
      actual, fed := Sha256.ComputeHash(key);
    }
    assert BlockKey(key) == actual + Zeros(64 - |actual|);
    var ipad := PadKey(actual, 0x36);
    var opad := PadKey(actual, 0x5c);
    var input := InnerInput(ipad, data);
    var inner;
    inner, fed := Sha256.ComputeHash(input);
    tag, fed := Sha256.ComputeHash(opad + inner);
  }

  // ----- PBKDF2 -----

  /** U_j of the block with index `idx`. */
  function U(pass: seq<Byte>, salt: seq<Byte>, idx: nat, j: nat): (u: seq<Byte>)
    requires j >= 1
    ensures |u| == 32
  {
    if j == 1 then Hmac(pass, salt + BigEndian(idx, 4)) else Hmac(pass, U(pass, salt, idx, j - 1))
  }

  /** U_1 xor U_2 xor ... xor U_c. */
  function F(pass: seq<Byte>, salt: seq<Byte>, c: nat, idx: nat): (t: seq<Byte>)
    requires c >= 1
    ensures |t| == 32
  {
    if c == 1 then U(pass, salt, idx, 1) else XorBytes(F(pass, salt, c - 1, idx), U(pass, salt, idx, c))
  }

  /** 64 bytes of derived key. The code treats an iteration count of zero like one. */
  function Derived(pass: seq<Byte>, salt: seq<Byte>, iterations: nat): (dk: seq<Byte>)
    ensures |dk| == 64
  {
    var c := if iterations == 0 then 1 else iterations;
    F(pass, salt, c, 1) + F(pass, salt, c, 2)
  }

  /** The XOR of byte `i` of all the strings. */
  function XorDown(u: seq<seq<Byte>>, i: nat): Byte
    requires forall j :: 0 <= j < |u| ==> i < |u[j]|
  {
    if u == [] then 0 else Xor(XorDown(u[..|u| - 1], i), u[|u| - 1][i])
  }

  /** U_1 to U_c of one block, `first` being the string that U_1 authenticates. */
  ghost predicate IsChain(pass: seq<Byte>, first: seq<Byte>, u: seq<seq<Byte>>) {
    && u != [] && u[0] == Hmac(pass, first)
    && forall j :: 0 < j < |u| ==> u[j] == Hmac(pass, u[j - 1])
  }

  lemma {:induction false} ChainIsF(pass: seq<Byte>, salt: seq<Byte>, idx: nat, u: seq<seq<Byte>>, i: nat)
    requires IsChain(pass, salt + BigEndian(idx, 4), u) && i < 32
    ensures u[|u| - 1] == U(pass, salt, idx, |u|)
    ensures (forall j :: 0 <= j < |u| ==> |u[j]| == 32) && F(pass, salt, |u|, idx)[i] == XorDown(u, i)
  {
    hide Hmac, Xor, BigEndian;
    if |u| == 1 {
      XorLaws(u[0][i], 0, 0);
      assert u[..0] == [];
    } else {
      var front := u[..|u| - 1];
      ChainIsF(pass, salt, idx, front, i);
      assert forall j :: 0 <= j < |front| ==> front[j] == u[j];
    }
  }

  /** Section 5.2 of RFC 8018: bytes 0 to 31 come from block index 1, bytes 32 to 63 from block
      index 2, each the XOR of its chain of HMACs. */
  lemma DerivedIsStandard(pass: seq<Byte>, salt: seq<Byte>, c: nat, u: seq<seq<Byte>>, v: seq<seq<Byte>>, i: nat)
    requires c > 0 && |u| == |v| == c && i < 32
    requires forall j :: 0 <= j < c ==> |u[j]| == |v[j]| == 32
    requires IsChain(pass, salt + [0, 0, 0, 1], u) && IsChain(pass, salt + [0, 0, 0, 2], v)
    ensures Derived(pass, salt, c)[i] == XorDown(u, i) && Derived(pass, salt, c)[32 + i] == XorDown(v, i)
  {
    hide IsChain, F, U, BigEndian, BigEndianValue, XorDown;
    FourByteValues(0, 0, 0, 1);
    FourByteValues(0, 0, 0, 2);
    assert ValueOf(0) == 0 && ValueOf(1) == 1 && ValueOf(2) == 2;
    assert Pow256(4) == TWO_32;
    BigEndianIs([0, 0, 0, 1], 1);
    BigEndianIs([0, 0, 0, 2], 2);
    ChainIsF(pass, salt, 1, u, i);
    ChainIsF(pass, salt, 2, v, i);
  }

  /** The HMAC calls that make U_1 to U_c. */
  ghost function BlockMacs(pass: seq<Byte>, salt: seq<Byte>, c: nat, idx: nat): (ops: seq<Op>)
    ensures |ops| == c && forall k :: 0 <= k < c ==> ops[k].Mac?
  {
    seq(c, j requires 0 <= j => Mac(pass, if j == 0 then salt + BigEndian(idx, 4) else U(pass, salt, idx, j)))
  }

  lemma BlockMacsNext(pass: seq<Byte>, salt: seq<Byte>, c: nat, idx: nat)
    ensures BlockMacs(pass, salt, 1, idx) == [Mac(pass, salt + BigEndian(idx, 4))]
    ensures c > 0 ==> BlockMacs(pass, salt, c + 1, idx) == BlockMacs(pass, salt, c, idx) + [Mac(pass, U(pass, salt, idx, c))]
  {
    hide Hmac, BigEndian;
  }

  /** The HMAC calls of a whole derivation, one block after the other. */
  ghost function DerivationMacs(pass: seq<Byte>, salt: seq<Byte>, iterations: nat): (ops: seq<Op>)
    ensures |ops| == 2 * (if iterations == 0 then 1 else iterations)
    ensures forall k :: 0 <= k < |ops| ==> ops[k].Mac?
  {
    var c := if iterations == 0 then 1 else iterations;
    BlockMacs(pass, salt, c, 1) + BlockMacs(pass, salt, c, 2)
  }

  /** The loop counter after `n` increments: it starts at 2 and wraps at 2^32. */
  function Counter(n: nat): nat {
    (2 + n) % TWO_32
  }

  /** The guard `i <= iterations` ever fails exactly when the count is below 2^32 - 1. */
  lemma LoopEndsIff(iterations: nat)
    requires iterations < TWO_32
    ensures (exists n :: Counter(n) > iterations) <==> iterations < TWO_32 - 1
  {
    if iterations < TWO_32 - 1 {
      assert Counter(TWO_32 - 3) == TWO_32 - 1;
    }
  }

  lemma NextTerm(pass: seq<Byte>, salt: seq<Byte>, idx: nat, c: nat)
    ensures U(pass, salt, idx, 1) == F(pass, salt, 1, idx) == Hmac(pass, salt + BigEndian(idx, 4))
    ensures c > 0 ==> U(pass, salt, idx, c + 1) == Hmac(pass, U(pass, salt, idx, c))
    ensures c > 0 ==> F(pass, salt, c + 1, idx) == XorBytes(F(pass, salt, c, idx), U(pass, salt, idx, c + 1))
  {
    hide Hmac, BigEndian;
  }

  method DeriveBlock(pass: seq<Byte>, salt: seq<Byte>, iterations: nat, idx: nat, ghost trace: Trace) returns (t: seq<Byte>)
    requires iterations < TWO_32 - 1
    modifies trace
    ensures t == F(pass, salt, if iterations == 0 then 1 else iterations, idx)
    ensures trace.ops == old(trace.ops) + BlockMacs(pass, salt, if iterations == 0 then 1 else iterations, idx)
  {
    hide Hmac, Xor, BlockMacs, BigEndian, U, F;
    BlockMacsNext(pass, salt, 0, idx);
    NextTerm(pass, salt, idx, 0);
    var u := HmacSha256(pass, salt + BigEndian(idx, 4), trace);
    t := u;
    var i := 2;
    ghost var n := 0;
    while i <= iterations
      invariant i == Counter(n)
      invariant 2 <= i < TWO_32 && (i <= iterations + 1 || i == 2)
      invariant u == U(pass, salt, idx, i - 1) && t == F(pass, salt, i - 1, idx)
      invariant trace.ops == old(trace.ops) + BlockMacs(pass, salt, i - 1, idx)
      decreases TWO_32 - i
    {
      BlockMacsNext(pass, salt, i - 1, idx);
      NextTerm(pass, salt, idx, i - 1);
      u := HmacSha256(pass, u, trace);
      t := XorBytes(t, u);
      i := (i + 1) % TWO_32;
      n := n + 1;
    }
  }

  method Pbkdf2HmacSha256(pass: seq<Byte>, salt: seq<Byte>, iterations: nat, ghost trace: Trace) returns (dk: seq<Byte>)
    requires iterations < TWO_32 - 1
    modifies trace
    ensures dk == Derived(pass, salt, iterations)
    ensures trace.ops == old(trace.ops) + DerivationMacs(pass, salt, iterations)
  {
    hide F, BlockMacs;
    var first := DeriveBlock(pass, salt, iterations, 1, trace);
    var second := DeriveBlock(pass, salt, iterations, 2, trace);
    dk := first + second;
  }
}
