/** SHA-256 (FIPS 180-4) as `sha256.cpp` streams it: a 64-byte buffer filled byte by byte,
    refined to padding, parsing and the compression fold. */
module Sha256 {
  import opened Bytes
  import opened Sha256Constants
  import opened WordSums

  /** The eight working variables or hash words. */
  datatype Words = Words(a: bv32, b: bv32, c: bv32, d: bv32, e: bv32, f: bv32, g: bv32, h: bv32)

  /** The initial hash value of section 5.3.3. */
  const INITIAL: Words := Words(0x6a09e667, 0xbb67ae85, 0x3c6ef372, 0xa54ff53a, 0x510e527f, 0x9b05688c, 0x1f83d9ab, 0x5be0cd19)

  // ----- The functions of section 4.1.2 -----

  function Ror(x: bv32, n: Byte): bv32
    requires 0 < n < 32
  {
    (x >> n) | (x << (32 - n))
  }

  function Shr(x: bv32, n: Byte): bv32
    requires 0 < n < 32
  {
    x >> n
  }

  function Xor32(x: bv32, y: bv32): bv32 {
    x ^ y
  }

  function And32(x: bv32, y: bv32): bv32 {
    x & y
  }

  function Not32(x: bv32): bv32 {
    !x
  }

  function Ch(x: bv32, y: bv32, z: bv32): bv32 {
    Xor32(And32(x, y), And32(Not32(x), z))
  }

  function Maj(x: bv32, y: bv32, z: bv32): bv32 {
    Xor32(Xor32(And32(x, y), And32(x, z)), And32(y, z))
  }

  function Sigma0(x: bv32): bv32 {
    Xor32(Xor32(Ror(x, 2), Ror(x, 13)), Ror(x, 22))
  }

  function Sigma1(x: bv32): bv32 {
    Xor32(Xor32(Ror(x, 6), Ror(x, 11)), Ror(x, 25))
  }

  function Gamma0(x: bv32): bv32 {
    Xor32(Xor32(Ror(x, 7), Ror(x, 18)), Shr(x, 3))
  }

  function Gamma1(x: bv32): bv32 {
    Xor32(Xor32(Ror(x, 17), Ror(x, 19)), Shr(x, 10))
  }

  function WordAt(b: seq<Byte>, i: nat): bv32
    requires i + 4 <= |b|
  {
    (b[i] as bv32 << 24) | (b[i + 1] as bv32 << 16) | (b[i + 2] as bv32 << 8) | b[i + 3] as bv32
  }

  /** The four bytes of a word, most significant first. */
  function WordBytes(x: bv32): (s: seq<Byte>)
    ensures |s| == 4
  {
    [((x >> 24) & 0xff) as Byte, ((x >> 16) & 0xff) as Byte, ((x >> 8) & 0xff) as Byte, (x & 0xff) as Byte]
  }

  // ----- The computation of section 6.2.2 -----

  type Chunk = s: seq<Byte> | |s| == 64 witness Zeros(64)

  function Expansion(w2: bv32, w7: bv32, w15: bv32, w16: bv32): bv32 {
    Plus(Plus(Plus(Gamma1(w2), w7), Gamma0(w15)), w16)
  }

  /** W_t of the message schedule. */
  function Schedule(m: Chunk, t: nat): bv32 {
    if t < 16 then WordAt(m, 4 * t)
    else Expansion(Schedule(m, t - 2), Schedule(m, t - 7), Schedule(m, t - 15), Schedule(m, t - 16))
  }

  function Round(s: Words, k: bv32, w: bv32): Words {
    var t1 := Plus(Plus(Plus(Plus(s.h, Sigma1(s.e)), Ch(s.e, s.f, s.g)), k), w);
    var t2 := Plus(Sigma0(s.a), Maj(s.a, s.b, s.c));
    Words(Plus(t1, t2), s.a, s.b, s.c, Plus(s.d, t1), s.e, s.f, s.g)
  }

  /** The working variables after `t` rounds. */
  function Rounds(s: Words, m: Chunk, t: nat): Words
    requires t <= 64
  {
    if t == 0 then s else Round(Rounds(s, m, t - 1), K(t - 1), Schedule(m, t - 1))
  }

  function Sum(s: Words, t: Words): Words {
    Words(Plus(s.a, t.a), Plus(s.b, t.b), Plus(s.c, t.c), Plus(s.d, t.d),
          Plus(s.e, t.e), Plus(s.f, t.f), Plus(s.g, t.g), Plus(s.h, t.h))
  }

  function Compress(h: Words, m: Chunk): Words {
    Sum(h, Rounds(h, m, 64))
  }

  /** H^(N) over the 64-byte blocks of `data`. */
  function Fold(data: seq<Byte>): Words
    requires |data| % 64 == 0
  {
    if |data| < 64 then INITIAL else Compress(Fold(data[..|data| - 64]), data[|data| - 64..])
  }

  // ----- Padding, section 5.1.1 -----

  /** The smallest number of zero bytes after 0x80 that leaves room for the length. */
  function ZeroCount(len: nat): nat {
    (119 - len % 64) % 64
  }

  function Pad(msg: seq<Byte>): (p: seq<Byte>)
    ensures |p| % 64 == 0
  {
    PaddedLength(|msg|);
    msg + [0x80] + Zeros(ZeroCount(|msg|)) + BigEndian(8 * |msg|, 8)
  }

  lemma PaddedLength(len: nat)
    ensures (len + 1 + ZeroCount(len) + 8) % 64 == 0
  {
  }

  lemma ZeroCountIsLeast(len: nat, k: nat)
    requires (len + 1 + k) % 64 == 56
    ensures (len + 1 + ZeroCount(len)) % 64 == 56 && ZeroCount(len) <= k
  {
    var front, tail := len / 64, len % 64;
    ZeroCountOf(64 * front, tail);
    var q := (len + 1 + k) / 64;
    assert k == 64 * (q - front) + 55 - tail;
  }

  /** Within the standard's bound of 2^64 - 1 bits the padded form determines the message. */
  lemma PadInjective(m: seq<Byte>, m': seq<Byte>)
    requires |m| < TWO_61 && |m'| < TWO_61
    ensures Pad(m) == Pad(m') <==> m == m'
  {
    hide BigEndian, ZeroCount;
    var p, p' := Pad(m), Pad(m');
    assert p[|p| - 8..] == BigEndian(8 * |m|, 8) && p'[|p'| - 8..] == BigEndian(8 * |m'|, 8);
    LengthFieldExact(|m|, |m'|);
    assert p[..|m|] == m && p'[..|m'|] == m';
  }

  function Digest(s: Words): (d: seq<Byte>)
    ensures |d| == 32
  {
    WordBytes(s.a) + WordBytes(s.b) + WordBytes(s.c) + WordBytes(s.d)
      + WordBytes(s.e) + WordBytes(s.f) + WordBytes(s.g) + WordBytes(s.h)
  }

  function Hash(msg: seq<Byte>): (d: seq<Byte>)
    ensures |d| == 32
  {
    Digest(Fold(Pad(msg)))
  }

  // ----- The code -----

  lemma ScheduleIs(m: Chunk, t: nat)
    ensures t < 16 ==> Schedule(m, t) == WordAt(m, 4 * t)
    ensures t >= 16 ==> Schedule(m, t) == Expansion(Schedule(m, t - 2), Schedule(m, t - 7), Schedule(m, t - 15), Schedule(m, t - 16))
  {
  }

  method ExpandMessage(b: Chunk) returns (w: array<bv32>)
    ensures fresh(w) && w.Length == 64 && forall j :: 0 <= j < 64 ==> w[j] == Schedule(b, j)
  {
    hide Expansion, WordAt, Schedule;
    w := new bv32[64](_ => 0);
    for i := 0 to 16
      invariant forall j :: 0 <= j < i ==> w[j] == Schedule(b, j)
    {
      ScheduleIs(b, i);
      w[i] := WordAt(b, i * 4);
    }
    for i := 16 to 64
      invariant forall j :: 0 <= j < i ==> w[j] == Schedule(b, j)
    {
      ScheduleIs(b, i);
      w[i] := Expansion(w[i - 2], w[i - 7], w[i - 15], w[i - 16]);
    }
  }

  method ProcessBlock(h: Words, b: Chunk) returns (h': Words)
    ensures h' == Compress(h, b)
  {
    hide Schedule, Rounds, Sum;
    var w := ExpandMessage(b);
    var s := RunRounds(h, b, w[..]);
    h' := Sum(h, s);
  }

  method RunRounds(s: Words, ghost m: Chunk, w: seq<bv32>) returns (r: Words)
    requires |w| == 64 && forall j :: 0 <= j < 64 ==> w[j] == Schedule(m, j)
    ensures r == Rounds(s, m, 64)
  {
    hide Plus, Sigma0, Sigma1, Ch, Maj, K, Schedule;
    var a, b, c, d, e, f, g, h := s.a, s.b, s.c, s.d, s.e, s.f, s.g, s.h;
    for i := 0 to 64
      invariant Words(a, b, c, d, e, f, g, h) == Rounds(s, m, i)
    {
      var t1 := Plus(Plus(Plus(Plus(h, Sigma1(e)), Ch(e, f, g)), K(i)), w[i]);
      var t2 := Plus(Sigma0(a), Maj(a, b, c));
      h := g;
      g := f;
      f := e;
      e := Plus(d, t1);
      d := c;
      c := b;
      b := a;
      a := Plus(t1, t2);
    }
    r := Words(a, b, c, d, e, f, g, h);
  }

  lemma FoldNext(data: seq<Byte>, chunk: Chunk)
    requires |data| % 64 == 0
    ensures Fold(data + chunk) == Compress(Fold(data), chunk)
  {
    hide Compress;
    var all := data + chunk;
    assert all[..|all| - 64] == data && all[|all| - 64..] == chunk;
  }

  method FillZero(block: array<Byte>, from: nat, to: nat)
    requires from <= to <= block.Length
    modifies block
    ensures block[..from] == old(block[..from]) && block[from..to] == Zeros(to - from) && block[to..] == old(block[to..])
  {
    for i := from to to
      invariant forall j :: 0 <= j < block.Length ==> block[j] == if from <= j < i then 0 else old(block[j])
    {
      block[i] := 0;
    }
  }

  lemma ZeroCountOf(front: nat, tail: nat)
    requires front % 64 == 0 && tail < 64
    ensures ZeroCount(front + tail) == if tail < 56 then 55 - tail else 119 - tail
  {
    assert (front + tail) % 64 == tail;
  }

  lemma PadShort(front: seq<Byte>, tail: seq<Byte>)
    requires |front| % 64 == 0 && |tail| < 56
    ensures Pad(front + tail) == front + (tail + [0x80] + Zeros(55 - |tail|) + BigEndian(8 * |front + tail|, 8))
  {
    hide BigEndian, ZeroCount;
    ZeroCountOf(|front|, |tail|);
    Regroup(front, tail, [0x80], Zeros(55 - |tail|), BigEndian(8 * |front + tail|, 8));
  }

  lemma Regroup<T>(a: seq<T>, b: seq<T>, c: seq<T>, d: seq<T>, e: seq<T>)
    ensures (a + b) + c + d + e == a + (b + c + d + e)
  {
  }

  lemma PadLong(front: seq<Byte>, tail: seq<Byte>)
    requires |front| % 64 == 0 && 56 <= |tail| < 64
    ensures Pad(front + tail)
         == front + (tail + [0x80] + Zeros(63 - |tail|)) + (Zeros(56) + BigEndian(8 * |front + tail|, 8))
  {
    hide BigEndian, ZeroCount;
    ZeroCountOf(|front|, |tail|);
    assert Zeros(63 - |tail| + 56) == Zeros(63 - |tail|) + Zeros(56);
  }

  /** Zeros up to byte 56, then the 64-bit length. */
  method CloseBlock(block: array<Byte>, blockLen: nat, msgLen: nat)
    requires block.Length == 64 && blockLen <= 56
    modifies block
    ensures block[..] == old(block[..blockLen]) + Zeros(56 - blockLen) + BigEndian(8 * msgLen, 8)
  {
    hide BigEndian;
    FillZero(block, blockLen, 56);
    var length := BigEndian(8 * msgLen, 8);
    forall i | 0 <= i < 8 { block[56 + i] := length[i]; }
  }

  /** The padding tail: 0x80, zeros and the length, with an extra block when fewer than nine bytes
      are left in the buffer. */
  method Finish(h: Words, block: array<Byte>, len: nat, msgLen: nat, ghost front: seq<Byte>, ghost tail: seq<Byte>)
    returns (h': Words, ghost fed: seq<Byte>)
    requires block.Length == 64 && |front| % 64 == 0 && len == |tail| < 64 && msgLen == |front + tail|
    requires block[..len] == tail && h == Fold(front)
    modifies block
    ensures h' == Fold(Pad(front + tail)) && fed == Pad(front + tail)
  {
    hide Compress, BigEndian, Fold, Pad;
    h', fed := h, front;
    var blockLen := len;
    block[blockLen] := 0x80;
    blockLen := blockLen + 1;
    assert block[..blockLen] == tail + [0x80];
    if blockLen > 56 {
      PadLong(front, tail);
      FillZero(block, blockLen, 64);
      assert block[..] == block[..blockLen] + block[blockLen..64];
      FoldNext(fed, block[..]);
      h' := ProcessBlock(h', block[..]);
      fed := fed + block[..];
      blockLen := 0;
      assert block[..0] + Zeros(56) == Zeros(56);
    } else {
      PadShort(front, tail);
    }
    CloseBlock(block, blockLen, msgLen);
    FoldNext(fed, block[..]);
    h' := ProcessBlock(h', block[..]);
    fed := fed + block[..];
  }

  /** `fed` is the concatenation of the blocks handed to the compression, in order. */
  method ComputeHash(data: seq<Byte>) returns (digest: seq<Byte>, ghost fed: seq<Byte>)
    ensures digest == Hash(data)
    ensures fed == Pad(data)
  {
    hide Compress, Digest, Fold, Pad;
    var h := INITIAL;
    var block := new Byte[64](_ => 0);
    var blockLen := 0;
    ghost var n := 0;
    fed := [];
    FoldNone(data[..0]);
    for i := 0 to |data|
      invariant n % 64 == 0 && blockLen < 64 && n + blockLen == i
      invariant block[..blockLen] == data[n..i]
      invariant h == Fold(data[..n]) && fed == data[..n]
    {
      block[blockLen] := data[i];
      blockLen := blockLen + 1;
      assert block[..blockLen] == data[n..i] + [data[i]] == data[n..i + 1];
      if blockLen == 64 {
        assert block[..] == block[..64];
        TakeBlock(data, n, block[..]);
        h := ProcessBlock(h, block[..]);
        fed := fed + block[..];
        blockLen, n := 0, n + 64;
      }
    }
    assert data[..n] + data[n..] == data;
    h, fed := Finish(h, block, blockLen, |data|, data[..n], data[n..]);
    digest := Digest(h);
  }

  lemma TakeBlock(data: seq<Byte>, n: nat, chunk: Chunk)
    requires n % 64 == 0 && n + 64 <= |data| && chunk == data[n..n + 64]
    ensures Fold(data[..n + 64]) == Compress(Fold(data[..n]), chunk)
    ensures data[..n + 64] == data[..n] + chunk
  {
    hide Compress, Fold;
    FoldNext(data[..n], chunk);
    assert data[..n] + chunk == data[..n + 64];
  }

  lemma FoldNone(data: seq<Byte>)
    requires data == []
    ensures Fold(data) == INITIAL
  {
  }
}
