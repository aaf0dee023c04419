/** The AES-NI backend (`aes_core_ni.cpp`). The instructions are taken from the Intel 64
    Software Developer's Manual; the schedules and round loops are the library's. */
module AesNi {
  import opened Bytes
  import opened Gf256
  import opened Aes

  // ----- Instructions on a 128-bit register of four dwords -----

  /** _mm_slli_si128(x, 4). */
  function ShiftLeft4(x: Quad): Quad {
    Quad(ZERO_WORD, x.c0, x.c1, x.c2)
  }

  function Dword(x: Quad, k: Byte): Word {
    if k == 0 then x.c0 else if k == 1 then x.c1 else if k == 2 then x.c2 else x.c3
  }

  /** _mm_shuffle_epi32. */
  function Shuffle(x: Quad, imm: Byte): Quad {
    Quad(Dword(x, imm & 3), Dword(x, (imm >> 2) & 3), Dword(x, (imm >> 4) & 3), Dword(x, (imm >> 6) & 3))
  }

  /** AESKEYGENASSIST. */
  function KeygenAssist(x: Quad, rcon: Byte): Quad {
    var s1, s3 := SubWord(x.c1), SubWord(x.c3);
    Quad(s1, XorWord(RotWord(s1), Word(rcon, 0, 0, 0)), s3, XorWord(RotWord(s3), Word(rcon, 0, 0, 0)))
  }

  /** AESENC. */
  function AesEnc(state: Quad, k: Quad): Quad {
    XorQuad(MixColumns(SubBytes(ShiftRows(state))), k)
  }

  /** AESENCLAST. */
  function AesEncLast(state: Quad, k: Quad): Quad {
    XorQuad(SubBytes(ShiftRows(state)), k)
  }

  // ----- Key schedules -----

  /** Three shift-and-add steps leave in each dword the sum of the dwords up to it. */
  method PrefixSums(x: Quad, w: Quad) returns (t: Quad)
    requires w.c0 == w.c1 == w.c2 == w.c3
    ensures t == Chain(x, w.c0)
  {
    hide XorWord;
    t := x;
    var temp4 := ShiftLeft4(t);
    t := XorQuad(t, temp4);
    temp4 := ShiftLeft4(temp4);
    t := XorQuad(t, temp4);
    temp4 := ShiftLeft4(temp4);
    t := XorQuad(t, temp4);
    t := XorQuad(t, w);
    PrefixSumIsChain(x, w.c0);
  }

  lemma PrefixSumIsChain(x: Quad, w: Word)
    ensures
      var z := ZERO_WORD;
      var a, b, c, d := x.c0, x.c1, x.c2, x.c3;
      Quad(XorWord(XorWord(XorWord(XorWord(a, z), z), z), w),
           XorWord(XorWord(XorWord(XorWord(b, a), z), z), w),
           XorWord(XorWord(XorWord(XorWord(c, b), a), z), w),
           XorWord(XorWord(XorWord(XorWord(d, c), b), a), w)) == Chain(x, w)
  {
    hide XorWord;
    var z := ZERO_WORD;
    var a, b, c, d := x.c0, x.c1, x.c2, x.c3;
    XorWordLaws(a, z, z);
    XorWordLaws(XorWord(b, a), z, z);
    XorWordLaws(b, a, w);
    XorWordLaws(XorWord(XorWord(c, b), a), z, z);
    XorWordLaws(XorWord(c, b), a, w);
    XorWordLaws(c, b, XorWord(a, w));
    XorWordLaws(XorWord(XorWord(d, c), b), a, w);
    XorWordLaws(XorWord(d, c), b, XorWord(a, w));
    XorWordLaws(d, c, XorWord(b, XorWord(a, w)));
  }

  lemma Splat(x: Quad)
    ensures Shuffle(x, 0xff) == Quad(x.c3, x.c3, x.c3, x.c3)
    ensures Shuffle(x, 0xaa) == Quad(x.c2, x.c2, x.c2, x.c2)
  {
  }

  method KeyExpansionStepEven(temp1: Quad, temp2: Quad) returns (t: Quad)
    ensures t == Chain(temp1, temp2.c3)
  {
    hide Shuffle, Chain;
    Splat(temp2);
    t := PrefixSums(temp1, Shuffle(temp2, 0xff));
  }

  method KeyExpansionStepOdd(temp1: Quad, temp3: Quad) returns (t: Quad)
    ensures t == Chain(temp3, SubWord(temp1.c3))
  {
    hide Shuffle, Chain, SubWord, XorWord;
    var temp4 := KeygenAssist(temp1, 0);
    Splat(temp4);
    t := PrefixSums(temp3, Shuffle(temp4, 0xaa));
  }

  /** AESLIB_EVEN_STEP: the round key two after `temp1`. */
  method EvenStep(temp1: Quad, temp3: Quad, rcon: Byte, ghost key: seq<Byte>, ghost r: nat) returns (t: Quad)
    requires |key| == 32 && r % 2 == 0 && 2 <= r <= 14 && rcon == RCON[r / 2]
    requires temp1 == RoundKey(key, 8, r - 2) && temp3 == RoundKey(key, 8, r - 1)
    ensures t == RoundKey(key, 8, r)
  {
    hide Sbox, XorWord, Chain, RoundKey, Rcon;
    NextRoundKey(key, Aes256, r);
    RconTable(r / 2);
    t := KeyExpansionStepEven(temp1, KeygenAssist(temp3, rcon));
  }

  method OddStep(temp1: Quad, temp3: Quad, ghost key: seq<Byte>, ghost r: nat) returns (t: Quad)
    requires |key| == 32 && r % 2 == 1 && 3 <= r <= 13
    requires temp3 == RoundKey(key, 8, r - 2) && temp1 == RoundKey(key, 8, r - 1)
    ensures t == RoundKey(key, 8, r)
  {
    hide Sbox, XorWord, Chain, RoundKey, SubWord;
    NextRoundKey(key, Aes256, r);
    t := KeyExpansionStepOdd(temp1, temp3);
  }

  method ExpandKeyNi(key: seq<Byte>) returns (schedule: seq<Quad>)
    requires |key| == 32
    ensures schedule == RoundKeys(key, Aes256)
  {
    hide RoundKey, QuadOf;
    var temp1 := QuadOf(key[..16]);
    var temp3 := QuadOf(key[16..]);
    FirstRoundKeys(key, Aes256);
    schedule := [temp1, temp3];
    temp1 := EvenStep(temp1, temp3, 0x01, key, 2);   schedule := schedule + [temp1];
    temp3 := OddStep(temp1, temp3, key, 3);          schedule := schedule + [temp3];
    temp1 := EvenStep(temp1, temp3, 0x02, key, 4);   schedule := schedule + [temp1];
    temp3 := OddStep(temp1, temp3, key, 5);          schedule := schedule + [temp3];
    temp1 := EvenStep(temp1, temp3, 0x04, key, 6);   schedule := schedule + [temp1];
    temp3 := OddStep(temp1, temp3, key, 7);          schedule := schedule + [temp3];
    temp1 := EvenStep(temp1, temp3, 0x08, key, 8);   schedule := schedule + [temp1];
    temp3 := OddStep(temp1, temp3, key, 9);          schedule := schedule + [temp3];
    temp1 := EvenStep(temp1, temp3, 0x10, key, 10);  schedule := schedule + [temp1];
    temp3 := OddStep(temp1, temp3, key, 11);         schedule := schedule + [temp3];
    temp1 := EvenStep(temp1, temp3, 0x20, key, 12);  schedule := schedule + [temp1];
    temp3 := OddStep(temp1, temp3, key, 13);         schedule := schedule + [temp3];
    temp1 := EvenStep(temp1, temp3, 0x40, key, 14);  schedule := schedule + [temp1];
    assert schedule == RoundKeys(key, Aes256);
  }

  method Key128Step(temp1: Quad, rcon: Byte, ghost key: seq<Byte>, ghost r: nat) returns (t: Quad)
    requires |key| == 32 && 1 <= r <= 10 && rcon == RCON[r] && temp1 == RoundKey(key, 4, r - 1)
    ensures t == RoundKey(key, 4, r)
  {
    hide Sbox, XorWord, Chain, RoundKey, Rcon;
    NextRoundKey(key, Aes128, r);
    RconTable(r);
    t := KeyExpansionStepEven(temp1, KeygenAssist(temp1, rcon));
  }

  method ExpandKey128Ni(key: seq<Byte>) returns (schedule: seq<Quad>)
    requires |key| == 32
    ensures schedule == RoundKeys(key, Aes128)
  {
    hide RoundKey, QuadOf;
    var temp1 := QuadOf(key[..16]);
    FirstRoundKeys(key, Aes128);
    schedule := [temp1];
    temp1 := Key128Step(temp1, 0x01, key, 1);   schedule := schedule + [temp1];
    temp1 := Key128Step(temp1, 0x02, key, 2);   schedule := schedule + [temp1];
    temp1 := Key128Step(temp1, 0x04, key, 3);   schedule := schedule + [temp1];
    temp1 := Key128Step(temp1, 0x08, key, 4);   schedule := schedule + [temp1];
    temp1 := Key128Step(temp1, 0x10, key, 5);   schedule := schedule + [temp1];
    temp1 := Key128Step(temp1, 0x20, key, 6);   schedule := schedule + [temp1];
    temp1 := Key128Step(temp1, 0x40, key, 7);   schedule := schedule + [temp1];
    temp1 := Key128Step(temp1, 0x80, key, 8);   schedule := schedule + [temp1];
    temp1 := Key128Step(temp1, 0x1B, key, 9);   schedule := schedule + [temp1];
    temp1 := Key128Step(temp1, 0x36, key, 10);  schedule := schedule + [temp1];
    assert schedule == RoundKeys(key, Aes128);
  }

  // ----- Block functions -----

  method EncryptBlockNi(key: seq<Byte>, size: KeySize, block: Block) returns (out: Block)
    requires |key| == 32
    ensures out == Encrypt(key, size, block)
  {
    hide XorQuad, SubBytes, ShiftRows, MixColumns, RoundKey, QuadOf, BlockOf;
    var schedule;
    if size == Aes128 {
      schedule := ExpandKey128Ni(key);
    } else {
      schedule := ExpandKeyNi(key);
    }
    ghost var ks := RoundKeys(key, size);
    var nr := Nr(size);
    var state := QuadOf(block);
    state := XorQuad(state, schedule[0]);
    for round := 1 to nr
      invariant state == Rounds(ks, QuadOf(block), round - 1)
    {
      SubShiftCommute(state);
      state := AesEnc(state, schedule[round]);
    }
    SubShiftCommute(state);
    state := AesEncLast(state, schedule[nr]);
    out := BlockOf(state);
  }
}
