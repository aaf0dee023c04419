/** The RV64 backend (`aes_core_riscv.cpp`). The Zkne instructions are taken from the RISC-V
    scalar cryptography specification; the schedules, the operand order and the round loop are
    the library's. A 64-bit register is modelled by its two little-endian 32-bit halves. */
module AesRiscv {
  import opened Bytes
  import opened Aes

  datatype Reg = Reg(lo: Word, hi: Word)

  /** Block bytes 0..7 and 8..15. */
  datatype State = State(lo: Reg, hi: Reg)

  function QuadOfState(s: State): Quad {
    Quad(s.lo.lo, s.lo.hi, s.hi.lo, s.hi.hi)
  }

  function StateOfQuad(q: Quad): State {
    State(Reg(q.c0, q.c1), Reg(q.c2, q.c3))
  }

  function LoadState(block: Block): State {
    StateOfQuad(QuadOf(block))
  }

  function StoreState(s: State): Block {
    BlockOf(QuadOfState(s))
  }

  function XorState(a: State, b: State): State {
    State(Reg(XorWord(a.lo.lo, b.lo.lo), XorWord(a.lo.hi, b.lo.hi)),
          Reg(XorWord(a.hi.lo, b.hi.lo), XorWord(a.hi.hi, b.hi.hi)))
  }

  // ----- Instructions -----

  /** The eight bytes ShiftRows brings to the half that `rs1` holds. */
  function ShiftedHalf(rs1: Reg, rs2: Reg): Reg {
    Reg(Word(rs1.lo.b0, rs1.hi.b1, rs2.lo.b2, rs2.hi.b3), Word(rs1.hi.b0, rs2.lo.b1, rs2.hi.b2, rs1.lo.b3))
  }

  function Aes64es(rs1: Reg, rs2: Reg): Reg {
    var h := ShiftedHalf(rs1, rs2);
    Reg(SubWord(h.lo), SubWord(h.hi))
  }

  function Aes64esm(rs1: Reg, rs2: Reg): Reg {
    var h := Aes64es(rs1, rs2);
    Reg(MixWord(h.lo), MixWord(h.hi))
  }

  /** The round constant of `rnum`; 0xA means no rotation and no constant. */
  function DecodeRcon(rnum: nat): Word
    requires rnum <= 0xA
  {
    Word(if rnum == 0xA then 0 else RCON[rnum + 1], 0, 0, 0)
  }

  function Aes64ks1i(rs1: Reg, rnum: nat): Reg
    requires rnum <= 0xA
  {
    var t := SubWord(if rnum == 0xA then rs1.hi else RotWord(rs1.hi));
    var r := XorWord(t, DecodeRcon(rnum));
    Reg(r, r)
  }

  function Aes64ks2(rs1: Reg, rs2: Reg): Reg {
    var w0 := XorWord(rs1.hi, rs2.lo);
    Reg(w0, XorWord(w0, rs2.hi))
  }

  // ----- Rounds -----

  function RoundMiddle(s: State): State {
    State(Aes64esm(s.lo, s.hi), Aes64esm(s.hi, s.lo))
  }

  function RoundFinal(s: State): State {
    State(Aes64es(s.lo, s.hi), Aes64es(s.hi, s.lo))
  }

  /** The second half is obtained from the same instruction with its operands swapped. */
  lemma RoundsAreFips(s: State)
    ensures QuadOfState(RoundFinal(s)) == ShiftRows(SubBytes(QuadOfState(s)))
    ensures QuadOfState(RoundMiddle(s)) == MixColumns(ShiftRows(SubBytes(QuadOfState(s))))
  {
    hide SubWord, MixWord;
    SubShiftCommute(QuadOfState(s));
  }

  method EncryptWithSchedule(rk: seq<State>, block: Block, ghost ks: seq<Quad>) returns (out: Block)
    requires |rk| == |ks| >= 2
    requires forall r :: 0 <= r < |rk| ==> QuadOfState(rk[r]) == ks[r]
    ensures out == BlockOf(Cipher(ks, QuadOf(block)))
  {
    hide XorWord, SubBytes, ShiftRows, MixColumns, RoundMiddle, RoundFinal, QuadOf, BlockOf;
    var nr := |rk| - 1;
    var state := XorState(LoadState(block), rk[0]);
    for round := 1 to nr
      invariant QuadOfState(state) == Rounds(ks, QuadOf(block), round - 1)
    {
      RoundsAreFips(state);
      state := XorState(RoundMiddle(state), rk[round]);
    }
    RoundsAreFips(state);
    state := XorState(RoundFinal(state), rk[nr]);
    out := StoreState(state);
  }

  // ----- Key schedules -----

  /** Two aes64ks2 in sequence advance a whole round key. */
  lemma HalfStepsChain(prev: State, t: Reg)
    ensures
      var t0 := Aes64ks2(t, prev.lo);
      var t1 := Aes64ks2(t0, prev.hi);
      QuadOfState(State(t0, t1)) == Chain(QuadOfState(prev), t.hi)
  {
    hide XorWord;
    var a, b, c, d, w := prev.lo.lo, prev.lo.hi, prev.hi.lo, prev.hi.hi, t.hi;
    XorWordLaws(w, a, b);
    XorWordLaws(XorWord(a, w), b, c);
    var w1 := XorWord(b, XorWord(a, w));
    XorWordLaws(w1, c, d);
    XorWordLaws(XorWord(c, w1), d, d);
  }

  /** The first half of AESLIB_KS256_STEP, and all of AESLIB_KS128_STEP. */
  method KsStep(prev: State, last: Reg, rnum: nat, ghost key: seq<Byte>, ghost size: KeySize, ghost r: nat) returns (next: State)
    requires |key| == 32 && rnum <= 9
    requires (size == Aes256 && r == 2 * rnum + 2 && rnum <= 6) || (size == Aes128 && r == rnum + 1)
    requires QuadOfState(prev) == RoundKey(key, Nk(size), r - Nk(size) / 4)
    requires last.hi == RoundKey(key, Nk(size), r - 1).c3
    ensures QuadOfState(next) == RoundKey(key, Nk(size), r)
  {
    hide XorWord, SubWord, Chain, RoundKey, Rcon;
    var t4 := Aes64ks1i(last, rnum);
    HalfStepsChain(prev, t4);
    RconTable(rnum + 1);
    NextRoundKey(key, size, r);
    var t0 := Aes64ks2(t4, prev.lo);
    var t1 := Aes64ks2(t0, prev.hi);
    next := State(t0, t1);
  }

  /** The second half of AESLIB_KS256_STEP: SubWord without rotation or constant. */
  method KsOddStep(prev: State, last: Reg, ghost key: seq<Byte>, ghost r: nat) returns (next: State)
    requires |key| == 32 && 3 <= r <= 13 && r % 2 == 1
    requires QuadOfState(prev) == RoundKey(key, 8, r - 2)
    requires last.hi == RoundKey(key, 8, r - 1).c3
    ensures QuadOfState(next) == RoundKey(key, 8, r)
  {
    hide XorWord, SubWord, Chain, RoundKey;
    var t4 := Aes64ks1i(last, 0xA);
    HalfStepsChain(prev, t4);
    XorWordLaws(SubWord(last.hi), ZERO_WORD, ZERO_WORD);
    NextRoundKey(key, Aes256, r);
    var t2 := Aes64ks2(t4, prev.lo);
    var t3 := Aes64ks2(t2, prev.hi);
    next := State(t2, t3);
  }

  ghost predicate HoldsRoundKeys(rk: seq<State>, key: seq<Byte>, nk: nat)
    requires nk > 0 && 4 * nk <= |key|
  {
    forall r :: 0 <= r < |rk| ==> QuadOfState(rk[r]) == RoundKey(key, nk, r)
  }

  /** AESLIB_KS256_STEP: stores two more round keys, or only one when rnum is 6. */
  method Ks256Step(even: State, odd: State, rk: seq<State>, rnum: nat, ghost key: seq<Byte>)
    returns (even': State, odd': State, rk': seq<State>)
    requires |key| == 32 && rnum <= 6
    requires QuadOfState(even) == RoundKey(key, 8, 2 * rnum) && QuadOfState(odd) == RoundKey(key, 8, 2 * rnum + 1)
    requires |rk| == 2 * rnum + 2 && HoldsRoundKeys(rk, key, 8)
    ensures QuadOfState(even') == RoundKey(key, 8, 2 * rnum + 2)
    ensures rnum < 6 ==> QuadOfState(odd') == RoundKey(key, 8, 2 * rnum + 3)
    ensures |rk'| == (if rnum == 6 then 15 else 2 * rnum + 4) && HoldsRoundKeys(rk', key, 8)
  {
    hide RoundKey;
    even' := KsStep(even, odd.hi, rnum, key, Aes256, 2 * rnum + 2);
    odd' := odd;
    rk' := rk + [even'];
    if rnum != 6 {
      odd' := KsOddStep(odd, even'.hi, key, 2 * rnum + 3);
      rk' := rk' + [odd'];
    }
  }

  method ExpandKey256Riscv(key: seq<Byte>) returns (rk: seq<State>)
    requires |key| == 32
    ensures |rk| == 15 && HoldsRoundKeys(rk, key, 8)
  {
    hide RoundKey, QuadOf, HoldsRoundKeys;
    FirstRoundKeys(key, Aes256);
    var even, odd := LoadState(key[..16]), LoadState(key[16..]);
    rk := [even, odd];
    HoldsTwo(rk, key);
    even, odd, rk := Ks256Step(even, odd, rk, 0, key);
    even, odd, rk := Ks256Step(even, odd, rk, 1, key);
    even, odd, rk := Ks256Step(even, odd, rk, 2, key);
    even, odd, rk := Ks256Step(even, odd, rk, 3, key);
    even, odd, rk := Ks256Step(even, odd, rk, 4, key);
    even, odd, rk := Ks256Step(even, odd, rk, 5, key);
    even, odd, rk := Ks256Step(even, odd, rk, 6, key);
  }

  lemma HoldsTwo(rk: seq<State>, key: seq<Byte>)
    requires |key| == 32 && |rk| == 2
    requires QuadOfState(rk[0]) == RoundKey(key, 8, 0) && QuadOfState(rk[1]) == RoundKey(key, 8, 1)
    ensures HoldsRoundKeys(rk, key, 8)
  {
    hide RoundKey;
  }

  method ExpandKey128Riscv(key: seq<Byte>) returns (rk: seq<State>)
    requires |key| == 32
    ensures |rk| == 11 && HoldsRoundKeys(rk, key, 4)
  {
    hide RoundKey, QuadOf;
    FirstRoundKeys(key, Aes128);
    var t := LoadState(key[..16]);
    rk := [t];
    t := KsStep(t, t.hi, 0, key, Aes128, 1);   rk := rk + [t];
    t := KsStep(t, t.hi, 1, key, Aes128, 2);   rk := rk + [t];
    t := KsStep(t, t.hi, 2, key, Aes128, 3);   rk := rk + [t];
    t := KsStep(t, t.hi, 3, key, Aes128, 4);   rk := rk + [t];
    t := KsStep(t, t.hi, 4, key, Aes128, 5);   rk := rk + [t];
    t := KsStep(t, t.hi, 5, key, Aes128, 6);   rk := rk + [t];
    t := KsStep(t, t.hi, 6, key, Aes128, 7);   rk := rk + [t];
    t := KsStep(t, t.hi, 7, key, Aes128, 8);   rk := rk + [t];
    t := KsStep(t, t.hi, 8, key, Aes128, 9);   rk := rk + [t];
    t := KsStep(t, t.hi, 9, key, Aes128, 10);  rk := rk + [t];
  }

  method EncryptBlockRiscv(key: seq<Byte>, size: KeySize, block: Block) returns (out: Block)
    requires |key| == 32
    ensures out == Encrypt(key, size, block)
  {
    hide RoundKey, Cipher, QuadOf, BlockOf;
    var rk;
    if size == Aes128 {
      rk := ExpandKey128Riscv(key);
    } else {
      rk := ExpandKey256Riscv(key);
    }
    out := EncryptWithSchedule(rk, block, RoundKeys(key, size));
  }
}
