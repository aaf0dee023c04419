/** The AArch64 backend (`aes_core_arm.cpp`). AESE and AESMC are taken from the Arm Architecture
    Reference Manual; the packing and the re-associated round loop are the library's. */
module AesArm {
  import opened Bytes
  import opened Aes
  import opened AesSoft

  /** vaeseq_u8: AddRoundKey first, then ShiftRows and SubBytes. */
  function Aese(state: Quad, k: Quad): Quad {
    SubBytes(ShiftRows(XorQuad(state, k)))
  }

  /** vaesmcq_u8. */
  function Aesmc(state: Quad): Quad {
    MixColumns(state)
  }

  method PackRoundKeys(schedule: seq<Word>, nr: nat) returns (keys: seq<Quad>)
    requires |schedule| == 4 * (nr + 1)
    ensures |keys| == nr + 1
    ensures forall r :: 0 <= r <= nr ==> keys[r] == RoundKeyAt(schedule, r)
  {
    hide RoundKeyAt, BlockOf, QuadOf;
    keys := [];
    for round := 0 to nr + 1
      invariant |keys| == round
      invariant forall r :: 0 <= r < round ==> keys[r] == RoundKeyAt(schedule, r)
    {
      ghost var k := BlockOf(RoundKeyAt(schedule, round));
      var bytes := new Byte[16](_ => 0);
      for w := 0 to 4
        invariant bytes[..4 * w] == k[..4 * w]
      {
        var word := WordBytes(schedule[round * 4 + w]);
        for b := 0 to 4
          invariant bytes[..4 * w + b] == k[..4 * w + b]
        {
          KeyByteAt(schedule, round, w, b);
          bytes[w * 4 + b] := word[b];
          assert bytes[..4 * w + b + 1] == bytes[..4 * w + b] + [bytes[4 * w + b]];
          assert k[..4 * w + b + 1] == k[..4 * w + b] + [k[4 * w + b]];
        }
      }
      assert bytes[..] == k;
      BlocksAreQuads(k, RoundKeyAt(schedule, round));
      keys := keys + [QuadOf(bytes[..])];
    }
  }

  /** The loop runs half a round ahead of the textbook order: before iteration r the state still
      lacks the AddRoundKey of round r. It computes the same cipher for every number of rounds. */
  method FusedRounds(ks: seq<Quad>, s: Quad) returns (state: Quad)
    requires |ks| >= 2
    ensures state == Cipher(ks, s)
  {
    hide XorQuad, SubBytes, ShiftRows, MixColumns;
    var nr := |ks| - 1;
    state := s;
    for round := 0 to nr - 1
      invariant XorQuad(state, ks[round]) == Rounds(ks, s, round)
    {
      SubShiftCommute(XorQuad(state, ks[round]));
      state := Aese(state, ks[round]);
      state := Aesmc(state);
    }
    SubShiftCommute(XorQuad(state, ks[nr - 1]));
    state := Aese(state, ks[nr - 1]);
    state := XorQuad(state, ks[nr]);
  }

  method EncryptBlockArm(key: seq<Byte>, size: KeySize, block: Block) returns (out: Block)
    requires |key| == 32
    ensures out == Encrypt(key, size, block)
  {
    hide Expanded, QuadOf, BlockOf, Cipher, RoundKeyAt;
    var schedule := ExpandKey(key, size);
    var ks := PackRoundKeys(schedule[..], Nr(size));
    forall r | 0 <= r <= Nr(size)
      ensures ks[r] == RoundKeys(key, size)[r]
    {
      ScheduleRoundKey(schedule[..], key, size, r);
    }
    assert ks == RoundKeys(key, size);
    WipeSchedule(schedule);
    var state := FusedRounds(ks, QuadOf(block));
    out := BlockOf(state);
  }
}
