/** The software backend (`aes_core_soft.cpp`, `aes_key_schedule.hpp`): byte arrays changed in
    place, refined to the cipher of module `Aes`. */
module AesSoft {
  import opened Bytes
  import opened Gf256
  import opened Aes

  method ScheduleSubWord(w: Word) returns (r: Word)
    ensures r == SubWord(w)
  {
    hide Sbox;
    var b0 := CtSbox(w.b0);
    var b1 := CtSbox(w.b1);
    var b2 := CtSbox(w.b2);
    var b3 := CtSbox(w.b3);
    r := Word(b0, b1, b2, b3);
  }

  method NextTemp(nk: nat, i: nat, temp: Word) returns (t: Word)
    requires 4 <= nk <= i && i / nk <= 10
    ensures t == Transformed(nk, i, temp)
  {
    hide SubWord, XorWord, RotWord, Rcon;
    t := temp;
    if i % nk == 0 {
      RconTable(i / nk);
      t := ScheduleSubWord(RotWord(t));
      t := XorWord(t, Word(RCON[i / nk], 0, 0, 0));
    } else if nk > 6 && i % nk == 4 {
      t := ScheduleSubWord(t);
    }
  }

  method ExpandKey(key: seq<Byte>, size: KeySize) returns (schedule: array<Word>)
    requires |key| == 32
    ensures fresh(schedule) && schedule.Length == 4 * (Nr(size) + 1)
    ensures forall i :: 0 <= i < schedule.Length ==> schedule[i] == Expanded(key, Nk(size), i)
  {
    hide XorWord, Transformed, Expanded;
    var nk := Nk(size);
    schedule := new Word[4 * (Nr(size) + 1)](_ => ZERO_WORD);
    for i := 0 to nk
      invariant forall j :: 0 <= j < i ==> schedule[j] == Expanded(key, nk, j)
    {
      ExpandedIs(key, nk, i);
      schedule[i] := Word(key[4 * i], key[4 * i + 1], key[4 * i + 2], key[4 * i + 3]);
    }
    for i := nk to schedule.Length
      invariant forall j :: 0 <= j < i ==> schedule[j] == Expanded(key, nk, j)
    {
      var temp := NextTemp(nk, i, schedule[i - 1]);
      ExpandedIs(key, nk, i);
      schedule[i] := XorWord(schedule[i - nk], temp);
    }
  }

  method WipeSchedule(schedule: array<Word>)
    modifies schedule
    ensures forall i :: 0 <= i < schedule.Length ==> schedule[i] == ZERO_WORD
  {
    for i := 0 to schedule.Length
      invariant forall j :: 0 <= j < i ==> schedule[j] == ZERO_WORD
    {
      schedule[i] := ZERO_WORD;
    }
  }

  method AddRoundKeyInPlace(state: array<Byte>, schedule: seq<Word>, round: nat)
    requires state.Length == 16 && 4 * round + 4 <= |schedule|
    modifies state
    ensures QuadOf(state[..]) == XorQuad(old(QuadOf(state[..])), RoundKeyAt(schedule, round))
  {
    hide QuadOf, XorQuad, Xor, RoundKeyAt, BlockOf;
    ghost var k := BlockOf(RoundKeyAt(schedule, round));
    for c := 0 to 4
      invariant forall i :: 0 <= i < 16 ==> state[i] == if i < 4 * c then Xor(old(state[i]), k[i]) else old(state[i])
    {
      var w := WordBytes(schedule[round * 4 + c]);
      for r := 0 to 4
        invariant forall i :: 0 <= i < 16 ==> state[i] == if i < 4 * c + r then Xor(old(state[i]), k[i]) else old(state[i])
      {
        KeyByteAt(schedule, round, c, r);
        state[c * 4 + r] := Xor(state[c * 4 + r], w[r]);
      }
    }
    assert state[..] == XorBytes(old(state[..]), k);
    XorOfBlocks(old(state[..]), RoundKeyAt(schedule, round));
  }

  lemma XorOfBlocks(b: Block, k: Quad)
    ensures QuadOf(XorBytes(b, BlockOf(k))) == XorQuad(QuadOf(b), k)
  {
    hide Xor;
  }

  method SubBytesInPlace(state: array<Byte>)
    requires state.Length == 16
    modifies state
    ensures QuadOf(state[..]) == SubBytes(old(QuadOf(state[..])))
  {
    hide Sbox;
    for i := 0 to 16
      invariant forall j :: 0 <= j < 16 ==> state[j] == if j < i then Sbox(old(state[j])) else old(state[j])
    {
      state[i] := CtSbox(state[i]);
    }
  }

  /** Where the byte that ShiftRows puts at `i` comes from; `i` is 4 * column + row. */
  function Source(i: nat): (j: nat)
    requires i < 16
    ensures j < 16
  {
    (i / 4 + i % 4) % 4 * 4 + i % 4
  }

  method ShiftRowsInPlace(state: array<Byte>)
    requires state.Length == 16
    modifies state
    ensures QuadOf(state[..]) == ShiftRows(old(QuadOf(state[..])))
  {
    hide QuadOf, ShiftRows, Source;
    var s := state[..];
    RowZero();
    for row := 1 to 4
      invariant forall i :: 0 <= i < 16 ==> state[i] == if i % 4 < row then s[Source(i)] else s[i]
    {
      for col := 0 to 4
        invariant forall i :: 0 <= i < 16 ==> state[i] == if i % 4 < row || (i % 4 == row && i / 4 < col) then s[Source(i)] else s[i]
      {
        SourceOf(col, row);
        state[col * 4 + row] := s[(col + row) % 4 * 4 + row];
      }
    }
    ShiftedBlock(s, state[..]);
  }

  lemma RowZero()
    ensures forall i :: 0 <= i < 16 && i % 4 < 1 ==> Source(i) == i
  {
  }

  lemma SourceOf(col: nat, row: nat)
    requires col < 4 && row < 4
    ensures Source(col * 4 + row) == (col + row) % 4 * 4 + row
  {
  }

  lemma ShiftedBlock(s: Block, t: Block)
    requires forall i :: 0 <= i < 16 ==> t[i] == s[Source(i)]
    ensures QuadOf(t) == ShiftRows(QuadOf(s))
  {
    assert t[0] == s[0] && t[1] == s[5] && t[2] == s[10] && t[3] == s[15];
    assert t[4] == s[4] && t[5] == s[9] && t[6] == s[14] && t[7] == s[3];
    assert t[8] == s[8] && t[9] == s[13] && t[10] == s[2] && t[11] == s[7];
    assert t[12] == s[12] && t[13] == s[1] && t[14] == s[6] && t[15] == s[11];
  }

  method MixColumnAt(state: array<Byte>, c: nat)
    requires state.Length == 16 && c < 4
    modifies state
    ensures KeyWord(state[..], c) == MixWord(old(KeyWord(state[..], c)))
    ensures forall i :: 0 <= i < 16 && i / 4 != c ==> state[i] == old(state[i])
  {
    hide MixWord;
    var m := MixedColumn(state[c * 4 + 0], state[c * 4 + 1], state[c * 4 + 2], state[c * 4 + 3]);
    state[c * 4 + 0] := m.b0;
    state[c * 4 + 1] := m.b1;
    state[c * 4 + 2] := m.b2;
    state[c * 4 + 3] := m.b3;
  }

  lemma SameColumn(s: Block, t: Block, c: nat)
    requires c < 4 && forall i :: 0 <= i < 16 && i / 4 == c ==> s[i] == t[i]
    ensures KeyWord(s, c) == KeyWord(t, c)
  {
    assert s[4 * c] == t[4 * c] && s[4 * c + 1] == t[4 * c + 1];
    assert s[4 * c + 2] == t[4 * c + 2] && s[4 * c + 3] == t[4 * c + 3];
  }

  method MixColumnsInPlace(state: array<Byte>)
    requires state.Length == 16
    modifies state
    ensures QuadOf(state[..]) == MixColumns(old(QuadOf(state[..])))
  {
    hide MixWord, KeyWord;
    ghost var start := state[..];
    for c := 0 to 4
      invariant forall d :: 0 <= d < 4 ==> KeyWord(state[..], d) == if d < c then MixWord(KeyWord(start, d)) else KeyWord(start, d)
    {
      ghost var before := state[..];
      MixColumnAt(state, c);
      forall d | 0 <= d < 4 && d != c
        ensures KeyWord(state[..], d) == KeyWord(before, d)
      {
        SameColumn(before, state[..], d);
      }
    }
    Columns(start);
    Columns(state[..]);
  }

  lemma Columns(s: Block)
    ensures QuadOf(s) == Quad(KeyWord(s, 0), KeyWord(s, 1), KeyWord(s, 2), KeyWord(s, 3))
  {
  }

  method MixedColumn(a0: Byte, a1: Byte, a2: Byte, a3: Byte) returns (m: Word)
    ensures m == MixWord(Word(a0, a1, a2, a3))
  {
    hide Mul, Sum4;
    var x00 := Gmul(a0, 2);
    var x01 := Gmul(a1, 3);
    var x11 := Gmul(a1, 2);
    var x12 := Gmul(a2, 3);
    var x22 := Gmul(a2, 2);
    var x23 := Gmul(a3, 3);
    var x30 := Gmul(a0, 3);
    var x33 := Gmul(a3, 2);
    m := Word(Sum4(x00, x01, a2, a3), Sum4(a0, x11, x12, a3), Sum4(a0, a1, x22, x23), Sum4(x30, a1, a2, x33));
  }

  method MiddleRoundInPlace(state: array<Byte>, schedule: seq<Word>, round: nat)
    requires state.Length == 16 && 4 * round + 4 <= |schedule|
    modifies state
    ensures QuadOf(state[..]) == XorQuad(MixColumns(ShiftRows(SubBytes(old(QuadOf(state[..]))))), RoundKeyAt(schedule, round))
  {
    hide XorQuad, SubBytes, ShiftRows, MixColumns, QuadOf, RoundKeyAt;
    SubBytesInPlace(state);
    ShiftRowsInPlace(state);
    MixColumnsInPlace(state);
    AddRoundKeyInPlace(state, schedule, round);
  }

  method EncryptBlockSoft(key: seq<Byte>, size: KeySize, block: Block) returns (out: Block)
    requires |key| == 32
    ensures out == Encrypt(key, size, block)
  {
    hide XorQuad, SubBytes, ShiftRows, MixColumns, Expanded, QuadOf, BlockOf, RoundKeyAt, RoundKey;
    var schedule := ExpandKey(key, size);
    ghost var ks := RoundKeys(key, size);
    ghost var words := schedule[..];
    forall r | 0 <= r <= Nr(size)
      ensures RoundKeyAt(words, r) == ks[r]
    {
      ScheduleRoundKey(words, key, size, r);
    }
    var state := new Byte[16](i requires 0 <= i < 16 => block[i]);
    assert state[..] == block;
    var nr := Nr(size);
    AddRoundKeyInPlace(state, schedule[..], 0);
    for round := 1 to nr
      invariant schedule[..] == words
      invariant QuadOf(state[..]) == Rounds(ks, QuadOf(block), round - 1)
    {
      MiddleRoundInPlace(state, schedule[..], round);
    }
    SubBytesInPlace(state);
    ShiftRowsInPlace(state);
    AddRoundKeyInPlace(state, schedule[..], nr);
    WipeSchedule(schedule);
    out := state[..];
    BlocksAreQuads(out, QuadOf(out));
  }
}
