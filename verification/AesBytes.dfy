/** The cipher and key expansion of `Aes` read off byte by byte, with the constants of FIPS-197
    written out: which byte goes where, through which substitution and with which factor. */
module AesBytes {
  import opened Bytes
  import opened Gf256
  import opened Aes

  function RowOf(w: Word, i: nat): Byte
    requires i < 4
  {
    if i == 0 then w.b0 else if i == 1 then w.b1 else if i == 2 then w.b2 else w.b3
  }

  function ColumnOf(q: Quad, c: nat): Word
    requires c < 4
  {
    if c == 0 then q.c0 else if c == 1 then q.c1 else if c == 2 then q.c2 else q.c3
  }

  /** The byte in row i of column c. */
  function At(q: Quad, c: nat, i: nat): Byte
    requires c < 4 && i < 4
  {
    RowOf(ColumnOf(q, c), i)
  }

  /** Blocks fill the state column by column. */
  lemma LoadedAt(b: Block, c: nat, i: nat)
    requires c < 4 && i < 4
    ensures At(QuadOf(b), c, i) == b[4 * c + i]
  {
    if c == 0 {
    } else if c == 1 {
    } else if c == 2 {
    } else {
    }
  }

  lemma StoredAt(q: Quad, c: nat, i: nat)
    requires c < 4 && i < 4
    ensures BlockOf(q)[4 * c + i] == At(q, c, i)
  {
    hide QuadOf, BlockOf, At;
    LoadedAt(BlockOf(q), c, i);
    BlocksAreQuads(BlockOf(q), q);
  }

  /** Section 5.1.1. */
  lemma SubBytesAt(s: Quad, c: nat, i: nat)
    requires c < 4 && i < 4
    ensures At(SubBytes(s), c, i) == Sbox(At(s, c, i))
  {
    hide Sbox;
  }

  /** Section 5.1.2: row i comes from i columns further right. */
  lemma ShiftRowsAt(s: Quad, c: nat, i: nat)
    requires c < 4 && i < 4
    ensures At(ShiftRows(s), c, i) == At(s, (c + i) % 4, i)
  {
  }

  /** Section 5.1.3: twice the byte itself, three times the one below, and the other two. */
  lemma MixColumnsAt(s: Quad, c: nat, i: nat)
    requires c < 4 && i < 4
    ensures At(MixColumns(s), c, i)
         == Xor(Xor(Mul(At(s, c, i), 2), Mul(At(s, c, (i + 1) % 4), 3)), Xor(At(s, c, (i + 2) % 4), At(s, c, (i + 3) % 4)))
  {
    hide Mul, MixWord, Xor;
    assert ColumnOf(MixColumns(s), c) == MixWord(ColumnOf(s, c));
    MixWordAt(ColumnOf(s, c), i);
  }

  lemma MixWordAt(w: Word, i: nat)
    requires i < 4
    ensures RowOf(MixWord(w), i)
         == Xor(Xor(Mul(RowOf(w, i), 2), Mul(RowOf(w, (i + 1) % 4), 3)), Xor(RowOf(w, (i + 2) % 4), RowOf(w, (i + 3) % 4)))
  {
    hide Mul, Sum4, Xor;
    var a, b, c, d := RowOf(w, i), RowOf(w, (i + 1) % 4), RowOf(w, (i + 2) % 4), RowOf(w, (i + 3) % 4);
    Sum4Is(Mul(a, 2), Mul(b, 3), c, d);
    Sum4Rotates(Mul(a, 2), Mul(b, 3), c, d);
    Sum4Rotates(Mul(b, 3), c, d, Mul(a, 2));
    Sum4Rotates(c, d, Mul(a, 2), Mul(b, 3));
  }

  /** Section 5.1.4. */
  lemma AddRoundKeyAt(s: Quad, k: Quad, c: nat, i: nat)
    requires c < 4 && i < 4
    ensures At(XorQuad(s, k), c, i) == Xor(At(s, c, i), At(k, c, i))
  {
    hide Xor;
    assert ColumnOf(XorQuad(s, k), c) == XorWord(ColumnOf(s, c), ColumnOf(k, c));
  }

  // ----- The rounds -----

  /** Section 5.1, any round but the last: from the byte's row and the rows below it, each taken
      from as many columns further right as its number says. */
  lemma MiddleRoundAt(s: Quad, k: Quad, c: nat, i: nat)
    requires c < 4 && i < 4
    ensures
      var i1, i2, i3 := (i + 1) % 4, (i + 2) % 4, (i + 3) % 4;
      At(XorQuad(MixColumns(ShiftRows(SubBytes(s))), k), c, i)
      == Xor(Xor(Xor(Mul(Sbox(At(s, (c + i) % 4, i)), 2), Mul(Sbox(At(s, (c + i1) % 4, i1)), 3)),
                 Xor(Sbox(At(s, (c + i2) % 4, i2)), Sbox(At(s, (c + i3) % 4, i3)))),
             At(k, c, i))
  {
    hide Mul, Sbox, Xor, XorQuad, MixColumns, ShiftRows, SubBytes, At;
    var t := ShiftRows(SubBytes(s));
    AddRoundKeyAt(MixColumns(t), k, c, i);
    MixColumnsAt(t, c, i);
    SubstitutedAt(s, c, i);
    SubstitutedAt(s, c, (i + 1) % 4);
    SubstitutedAt(s, c, (i + 2) % 4);
    SubstitutedAt(s, c, (i + 3) % 4);
  }

  lemma SubstitutedAt(s: Quad, c: nat, i: nat)
    requires c < 4 && i < 4
    ensures At(ShiftRows(SubBytes(s)), c, i) == Sbox(At(s, (c + i) % 4, i))
  {
    hide Sbox, ShiftRows, SubBytes, At;
    ShiftRowsAt(SubBytes(s), c, i);
    SubBytesAt(s, (c + i) % 4, i);
  }

  /** The whole cipher, byte by byte: plaintext plus the first round key, 9 or 13 rounds as above,
      and a last one without MixColumns. */
  lemma EncryptAt(key: seq<Byte>, size: KeySize, b: Block, r: nat, c: nat, i: nat)
    requires |key| == 32 && c < 4 && i < 4 && 1 <= r <= (if size == Aes128 then 9 else 13)
    ensures
      var ks, last := RoundKeys(key, size), if size == Aes128 then 10 else 14;
      var p, i1, i2, i3 := Rounds(ks, QuadOf(b), r - 1), (i + 1) % 4, (i + 2) % 4, (i + 3) % 4;
      && At(Rounds(ks, QuadOf(b), 0), c, i) == Xor(b[4 * c + i], At(ks[0], c, i))
      && At(Rounds(ks, QuadOf(b), r), c, i)
         == Xor(Xor(Xor(Mul(Sbox(At(p, (c + i) % 4, i)), 2), Mul(Sbox(At(p, (c + i1) % 4, i1)), 3)),
                    Xor(Sbox(At(p, (c + i2) % 4, i2)), Sbox(At(p, (c + i3) % 4, i3)))),
                At(ks[r], c, i))
      && Encrypt(key, size, b)[4 * c + i] == Xor(Sbox(At(Rounds(ks, QuadOf(b), last - 1), (c + i) % 4, i)), At(ks[last], c, i))
  {
    hide Mul, Sbox, Xor, XorQuad, MixColumns, ShiftRows, SubBytes, At, QuadOf, BlockOf, RoundKey;
    var ks, last, q := RoundKeys(key, size), if size == Aes128 then 10 else 14, QuadOf(b);
    LoadedAt(b, c, i);
    AddRoundKeyAt(q, ks[0], c, i);
    MiddleRoundAt(Rounds(ks, q, r - 1), ks[r], c, i);
    StoredAt(Cipher(ks, q), c, i);
    LastRoundAt(Rounds(ks, q, last - 1), ks[last], c, i);
  }

  lemma LastRoundAt(s: Quad, k: Quad, c: nat, i: nat)
    requires c < 4 && i < 4
    ensures At(XorQuad(ShiftRows(SubBytes(s)), k), c, i) == Xor(Sbox(At(s, (c + i) % 4, i)), At(k, c, i))
  {
    hide Sbox, Xor, XorQuad, ShiftRows, SubBytes, At;
    AddRoundKeyAt(ShiftRows(SubBytes(s)), k, c, i);
    SubstitutedAt(s, c, i);
  }

  // ----- The key expansion -----

  /** Round key r is words 4r to 4r + 3. */
  lemma RoundKeyColumns(key: seq<Byte>, size: KeySize, r: nat, c: nat, i: nat)
    requires |key| == 32 && c < 4 && i < 4 && r <= (if size == Aes128 then 10 else 14)
    ensures At(RoundKeys(key, size)[r], c, i) == RowOf(Expanded(key, if size == Aes128 then 4 else 8, 4 * r + c), i)
  {
    hide Expanded;
  }

  /** Section 5.2 for 128-bit keys, byte i of word n: the key itself, then the word four back plus
      the word before, which every fourth time is rotated, substituted and given the constant. */
  lemma Schedule128At(key: seq<Byte>, n: nat, i: nat)
    requires |key| == 32 && i < 4
    ensures n < 4 ==> RowOf(Expanded(key, 4, n), i) == key[4 * n + i]
    ensures n >= 4 && n % 4 != 0 ==>
      RowOf(Expanded(key, 4, n), i) == Xor(RowOf(Expanded(key, 4, n - 4), i), RowOf(Expanded(key, 4, n - 1), i))
    ensures n >= 4 && n % 4 == 0 ==>
      RowOf(Expanded(key, 4, n), i)
      == Xor(RowOf(Expanded(key, 4, n - 4), i),
             Xor(Sbox(RowOf(Expanded(key, 4, n - 1), (i + 1) % 4)), if i == 0 then Pow(2, n / 4 - 1) else 0))
  {
    hide Expanded, Sbox, Xor, Pow;
    ExpandedIs(key, 4, n);
  }

  /** The same for 256-bit keys: eight words back, rotation and constant every eighth time, and
      halfway between a substitution alone. */
  lemma Schedule256At(key: seq<Byte>, n: nat, i: nat)
    requires |key| == 32 && i < 4
    ensures n < 8 ==> RowOf(Expanded(key, 8, n), i) == key[4 * n + i]
    ensures n >= 8 && n % 8 != 0 && n % 8 != 4 ==>
      RowOf(Expanded(key, 8, n), i) == Xor(RowOf(Expanded(key, 8, n - 8), i), RowOf(Expanded(key, 8, n - 1), i))
    ensures n >= 8 && n % 8 == 4 ==>
      RowOf(Expanded(key, 8, n), i) == Xor(RowOf(Expanded(key, 8, n - 8), i), Sbox(RowOf(Expanded(key, 8, n - 1), i)))
    ensures n >= 8 && n % 8 == 0 ==>
      RowOf(Expanded(key, 8, n), i)
      == Xor(RowOf(Expanded(key, 8, n - 8), i),
             Xor(Sbox(RowOf(Expanded(key, 8, n - 1), (i + 1) % 4)), if i == 0 then Pow(2, n / 8 - 1) else 0))
  {
    hide Expanded, Sbox, Xor, Pow;
    ExpandedIs(key, 8, n);
  }
}
