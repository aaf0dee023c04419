/** The AES forward cipher of FIPS-197 sections 5.1 and 5.2 on words and columns, and its inverse. */
module Aes {
  import opened Bytes
  import opened Gf256

  /** Four bytes: a column of the state or a word of the key schedule. */
  datatype Word = Word(b0: Byte, b1: Byte, b2: Byte, b3: Byte)

  /** The 4x4 state, column by column; also a round key and a 128-bit vector register. */
  datatype Quad = Quad(c0: Word, c1: Word, c2: Word, c3: Word)

  const ZERO_WORD: Word := Word(0, 0, 0, 0)

  function XorWord(a: Word, b: Word): Word {
    Word(Xor(a.b0, b.b0), Xor(a.b1, b.b1), Xor(a.b2, b.b2), Xor(a.b3, b.b3))
  }

  function SubWord(w: Word): Word {
    Word(Sbox(w.b0), Sbox(w.b1), Sbox(w.b2), Sbox(w.b3))
  }

  function RotWord(w: Word): Word {
    Word(w.b1, w.b2, w.b3, w.b0)
  }

  function InverseSubWord(w: Word): Word {
    Word(InverseSbox(w.b0), InverseSbox(w.b1), InverseSbox(w.b2), InverseSbox(w.b3))
  }

  function Sum4(p: Byte, q: Byte, r: Byte, s: Byte): Byte {
    p ^ q ^ r ^ s
  }

  /** The matrix of section 5.1.3: a column times 03 x^3 + 01 x^2 + 01 x + 02. */
  function MixWord(w: Word): Word {
    Word(Sum4(Mul(w.b0, 2), Mul(w.b1, 3), w.b2, w.b3),
         Sum4(w.b0, Mul(w.b1, 2), Mul(w.b2, 3), w.b3),
         Sum4(w.b0, w.b1, Mul(w.b2, 2), Mul(w.b3, 3)),
         Sum4(Mul(w.b0, 3), w.b1, w.b2, Mul(w.b3, 2)))
  }

  /** The matrix of section 5.3.3. */
  function InverseMixWord(w: Word): Word {
    Word(Sum4(Mul(w.b0, 14), Mul(w.b1, 11), Mul(w.b2, 13), Mul(w.b3, 9)),
         Sum4(Mul(w.b0, 9), Mul(w.b1, 14), Mul(w.b2, 11), Mul(w.b3, 13)),
         Sum4(Mul(w.b0, 13), Mul(w.b1, 9), Mul(w.b2, 14), Mul(w.b3, 11)),
         Sum4(Mul(w.b0, 11), Mul(w.b1, 13), Mul(w.b2, 9), Mul(w.b3, 14)))
  }

  // ----- MixColumns is invertible -----

  lemma Sum4Is(p: Byte, q: Byte, r: Byte, s: Byte)
    ensures Sum4(p, q, r, s) == Xor(Xor(p, q), Xor(r, s))
  {
  }

  lemma Sum4Mul(a: Byte, p: Byte, q: Byte, r: Byte, s: Byte)
    ensures Mul(a, Sum4(p, q, r, s)) == Sum4(Mul(a, p), Mul(a, q), Mul(a, r), Mul(a, s))
    ensures Mul(Sum4(p, q, r, s), a) == Sum4(Mul(p, a), Mul(q, a), Mul(r, a), Mul(s, a))
  {
    hide Mul, Xor, Sum4;
    Sum4Is(p, q, r, s);
    Sum4Is(Mul(a, p), Mul(a, q), Mul(a, r), Mul(a, s));
    Sum4Is(Mul(p, a), Mul(q, a), Mul(r, a), Mul(s, a));
    MulAddsRight(a, p, q);
    MulAddsRight(a, r, s);
    MulAddsRight(a, Xor(p, q), Xor(r, s));
    MulAdds(p, q, a);
    MulAdds(r, s, a);
    MulAdds(Xor(p, q), Xor(r, s), a);
  }

  lemma Constants()
    ensures Mul(2, 14) == 0x1c && Mul(3, 14) == 0x12
    ensures Mul(2, 11) == 0x16 && Mul(3, 11) == 0x1d
    ensures Mul(2, 13) == 0x1a && Mul(3, 13) == 0x17
    ensures Mul(2, 9) == 0x12 && Mul(3, 9) == 0x1b
  {
    hide Mul;
    MulUnrolled(2, 14);
    MulUnrolled(3, 14);
    MulUnrolled(2, 11);
    MulUnrolled(3, 11);
    MulUnrolled(2, 13);
    MulUnrolled(3, 13);
    MulUnrolled(2, 9);
    MulUnrolled(3, 9);
  }

  /** The entries of the two matrices' product, applied to one byte: 1 on the diagonal, 0 elsewhere. */
  lemma MatrixProduct(a: Byte)
    ensures Sum4(Mul(Mul(a, 2), 14), Mul(a, 11), Mul(a, 13), Mul(Mul(a, 3), 9)) == a
    ensures Sum4(Mul(Mul(a, 3), 14), Mul(Mul(a, 2), 11), Mul(a, 13), Mul(a, 9)) == 0
    ensures Sum4(Mul(a, 14), Mul(Mul(a, 3), 11), Mul(Mul(a, 2), 13), Mul(a, 9)) == 0
    ensures Sum4(Mul(a, 14), Mul(a, 11), Mul(Mul(a, 3), 13), Mul(Mul(a, 2), 9)) == 0
  {
    hide Mul;
    Constants();
    MulAssociative(a, 2, 14);
    MulAssociative(a, 3, 14);
    MulAssociative(a, 2, 11);
    MulAssociative(a, 3, 11);
    MulAssociative(a, 2, 13);
    MulAssociative(a, 3, 13);
    MulAssociative(a, 2, 9);
    MulAssociative(a, 3, 9);
    Sum4Mul(a, 0x1c, 11, 13, 0x1b);
    Sum4Mul(a, 0x12, 0x16, 13, 9);
    Sum4Mul(a, 14, 0x1d, 0x1a, 9);
    Sum4Mul(a, 14, 11, 0x17, 0x12);
    MulOne(a);
    MulByZero(a);
  }

  lemma Sum4Rotates(p: Byte, q: Byte, r: Byte, s: Byte)
    ensures Sum4(p, q, r, s) == Sum4(q, r, s, p)
  {
  }

  lemma Sum4Adds(p0: Byte, p1: Byte, p2: Byte, p3: Byte, q0: Byte, q1: Byte, q2: Byte, q3: Byte)
    ensures Xor(Sum4(p0, p1, p2, p3), Sum4(q0, q1, q2, q3)) == Sum4(Xor(p0, q0), Xor(p1, q1), Xor(p2, q2), Xor(p3, q3))
  {
    hide Sum4, Xor;
    Sum4Is(p0, p1, p2, p3);
    Sum4Is(q0, q1, q2, q3);
    Sum4Is(Xor(p0, q0), Xor(p1, q1), Xor(p2, q2), Xor(p3, q3));
    XorExchange(Xor(p0, p1), Xor(p2, p3), Xor(q0, q1), Xor(q2, q3));
    XorExchange(p0, p1, q0, q1);
    XorExchange(p2, p3, q2, q3);
  }

  lemma Sum4Transposes(p0: Byte, p1: Byte, p2: Byte, p3: Byte, q0: Byte, q1: Byte, q2: Byte, q3: Byte,
                       r0: Byte, r1: Byte, r2: Byte, r3: Byte, s0: Byte, s1: Byte, s2: Byte, s3: Byte)
    ensures Sum4(Sum4(p0, p1, p2, p3), Sum4(q0, q1, q2, q3), Sum4(r0, r1, r2, r3), Sum4(s0, s1, s2, s3))
         == Sum4(Sum4(p0, q0, r0, s0), Sum4(p1, q1, r1, s1), Sum4(p2, q2, r2, s2), Sum4(p3, q3, r3, s3))
  {
    hide Sum4, Xor;
    Sum4Is(Sum4(p0, p1, p2, p3), Sum4(q0, q1, q2, q3), Sum4(r0, r1, r2, r3), Sum4(s0, s1, s2, s3));
    Sum4Adds(p0, p1, p2, p3, q0, q1, q2, q3);
    Sum4Adds(r0, r1, r2, r3, s0, s1, s2, s3);
    Sum4Adds(Xor(p0, q0), Xor(p1, q1), Xor(p2, q2), Xor(p3, q3), Xor(r0, s0), Xor(r1, s1), Xor(r2, s2), Xor(r3, s3));
    Sum4Is(p0, q0, r0, s0);
    Sum4Is(p1, q1, r1, s1);
    Sum4Is(p2, q2, r2, s2);
    Sum4Is(p3, q3, r3, s3);
  }

  /** First row of the inverse matrix applied to a mixed column. */
  lemma InverseRow(a: Byte, b: Byte, c: Byte, d: Byte)
    ensures Sum4(Mul(Sum4(Mul(a, 2), Mul(b, 3), c, d), 14), Mul(Sum4(a, Mul(b, 2), Mul(c, 3), d), 11),
                 Mul(Sum4(a, b, Mul(c, 2), Mul(d, 3)), 13), Mul(Sum4(Mul(a, 3), b, c, Mul(d, 2)), 9)) == a
  {
    hide Mul, Sum4;
    Sum4Mul(14, Mul(a, 2), Mul(b, 3), c, d);
    Sum4Mul(11, a, Mul(b, 2), Mul(c, 3), d);
    Sum4Mul(13, a, b, Mul(c, 2), Mul(d, 3));
    Sum4Mul(9, Mul(a, 3), b, c, Mul(d, 2));
    Sum4Transposes(Mul(Mul(a, 2), 14), Mul(Mul(b, 3), 14), Mul(c, 14), Mul(d, 14),
                   Mul(a, 11), Mul(Mul(b, 2), 11), Mul(Mul(c, 3), 11), Mul(d, 11),
                   Mul(a, 13), Mul(b, 13), Mul(Mul(c, 2), 13), Mul(Mul(d, 3), 13),
                   Mul(Mul(a, 3), 9), Mul(b, 9), Mul(c, 9), Mul(Mul(d, 2), 9));
    MatrixProduct(a);
    MatrixProduct(b);
    MatrixProduct(c);
    MatrixProduct(d);
    Sum4Zero(a);
  }

  lemma Sum4Zero(a: Byte)
    ensures Sum4(a, 0, 0, 0) == a
  {
  }

  /** First row of the forward matrix applied to an inversely mixed column. */
  lemma ForwardRow(a: Byte, b: Byte, c: Byte, d: Byte)
    ensures Sum4(Mul(Sum4(Mul(a, 14), Mul(b, 11), Mul(c, 13), Mul(d, 9)), 2),
                 Mul(Sum4(Mul(a, 9), Mul(b, 14), Mul(c, 11), Mul(d, 13)), 3),
                 Sum4(Mul(a, 13), Mul(b, 9), Mul(c, 14), Mul(d, 11)),
                 Sum4(Mul(a, 11), Mul(b, 13), Mul(c, 9), Mul(d, 14))) == a
  {
    hide Mul, Sum4;
    Sum4Mul(2, Mul(a, 14), Mul(b, 11), Mul(c, 13), Mul(d, 9));
    Sum4Mul(3, Mul(a, 9), Mul(b, 14), Mul(c, 11), Mul(d, 13));
    Sum4Transposes(Mul(Mul(a, 14), 2), Mul(Mul(b, 11), 2), Mul(Mul(c, 13), 2), Mul(Mul(d, 9), 2),
                   Mul(Mul(a, 9), 3), Mul(Mul(b, 14), 3), Mul(Mul(c, 11), 3), Mul(Mul(d, 13), 3),
                   Mul(a, 13), Mul(b, 9), Mul(c, 14), Mul(d, 11),
                   Mul(a, 11), Mul(b, 13), Mul(c, 9), Mul(d, 14));
    ForwardEntries(a);
    ForwardEntries(b);
    ForwardEntries(c);
    ForwardEntries(d);
    Sum4Zero(a);
  }

  lemma ForwardEntries(a: Byte)
    ensures Sum4(Mul(Mul(a, 14), 2), Mul(Mul(a, 9), 3), Mul(a, 13), Mul(a, 11)) == a
    ensures Sum4(Mul(Mul(a, 11), 2), Mul(Mul(a, 14), 3), Mul(a, 9), Mul(a, 13)) == 0
    ensures Sum4(Mul(Mul(a, 13), 2), Mul(Mul(a, 11), 3), Mul(a, 14), Mul(a, 9)) == 0
    ensures Sum4(Mul(Mul(a, 9), 2), Mul(Mul(a, 13), 3), Mul(a, 11), Mul(a, 14)) == 0
  {
    hide Mul, Sum4;
    MatrixProduct(a);
    MulSwaps(a, 14, 2);
    MulSwaps(a, 9, 3);
    Sum4Permutes(Mul(Mul(a, 2), 14), Mul(a, 11), Mul(a, 13), Mul(Mul(a, 3), 9));
    MulSwaps(a, 11, 2);
    MulSwaps(a, 14, 3);
    Sum4Permutes(Mul(Mul(a, 3), 14), Mul(Mul(a, 2), 11), Mul(a, 13), Mul(a, 9));
    MulSwaps(a, 13, 2);
    Sum4Permutes(Mul(a, 14), Mul(Mul(a, 3), 11), Mul(Mul(a, 2), 13), Mul(a, 9));
    MulSwaps(a, 9, 2);
    MulSwaps(a, 11, 3);
    MulSwaps(a, 13, 3);
    Sum4Permutes(Mul(a, 14), Mul(a, 11), Mul(Mul(a, 3), 13), Mul(Mul(a, 2), 9));
  }

  lemma Sum4Permutes(p: Byte, q: Byte, r: Byte, s: Byte)
    ensures Sum4(p, q, r, s) == Sum4(p, s, r, q)
    ensures Sum4(p, q, r, s) == Sum4(q, p, s, r)
    ensures Sum4(p, q, r, s) == Sum4(r, q, p, s)
    ensures Sum4(p, q, r, s) == Sum4(s, r, q, p)
  {
  }

  /** Both matrices are circulant, so both maps commute with rotating the column. */
  lemma MixCommutesWithRot(w: Word)
    ensures MixWord(RotWord(w)) == RotWord(MixWord(w))
    ensures InverseMixWord(RotWord(w)) == RotWord(InverseMixWord(w))
  {
    hide Mul, Sum4;
    Sum4Rotates(Mul(w.b0, 2), Mul(w.b1, 3), w.b2, w.b3);
    Sum4Rotates(w.b0, Mul(w.b1, 2), Mul(w.b2, 3), w.b3);
    Sum4Rotates(w.b0, w.b1, Mul(w.b2, 2), Mul(w.b3, 3));
    Sum4Rotates(Mul(w.b0, 3), w.b1, w.b2, Mul(w.b3, 2));
    Sum4Rotates(Mul(w.b0, 14), Mul(w.b1, 11), Mul(w.b2, 13), Mul(w.b3, 9));
    Sum4Rotates(Mul(w.b0, 9), Mul(w.b1, 14), Mul(w.b2, 11), Mul(w.b3, 13));
    Sum4Rotates(Mul(w.b0, 13), Mul(w.b1, 9), Mul(w.b2, 14), Mul(w.b3, 11));
    Sum4Rotates(Mul(w.b0, 11), Mul(w.b1, 13), Mul(w.b2, 9), Mul(w.b3, 14));
  }

  lemma FirstByte(w: Word)
    ensures InverseMixWord(MixWord(w)).b0 == w.b0 && MixWord(InverseMixWord(w)).b0 == w.b0
  {
    hide Mul, Sum4;
    InverseRow(w.b0, w.b1, w.b2, w.b3);
    ForwardRow(w.b0, w.b1, w.b2, w.b3);
  }

  lemma RotatedByte(w: Word)
    ensures InverseMixWord(MixWord(RotWord(w))) == RotWord(InverseMixWord(MixWord(w)))
    ensures MixWord(InverseMixWord(RotWord(w))) == RotWord(MixWord(InverseMixWord(w)))
    ensures InverseMixWord(MixWord(RotWord(w))).b0 == w.b1 && MixWord(InverseMixWord(RotWord(w))).b0 == w.b1
  {
    hide MixWord, InverseMixWord;
    MixCommutesWithRot(w);
    MixCommutesWithRot(MixWord(w));
    MixCommutesWithRot(InverseMixWord(w));
    FirstByte(RotWord(w));
  }

  lemma MixWordInverts(w: Word)
    ensures InverseMixWord(MixWord(w)) == w && MixWord(InverseMixWord(w)) == w
  {
    hide MixWord, InverseMixWord;
    FirstByte(w);
    RotatedByte(w);
    RotatedByte(RotWord(w));
    RotatedByte(RotWord(RotWord(w)));
  }

  // ----- The state transformations -----

  function XorQuad(a: Quad, b: Quad): Quad {
    Quad(XorWord(a.c0, b.c0), XorWord(a.c1, b.c1), XorWord(a.c2, b.c2), XorWord(a.c3, b.c3))
  }

  function SubBytes(s: Quad): Quad {
    Quad(SubWord(s.c0), SubWord(s.c1), SubWord(s.c2), SubWord(s.c3))
  }

  /** Row r moves r columns to the left. */
  function ShiftRows(s: Quad): Quad {
    Quad(Word(s.c0.b0, s.c1.b1, s.c2.b2, s.c3.b3),
         Word(s.c1.b0, s.c2.b1, s.c3.b2, s.c0.b3),
         Word(s.c2.b0, s.c3.b1, s.c0.b2, s.c1.b3),
         Word(s.c3.b0, s.c0.b1, s.c1.b2, s.c2.b3))
  }

  function MixColumns(s: Quad): Quad {
    Quad(MixWord(s.c0), MixWord(s.c1), MixWord(s.c2), MixWord(s.c3))
  }

  function InverseSubBytes(s: Quad): Quad {
    Quad(InverseSubWord(s.c0), InverseSubWord(s.c1), InverseSubWord(s.c2), InverseSubWord(s.c3))
  }

  function InverseShiftRows(s: Quad): Quad {
    Quad(Word(s.c0.b0, s.c3.b1, s.c2.b2, s.c1.b3),
         Word(s.c1.b0, s.c0.b1, s.c3.b2, s.c2.b3),
         Word(s.c2.b0, s.c1.b1, s.c0.b2, s.c3.b3),
         Word(s.c3.b0, s.c2.b1, s.c1.b2, s.c0.b3))
  }

  function InverseMixColumns(s: Quad): Quad {
    Quad(InverseMixWord(s.c0), InverseMixWord(s.c1), InverseMixWord(s.c2), InverseMixWord(s.c3))
  }

  // ----- The cipher of section 5.1 and its inverse -----

  /** The state after the AddRoundKey of round `r`. */
  function Rounds(ks: seq<Quad>, s: Quad, r: nat): Quad
    requires r < |ks|
  {
    if r == 0 then XorQuad(s, ks[0])
    else XorQuad(MixColumns(ShiftRows(SubBytes(Rounds(ks, s, r - 1)))), ks[r])
  }

  function Cipher(ks: seq<Quad>, s: Quad): Quad
    requires |ks| >= 2
  {
    XorQuad(ShiftRows(SubBytes(Rounds(ks, s, |ks| - 2))), ks[|ks| - 1])
  }

  function UndoRounds(ks: seq<Quad>, s: Quad, r: nat): Quad
    requires r < |ks|
    decreases r
  {
    if r == 0 then XorQuad(s, ks[0])
    else UndoRounds(ks, InverseSubBytes(InverseShiftRows(InverseMixColumns(XorQuad(s, ks[r])))), r - 1)
  }

  function InverseCipher(ks: seq<Quad>, s: Quad): Quad
    requires |ks| >= 2
  {
    UndoRounds(ks, InverseSubBytes(InverseShiftRows(XorQuad(s, ks[|ks| - 1]))), |ks| - 2)
  }

  lemma XorQuadCancels(s: Quad, k: Quad)
    ensures XorQuad(XorQuad(s, k), k) == s
  {
    XorWordCancels(s.c0, k.c0);
    XorWordCancels(s.c1, k.c1);
    XorWordCancels(s.c2, k.c2);
    XorWordCancels(s.c3, k.c3);
  }

  lemma XorWordCancels(a: Word, b: Word)
    ensures XorWord(XorWord(a, b), b) == a
  {
    hide Xor;
    XorLaws(a.b0, b.b0, b.b0);
    XorLaws(a.b1, b.b1, b.b1);
    XorLaws(a.b2, b.b2, b.b2);
    XorLaws(a.b3, b.b3, b.b3);
  }

  lemma SubWordInverts(w: Word)
    ensures InverseSubWord(SubWord(w)) == w && SubWord(InverseSubWord(w)) == w
  {
    hide Sbox, InverseSbox;
    SboxInverts(w.b0);
    SboxInverts(w.b1);
    SboxInverts(w.b2);
    SboxInverts(w.b3);
  }

  lemma SubBytesInverts(s: Quad)
    ensures InverseSubBytes(SubBytes(s)) == s && SubBytes(InverseSubBytes(s)) == s
  {
    hide SubWord, InverseSubWord;
    SubWordInverts(s.c0);
    SubWordInverts(s.c1);
    SubWordInverts(s.c2);
    SubWordInverts(s.c3);
  }

  lemma ShiftRowsInverts(s: Quad)
    ensures InverseShiftRows(ShiftRows(s)) == s && ShiftRows(InverseShiftRows(s)) == s
  {
  }

  lemma MixColumnsInverts(s: Quad)
    ensures InverseMixColumns(MixColumns(s)) == s && MixColumns(InverseMixColumns(s)) == s
  {
    hide MixWord, InverseMixWord;
    MixWordInverts(s.c0);
    MixWordInverts(s.c1);
    MixWordInverts(s.c2);
    MixWordInverts(s.c3);
  }

  lemma {:induction false} RoundsInvert(ks: seq<Quad>, s: Quad, r: nat)
    requires r < |ks|
    ensures UndoRounds(ks, Rounds(ks, s, r), r) == s
    decreases r
  {
    hide XorQuad, SubBytes, ShiftRows, MixColumns, InverseSubBytes, InverseShiftRows, InverseMixColumns;
    if r == 0 {
      XorQuadCancels(s, ks[0]);
    } else {
      var p := Rounds(ks, s, r - 1);
      XorQuadCancels(MixColumns(ShiftRows(SubBytes(p))), ks[r]);
      MixColumnsInverts(ShiftRows(SubBytes(p)));
      ShiftRowsInverts(SubBytes(p));
      SubBytesInverts(p);
      RoundsInvert(ks, s, r - 1);
    }
  }

  lemma {:induction false} UndoneRoundsRedo(ks: seq<Quad>, s: Quad, r: nat)
    requires r < |ks|
    ensures Rounds(ks, UndoRounds(ks, s, r), r) == s
    decreases r
  {
    hide XorQuad, SubBytes, ShiftRows, MixColumns, InverseSubBytes, InverseShiftRows, InverseMixColumns;
    XorQuadCancels(s, ks[r]);
    if r > 0 {
      var m := XorQuad(s, ks[r]);
      var p := InverseSubBytes(InverseShiftRows(InverseMixColumns(m)));
      UndoneRoundsRedo(ks, p, r - 1);
      SubBytesInverts(InverseShiftRows(InverseMixColumns(m)));
      ShiftRowsInverts(InverseMixColumns(m));
      MixColumnsInverts(m);
    }
  }

  /** For every round-key sequence the cipher is a permutation of states. */
  lemma CipherIsPermutation(ks: seq<Quad>, s: Quad)
    requires |ks| >= 2
    ensures InverseCipher(ks, Cipher(ks, s)) == s && Cipher(ks, InverseCipher(ks, s)) == s
  {
    hide XorQuad, SubBytes, ShiftRows, InverseSubBytes, InverseShiftRows, Rounds, UndoRounds;
    var r, k := |ks| - 2, ks[|ks| - 1];
    var p := Rounds(ks, s, r);
    XorQuadCancels(ShiftRows(SubBytes(p)), k);
    ShiftRowsInverts(SubBytes(p));
    SubBytesInverts(p);
    RoundsInvert(ks, s, r);

    var q := InverseSubBytes(InverseShiftRows(XorQuad(s, k)));
    UndoneRoundsRedo(ks, q, r);
    SubBytesInverts(InverseShiftRows(XorQuad(s, k)));
    ShiftRowsInverts(XorQuad(s, k));
    XorQuadCancels(s, k);
  }

  /** ShiftRows only moves bytes, SubBytes treats them all alike. */
  lemma SubShiftCommute(s: Quad)
    ensures SubBytes(ShiftRows(s)) == ShiftRows(SubBytes(s))
  {
    hide Sbox;
  }

  // ----- The key expansion of section 5.2 -----

  datatype KeySize = Aes128 | Aes256

  /** Key length in words. */
  function Nk(size: KeySize): nat {
    if size == Aes128 then 4 else 8
  }

  /** Number of rounds. */
  function Nr(size: KeySize): nat {
    if size == Aes128 then 10 else 14
  }

  function SizeBytes(size: KeySize): nat {
    if size == Aes128 then 16 else 32
  }

  /** Rcon[j] = (x^(j-1), 0, 0, 0). */
  function Rcon(j: nat): Word
    requires j > 0
  {
    Word(Pow(2, j - 1), 0, 0, 0)
  }

  /** `kScheduleRcon`. */
  const RCON: seq<Byte> := [0x00, 0x01, 0x02, 0x04, 0x08, 0x10, 0x20, 0x40, 0x80, 0x1B, 0x36]

  /** The table holds the powers of x. */
  lemma {:induction false} RconTable(j: nat)
    requires 1 <= j <= 10
    ensures Word(RCON[j], 0, 0, 0) == Rcon(j)
  {
    hide Mul;
    if j > 1 {
      RconTable(j - 1);
      MulTwo(Pow(2, j - 2));
      assert RCON[j] == XTime(RCON[j - 1]);
    }
  }

  function KeyWord(key: seq<Byte>, i: nat): Word
    requires 4 * i + 4 <= |key|
  {
    Word(key[4 * i], key[4 * i + 1], key[4 * i + 2], key[4 * i + 3])
  }

  /** Word `i` of the expanded key. */
  function Expanded(key: seq<Byte>, nk: nat, i: nat): Word
    requires nk > 0 && 4 * nk <= |key|
  {
    if i < nk then KeyWord(key, i)
    else XorWord(Expanded(key, nk, i - nk), Transformed(nk, i, Expanded(key, nk, i - 1)))
  }

  /** What the recurrence does to word i-1 before adding it. */
  function Transformed(nk: nat, i: nat, temp: Word): Word
    requires 0 < nk <= i
  {
    if i % nk == 0 then XorWord(SubWord(RotWord(temp)), Rcon(i / nk))
    else if nk > 6 && i % nk == 4 then SubWord(temp)
    else temp
  }

  lemma ExpandedIs(key: seq<Byte>, nk: nat, i: nat)
    requires nk > 0 && 4 * nk <= |key|
    ensures i < nk ==> Expanded(key, nk, i) == KeyWord(key, i)
    ensures i >= nk ==> Expanded(key, nk, i) == XorWord(Expanded(key, nk, i - nk), Transformed(nk, i, Expanded(key, nk, i - 1)))
  {
  }

  function RoundKey(key: seq<Byte>, nk: nat, r: nat): Quad
    requires nk > 0 && 4 * nk <= |key|
  {
    Quad(Expanded(key, nk, 4 * r), Expanded(key, nk, 4 * r + 1), Expanded(key, nk, 4 * r + 2), Expanded(key, nk, 4 * r + 3))
  }

  function RoundKeys(key: seq<Byte>, size: KeySize): (ks: seq<Quad>)
    requires SizeBytes(size) <= |key|
    ensures |ks| == Nr(size) + 1
    ensures forall r :: 0 <= r <= Nr(size) ==> ks[r] == RoundKey(key, Nk(size), r)
  {
    seq(Nr(size) + 1, r requires 0 <= r => RoundKey(key, Nk(size), r))
  }

  lemma XorWordLaws(a: Word, b: Word, c: Word)
    ensures XorWord(XorWord(a, b), c) == XorWord(a, XorWord(b, c))
    ensures XorWord(a, b) == XorWord(b, a)
    ensures XorWord(a, ZERO_WORD) == a
  {
    hide Xor;
    XorLaws(a.b0, b.b0, c.b0);
    XorLaws(a.b1, b.b1, c.b1);
    XorLaws(a.b2, b.b2, c.b2);
    XorLaws(a.b3, b.b3, c.b3);
  }

  /** Each word of the new round key adds the word before it to the old one in its place. */
  function Chain(prev: Quad, w: Word): Quad {
    var w0 := XorWord(prev.c0, w);
    var w1 := XorWord(prev.c1, w0);
    var w2 := XorWord(prev.c2, w1);
    Quad(w0, w1, w2, XorWord(prev.c3, w2))
  }

  /** The recurrence of section 5.2 round key by round key, for both key sizes. */
  lemma NextRoundKey(key: seq<Byte>, size: KeySize, r: nat)
    requires SizeBytes(size) <= |key| && 4 * r >= Nk(size)
    ensures RoundKey(key, Nk(size), r)
         == Chain(RoundKey(key, Nk(size), r - Nk(size) / 4), Transformed(Nk(size), 4 * r, RoundKey(key, Nk(size), r - 1).c3))
  {
    hide XorWord, SubWord, RotWord, Expanded;
    var nk := Nk(size);
    ExpandedIs(key, nk, 4 * r);
    ExpandedIs(key, nk, 4 * r + 1);
    ExpandedIs(key, nk, 4 * r + 2);
    ExpandedIs(key, nk, 4 * r + 3);
  }

  // ----- Blocks -----

  function QuadOf(b: Block): Quad {
    Quad(KeyWord(b, 0), KeyWord(b, 1), KeyWord(b, 2), KeyWord(b, 3))
  }

  function WordBytes(w: Word): (s: seq<Byte>)
    ensures |s| == 4
  {
    [w.b0, w.b1, w.b2, w.b3]
  }

  function BlockOf(q: Quad): Block {
    [q.c0.b0, q.c0.b1, q.c0.b2, q.c0.b3, q.c1.b0, q.c1.b1, q.c1.b2, q.c1.b3,
     q.c2.b0, q.c2.b1, q.c2.b2, q.c2.b3, q.c3.b0, q.c3.b1, q.c3.b2, q.c3.b3]
  }

  /** The first one or two round keys are the key bytes themselves. */
  lemma FirstRoundKeys(key: seq<Byte>, size: KeySize)
    requires |key| == 32
    ensures QuadOf(key[..16]) == RoundKey(key, Nk(size), 0)
    ensures size == Aes256 ==> QuadOf(key[16..]) == RoundKey(key, 8, 1)
  {
  }

  lemma BlocksAreQuads(b: Block, q: Quad)
    ensures BlockOf(QuadOf(b)) == b && QuadOf(BlockOf(q)) == q
  {
    assert BlockOf(QuadOf(b)) == b;
  }

  /** AES under the first 16 or 32 bytes of the key's storage. */
  function Encrypt(key: seq<Byte>, size: KeySize, b: Block): Block
    requires SizeBytes(size) <= |key|
  {
    BlockOf(Cipher(RoundKeys(key, size), QuadOf(b)))
  }

  function Decrypt(key: seq<Byte>, size: KeySize, b: Block): Block
    requires SizeBytes(size) <= |key|
  {
    BlockOf(InverseCipher(RoundKeys(key, size), QuadOf(b)))
  }

  /** For every key of either size, AES is a permutation of blocks. */
  lemma AesIsPermutation(key: seq<Byte>, size: KeySize, b: Block)
    requires SizeBytes(size) <= |key|
    ensures Decrypt(key, size, Encrypt(key, size, b)) == b && Encrypt(key, size, Decrypt(key, size, b)) == b
  {
    hide Cipher, InverseCipher, QuadOf, BlockOf;
    var ks := RoundKeys(key, size);
    BlocksAreQuads(b, Cipher(ks, QuadOf(b)));
    BlocksAreQuads(b, InverseCipher(ks, QuadOf(b)));
    CipherIsPermutation(ks, QuadOf(b));
  }

  lemma EncryptInjective(key: seq<Byte>, size: KeySize, a: Block, b: Block)
    requires SizeBytes(size) <= |key| && Encrypt(key, size, a) == Encrypt(key, size, b)
    ensures a == b
  {
    hide Encrypt, Decrypt;
    AesIsPermutation(key, size, a);
    AesIsPermutation(key, size, b);
  }

  lemma {:induction false} ExpandedDependsOnPrefix(key: seq<Byte>, key': seq<Byte>, nk: nat, i: nat)
    requires nk > 0 && 4 * nk <= |key| && 4 * nk <= |key'| && key[..4 * nk] == key'[..4 * nk]
    ensures Expanded(key, nk, i) == Expanded(key', nk, i)
  {
    hide XorWord, Transformed;
    if i < nk {
      forall j | 0 <= j < 4 * nk
        ensures key[j] == key'[j]
      {
        assert key[..4 * nk][j] == key'[..4 * nk][j];
      }
    } else {
      ExpandedDependsOnPrefix(key, key', nk, i - nk);
      ExpandedDependsOnPrefix(key, key', nk, i - 1);
    }
  }

  /** Only the logical key bytes matter; the rest of the 32-byte storage is never read. */
  lemma EncryptDependsOnPrefix(key: seq<Byte>, key': seq<Byte>, size: KeySize, b: Block)
    requires SizeBytes(size) <= |key| && SizeBytes(size) <= |key'|
    requires key[..SizeBytes(size)] == key'[..SizeBytes(size)]
    ensures Encrypt(key, size, b) == Encrypt(key', size, b)
  {
    hide Expanded, Cipher, QuadOf, BlockOf;
    var nk := Nk(size);
    forall i: nat
      ensures Expanded(key, nk, i) == Expanded(key', nk, i)
    {
      ExpandedDependsOnPrefix(key, key', nk, i);
    }
    assert RoundKeys(key, size) == RoundKeys(key', size);
  }

  // ----- Round keys in a word schedule -----

  function RoundKeyAt(schedule: seq<Word>, round: nat): Quad
    requires 4 * round + 4 <= |schedule|
  {
    Quad(schedule[4 * round], schedule[4 * round + 1], schedule[4 * round + 2], schedule[4 * round + 3])
  }

  lemma KeyByteAt(words: seq<Word>, round: nat, c: nat, r: nat)
    requires 4 * round + 4 <= |words| && c < 4 && r < 4
    ensures WordBytes(words[round * 4 + c])[r] == BlockOf(RoundKeyAt(words, round))[4 * c + r]
  {
    var q := RoundKeyAt(words, round);
    assert words[round * 4 + c] == [q.c0, q.c1, q.c2, q.c3][c];
    if c == 0 {
    } else if c == 1 {
    } else if c == 2 {
    } else {
    }
  }

  lemma ScheduleRoundKey(schedule: seq<Word>, key: seq<Byte>, size: KeySize, r: nat)
    requires SizeBytes(size) <= |key| && r <= Nr(size) && |schedule| == 4 * (Nr(size) + 1)
    requires forall i :: 0 <= i < |schedule| ==> schedule[i] == Expanded(key, Nk(size), i)
    ensures RoundKeyAt(schedule, r) == RoundKeys(key, size)[r]
  {
    hide Expanded;
    assert RoundKeys(key, size)[r] == RoundKey(key, Nk(size), r);
  }
}
