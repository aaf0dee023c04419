/** The 64 round constants of SHA-256, checked against their definition in section 4.2.2 of
    FIPS 180-4. */
module Sha256Constants {
  import opened Bytes
  import opened MachineWords

  /** `kSha256K`, eight to a row. */
  const K_ROWS: seq<seq<bv32>> := [
    [0x428a2f98, 0x71374491, 0xb5c0fbcf, 0xe9b5dba5, 0x3956c25b, 0x59f111f1, 0x923f82a4, 0xab1c5ed5],
    [0xd807aa98, 0x12835b01, 0x243185be, 0x550c7dc3, 0x72be5d74, 0x80deb1fe, 0x9bdc06a7, 0xc19bf174],
    [0xe49b69c1, 0xefbe4786, 0x0fc19dc6, 0x240ca1cc, 0x2de92c6f, 0x4a7484aa, 0x5cb0a9dc, 0x76f988da],
    [0x983e5152, 0xa831c66d, 0xb00327c8, 0xbf597fc7, 0xc6e00bf3, 0xd5a79147, 0x06ca6351, 0x14292967],
    [0x27b70a85, 0x2e1b2138, 0x4d2c6dfc, 0x53380d13, 0x650a7354, 0x766a0abb, 0x81c2c92e, 0x92722c85],
    [0xa2bfe8a1, 0xa81a664b, 0xc24b8b70, 0xc76c51a3, 0xd192e819, 0xd6990624, 0xf40e3585, 0x106aa070],
    [0x19a4c116, 0x1e376c08, 0x2748774c, 0x34b0bcb5, 0x391c0cb3, 0x4ed8aa4a, 0x5b9cca4f, 0x682e6ff3],
    [0x748f82ee, 0x78a5636f, 0x84c87814, 0x8cc70208, 0x90befffa, 0xa4506ceb, 0xbef9a3f7, 0xc67178f2]
  ]

  /** The first 64 primes, eight to a row. */
  const PRIME_ROWS: seq<seq<nat>> := [
    [2, 3, 5, 7, 11, 13, 17, 19],
    [23, 29, 31, 37, 41, 43, 47, 53],
    [59, 61, 67, 71, 73, 79, 83, 89],
    [97, 101, 103, 107, 109, 113, 127, 131],
    [137, 139, 149, 151, 157, 163, 167, 173],
    [179, 181, 191, 193, 197, 199, 211, 223],
    [227, 229, 233, 239, 241, 251, 257, 263],
    [269, 271, 277, 281, 283, 293, 307, 311]
  ]

  function K(t: nat): bv32
    requires t < 64
  {
    K_ROWS[t / 8][t % 8]
  }

  function Prime(t: nat): nat
    requires t < 64
  {
    PRIME_ROWS[t / 8][t % 8]
  }

  /** `k` holds the first 32 bits of the fractional part of the cube root of `p`. */
  ghost predicate IsCubeRootFraction(p: nat, k: nat) {
    exists i: nat :: CubeRootAt(p, i, k)
  }

  predicate CubeRootAt(p: nat, i: nat, k: nat) {
    var c := i * TWO_32 + k;
    k < TWO_32 && c * c * c <= p * (TWO_32 * TWO_32 * TWO_32) < (c + 1) * (c + 1) * (c + 1)
  }

  /** The integer parts of the primes' cube roots. */
  const ROOT_ROWS: seq<seq<nat>> := [
    [1, 1, 1, 1, 2, 2, 2, 2], [2, 3, 3, 3, 3, 3, 3, 3], [3, 3, 4, 4, 4, 4, 4, 4], [4, 4, 4, 4, 4, 4, 5, 5],
    [5, 5, 5, 5, 5, 5, 5, 5], [5, 5, 5, 5, 5, 5, 5, 6], [6, 6, 6, 6, 6, 6, 6, 6], [6, 6, 6, 6, 6, 6, 6, 6]
  ]

  predicate EntryHolds(r: nat, j: nat)
    requires r < 8 && j < 8
  {
    CubeRootAt(PRIME_ROWS[r][j], ROOT_ROWS[r][j], NumberOf32(K_ROWS[r][j]))
  }

  predicate RowHolds(r: nat)
    requires r < 8
  {
    EntryHolds(r, 0) && EntryHolds(r, 1) && EntryHolds(r, 2) && EntryHolds(r, 3)
      && EntryHolds(r, 4) && EntryHolds(r, 5) && EntryHolds(r, 6) && EntryHolds(r, 7)
  }

  lemma Row0Holds()
    ensures RowHolds(0)
  {
    hide NumberOf32;
    Row0Numbers();
  }

  lemma Row0Numbers()
    ensures NumberOf32(0x428a2f98) == 0x428a2f98 && NumberOf32(0x71374491) == 0x71374491
    ensures NumberOf32(0xb5c0fbcf) == 0xb5c0fbcf && NumberOf32(0xe9b5dba5) == 0xe9b5dba5
    ensures NumberOf32(0x3956c25b) == 0x3956c25b && NumberOf32(0x59f111f1) == 0x59f111f1
    ensures NumberOf32(0x923f82a4) == 0x923f82a4 && NumberOf32(0xab1c5ed5) == 0xab1c5ed5
  {
  }

  lemma Row1Holds()
    ensures RowHolds(1)
  {
    hide NumberOf32;
    Row1Numbers();
  }

  lemma Row1Numbers()
    ensures NumberOf32(0xd807aa98) == 0xd807aa98 && NumberOf32(0x12835b01) == 0x12835b01
    ensures NumberOf32(0x243185be) == 0x243185be && NumberOf32(0x550c7dc3) == 0x550c7dc3
    ensures NumberOf32(0x72be5d74) == 0x72be5d74 && NumberOf32(0x80deb1fe) == 0x80deb1fe
    ensures NumberOf32(0x9bdc06a7) == 0x9bdc06a7 && NumberOf32(0xc19bf174) == 0xc19bf174
  {
  }

  lemma Row2Holds()
    ensures RowHolds(2)
  {
    hide NumberOf32;
    Row2Numbers();
  }

  lemma Row2Numbers()
    ensures NumberOf32(0xe49b69c1) == 0xe49b69c1 && NumberOf32(0xefbe4786) == 0xefbe4786
    ensures NumberOf32(0x0fc19dc6) == 0x0fc19dc6 && NumberOf32(0x240ca1cc) == 0x240ca1cc
    ensures NumberOf32(0x2de92c6f) == 0x2de92c6f && NumberOf32(0x4a7484aa) == 0x4a7484aa
    ensures NumberOf32(0x5cb0a9dc) == 0x5cb0a9dc && NumberOf32(0x76f988da) == 0x76f988da
  {
  }

  lemma Row3Holds()
    ensures RowHolds(3)
  {
    hide NumberOf32;
    Row3Numbers();
  }

  lemma Row3Numbers()
    ensures NumberOf32(0x983e5152) == 0x983e5152 && NumberOf32(0xa831c66d) == 0xa831c66d
    ensures NumberOf32(0xb00327c8) == 0xb00327c8 && NumberOf32(0xbf597fc7) == 0xbf597fc7
    ensures NumberOf32(0xc6e00bf3) == 0xc6e00bf3 && NumberOf32(0xd5a79147) == 0xd5a79147
    ensures NumberOf32(0x06ca6351) == 0x06ca6351 && NumberOf32(0x14292967) == 0x14292967
  {
  }

  lemma Row4Holds()
    ensures RowHolds(4)
  {
    hide NumberOf32;
    Row4Numbers();
  }

  lemma Row4Numbers()
    ensures NumberOf32(0x27b70a85) == 0x27b70a85 && NumberOf32(0x2e1b2138) == 0x2e1b2138
    ensures NumberOf32(0x4d2c6dfc) == 0x4d2c6dfc && NumberOf32(0x53380d13) == 0x53380d13
    ensures NumberOf32(0x650a7354) == 0x650a7354 && NumberOf32(0x766a0abb) == 0x766a0abb
    ensures NumberOf32(0x81c2c92e) == 0x81c2c92e && NumberOf32(0x92722c85) == 0x92722c85
  {
  }

  lemma Row5Holds()
    ensures RowHolds(5)
  {
    hide NumberOf32;
    Row5Numbers();
  }

  lemma Row5Numbers()
    ensures NumberOf32(0xa2bfe8a1) == 0xa2bfe8a1 && NumberOf32(0xa81a664b) == 0xa81a664b
    ensures NumberOf32(0xc24b8b70) == 0xc24b8b70 && NumberOf32(0xc76c51a3) == 0xc76c51a3
    ensures NumberOf32(0xd192e819) == 0xd192e819 && NumberOf32(0xd6990624) == 0xd6990624
    ensures NumberOf32(0xf40e3585) == 0xf40e3585 && NumberOf32(0x106aa070) == 0x106aa070
  {
  }

  lemma Row6Holds()
    ensures RowHolds(6)
  {
    hide NumberOf32;
    Row6Numbers();
  }

  lemma Row6Numbers()
    ensures NumberOf32(0x19a4c116) == 0x19a4c116 && NumberOf32(0x1e376c08) == 0x1e376c08
    ensures NumberOf32(0x2748774c) == 0x2748774c && NumberOf32(0x34b0bcb5) == 0x34b0bcb5
    ensures NumberOf32(0x391c0cb3) == 0x391c0cb3 && NumberOf32(0x4ed8aa4a) == 0x4ed8aa4a
    ensures NumberOf32(0x5b9cca4f) == 0x5b9cca4f && NumberOf32(0x682e6ff3) == 0x682e6ff3
  {
  }

  lemma Row7Holds()
    ensures RowHolds(7)
  {
    hide NumberOf32;
    Row7Numbers();
  }

  lemma Row7Numbers()
    ensures NumberOf32(0x748f82ee) == 0x748f82ee && NumberOf32(0x78a5636f) == 0x78a5636f
    ensures NumberOf32(0x84c87814) == 0x84c87814 && NumberOf32(0x8cc70208) == 0x8cc70208
    ensures NumberOf32(0x90befffa) == 0x90befffa && NumberOf32(0xa4506ceb) == 0xa4506ceb
    ensures NumberOf32(0xbef9a3f7) == 0xbef9a3f7 && NumberOf32(0xc67178f2) == 0xc67178f2
  {
  }

  /** Every entry of the constant table is what section 4.2.2 defines it to be. */
  lemma ConstantsAreCubeRoots(t: nat)
    requires t < 64
    ensures IsCubeRootFraction(Prime(t), NumberOf32(K(t)))
  {
    hide CubeRootAt, NumberOf32;
    Row0Holds();
    Row1Holds();
    Row2Holds();
    Row3Holds();
    Row4Holds();
    Row5Holds();
    Row6Holds();
    Row7Holds();
    assert EntryHolds(t / 8, t % 8);
  }
}
