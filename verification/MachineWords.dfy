/** Unsigned 32- and 64-bit words assembled from bytes with shifts and `|`. */
module MachineWords {
  import opened Bytes

  /** The bytes of a 64-bit word, least significant first. */
  function BytesOf(w: bv64): (s: seq<Byte>)
    ensures |s| == 8
  {
    [(w & 0xff) as Byte, ((w >> 8) & 0xff) as Byte, ((w >> 16) & 0xff) as Byte, ((w >> 24) & 0xff) as Byte,
     ((w >> 32) & 0xff) as Byte, ((w >> 40) & 0xff) as Byte, ((w >> 48) & 0xff) as Byte, ((w >> 56) & 0xff) as Byte]
  }

  /** The number a 64-bit word stands for. */
  function NumberOf(w: bv64): nat {
    LittleEndianValue(BytesOf(w))
  }

  /** b << 8 * i. */
  function Shifted(b: Byte, i: nat): bv64
    requires i < 8
  {
    var w := b as bv64;
    if i == 0 then w else if i == 1 then w << 8 else if i == 2 then w << 16 else if i == 3 then w << 24
    else if i == 4 then w << 32 else if i == 5 then w << 40 else if i == 6 then w << 48 else w << 56
  }

  function Or(v: bv64, w: bv64): bv64 {
    v | w
  }

  /** What the loop of `deserialize` has accumulated after `i` bytes. */
  function Accumulated(s: seq<Byte>, i: nat): bv64
    requires i <= 8 <= |s|
  {
    if i == 0 then 0 else Or(Accumulated(s, i - 1), Shifted(s[i - 1], i - 1))
  }

  lemma AccumulatedNext(s: seq<Byte>, i: nat)
    requires i < 8 <= |s|
    ensures Accumulated(s, i + 1) == Or(Accumulated(s, i), Shifted(s[i], i))
  {
  }

  lemma DisjointBytes(a: Byte, b: Byte, c: Byte, d: Byte, e: Byte, f: Byte, g: Byte, h: Byte)
    ensures
      var low := Or(Or(Or(Or(0, Shifted(a, 0)), Shifted(b, 1)), Shifted(c, 2)), Shifted(d, 3));
      BytesOf(Or(Or(Or(Or(low, Shifted(e, 4)), Shifted(f, 5)), Shifted(g, 6)), Shifted(h, 7))) == [a, b, c, d, e, f, g, h]
  {
  }

  /** The shifted bytes do not overlap, so the accumulated word holds each of them. */
  lemma AccumulatedBytes(s: seq<Byte>)
    requires |s| == 8
    ensures BytesOf(Accumulated(s, 8)) == s
  {
    hide Or, Shifted, BytesOf, Accumulated;
    AccumulatedNone(s);
    AccumulatedNext(s, 0);
    AccumulatedNext(s, 1);
    AccumulatedNext(s, 2);
    AccumulatedNext(s, 3);
    AccumulatedNext(s, 4);
    AccumulatedNext(s, 5);
    AccumulatedNext(s, 6);
    AccumulatedNext(s, 7);
    DisjointBytes(s[0], s[1], s[2], s[3], s[4], s[5], s[6], s[7]);
  }

  lemma AccumulatedNone(s: seq<Byte>)
    requires |s| == 8
    ensures Accumulated(s, 0) == 0
  {
  }

  // ----- 32 bits -----

  function BytesOf32(w: bv32): (s: seq<Byte>)
    ensures |s| == 4
  {
    [(w & 0xff) as Byte, ((w >> 8) & 0xff) as Byte, ((w >> 16) & 0xff) as Byte, ((w >> 24) & 0xff) as Byte]
  }

  /** The number a 32-bit word stands for. */
  function NumberOf32(w: bv32): nat {
    ValueOf((w & 0xff) as Byte) + 0x100 * ValueOf(((w >> 8) & 0xff) as Byte)
      + 0x1_0000 * ValueOf(((w >> 16) & 0xff) as Byte) + 0x100_0000 * ValueOf(((w >> 24) & 0xff) as Byte)
  }

  lemma NumberIsLittleEndian(w: bv32)
    ensures NumberOf32(w) == LittleEndianValue(BytesOf32(w))
  {
    hide ValueOf, LittleEndianValue;
    var s := BytesOf32(w);
    FourByteValues(s[0], s[1], s[2], s[3]);
  }

  function Joined(b0: Byte, b1: Byte, b2: Byte, b3: Byte): bv32 {
    b0 as bv32 | (b1 as bv32 << 8) | (b2 as bv32 << 16) | (b3 as bv32 << 24)
  }

  lemma JoinedBytes(b0: Byte, b1: Byte, b2: Byte, b3: Byte)
    ensures BytesOf32(Joined(b0, b1, b2, b3)) == [b0, b1, b2, b3]
  {
  }
}
