/** Addition of 32-bit words as the numbers they stand for: byte-wise addition with carries gives
    the sum modulo 2^32. */
module WordSums {
  import opened Bytes
  import opened MachineWords

  // Named so that the proofs can treat them as opaque.

  function Plus(x: bv32, y: bv32): bv32 {
    x + y
  }

  function Number16(x: bv16): nat {
    x as nat
  }

  function Low(x: bv16): Byte {
    (x & 0xff) as Byte
  }

  function High(x: bv16): bv16 {
    x >> 8
  }

  /** One column of the addition: two bytes and the carry from the column before. */
  function Column(a: Byte, b: Byte, c: bv16): bv16 {
    WithCarry(SumOf(a, b), c)
  }

  function SumOf(a: Byte, b: Byte): bv16 {
    a as bv16 + b as bv16
  }

  function WithCarry(u: bv16, c: bv16): bv16 {
    u + c
  }

  lemma SumOfIs(a: Byte, b: Byte)
    ensures Number16(SumOf(a, b)) == ValueOf(a) + ValueOf(b) && SumOf(a, b) <= 0x1fe
  {
  }

  lemma WithCarryIs(u: bv16, c: bv16)
    requires u <= 0x1fe && c <= 1
    ensures Number16(WithCarry(u, c)) == Number16(u) + Number16(c) && WithCarry(u, c) <= 0x1ff
  {
  }

  lemma SplitIs(t: bv16)
    requires t <= 0x1ff
    ensures Number16(t) == ValueOf(Low(t)) + 256 * Number16(High(t)) && High(t) <= 1
  {
  }

  lemma ColumnIs(a: Byte, b: Byte, c: bv16)
    requires c <= 1
    ensures ValueOf(Low(Column(a, b, c))) + 256 * Number16(High(Column(a, b, c))) == ValueOf(a) + ValueOf(b) + Number16(c)
    ensures High(Column(a, b, c)) <= 1
  {
    hide SumOf, WithCarry, Number16, Low, High, ValueOf;
    SumOfIs(a, b);
    WithCarryIs(SumOf(a, b), c);
    SplitIs(Column(a, b, c));
  }

  // ----- The four columns -----

  function Byte0(x: bv32): Byte {
    (x & 0xff) as Byte
  }

  function Byte1(x: bv32): Byte {
    ((x >> 8) & 0xff) as Byte
  }

  function Byte2(x: bv32): Byte {
    ((x >> 16) & 0xff) as Byte
  }

  function Byte3(x: bv32): Byte {
    ((x >> 24) & 0xff) as Byte
  }

  /** The carry out of the lowest byte, two bytes, three bytes. */
  function Carry1(x: bv32, y: bv32): bv16 {
    (((x & 0xff) + (y & 0xff)) >> 8) as bv16
  }

  function Carry2(x: bv32, y: bv32): bv16 {
    (((x & 0xffff) + (y & 0xffff)) >> 16) as bv16
  }

  function Carry3(x: bv32, y: bv32): bv16 {
    (((x & 0xff_ffff) + (y & 0xff_ffff)) >> 24) as bv16
  }

  lemma Column0(x: bv32, y: bv32)
    ensures Byte0(Plus(x, y)) == Low(Column(Byte0(x), Byte0(y), 0)) && Carry1(x, y) == High(Column(Byte0(x), Byte0(y), 0))
  {
  }

  lemma Column1(x: bv32, y: bv32)
    ensures Byte1(Plus(x, y)) == Low(Column(Byte1(x), Byte1(y), Carry1(x, y)))
  {
    Raw1(x, y, Carry1(x, y));
  }

  lemma Raw1(x: bv32, y: bv32, c: bv16)
    requires c == (((x & 0xff) + (y & 0xff)) >> 8) as bv16
    ensures (((x + y) >> 8) & 0xff) as Byte == (((((x >> 8) & 0xff) as Byte) as bv16 + (((y >> 8) & 0xff) as Byte) as bv16 + c) & 0xff) as Byte
  {
  }

  lemma CarryOn1(x: bv32, y: bv32)
    ensures Carry2(x, y) == High(Column(Byte1(x), Byte1(y), Carry1(x, y)))
  {
    RawCarry1(x, y, Carry1(x, y));
  }

  lemma RawCarry1(x: bv32, y: bv32, c: bv16)
    requires c == (((x & 0xff) + (y & 0xff)) >> 8) as bv16
    ensures (((x & 0xffff) + (y & 0xffff)) >> 16) as bv16 == ((((x >> 8) & 0xff) as Byte) as bv16 + (((y >> 8) & 0xff) as Byte) as bv16 + c) >> 8
  {
  }

  lemma Column2(x: bv32, y: bv32)
    ensures Byte2(Plus(x, y)) == Low(Column(Byte2(x), Byte2(y), Carry2(x, y)))
  {
    Raw2(x, y, Carry2(x, y));
  }

  lemma Raw2(x: bv32, y: bv32, c: bv16)
    requires c == (((x & 0xffff) + (y & 0xffff)) >> 16) as bv16
    ensures (((x + y) >> 16) & 0xff) as Byte == (((((x >> 16) & 0xff) as Byte) as bv16 + (((y >> 16) & 0xff) as Byte) as bv16 + c) & 0xff) as Byte
  {
  }

  lemma CarryOn2(x: bv32, y: bv32)
    ensures Carry3(x, y) == High(Column(Byte2(x), Byte2(y), Carry2(x, y)))
  {
    RawCarry2(x, y, Carry2(x, y));
  }

  lemma RawCarry2(x: bv32, y: bv32, c: bv16)
    requires c == (((x & 0xffff) + (y & 0xffff)) >> 16) as bv16
    ensures (((x & 0xff_ffff) + (y & 0xff_ffff)) >> 24) as bv16 == ((((x >> 16) & 0xff) as Byte) as bv16 + (((y >> 16) & 0xff) as Byte) as bv16 + c) >> 8
  {
  }

  lemma Column3(x: bv32, y: bv32)
    ensures Byte3(Plus(x, y)) == Low(Column(Byte3(x), Byte3(y), Carry3(x, y)))
  {
    Raw3(x, y, Carry3(x, y));
  }

  lemma Raw3(x: bv32, y: bv32, c: bv16)
    requires c == (((x & 0xff_ffff) + (y & 0xff_ffff)) >> 24) as bv16
    ensures ((((x + y) >> 24) & 0xff) as Byte == (((((x >> 24) & 0xff) as Byte) as bv16 + (((y >> 24) & 0xff) as Byte) as bv16 + c) & 0xff) as Byte)
  {
  }

  lemma NumberOfBytes(x: bv32)
    ensures NumberOf32(x) == ValueOf(Byte0(x)) + 0x100 * ValueOf(Byte1(x)) + 0x1_0000 * ValueOf(Byte2(x)) + 0x100_0000 * ValueOf(Byte3(x))
  {
    hide ValueOf;
  }

  lemma SumWithCarry(x: bv32, y: bv32)
    ensures
      var carry := Number16(High(Column(Byte3(x), Byte3(y), Carry3(x, y))));
      NumberOf32(x) + NumberOf32(y) == NumberOf32(Plus(x, y)) + 0x1_0000_0000 * carry
  {
    hide NumberOf32, ValueOf, Byte0, Byte1, Byte2, Byte3, Carry1, Carry2, Carry3, Column, Low, High, Plus, Number16;
    NumberOfBytes(x);
    NumberOfBytes(y);
    NumberOfBytes(Plus(x, y));
    Column0(x, y);
    Column1(x, y);
    CarryOn1(x, y);
    Column2(x, y);
    CarryOn2(x, y);
    Column3(x, y);
    ColumnIs(Byte0(x), Byte0(y), 0);
    ColumnIs(Byte1(x), Byte1(y), Carry1(x, y));
    ColumnIs(Byte2(x), Byte2(y), Carry2(x, y));
    ColumnIs(Byte3(x), Byte3(y), Carry3(x, y));
    NoCarry();
  }

  /** The sum of two words stands for the sum of their numbers modulo 2^32. */
  lemma PlusIsSum(x: bv32, y: bv32)
    ensures NumberOf32(Plus(x, y)) == (NumberOf32(x) + NumberOf32(y)) % 0x1_0000_0000
  {
    hide NumberOf32, ValueOf, Column, High, Plus, Number16;
    SumWithCarry(x, y);
    NumberOfBytes(Plus(x, y));
    ModUnique(NumberOf32(x) + NumberOf32(y), 0x1_0000_0000, Number16(High(Column(Byte3(x), Byte3(y), Carry3(x, y)))), NumberOf32(Plus(x, y)));
  }

  lemma NoCarry()
    ensures Number16(0) == 0
  {
  }
}
