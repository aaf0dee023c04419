/** The two ciphertext container formats (`container.cpp`, `aes_gcm.cpp`). */
module Containers {
  import opened Bytes
  import opened Modes
  import opened MachineWords

  const CTR_MAGIC: seq<Byte> := [0x41, 0x45, 0x53, 0x43]  // "AESC"
  const GCM_MAGIC: seq<Byte> := [0x41, 0x45, 0x53, 0x47]  // "AESG"
  const VERSION: Byte := 1
  const CTR_HEADER: nat := 25
  const GCM_HEADER: nat := 41

  function Encode(c: Container): seq<Byte> {
    CTR_MAGIC + [VERSION] + c.nonce + LittleEndian(|c.ciphertext|, 8) + c.ciphertext
  }

  function EncodeGcm(c: GcmContainer): seq<Byte> {
    GCM_MAGIC + [VERSION] + c.nonce + c.tag + LittleEndian(|c.ciphertext|, 8) + c.ciphertext
  }

  function Decode(data: seq<Byte>): Result<Container> {
    if |data| < CTR_HEADER || data[..4] != CTR_MAGIC || data[4] != VERSION
       || |data| - CTR_HEADER != LittleEndianValue(data[17..25]) then Err(FormatError)
    else Ok(Container(data[5..17], data[25..]))
  }

  function DecodeGcm(data: seq<Byte>): Result<GcmContainer> {
    if |data| < GCM_HEADER || data[..4] != GCM_MAGIC || data[4] != VERSION
       || |data| - GCM_HEADER != LittleEndianValue(data[33..41]) then Err(FormatError)
    else Ok(GcmContainer(data[5..17], data[17..33], data[41..]))
  }

  // ----- The wire formats, byte by byte -----

  lemma EncodeIs(c: Container)
    requires |c.ciphertext| < TWO_64
    ensures
      var d := Encode(c);
      && |d| == 25 + |c.ciphertext|
      && d[..5] == [0x41, 0x45, 0x53, 0x43, 1] && d[5..17] == c.nonce
      && LittleEndianValue(d[17..25]) == |c.ciphertext| && d[25..] == c.ciphertext
  {
    hide LittleEndian, LittleEndianValue;
    var d := Encode(c);
    LengthField(|c.ciphertext|);
    assert d[..5] == CTR_MAGIC + [VERSION] && d[5..17] == c.nonce && d[25..] == c.ciphertext;
    assert d[17..25] == LittleEndian(|c.ciphertext|, 8);
  }

  lemma EncodeGcmIs(c: GcmContainer)
    requires |c.ciphertext| < TWO_64
    ensures
      var d := EncodeGcm(c);
      && |d| == 41 + |c.ciphertext|
      && d[..5] == [0x41, 0x45, 0x53, 0x47, 1] && d[5..17] == c.nonce && d[17..33] == c.tag
      && LittleEndianValue(d[33..41]) == |c.ciphertext| && d[41..] == c.ciphertext
  {
    hide LittleEndian, LittleEndianValue;
    var d := EncodeGcm(c);
    LengthField(|c.ciphertext|);
    assert d[..5] == GCM_MAGIC + [VERSION] && d[5..17] == c.nonce && d[17..33] == c.tag && d[41..] == c.ciphertext;
    assert d[33..41] == LittleEndian(|c.ciphertext|, 8);
  }

  // ----- The codecs are exact inverses -----

  lemma LengthField(len: nat)
    requires len < TWO_64
    ensures LittleEndianValue(LittleEndian(len, 8)) == len
  {
    hide LittleEndian, LittleEndianValue;
    LittleEndianRoundTrip(len, 8);
    assert Pow256(8) == TWO_64;
  }

  /** Every container decodes back; lengths are `size_t`, so below 2^64. */
  lemma DecodeEncode(c: Container)
    requires |c.ciphertext| < TWO_64
    ensures Decode(Encode(c)) == Ok(c)
  {
    hide LittleEndian, LittleEndianValue;
    var d := Encode(c);
    LengthField(|c.ciphertext|);
    assert d[..4] == CTR_MAGIC && d[5..17] == c.nonce && d[25..] == c.ciphertext;
    assert d[17..25] == LittleEndian(|c.ciphertext|, 8);
  }

  /** Every accepted byte string is the encoding of what it decodes to. */
  lemma EncodeDecode(data: seq<Byte>)
    requires Decode(data).Ok?
    ensures Encode(Decode(data).value) == data
  {
    hide LittleEndian, LittleEndianValue;
    LittleEndianBytesRoundTrip(data[17..25]);
    assert data == data[..4] + [data[4]] + data[5..17] + data[17..25] + data[25..];
  }

  lemma DecodeEncodeGcm(c: GcmContainer)
    requires |c.ciphertext| < TWO_64
    ensures DecodeGcm(EncodeGcm(c)) == Ok(c)
  {
    hide LittleEndian, LittleEndianValue;
    var d := EncodeGcm(c);
    LengthField(|c.ciphertext|);
    assert d[..4] == GCM_MAGIC && d[5..17] == c.nonce && d[17..33] == c.tag && d[41..] == c.ciphertext;
    assert d[33..41] == LittleEndian(|c.ciphertext|, 8);
  }

  lemma EncodeDecodeGcm(data: seq<Byte>)
    requires DecodeGcm(data).Ok?
    ensures EncodeGcm(DecodeGcm(data).value) == data
  {
    hide LittleEndian, LittleEndianValue;
    LittleEndianBytesRoundTrip(data[33..41]);
    assert data == data[..4] + [data[4]] + data[5..17] + data[17..33] + data[33..41] + data[41..];
  }

  /** The two file types cannot be taken for one another. */
  lemma FormatsAreDisjoint(data: seq<Byte>)
    ensures !(Decode(data).Ok? && DecodeGcm(data).Ok?)
  {
    assert CTR_MAGIC[3] != GCM_MAGIC[3];
  }

  // ----- The code -----

  method PushLength(prefix: seq<Byte>, len: nat) returns (out: seq<Byte>)
    ensures out == prefix + LittleEndian(len, 8)
  {
    hide ByteOf, ShiftRight;
    out := prefix;
    for i := 0 to 8
      invariant out == prefix + LittleEndian(len, 8)[..i]
    {
      out := out + [ByteOf(ShiftRight(len, i))];
      assert LittleEndian(len, 8)[..i + 1] == LittleEndian(len, 8)[..i] + [LittleEndian(len, 8)[i]];
    }
    assert LittleEndian(len, 8)[..8] == LittleEndian(len, 8);
  }

  /** Accumulates the length with `|=`. */
  method ReadLength(data: seq<Byte>, at: nat) returns (len: nat)
    requires at + 8 <= |data|
    ensures len == LittleEndianValue(data[at..at + 8])
  {
    hide Or, Shifted, BytesOf, Accumulated, LittleEndianValue;
    ghost var field := data[at..at + 8];
    AccumulatedNone(field);
    var word: bv64 := 0;
    for i := 0 to 8
      invariant word == Accumulated(field, i)
    {
      AccumulatedNext(field, i);
      word := Or(word, Shifted(data[at + i], i));
    }
    AccumulatedBytes(field);
    len := NumberOf(word);
  }

  method MagicMatches(data: seq<Byte>, magic: seq<Byte>) returns (ok: bool)
    requires |magic| == 4 <= |data|
    ensures ok <==> data[..4] == magic
  {
    for i := 0 to 4
      invariant data[..i] == magic[..i]
    {
      if data[i] != magic[i] {
        assert data[..4][i] != magic[i];
        return false;
      }
      assert data[..i + 1] == data[..i] + [data[i]] && magic[..i + 1] == magic[..i] + [magic[i]];
    }
    assert magic[..4] == magic;
    ok := true;
  }

  method Serialize(c: Container) returns (out: seq<Byte>)
    ensures out == Encode(c)
  {
    out := CTR_MAGIC;
    out := out + [VERSION];
    out := out + c.nonce;
    out := PushLength(out, |c.ciphertext|);
    out := out + c.ciphertext;
  }

  method Deserialize(data: seq<Byte>) returns (r: Result<Container>)
    ensures r == Decode(data)
  {
    if |data| < CTR_HEADER {
      return Err(FormatError);
    }
    var magic := MagicMatches(data, CTR_MAGIC);
    if !magic {
      return Err(FormatError);
    }
    if data[4] != VERSION {
      return Err(FormatError);
    }
    var nonce := data[5..17];
    var len := ReadLength(data, 17);
    if |data| - CTR_HEADER != len {
      return Err(FormatError);
    }
    r := Ok(Container(nonce, data[25..]));
  }

  method SerializeGcm(c: GcmContainer) returns (out: seq<Byte>)
    ensures out == EncodeGcm(c)
  {
    out := GCM_MAGIC;
    out := out + [VERSION];
    out := out + c.nonce;
    out := out + c.tag;
    out := PushLength(out, |c.ciphertext|);
    out := out + c.ciphertext;
  }

  method DeserializeGcm(data: seq<Byte>) returns (r: Result<GcmContainer>)
    ensures r == DecodeGcm(data)
  {
    if |data| < GCM_HEADER {
      return Err(FormatError);
    }
    var magic := MagicMatches(data, GCM_MAGIC);
    if !magic {
      return Err(FormatError);
    }
    if data[4] != VERSION {
      return Err(FormatError);
    }
    var offset := 5;
    var nonce := data[offset..offset + 12];
    offset := offset + 12;
    var tag := data[offset..offset + 16];
    offset := offset + 16;
    var len := ReadLength(data, offset);
    offset := offset + 8;
    if |data| - offset != len {
      return Err(FormatError);
    }
    r := Ok(GcmContainer(nonce, tag, data[offset..]));
  }
}
