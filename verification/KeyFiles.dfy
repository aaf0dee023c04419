/** The plain key file (`key.cpp`) and the passphrase-wrapped key file (`key_storage.cpp`), as
    functions between keys and byte strings. */
module KeyFiles {
  import opened Bytes
  import opened Aes
  import opened Modes
  import opened Drivers
  import opened Pbkdf2

  /** A key's storage and logical size. */
  datatype KeyValue = KeyValue(bytes: seq<Byte>, size: KeySize) {
    ghost predicate Valid() {
      |bytes| == 32
    }

    function Logical(): seq<Byte>
      requires |bytes| == 32
    {
      bytes[..SizeBytes(size)]
    }
  }

  const KEY_FILE_VERSION: Byte := 2

  function Marker(size: KeySize): Byte {
    if size == Aes128 then 16 else 32
  }

  predicate IsValidMarker(marker: Byte) {
    marker == 16 || marker == 32
  }

  function SizeOf(marker: Byte): KeySize {
    if marker == 16 then Aes128 else Aes256
  }

  /** Loaded key bytes in zeroed storage. */
  function Stored(logical: seq<Byte>, size: KeySize): (k: KeyValue)
    requires |logical| == SizeBytes(size)
    ensures k.Valid() && k.Logical() == logical
  {
    KeyValue(logical + Zeros(32 - SizeBytes(size)), size)
  }

  // ----- The plain key file -----

  function SaveKey(k: KeyValue): seq<Byte>
    requires k.Valid()
  {
    [KEY_FILE_VERSION, Marker(k.size)] + k.Logical()
  }

  /** Only the announced number of key bytes is read; anything after them is ignored. */
  function LoadKey(data: seq<Byte>): (r: Result<KeyValue>)
    ensures r.Ok? ==> r.value.Valid()
  {
    if |data| < 2 || data[0] != KEY_FILE_VERSION || !IsValidMarker(data[1]) then Err(FormatError)
    else
      var size := SizeOf(data[1]);
      if |data| < 2 + SizeBytes(size) then Err(FormatError) else Ok(Stored(data[2..2 + SizeBytes(size)], size))
  }

  /** The file, byte by byte: 2, then 16 or 32, then as many key bytes. */
  lemma SaveKeyIs(k: KeyValue)
    requires k.Valid()
    ensures
      var f, n := SaveKey(k), if k.size == Aes128 then 16 else 32;
      |f| == 2 + n && f[0] == 2 && f[1] == (if k.size == Aes128 then 16 else 32) && f[2..] == k.bytes[..n]
  {
  }

  /** What load accepts and makes of it: the key bytes, then zeros. */
  lemma LoadKeyIs(data: seq<Byte>)
    ensures LoadKey(data).Ok? <==> |data| >= 2 && data[0] == 2 && ((data[1] == 16 && |data| >= 18) || (data[1] == 32 && |data| >= 34))
    ensures LoadKey(data).Ok? && data[1] == 16 ==> LoadKey(data).value == KeyValue(data[2..18] + Zeros(16), Aes128)
    ensures LoadKey(data).Ok? && data[1] == 32 ==> LoadKey(data).value == KeyValue(data[2..34], Aes256)
    ensures LoadKey(data).Err? ==> LoadKey(data).error == FormatError
  {
    if LoadKey(data).Ok? && data[1] == 32 {
      assert data[2..34] + Zeros(0) == data[2..34];
    }
  }

  lemma LoadSavedKey(k: KeyValue, rest: seq<Byte>)
    requires k.Valid()
    ensures LoadKey(SaveKey(k) + rest) == Ok(Stored(k.Logical(), k.size))
  {
    var data := SaveKey(k) + rest;
    assert data[2..2 + SizeBytes(k.size)] == k.Logical();
  }

  /** A file is accepted exactly when it starts with a saved key. */
  lemma LoadKeyAccepts(data: seq<Byte>)
    requires LoadKey(data).Ok?
    ensures SaveKey(LoadKey(data).value) <= data
  {
    var k := LoadKey(data).value;
    assert data[..2] == [KEY_FILE_VERSION, Marker(k.size)];
  }

  // ----- The wrapped key file -----

  const WRAPPED_MAGIC: seq<Byte> := [0x41, 0x45, 0x53, 0x57]  // "AESW"
  const WRAPPED_VERSION: Byte := 2
  const WRAPPED_KEY_OFFSET: nat := 38
  const TAG_SIZE: nat := 32
  const MIN_ITERATIONS: nat := 1000
  const MAX_ITERATIONS: nat := 50_000_000

  type Salt = s: seq<Byte> | |s| == 16 witness Zeros(16)

  /** Everything before the tag. */
  function Body(size: KeySize, salt: Salt, iterations: nat, nonce: Nonce, wrapped: seq<Byte>): seq<Byte> {
    WRAPPED_MAGIC + [WRAPPED_VERSION] + [Marker(size)] + salt + LittleEndian(iterations, 4) + nonce + wrapped
  }

  /** The AES-256-CTR keystream of the first derived half, its own inverse. */
  function Wrap(pass: seq<Byte>, salt: Salt, iterations: nat, nonce: Nonce, data: seq<Byte>): (w: seq<Byte>)
    ensures |w| == |data|
  {
    Keystreamed(BlockFn(Derived(pass, salt, iterations)[..32], Aes256), nonce, 0, data)
  }

  /** HMAC under the second derived half. */
  function Tag(pass: seq<Byte>, salt: Salt, iterations: nat, body: seq<Byte>): seq<Byte> {
    Hmac(Derived(pass, salt, iterations)[32..], body)
  }

  function SaveWrapped(k: KeyValue, pass: seq<Byte>, salt: Salt, nonce: Nonce, iterations: nat): Result<seq<Byte>>
    requires k.Valid()
  {
    if iterations < MIN_ITERATIONS then Err(LimitError)
    else
      var body := Body(k.size, salt, iterations, nonce, Wrap(pass, salt, iterations, nonce, k.Logical()));
      Ok(body + Tag(pass, salt, iterations, body))
  }

  /** The fields of a structurally valid file. */
  datatype Fields = Fields(size: KeySize, salt: Salt, iterations: nat, nonce: Nonce, wrapped: seq<Byte>, tag: seq<Byte>)

  /** The checks made before any field is read. */
  predicate HasLayout(data: seq<Byte>) {
    && |data| >= 6
    && data[..4] == WRAPPED_MAGIC
    && data[4] == WRAPPED_VERSION
    && IsValidMarker(data[5])
    && |data| == WRAPPED_KEY_OFFSET + SizeBytes(SizeOf(data[5])) + TAG_SIZE
  }

  /** Every check made before the passphrase is used. */
  predicate WellFormed(data: seq<Byte>) {
    HasLayout(data) && MIN_ITERATIONS <= Parse(data).iterations <= MAX_ITERATIONS
  }

  function Parse(data: seq<Byte>): (f: Fields)
    requires HasLayout(data)
    ensures |f.wrapped| == SizeBytes(f.size)
  {
    var n := SizeBytes(SizeOf(data[5]));
    Fields(SizeOf(data[5]), data[6..22], LittleEndianValue(data[22..26]), data[26..38], data[38..38 + n], data[38 + n..])
  }

  /** The tag over everything before it is the stored one. */
  predicate Authentic(data: seq<Byte>, pass: seq<Byte>)
    requires WellFormed(data)
  {
    var f := Parse(data);
    Tag(pass, f.salt, f.iterations, data[..|data| - TAG_SIZE]) == f.tag
  }

  function Unwrapped(f: Fields, pass: seq<Byte>): (k: KeyValue)
    requires |f.wrapped| == SizeBytes(f.size)
    ensures k.Valid()
  {
    Stored(Wrap(pass, f.salt, f.iterations, f.nonce, f.wrapped), f.size)
  }

  function LoadWrapped(data: seq<Byte>, pass: seq<Byte>): (r: Result<KeyValue>)
    ensures r.Ok? ==> r.value.Valid()
  {
    if !WellFormed(data) then Err(FormatError)
    else if !Authentic(data, pass) then Err(AuthenticationError)
    else Ok(Unwrapped(Parse(data), pass))
  }

  /** The structural checks with their constants. */
  lemma WellFormedIs(data: seq<Byte>)
    ensures WellFormed(data) <==>
      && |data| >= 26
      && data[..5] == [0x41, 0x45, 0x53, 0x57, 2]
      && ((data[5] == 16 && |data| == 86) || (data[5] == 32 && |data| == 102))
      && 1000 <= LittleEndianValue(data[22..26]) <= 50_000_000
  {
    hide LittleEndianValue;
    if |data| >= 6 {
      assert data[..5] == data[..4] + [data[4]];
      assert data[..4] == data[..5][..4] && data[4] == data[..5][4];
      assert [0x41, 0x45, 0x53, 0x57, 2][..4] == WRAPPED_MAGIC;
    }
  }

  lemma IterationsRoundTrip(iterations: nat)
    requires iterations < TWO_32
    ensures LittleEndianValue(LittleEndian(iterations, 4)) == iterations
  {
    hide LittleEndian, LittleEndianValue;
    LittleEndianRoundTrip(iterations, 4);
    assert Pow256(4) == TWO_32;
  }

  /** Where each field is. */
  lemma FieldsAreAt(f: Fields)
    requires |f.wrapped| == SizeBytes(f.size) && |f.tag| == TAG_SIZE
    ensures
      var body, n := Body(f.size, f.salt, f.iterations, f.nonce, f.wrapped), SizeBytes(f.size);
      var d := body + f.tag;
      && |d| == 38 + n + 32 && d[..6] == WRAPPED_MAGIC + [WRAPPED_VERSION, Marker(f.size)]
      && d[6..22] == f.salt && d[22..26] == LittleEndian(f.iterations, 4) && d[26..38] == f.nonce
      && d[38..38 + n] == f.wrapped && d[..38 + n] == body && d[38 + n..] == f.tag
  {
    hide LittleEndian, Marker;
    var header := WRAPPED_MAGIC + [WRAPPED_VERSION] + [Marker(f.size)];
    var rest := LittleEndian(f.iterations, 4) + f.nonce + f.wrapped + f.tag;
    var d := Body(f.size, f.salt, f.iterations, f.nonce, f.wrapped) + f.tag;
    assert header == WRAPPED_MAGIC + [WRAPPED_VERSION, Marker(f.size)];
    assert d == header + f.salt + rest;
    assert d[..6] == header && d[6..22] == f.salt && d[22..] == rest;
    assert d[22..26] == rest[..4] && d[26..38] == rest[4..16];
  }

  /** A laid-out file parses back to its fields, provided load's bounds on the iterations hold. */
  lemma ParseLaidOut(f: Fields)
    requires |f.wrapped| == SizeBytes(f.size) && |f.tag| == TAG_SIZE && f.iterations < TWO_32
    ensures
      var d := Body(f.size, f.salt, f.iterations, f.nonce, f.wrapped) + f.tag;
      && (WellFormed(d) <==> MIN_ITERATIONS <= f.iterations <= MAX_ITERATIONS)
      && (WellFormed(d) ==> Parse(d) == f)
      && d[..|d| - TAG_SIZE] == Body(f.size, f.salt, f.iterations, f.nonce, f.wrapped)
  {
    hide LittleEndian, LittleEndianValue, Body;
    var d := Body(f.size, f.salt, f.iterations, f.nonce, f.wrapped) + f.tag;
    FieldsAreAt(f);
    assert d[..4] == d[..6][..4] == WRAPPED_MAGIC && d[4] == d[..6][4] && d[5] == d[..6][5];
    IterationsRoundTrip(f.iterations);
  }

  /** A well-formed file is exactly the layout of its fields. */
  lemma LaidOutParsed(data: seq<Byte>)
    requires WellFormed(data)
    ensures
      var f := Parse(data);
      data == Body(f.size, f.salt, f.iterations, f.nonce, f.wrapped) + f.tag
  {
    hide LittleEndian, LittleEndianValue;
    LittleEndianBytesRoundTrip(data[22..26]);
    var n := SizeBytes(SizeOf(data[5]));
    assert data == data[..4] + [data[4]] + [data[5]] + data[6..22] + data[22..26] + data[26..38] + data[38..38 + n] + data[38 + n..];
  }

  /** The wrapped file, byte by byte: magic, version 2, key length, salt, little-endian count, nonce,
      the key under AES-256-CTR with the first derived half, and the HMAC with the second. */
  lemma WrappedFileIs(k: KeyValue, pass: seq<Byte>, salt: Salt, nonce: Nonce, iterations: nat, i: nat)
    requires k.Valid() && 1000 <= iterations < TWO_32 - 1 && i < (if k.size == Aes128 then 16 else 32)
    ensures SaveWrapped(k, pass, salt, nonce, iterations).Ok?
    ensures
      var f, n := SaveWrapped(k, pass, salt, nonce, iterations).value, if k.size == Aes128 then 16 else 32;
      var derived := Derived(pass, salt, iterations);
      && |f| == 38 + n + 32
      && f[..6] == [0x41, 0x45, 0x53, 0x57, 2, if k.size == Aes128 then 16 else 32]
      && f[6..22] == salt && LittleEndianValue(f[22..26]) == iterations && f[26..38] == nonce
      && f[38 + i] == Xor(k.bytes[i], BlockFn(derived[..32], Aes256)(CounterBlock(nonce, i / 16))[i % 16])
      && f[38 + n..] == Hmac(derived[32..], f[..38 + n])
  {
    hide BlockFn, Derived, Hmac, LittleEndian, LittleEndianValue, Xor, CounterBlock, Body;
    var wrapped := Wrap(pass, salt, iterations, nonce, k.Logical());
    var body := Body(k.size, salt, iterations, nonce, wrapped);
    var f := body + Tag(pass, salt, iterations, body);
    FieldsAreAt(Fields(k.size, salt, iterations, nonce, wrapped, Tag(pass, salt, iterations, body)));
    IterationsRoundTrip(iterations);
    assert f[38 + i] == f[38..38 + SizeBytes(k.size)][i] == wrapped[i];
  }

  /** A saved key loads back to the same size and key bytes exactly when the iteration count is
      one that load accepts; save itself has no ceiling, but does not return at 2^32 - 1. */
  lemma WrappedRoundTrip(k: KeyValue, pass: seq<Byte>, salt: Salt, nonce: Nonce, iterations: nat)
    requires k.Valid() && 1000 <= iterations < TWO_32 - 1
    ensures SaveWrapped(k, pass, salt, nonce, iterations).Ok?
    ensures iterations <= 50_000_000 ==>
      LoadWrapped(SaveWrapped(k, pass, salt, nonce, iterations).value, pass) == Ok(Stored(k.Logical(), k.size))
    ensures iterations > 50_000_000 ==>
      LoadWrapped(SaveWrapped(k, pass, salt, nonce, iterations).value, pass) == Err(FormatError)
  {
    hide Keystreamed, BlockFn, Derived, Hmac, Body, WellFormed, HasLayout, Parse;
    var wrapped := Wrap(pass, salt, iterations, nonce, k.Logical());
    var body := Body(k.size, salt, iterations, nonce, wrapped);
    ParseLaidOut(Fields(k.size, salt, iterations, nonce, wrapped, Tag(pass, salt, iterations, body)));
    KeystreamTwice(BlockFn(Derived(pass, salt, iterations)[..32], Aes256), nonce, 0, k.Logical());
  }

  /** Conversely, every file that load accepts is the one that saving the loaded key would write
      with the file's own salt, nonce and count. */
  lemma AcceptedFileIsSaved(data: seq<Byte>, pass: seq<Byte>)
    requires LoadWrapped(data, pass).Ok?
    ensures HasLayout(data)
    ensures
      var f := Parse(data);
      SaveWrapped(LoadWrapped(data, pass).value, pass, f.salt, f.nonce, f.iterations) == Ok(data)
  {
    hide Keystreamed, BlockFn, Derived, Hmac, Body, LittleEndianValue;
    var f := Parse(data);
    LaidOutParsed(data);
    KeystreamTwice(BlockFn(Derived(pass, f.salt, f.iterations)[..32], Aes256), f.nonce, 0, f.wrapped);
    var body := Body(f.size, f.salt, f.iterations, f.nonce, f.wrapped);
    assert data == body + f.tag;
    assert data[..|data| - TAG_SIZE] == body;
  }
}
