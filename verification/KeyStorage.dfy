/** Saving and loading `SecretKey` objects (`key.cpp`, `key_storage.cpp`), refined to the file
    formats of module `KeyFiles`. */
module KeyStorage {
  import opened Bytes
  import opened Aes
  import opened SecretKeys
  import opened Modes
  import opened Drivers
  import opened Pbkdf2
  import opened KeyFiles
  import opened Containers
  import opened MachineWords
  import opened Traces

  /** What a key object holds, without its counter. */
  function ValueOfKey(key: SecretKey): (k: KeyValue)
    requires key.Valid()
    reads key
    ensures k.Valid()
  {
    KeyValue(key.bytes, key.size)
  }

  method Save(key: SecretKey) returns (file: seq<Byte>)
    requires key.Valid()
    ensures file == SaveKey(ValueOfKey(key))
  {
    var n := SizeBytes(key.size);
    file := [KEY_FILE_VERSION, Marker(key.size)];
    file := file + key.bytes[..n];
  }

  /** A loaded key starts with a fresh counter. */
  method Load(data: seq<Byte>) returns (r: Result<SecretKey>)
    ensures r.Err? ==> LoadKey(data) == Err(r.error)
    ensures r.Ok? ==> fresh(r.value) && r.value.Valid() && r.value.gcmInvocations == 0 && LoadKey(data) == Ok(ValueOfKey(r.value))
  {
    if |data| < 2 || data[0] != KEY_FILE_VERSION || !IsValidMarker(data[1]) {
      return Err(FormatError);
    }
    var size := SizeOf(data[1]);
    if |data| - 2 < SizeBytes(size) {
      return Err(FormatError);
    }
    var key := new SecretKey.FromBytes(data[2..], size);
    assert data[2..][..SizeBytes(size)] == data[2..2 + SizeBytes(size)];
    r := Ok(key);
  }

  // ----- The wrapped file -----

  method WriteAt(buffer: array<Byte>, offset: nat, data: seq<Byte>) returns (next: nat)
    requires offset + |data| <= buffer.Length
    modifies buffer
    ensures next == offset + |data| && buffer[..next] == old(buffer[..offset]) + data
  {
    forall i | 0 <= i < |data| { buffer[offset + i] := data[i]; }
    next := offset + |data|;
  }

  /** Magic, version, size marker and salt. */
  method WriteHeader(buffer: array<Byte>, size: KeySize, salt: Salt) returns (next: nat)
    requires buffer.Length >= 22
    modifies buffer
    ensures next == 22 && buffer[..next] == WRAPPED_MAGIC + [WRAPPED_VERSION] + [Marker(size)] + salt
  {
    hide Marker;
    next := WriteAt(buffer, 0, WRAPPED_MAGIC);
    next := WriteAt(buffer, next, [WRAPPED_VERSION]);
    next := WriteAt(buffer, next, [Marker(size)]);
    next := WriteAt(buffer, next, salt);
  }

  method LayOut(size: KeySize, salt: Salt, iterations: nat, nonce: Nonce, wrapped: seq<Byte>) returns (body: seq<Byte>)
    requires |wrapped| == SizeBytes(size)
    ensures body == Body(size, salt, iterations, nonce, wrapped)
  {
    hide ByteOf, LittleEndian, Marker;
    var buffer := new Byte[WRAPPED_KEY_OFFSET + SizeBytes(size)](_ => 0);
    var offset := WriteHeader(buffer, size, salt);
    ghost var header := WRAPPED_MAGIC + [WRAPPED_VERSION] + [Marker(size)] + salt;
    FourBytesLittle(iterations);
    offset := WriteAt(buffer, offset,
      [ByteOf(iterations), ByteOf(iterations / 0x100), ByteOf(iterations / 0x1_0000), ByteOf(iterations / 0x100_0000)]);
    offset := WriteAt(buffer, offset, nonce);
    offset := WriteAt(buffer, offset, wrapped);
    body := buffer[..];
    assert body == buffer[..offset] == header + LittleEndian(iterations, 4) + nonce + wrapped;
  }

  lemma FourBytesLittle(n: nat)
    ensures LittleEndian(n, 4) == [ByteOf(n), ByteOf(n / 0x100), ByteOf(n / 0x1_0000), ByteOf(n / 0x100_0000)]
  {
    hide ByteOf;
    assert ShiftRight(n, 1) == n / 0x100 && ShiftRight(n, 2) == n / 0x1_0000 && ShiftRight(n, 3) == n / 0x100_0000;
  }

  /** The calls saving makes: the whole derivation, the key's encryption, the tag. */
  ghost function SaveOps(k: KeyValue, pass: seq<Byte>, salt: Salt, nonce: Nonce, iterations: nat): seq<Op>
    requires k.Valid()
  {
    if iterations < MIN_ITERATIONS then []
    else
      var derived := Derived(pass, salt, iterations);
      var body := Body(k.size, salt, iterations, nonce, Wrap(pass, salt, iterations, nonce, k.Logical()));
      DerivationMacs(pass, salt, iterations)
      + CtrOps(derived[..32], Aes256, nonce, BlockCount(SizeBytes(k.size)))
      + [Mac(derived[32..], body)]
  }

  /** The bound on `iterations` is where the key derivation loop terminates. */
  method SaveEncrypted(key: SecretKey, pass: seq<Byte>, salt: Salt, nonce: Nonce, iterations: nat, backends: nat -> Backend, ghost trace: Trace)
    returns (r: Result<seq<Byte>>)
    requires key.Valid() && iterations < TWO_32 - 1
    modifies trace
    ensures r == SaveWrapped(ValueOfKey(key), pass, salt, nonce, iterations)
    ensures trace.ops == old(trace.ops) + SaveOps(ValueOfKey(key), pass, salt, nonce, iterations)
  {
    hide Derived, Hmac, Keystreamed, BlockFn, Body, DerivationMacs, CtrOps;
    if iterations < MIN_ITERATIONS {
      return Err(LimitError);
    }
    var derived := Pbkdf2HmacSha256(pass, salt, iterations, trace);
    var wrapKey := new SecretKey();
    wrapKey.bytes := derived[..32];
    var c := EncryptCtr(wrapKey, nonce, key.bytes[..SizeBytes(key.size)], backends, trace);
    var body := LayOut(key.size, salt, iterations, c.value.nonce, c.value.ciphertext);
    var tag := HmacSha256(derived[32..], body, trace);
    r := Ok(body + tag);
  }

  // ----- Loading it -----

  method CheckLayout(data: seq<Byte>) returns (ok: bool)
    ensures ok == HasLayout(data)
  {
    if |data| < 6 {
      return false;
    }
    var magic := MagicMatches(data, WRAPPED_MAGIC);
    if !magic || data[4] != WRAPPED_VERSION || !IsValidMarker(data[5]) {
      return false;
    }
    ok := |data| == WRAPPED_KEY_OFFSET + SizeBytes(SizeOf(data[5])) + TAG_SIZE;
  }

  method ReadAt(data: seq<Byte>, offset: nat, n: nat) returns (field: seq<Byte>, next: nat)
    requires offset + n <= |data|
    ensures field == data[offset..offset + n] && next == offset + n
  {
    var a := new Byte[n](_ => 0);
    forall i | 0 <= i < n { a[i] := data[offset + i]; }
    field := a[..];
    next := offset + n;
  }

  /** Four bytes shifted into a 32-bit word, least significant first. */
  method ReadIterations(data: seq<Byte>, offset: nat) returns (iterations: nat, next: nat)
    requires offset + 4 <= |data|
    ensures iterations == LittleEndianValue(data[offset..offset + 4]) && next == offset + 4
  {
    hide LittleEndianValue, Joined, BytesOf32, NumberOf32;
    next := offset;
    var b0 := data[next];
    next := next + 1;
    var b1 := data[next];
    next := next + 1;
    var b2 := data[next];
    next := next + 1;
    var b3 := data[next];
    next := next + 1;
    JoinedBytes(b0, b1, b2, b3);
    NumberIsLittleEndian(Joined(b0, b1, b2, b3));
    assert data[offset..offset + 4] == [b0, b1, b2, b3];
    iterations := NumberOf32(Joined(b0, b1, b2, b3));
  }

  /** Reads the fields at a moving offset, every one of them in bounds. */
  method ReadFields(data: seq<Byte>) returns (f: Fields)
    requires HasLayout(data)
    ensures f == Parse(data)
  {
    hide LittleEndianValue;
    var size := SizeOf(data[5]);
    var offset := 6;
    var salt, iterations, nonce, wrapped, tag;
    salt, offset := ReadAt(data, offset, 16);
    iterations, offset := ReadIterations(data, offset);
    nonce, offset := ReadAt(data, offset, 12);
    wrapped, offset := ReadAt(data, offset, SizeBytes(size));
    tag, offset := ReadAt(data, offset, TAG_SIZE);
    assert salt == data[6..22] && nonce == data[26..38] && tag == data[38 + SizeBytes(size)..];
    f := Fields(size, salt, iterations, nonce, wrapped, tag);
  }

  /** The calls loading makes: none for a malformed file, otherwise the derivation with the file's
      iteration count and the tag over everything before it, and only if that matches the
      decryption. */
  ghost function LoadOps(data: seq<Byte>, pass: seq<Byte>): seq<Op> {
    if !WellFormed(data) then []
    else
      var f := Parse(data);
      var derived := Derived(pass, f.salt, f.iterations);
      DerivationMacs(pass, f.salt, f.iterations)
      + [Mac(derived[32..], data[..|data| - TAG_SIZE])]
      + if Authentic(data, pass) then CtrOps(derived[..32], Aes256, f.nonce, BlockCount(SizeBytes(f.size))) else []
  }

  /** How far loading gets: call number 2c is the tag for a file with c iterations, calls before it
      are HMACs, calls after it are block cipher calls and exist exactly if the tag matched. */
  lemma LoadOrder(data: seq<Byte>, pass: seq<Byte>)
    ensures LoadOps(data, pass) != [] <==> WellFormed(data)
    ensures WellFormed(data) ==>
      var f, ops := Parse(data), LoadOps(data, pass);
      var tagged := 2 * f.iterations;
      && |ops| == tagged + 1 + (if Authentic(data, pass) then SizeBytes(f.size) / 16 else 0)
      && ops[tagged] == Mac(Derived(pass, f.salt, f.iterations)[32..], data[..|data| - TAG_SIZE])
      && forall i :: 0 <= i < |ops| ==> (ops[i].Cipher? <==> i > tagged)
  {
    hide Derived, LittleEndianValue, DerivationMacs, Tag;
  }

  /** Whatever the file, loading makes at most 100,000,001 HMAC calls and two block cipher calls,
      and it makes block cipher calls exactly for the files it accepts. */
  lemma LoadWorkBounded(data: seq<Byte>, pass: seq<Byte>)
    ensures |LoadOps(data, pass)| <= 100_000_003
    ensures (exists op :: op in LoadOps(data, pass) && op.Cipher?) <==> LoadWrapped(data, pass).Ok?
  {
    hide LoadOps, Unwrapped, Derived, Authentic, Parse, HasLayout;
    LoadOrder(data, pass);
    var ops := LoadOps(data, pass);
    if LoadWrapped(data, pass).Ok? {
      assert ops[|ops| - 1] in ops;
    }
  }

  /** The end of loading, reached only with the fields of a file whose tag matched. */
  method DecryptWrapped(f: Fields, derived: seq<Byte>, ghost data: seq<Byte>, ghost pass: seq<Byte>, backends: nat -> Backend, ghost trace: Trace)
    returns (key: SecretKey)
    requires WellFormed(data) && f == Parse(data) && Authentic(data, pass)
    requires derived == Derived(pass, f.salt, f.iterations)
    modifies trace
    ensures fresh(key) && key.Valid() && key.gcmInvocations == 0 && ValueOfKey(key) == Unwrapped(f, pass)
    ensures trace.ops == old(trace.ops) + CtrOps(derived[..32], Aes256, f.nonce, BlockCount(SizeBytes(f.size)))
  {
    hide Derived, Keystreamed, BlockFn, CtrOps, WellFormed, Parse, Authentic;
    var wrapKey := new SecretKey();
    wrapKey.bytes := derived[..32];
    var plain := DecryptCtr(wrapKey, Container(f.nonce, f.wrapped), backends, trace);
    key := new SecretKey.FromBytes(plain.value, f.size);
    assert plain.value[..SizeBytes(f.size)] == plain.value;
  }

  /** Total on byte strings. The trace fixes the order: PBKDF2 after all structural checks and
      with the checked count, decryption after the tag matched. */
  method LoadEncrypted(data: seq<Byte>, pass: seq<Byte>, backends: nat -> Backend, ghost trace: Trace) returns (r: Result<SecretKey>)
    modifies trace
    ensures r.Err? ==> LoadWrapped(data, pass) == Err(r.error)
    ensures r.Ok? ==> fresh(r.value) && r.value.Valid() && r.value.gcmInvocations == 0
    ensures r.Ok? ==> LoadWrapped(data, pass) == Ok(ValueOfKey(r.value))
    ensures trace.ops == old(trace.ops) + LoadOps(data, pass)
  {
    hide Derived, Hmac, Unwrapped, LittleEndianValue, DerivationMacs, CtrOps;
    var ok := CheckLayout(data);
    if !ok {
      return Err(FormatError);
    }
    var f := ReadFields(data);
    if f.iterations < MIN_ITERATIONS || f.iterations > MAX_ITERATIONS {
      return Err(FormatError);
    }
    var derived := Pbkdf2HmacSha256(pass, f.salt, f.iterations, trace);
    var computed := HmacSha256(derived[32..], data[..WRAPPED_KEY_OFFSET + SizeBytes(f.size)], trace);
    var equal := ConstantTimeEqual(computed, f.tag);
    if !equal {
      return Err(AuthenticationError);
    }
    var key := DecryptWrapped(f, derived, data, pass, backends, trace);
    r := Ok(key);
  }
}
