/** What happens to a key, and to everything it encrypts, when it is moved, saved and loaded. */
module KeyJourneys {
  import opened Bytes
  import opened Gf128
  import opened Gf128Lanes
  import opened Ghash
  import opened Aes
  import opened Modes
  import opened Drivers
  import opened KeyFiles
  import opened SecretKeys
  import opened KeyStorage
  import opened Traces

  /** One hop: a move, or a save followed by a load. */
  datatype Hop =
    | MoveConstruct
    | MoveAssign
    | ViaKeyFile
    | ViaWrappedFile(pass: seq<Byte>, salt: Salt, nonce: Nonce, iterations: nat)

  predicate IsMove(hop: Hop) {
    hop.MoveConstruct? || hop.MoveAssign?
  }

  /** `iterations` is a `std::uint32_t`, and one for which saving returns at all. */
  ghost predicate Representable(hop: Hop) {
    hop.ViaWrappedFile? ==> hop.iterations < TWO_32 - 1
  }

  function After(k: KeyValue, hop: Hop): (r: Result<KeyValue>)
    requires k.Valid()
    ensures r.Ok? ==> r.value.Valid()
  {
    match hop
    case MoveConstruct => Ok(k)
    case MoveAssign => Ok(k)
    case ViaKeyFile => LoadKey(SaveKey(k))
    case ViaWrappedFile(pass, salt, nonce, iterations) =>
      var file := SaveWrapped(k, pass, salt, nonce, iterations);
      if file.Err? then Err(file.error) else LoadWrapped(file.value, pass)
  }

  /** Same size and same key bytes; the storage beyond them may differ. */
  ghost predicate SameKey(k: KeyValue, k': KeyValue) {
    k.Valid() && k'.Valid() && k.size == k'.size && k.Logical() == k'.Logical()
  }

  /** A hop loses the key exactly when its iteration count is outside what save and load accept. */
  predicate Survives(hop: Hop) {
    hop.ViaWrappedFile? ==> 1000 <= hop.iterations <= 50_000_000
  }

  lemma HopKeepsKey(k: KeyValue, hop: Hop)
    requires k.Valid() && Representable(hop)
    ensures After(k, hop).Ok? <==> Survives(hop)
    ensures After(k, hop).Ok? ==> SameKey(k, After(k, hop).value)
    ensures After(k, hop).Ok? && !IsMove(hop) ==> After(k, hop).value == Stored(k.Logical(), k.size)
  {
    hide SaveWrapped, LoadWrapped, SaveKey, LoadKey;
    match hop
    case MoveConstruct =>
    case MoveAssign =>
    case ViaKeyFile =>
      LoadSavedKey(k, []);
      assert SaveKey(k) + [] == SaveKey(k);
    case ViaWrappedFile(pass, salt, nonce, iterations) =>
      SaveRefuses(k, pass, salt, nonce, iterations);
      if iterations >= MIN_ITERATIONS {
        WrappedRoundTrip(k, pass, salt, nonce, iterations);
      }
  }

  lemma SaveRefuses(k: KeyValue, pass: seq<Byte>, salt: Salt, nonce: Nonce, iterations: nat)
    requires k.Valid()
    ensures SaveWrapped(k, pass, salt, nonce, iterations).Err? <==> iterations < MIN_ITERATIONS
  {
  }

  /** Where a key is after a sequence of hops. */
  function Travelled(k: KeyValue, hops: seq<Hop>): (r: Result<KeyValue>)
    requires k.Valid()
    ensures r.Ok? ==> r.value.Valid()
  {
    if hops == [] then Ok(k)
    else
      var before := Travelled(k, hops[..|hops| - 1]);
      if before.Ok? then After(before.value, hops[|hops| - 1]) else before
  }

  /** Over every sequence of hops: the key arrives exactly when each hop survives, and it
      arrives with its size and key bytes. */
  lemma {:induction false} JourneyKeepsKey(k: KeyValue, hops: seq<Hop>)
    requires k.Valid() && forall i :: 0 <= i < |hops| ==> Representable(hops[i])
    ensures Travelled(k, hops).Ok? <==> forall i :: 0 <= i < |hops| ==> Survives(hops[i])
    ensures Travelled(k, hops).Ok? ==> SameKey(k, Travelled(k, hops).value)
  {
    hide After, Survives, Representable;
    if hops != [] {
      var before, last := hops[..|hops| - 1], hops[|hops| - 1];
      JourneyKeepsKey(k, before);
      assert forall i :: 0 <= i < |before| ==> before[i] == hops[i];
      if Travelled(k, before).Ok? {
        HopKeepsKey(Travelled(k, before).value, last);
        assert (forall i :: 0 <= i < |hops| ==> Survives(hops[i])) <==> Survives(last);
      } else {
        assert exists i :: 0 <= i < |before| && !Survives(before[i]);
      }
    }
  }

  // ----- On key objects -----

  /** The two outcomes agree: the same error, or an object holding the key. */
  ghost predicate Delivers(r: Result<SecretKey>, k: Result<KeyValue>)
    reads if r.Ok? then {r.value} else {}
  {
    match r
    case Err(e) => k == Err(e)
    case Ok(key) => key.Valid() && k == Ok(ValueOfKey(key))
  }

  /** A new object built by move construction, or a default one assigned to by move. */
  method MoveOut(key: SecretKey, assign: bool) returns (moved: SecretKey)
    requires key.Valid()
    modifies key
    ensures fresh(moved) && moved.Valid() && ValueOfKey(moved) == old(ValueOfKey(key))
    ensures moved.gcmInvocations == old(key.gcmInvocations) && key.bytes == Zeros(32)
  {
    if assign {
      moved := new SecretKey();
      moved.MoveAssign(key);
    } else {
      moved := new SecretKey.MoveFrom(key);
    }
  }

  /** Makes one hop with the library's own operations. A move wipes the object it leaves and takes
      the GCM count along; a file leaves the object alone and starts a new count. */
  method MakeHop(key: SecretKey, hop: Hop, backends: nat -> Backend, ghost trace: Trace) returns (r: Result<SecretKey>)
    requires key.Valid() && Representable(hop)
    modifies key, trace
    ensures Delivers(r, old(After(ValueOfKey(key), hop)))
    ensures r.Ok? ==> fresh(r.value) && r.value.gcmInvocations == if IsMove(hop) then old(key.gcmInvocations) else 0
    ensures if IsMove(hop) then key.bytes == Zeros(32) else unchanged(key)
  {
    hide SaveWrapped, LoadWrapped, SaveKey, LoadKey;
    match hop
    case MoveConstruct =>
      var moved := MoveOut(key, false);
      r := Ok(moved);
    case MoveAssign =>
      var moved := MoveOut(key, true);
      r := Ok(moved);
    case ViaKeyFile =>
      var file := Save(key);
      r := Load(file);
    case ViaWrappedFile(pass, salt, nonce, iterations) =>
      var file := SaveEncrypted(key, pass, salt, nonce, iterations, backends, trace);
      if file.Err? {
        return Err(file.error);
      }
      r := LoadEncrypted(file.value, pass, backends, trace);
  }

  /** A whole journey on objects ends where `Travelled` says. */
  method Travel(key: SecretKey, hops: seq<Hop>, backends: nat -> Backend, ghost trace: Trace) returns (r: Result<SecretKey>)
    requires key.Valid() && forall i :: 0 <= i < |hops| ==> Representable(hops[i])
    modifies key, trace
    ensures Delivers(r, old(Travelled(ValueOfKey(key), hops)))
  {
    hide After, Representable;
    ghost var k := ValueOfKey(key);
    r := Ok(key);
    for i := 0 to |hops|
      invariant r.Ok? ==> r.value == key || fresh(r.value)
      invariant Delivers(r, Travelled(k, hops[..i]))
    {
      assert hops[..i + 1][..i] == hops[..i];
      if r.Ok? {
        r := MakeHop(r.value, hops[i], backends, trace);
      }
    }
    assert hops[..|hops|] == hops;
  }

  // ----- What the key encrypts -----

  ghost predicate SameBlocks(e: Block -> Block, e': Block -> Block) {
    forall b: Block :: e(b) == e'(b)
  }

  lemma SameKeySameBlocks(k: KeyValue, k': KeyValue)
    requires SameKey(k, k')
    ensures SameBlocks(BlockFn(k.bytes, k.size), BlockFn(k'.bytes, k'.size))
  {
    hide Encrypt;
    forall b: Block
      ensures BlockFn(k.bytes, k.size)(b) == BlockFn(k'.bytes, k'.size)(b)
    {
      EncryptDependsOnPrefix(k.bytes, k'.bytes, k.size, b);
    }
  }

  lemma SameKeystream(e: Block -> Block, e': Block -> Block, nonce: Nonce, start: nat, input: seq<Byte>)
    requires SameBlocks(e, e')
    ensures Keystreamed(e, nonce, start, input) == Keystreamed(e', nonce, start, input)
  {
    hide Xor, CounterBlock;
  }

  lemma SameTag(e: Block -> Block, e': Block -> Block, nonce: Nonce, aad: seq<Byte>, ciphertext: seq<Byte>)
    requires SameBlocks(e, e')
    ensures TagPoly(e, nonce, aad, ciphertext) == TagPoly(e', nonce, aad, ciphertext)
  {
    hide Add, PolyOf, GhashOf, CounterBlock;
  }

  /** After any journey the key gives the same ciphertexts and tags, so it opens exactly what it
      opened before, although an AES-128 key's unused storage has gone from random to zero. */
  lemma JourneyKeepsCiphertexts(k: KeyValue, hops: seq<Hop>, nonce: Nonce, plaintext: seq<Byte>, c: GcmContainer, aad: seq<Byte>)
    requires k.Valid() && forall i :: 0 <= i < |hops| ==> Representable(hops[i])
    requires Travelled(k, hops).Ok?
    ensures SameKey(k, Travelled(k, hops).value)
    ensures
      var k' := Travelled(k, hops).value;
      var e, e' := BlockFn(k.bytes, k.size), BlockFn(k'.bytes, k'.size);
      && CtrEncrypt(e', nonce, plaintext) == CtrEncrypt(e, nonce, plaintext)
      && (Sealed(e', c, plaintext, aad) <==> Sealed(e, c, plaintext, aad))
      && GcmOpen(e', c, aad) == GcmOpen(e, c, aad)
  {
    hide Travelled, BlockFn, Keystreamed, TagPoly, PolyOf, Representable;
    JourneyKeepsKey(k, hops);
    var k' := Travelled(k, hops).value;
    var e, e' := BlockFn(k.bytes, k.size), BlockFn(k'.bytes, k'.size);
    SameKeySameBlocks(k, k');
    SameKeystream(e, e', nonce, 0, plaintext);
    SameKeystream(e, e', c.nonce, 2, plaintext);
    SameKeystream(e, e', c.nonce, 2, c.ciphertext);
    SameTag(e, e', c.nonce, aad, c.ciphertext);
  }
}
