/** `SecretKey` (`key.cpp`, `key.hpp`, `internal.hpp`): 32 bytes of storage, a logical size and a
    GCM invocation counter, updated by moves, wiping and the counter's fetch-and-add. */
module SecretKeys {
  import opened Bytes
  import opened Aes

  /** `kGcmInvocationLimit`. */
  const GCM_INVOCATION_LIMIT: nat := TWO_32

  /** `check_gcm_invocation_count`: the ticket drawn must be below the limit. */
  predicate PassesCheck(prior: nat) {
    prior < GCM_INVOCATION_LIMIT
  }

  class SecretKey {
    var bytes: seq<Byte>
    var size: KeySize
    var gcmInvocations: nat

    ghost predicate Valid()
      reads this
    {
      |bytes| == 32 && gcmInvocations < TWO_64
    }

    /** The key material proper: the first 16 or 32 bytes of the storage. */
    function Logical(): (s: seq<Byte>)
      requires Valid()
      reads this
      ensures |s| == SizeBytes(size)
    {
      bytes[..SizeBytes(size)]
    }

    constructor ()
      ensures Valid() && bytes == Zeros(32) && size == Aes256 && gcmInvocations == 0
    {
      bytes, size, gcmInvocations := Zeros(32), Aes256, 0;
    }

    /** All 32 bytes are random whatever the logical size. */
    constructor Generate(keySize: KeySize, random: seq<Byte>)
      requires |random| == 32
      ensures Valid() && bytes == random && size == keySize && gcmInvocations == 0
    {
      bytes, size, gcmInvocations := random, keySize, 0;
    }

    /** Only the logical bytes are copied; the rest of the storage stays zero. */
    constructor FromBytes(data: seq<Byte>, keySize: KeySize)
      requires |data| >= SizeBytes(keySize)
      ensures Valid() && size == keySize && gcmInvocations == 0
      ensures bytes == data[..SizeBytes(keySize)] + Zeros(32 - SizeBytes(keySize))
    {
      bytes, size, gcmInvocations := data[..SizeBytes(keySize)] + Zeros(32 - SizeBytes(keySize)), keySize, 0;
    }

    /** Move construction: the source keeps its size and count but loses its bytes. */
    constructor MoveFrom(other: SecretKey)
      requires other.Valid()
      modifies other
      ensures Valid() && other.Valid()
      ensures bytes == old(other.bytes) && size == old(other.size) && gcmInvocations == old(other.gcmInvocations)
      ensures other.bytes == Zeros(32) && other.size == old(other.size) && other.gcmInvocations == old(other.gcmInvocations)
    {
      bytes, size, gcmInvocations := other.bytes, other.size, other.gcmInvocations;
      new;
      other.Wipe();
    }

    method MoveAssign(other: SecretKey)
      requires Valid() && other.Valid()
      modifies this, other
      ensures Valid() && other.Valid()
      ensures bytes == old(other.bytes) && size == old(other.size) && gcmInvocations == old(other.gcmInvocations)
      ensures other != this ==> other.bytes == Zeros(32)
      ensures other.size == old(other.size) && other.gcmInvocations == old(other.gcmInvocations)
    {
      if this != other {
        Wipe();
        bytes := other.bytes;
        size := other.size;
        gcmInvocations := other.gcmInvocations;
        other.Wipe();
      }
    }

    method Wipe()
      requires Valid()
      modifies this`bytes
      ensures Valid() && bytes == Zeros(32)
    {
      for i := 0 to 32
        invariant |bytes| == 32 && forall j :: 0 <= j < i ==> bytes[j] == 0
      {
        bytes := bytes[i := 0];
      }
    }

    /** fetch_add(1): the count before the increment, which wraps at 2^64. */
    method ConsumeGcmInvocation() returns (prior: nat)
      requires Valid()
      modifies this`gcmInvocations
      ensures Valid() && prior == old(gcmInvocations) && gcmInvocations == (prior + 1) % TWO_64
    {
      prior := gcmInvocations;
      gcmInvocations := (gcmInvocations + 1) % TWO_64;
    }
  }
}
