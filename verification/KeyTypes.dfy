// Key identifiers, lifetimes and attributes, with the ranges that separate
// application, volatile and built-in keys.
module KeyTypes {
  import opened Bytes

  type KeyId = id: nat | id < 0x1_0000_0000

  const USER_MIN: nat := 0x0000_0001
  const USER_MAX: nat := 0x3FFF_FFFF
  const VENDOR_MIN: nat := 0x4000_0000
  const BUILTIN_MIN: nat := 0x7FFF_0000
  const BUILTIN_MAX: nat := 0x7FFF_EFFF
  const VOLATILE_MAX: nat := BUILTIN_MIN - 1

  const LIFETIME_PERSISTENT: nat := 1
  const MAX_STORAGE_SIZE: nat := 8191

  predicate IsUserId(id: nat) {
    USER_MIN <= id <= USER_MAX
  }

  predicate IsVolatileId(id: nat) {
    VENDOR_MIN <= id <= VOLATILE_MAX
  }

  predicate IsBuiltinId(id: nat) {
    BUILTIN_MIN <= id <= BUILTIN_MAX
  }

  /** The low byte of a lifetime is the persistence level. */
  predicate IsVolatileLifetime(lifetime: nat) {
    lifetime % 0x100 == 0
  }

  predicate IsReadOnlyLifetime(lifetime: nat) {
    lifetime % 0x100 == 0xFF
  }

  datatype Policy = Policy(usage: nat, alg: nat, alg2: nat)

  datatype Attributes = Attributes(id: KeyId, lifetime: nat, ktype: nat, bits: nat, policy: Policy)

  const NO_ATTRIBUTES: Attributes := Attributes(0, 0, 0, 0, Policy(0, 0, 0))

  /** The field widths of psa_key_attributes_t. */
  predicate Representable(a: Attributes) {
    && a.lifetime < 0x1_0000_0000
    && a.ktype < 0x1_0000
    && a.bits < 0x1_0000
    && a.policy.usage < 0x1_0000_0000
    && a.policy.alg < 0x1_0000_0000
    && a.policy.alg2 < 0x1_0000_0000
  }

  const SIGN_MESSAGE: nat := 0x400
  const VERIFY_MESSAGE: nat := 0x800
  const SIGN_HASH: nat := 0x1000
  const VERIFY_HASH: nat := 0x2000

  predicate HasFlag(usage: nat, flag: nat)
    requires flag > 0
  {
    usage / flag % 2 == 1
  }

  function AddFlag(usage: nat, flag: nat): nat
    requires flag > 0
  {
    if HasFlag(usage, flag) then usage else usage + flag
  }

  /** psa_extend_key_usage_flags: signing a hash implies signing a message. */
  function ExtendUsage(usage: nat): nat {
    var u := if HasFlag(usage, SIGN_HASH) then AddFlag(usage, SIGN_MESSAGE) else usage;
    if HasFlag(u, VERIFY_HASH) then AddFlag(u, VERIFY_MESSAGE) else u
  }

  lemma HasFlagIsBit(usage: nat, b: nat)
    ensures HasFlag(usage, Pow2(b)) <==> Bit(usage, b)
  {
    BitIsDigit(usage, b);
  }

  lemma AddFlagBits(usage: nat, n: nat, b: nat)
    ensures Bit(AddFlag(usage, Pow2(n)), b) <==> b == n || Bit(usage, b)
  {
    HasFlagIsBit(usage, n);
    if !Bit(usage, n) {
      AddBit(usage, n, b);
    }
  }

  /** The flags that come with others, by their bits: a key that may sign or
      verify hashes may sign or verify messages. */
  predicate Implied(usage: nat, b: nat) {
    || (b == 10 && HasFlag(usage, SIGN_HASH))
    || (b == 11 && HasFlag(usage, VERIFY_HASH))
  }

  lemma FlagBits()
    ensures SIGN_MESSAGE == Pow2(10) && VERIFY_MESSAGE == Pow2(11) && SIGN_HASH == Pow2(12) && VERIFY_HASH == Pow2(13)
  {
    assert Pow2(5) == 32 && Pow2(10) == 32 * Pow2(5);
  }

  /** Extending sets the implied flags and no others. */
  lemma ExtendUsageBits(usage: nat, b: nat)
    ensures HasFlag(ExtendUsage(usage), Pow2(b)) <==> HasFlag(usage, Pow2(b)) || Implied(usage, b)
  {
    FlagBits();
    var u := if HasFlag(usage, SIGN_HASH) then AddFlag(usage, SIGN_MESSAGE) else usage;
    HasFlagIsBit(usage, b);
    HasFlagIsBit(usage, 12);
    HasFlagIsBit(usage, 13);
    HasFlagIsBit(u, 13);
    HasFlagIsBit(ExtendUsage(usage), b);
    AddFlagBits(usage, 10, b);
    AddFlagBits(usage, 10, 13);
    AddFlagBits(u, 11, b);
    hide HasFlag, AddFlag, Pow2, Bit;
  }

  function ExtendAttributes(a: Attributes): Attributes {
    a.(policy := a.policy.(usage := ExtendUsage(a.policy.usage)))
  }

  datatype PsaStatus =
    | Success
    | InvalidArgument
    | InvalidHandle
    | DoesNotExist
    | AlreadyExists
    | NotPermitted
    | InsufficientMemory
    | InsufficientStorage
    | StorageFailure
    | DataInvalid
    | CorruptionDetected
}
