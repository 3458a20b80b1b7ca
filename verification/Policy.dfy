// Key usage policies: which algorithms a policy permits, the intersection of
// two policies, and what copying a key under a restricted policy can never add.
module Policy {
  import opened Bytes
  import opened Options
  import KeyTypes

  datatype Hash = NoHash | AnyHash | Hash(id: nat)

  /** Algorithm identifiers by the families that policies distinguish. Lengths
      occupy six bits; a truncated length of zero means the full MAC length. */
  datatype Algorithm =
    | NoAlgorithm
    | HashAndSign(family: nat, hash: Hash)
    | Aead(cipher: nat, tag: nat, atLeast: bool)
    | Mac(base: nat, truncated: nat, atLeast: bool)
    | KeyAgreement(agreement: nat, kdf: Option<nat>)
    | Jpake(pakeHash: Hash)
    | HashOnly(hash: Hash)
    | Other(id: nat)

  /** A key type as far as MACs are concerned: the base algorithms it can be
      used with and the full length each of them has with it. */
  datatype KeyType = KeyType(usable: nat -> bool, macLength: nat -> nat)

  ghost predicate IsKeyType(k: KeyType) {
    forall b {:trigger k.macLength(b)} :: k.usable(b) ==> 1 <= k.macLength(b) <= 64
  }

  predicate IsEncodable(alg: Algorithm) {
    && (alg.Aead? ==> alg.tag < 64)
    && (alg.Mac? ==> alg.truncated < 64)
  }

  /** PSA_ALG_IS_WILDCARD. */
  predicate IsWildcard(alg: Algorithm) {
    match alg
    case HashAndSign(_, hash) => hash.AnyHash?
    case Mac(_, _, atLeast) => atLeast
    case Aead(_, _, atLeast) => atLeast
    case HashOnly(hash) => hash.AnyHash?
    case _ => false
  }

  /** An algorithm that an operation may be requested with. */
  predicate IsSpecific(alg: Algorithm) {
    alg != NoAlgorithm && !IsWildcard(alg) && IsEncodable(alg)
  }

  /** PSA_MAC_LENGTH, for a usable key type. */
  function MacLength(k: KeyType, alg: Algorithm): nat
    requires alg.Mac?
  {
    if alg.truncated != 0 then alg.truncated else k.macLength(alg.base)
  }

  function Max(a: nat, b: nat): nat { if a > b then a else b }

  /** psa_key_policy_algorithm_intersection. */
  function Intersection(k: KeyType, a: Algorithm, b: Algorithm): Algorithm {
    if a == b then a
    else if a.HashAndSign? && b.HashAndSign? && a.family == b.family && a.hash == AnyHash then b
    else if a.HashAndSign? && b.HashAndSign? && a.family == b.family && b.hash == AnyHash then a
    else if a.Aead? && b.Aead? && a.cipher == b.cipher then AeadIntersection(a, b)
    else if a.Mac? && b.Mac? && a.base == b.base then MacIntersection(k, a, b)
    else NoAlgorithm
  }

  function AeadIntersection(a: Algorithm, b: Algorithm): Algorithm
    requires a.Aead? && b.Aead?
  {
    if a.atLeast && b.atLeast then Aead(a.cipher, Max(a.tag, b.tag) % 64, true)
    else if a.atLeast && a.tag <= b.tag then b
    else if b.atLeast && b.tag <= a.tag then a
    else NoAlgorithm
  }

  function MacIntersection(k: KeyType, a: Algorithm, b: Algorithm): Algorithm
    requires a.Mac? && b.Mac?
  {
    if !k.usable(a.base) then NoAlgorithm else
      var x, y := MacLength(k, a), MacLength(k, b);
      if a.atLeast && b.atLeast then Mac(a.base, Max(x, y) % 64, true)
      else if a.atLeast then if x <= y then b else NoAlgorithm
      else if b.atLeast then if y <= x then a else NoAlgorithm
      else if x == y then Mac(a.base, x % 64, false)
      else NoAlgorithm
  }

  /** psa_key_algorithm_permits. */
  predicate Permits(k: KeyType, policy: Algorithm, requested: Algorithm) {
    if requested == policy then true
    else if requested.HashAndSign? && policy.HashAndSign? && policy.hash == AnyHash then
      policy.family == requested.family
    else if policy.Aead? && requested.Aead? && policy.cipher == requested.cipher && policy.atLeast then
      policy.tag <= requested.tag
    else if policy.Mac? && requested.Mac? && policy.base == requested.base && !k.usable(policy.base) then
      false
    else if policy.Mac? && requested.Mac? && policy.base == requested.base && policy.truncated == 0 then
      MacLength(k, requested) == k.macLength(requested.base)
    else if policy.Mac? && requested.Mac? && policy.base == requested.base
            && requested.truncated == 0 && policy.truncated == k.macLength(requested.base) then
      true
    else if policy.Mac? && requested.Mac? && policy.base == requested.base && policy.atLeast then
      policy.truncated <= MacLength(k, requested)
    else if policy.KeyAgreement? && policy.kdf == None && requested.KeyAgreement? then
      policy.agreement == requested.agreement
    else
      policy == Jpake(NoHash) && requested.Jpake?
  }

  // --- What a policy means.

  /** The requests a policy is for: one algorithm, any hash of a signature
      algorithm, any tag or MAC from a length on, a key agreement with any
      derivation, J-PAKE with any hash. MAC lengths count as what they amount to
      for the key. */
  predicate IsFor(k: KeyType, policy: Algorithm, r: Algorithm) {
    match policy
    case HashAndSign(family, AnyHash) => r.HashAndSign? && r.family == family
    case Aead(cipher, tag, true) => r.Aead? && r.cipher == cipher && tag <= r.tag
    case Mac(base, _, atLeast) =>
      if !k.usable(base) then r == policy
      else r.Mac? && r.base == base
           && if atLeast then MacLength(k, policy) <= MacLength(k, r) else MacLength(k, policy) == MacLength(k, r)
    case KeyAgreement(agreement, None) => r.KeyAgreement? && r.agreement == agreement
    case Jpake(NoHash) => r.Jpake?
    case _ => r == policy
  }

  /** A policy permits exactly these, among the requests of a length that MACs can
      have with the key. */
  lemma PermitsMeaning(k: KeyType, policy: Algorithm, r: Algorithm)
    requires IsKeyType(k) && IsEncodable(policy) && IsSpecific(r) && WithinMac(k, r)
    ensures Permits(k, policy, r) <==> IsFor(k, policy, r)
  {
    if policy.Mac? {
      assert k.macLength(policy.base) >= 0;
    }
  }

  /** What is not a wildcard permits nothing but itself, in either encoding of its
      MAC length, apart from a raw key agreement and J-PAKE without a hash. */
  lemma SpecificPermits(k: KeyType, policy: Algorithm, r: Algorithm)
    requires IsKeyType(k) && IsSpecific(policy) && IsSpecific(r) && WithinMac(k, r)
    requires !(policy.KeyAgreement? && policy.kdf == None) && policy != Jpake(NoHash)
    ensures Permits(k, policy, r) <==>
            r == policy
            || (policy.Mac? && r.Mac? && r.base == policy.base && k.usable(r.base)
                && MacLength(k, r) == MacLength(k, policy))
  {
    PermitsMeaning(k, policy, r);
  }

  // --- Soundness: nothing is permitted that one side forbids.

  /** A MAC that has the requested length with this key type: others are refused
      by every MAC operation, whatever the policy says. */
  predicate WithinMac(k: KeyType, r: Algorithm) {
    r.Mac? && k.usable(r.base) ==> r.truncated <= k.macLength(r.base)
  }

  lemma MacSound(k: KeyType, a: Algorithm, b: Algorithm, r: Algorithm)
    requires IsKeyType(k) && IsEncodable(a) && IsEncodable(b) && IsSpecific(r) && WithinMac(k, r)
    requires a.Mac? && b.Mac? && a.base == b.base && a != b
    requires Permits(k, Intersection(k, a, b), r)
    ensures Permits(k, a, r) && Permits(k, b, r)
  {
    assert k.macLength(a.base) >= 0;
  }

  /** Whatever the two policies, the intersection permits no algorithm that one
      of them forbids. */
  lemma IntersectionSound(k: KeyType, a: Algorithm, b: Algorithm, r: Algorithm)
    requires IsKeyType(k) && IsEncodable(a) && IsEncodable(b) && IsSpecific(r) && WithinMac(k, r)
    requires Permits(k, Intersection(k, a, b), r)
    ensures Permits(k, a, r) && Permits(k, b, r)
  {
    if a.Mac? && b.Mac? && a.base == b.base && a != b {
      MacSound(k, a, b, r);
    }
  }

  /** The same for requests of any length that can be encoded. */
  ghost predicate SoundForAll(k: KeyType, a: Algorithm, b: Algorithm) {
    forall r :: IsSpecific(r) && Permits(k, Intersection(k, a, b), r) ==> Permits(k, a, r) && Permits(k, b, r)
  }

  /** One policy asks for at least the full MAC, which permits exactly the full
      length; the other leaves room for lengths beyond the full one. */
  predicate LeavesRoom(k: KeyType, a: Algorithm, b: Algorithm) {
    && a.Mac? && b.Mac? && a.base == b.base && a != b && k.usable(a.base)
    && a.truncated == 0 && a.atLeast
    && (b.truncated > k.macLength(a.base) || (b.atLeast && k.macLength(a.base) < 63))
  }

  /** A request that the intersection permits and policy `a` forbids. */
  function TooLong(k: KeyType, a: Algorithm, b: Algorithm): (r: Algorithm)
    requires LeavesRoom(k, a, b)
  {
    Mac(a.base, if b.truncated > k.macLength(a.base) then b.truncated else k.macLength(a.base) + 1, false)
  }

  lemma TooLongEscapes(k: KeyType, a: Algorithm, b: Algorithm)
    requires IsKeyType(k) && IsEncodable(a) && IsEncodable(b) && LeavesRoom(k, a, b)
    ensures var r := TooLong(k, a, b);
            IsSpecific(r) && Permits(k, Intersection(k, a, b), r) && !Permits(k, a, r)
    ensures Permits(k, Intersection(k, b, a), TooLong(k, a, b))
  {
    assert k.macLength(a.base) >= 0;
  }

  lemma MacSoundForAll(k: KeyType, a: Algorithm, b: Algorithm, r: Algorithm)
    requires IsKeyType(k) && IsEncodable(a) && IsEncodable(b) && IsSpecific(r)
    requires a.Mac? && b.Mac? && a.base == b.base && a != b
    requires !LeavesRoom(k, a, b) && !LeavesRoom(k, b, a)
    requires Permits(k, Intersection(k, a, b), r)
    ensures Permits(k, a, r) && Permits(k, b, r)
  {
    assert k.macLength(a.base) >= 0;
  }

  /** With over-long MAC requests counted too, exactly these pairs let one
      through that a policy forbids. */
  lemma IntersectionSoundForAll(k: KeyType, a: Algorithm, b: Algorithm)
    requires IsKeyType(k) && IsEncodable(a) && IsEncodable(b)
    ensures SoundForAll(k, a, b) <==> !LeavesRoom(k, a, b) && !LeavesRoom(k, b, a)
  {
    if LeavesRoom(k, a, b) {
      TooLongEscapes(k, a, b);
    } else if LeavesRoom(k, b, a) {
      TooLongEscapes(k, b, a);
    } else {
      forall r | IsSpecific(r) && Permits(k, Intersection(k, a, b), r)
        ensures Permits(k, a, r) && Permits(k, b, r)
      {
        if a.Mac? && b.Mac? && a.base == b.base && a != b {
          MacSoundForAll(k, a, b, r);
        }
      }
    }
  }

  // --- Completeness: nothing is lost that both sides permit.

  ghost predicate Complete(k: KeyType, a: Algorithm, b: Algorithm) {
    forall r :: IsSpecific(r) && Permits(k, a, r) && Permits(k, b, r) ==> Permits(k, Intersection(k, a, b), r)
  }

  /** A generic policy beside a specific one that it permits by an exception the
      intersection does not know: a key agreement, or J-PAKE without a hash. */
  predicate IsUnknownException(a: Algorithm, b: Algorithm) {
    || (a.KeyAgreement? && a.kdf == None && b.KeyAgreement? && b.kdf != None && a.agreement == b.agreement)
    || (a == Jpake(NoHash) && b.Jpake? && a != b)
  }

  lemma MacComplete(k: KeyType, a: Algorithm, b: Algorithm, r: Algorithm)
    requires IsKeyType(k) && IsEncodable(a) && IsEncodable(b) && IsSpecific(r)
    requires a.Mac? && b.Mac? && a != b
    requires Permits(k, a, r) && Permits(k, b, r)
    ensures Permits(k, Intersection(k, a, b), r)
  {
    assert k.macLength(r.base) >= 0;
  }

  /** For every pair of policies but those two exceptions the intersection
      permits every algorithm that both permit. */
  lemma IntersectionComplete(k: KeyType, a: Algorithm, b: Algorithm)
    requires IsKeyType(k) && IsEncodable(a) && IsEncodable(b)
    ensures Complete(k, a, b) <==> !IsUnknownException(a, b) && !IsUnknownException(b, a)
  {
    if IsUnknownException(a, b) {
      assert IsSpecific(b) && Permits(k, a, b) && Permits(k, b, b) && !Permits(k, Intersection(k, a, b), b);
    } else if IsUnknownException(b, a) {
      assert IsSpecific(a) && Permits(k, a, a) && Permits(k, b, a) && !Permits(k, Intersection(k, a, b), a);
    } else {
      forall r | IsSpecific(r) && Permits(k, a, r) && Permits(k, b, r)
        ensures Permits(k, Intersection(k, a, b), r)
      {
        if a.Mac? && b.Mac? && a != b {
          MacComplete(k, a, b, r);
        }
      }
    }
  }

  lemma IntersectionCommutative(k: KeyType, a: Algorithm, b: Algorithm)
    ensures Intersection(k, a, b) == Intersection(k, b, a)
  {
  }

  /** Lengths stay within their field. */
  lemma IntersectionEncodable(k: KeyType, a: Algorithm, b: Algorithm)
    requires IsEncodable(a) && IsEncodable(b)
    ensures IsEncodable(Intersection(k, a, b))
  {
  }

  // --- Whole policies.

  datatype Flag =
    | Export
    | Copy
    | DerivePublic
    | Encrypt
    | Decrypt
    | SignMessage
    | VerifyMessage
    | SignHash
    | VerifyHash
    | Derive
    | VerifyDerivation

  /** The bit of a flag in psa_key_usage_t. */
  function FlagBit(f: Flag): nat {
    match f
    case Export => 0
    case Copy => 1
    case DerivePublic => 7
    case Encrypt => 8
    case Decrypt => 9
    case SignMessage => 10
    case VerifyMessage => 11
    case SignHash => 12
    case VerifyHash => 13
    case Derive => 14
    case VerifyDerivation => 15
  }

  const ALL_FLAGS: set<Flag> :=
    {Export, Copy, DerivePublic, Encrypt, Decrypt, SignMessage, VerifyMessage, SignHash, VerifyHash, Derive, VerifyDerivation}

  /** The flags in a usage as it is stored with a key. */
  function FlagsOf(usage: nat): set<Flag> {
    set f | f in ALL_FLAGS && KeyTypes.HasFlag(usage, Pow2(FlagBit(f)))
  }

  datatype KeyPolicy = KeyPolicy(usage: set<Flag>, alg: Algorithm, alg2: Algorithm)

  datatype Status = Success | InvalidArgument | NotPermitted

  predicate IsPolicy(p: KeyPolicy) {
    IsEncodable(p.alg) && IsEncodable(p.alg2)
  }

  /** psa_key_policy_permits. */
  function PolicyPermits(k: KeyType, p: KeyPolicy, alg: Algorithm): Status {
    if alg == NoAlgorithm || IsWildcard(alg) then InvalidArgument
    else if Permits(k, p.alg, alg) || Permits(k, p.alg2, alg) then Success
    else NotPermitted
  }

  /** psa_extend_key_usage_flags: permission to handle hashes includes
      permission to handle messages. */
  function Extended(usage: set<Flag>): set<Flag> {
    usage + (if SignHash in usage then {SignMessage} else {}) + (if VerifyHash in usage then {VerifyMessage} else {})
  }

  /** The flags that reloading a stored key adds are these. */
  lemma ExtendedFlags(usage: nat)
    ensures Extended(FlagsOf(usage)) == FlagsOf(KeyTypes.ExtendUsage(usage))
  {
    KeyTypes.FlagBits();
    forall f: Flag
      ensures f in Extended(FlagsOf(usage)) <==> f in FlagsOf(KeyTypes.ExtendUsage(usage))
    {
      KeyTypes.ExtendUsageBits(usage, FlagBit(f));
      assert f in ALL_FLAGS && SignHash in ALL_FLAGS && VerifyHash in ALL_FLAGS;
      hide KeyTypes.HasFlag, KeyTypes.ExtendUsage, Pow2;
    }
  }

  predicate Incompatible(k: KeyType, p: Algorithm, q: Algorithm) {
    Intersection(k, p, q) == NoAlgorithm && p != NoAlgorithm && q != NoAlgorithm
  }

  /** psa_restrict_key_policy: the policy is replaced only on success. */
  method RestrictKeyPolicy(k: KeyType, policy: KeyPolicy, constraint: KeyPolicy)
      returns (status: Status, restricted: KeyPolicy)
    ensures status == if Incompatible(k, policy.alg, constraint.alg) || Incompatible(k, policy.alg2, constraint.alg2)
                      then InvalidArgument else Success
    ensures status != Success ==> restricted == policy
    ensures status == Success ==> restricted == Restricted(k, policy, constraint)
  {
    restricted := policy;
    var alg := Intersection(k, policy.alg, constraint.alg);
    var alg2 := Intersection(k, policy.alg2, constraint.alg2);
    if alg == NoAlgorithm && policy.alg != NoAlgorithm && constraint.alg != NoAlgorithm {
      return InvalidArgument, restricted;
    }
    if alg2 == NoAlgorithm && policy.alg2 != NoAlgorithm && constraint.alg2 != NoAlgorithm {
      return InvalidArgument, restricted;
    }
    restricted := restricted.(usage := restricted.usage * constraint.usage);
    restricted := restricted.(alg := alg);
    restricted := restricted.(alg2 := alg2);
    status := Success;
  }

  function Restricted(k: KeyType, policy: KeyPolicy, constraint: KeyPolicy): KeyPolicy {
    KeyPolicy(policy.usage * constraint.usage,
              Intersection(k, policy.alg, constraint.alg), Intersection(k, policy.alg2, constraint.alg2))
  }

  /** One policy allows no use, with no algorithm, that the other one forbids. */
  ghost predicate AtMost(k: KeyType, p: KeyPolicy, q: KeyPolicy) {
    && Extended(p.usage) <= Extended(q.usage)
    && forall r :: IsEncodable(r) && WithinMac(k, r) && PolicyPermits(k, p, r) == Success
        ==> PolicyPermits(k, q, r) == Success
  }

  /** A restricted policy allows at most what either of its origins allows. */
  lemma RestrictedAtMost(k: KeyType, p: KeyPolicy, q: KeyPolicy)
    requires IsKeyType(k) && IsPolicy(p) && IsPolicy(q)
    ensures IsPolicy(Restricted(k, p, q))
    ensures AtMost(k, Restricted(k, p, q), p) && AtMost(k, Restricted(k, p, q), q)
  {
    IntersectionEncodable(k, p.alg, q.alg);
    IntersectionEncodable(k, p.alg2, q.alg2);
    forall r | IsEncodable(r) && WithinMac(k, r) && PolicyPermits(k, Restricted(k, p, q), r) == Success
      ensures PolicyPermits(k, p, r) == Success && PolicyPermits(k, q, r) == Success
    {
      if Permits(k, Intersection(k, p.alg, q.alg), r) {
        IntersectionSound(k, p.alg, q.alg, r);
      } else {
        IntersectionSound(k, p.alg2, q.alg2, r);
      }
    }
  }

  /** It keeps every flag that both have and, but for the exceptions that the
      intersection does not know, every algorithm that both permit in the same
      place. */
  lemma RestrictedExactly(k: KeyType, p: KeyPolicy, q: KeyPolicy)
    requires IsKeyType(k) && IsPolicy(p) && IsPolicy(q)
    ensures forall f :: f in Restricted(k, p, q).usage <==> f in p.usage && f in q.usage
    ensures forall r :: IsSpecific(r) && WithinMac(k, r) && PolicyPermits(k, Restricted(k, p, q), r) == Success
              ==> (Permits(k, p.alg, r) && Permits(k, q.alg, r)) || (Permits(k, p.alg2, r) && Permits(k, q.alg2, r))
    ensures !IsUnknownException(p.alg, q.alg) && !IsUnknownException(q.alg, p.alg)
            && !IsUnknownException(p.alg2, q.alg2) && !IsUnknownException(q.alg2, p.alg2) ==>
              forall r :: IsSpecific(r)
                && ((Permits(k, p.alg, r) && Permits(k, q.alg, r)) || (Permits(k, p.alg2, r) && Permits(k, q.alg2, r)))
                ==> PolicyPermits(k, Restricted(k, p, q), r) == Success
  {
    forall r | IsSpecific(r) && WithinMac(k, r) && PolicyPermits(k, Restricted(k, p, q), r) == Success
      ensures (Permits(k, p.alg, r) && Permits(k, q.alg, r)) || (Permits(k, p.alg2, r) && Permits(k, q.alg2, r))
    {
      if Permits(k, Intersection(k, p.alg, q.alg), r) {
        IntersectionSound(k, p.alg, q.alg, r);
      } else {
        IntersectionSound(k, p.alg2, q.alg2, r);
      }
    }
    IntersectionComplete(k, p.alg, q.alg);
    IntersectionComplete(k, p.alg2, q.alg2);
    hide Permits, Intersection, IsUnknownException, WithinMac;
  }

  // --- Chains of copies.

  /** One psa_copy_key: the requested policy, and whether the copy has since been
      evicted and loaded again, which extends its usage flags. */
  datatype CopyStep = CopyStep(requested: KeyPolicy, reloaded: bool)

  function AfterCopy(k: KeyType, source: KeyPolicy, step: CopyStep): KeyPolicy {
    var p := Restricted(k, step.requested, source);
    if step.reloaded then p.(usage := Extended(p.usage)) else p
  }

  function AfterCopies(k: KeyType, original: KeyPolicy, steps: seq<CopyStep>): KeyPolicy {
    if steps == [] then original else
      AfterCopy(k, AfterCopies(k, original, steps[..|steps| - 1]), steps[|steps| - 1])
  }

  lemma CopyAtMost(k: KeyType, source: KeyPolicy, step: CopyStep)
    requires IsKeyType(k) && IsPolicy(source) && IsPolicy(step.requested)
    ensures IsPolicy(AfterCopy(k, source, step))
    ensures AtMost(k, AfterCopy(k, source, step), source) && AtMost(k, AfterCopy(k, source, step), step.requested)
  {
    RestrictedAtMost(k, step.requested, source);
    var p := Restricted(k, step.requested, source);
    assert Extended(Extended(p.usage)) == Extended(p.usage);
  }

  lemma AtMostTransitive(k: KeyType, p: KeyPolicy, q: KeyPolicy, r: KeyPolicy)
    requires AtMost(k, p, q) && AtMost(k, q, r)
    ensures AtMost(k, p, r)
  {
  }

  lemma AtMostReflexive(k: KeyType, p: KeyPolicy)
    ensures AtMost(k, p, p)
  {
  }

  /** However often a key is copied, the last copy allows no more than the
      original, nor than any policy requested on the way. */
  lemma {:induction false} CopiesNeverGain(k: KeyType, original: KeyPolicy, steps: seq<CopyStep>)
    requires IsKeyType(k) && IsPolicy(original)
    requires forall i :: 0 <= i < |steps| ==> IsPolicy(steps[i].requested)
    ensures IsPolicy(AfterCopies(k, original, steps))
    ensures AtMost(k, AfterCopies(k, original, steps), original)
    ensures forall i :: 0 <= i < |steps| ==> AtMost(k, AfterCopies(k, original, steps), steps[i].requested)
  {
    hide AtMost, AfterCopy, IsPolicy;
    if steps == [] {
      AtMostReflexive(k, original);
    } else {
      var before, end := steps[..|steps| - 1], AfterCopies(k, original, steps);
      var source := AfterCopies(k, original, before);
      CopiesNeverGain(k, original, before);
      CopyAtMost(k, source, steps[|steps| - 1]);
      AtMostTransitive(k, end, source, original);
      forall i | 0 <= i < |before|
        ensures AtMost(k, end, steps[i].requested)
      {
        assert before[i] == steps[i];
        AtMostTransitive(k, end, source, before[i].requested);
      }
    }
  }
}
