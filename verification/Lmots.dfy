// The LM-OTS contexts and their operations, in the order extras/lmots.c
// performs them, each proved against the functions of LmotsSpec.
module Lmots {
  import opened Bytes
  import opened Hashing
  import opened Options
  import opened LmotsSpec

  /** The 16-bit checksum of a digest, computed in a wider accumulator and
      truncated by the return type. */
  method ChecksumCalculate(digest: seq<byte>) returns (sum: nat)
    ensures sum == Checksum(digest) % 0x1_0000
    ensures DIGIT_MAX_VALUE * |digest| < 0x1_0000 ==> sum == Checksum(digest)
  {
    sum := 0;
    var idx := 0;
    while idx < |digest|
      invariant 0 <= idx <= |digest|
      invariant sum == Checksum(digest[..idx])
    {
      assert digest[..idx + 1][..idx] == digest[..idx];
      sum := sum + (DIGIT_MAX_VALUE - digest[idx]);
      idx := idx + 1;
    }
    assert digest[..idx] == digest;
    ChecksumBound(digest);
    sum := sum % 0x1_0000;
  }

  method CreateDigitArrayWithChecksum(h: HashFunction, reliable: bool, p: LmotsParameters,
                                      msg: seq<byte>, C: Digest)
      returns (status: LmsStatus, out: seq<byte>)
    ensures status == Success || status == HardwareFailure
    ensures reliable ==> status == Success
    ensures status == Success ==> out == MessageDigits(h, p, C, msg)
  {
    var digest;
    status, digest := HashParts(h, reliable, p.I + p.q + D_MESSAGE + C + msg);
    out := [];
    if status != Success {
      return;
    }
    var checksum := ChecksumCalculate(digest);
    out := digest + PutBe(checksum, 2);
  }

  /** Advances every chain between its bounds. The status keeps its initial
      CorruptionDetected exactly when no chain is advanced. */
  method HashDigitArray(h: HashFunction, reliable: bool, p: LmotsParameters, x: seq<byte>,
                        mins: Option<seq<byte>>, maxs: Option<seq<byte>>, output: array<byte>)
      returns (status: LmsStatus)
    requires |x| == P_DIGITS * N_HASH_LEN == output.Length
    requires Covers(mins, P_DIGITS) && Covers(maxs, P_DIGITS)
    modifies output
    ensures status == Success || status == HardwareFailure || status == CorruptionDetected
    ensures reliable ==> status != HardwareFailure
    ensures status == CorruptionDetected ==> !Advances(mins, maxs, DigitCount(p.otstype))
    ensures status == Success ==> Advances(mins, maxs, DigitCount(p.otstype))
    ensures status == Success && p.otstype == LMOTS_SHA256_N32_W8
        ==> output[..] == HashedDigits(h, p, x, mins, maxs, P_DIGITS)
  {
    status := CorruptionDetected;
    var i := 0;
    while i < DigitCount(p.otstype)
      invariant 0 <= i <= DigitCount(p.otstype)
      invariant status == Success || status == CorruptionDetected
      invariant status == Success <==> Advances(mins, maxs, i)
      invariant output[..i * N_HASH_LEN] == HashedDigits(h, p, x, mins, maxs, i)
    {
      ghost var before := output[..i * N_HASH_LEN];
      var start := Block(x, i);
      var tmp := start;
      var jMin, jMax := Lower(mins, i), Upper(maxs, i);
      var j := jMin;
      while j < jMax
        invariant jMin <= j && (jMin <= jMax ==> j <= jMax) && (jMax < jMin ==> j == jMin)
        invariant status == Success || status == CorruptionDetected
        invariant status == Success <==> Advances(mins, maxs, i) || jMin < j
        invariant tmp == Chain(h, p, i, jMin, j, start)
        invariant output[..i * N_HASH_LEN] == before
      {
        ChainCompose(h, p, i, jMin, j, j + 1, start);
        status, tmp := HashParts(h, reliable, p.I + p.q + PutBe(i, 2) + PutBe(j, 1) + tmp);
        if status != Success {
          return;
        }
        j := j + 1;
      }
      assert tmp == Chain(h, p, i, jMin, jMax, start);
      CopyBytes(output, i * N_HASH_LEN, tmp);
      assert output[..(i + 1) * N_HASH_LEN] == before + tmp;
      i := i + 1;
    }
  }

  method PublicKeyFromHashedDigitArray(h: HashFunction, reliable: bool, p: LmotsParameters, y: seq<byte>)
      returns (status: LmsStatus, key: Digest)
    ensures status == Success || status == HardwareFailure
    ensures reliable ==> status == Success
    ensures status == Success ==> key == KeyFromDigits(h, p, y)
  {
    status, key := HashParts(h, reliable, p.I + p.q + D_PUBLIC + y);
  }

  /** mbedtls_lmots_calculate_public_key_candidate. Its hashing of the digit
      array cannot end on the initial error, whatever the message. */
  method CalculatePublicKeyCandidate(h: HashFunction, reliable: bool, p: LmotsParameters,
                                     msg: seq<byte>, sig: seq<byte>, outSize: nat)
      returns (status: LmsStatus, key: Digest)
    requires p.otstype == LMOTS_SHA256_N32_W8
    ensures status == BadInputData <==> |sig| != SigLen(p.otstype) || outSize < HashLen(p.otstype)
    ensures status == Success || status == BadInputData || status == HardwareFailure
    ensures reliable ==> status != HardwareFailure
    ensures status == Success ==> key == OtsCandidate(h, p, msg, sig)
  {
    key := Zeros(N_HASH_LEN);
    if |sig| != SigLen(p.otstype) || outSize < HashLen(p.otstype) {
      return BadInputData, key;
    }
    var C: Digest := sig[TYPE_LEN..TYPE_LEN + N_HASH_LEN];
    var digits;
    status, digits := CreateDigitArrayWithChecksum(h, reliable, p, msg, C);
    if status != Success {
      return;
    }
    var y := new byte[P_DIGITS * N_HASH_LEN];
    status := HashDigitArray(h, reliable, p, sig[TYPE_LEN + N_HASH_LEN..], Some(digits), None, y);
    VerifyingAdvances(h(OtsInput(p, MessageUse(C, msg))));
    if status != Success {
      return;
    }
    status, key := PublicKeyFromHashedDigitArray(h, reliable, p, y[..]);
  }

  /** mbedtls_lmots_private_t */
  class LmotsPrivate {
    var params: LmotsParameters
    var privateKey: seq<byte>
    var havePrivateKey: bool

    ghost predicate Valid()
      reads this
    {
      && |privateKey| == P_DIGITS * N_HASH_LEN
      && (havePrivateKey ==> params.otstype == LMOTS_SHA256_N32_W8)
    }

    /** mbedtls_lmots_private_init: an all-zero context. */
    constructor ()
      ensures Valid() && !havePrivateKey
    {
      params := LmotsParameters(Zeros(I_KEY_ID_LEN), Zeros(Q_LEAF_ID_LEN), 0);
      privateKey := Zeros(P_DIGITS * N_HASH_LEN);
      havePrivateKey := false;
    }

    /** mbedtls_lmots_generate_private_key. A failure part of the way leaves
        the context without a usable key. */
    method GeneratePrivateKey(h: HashFunction, reliable: bool, otstype: nat, I: seq<byte>, q: nat, seed: seq<byte>)
        returns (status: LmsStatus)
      requires Valid()
      modifies this
      ensures Valid()
      ensures status == BadInputData <==> old(havePrivateKey) || otstype != LMOTS_SHA256_N32_W8
      ensures status == BadInputData ==> unchanged(this)
      ensures status == Success || status == BadInputData || status == HardwareFailure
      ensures reliable ==> status != HardwareFailure
      ensures status == HardwareFailure ==> !havePrivateKey
      ensures status == Success ==>
                && havePrivateKey
                && params == LmotsParameters(I, PutBe(q, Q_LEAF_ID_LEN), otstype)
                && privateKey == SecretKey(h, params, seed, P_DIGITS)
    {
      if havePrivateKey || otstype != LMOTS_SHA256_N32_W8 {
        return BadInputData;
      }
      params := LmotsParameters(I, PutBe(q, Q_LEAF_ID_LEN), otstype);
      status := Success;
      var i := 0;
      while i < DigitCount(params.otstype)
        invariant 0 <= i <= P_DIGITS && Valid() && !havePrivateKey && status == Success
        invariant params == LmotsParameters(I, PutBe(q, Q_LEAF_ID_LEN), otstype)
        invariant privateKey[..i * N_HASH_LEN] == SecretKey(h, params, seed, i)
      {
        var x;
        status, x := HashParts(h, reliable, params.I + params.q + PutBe(i, 2) + [0xFF] + seed);
        if status != Success {
          return;
        }
        ghost var done := privateKey[..i * N_HASH_LEN];
        privateKey := privateKey[..i * N_HASH_LEN] + x + privateKey[(i + 1) * N_HASH_LEN..];
        assert privateKey[..(i + 1) * N_HASH_LEN] == done + x;
        i := i + 1;
      }
      assert privateKey[..P_DIGITS * N_HASH_LEN] == privateKey;
      havePrivateKey := true;
    }

    /** mbedtls_lmots_sign, writing into sig from `offset`, where `size` bytes
        are available. On success the key is gone; on failure neither the key
        nor the output buffer has changed. */
    method Sign(h: HashFunction, reliable: bool, random: Option<Digest>, msg: seq<byte>,
                sig: array<byte>, offset: nat, size: nat)
        returns (status: LmsStatus)
      requires Valid()
      requires offset + size <= sig.Length
      modifies this, sig
      ensures Valid() && params == old(params)
      ensures status == BufferTooSmall <==> size < SigLen(params.otstype)
      ensures status == BadInputData <==> SigLen(params.otstype) <= size && !old(havePrivateKey)
      ensures status in {Success, BufferTooSmall, BadInputData, HardwareFailure}
      ensures reliable && random.Some? ==> status != HardwareFailure
      ensures random.None? ==> status != Success
      ensures status != Success ==> unchanged(this) && sig[..] == old(sig[..])
      ensures status == Success ==>
                && old(havePrivateKey) && !havePrivateKey
                && privateKey == Zeros(P_DIGITS * N_HASH_LEN)
                && offset + SigLen(LMOTS_SHA256_N32_W8) <= sig.Length
                && sig[..] == old(sig[..offset])
                              + OtsSignature(h, params, old(privateKey), random.value, msg)
                              + old(sig[offset + SigLen(LMOTS_SHA256_N32_W8)..])
    {
      if size < SigLen(params.otstype) {
        return BufferTooSmall;
      }
      if !havePrivateKey {
        return BadInputData;
      }
      if random.None? {
        return HardwareFailure;
      }
      var C := random.value;
      var digits;
      status, digits := CreateDigitArrayWithChecksum(h, reliable, params, msg, C);
      if status != Success {
        return;
      }
      var tmpSig := new byte[P_DIGITS * N_HASH_LEN];
      status := HashDigitArray(h, reliable, params, privateKey, None, Some(digits), tmpSig);
      SigningAdvances(h(OtsInput(params, MessageUse(C, msg))));
      if status != Success {
        return;
      }
      ghost var sk, s0 := privateKey, sig[..];
      var typeBytes := PutBe(params.otstype, TYPE_LEN);
      CopyBytes(sig, offset, typeBytes);
      ghost var s1 := sig[..];
      havePrivateKey := false;
      privateKey := Zeros(P_DIGITS * N_HASH_LEN);
      CopyBytes(sig, offset + TYPE_LEN, C);
      ghost var s2 := sig[..];
      CopyBytes(sig, offset + TYPE_LEN + N_HASH_LEN, tmpSig[..]);
      SpliceThree(s0, s1, s2, sig[..], offset, typeBytes, C, tmpSig[..]);
      assert typeBytes + C + tmpSig[..] == OtsSignature(h, params, sk, C, msg);
      return Success;
    }
  }

  /** mbedtls_lmots_public_t */
  class LmotsPublic {
    var params: LmotsParameters
    var publicKey: Digest
    var havePublicKey: bool

    /** mbedtls_lmots_public_init */
    constructor ()
      ensures !havePublicKey
    {
      params := LmotsParameters(Zeros(I_KEY_ID_LEN), Zeros(Q_LEAF_ID_LEN), 0);
      publicKey := Zeros(N_HASH_LEN);
      havePublicKey := false;
    }

    /** mbedtls_lmots_calculate_public_key. The last hash is computed straight
        into the context, so if it fails the stored bytes may be gone, although
        the flag and the parameters stay. */
    method CalculatePublicKey(h: HashFunction, reliable: bool, priv: LmotsPrivate) returns (status: LmsStatus)
      requires priv.Valid()
      modifies this
      ensures status == BadInputData <==> !priv.havePrivateKey
      ensures status == Success || status == BadInputData || status == HardwareFailure
      ensures reliable ==> status != HardwareFailure
      ensures status == Success ==>
                && havePublicKey && params == priv.params
                && publicKey == OtsPublicKey(h, priv.params, priv.privateKey)
      ensures status == BadInputData ==> unchanged(this)
      ensures status == HardwareFailure ==> havePublicKey == old(havePublicKey) && params == old(params)
    {
      if !priv.havePrivateKey {
        return BadInputData;
      }
      var y := new byte[P_DIGITS * N_HASH_LEN];
      status := HashDigitArray(h, reliable, priv.params, priv.privateKey, None, None, y);
      assert Advances(None, None, P_DIGITS) by { assert Lower(None, 0) < Upper(None, 0); }
      if status != Success {
        return;
      }
      var key;
      status, key := PublicKeyFromHashedDigitArray(h, reliable, priv.params, y[..]);
      publicKey := key;
      if status != Success {
        return;
      }
      params := priv.params;
      havePublicKey := true;
    }

    /** mbedtls_lmots_verify: accepts exactly the signatures whose candidate
        key is the stored one. */
    method Verify(h: HashFunction, reliable: bool, msg: seq<byte>, sig: seq<byte>) returns (status: LmsStatus)
      ensures status == BadInputData <==> !havePublicKey || params.otstype != LMOTS_SHA256_N32_W8
      ensures status in {Success, BadInputData, VerifyFailed}
      ensures status == Success ==> OtsAccepts(h, params, publicKey, msg, sig)
      ensures reliable && status == VerifyFailed ==> !OtsAccepts(h, params, publicKey, msg, sig)
    {
      if !havePublicKey {
        return BadInputData;
      }
      if params.otstype != LMOTS_SHA256_N32_W8 {
        return BadInputData;
      }
      if |sig| < TYPE_LEN {
        return VerifyFailed;
      }
      if GetBe(sig[..TYPE_LEN]) != LMOTS_SHA256_N32_W8 {
        return VerifyFailed;
      }
      var candidate;
      status, candidate := CalculatePublicKeyCandidate(h, reliable, params, msg, sig, HashLen(params.otstype));
      if status != Success {
        return VerifyFailed;
      }
      if candidate != publicKey {
        return VerifyFailed;
      }
      return Success;
    }
  }

  /** What it takes for a signature to be accepted under a public key. */
  ghost predicate OtsAccepts(h: HashFunction, p: LmotsParameters, key: Digest, msg: seq<byte>, sig: seq<byte>) {
    && |sig| == SigLen(LMOTS_SHA256_N32_W8)
    && GetBe(sig[..TYPE_LEN]) == LMOTS_SHA256_N32_W8
    && OtsCandidate(h, p, msg, sig) == key
  }

  /** End to end: what Sign writes, Verify accepts under the key that
      CalculatePublicKey computed before signing. */
  lemma OtsSignatureAccepted(h: HashFunction, p: LmotsParameters, sk: seq<byte>, C: Digest, msg: seq<byte>)
    requires |sk| == P_DIGITS * N_HASH_LEN && p.otstype == LMOTS_SHA256_N32_W8
    ensures OtsAccepts(h, p, OtsPublicKey(h, p, sk), msg, OtsSignature(h, p, sk, C, msg))
  {
    OtsCorrect(h, p, sk, C, msg);
    assert OtsSignature(h, p, sk, C, msg)[..TYPE_LEN] == PutBe(p.otstype, TYPE_LEN);
    assert p.otstype < Pow256(TYPE_LEN) by { assert Pow256(TYPE_LEN) == 256 * Pow256(3); }
    GetPutBe(p.otstype, TYPE_LEN);
  }
}
