// LM-OTS (RFC 8554 section 4) as functions of an arbitrary hash function:
// digit strings with their checksum, Winternitz chains, keys and signatures.
module LmotsSpec {
  import opened Bytes
  import opened Hashing
  import opened Options

  const LMOTS_SHA256_N32_W8: nat := 4
  const DIGIT_MAX_VALUE: nat := 255
  const I_KEY_ID_LEN: nat := 16
  const Q_LEAF_ID_LEN: nat := 4
  const TYPE_LEN: nat := 4
  const P_DIGITS: nat := 34

  const D_PUBLIC: seq<byte> := [0x80, 0x80]
  const D_MESSAGE: seq<byte> := [0x81, 0x81]

  datatype LmotsParameters = LmotsParameters(I: seq<byte>, q: seq<byte>, otstype: nat)

  /** MBEDTLS_LMOTS_N_HASH_LEN */
  function HashLen(otstype: nat): nat {
    if otstype == LMOTS_SHA256_N32_W8 then N_HASH_LEN else 0
  }

  /** MBEDTLS_LMOTS_P_SIG_DIGIT_COUNT */
  function DigitCount(otstype: nat): nat {
    if otstype == LMOTS_SHA256_N32_W8 then P_DIGITS else 0
  }

  /** MBEDTLS_LMOTS_SIG_LEN */
  function SigLen(otstype: nat): nat {
    TYPE_LEN + HashLen(otstype) + DigitCount(otstype) * N_HASH_LEN
  }

  // ---------------------------------------------------------------- digits

  /** The sum of DIGIT_MAX_VALUE - d over the digits d, before any truncation. */
  function Checksum(digest: seq<byte>): nat {
    if digest == [] then 0
    else Checksum(digest[..|digest| - 1]) + (DIGIT_MAX_VALUE - digest[|digest| - 1])
  }

  /** Q || Cksm(Q) */
  function DigitString(digest: seq<byte>): (s: seq<byte>)
    ensures |s| == |digest| + 2
  {
    digest + PutBe(Checksum(digest), 2)
  }

  lemma {:induction false} ChecksumBound(digest: seq<byte>)
    ensures Checksum(digest) <= DIGIT_MAX_VALUE * |digest|
    ensures Checksum(digest) == 0 <==> forall i :: 0 <= i < |digest| ==> digest[i] == 255
    ensures Checksum(digest) == DIGIT_MAX_VALUE * |digest| <==> forall i :: 0 <= i < |digest| ==> digest[i] == 0
  {
    if digest != [] {
      var d' := digest[..|digest| - 1];
      ChecksumBound(d');
      assert forall i :: 0 <= i < |d'| ==> d'[i] == digest[i];
    }
  }

  /** Raising digits lowers the checksum. */
  lemma {:induction false} ChecksumAntitone(a: seq<byte>, b: seq<byte>)
    requires |a| == |b|
    requires forall i :: 0 <= i < |a| ==> a[i] >= b[i]
    ensures Checksum(a) <= Checksum(b)
    ensures a != b ==> Checksum(a) < Checksum(b)
  {
    if a != [] {
      var a', b' := a[..|a| - 1], b[..|b| - 1];
      ChecksumAntitone(a', b');
      assert a == a' + [a[|a| - 1]] && b == b' + [b[|b| - 1]];
    }
  }

  lemma TwoBytes(x: nat)
    requires x < 0x1_0000
    ensures PutBe(x, 2) == [x / 256, x % 256]
  {
    assert PutBe(x / 256, 1) == [x / 256];
  }

  /** The checksum is there so that no digit string dominates another: an
      attacker who only advances chains cannot reach a second digest. */
  lemma NonDomination(a: seq<byte>, b: seq<byte>)
    requires |a| == |b| && a != b
    requires DIGIT_MAX_VALUE * |a| < 0x1_0000
    ensures exists i :: 0 <= i < |a| + 2 && DigitString(a)[i] < DigitString(b)[i]
  {
    hide Checksum;
    if forall i :: 0 <= i < |a| ==> a[i] >= b[i] {
      ChecksumAntitone(a, b);
      ChecksumBound(a);
      ChecksumBound(b);
      var n := |a|;
      var x, y := Checksum(a), Checksum(b);
      TwoBytes(x);
      TwoBytes(y);
      hide PutBe;
      if x / 256 < y / 256 {
        assert DigitString(a)[n] < DigitString(b)[n];
      } else {
        assert DigitString(a)[n + 1] < DigitString(b)[n + 1];
      }
    } else {
      var i :| 0 <= i < |a| && a[i] < b[i];
      assert DigitString(a)[i] < DigitString(b)[i];
    }
  }

  /** Signing advances at least one chain and verification at least one other. */
  lemma DigitStringNotExtreme(digest: seq<byte>)
    requires 0 < |digest|
    requires DIGIT_MAX_VALUE * |digest| < 0x1_0000
    ensures exists i :: 0 <= i < |digest| + 2 && 0 < DigitString(digest)[i]
    ensures exists i :: 0 <= i < |digest| + 2 && DigitString(digest)[i] < DIGIT_MAX_VALUE
  {
    ChecksumBound(digest);
    var n, s, x := |digest|, DigitString(digest), Checksum(digest);
    TwoBytes(x);
    if x == 0 {
      assert 0 < s[0] && s[n] < DIGIT_MAX_VALUE;
    } else {
      assert 0 < s[n] || 0 < s[n + 1];
      var i :| 0 <= i < n && digest[i] != 255;
      assert s[i] < DIGIT_MAX_VALUE;
    }
  }

  // ----------------------------------------------------------- hash inputs

  /** What the hash function is applied to under one identifier and leaf number:
      a secret start (RFC 8554, Appendix A), a step of a chain, the ends of all
      chains, or a message. */
  datatype OtsUse =
    | SecretUse(i: nat, seed: seq<byte>)
    | StepUse(i: nat, j: nat, x: Digest)
    | PublicUse(y: seq<byte>)
    | MessageUse(C: Digest, msg: seq<byte>)

  function OtsInput(p: LmotsParameters, use: OtsUse): seq<byte> {
    match use
    case SecretUse(i, seed) => p.I + p.q + PutBe(i, 2) + [0xFF] + seed
    case StepUse(i, j, x) => p.I + p.q + PutBe(i, 2) + PutBe(j, 1) + x
    case PublicUse(y) => p.I + p.q + D_PUBLIC + y
    case MessageUse(C, msg) => p.I + p.q + D_MESSAGE + C + msg
  }

  // ---------------------------------------------------------------- chains

  function ChainStep(h: HashFunction, p: LmotsParameters, i: nat, j: nat, x: Digest): Digest {
    h(OtsInput(p, StepUse(i, j, x)))
  }

  /** Chain i of the key, advanced from position `from` up to position `to`. */
  function Chain(h: HashFunction, p: LmotsParameters, i: nat, from: nat, to: nat, x: Digest): Digest
    decreases to - from, |x|
  {
    if from >= to then x else Chain(h, p, i, from + 1, to, ChainStep(h, p, i, from, x))
  }

  lemma {:induction false} ChainCompose(h: HashFunction, p: LmotsParameters, i: nat,
                                        from: nat, mid: nat, to: nat, x: Digest)
    requires from <= mid <= to
    ensures Chain(h, p, i, mid, to, Chain(h, p, i, from, mid, x)) == Chain(h, p, i, from, to, x)
    decreases mid - from
  {
    if from < mid {
      ChainCompose(h, p, i, from + 1, mid, to, ChainStep(h, p, i, from, x));
    }
  }

  /** Position j + 1 of a chain is the hash of position j, of the numbers of the
      chain and of the position. */
  lemma ChainNext(h: HashFunction, p: LmotsParameters, i: nat, from: nat, j: nat, x: Digest)
    requires from <= j
    ensures Chain(h, p, i, from, j + 1, x) == h(OtsInput(p, StepUse(i, j, Chain(h, p, i, from, j, x))))
  {
    ChainCompose(h, p, i, from, j, j + 1, x);
    var y := Chain(h, p, i, from, j, x);
    assert Chain(h, p, i, j, j + 1, y) == Chain(h, p, i, j + 1, j + 1, ChainStep(h, p, i, j, y));
  }

  /** Element i of a flat array of hash outputs. */
  function Block(s: seq<byte>, i: nat): Digest
    requires (i + 1) * N_HASH_LEN <= |s|
  {
    s[i * N_HASH_LEN..(i + 1) * N_HASH_LEN]
  }

  /** hash_idx_min_values[i], 0 when there is no such array. */
  function Lower(mins: Option<seq<byte>>, i: nat): nat
    requires mins.Some? ==> i < |mins.value|
  {
    if mins.Some? then mins.value[i] else 0
  }

  /** hash_idx_max_values[i], DIGIT_MAX_VALUE when there is no such array. */
  function Upper(maxs: Option<seq<byte>>, i: nat): nat
    requires maxs.Some? ==> i < |maxs.value|
  {
    if maxs.Some? then maxs.value[i] else DIGIT_MAX_VALUE
  }

  predicate Covers(bounds: Option<seq<byte>>, k: nat) {
    bounds.Some? ==> k <= |bounds.value|
  }

  /** The first k chains, each advanced between its bounds, laid out flat. */
  function HashedDigits(h: HashFunction, p: LmotsParameters, x: seq<byte>,
                        mins: Option<seq<byte>>, maxs: Option<seq<byte>>, k: nat): (s: seq<byte>)
    requires k * N_HASH_LEN <= |x| && Covers(mins, k) && Covers(maxs, k)
    ensures |s| == k * N_HASH_LEN
    decreases k, |x|
  {
    if k == 0 then []
    else HashedDigits(h, p, x, mins, maxs, k - 1)
         + Chain(h, p, k - 1, Lower(mins, k - 1), Upper(maxs, k - 1), Block(x, k - 1))
  }

  lemma {:induction false} HashedDigitsBlock(h: HashFunction, p: LmotsParameters, x: seq<byte>,
                                             mins: Option<seq<byte>>, maxs: Option<seq<byte>>, k: nat, i: nat)
    requires k * N_HASH_LEN <= |x| && Covers(mins, k) && Covers(maxs, k) && i < k
    ensures Block(HashedDigits(h, p, x, mins, maxs, k), i)
         == Chain(h, p, i, Lower(mins, i), Upper(maxs, i), Block(x, i))
  {
    hide Chain;
    var before := HashedDigits(h, p, x, mins, maxs, k - 1);
    var last := Chain(h, p, k - 1, Lower(mins, k - 1), Upper(maxs, k - 1), Block(x, k - 1));
    BlockOfConcat(before, last, i);
    if i < k - 1 {
      HashedDigitsBlock(h, p, x, mins, maxs, k - 1, i);
    }
  }

  lemma BlockOfConcat(before: seq<byte>, last: Digest, i: nat)
    requires |before| % N_HASH_LEN == 0 && i * N_HASH_LEN <= |before|
    ensures (i + 1) * N_HASH_LEN <= |before| ==> Block(before + last, i) == Block(before, i)
    ensures i * N_HASH_LEN == |before| ==> Block(before + last, i) == last
  {
  }

  /** Whether any of the first k chains is advanced at all. */
  ghost predicate Advances(mins: Option<seq<byte>>, maxs: Option<seq<byte>>, k: nat)
    requires Covers(mins, k) && Covers(maxs, k)
  {
    exists i :: 0 <= i < k && Lower(mins, i) < Upper(maxs, i)
  }

  lemma SigningAdvances(digest: Digest)
    ensures Advances(None, Some(DigitString(digest)), P_DIGITS)
  {
    DigitStringNotExtreme(digest);
    var i :| 0 <= i < P_DIGITS && 0 < DigitString(digest)[i];
    assert Lower(None, i) < Upper(Some(DigitString(digest)), i);
  }

  lemma VerifyingAdvances(digest: Digest)
    ensures Advances(Some(DigitString(digest)), None, P_DIGITS)
  {
    DigitStringNotExtreme(digest);
    var i :| 0 <= i < P_DIGITS && DigitString(digest)[i] < DIGIT_MAX_VALUE;
    assert Lower(Some(DigitString(digest)), i) < Upper(None, i);
  }

  // ------------------------------------------------------ keys, signatures

  /** RFC 8554 Appendix A: the secret start of chain i. */
  function SecretElement(h: HashFunction, p: LmotsParameters, seed: seq<byte>, i: nat): Digest {
    h(OtsInput(p, SecretUse(i, seed)))
  }

  function SecretKey(h: HashFunction, p: LmotsParameters, seed: seq<byte>, k: nat): (s: seq<byte>)
    ensures |s| == k * N_HASH_LEN
    decreases k, |seed|
  {
    if k == 0 then [] else SecretKey(h, p, seed, k - 1) + SecretElement(h, p, seed, k - 1)
  }

  /** Every chain starts at the hash of its own number and the seed. */
  lemma {:induction false} SecretKeyBlock(h: HashFunction, p: LmotsParameters, seed: seq<byte>, k: nat, i: nat)
    requires i < k
    ensures Block(SecretKey(h, p, seed, k), i) == h(OtsInput(p, SecretUse(i, seed)))
  {
    BlockOfConcat(SecretKey(h, p, seed, k - 1), SecretElement(h, p, seed, k - 1), i);
    if i < k - 1 {
      SecretKeyBlock(h, p, seed, k - 1, i);
    }
  }

  function KeyFromDigits(h: HashFunction, p: LmotsParameters, y: seq<byte>): Digest {
    h(OtsInput(p, PublicUse(y)))
  }

  /** RFC 8554 Algorithm 1. */
  function OtsPublicKey(h: HashFunction, p: LmotsParameters, sk: seq<byte>): Digest
    requires |sk| == P_DIGITS * N_HASH_LEN
  {
    KeyFromDigits(h, p, HashedDigits(h, p, sk, None, None, P_DIGITS))
  }

  function MessageDigits(h: HashFunction, p: LmotsParameters, C: Digest, msg: seq<byte>): (s: seq<byte>)
    ensures |s| == P_DIGITS
  {
    DigitString(h(OtsInput(p, MessageUse(C, msg))))
  }

  /** RFC 8554 Algorithm 3: type, randomizer, and every chain advanced to its digit. */
  function OtsSignature(h: HashFunction, p: LmotsParameters, sk: seq<byte>, C: Digest, msg: seq<byte>): (s: seq<byte>)
    requires |sk| == P_DIGITS * N_HASH_LEN
    ensures |s| == SigLen(LMOTS_SHA256_N32_W8)
  {
    PutBe(p.otstype, TYPE_LEN) + C
    + HashedDigits(h, p, sk, None, Some(MessageDigits(h, p, C, msg)), P_DIGITS)
  }

  /** RFC 8554 Algorithm 4b: the key under which a signature would verify. */
  function OtsCandidate(h: HashFunction, p: LmotsParameters, msg: seq<byte>, sig: seq<byte>): Digest
    requires |sig| == SigLen(LMOTS_SHA256_N32_W8)
  {
    var C: Digest := sig[TYPE_LEN..TYPE_LEN + N_HASH_LEN];
    var y := sig[TYPE_LEN + N_HASH_LEN..];
    KeyFromDigits(h, p, HashedDigits(h, p, y, Some(MessageDigits(h, p, C, msg)), None, P_DIGITS))
  }

  /** Chains advanced by the signer to the digits and then by the verifier to
      the end are the chains of the public key, whatever the digits. */
  lemma {:induction false} ChainsMeet(h: HashFunction, p: LmotsParameters, sk: seq<byte>, digits: seq<byte>, k: nat, n: nat)
    requires k <= n && n * N_HASH_LEN <= |sk| && n <= |digits|
    ensures HashedDigits(h, p, HashedDigits(h, p, sk, None, Some(digits), n), Some(digits), None, k)
         == HashedDigits(h, p, sk, None, None, k)
  {
    if k > 0 {
      ChainsMeet(h, p, sk, digits, k - 1, n);
      var i := k - 1;
      HashedDigitsBlock(h, p, sk, None, Some(digits), n, i);
      ChainCompose(h, p, i, 0, digits[i], DIGIT_MAX_VALUE, Block(sk, i));
    }
  }

  /** LM-OTS correctness, for every message and randomizer. */
  lemma OtsCorrect(h: HashFunction, p: LmotsParameters, sk: seq<byte>, C: Digest, msg: seq<byte>)
    requires |sk| == P_DIGITS * N_HASH_LEN
    ensures OtsCandidate(h, p, msg, OtsSignature(h, p, sk, C, msg)) == OtsPublicKey(h, p, sk)
  {
    var digits := MessageDigits(h, p, C, msg);
    var y := HashedDigits(h, p, sk, None, Some(digits), P_DIGITS);
    var sig := OtsSignature(h, p, sk, C, msg);
    assert sig[TYPE_LEN..TYPE_LEN + N_HASH_LEN] == C;
    assert sig[TYPE_LEN + N_HASH_LEN..] == y;
    ChainsMeet(h, p, sk, digits, P_DIGITS, P_DIGITS);
  }

  // ----------------------------------------- what a signature is bound to

  /** Two different strings, one of each set, with the same hash. */
  ghost predicate Clash(h: HashFunction, A: set<seq<byte>>, B: set<seq<byte>>) {
    exists s, t :: s in A && t in B && s != t && h(s) == h(t)
  }

  lemma ClashIn(h: HashFunction, A: set<seq<byte>>, B: set<seq<byte>>, A': set<seq<byte>>, B': set<seq<byte>>)
    requires A <= A' && B <= B'
    ensures Clash(h, A, B) ==> Clash(h, A', B')
  {
  }

  /** The strings hashed in advancing a chain. */
  function ChainInputs(h: HashFunction, p: LmotsParameters, i: nat, from: nat, to: nat, x: Digest): set<seq<byte>>
    decreases to - from, |x|
  {
    if from >= to then {}
    else {OtsInput(p, StepUse(i, from, x))} + ChainInputs(h, p, i, from + 1, to, ChainStep(h, p, i, from, x))
  }

  /** Chains that start at the same position and end at the same value start at
      the same value. */
  lemma {:induction false} ChainBinds(h: HashFunction, p: LmotsParameters, i: nat, from: nat, to: nat, x: Digest, y: Digest)
    requires from <= to
    requires Chain(h, p, i, from, to, x) == Chain(h, p, i, from, to, y)
    ensures x == y || Clash(h, ChainInputs(h, p, i, from, to, x), ChainInputs(h, p, i, from, to, y))
    decreases (to - from)
  {
    if from < to {
      var s, t := OtsInput(p, StepUse(i, from, x)), OtsInput(p, StepUse(i, from, y));
      if h(s) == h(t) {
        if s == t {
          var n := |p.I + p.q + PutBe(i, 2) + PutBe(from, 1)|;
          assert s[n..] == x && t[n..] == y;
        } else {
          assert s in ChainInputs(h, p, i, from, to, x) && t in ChainInputs(h, p, i, from, to, y);
        }
      } else {
        ChainBinds(h, p, i, from + 1, to, ChainStep(h, p, i, from, x), ChainStep(h, p, i, from, y));
      }
    }
  }

  /** The strings hashed in advancing the first k chains from the digits on. */
  function DigitInputs(h: HashFunction, p: LmotsParameters, y: seq<byte>, digits: seq<byte>, k: nat): set<seq<byte>>
    requires k * N_HASH_LEN <= |y| && k <= |digits|
    decreases k, |y|
  {
    if k == 0 then {}
    else DigitInputs(h, p, y, digits, k - 1)
         + ChainInputs(h, p, k - 1, digits[k - 1], DIGIT_MAX_VALUE, Block(y, k - 1))
  }

  lemma {:induction false} DigitInputsHold(h: HashFunction, p: LmotsParameters, y: seq<byte>, digits: seq<byte>, k: nat, i: nat)
    requires k * N_HASH_LEN <= |y| && k <= |digits| && i < k
    ensures ChainInputs(h, p, i, digits[i], DIGIT_MAX_VALUE, Block(y, i)) <= DigitInputs(h, p, y, digits, k)
  {
    hide ChainInputs;
    if i < k - 1 {
      DigitInputsHold(h, p, y, digits, k - 1, i);
    }
  }

  /** The parts of a signature. */
  function Randomizer(sig: seq<byte>): Digest
    requires |sig| == SigLen(LMOTS_SHA256_N32_W8)
  {
    sig[TYPE_LEN..TYPE_LEN + N_HASH_LEN]
  }

  function Elements(sig: seq<byte>): (y: seq<byte>)
    requires |sig| == SigLen(LMOTS_SHA256_N32_W8)
    ensures |y| == P_DIGITS * N_HASH_LEN
  {
    sig[TYPE_LEN + N_HASH_LEN..]
  }

  function SignatureDigits(h: HashFunction, p: LmotsParameters, msg: seq<byte>, sig: seq<byte>): (d: seq<byte>)
    requires |sig| == SigLen(LMOTS_SHA256_N32_W8)
    ensures |d| == P_DIGITS
  {
    MessageDigits(h, p, Randomizer(sig), msg)
  }

  function ChainEnds(h: HashFunction, p: LmotsParameters, msg: seq<byte>, sig: seq<byte>): seq<byte>
    requires |sig| == SigLen(LMOTS_SHA256_N32_W8)
  {
    HashedDigits(h, p, Elements(sig), Some(SignatureDigits(h, p, msg, sig)), None, P_DIGITS)
  }

  /** The strings hashed in computing the candidate key of a signature. */
  function CandidateInputs(h: HashFunction, p: LmotsParameters, msg: seq<byte>, sig: seq<byte>): set<seq<byte>>
    requires |sig| == SigLen(LMOTS_SHA256_N32_W8)
  {
    {OtsInput(p, MessageUse(Randomizer(sig), msg)), OtsInput(p, PublicUse(ChainEnds(h, p, msg, sig)))}
    + DigitInputs(h, p, Elements(sig), SignatureDigits(h, p, msg, sig), P_DIGITS)
  }

  /** In some chain the first signature has a value from which hashing on leads,
      in a positive number of steps, to the value of the second one. */
  ghost predicate Reaches(h: HashFunction, p: LmotsParameters, msg1: seq<byte>, sig1: seq<byte>,
                          msg2: seq<byte>, sig2: seq<byte>)
    requires |sig1| == SigLen(LMOTS_SHA256_N32_W8) == |sig2|
  {
    var a, b := SignatureDigits(h, p, msg1, sig1), SignatureDigits(h, p, msg2, sig2);
    exists i :: 0 <= i < P_DIGITS && a[i] < b[i]
      && Chain(h, p, i, a[i], b[i], Block(Elements(sig1), i)) == Block(Elements(sig2), i)
  }

  /** The inputs of a digit's chain are among those of the signature. */
  lemma CandidateChain(h: HashFunction, p: LmotsParameters, msg: seq<byte>, sig: seq<byte>, i: nat)
    requires |sig| == SigLen(LMOTS_SHA256_N32_W8) && i < P_DIGITS
    ensures ChainInputs(h, p, i, SignatureDigits(h, p, msg, sig)[i], DIGIT_MAX_VALUE, Block(Elements(sig), i))
         <= CandidateInputs(h, p, msg, sig)
    ensures Block(ChainEnds(h, p, msg, sig), i)
         == Chain(h, p, i, SignatureDigits(h, p, msg, sig)[i], DIGIT_MAX_VALUE, Block(Elements(sig), i))
  {
    hide ChainInputs, DigitInputs, Chain, MessageDigits;
    DigitInputsHold(h, p, Elements(sig), SignatureDigits(h, p, msg, sig), P_DIGITS, i);
    HashedDigitsBlock(h, p, Elements(sig), Some(SignatureDigits(h, p, msg, sig)), None, P_DIGITS, i);
  }

  lemma {:induction false} ChainInputsLater(h: HashFunction, p: LmotsParameters, i: nat, from: nat, mid: nat, to: nat, x: Digest)
    requires from <= mid <= to
    ensures ChainInputs(h, p, i, mid, to, Chain(h, p, i, from, mid, x)) <= ChainInputs(h, p, i, from, to, x)
    decreases mid - from
  {
    if from < mid {
      ChainInputsLater(h, p, i, from + 1, mid, to, ChainStep(h, p, i, from, x));
    }
  }

  /** Chains of the same end, of which the first starts no later. */
  lemma ChainMeets(h: HashFunction, p: LmotsParameters, i: nat, from: nat, mid: nat, to: nat, x: Digest, y: Digest)
    requires from <= mid <= to && Chain(h, p, i, from, to, x) == Chain(h, p, i, mid, to, y)
    ensures Chain(h, p, i, from, mid, x) == y
            || Clash(h, ChainInputs(h, p, i, from, to, x), ChainInputs(h, p, i, mid, to, y))
  {
    ChainCompose(h, p, i, from, mid, to, x);
    ChainInputsLater(h, p, i, from, mid, to, x);
    var z := Chain(h, p, i, from, mid, x);
    ChainBinds(h, p, i, mid, to, z, y);
    ClashIn(h, ChainInputs(h, p, i, mid, to, z), ChainInputs(h, p, i, mid, to, y),
            ChainInputs(h, p, i, from, to, x), ChainInputs(h, p, i, mid, to, y));
    hide Chain, ChainInputs, Clash;
  }

  /** Signatures with the same candidate key end all their chains alike. */
  lemma EndsBind(h: HashFunction, p: LmotsParameters, msg1: seq<byte>, sig1: seq<byte>, msg2: seq<byte>, sig2: seq<byte>)
    requires |sig1| == SigLen(LMOTS_SHA256_N32_W8) == |sig2|
    requires OtsCandidate(h, p, msg1, sig1) == OtsCandidate(h, p, msg2, sig2)
    ensures ChainEnds(h, p, msg1, sig1) == ChainEnds(h, p, msg2, sig2)
            || Clash(h, CandidateInputs(h, p, msg1, sig1), CandidateInputs(h, p, msg2, sig2))
  {
    var y1, y2 := ChainEnds(h, p, msg1, sig1), ChainEnds(h, p, msg2, sig2);
    var s, t := OtsInput(p, PublicUse(y1)), OtsInput(p, PublicUse(y2));
    assert h(s) == h(t);
    assert s in CandidateInputs(h, p, msg1, sig1) && t in CandidateInputs(h, p, msg2, sig2);
    if s == t {
      var n := |p.I + p.q + D_PUBLIC|;
      assert s[n..] == y1 && t[n..] == y2;
    }
  }

  /** A chain whose digit is smaller in the first signature. */
  lemma SmallerDigitReaches(h: HashFunction, p: LmotsParameters, msg1: seq<byte>, sig1: seq<byte>,
                            msg2: seq<byte>, sig2: seq<byte>, i: nat)
    requires |sig1| == SigLen(LMOTS_SHA256_N32_W8) == |sig2| && i < P_DIGITS
    requires ChainEnds(h, p, msg1, sig1) == ChainEnds(h, p, msg2, sig2)
    requires SignatureDigits(h, p, msg1, sig1)[i] <= SignatureDigits(h, p, msg2, sig2)[i]
    ensures var a, b := SignatureDigits(h, p, msg1, sig1)[i], SignatureDigits(h, p, msg2, sig2)[i];
            Chain(h, p, i, a, b, Block(Elements(sig1), i)) == Block(Elements(sig2), i)
            || Clash(h, CandidateInputs(h, p, msg1, sig1), CandidateInputs(h, p, msg2, sig2))
  {
    hide Chain, ChainInputs, CandidateInputs, Clash, HashedDigits, MessageDigits;
    CandidateChain(h, p, msg1, sig1, i);
    CandidateChain(h, p, msg2, sig2, i);
    var a, b := SignatureDigits(h, p, msg1, sig1)[i], SignatureDigits(h, p, msg2, sig2)[i];
    var x, y := Block(Elements(sig1), i), Block(Elements(sig2), i);
    ChainMeets(h, p, i, a, b, DIGIT_MAX_VALUE, x, y);
    ClashIn(h, ChainInputs(h, p, i, a, DIGIT_MAX_VALUE, x), ChainInputs(h, p, i, b, DIGIT_MAX_VALUE, y),
            CandidateInputs(h, p, msg1, sig1), CandidateInputs(h, p, msg2, sig2));
  }

  /** A signature is bound to its message: two signatures with the same candidate
      key, over different messages or with different randomizers, contain a hash
      collision or a value that reaches one of the other signature by hashing. */
  lemma OtsBinding(h: HashFunction, p: LmotsParameters, msg1: seq<byte>, sig1: seq<byte>, msg2: seq<byte>, sig2: seq<byte>)
    requires |sig1| == SigLen(LMOTS_SHA256_N32_W8) == |sig2|
    requires OtsCandidate(h, p, msg1, sig1) == OtsCandidate(h, p, msg2, sig2)
    requires msg1 != msg2 || Randomizer(sig1) != Randomizer(sig2)
    ensures Clash(h, CandidateInputs(h, p, msg1, sig1), CandidateInputs(h, p, msg2, sig2))
            || Reaches(h, p, msg1, sig1, msg2, sig2)
  {
    hide ChainEnds, OtsCandidate, Chain, DigitInputs;
    var C1, C2 := Randomizer(sig1), Randomizer(sig2);
    var s, t := OtsInput(p, MessageUse(C1, msg1)), OtsInput(p, MessageUse(C2, msg2));
    assert s in CandidateInputs(h, p, msg1, sig1) && t in CandidateInputs(h, p, msg2, sig2);
    MessageInputsDiffer(p, C1, msg1, C2, msg2);
    if h(s) != h(t) {
      EndsBind(h, p, msg1, sig1, msg2, sig2);
      NonDomination(h(s), h(t));
      var i :| 0 <= i < P_DIGITS && DigitString(h(s))[i] < DigitString(h(t))[i];
      if ChainEnds(h, p, msg1, sig1) == ChainEnds(h, p, msg2, sig2) {
        SmallerDigitReaches(h, p, msg1, sig1, msg2, sig2, i);
      }
    }
  }

  lemma MessageInputsDiffer(p: LmotsParameters, C1: Digest, msg1: seq<byte>, C2: Digest, msg2: seq<byte>)
    requires msg1 != msg2 || C1 != C2
    ensures OtsInput(p, MessageUse(C1, msg1)) != OtsInput(p, MessageUse(C2, msg2))
  {
    var n := |p.I + p.q + D_MESSAGE|;
    var s, t := OtsInput(p, MessageUse(C1, msg1)), OtsInput(p, MessageUse(C2, msg2));
    assert s[n..n + N_HASH_LEN] == C1 && t[n..n + N_HASH_LEN] == C2;
    assert s[n + N_HASH_LEN..] == msg1 && t[n + N_HASH_LEN..] == msg2;
  }

  /** Some steps of a chain lead a value back to itself. */
  predicate Returns(h: HashFunction, p: LmotsParameters, i: nat, a: nat, b: nat, x: Digest) {
    a < b <= DIGIT_MAX_VALUE && Chain(h, p, i, a, b, x) == x
  }

  /** One signature serves one message only: otherwise there is a collision, or a
      chain value that returns to itself. */
  lemma OneMessage(h: HashFunction, p: LmotsParameters, msg1: seq<byte>, msg2: seq<byte>, sig: seq<byte>)
    requires |sig| == SigLen(LMOTS_SHA256_N32_W8) && msg1 != msg2
    requires OtsCandidate(h, p, msg1, sig) == OtsCandidate(h, p, msg2, sig)
    ensures Clash(h, CandidateInputs(h, p, msg1, sig), CandidateInputs(h, p, msg2, sig))
            || exists i: nat, a: nat, b: nat :: i < P_DIGITS && Returns(h, p, i, a, b, Block(Elements(sig), i))
  {
    OtsBinding(h, p, msg1, sig, msg2, sig);
    if Reaches(h, p, msg1, sig, msg2, sig) {
      var a, b := SignatureDigits(h, p, msg1, sig), SignatureDigits(h, p, msg2, sig);
      var i :| 0 <= i < P_DIGITS && a[i] < b[i]
        && Chain(h, p, i, a[i], b[i], Block(Elements(sig), i)) == Block(Elements(sig), i);
      assert Returns(h, p, i, a[i], b[i], Block(Elements(sig), i));
    }
    hide Clash, CandidateInputs, OtsCandidate, Chain, MessageDigits;
  }

  /** For a message and a randomizer only one signature leads to a key. */
  lemma OneSignature(h: HashFunction, p: LmotsParameters, msg: seq<byte>, sig1: seq<byte>, sig2: seq<byte>)
    requires |sig1| == SigLen(LMOTS_SHA256_N32_W8) == |sig2|
    requires OtsCandidate(h, p, msg, sig1) == OtsCandidate(h, p, msg, sig2)
    requires sig1[..TYPE_LEN + N_HASH_LEN] == sig2[..TYPE_LEN + N_HASH_LEN]
    ensures sig1 == sig2 || Clash(h, CandidateInputs(h, p, msg, sig1), CandidateInputs(h, p, msg, sig2))
  {
    hide ChainEnds, OtsCandidate, Chain, CandidateInputs, Clash, MessageDigits;
    EndsBind(h, p, msg, sig1, msg, sig2);
    assert Randomizer(sig1) == sig1[..TYPE_LEN + N_HASH_LEN][TYPE_LEN..];
    assert Randomizer(sig2) == sig2[..TYPE_LEN + N_HASH_LEN][TYPE_LEN..];
    if !Clash(h, CandidateInputs(h, p, msg, sig1), CandidateInputs(h, p, msg, sig2)) {
      forall i: nat | i < P_DIGITS
        ensures Block(Elements(sig1), i) == Block(Elements(sig2), i)
      {
        SmallerDigitReaches(h, p, msg, sig1, msg, sig2, i);
        ChainAtEnd(h, p, i, SignatureDigits(h, p, msg, sig1)[i], Block(Elements(sig1), i));
      }
      BlocksDetermine(Elements(sig1), Elements(sig2), P_DIGITS);
      assert sig1 == sig1[..TYPE_LEN + N_HASH_LEN] + Elements(sig1);
      assert sig2 == sig2[..TYPE_LEN + N_HASH_LEN] + Elements(sig2);
    }
  }

  lemma ChainAtEnd(h: HashFunction, p: LmotsParameters, i: nat, at: nat, x: Digest)
    ensures Chain(h, p, i, at, at, x) == x
  {
  }

  lemma BlocksDetermine(s: seq<byte>, t: seq<byte>, k: nat)
    requires |s| == |t| == k * N_HASH_LEN
    requires forall i: nat :: i < k ==> Block(s, i) == Block(t, i)
    ensures s == t
  {
    forall j | 0 <= j < |s|
      ensures s[j] == t[j]
    {
      var i := j / N_HASH_LEN;
      assert Block(s, i)[j % N_HASH_LEN] == s[j] && Block(t, i)[j % N_HASH_LEN] == t[j];
    }
  }
}
