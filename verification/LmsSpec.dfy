// LMS (RFC 8554 section 5) over an arbitrary hash function: the Merkle tree of
// one-time public keys, authentication paths, signatures, and what a run of
// signing calls may do to a private key.
module LmsSpec {
  import opened Bytes
  import opened Options
  import opened Hashing
  import opened LmotsSpec

  const LMS_SHA256_M32_H10: nat := 6
  const D_LEAF: seq<byte> := [0x82, 0x82]
  const D_INTR: seq<byte> := [0x83, 0x83]

  datatype LmsParameters = LmsParameters(I: seq<byte>, otstype: nat, lmstype: nat)

  /** MBEDTLS_LMS_H_TREE_HEIGHT */
  function TreeHeight(lmstype: nat): nat {
    if lmstype == LMS_SHA256_M32_H10 then 10 else 0
  }

  /** MBEDTLS_LMS_SIG_LEN */
  function LmsSigLen(lmstype: nat, otstype: nat): nat {
    Q_LEAF_ID_LEN + SigLen(otstype) + TYPE_LEN + TreeHeight(lmstype) * N_HASH_LEN
  }

  /** MERKLE_TREE_LEAF_NODE_AM, also the index of the first leaf node. */
  function LeafCount(lmstype: nat): nat {
    Pow2(TreeHeight(lmstype))
  }

  lemma LeafCountValue()
    ensures LeafCount(LMS_SHA256_M32_H10) == 1024
    ensures Pow256(4) == 0x1_0000_0000
  {
    assert Pow2(5) == 32;
    assert Pow2(10) == 32 * Pow2(5);
  }

  // ----------------------------------------------------------- hash inputs

  function OtsParameters(I: seq<byte>, q: nat): LmotsParameters {
    LmotsParameters(I, PutBe(q, Q_LEAF_ID_LEN), LMOTS_SHA256_N32_W8)
  }

  /** What the hash function is applied to under one identifier: something for
      the one-time key of a leaf, or a node of the tree. */
  datatype Use =
    | OneTime(q: nat, use: OtsUse)
    | LeafNode(r: nat, key: Digest)
    | InnerNode(r: nat, left: Digest, right: Digest)

  function Input(I: seq<byte>, use: Use): seq<byte> {
    match use
    case OneTime(q, use) => OtsInput(OtsParameters(I, q), use)
    case LeafNode(r, key) => I + PutBe(r, 4) + D_LEAF + key
    case InnerNode(r, left, right) => I + PutBe(r, 4) + D_INTR + left + right
  }

  /** Numbers fit their fields; a chain has 255 steps. */
  predicate InRange(use: Use) {
    match use
    case OneTime(q, use) =>
      && q < Pow256(4)
      && (use.SecretUse? ==> use.i < P_DIGITS)
      && (use.StepUse? ==> use.i < P_DIGITS && use.j < DIGIT_MAX_VALUE)
    case LeafNode(r, _) => r < Pow256(4)
    case InnerNode(r, _, _) => r < Pow256(4)
  }

  /** The number, the two bytes behind it, and the rest of an input. */
  function Number(use: Use): nat {
    match use case OneTime(q, _) => q case LeafNode(r, _) => r case InnerNode(r, _, _) => r
  }

  function Tag(use: Use): seq<byte> {
    match use
    case OneTime(_, SecretUse(i, _)) => PutBe(i, 2)
    case OneTime(_, StepUse(i, _, _)) => PutBe(i, 2)
    case OneTime(_, PublicUse(_)) => D_PUBLIC
    case OneTime(_, MessageUse(_, _)) => D_MESSAGE
    case LeafNode(_, _) => D_LEAF
    case InnerNode(_, _, _) => D_INTR
  }

  function Rest(use: Use): seq<byte> {
    match use
    case OneTime(_, SecretUse(_, seed)) => [0xFF] + seed
    case OneTime(_, StepUse(_, j, x)) => PutBe(j, 1) + x
    case OneTime(_, PublicUse(y)) => y
    case OneTime(_, MessageUse(C, msg)) => C + msg
    case LeafNode(_, key) => key
    case InnerNode(_, left, right) => left + right
  }

  lemma InputParts(I: seq<byte>, use: Use)
    requires |I| == I_KEY_ID_LEN
    ensures var s := Input(I, use);
            |s| >= 22 && s[..16] == I && s[16..20] == PutBe(Number(use), 4) && s[20..22] == Tag(use) && s[22..] == Rest(use)
  {
    ConcatParts(I, PutBe(Number(use), 4), Tag(use), Rest(use));
    assert Input(I, use) == I + PutBe(Number(use), 4) + Tag(use) + Rest(use);
  }

  /** The tags of the six uses differ, but for a secret start and a step. */
  lemma TagsDiffer(a: Use, b: Use)
    requires InRange(a) && InRange(b) && Tag(a) == Tag(b)
    ensures a.OneTime? && (a.use.SecretUse? || a.use.StepUse?) ==>
              b.OneTime? && (b.use.SecretUse? || b.use.StepUse?) && a.use.i == b.use.i
    ensures a.OneTime? && a.use.PublicUse? ==> b.OneTime? && b.use.PublicUse?
    ensures a.OneTime? && a.use.MessageUse? ==> b.OneTime? && b.use.MessageUse?
    ensures a.LeafNode? ==> b.LeafNode?
    ensures a.InnerNode? ==> b.InnerNode?
  {
    forall i: nat | i < P_DIGITS
      ensures PutBe(i, 2) == [0, i]
    {
      TwoBytes(i);
    }
  }

  lemma RestsDiffer(a: Use, b: Use)
    requires InRange(a) && InRange(b) && Tag(a) == Tag(b) && Rest(a) == Rest(b) && Number(a) == Number(b)
    ensures a == b
  {
    TagsDiffer(a, b);
    var x, y := Rest(a), Rest(b);
    if a.OneTime? && (a.use.SecretUse? || a.use.StepUse?) {
      assert a.use.StepUse? ==> x[0] == a.use.j && x[1..] == a.use.x by { assert PutBe(0, 0) == []; }
      assert b.use.StepUse? ==> y[0] == b.use.j && y[1..] == b.use.x by { assert PutBe(0, 0) == []; }
      assert a.use.SecretUse? ==> x[1..] == a.use.seed;
      assert b.use.SecretUse? ==> y[1..] == b.use.seed;
    } else if a.OneTime? && a.use.MessageUse? {
      assert x[..N_HASH_LEN] == a.use.C && x[N_HASH_LEN..] == a.use.msg;
      assert y[..N_HASH_LEN] == b.use.C && y[N_HASH_LEN..] == b.use.msg;
    } else if a.InnerNode? {
      assert x[..N_HASH_LEN] == a.left && x[N_HASH_LEN..] == a.right;
      assert y[..N_HASH_LEN] == b.left && y[N_HASH_LEN..] == b.right;
    }
  }

  /** No two uses of the hash function under any identifiers have the same input,
      so nothing that one of them hashes can be taken for another (RFC 8554,
      section 9.1). */
  lemma InputsDistinct(I: seq<byte>, a: Use, J: seq<byte>, b: Use)
    requires |I| == I_KEY_ID_LEN == |J| && InRange(a) && InRange(b)
    ensures Input(I, a) == Input(J, b) <==> I == J && a == b
  {
    InputParts(I, a);
    InputParts(J, b);
    if Input(I, a) == Input(J, b) {
      GetPutBe(Number(a), 4);
      GetPutBe(Number(b), 4);
      RestsDiffer(a, b);
    }
  }

  // ----------------------------------------------------------- Merkle tree

  function LeafValue(h: HashFunction, I: seq<byte>, key: Digest, r: nat): Digest {
    h(Input(I, LeafNode(r, key)))
  }

  function InternalValue(h: HashFunction, I: seq<byte>, left: Digest, right: Digest, r: nat): Digest {
    h(Input(I, InnerNode(r, left, right)))
  }

  /** RFC 8554 section 5.3: node r of the tree of any height over the given
      public keys. Node 1 is the root, leaves start at 2^height. */
  function Node(h: HashFunction, I: seq<byte>, keys: seq<Digest>, height: nat, r: nat): Digest
    requires |keys| == Pow2(height)
    requires 1 <= r < 2 * Pow2(height)
    decreases 2 * Pow2(height) - r, |keys|
  {
    if r >= Pow2(height) then LeafValue(h, I, keys[r - Pow2(height)], r)
    else InternalValue(h, I, Node(h, I, keys, height, 2 * r), Node(h, I, keys, height, 2 * r + 1), r)
  }

  /** All the nodes by index, as the tree buffer holds them; index 0 is unused. */
  function TreeNodes(h: HashFunction, I: seq<byte>, keys: seq<Digest>, height: nat): (nodes: seq<Digest>)
    requires |keys| == Pow2(height)
    ensures |nodes| == 2 * Pow2(height)
    ensures forall r :: 1 <= r < |nodes| ==> nodes[r] == Node(h, I, keys, height, r)
  {
    var unused: Digest := Zeros(N_HASH_LEN);
    seq(2 * Pow2(height), r requires 0 <= r < 2 * Pow2(height) =>
      if r == 0 then unused else Node(h, I, keys, height, r))
  }

  /** The value of an inner node of a node array from its two children there. */
  function ChildrenValue(h: HashFunction, I: seq<byte>, nodes: seq<Digest>, r: nat): Digest
    requires 2 * r + 1 < |nodes|
  {
    InternalValue(h, I, nodes[2 * r], nodes[2 * r + 1], r)
  }

  /** What determines a node array from the leaves up. */
  ghost predicate IsTreeOver(h: HashFunction, I: seq<byte>, keys: seq<Digest>, nodes: seq<Digest>) {
    && |nodes| == 2 * |keys|
    && (forall i: nat :: i < |keys| ==> nodes[|keys| + i] == LeafValue(h, I, keys[i], |keys| + i))
    && (forall r: nat {:trigger ChildrenValue(h, I, nodes, r)} :: 1 <= r < |keys| ==>
          nodes[r] == ChildrenValue(h, I, nodes, r))
  }

  lemma TreeNodesIsTree(h: HashFunction, I: seq<byte>, keys: seq<Digest>, height: nat)
    requires |keys| == Pow2(height)
    ensures IsTreeOver(h, I, keys, TreeNodes(h, I, keys, height))
  {
    var nodes := TreeNodes(h, I, keys, height);
    forall r: nat {:trigger ChildrenValue(h, I, nodes, r)} | 1 <= r < |keys|
      ensures nodes[r] == ChildrenValue(h, I, nodes, r)
    {
      assert Node(h, I, keys, height, r)
          == InternalValue(h, I, Node(h, I, keys, height, 2 * r), Node(h, I, keys, height, 2 * r + 1), r);
    }
  }

  /** The parent of a node from the node's value and its sibling's: the parity
      of the index says which of them is on the left. */
  function ParentValue(h: HashFunction, I: seq<byte>, node: nat, self: Digest, sibling: Digest): Digest {
    if node % 2 == 1 then InternalValue(h, I, sibling, self, node / 2)
    else InternalValue(h, I, self, sibling, node / 2)
  }

  /** Every node above the leaves is the parent value of either of its children. */
  ghost predicate HashTree(h: HashFunction, I: seq<byte>, nodes: seq<Digest>) {
    forall r: nat {:trigger BitXor(r, 1)} :: 2 <= r < |nodes| && BitXor(r, 1) < |nodes| ==>
      nodes[r / 2] == ParentValue(h, I, r, nodes[r], nodes[BitXor(r, 1)])
  }

  lemma TreeNodesHashTree(h: HashFunction, I: seq<byte>, keys: seq<Digest>, nodes: seq<Digest>)
    requires IsTreeOver(h, I, keys, nodes)
    ensures HashTree(h, I, nodes)
  {
    forall r: nat {:trigger BitXor(r, 1)} | 2 <= r < |nodes| && BitXor(r, 1) < |nodes|
      ensures nodes[r / 2] == ParentValue(h, I, r, nodes[r], nodes[BitXor(r, 1)])
    {
      BitXorOne(r);
      assert nodes[r / 2] == ChildrenValue(h, I, nodes, r / 2);
    }
  }

  // ------------------------------------------------------------------ paths

  /** The node i levels above a node: its index shifted right i times. */
  function Ancestor(node: nat, i: nat): nat {
    if i == 0 then node else Ancestor(node, i - 1) / 2
  }

  lemma {:induction false} AncestorRange(node: nat, height: nat, i: nat)
    requires Pow2(height) <= node < 2 * Pow2(height)
    requires i <= height
    ensures Pow2(height - i) <= Ancestor(node, i) < 2 * Pow2(height - i)
  {
    if i > 0 {
      AncestorRange(node, height, i - 1);
    }
  }

  lemma SiblingBound(node: nat, n: nat)
    requires 2 <= node < 2 * n
    ensures 2 <= BitXor(node, 1) < 2 * n
  {
    BitXorOne(node);
  }

  /** A node below the root and its sibling are both nodes of the tree. */
  lemma SiblingRange(node: nat, height: nat, i: nat)
    requires Pow2(height) <= node < 2 * Pow2(height)
    requires i < height
    ensures 2 <= Ancestor(node, i) < 2 * Pow2(height)
    ensures 2 <= BitXor(Ancestor(node, i), 1) < 2 * Pow2(height)
  {
    AncestorRange(node, height, i);
    Pow2Monotone(1, height - i);
    Pow2Monotone(height - i, height);
    SiblingBound(Ancestor(node, i), Pow2(height));
  }

  /** RFC 8554 section 5.4.1: the siblings met in the first k levels above a leaf. */
  function AuthPath(nodes: seq<Digest>, height: nat, leaf: nat, k: nat): (s: seq<byte>)
    requires |nodes| == 2 * Pow2(height)
    requires Pow2(height) <= leaf < 2 * Pow2(height)
    requires k <= height
    ensures |s| == k * N_HASH_LEN
    decreases k, |nodes|
  {
    if k == 0 then []
    else
      SiblingRange(leaf, height, k - 1);
      AuthPath(nodes, height, leaf, k - 1) + nodes[BitXor(Ancestor(leaf, k - 1), 1)]
  }

  lemma {:induction false} AuthPathBlock(nodes: seq<Digest>, height: nat, leaf: nat, k: nat, i: nat)
    requires |nodes| == 2 * Pow2(height)
    requires Pow2(height) <= leaf < 2 * Pow2(height)
    requires i < k <= height
    ensures BitXor(Ancestor(leaf, i), 1) < |nodes|
    ensures Block(AuthPath(nodes, height, leaf, k), i) == nodes[BitXor(Ancestor(leaf, i), 1)]
  {
    SiblingRange(leaf, height, i);
    if i < k - 1 {
      AuthPathBlock(nodes, height, leaf, k - 1, i);
      assert Block(AuthPath(nodes, height, leaf, k), i) == Block(AuthPath(nodes, height, leaf, k - 1), i);
    }
  }

  /** The verifier's candidate after folding the first k path elements. */
  function FoldPath(h: HashFunction, I: seq<byte>, leafValue: Digest, leaf: nat, path: seq<byte>, k: nat): Digest
    requires k * N_HASH_LEN <= |path|
    decreases k, |path|
  {
    if k == 0 then leafValue
    else ParentValue(h, I, Ancestor(leaf, k - 1), FoldPath(h, I, leafValue, leaf, path, k - 1), Block(path, k - 1))
  }

  /** Folding an authentication path climbs the tree: after k levels it has
      rebuilt the node k levels above the leaf. */
  lemma {:induction false} FoldClimbs(h: HashFunction, I: seq<byte>, nodes: seq<Digest>, height: nat, leaf: nat, k: nat)
    requires |nodes| == 2 * Pow2(height) && HashTree(h, I, nodes)
    requires Pow2(height) <= leaf < 2 * Pow2(height)
    requires k <= height
    ensures 1 <= Ancestor(leaf, k) < |nodes|
    ensures FoldPath(h, I, nodes[leaf], leaf, AuthPath(nodes, height, leaf, height), k) == nodes[Ancestor(leaf, k)]
  {
    AncestorRange(leaf, height, k);
    Pow2Monotone(height - k, height);
    if k > 0 {
      FoldClimbs(h, I, nodes, height, leaf, k - 1);
      AuthPathBlock(nodes, height, leaf, height, k - 1);
      SiblingRange(leaf, height, k - 1);
    }
  }

  lemma FoldReachesTop(h: HashFunction, I: seq<byte>, keys: seq<Digest>, nodes: seq<Digest>, height: nat, i: nat)
    requires |keys| == Pow2(height) && i < |keys|
    requires IsTreeOver(h, I, keys, nodes)
    ensures var leaf := Pow2(height) + i;
            FoldPath(h, I, LeafValue(h, I, keys[i], leaf), leaf, AuthPath(nodes, height, leaf, height), height) == nodes[1]
  {
    TreeNodesHashTree(h, I, keys, nodes);
    FoldClimbs(h, I, nodes, height, Pow2(height) + i, height);
    AncestorRange(Pow2(height) + i, height, height);
  }

  /** Path soundness: folding the path of any leaf ends at the root. */
  lemma FoldReachesRoot(h: HashFunction, I: seq<byte>, keys: seq<Digest>, height: nat, i: nat)
    requires |keys| == Pow2(height) && i < |keys|
    ensures var leaf, nodes := Pow2(height) + i, TreeNodes(h, I, keys, height);
            FoldPath(h, I, LeafValue(h, I, keys[i], leaf), leaf, AuthPath(nodes, height, leaf, height), height)
            == Node(h, I, keys, height, 1)
  {
    TreeNodesIsTree(h, I, keys, height);
    FoldReachesTop(h, I, keys, TreeNodes(h, I, keys, height), height, i);
  }

  // ------------------------------------------------------ keys, signatures

  /** What a private context stands for: the values it was generated from and
      the next leaf to use. */
  datatype LmsKey = LmsKey(I: seq<byte>, seed: seq<byte>, q: nat)

  function OtsSecret(h: HashFunction, I: seq<byte>, seed: seq<byte>, q: nat): seq<byte> {
    SecretKey(h, OtsParameters(I, q), seed, P_DIGITS)
  }

  function OtsPublic(h: HashFunction, I: seq<byte>, seed: seq<byte>, q: nat): Digest {
    OtsPublicKey(h, OtsParameters(I, q), OtsSecret(h, I, seed, q))
  }

  function OtsPublics(h: HashFunction, I: seq<byte>, seed: seq<byte>, n: nat): (keys: seq<Digest>)
    ensures |keys| == n
    ensures forall i :: 0 <= i < n ==> keys[i] == OtsPublic(h, I, seed, i)
  {
    seq(n, i requires 0 <= i < n => OtsPublic(h, I, seed, i))
  }

  /** The one-time key of each leaf is made from secrets of its own, under the
      number of the leaf, and so are its public key and every step of its chains. */
  lemma LeafSecrets(h: HashFunction, I: seq<byte>, seed: seq<byte>, q: nat, i: nat)
    requires i < P_DIGITS
    ensures |OtsSecret(h, I, seed, q)| == P_DIGITS * N_HASH_LEN
    ensures Block(OtsSecret(h, I, seed, q), i) == h(Input(I, OneTime(q, SecretUse(i, seed))))
    ensures OtsPublic(h, I, seed, q)
         == h(Input(I, OneTime(q, PublicUse(HashedDigits(h, OtsParameters(I, q), OtsSecret(h, I, seed, q), None, None, P_DIGITS)))))
    ensures Block(HashedDigits(h, OtsParameters(I, q), OtsSecret(h, I, seed, q), None, None, P_DIGITS), i)
         == Chain(h, OtsParameters(I, q), i, 0, DIGIT_MAX_VALUE, h(Input(I, OneTime(q, SecretUse(i, seed)))))
  {
    SecretKeyBlock(h, OtsParameters(I, q), seed, P_DIGITS, i);
    HashedDigitsBlock(h, OtsParameters(I, q), OtsSecret(h, I, seed, q), None, None, P_DIGITS, i);
    hide Chain, HashedDigits, SecretKey;
  }

  datatype LmsPublicKey = LmsPublicKey(params: LmsParameters, root: Digest)

  /** The public key of a private key. It does not depend on the next leaf. */
  function PublicKeyOf(h: HashFunction, key: LmsKey): LmsPublicKey {
    var height := TreeHeight(LMS_SHA256_M32_H10);
    LmsPublicKey(LmsParameters(key.I, LMOTS_SHA256_N32_W8, LMS_SHA256_M32_H10),
                 Node(h, key.I, OtsPublics(h, key.I, key.seed, Pow2(height)), height, 1))
  }

  function SignaturePath(h: HashFunction, key: LmsKey): (s: seq<byte>)
    requires key.q < LeafCount(LMS_SHA256_M32_H10)
    ensures |s| == TreeHeight(LMS_SHA256_M32_H10) * N_HASH_LEN
  {
    var height := TreeHeight(LMS_SHA256_M32_H10);
    AuthPath(TreeNodes(h, key.I, OtsPublics(h, key.I, key.seed, Pow2(height)), height),
             height, Pow2(height) + key.q, height)
  }

  /** RFC 8554 section 5.4.1, with the next leaf and randomizer C. */
  function LmsSignature(h: HashFunction, key: LmsKey, C: Digest, msg: seq<byte>): (s: seq<byte>)
    requires key.q < LeafCount(LMS_SHA256_M32_H10)
    ensures |s| == LmsSigLen(LMS_SHA256_M32_H10, LMOTS_SHA256_N32_W8)
  {
    var height := TreeHeight(LMS_SHA256_M32_H10);
    PutBe(key.q, Q_LEAF_ID_LEN)
    + OtsSignature(h, OtsParameters(key.I, key.q), OtsSecret(h, key.I, key.seed, key.q), C, msg)
    + PutBe(LMS_SHA256_M32_H10, TYPE_LEN)
    + SignaturePath(h, key)
  }

  const SIG_OTS_OFFSET: nat := Q_LEAF_ID_LEN
  const SIG_TYPE_OFFSET: nat := SIG_OTS_OFFSET + SigLen(LMOTS_SHA256_N32_W8)
  const SIG_PATH_OFFSET: nat := SIG_TYPE_OFFSET + TYPE_LEN

  /** The fields of a byte string of the length of a signature. */
  ghost predicate HasSignatureLength(sig: seq<byte>) {
    |sig| == LmsSigLen(LMS_SHA256_M32_H10, LMOTS_SHA256_N32_W8)
  }

  function LeafField(sig: seq<byte>): nat
    requires HasSignatureLength(sig)
  {
    GetBe(sig[..Q_LEAF_ID_LEN])
  }

  function OtsField(sig: seq<byte>): seq<byte>
    requires HasSignatureLength(sig)
  {
    sig[SIG_OTS_OFFSET..SIG_TYPE_OFFSET]
  }

  function OtsTypeField(sig: seq<byte>): nat
    requires HasSignatureLength(sig)
  {
    GetBe(sig[SIG_OTS_OFFSET..SIG_OTS_OFFSET + TYPE_LEN])
  }

  function TypeField(sig: seq<byte>): nat
    requires HasSignatureLength(sig)
  {
    GetBe(sig[SIG_TYPE_OFFSET..SIG_TYPE_OFFSET + TYPE_LEN])
  }

  function PathField(sig: seq<byte>): seq<byte>
    requires HasSignatureLength(sig)
  {
    sig[SIG_PATH_OFFSET..]
  }

  /** The one-time key a signature would belong to, and its leaf. */
  function CandidateKey(h: HashFunction, I: seq<byte>, msg: seq<byte>, sig: seq<byte>): Digest
    requires HasSignatureLength(sig)
  {
    OtsCandidate(h, OtsParameters(I, LeafField(sig)), msg, OtsField(sig))
  }

  function LeafOf(sig: seq<byte>): nat
    requires HasSignatureLength(sig)
  {
    LeafCount(LMS_SHA256_M32_H10) + LeafField(sig)
  }

  /** RFC 8554 Algorithm 6a: the root a signature would belong to. */
  function CandidateRoot(h: HashFunction, I: seq<byte>, msg: seq<byte>, sig: seq<byte>): Digest
    requires HasSignatureLength(sig)
  {
    var key, leaf := CandidateKey(h, I, msg, sig), LeafOf(sig);
    FoldPath(h, I, LeafValue(h, I, key, leaf), leaf, PathField(sig), TreeHeight(LMS_SHA256_M32_H10))
  }

  /** What it takes for a signature to be accepted (RFC 8554 section 5.4.2). */
  ghost predicate LmsAccepts(h: HashFunction, pub: LmsPublicKey, msg: seq<byte>, sig: seq<byte>) {
    && pub.params.lmstype == LMS_SHA256_M32_H10
    && pub.params.otstype == LMOTS_SHA256_N32_W8
    && HasSignatureLength(sig)
    && OtsTypeField(sig) == LMOTS_SHA256_N32_W8
    && TypeField(sig) == LMS_SHA256_M32_H10
    && LeafField(sig) < LeafCount(LMS_SHA256_M32_H10)
    && CandidateRoot(h, pub.params.I, msg, sig) == pub.root
  }

  /** The parts of a signature are found where the verifier looks for them. */
  lemma LmsSignatureParts(h: HashFunction, key: LmsKey, C: Digest, msg: seq<byte>)
    requires key.q < LeafCount(LMS_SHA256_M32_H10)
    ensures var sig := LmsSignature(h, key, C, msg);
            && LeafField(sig) == key.q
            && OtsField(sig)
               == OtsSignature(h, OtsParameters(key.I, key.q), OtsSecret(h, key.I, key.seed, key.q), C, msg)
            && OtsTypeField(sig) == LMOTS_SHA256_N32_W8
            && TypeField(sig) == LMS_SHA256_M32_H10
            && PathField(sig) == SignaturePath(h, key)
  {
    LeafCountValue();
    var q, t := PutBe(key.q, Q_LEAF_ID_LEN), PutBe(LMS_SHA256_M32_H10, TYPE_LEN);
    var ots := OtsSignature(h, OtsParameters(key.I, key.q), OtsSecret(h, key.I, key.seed, key.q), C, msg);
    var path := SignaturePath(h, key);
    ConcatParts(q, ots, t, path);
    GetPutBe(key.q, Q_LEAF_ID_LEN);
    GetPutBe(LMOTS_SHA256_N32_W8, TYPE_LEN);
    GetPutBe(LMS_SHA256_M32_H10, TYPE_LEN);
    var sig := q + ots + t + path;
    assert sig[SIG_OTS_OFFSET..SIG_OTS_OFFSET + TYPE_LEN] == ots[..TYPE_LEN] == PutBe(LMOTS_SHA256_N32_W8, TYPE_LEN);
  }

  /** LMS end to end: what the signer produces for any leaf, message and
      randomizer is accepted under the public key of the same private key. */
  lemma LmsCorrect(h: HashFunction, key: LmsKey, C: Digest, msg: seq<byte>)
    requires key.q < LeafCount(LMS_SHA256_M32_H10)
    ensures LmsAccepts(h, PublicKeyOf(h, key), msg, LmsSignature(h, key, C, msg))
  {
    var height := TreeHeight(LMS_SHA256_M32_H10);
    var keys := OtsPublics(h, key.I, key.seed, Pow2(height));
    LmsSignatureParts(h, key, C, msg);
    OtsCorrect(h, OtsParameters(key.I, key.q), OtsSecret(h, key.I, key.seed, key.q), C, msg);
    FoldReachesRoot(h, key.I, keys, height, key.q);
  }

  // ----------------------------------------- what a signature is bound to

  /** The string hashed for the parent of a node. */
  function ParentInput(I: seq<byte>, node: nat, self: Digest, sibling: Digest): seq<byte> {
    Input(I, if node % 2 == 1 then InnerNode(node / 2, sibling, self) else InnerNode(node / 2, self, sibling))
  }

  /** The strings hashed in folding the first k path elements. */
  function FoldInputs(h: HashFunction, I: seq<byte>, leafValue: Digest, leaf: nat, path: seq<byte>, k: nat): set<seq<byte>>
    requires k * N_HASH_LEN <= |path|
    decreases k, |path|
  {
    if k == 0 then {}
    else FoldInputs(h, I, leafValue, leaf, path, k - 1)
         + {ParentInput(I, Ancestor(leaf, k - 1), FoldPath(h, I, leafValue, leaf, path, k - 1), Block(path, k - 1))}
  }

  lemma ParentBinds(h: HashFunction, I: seq<byte>, node: nat, a: Digest, s: Digest, b: Digest, t: Digest)
    requires ParentInput(I, node, a, s) == ParentInput(I, node, b, t)
    ensures a == b && s == t
  {
    var n := |I + PutBe(node / 2, 4) + D_INTR|;
    var x, y := ParentInput(I, node, a, s), ParentInput(I, node, b, t);
    assert x[n..n + N_HASH_LEN] == (if node % 2 == 1 then s else a) && x[n + N_HASH_LEN..] == if node % 2 == 1 then a else s;
    assert y[n..n + N_HASH_LEN] == (if node % 2 == 1 then t else b) && y[n + N_HASH_LEN..] == if node % 2 == 1 then b else t;
  }

  lemma PrefixBlocks(s: seq<byte>, k: nat)
    requires 0 < k && k * N_HASH_LEN <= |s|
    ensures s[..k * N_HASH_LEN] == s[..(k - 1) * N_HASH_LEN] + Block(s, k - 1)
  {
  }

  /** Paths from the same leaf to the same value start at the same leaf value and
      are the same. */
  lemma {:induction false} FoldBinds(h: HashFunction, I: seq<byte>, leaf: nat, u: Digest, p: seq<byte>,
                                     v: Digest, q: seq<byte>, k: nat)
    requires k * N_HASH_LEN <= |p| && k * N_HASH_LEN <= |q|
    requires FoldPath(h, I, u, leaf, p, k) == FoldPath(h, I, v, leaf, q, k)
    ensures (u == v && p[..k * N_HASH_LEN] == q[..k * N_HASH_LEN])
            || Clash(h, FoldInputs(h, I, u, leaf, p, k), FoldInputs(h, I, v, leaf, q, k))
  {
    if k > 0 {
      var a, b := FoldPath(h, I, u, leaf, p, k - 1), FoldPath(h, I, v, leaf, q, k - 1);
      var node := Ancestor(leaf, k - 1);
      var s, t := ParentInput(I, node, a, Block(p, k - 1)), ParentInput(I, node, b, Block(q, k - 1));
      assert h(s) == h(t);
      assert s in FoldInputs(h, I, u, leaf, p, k) && t in FoldInputs(h, I, v, leaf, q, k);
      if s == t {
        ParentBinds(h, I, node, a, Block(p, k - 1), b, Block(q, k - 1));
        FoldBinds(h, I, leaf, u, p, v, q, k - 1);
        PrefixBlocks(p, k);
        PrefixBlocks(q, k);
      }
    }
  }

  /** The strings hashed in verifying a signature. */
  function VerifyInputs(h: HashFunction, I: seq<byte>, msg: seq<byte>, sig: seq<byte>): set<seq<byte>>
    requires HasSignatureLength(sig)
  {
    var key := CandidateKey(h, I, msg, sig);
    CandidateInputs(h, OtsParameters(I, LeafField(sig)), msg, OtsField(sig))
    + {Input(I, LeafNode(LeafOf(sig), key))}
    + FoldInputs(h, I, LeafValue(h, I, key, LeafOf(sig)), LeafOf(sig), PathField(sig), TreeHeight(LMS_SHA256_M32_H10))
  }

  /** Signatures of one leaf with the same root have the same one-time key and
      the same path. */
  lemma RootBinds(h: HashFunction, I: seq<byte>, msg1: seq<byte>, sig1: seq<byte>, msg2: seq<byte>, sig2: seq<byte>)
    requires HasSignatureLength(sig1) && HasSignatureLength(sig2) && LeafField(sig1) == LeafField(sig2)
    requires CandidateRoot(h, I, msg1, sig1) == CandidateRoot(h, I, msg2, sig2)
    ensures (CandidateKey(h, I, msg1, sig1) == CandidateKey(h, I, msg2, sig2) && PathField(sig1) == PathField(sig2))
            || Clash(h, VerifyInputs(h, I, msg1, sig1), VerifyInputs(h, I, msg2, sig2))
  {
    hide CandidateInputs, OtsCandidate, FoldPath, FoldInputs, LeafField, Clash, OtsParameters;
    var leaf, height := LeafOf(sig1), TreeHeight(LMS_SHA256_M32_H10);
    var k1, k2 := CandidateKey(h, I, msg1, sig1), CandidateKey(h, I, msg2, sig2);
    var u, v := LeafValue(h, I, k1, leaf), LeafValue(h, I, k2, leaf);
    var p, q := PathField(sig1), PathField(sig2);
    FoldBinds(h, I, leaf, u, p, v, q, height);
    ClashIn(h, FoldInputs(h, I, u, leaf, p, height), FoldInputs(h, I, v, leaf, q, height),
            VerifyInputs(h, I, msg1, sig1), VerifyInputs(h, I, msg2, sig2));
    assert p[..height * N_HASH_LEN] == p && q[..height * N_HASH_LEN] == q;
    if u == v {
      LeafBinds(h, I, leaf, k1, k2);
    }
    ClashIn(h, {Input(I, LeafNode(leaf, k1))}, {Input(I, LeafNode(leaf, k2))},
            VerifyInputs(h, I, msg1, sig1), VerifyInputs(h, I, msg2, sig2));
  }

  lemma LeafBinds(h: HashFunction, I: seq<byte>, r: nat, a: Digest, b: Digest)
    requires LeafValue(h, I, a, r) == LeafValue(h, I, b, r)
    ensures a == b || Clash(h, {Input(I, LeafNode(r, a))}, {Input(I, LeafNode(r, b))})
  {
    var s, t := Input(I, LeafNode(r, a)), Input(I, LeafNode(r, b));
    assert s[|I + PutBe(r, 4) + D_LEAF|..] == a && t[|I + PutBe(r, 4) + D_LEAF|..] == b;
    assert s in {s} && t in {t};
  }

  /** Whatever is accepted under the public key of a private key names a leaf of
      its tree, the one-time key of that leaf and its path, short of a collision
      with what a genuine signature of the leaf makes the verifier hash. */
  lemma AcceptedLeaf(h: HashFunction, key: LmsKey, msg: seq<byte>, sig: seq<byte>, C: Digest)
    requires LmsAccepts(h, PublicKeyOf(h, key), msg, sig)
    ensures LeafField(sig) < LeafCount(LMS_SHA256_M32_H10)
    ensures var at := key.(q := LeafField(sig));
            (CandidateKey(h, key.I, msg, sig) == OtsPublic(h, key.I, key.seed, at.q) && PathField(sig) == SignaturePath(h, at))
            || Clash(h, VerifyInputs(h, key.I, msg, sig), VerifyInputs(h, key.I, msg, LmsSignature(h, at, C, msg)))
  {
    hide CandidateInputs, OtsCandidate, OtsPublicKey, CandidateRoot, FoldInputs, Clash, LmsSignature, SignaturePath, Node;
    var at := key.(q := LeafField(sig));
    var genuine := LmsSignature(h, at, C, msg);
    LmsCorrect(h, at, C, msg);
    LmsSignatureParts(h, at, C, msg);
    RootBinds(h, key.I, msg, sig, msg, genuine);
    OtsCorrect(h, OtsParameters(key.I, at.q), OtsSecret(h, key.I, key.seed, at.q), C, msg);
  }

  /** Two signatures of the same leaf accepted under the same key, over different
      messages or with different randomizers: the two verifications contain a
      hash collision, or the one-time signatures a value that reaches a value of
      the other one by hashing on. So what a signer who signs once with each leaf
      has produced is not accepted for anything else without such a value. */
  lemma LmsBinding(h: HashFunction, pub: LmsPublicKey, msg1: seq<byte>, sig1: seq<byte>, msg2: seq<byte>, sig2: seq<byte>)
    requires LmsAccepts(h, pub, msg1, sig1) && LmsAccepts(h, pub, msg2, sig2) && LeafField(sig1) == LeafField(sig2)
    requires msg1 != msg2 || Randomizer(OtsField(sig1)) != Randomizer(OtsField(sig2))
    ensures Clash(h, VerifyInputs(h, pub.params.I, msg1, sig1), VerifyInputs(h, pub.params.I, msg2, sig2))
            || Reaches(h, OtsParameters(pub.params.I, LeafField(sig1)), msg1, OtsField(sig1), msg2, OtsField(sig2))
  {
    hide CandidateInputs, OtsCandidate, CandidateRoot, FoldInputs, LeafField, Clash, OtsParameters, Reaches;
    var I, p := pub.params.I, OtsParameters(pub.params.I, LeafField(sig1));
    RootBinds(h, I, msg1, sig1, msg2, sig2);
    if CandidateKey(h, I, msg1, sig1) == CandidateKey(h, I, msg2, sig2) {
      OtsBinding(h, p, msg1, OtsField(sig1), msg2, OtsField(sig2));
      ClashIn(h, CandidateInputs(h, p, msg1, OtsField(sig1)), CandidateInputs(h, p, msg2, OtsField(sig2)),
              VerifyInputs(h, I, msg1, sig1), VerifyInputs(h, I, msg2, sig2));
    }
  }

  /** One signature is accepted for one message only, short of a collision or of
      a chain value that returns to itself. */
  lemma LmsOneMessage(h: HashFunction, pub: LmsPublicKey, msg1: seq<byte>, msg2: seq<byte>, sig: seq<byte>)
    requires LmsAccepts(h, pub, msg1, sig) && LmsAccepts(h, pub, msg2, sig) && msg1 != msg2
    ensures Clash(h, VerifyInputs(h, pub.params.I, msg1, sig), VerifyInputs(h, pub.params.I, msg2, sig))
            || exists i: nat, a: nat, b: nat :: i < P_DIGITS
                 && Returns(h, OtsParameters(pub.params.I, LeafField(sig)), i, a, b, Block(Elements(OtsField(sig)), i))
  {
    hide CandidateInputs, OtsCandidate, CandidateRoot, FoldInputs, LeafField, Clash, OtsParameters, Returns;
    var I, p := pub.params.I, OtsParameters(pub.params.I, LeafField(sig));
    RootBinds(h, I, msg1, sig, msg2, sig);
    if CandidateKey(h, I, msg1, sig) == CandidateKey(h, I, msg2, sig) {
      OneMessage(h, p, msg1, msg2, OtsField(sig));
      ClashIn(h, CandidateInputs(h, p, msg1, OtsField(sig)), CandidateInputs(h, p, msg2, OtsField(sig)),
              VerifyInputs(h, I, msg1, sig), VerifyInputs(h, I, msg2, sig));
    }
  }

  /** For a leaf, a message and a randomizer at most one signature is accepted,
      short of a collision. */
  lemma LmsOneSignature(h: HashFunction, pub: LmsPublicKey, msg: seq<byte>, sig1: seq<byte>, sig2: seq<byte>)
    requires LmsAccepts(h, pub, msg, sig1) && LmsAccepts(h, pub, msg, sig2) && LeafField(sig1) == LeafField(sig2)
    requires Randomizer(OtsField(sig1)) == Randomizer(OtsField(sig2))
    ensures sig1 == sig2 || Clash(h, VerifyInputs(h, pub.params.I, msg, sig1), VerifyInputs(h, pub.params.I, msg, sig2))
  {
    hide CandidateInputs, OtsCandidate, CandidateRoot, FoldInputs, Clash, OtsParameters;
    var I, p := pub.params.I, OtsParameters(pub.params.I, LeafField(sig1));
    var o1, o2 := OtsField(sig1), OtsField(sig2);
    RootBinds(h, I, msg, sig1, msg, sig2);
    SameFields(sig1, sig2);
    if CandidateKey(h, I, msg, sig1) == CandidateKey(h, I, msg, sig2) {
      OneSignature(h, p, msg, o1, o2);
      ClashIn(h, CandidateInputs(h, p, msg, o1), CandidateInputs(h, p, msg, o2),
              VerifyInputs(h, I, msg, sig1), VerifyInputs(h, I, msg, sig2));
    }
  }

  lemma SignatureBytes(sig: seq<byte>)
    requires HasSignatureLength(sig)
    ensures OtsField(sig)[..TYPE_LEN + N_HASH_LEN]
         == sig[SIG_OTS_OFFSET..SIG_OTS_OFFSET + TYPE_LEN] + Randomizer(OtsField(sig))
    ensures sig == sig[..Q_LEAF_ID_LEN] + OtsField(sig) + sig[SIG_TYPE_OFFSET..SIG_PATH_OFFSET] + PathField(sig)
  {
    var ots := OtsField(sig);
    assert ots[..TYPE_LEN] == sig[SIG_OTS_OFFSET..SIG_OTS_OFFSET + TYPE_LEN];
    assert ots[..TYPE_LEN + N_HASH_LEN] == ots[..TYPE_LEN] + ots[TYPE_LEN..TYPE_LEN + N_HASH_LEN];
  }

  /** The number fields of a signature determine their bytes. */
  lemma SameFields(sig1: seq<byte>, sig2: seq<byte>)
    requires HasSignatureLength(sig1) && HasSignatureLength(sig2) && LeafField(sig1) == LeafField(sig2)
    requires OtsTypeField(sig1) == OtsTypeField(sig2) && TypeField(sig1) == TypeField(sig2)
    requires Randomizer(OtsField(sig1)) == Randomizer(OtsField(sig2))
    ensures OtsField(sig1)[..TYPE_LEN + N_HASH_LEN] == OtsField(sig2)[..TYPE_LEN + N_HASH_LEN]
    ensures OtsField(sig1) == OtsField(sig2) && PathField(sig1) == PathField(sig2) ==> sig1 == sig2
  {
    PutGetBe(sig1[..Q_LEAF_ID_LEN]);
    PutGetBe(sig2[..Q_LEAF_ID_LEN]);
    PutGetBe(sig1[SIG_OTS_OFFSET..SIG_OTS_OFFSET + TYPE_LEN]);
    PutGetBe(sig2[SIG_OTS_OFFSET..SIG_OTS_OFFSET + TYPE_LEN]);
    PutGetBe(sig1[SIG_TYPE_OFFSET..SIG_PATH_OFFSET]);
    PutGetBe(sig2[SIG_TYPE_OFFSET..SIG_PATH_OFFSET]);
    SignatureBytes(sig1);
    SignatureBytes(sig2);
    hide GetBe, PutBe;
  }

  // ------------------------------------------------------ runs of signing

  datatype SignOutcome = SignOutcome(status: LmsStatus, msg: seq<byte>, signature: seq<byte>)

  /** What one call of mbedtls_lms_sign on a generated key may do. */
  ghost predicate SignStep(h: HashFunction, before: LmsKey, o: SignOutcome, after: LmsKey) {
    && after.I == before.I && after.seed == before.seed
    && match o.status
       case Success =>
         && before.q < LeafCount(LMS_SHA256_M32_H10) && after.q == before.q + 1
         && exists C :: o.signature == LmsSignature(h, before, C, o.msg)
       case HardwareFailure => before.q < LeafCount(LMS_SHA256_M32_H10) && after.q == before.q + 1
       case AllocFailed => before.q < LeafCount(LMS_SHA256_M32_H10) && after.q == before.q + 1
       case BufferTooSmall => after.q == before.q
       case OutOfPrivateKeys => before.q == LeafCount(LMS_SHA256_M32_H10) && after.q == before.q
       case _ => false
  }

  ghost predicate SignRun(h: HashFunction, keys: seq<LmsKey>, outs: seq<SignOutcome>) {
    && |keys| == |outs| + 1
    && forall i :: 0 <= i < |outs| ==> SignStep(h, keys[i], outs[i], keys[i + 1])
  }

  lemma {:induction false} RunKeepsKey(h: HashFunction, keys: seq<LmsKey>, outs: seq<SignOutcome>, i: nat, j: nat)
    requires SignRun(h, keys, outs) && i <= j < |keys|
    ensures keys[j].I == keys[i].I && keys[j].seed == keys[i].seed
    ensures keys[i].q <= keys[j].q
    decreases j - i
  {
    if i < j {
      RunKeepsKey(h, keys, outs, i, j - 1);
      assert SignStep(h, keys[j - 1], outs[j - 1], keys[j]);
    }
  }

  /** Whatever the history of successful and failed signing calls, every
      signature ever returned is accepted under the public key computed from
      the context at any other moment of the run, earlier or later. */
  lemma RunSignaturesAccepted(h: HashFunction, keys: seq<LmsKey>, outs: seq<SignOutcome>, i: nat, k: nat)
    requires SignRun(h, keys, outs) && i < |outs| && k < |keys|
    requires outs[i].status == Success
    ensures LmsAccepts(h, PublicKeyOf(h, keys[k]), outs[i].msg, outs[i].signature)
  {
    assert SignStep(h, keys[i], outs[i], keys[i + 1]);
    var C :| outs[i].signature == LmsSignature(h, keys[i], C, outs[i].msg);
    LmsCorrect(h, keys[i], C, outs[i].msg);
    if i <= k {
      RunKeepsKey(h, keys, outs, i, k);
    } else {
      RunKeepsKey(h, keys, outs, k, i);
    }
  }

  /** Two successful calls of a run never name the same leaf: the later one
      carries the larger index, even with failed calls in between. */
  lemma RunLeavesIncrease(h: HashFunction, keys: seq<LmsKey>, outs: seq<SignOutcome>, i: nat, j: nat)
    requires SignRun(h, keys, outs) && i < j < |outs|
    requires outs[i].status == Success && outs[j].status == Success
    ensures HasSignatureLength(outs[i].signature) && HasSignatureLength(outs[j].signature)
    ensures LeafField(outs[i].signature) < LeafField(outs[j].signature)
  {
    assert SignStep(h, keys[i], outs[i], keys[i + 1]) && SignStep(h, keys[j], outs[j], keys[j + 1]);
    var C :| outs[i].signature == LmsSignature(h, keys[i], C, outs[i].msg);
    var D :| outs[j].signature == LmsSignature(h, keys[j], D, outs[j].msg);
    LmsSignatureParts(h, keys[i], C, outs[i].msg);
    LmsSignatureParts(h, keys[j], D, outs[j].msg);
    RunKeepsKey(h, keys, outs, i + 1, j);
  }

  function Consumed(outs: seq<SignOutcome>): nat {
    if outs == [] then 0
    else Consumed(outs[..|outs| - 1])
         + if outs[|outs| - 1].status in {Success, HardwareFailure, AllocFailed} then 1 else 0
  }

  /** Successful and failed attempts together consume at most 2^h leaves. */
  lemma {:induction false} RunBounded(h: HashFunction, keys: seq<LmsKey>, outs: seq<SignOutcome>)
    requires SignRun(h, keys, outs)
    requires keys[0].q <= LeafCount(LMS_SHA256_M32_H10)
    ensures keys[0].q + Consumed(outs) == keys[|outs|].q <= LeafCount(LMS_SHA256_M32_H10)
  {
    if outs != [] {
      var n := |outs| - 1;
      assert SignStep(h, keys[n], outs[n], keys[n + 1]);
      RunBounded(h, keys[..n + 1], outs[..n]);
    }
  }
}
