// The LMS contexts and their operations, in the order extras/lms.c performs
// them, each proved against the functions of LmsSpec.
module Lms {
  import opened Bytes
  import opened Hashing
  import opened Options
  import opened LmotsSpec
  import opened Lmots
  import opened LmsSpec

  /** The public key contexts hold the given keys, in order. */
  ghost predicate HoldKeys(publics: seq<LmotsPublic>, keys: seq<Digest>)
    reads publics
  {
    && |publics| == |keys|
    && forall i :: 0 <= i < |publics| ==> publics[i].publicKey == keys[i]
  }

  method CreateMerkleLeafValue(h: HashFunction, reliable: bool, I: seq<byte>, key: Digest, r: nat)
      returns (status: LmsStatus, out: Digest)
    ensures status == Success || status == HardwareFailure
    ensures reliable ==> status == Success
    ensures status == Success ==> out == LeafValue(h, I, key, r)
  {
    status, out := HashParts(h, reliable, I + PutBe(r, 4) + D_LEAF + key);
  }

  method CreateMerkleInternalValue(h: HashFunction, reliable: bool, I: seq<byte>, left: Digest, right: Digest, r: nat)
      returns (status: LmsStatus, out: Digest)
    ensures status == Success || status == HardwareFailure
    ensures reliable ==> status == Success
    ensures status == Success ==> out == InternalValue(h, I, left, right, r)
  {
    status, out := HashParts(h, reliable, I + PutBe(r, 4) + D_INTR + left + right);
  }

  /** Overwriting one element of a flat array of digests leaves the others alone. */
  lemma BlockOfSplice(s: seq<byte>, r: nat, d: Digest, k: nat)
    requires (r + 1) * N_HASH_LEN <= |s| && (k + 1) * N_HASH_LEN <= |s|
    ensures var t := s[..r * N_HASH_LEN] + d + s[(r + 1) * N_HASH_LEN..];
            && |t| == |s|
            && Block(t, k) == if k == r then d else Block(s, k)
  {
  }

  method StoreNode(tree: array<byte>, r: nat, d: Digest)
    requires (r + 1) * N_HASH_LEN <= tree.Length
    modifies tree
    ensures forall k: nat :: (k + 1) * N_HASH_LEN <= tree.Length ==>
              Block(tree[..], k) == if k == r then d else old(Block(tree[..], k))
  {
    ghost var before := tree[..];
    CopyBytes(tree, r * N_HASH_LEN, d);
    forall k: nat | (k + 1) * N_HASH_LEN <= tree.Length
      ensures Block(tree[..], k) == if k == r then d else Block(before, k)
    {
      BlockOfSplice(before, r, d, k);
    }
  }

  /** calculate_merkle_tree: fills the array-embedded tree, leaves upward. The
      ghost argument names the tree the buffer is to hold. */
  method CalculateMerkleTree(h: HashFunction, reliable: bool, params: LmsParameters,
                             publics: seq<LmotsPublic>, tree: array<byte>,
                             ghost keys: seq<Digest>, ghost nodes: seq<Digest>)
      returns (status: LmsStatus)
    requires |publics| == LeafCount(params.lmstype)
    requires tree.Length == 2 * LeafCount(params.lmstype) * N_HASH_LEN
    requires HoldKeys(publics, keys) && IsTreeOver(h, params.I, keys, nodes)
    modifies tree
    ensures status == Success || status == HardwareFailure
    ensures reliable ==> status == Success
    ensures status == Success ==> forall r: nat :: 1 <= r < |nodes| ==> Block(tree[..], r) == nodes[r]
  {
    status := Success;
    var first := LeafCount(params.lmstype);
    var idx := 0;
    while idx < first
      invariant 0 <= idx <= first
      invariant status == Success
      invariant HoldKeys(publics, keys)
      invariant forall r: nat :: first <= r < first + idx ==> Block(tree[..], r) == nodes[r]
    {
      var value;
      status, value := CreateMerkleLeafValue(h, reliable, params.I, publics[idx].publicKey, first + idx);
      if status != Success {
        return;
      }
      StoreNode(tree, first + idx, value);
      idx := idx + 1;
    }
    var r := first - 1;
    while r > 0
      invariant 0 <= r < first
      invariant status == Success
      invariant forall k: nat :: r < k < 2 * first ==> Block(tree[..], k) == nodes[k]
    {
      var value;
      var left, right := Block(tree[..], 2 * r), Block(tree[..], 2 * r + 1);
      status, value := CreateMerkleInternalValue(h, reliable, params.I, left, right, r);
      if status != Success {
        return;
      }
      assert value == ChildrenValue(h, params.I, nodes, r);
      StoreNode(tree, r, value);
      r := r - 1;
    }
  }

  /** get_merkle_path, writing into out from `offset`. */
  method GetMerklePath(h: HashFunction, reliable: bool, allocates: bool, params: LmsParameters,
                       publics: seq<LmotsPublic>, leaf: nat, out: array<byte>, offset: nat,
                       ghost keys: seq<Digest>, ghost nodes: seq<Digest>)
      returns (status: LmsStatus)
    requires |publics| == LeafCount(params.lmstype)
    requires LeafCount(params.lmstype) <= leaf < 2 * LeafCount(params.lmstype)
    requires offset + TreeHeight(params.lmstype) * N_HASH_LEN <= out.Length
    requires HoldKeys(publics, keys) && IsTreeOver(h, params.I, keys, nodes)
    modifies out
    ensures status == AllocFailed <==> !allocates
    ensures status in {Success, AllocFailed, HardwareFailure}
    ensures reliable ==> status != HardwareFailure
    ensures status != Success ==> out[..] == old(out[..])
    ensures var height := TreeHeight(params.lmstype);
            status == Success ==>
              out[..] == old(out[..offset]) + AuthPath(nodes, height, leaf, height)
                         + old(out[offset + height * N_HASH_LEN..])
  {
    if !allocates {
      return AllocFailed;
    }
    var tree := new byte[2 * LeafCount(params.lmstype) * N_HASH_LEN];
    status := CalculateMerkleTree(h, reliable, params, publics, tree, keys, nodes);
    if status != Success {
      return;
    }
    var height := TreeHeight(params.lmstype);
    ghost var before := out[..];
    var current := leaf;
    var level := 0;
    while level < height
      invariant 0 <= level <= height
      invariant current == Ancestor(leaf, level)
      invariant forall r: nat :: 1 <= r < |nodes| ==> Block(tree[..], r) == nodes[r]
      invariant out[..] == before[..offset] + AuthPath(nodes, height, leaf, level) + before[offset + level * N_HASH_LEN..]
    {
      SiblingRange(leaf, height, level);
      var adjacent := BitXor(current, 1);
      CopyBytes(out, offset + level * N_HASH_LEN, Block(tree[..], adjacent));
      current := current / 2;
      level := level + 1;
      PathExtends(before, out[..], offset, nodes, height, leaf, level);
    }
  }

  lemma PathExtends(before: seq<byte>, after: seq<byte>, offset: nat, nodes: seq<Digest>, height: nat, leaf: nat, k: nat)
    requires |nodes| == 2 * Pow2(height) && Pow2(height) <= leaf < 2 * Pow2(height)
    requires 1 <= k <= height && offset + k * N_HASH_LEN <= |before|
    requires BitXor(Ancestor(leaf, k - 1), 1) < |nodes|
    requires var s := before[..offset] + AuthPath(nodes, height, leaf, k - 1) + before[offset + (k - 1) * N_HASH_LEN..];
             after == s[..offset + (k - 1) * N_HASH_LEN] + nodes[BitXor(Ancestor(leaf, k - 1), 1)] + s[offset + k * N_HASH_LEN..]
    ensures after == before[..offset] + AuthPath(nodes, height, leaf, k) + before[offset + k * N_HASH_LEN..]
  {
    var path, last := AuthPath(nodes, height, leaf, k - 1), nodes[BitXor(Ancestor(leaf, k - 1), 1)];
    assert AuthPath(nodes, height, leaf, k) == path + last;
    assert after == before[..offset] + (path + last) + before[offset + k * N_HASH_LEN..];
  }

  /** The loop of mbedtls_lms_verify, overwriting the candidate node in place. */
  method FoldSignaturePath(h: HashFunction, reliable: bool, I: seq<byte>, leafValue: Digest, leaf: nat,
                           path: seq<byte>, height: nat)
      returns (status: LmsStatus, node: Digest)
    requires |path| == height * N_HASH_LEN
    ensures status == Success || status == HardwareFailure
    ensures reliable ==> status == Success
    ensures status == Success ==> node == FoldPath(h, I, leafValue, leaf, path, height)
  {
    status := Success;
    node := leafValue;
    var current := leaf;
    var level := 0;
    while level < height
      invariant 0 <= level <= height
      invariant status == Success
      invariant current == Ancestor(leaf, level)
      invariant node == FoldPath(h, I, leafValue, leaf, path, level)
    {
      var left, right := node, Block(path, level);
      if current % 2 == 1 {
        left, right := right, left;
      }
      status, node := CreateMerkleInternalValue(h, reliable, I, left, right, current / 2);
      if status != Success {
        return;
      }
      current := current / 2;
      level := level + 1;
    }
  }

  /** The RFC 8554 section 5.3 encoding of a public key. */
  function EncodePublicKey(pub: LmsPublicKey): seq<byte> {
    PutBe(pub.params.lmstype, TYPE_LEN) + PutBe(pub.params.otstype, TYPE_LEN) + pub.params.I + pub.root
  }

  /** MBEDTLS_LMS_M_NODE_BYTES */
  function NodeBytes(lmstype: nat): nat {
    if lmstype == LMS_SHA256_M32_H10 then N_HASH_LEN else 0
  }

  /** MBEDTLS_LMS_PUBLIC_KEY_LEN */
  function PublicKeyLen(lmstype: nat): nat {
    TYPE_LEN + TYPE_LEN + I_KEY_ID_LEN + NodeBytes(lmstype)
  }

  ghost predicate Supported(params: LmsParameters) {
    && |params.I| == I_KEY_ID_LEN
    && params.otstype == LMOTS_SHA256_N32_W8
    && params.lmstype == LMS_SHA256_M32_H10
  }

  /** mbedtls_lms_public_t */
  class LmsPublic {
    var params: LmsParameters
    var root: Digest
    var havePublicKey: bool

    /** mbedtls_lms_public_init */
    constructor ()
      ensures !havePublicKey
    {
      params := LmsParameters(Zeros(I_KEY_ID_LEN), 0, 0);
      root := Zeros(N_HASH_LEN);
      havePublicKey := false;
    }

    ghost function Key(): LmsPublicKey
      reads this
    {
      LmsPublicKey(params, root)
    }

    /** mbedtls_lms_import_public_key: succeeds on exactly the encodings of
        supported public keys and then holds the key encoded. */
    method ImportPublicKey(key: seq<byte>) returns (status: LmsStatus)
      modifies this
      ensures status == Success || status == BadInputData
      ensures status == Success ==> havePublicKey && Supported(params) && EncodePublicKey(Key()) == key
      ensures status != Success ==> forall pub: LmsPublicKey :: Supported(pub.params) ==> EncodePublicKey(pub) != key
      ensures status != Success ==> havePublicKey == old(havePublicKey)
    {
      ghost var givenKey := key;
      forall pub: LmsPublicKey | Supported(pub.params) && EncodePublicKey(pub) == key
        ensures |key| == PublicKeyLen(LMS_SHA256_M32_H10)
        ensures GetBe(key[..TYPE_LEN]) == LMS_SHA256_M32_H10
        ensures GetBe(key[TYPE_LEN..2 * TYPE_LEN]) == LMOTS_SHA256_N32_W8
      {
        EncodingParts(pub);
      }
      if |key| < 4 {
        return BadInputData;
      }
      var lmstype := GetBe(key[..TYPE_LEN]);
      if lmstype != LMS_SHA256_M32_H10 {
        return BadInputData;
      }
      params := params.(lmstype := lmstype);
      if |key| != PublicKeyLen(lmstype) {
        return BadInputData;
      }
      var otstype := GetBe(key[TYPE_LEN..2 * TYPE_LEN]);
      if otstype != LMOTS_SHA256_N32_W8 {
        return BadInputData;
      }
      params := params.(otstype := otstype, I := key[2 * TYPE_LEN..2 * TYPE_LEN + I_KEY_ID_LEN]);
      root := key[2 * TYPE_LEN + I_KEY_ID_LEN..];
      havePublicKey := true;
      PutGetBe(key[..TYPE_LEN]);
      PutGetBe(key[TYPE_LEN..2 * TYPE_LEN]);
      assert key == key[..TYPE_LEN] + key[TYPE_LEN..2 * TYPE_LEN] + params.I + root;
      hide GetBe, PutBe;
      assert EncodePublicKey(Key()) == key;
      return Success;
    }

    /** mbedtls_lms_export_public_key. Of a context that holds no key of a
        supported type the size that counts is the one without a root. */
    method ExportPublicKey(keySize: nat) returns (status: LmsStatus, key: seq<byte>)
      ensures status == BufferTooSmall <==> keySize < PublicKeyLen(params.lmstype)
      ensures status == BadInputData <==> keySize >= PublicKeyLen(params.lmstype) && !havePublicKey
      ensures status in {Success, BufferTooSmall, BadInputData}
      ensures status == Success ==> key + root[NodeBytes(params.lmstype)..] == EncodePublicKey(Key())
      ensures status == Success && Supported(params) ==> key == EncodePublicKey(Key()) && |key| <= keySize
    {
      if keySize < PublicKeyLen(params.lmstype) {
        return BufferTooSmall, [];
      }
      if !havePublicKey {
        return BadInputData, [];
      }
      key := PutBe(params.lmstype, TYPE_LEN) + PutBe(params.otstype, TYPE_LEN) + params.I
             + root[..NodeBytes(params.lmstype)];
      status := Success;
    }

    /** mbedtls_lms_calculate_public_key: the key does not depend on how many
        signatures the private context has produced. */
    method CalculatePublicKey(h: HashFunction, reliable: bool, allocates: bool, priv: LmsPrivate)
        returns (status: LmsStatus)
      requires priv.Valid(h)
      modifies this
      ensures status == BadInputData <==> !priv.havePrivateKey
      ensures status == AllocFailed <==> priv.havePrivateKey && !allocates
      ensures status in {Success, BadInputData, AllocFailed, HardwareFailure}
      ensures reliable ==> status != HardwareFailure
      ensures status == Success ==> havePublicKey && Key() == PublicKeyOf(h, priv.Key())
      ensures status == BadInputData || status == AllocFailed ==> unchanged(this)
      ensures status == HardwareFailure ==>
          havePublicKey == old(havePublicKey) && root == old(root) && params == priv.params
    {
      if !priv.havePrivateKey {
        return BadInputData;
      }
      if !allocates {
        return AllocFailed;
      }
      var tree := new byte[2 * LeafCount(priv.params.lmstype) * N_HASH_LEN];
      params := priv.params;
      ghost var keys := OtsPublics(h, params.I, priv.seed, LeafCount(params.lmstype));
      TreeNodesIsTree(h, params.I, keys, TreeHeight(params.lmstype));
      status := CalculateMerkleTree(h, reliable, priv.params, priv.otsPublics, tree, keys,
                                    TreeNodes(h, params.I, keys, TreeHeight(params.lmstype)));
      if status != Success {
        return;
      }
      root := Block(tree[..], 1);
      havePublicKey := true;
    }

    /** mbedtls_lms_verify: accepts exactly what RFC 8554 accepts. */
    method Verify(h: HashFunction, reliable: bool, msg: seq<byte>, sig: seq<byte>) returns (status: LmsStatus)
      ensures status == BadInputData <==>
                !havePublicKey || params.lmstype != LMS_SHA256_M32_H10 || params.otstype != LMOTS_SHA256_N32_W8
      ensures status in {Success, BadInputData, VerifyFailed}
      ensures status == Success ==> LmsAccepts(h, Key(), msg, sig)
      ensures reliable && status == VerifyFailed ==> !LmsAccepts(h, Key(), msg, sig)
    {
      if !havePublicKey {
        return BadInputData;
      }
      if params.lmstype != LMS_SHA256_M32_H10 {
        return BadInputData;
      }
      if params.otstype != LMOTS_SHA256_N32_W8 {
        return BadInputData;
      }
      if |sig| != LmsSigLen(params.lmstype, params.otstype) {
        return VerifyFailed;
      }
      if OtsTypeField(sig) != LMOTS_SHA256_N32_W8 {
        return VerifyFailed;
      }
      if TypeField(sig) != LMS_SHA256_M32_H10 {
        return VerifyFailed;
      }
      var q := LeafField(sig);
      if q >= LeafCount(params.lmstype) {
        return VerifyFailed;
      }
      var candidate;
      status, candidate := CalculatePublicKeyCandidate(h, reliable, OtsParameters(params.I, q), msg,
                                                       OtsField(sig), N_HASH_LEN);
      if status != Success {
        return VerifyFailed;
      }
      var leaf := LeafCount(params.lmstype) + q;
      var node;
      status, node := CreateMerkleLeafValue(h, reliable, params.I, candidate, leaf);
      if status != Success {
        return VerifyFailed;
      }
      status, node := FoldSignaturePath(h, reliable, params.I, node, leaf, PathField(sig), TreeHeight(params.lmstype));
      if status != Success {
        return VerifyFailed;
      }
      if node != root {
        return VerifyFailed;
      }
      return Success;
    }
  }

  lemma EncodingParts(pub: LmsPublicKey)
    requires Supported(pub.params)
    ensures var s := EncodePublicKey(pub);
            && |s| == PublicKeyLen(LMS_SHA256_M32_H10)
            && GetBe(s[..TYPE_LEN]) == pub.params.lmstype
            && GetBe(s[TYPE_LEN..2 * TYPE_LEN]) == pub.params.otstype
            && s[2 * TYPE_LEN..2 * TYPE_LEN + I_KEY_ID_LEN] == pub.params.I
            && s[2 * TYPE_LEN + I_KEY_ID_LEN..] == pub.root
  {
    LeafCountValue();
    ConcatParts(PutBe(pub.params.lmstype, TYPE_LEN), PutBe(pub.params.otstype, TYPE_LEN), pub.params.I, pub.root);
    GetPutBe(pub.params.lmstype, TYPE_LEN);
    GetPutBe(pub.params.otstype, TYPE_LEN);
  }

  /** Distinct public keys have distinct encodings, so importing what was
      exported gives back the same key. */
  lemma EncodingInjective(a: LmsPublicKey, b: LmsPublicKey)
    requires Supported(a.params) && Supported(b.params)
    requires EncodePublicKey(a) == EncodePublicKey(b)
    ensures a == b
  {
    EncodingParts(a);
    EncodingParts(b);
  }

  /** The allocation and initialization loop of mbedtls_lms_generate_private_key. */
  method InitOtsContexts(n: nat) returns (privates: seq<LmotsPrivate>, publics: seq<LmotsPublic>)
    ensures |privates| == |publics| == n
    ensures forall i :: 0 <= i < n ==> fresh(privates[i]) && fresh(publics[i])
    ensures forall i :: 0 <= i < n ==> privates[i].Valid() && !privates[i].havePrivateKey
    ensures forall i, j :: 0 <= i < j < n ==> privates[i] != privates[j]
    ensures forall i, j :: 0 <= i < j < n ==> publics[i] != publics[j]
  {
    privates, publics := [], [];
    var idx := 0;
    while idx < n
      invariant 0 <= idx <= n && |privates| == |publics| == idx
      invariant forall i :: 0 <= i < idx ==> fresh(privates[i]) && fresh(publics[i])
      invariant forall i :: 0 <= i < idx ==> privates[i].Valid() && !privates[i].havePrivateKey
      invariant forall i, j :: 0 <= i < j < idx ==> privates[i] != privates[j]
      invariant forall i, j :: 0 <= i < j < idx ==> publics[i] != publics[j]
    {
      var priv := new LmotsPrivate();
      var pub := new LmotsPublic();
      privates, publics := privates + [priv], publics + [pub];
      idx := idx + 1;
    }
  }

  /** A one-time key pair holds what the seed determines for its leaf. */
  ghost predicate HoldsLeaf(h: HashFunction, priv: LmotsPrivate, pub: LmotsPublic, I: seq<byte>, seed: seq<byte>, i: nat)
    reads priv, pub
  {
    && priv.Valid() && priv.havePrivateKey
    && priv.params == OtsParameters(I, i)
    && priv.privateKey == OtsSecret(h, I, seed, i)
    && pub.publicKey == OtsPublic(h, I, seed, i)
  }

  /** The key derivation loop of mbedtls_lms_generate_private_key. */
  method DeriveOtsKeys(h: HashFunction, reliable: bool, otstype: nat, I: seq<byte>, seed: seq<byte>,
                       privates: seq<LmotsPrivate>, publics: seq<LmotsPublic>)
      returns (status: LmsStatus)
    requires otstype == LMOTS_SHA256_N32_W8
    requires |privates| == |publics|
    requires forall i :: 0 <= i < |privates| ==> privates[i].Valid() && !privates[i].havePrivateKey
    requires forall i, j :: 0 <= i < j < |privates| ==> privates[i] != privates[j]
    requires forall i, j :: 0 <= i < j < |publics| ==> publics[i] != publics[j]
    modifies privates, publics
    ensures status == Success || status == HardwareFailure
    ensures reliable ==> status == Success
    ensures status == Success ==>
              forall i :: 0 <= i < |privates| ==> HoldsLeaf(h, privates[i], publics[i], I, seed, i)
  {
    status := Success;
    var idx := 0;
    while idx < |privates|
      invariant 0 <= idx <= |privates|
      invariant status == Success
      invariant forall i :: idx <= i < |privates| ==> privates[i].Valid() && !privates[i].havePrivateKey
      invariant forall i :: 0 <= i < idx ==> HoldsLeaf(h, privates[i], publics[i], I, seed, i)
    {
      status := privates[idx].GeneratePrivateKey(h, reliable, otstype, I, idx, seed);
      if status != Success {
        return;
      }
      status := publics[idx].CalculatePublicKey(h, reliable, privates[idx]);
      if status != Success {
        return;
      }
      assert HoldsLeaf(h, privates[idx], publics[idx], I, seed, idx);
      idx := idx + 1;
    }
  }

  /** mbedtls_lms_private_t */
  class LmsPrivate {
    var params: LmsParameters
    var q: nat
    var otsPrivates: seq<LmotsPrivate>
    var otsPublics: seq<LmotsPublic>
    var havePrivateKey: bool
    ghost var seed: seq<byte>

    /** mbedtls_lms_private_init */
    constructor ()
      ensures !havePrivateKey && fresh(this)
      ensures forall h :: Valid(h)
    {
      params := LmsParameters(Zeros(I_KEY_ID_LEN), 0, 0);
      q := 0;
      otsPrivates := [];
      otsPublics := [];
      havePrivateKey := false;
      seed := [];
    }

    ghost function Key(): LmsKey
      reads this
    {
      LmsKey(params.I, seed, q)
    }

    ghost predicate Valid(h: HashFunction)
      reads this, otsPrivates, otsPublics
    {
      && (havePrivateKey ==>
            && Supported(params)
            && |otsPrivates| == |otsPublics| == LeafCount(params.lmstype)
            && q <= LeafCount(params.lmstype)
            && (forall i, j :: 0 <= i < j < |otsPrivates| ==> otsPrivates[i] != otsPrivates[j])
            && (forall i :: 0 <= i < |otsPublics| ==> otsPublics[i].publicKey == OtsPublic(h, params.I, seed, i))
            && (forall i :: 0 <= i < |otsPrivates| ==>
                  otsPrivates[i].Valid() && otsPrivates[i].params == OtsParameters(params.I, i))
            && (forall i :: q <= i < |otsPrivates| ==>
                  otsPrivates[i].havePrivateKey && otsPrivates[i].privateKey == OtsSecret(h, params.I, seed, i)))
    }

    /** mbedtls_lms_private_free */
    method Free()
      modifies this
      ensures !havePrivateKey && q == 0 && otsPrivates == [] && otsPublics == []
      ensures forall h :: Valid(h)
    {
      params := LmsParameters(Zeros(I_KEY_ID_LEN), 0, 0);
      q := 0;
      otsPrivates := [];
      otsPublics := [];
      havePrivateKey := false;
    }

    /** mbedtls_lms_generate_private_key: every leaf's one-time key is derived
        from the seed; on failure the context is freed again. */
    method GeneratePrivateKey(h: HashFunction, reliable: bool, random: Option<seq<byte>>,
                              allocatesPrivates: bool, allocatesPublics: bool,
                              lmstype: nat, otstype: nat, seedBytes: seq<byte>)
        returns (status: LmsStatus)
      requires Valid(h)
      requires random.Some? ==> |random.value| == I_KEY_ID_LEN
      modifies this
      ensures Valid(h)
      ensures status == BadInputData <==>
                lmstype != LMS_SHA256_M32_H10 || otstype != LMOTS_SHA256_N32_W8 || old(havePrivateKey)
      ensures status == BadInputData ==> unchanged(this)
      ensures status in {Success, BadInputData, AllocFailed, HardwareFailure}
      ensures reliable && random.Some? && allocatesPrivates && allocatesPublics
              ==> status == Success || status == BadInputData
      ensures status == Success ==> random.Some? && havePrivateKey && Key() == LmsKey(random.value, seedBytes, 0)
      ensures status == AllocFailed || status == HardwareFailure ==> !havePrivateKey
    {
      if lmstype != LMS_SHA256_M32_H10 {
        return BadInputData;
      }
      if otstype != LMOTS_SHA256_N32_W8 {
        return BadInputData;
      }
      if havePrivateKey {
        return BadInputData;
      }
      params := LmsParameters(params.I, otstype, lmstype);
      havePrivateKey := true;
      if random.None? {
        Free();
        return HardwareFailure;
      }
      params := params.(I := random.value);
      if !allocatesPrivates {
        Free();
        return AllocFailed;
      }
      if !allocatesPublics {
        Free();
        return AllocFailed;
      }
      var n := LeafCount(lmstype);
      var privates, publics := InitOtsContexts(n);
      otsPrivates, otsPublics := privates, publics;
      seed := seedBytes;
      status := DeriveOtsKeys(h, reliable, otstype, params.I, seedBytes, privates, publics);
      if status != Success {
        Free();
        return;
      }
      q := 0;
      return Success;
    }

    /** mbedtls_lms_sign. A leaf index is consumed before anything can fail. */
    method Sign(h: HashFunction, reliable: bool, random: Option<Digest>, allocates: bool,
                msg: seq<byte>, sig: array<byte>)
        returns (status: LmsStatus)
      requires Valid(h)
      modifies this, otsPrivates, sig
      ensures Valid(h) && havePrivateKey == old(havePrivateKey) && params == old(params)
      ensures status == BadInputData <==> !old(havePrivateKey)
      ensures status in {BadInputData, BufferTooSmall, OutOfPrivateKeys} ==> Key() == old(Key()) && sig[..] == old(sig[..])
      ensures old(havePrivateKey) ==>
                && (status == BufferTooSmall <==> sig.Length < LmsSigLen(params.lmstype, params.otstype))
                && (status == OutOfPrivateKeys <==>
                      sig.Length >= LmsSigLen(params.lmstype, params.otstype) && old(q) == LeafCount(params.lmstype))
                && (reliable && random.Some? && allocates ==> status !in {HardwareFailure, AllocFailed})
                && SignStep(h, old(Key()),
                            SignOutcome(status, msg, if status == Success then WrittenSignature(sig) else []), Key())
      ensures status == Success ==>
                && random.Some?
                && LmsSigLen(params.lmstype, params.otstype) <= sig.Length
                && sig[..] == LmsSignature(h, old(Key()), random.value, msg)
                              + old(sig[LmsSigLen(params.lmstype, params.otstype)..])
    {
      if !havePrivateKey {
        return BadInputData;
      }
      if sig.Length < LmsSigLen(params.lmstype, params.otstype) {
        return BufferTooSmall;
      }
      if q >= LeafCount(params.lmstype) {
        return OutOfPrivateKeys;
      }
      var leaf := q;
      q := q + 1;
      status := SignWithLeaf(h, reliable, random, allocates, params, seed, leaf, otsPrivates[leaf], otsPublics, msg, sig);
      if status == Success {
        assert WrittenSignature(sig) == LmsSignature(h, old(Key()), random.value, msg);
      }
    }
  }

  /** The part of mbedtls_lms_sign that follows the update of the leaf counter. */
  method SignWithLeaf(h: HashFunction, reliable: bool, random: Option<Digest>, allocates: bool,
                      params: LmsParameters, ghost seed: seq<byte>, leaf: nat,
                      priv: LmotsPrivate, publics: seq<LmotsPublic>, msg: seq<byte>, sig: array<byte>)
      returns (status: LmsStatus)
    requires Supported(params) && leaf < |publics| == LeafCount(params.lmstype)
    requires HoldKeys(publics, OtsPublics(h, params.I, seed, LeafCount(params.lmstype)))
    requires priv.Valid() && priv.havePrivateKey
    requires priv.params == OtsParameters(params.I, leaf) && priv.privateKey == OtsSecret(h, params.I, seed, leaf)
    requires LmsSigLen(params.lmstype, params.otstype) <= sig.Length
    modifies priv, sig
    ensures priv.Valid() && priv.params == old(priv.params)
    ensures status in {Success, AllocFailed, HardwareFailure}
    ensures reliable && random.Some? && allocates ==> status == Success
    ensures status == Success ==>
              && random.Some?
              && !priv.havePrivateKey
              && sig[..] == LmsSignature(h, LmsKey(params.I, seed, leaf), random.value, msg)
                            + old(sig[LmsSigLen(params.lmstype, params.otstype)..])
  {
    ghost var height, keys := TreeHeight(params.lmstype), OtsPublics(h, params.I, seed, LeafCount(params.lmstype));
    ghost var nodes := TreeNodes(h, params.I, keys, height);
    TreeNodesIsTree(h, params.I, keys, height);
    ghost var path := AuthPath(nodes, height, LeafCount(params.lmstype) + leaf, height);
    ghost var key := LmsKey(params.I, seed, leaf);
    assert path == SignaturePath(h, key);
    ghost var s0 := sig[..];
    status := priv.Sign(h, reliable, random, msg, sig, SIG_OTS_OFFSET,
                        LmsSigLen(params.lmstype, params.otstype) - SIG_OTS_OFFSET);
    if status != Success {
      return;
    }
    ghost var s1 := sig[..];
    WriteHeaderFields(sig, leaf, params.lmstype);
    ghost var s3 := sig[..];
    status := GetMerklePath(h, reliable, allocates, params, publics, LeafCount(params.lmstype) + leaf,
                            sig, SIG_PATH_OFFSET, keys, nodes);
    if status != Success {
      return;
    }
    SignatureAssembled(h, key, random.value, msg, path, s0, s1, s3, sig[..]);
  }

  /** The type and leaf index fields, written in the order of mbedtls_lms_sign. */
  method WriteHeaderFields(sig: array<byte>, leaf: nat, lmstype: nat)
    requires SIG_PATH_OFFSET <= sig.Length
    modifies sig
    ensures sig[..] == PutBe(leaf, Q_LEAF_ID_LEN) + old(sig[SIG_OTS_OFFSET..SIG_TYPE_OFFSET])
                       + PutBe(lmstype, TYPE_LEN) + old(sig[SIG_PATH_OFFSET..])
  {
    CopyBytes(sig, SIG_TYPE_OFFSET, PutBe(lmstype, TYPE_LEN));
    CopyBytes(sig, 0, PutBe(leaf, Q_LEAF_ID_LEN));
  }

  /** The bytes of a buffer that hold the signature. */
  ghost function WrittenSignature(sig: array<byte>): seq<byte>
    reads sig
    requires LmsSigLen(LMS_SHA256_M32_H10, LMOTS_SHA256_N32_W8) <= sig.Length
  {
    sig[..LmsSigLen(LMS_SHA256_M32_H10, LMOTS_SHA256_N32_W8)]
  }

  /** The four writes of the signer, in the order it makes them, lay out a signature. */
  lemma SignatureAssembled(h: HashFunction, key: LmsKey, C: Digest, msg: seq<byte>, path: seq<byte>,
                           s0: seq<byte>, s1: seq<byte>, s3: seq<byte>, s4: seq<byte>)
    requires key.q < LeafCount(LMS_SHA256_M32_H10)
    requires LmsSigLen(LMS_SHA256_M32_H10, LMOTS_SHA256_N32_W8) <= |s0|
    requires s1 == s0[..SIG_OTS_OFFSET]
                   + OtsSignature(h, OtsParameters(key.I, key.q), OtsSecret(h, key.I, key.seed, key.q), C, msg)
                   + s0[SIG_TYPE_OFFSET..]
    requires s3 == PutBe(key.q, Q_LEAF_ID_LEN) + s1[SIG_OTS_OFFSET..SIG_TYPE_OFFSET]
                   + PutBe(LMS_SHA256_M32_H10, TYPE_LEN) + s1[SIG_PATH_OFFSET..]
    requires path == SignaturePath(h, key)
    requires s4 == s3[..SIG_PATH_OFFSET] + path
                   + s3[SIG_PATH_OFFSET + TreeHeight(LMS_SHA256_M32_H10) * N_HASH_LEN..]
    ensures s4 == LmsSignature(h, key, C, msg) + s0[LmsSigLen(LMS_SHA256_M32_H10, LMOTS_SHA256_N32_W8)..]
  {
    var ots := OtsSignature(h, OtsParameters(key.I, key.q), OtsSecret(h, key.I, key.seed, key.q), C, msg);
    FourWrites(s0, s1, s3, s4, PutBe(key.q, Q_LEAF_ID_LEN), ots, PutBe(LMS_SHA256_M32_H10, TYPE_LEN), path);
  }

  lemma FourWrites(s0: seq<byte>, s1: seq<byte>, s3: seq<byte>, s4: seq<byte>,
                   a: seq<byte>, b: seq<byte>, c: seq<byte>, d: seq<byte>)
    requires |a| + |b| + |c| + |d| <= |s0|
    requires s1 == s0[..|a|] + b + s0[|a| + |b|..]
    requires s3 == a + s1[|a|..|a| + |b|] + c + s1[|a| + |b| + |c|..]
    requires s4 == s3[..|a| + |b| + |c|] + d + s3[|a| + |b| + |c| + |d|..]
    ensures s4 == a + b + c + d + s0[|a| + |b| + |c| + |d|..]
  {
  }
}
