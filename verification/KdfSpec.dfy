// Key derivation as fixed streams of bytes: the block definitions of HKDF
// (RFC 5869, sections 2.2 and 2.3), the TLS 1.2 PRF (RFC 5246, section 5) and
// PBKDF2 (RFC 8018, section 5.2), and a cursor that hands a stream out in
// chunks under a capacity.
module KdfSpec {
  import opened Bytes
  import opened Options

  const HASH_MAX_SIZE: nat := 64
  const UINT32_MAX: nat := 0xffff_ffff
  const SIZE_MAX: nat := 0xffff_ffff_ffff_ffff
  const AES_BLOCK: nat := 16

  /** A pseudorandom function: HMAC, given by its hash and by what it computes
      from a key of exactly one hash block (RFC 2104, section 2), or
      AES-CMAC-PRF-128, given by AES-CMAC (RFC 4615, section 3). */
  datatype Prf =
    | Hmac(hashLength: nat, blockLength: nat, hash: seq<byte> -> seq<byte>,
           keyed: (seq<byte>, seq<byte>) -> seq<byte>)
    | Cmac(keyed: (seq<byte>, seq<byte>) -> seq<byte>)

  function Length(p: Prf): nat {
    if p.Hmac? then p.hashLength else AES_BLOCK
  }

  ghost predicate IsPrf(p: Prf) {
    && 0 < Length(p) <= HASH_MAX_SIZE
    && (forall k, m :: |p.keyed(k, m)| == Length(p))
    && (p.Hmac? ==> p.hashLength <= p.blockLength && forall m :: |p.hash(m)| == p.hashLength)
  }

  /** The key as the block-level primitive sees it. */
  function BlockKey(p: Prf, key: seq<byte>): (r: seq<byte>)
    requires IsPrf(p)
    ensures |r| == if p.Hmac? then p.blockLength else AES_BLOCK
  {
    if p.Cmac? then
      if |key| == AES_BLOCK then key else p.keyed(Zeros(AES_BLOCK), key)
    else if |key| > p.blockLength then
      p.hash(key) + Zeros(p.blockLength - p.hashLength)
    else
      key + Zeros(p.blockLength - |key|)
  }

  function Mac(p: Prf, key: seq<byte>, m: seq<byte>): (r: seq<byte>)
    requires IsPrf(p)
    ensures |r| == Length(p)
  {
    p.keyed(BlockKey(p, key), m)
  }

  function XorBytes(a: seq<byte>, b: seq<byte>): (r: seq<byte>)
    requires |a| == |b|
    ensures |r| == |a|
  {
    if a == [] then [] else XorBytes(a[..|a| - 1], b[..|a| - 1]) + [XorByte(a[|a| - 1], b[|a| - 1])]
  }

  /** What a completed set of inputs makes the operation derive from. */
  datatype Source =
    | HkdfStream(prk: seq<byte>, info: seq<byte>)
    | ExtractStream(prk: seq<byte>)
    | TlsStream(secret: seq<byte>, seed: seq<byte>)
    | Pbkdf2Stream(password: seq<byte>, salt: seq<byte>, cost: nat)

  ghost predicate IsSource(p: Prf, src: Source) {
    && IsPrf(p)
    && (src.ExtractStream? ==> |src.prk| == Length(p))
    && (src.Pbkdf2Stream? ==> src.cost > 0)
  }

  /** A(i) of RFC 5246, section 5. */
  function TlsA(p: Prf, secret: seq<byte>, seed: seq<byte>, i: nat): seq<byte>
    requires IsPrf(p)
    decreases i, |seed|
  {
    if i == 0 then seed else Mac(p, secret, TlsA(p, secret, seed, i - 1))
  }

  /** U_j of RFC 8018, section 5.2, for the block whose first input is `salted`. */
  function PbkdfU(p: Prf, password: seq<byte>, salted: seq<byte>, j: nat): (r: seq<byte>)
    requires IsPrf(p) && j > 0
    ensures |r| == Length(p)
    decreases j, |salted|
  {
    Mac(p, password, if j == 1 then salted else PbkdfU(p, password, salted, j - 1))
  }

  /** U_1 xor ... xor U_j. */
  function PbkdfSum(p: Prf, password: seq<byte>, salted: seq<byte>, j: nat): (r: seq<byte>)
    requires IsPrf(p) && j > 0
    ensures |r| == Length(p)
    decreases j, |salted|
  {
    var u := PbkdfU(p, password, salted, j);
    if j == 1 then u else XorBytes(PbkdfSum(p, password, salted, j - 1), u)
  }

  /** Block i of a stream, counted from 1. */
  function Block(p: Prf, src: Source, i: nat): (r: seq<byte>)
    requires IsSource(p, src) && i > 0
    ensures |r| == Length(p)
    decreases i, src
  {
    match src
    case HkdfStream(prk, info) =>
      Mac(p, prk, (if i == 1 then [] else Block(p, src, i - 1)) + info + [i % 256])
    case ExtractStream(prk) => prk
    case TlsStream(secret, seed) => Mac(p, secret, TlsA(p, secret, seed, i) + seed)
    case Pbkdf2Stream(password, salt, cost) => PbkdfSum(p, password, salt + PutBe(i, 4), cost)
  }

  /** The stream after n blocks have been generated. HKDF-Extract has its one
      block of output from the start. */
  function Produced(p: Prf, src: Source, n: nat): (r: seq<byte>)
    requires IsSource(p, src)
    ensures |r| >= n
    decreases n, src
  {
    if n == 0 then
      if src.ExtractStream? then src.prk else []
    else
      Produced(p, src, n - 1) + Block(p, src, n)
  }

  /** The first n bytes of the stream. */
  function Prefix(p: Prf, src: Source, n: nat): (r: seq<byte>)
    requires IsSource(p, src)
    ensures |r| == n
  {
    Produced(p, src, n)[..n]
  }

  /** How many blocks the algorithm can generate: its block counter's range, or
      none beyond the extracted key. */
  function BlockLimit(src: Source): nat {
    match src
    case HkdfStream(_, _) => 255
    case ExtractStream(_) => 0
    case TlsStream(_, _) => 255
    case Pbkdf2Stream(_, _, _) => UINT32_MAX
  }

  /** How many bytes that makes. */
  function StreamLimit(p: Prf, src: Source): nat {
    if src.ExtractStream? then Length(p) else BlockLimit(src) * Length(p)
  }

  lemma {:induction false} ProducedLength(p: Prf, src: Source, n: nat)
    requires IsSource(p, src)
    ensures |Produced(p, src, n)| == if src.ExtractStream? then Length(p) * (n + 1) else Length(p) * n
  {
    if n > 0 {
      ProducedLength(p, src, n - 1);
      var x := Length(p);
      assert |Produced(p, src, n)| == |Produced(p, src, n - 1)| + x;
      assert x * n == x * (n - 1) + x && x * (n + 1) == x * n + x;
    }
  }

  lemma {:induction false} ProducedExtends(p: Prf, src: Source, n: nat, m: nat)
    requires IsSource(p, src) && n <= m
    ensures Produced(p, src, n) <= Produced(p, src, m)
    decreases m - n
  {
    if n < m {
      ProducedExtends(p, src, n + 1, m);
    }
  }

  /** Whatever has left a block generator is a prefix of the one stream. */
  lemma ProducedPrefix(p: Prf, src: Source, n: nat, taken: seq<byte>, rest: seq<byte>)
    requires IsSource(p, src) && taken + rest == Produced(p, src, n)
    ensures taken == Prefix(p, src, |taken|)
  {
    var k := |taken|;
    if n <= k {
      ProducedExtends(p, src, n, k);
    } else {
      ProducedExtends(p, src, k, n);
    }
    assert (taken + rest)[..k] == taken;
    assert Produced(p, src, n)[..k] == Produced(p, src, k)[..k];
  }

  lemma PrefixExtends(p: Prf, src: Source, n: nat, m: nat)
    requires IsSource(p, src) && n <= m
    ensures Prefix(p, src, m)[..n] == Prefix(p, src, n)
  {
    ProducedExtends(p, src, n, m);
  }

  /** A generator that still has bytes to make is below its counter's limit,
      and one that is within its counter's range has made no byte beyond it. */
  lemma BlocksWithinLimit(p: Prf, src: Source, n: nat)
    requires IsSource(p, src)
    ensures |Produced(p, src, n)| < StreamLimit(p, src) ==> n < BlockLimit(src)
    ensures n <= BlockLimit(src) ==> |Produced(p, src, n)| <= StreamLimit(p, src)
  {
    ProducedLength(p, src, n);
    if n <= BlockLimit(src) {
      TimesMonotone(Length(p), n, BlockLimit(src));
    } else {
      TimesMonotone(Length(p), BlockLimit(src), n);
    }
  }

  // --- What the blocks are made of.

  /** The A(i) are iterates: going on from A(i) gives A(i + j). */
  lemma {:induction false} TlsAIterates(p: Prf, secret: seq<byte>, seed: seq<byte>, i: nat, j: nat)
    requires IsPrf(p)
    ensures TlsA(p, secret, seed, i + j) == TlsA(p, secret, TlsA(p, secret, seed, i), j)
    decreases j
  {
    if j > 0 {
      TlsAIterates(p, secret, seed, i, j - 1);
    }
  }

  /** The U_j are iterates too. */
  lemma {:induction false} PbkdfUIterates(p: Prf, password: seq<byte>, salted: seq<byte>, i: nat, j: nat)
    requires IsPrf(p) && i > 0 && j > 0
    ensures PbkdfU(p, password, salted, i + j) == PbkdfU(p, password, PbkdfU(p, password, salted, i), j)
    decreases j
  {
    if j > 1 {
      PbkdfUIterates(p, password, salted, i, j - 1);
    }
  }

  lemma {:induction false} XorBytesAt(a: seq<byte>, b: seq<byte>, k: nat)
    requires |a| == |b| && k < |a|
    ensures XorBytes(a, b)[k] == BitXor(a[k], b[k])
  {
    if k < |a| - 1 {
      XorBytesAt(a[..|a| - 1], b[..|a| - 1], k);
    }
  }

  /** In how many of U_1 .. U_j a bit is set. */
  function SetIn(p: Prf, password: seq<byte>, salted: seq<byte>, j: nat, k: nat, bit: nat): nat
    requires IsPrf(p) && k < Length(p)
    decreases j, |salted|
  {
    if j == 0 then 0
    else SetIn(p, password, salted, j - 1, k, bit) + if Bit(PbkdfU(p, password, salted, j)[k], bit) then 1 else 0
  }

  /** Each bit of a block of PBKDF2 is the parity of that bit over all the U_i. */
  lemma {:induction false} PbkdfSumParity(p: Prf, password: seq<byte>, salted: seq<byte>, j: nat, k: nat, bit: nat)
    requires IsPrf(p) && j > 0 && k < Length(p)
    ensures Bit(PbkdfSum(p, password, salted, j)[k], bit) <==> SetIn(p, password, salted, j, k, bit) % 2 == 1
  {
    if j > 1 {
      var before, u := PbkdfSum(p, password, salted, j - 1), PbkdfU(p, password, salted, j);
      PbkdfSumParity(p, password, salted, j - 1, k, bit);
      XorBytesAt(before, u, k);
      BitXorBits(before[k], u[k], bit);
    } else {
      assert SetIn(p, password, salted, 0, k, bit) == 0;
    }
    hide Bit, BitXor, PbkdfU;
  }

  /** What the keyed primitive is applied to: a block-level key and a message. */
  datatype Application = Application(key: seq<byte>, message: seq<byte>)

  function Apply(p: Prf, a: Application): seq<byte> {
    p.keyed(a.key, a.message)
  }

  /** The application that computes block i or, for PBKDF2, its U_1. */
  function Made(p: Prf, src: Source, i: nat): Application
    requires IsSource(p, src) && !src.ExtractStream? && i > 0
  {
    match src
    case HkdfStream(prk, info) =>
      Application(BlockKey(p, prk), (if i == 1 then [] else Block(p, src, i - 1)) + info + [i % 256])
    case TlsStream(secret, seed) => Application(BlockKey(p, secret), TlsA(p, secret, seed, i) + seed)
    case Pbkdf2Stream(password, salt, _) => Application(BlockKey(p, password), salt + PutBe(i, 4))
  }

  lemma MadeMakes(p: Prf, src: Source, i: nat)
    requires IsSource(p, src) && !src.ExtractStream? && i > 0
    ensures !src.Pbkdf2Stream? ==> Block(p, src, i) == Apply(p, Made(p, src, i))
    ensures src.Pbkdf2Stream? ==>
        PbkdfU(p, src.password, src.salt + PutBe(i, 4), 1) == Apply(p, Made(p, src, i))
  {
  }

  /** Block i of PBKDF2 is that parity over as many U_j as the cost says, the
      first of which comes from the salt and the number of the block. */
  lemma Pbkdf2BlockParity(p: Prf, src: Source, i: nat, k: nat, bit: nat)
    requires IsSource(p, src) && src.Pbkdf2Stream? && i > 0 && k < Length(p)
    ensures Bit(Block(p, src, i)[k], bit)
        <==> SetIn(p, src.password, src.salt + PutBe(i, 4), src.cost, k, bit) % 2 == 1
  {
    PbkdfSumParity(p, src.password, src.salt + PutBe(i, 4), src.cost, k, bit);
  }

  /** Two parts of known length of a message. */
  lemma SplitAtEnd<T>(a: seq<T>, b: seq<T>, c: seq<T>, d: seq<T>)
    requires a + b == c + d && |b| == |d|
    ensures a == c && b == d
  {
    assert |a| == |c|;
    assert (a + b)[..|a|] == a && (c + d)[..|c|] == c;
    assert (a + b)[|a|..] == b && (c + d)[|c|..] == d;
  }

  lemma SplitAtStart<T>(a: seq<T>, b: seq<T>, c: seq<T>, d: seq<T>)
    requires a + b == c + d && |a| == |c|
    ensures a == c && b == d
  {
    assert (a + b)[..|a|] == a && (c + d)[..|c|] == c;
    assert (a + b)[|a|..] == b && (c + d)[|c|..] == d;
  }

  /** HKDF makes its blocks, of any streams, by different applications: the number
      of the block, the info, the block before and the key are all in them. */
  lemma HkdfApplications(p: Prf, s: Source, i: nat, t: Source, j: nat)
    requires IsSource(p, s) && IsSource(p, t) && s.HkdfStream? && t.HkdfStream?
    requires 0 < i <= 255 && 0 < j <= 255
    ensures Made(p, s, i) == Made(p, t, j) <==>
            && i == j && s.info == t.info && BlockKey(p, s.prk) == BlockKey(p, t.prk)
            && (i > 1 ==> Block(p, s, i - 1) == Block(p, t, i - 1))
  {
    var a, b := if i == 1 then [] else Block(p, s, i - 1), if j == 1 then [] else Block(p, t, j - 1);
    if Made(p, s, i) == Made(p, t, j) {
      SplitAtEnd(a + s.info, [i % 256], b + t.info, [j % 256]);
      assert [i % 256][0] == [j % 256][0];
      SplitAtStart(a, s.info, b, t.info);
    }
    hide Block;
  }

  /** The TLS PRF has the seed, the A(i) and the key in them. */
  lemma TlsApplications(p: Prf, s: Source, i: nat, t: Source, j: nat)
    requires IsSource(p, s) && IsSource(p, t) && s.TlsStream? && t.TlsStream? && i > 0 && j > 0
    ensures Made(p, s, i) == Made(p, t, j) <==>
            && s.seed == t.seed && BlockKey(p, s.secret) == BlockKey(p, t.secret)
            && TlsA(p, s.secret, s.seed, i) == TlsA(p, t.secret, t.seed, j)
  {
    if Made(p, s, i) == Made(p, t, j) {
      assert |TlsA(p, s.secret, s.seed, i)| == Length(p) == |TlsA(p, t.secret, t.seed, j)|;
      SplitAtStart(TlsA(p, s.secret, s.seed, i), s.seed, TlsA(p, t.secret, t.seed, j), t.seed);
    }
  }

  /** PBKDF2 has the salt, the number of the block and the password in its U_1. */
  lemma Pbkdf2Applications(p: Prf, s: Source, i: nat, t: Source, j: nat)
    requires IsSource(p, s) && IsSource(p, t) && s.Pbkdf2Stream? && t.Pbkdf2Stream?
    requires 0 < i <= UINT32_MAX && 0 < j <= UINT32_MAX
    ensures Made(p, s, i) == Made(p, t, j) <==>
            i == j && s.salt == t.salt && BlockKey(p, s.password) == BlockKey(p, t.password)
  {
    if Made(p, s, i) == Made(p, t, j) {
      SplitAtEnd(s.salt, PutBe(i, 4), t.salt, PutBe(j, 4));
      assert Pow256(4) == 0x1_0000_0000;
      GetPutBe(i, 4);
      GetPutBe(j, 4);
    }
  }

  /** A key that fits the block stands unchanged at its start, so keys of one
      length have different block-level keys; a longer one counts as its hash. */
  lemma BlockKeyKeeps(p: Prf, key: seq<byte>)
    requires IsPrf(p)
    ensures p.Hmac? && |key| <= p.blockLength ==> key <= BlockKey(p, key) && BlockKey(p, key)[|key|..] == Zeros(p.blockLength - |key|)
    ensures p.Hmac? && |key| > p.blockLength ==> BlockKey(p, key) == BlockKey(p, p.hash(key))
    ensures p.Cmac? && |key| == AES_BLOCK ==> BlockKey(p, key) == key
    ensures p.Cmac? && |key| != AES_BLOCK ==> BlockKey(p, key) == Apply(p, Application(Zeros(AES_BLOCK), key))
    ensures BlockKey(p, BlockKey(p, key)) == BlockKey(p, key)
  {
    var k := BlockKey(p, key);
    assert k + Zeros(0) == k;
  }

  // --- A stream handed out in chunks.

  datatype Cursor = Cursor(position: nat, capacity: nat)

  datatype Call = Output(length: nat) | SetCapacity(capacity: nat)

  /** A request is granted when it fits the capacity and the stream goes on
      that long; an empty request is refused once the capacity is spent. */
  predicate Granted(p: Prf, src: Source, c: Cursor, n: nat) {
    n <= c.capacity && 0 < c.capacity && c.position + n <= StreamLimit(p, src)
  }

  function After(p: Prf, src: Source, c: Cursor, call: Call): Cursor {
    match call
    case Output(n) =>
      if Granted(p, src, c, n) then Cursor(c.position + n, c.capacity - n) else c.(capacity := 0)
    case SetCapacity(capacity) =>
      if capacity > c.capacity then c else c.(capacity := capacity)
  }

  function Answer(p: Prf, src: Source, c: Cursor, call: Call): seq<byte>
    requires IsSource(p, src)
  {
    if call.Output? && Granted(p, src, c, call.length) then
      Prefix(p, src, c.position + call.length)[c.position..]
    else
      []
  }

  function AfterAll(p: Prf, src: Source, c: Cursor, calls: seq<Call>): Cursor
    decreases |calls|
  {
    if calls == [] then c else AfterAll(p, src, After(p, src, c, calls[0]), calls[1..])
  }

  function Answers(p: Prf, src: Source, c: Cursor, calls: seq<Call>): seq<byte>
    requires IsSource(p, src)
    decreases |calls|
  {
    if calls == [] then [] else
      Answer(p, src, c, calls[0]) + Answers(p, src, After(p, src, c, calls[0]), calls[1..])
  }

  /** Whatever the calls, what they deliver is one contiguous piece of the
      stream, delivered bytes and capacity never exceed what they were, and
      each byte delivered is paid for. */
  lemma {:induction false} AnswersContiguous(p: Prf, src: Source, c: Cursor, calls: seq<Call>)
    requires IsSource(p, src)
    ensures var end := AfterAll(p, src, c, calls);
            && c.position <= end.position
            && end.position + end.capacity <= c.position + c.capacity
            && Answers(p, src, c, calls) == Prefix(p, src, end.position)[c.position..]
    decreases |calls|
  {
    if calls != [] {
      var next, end := After(p, src, c, calls[0]), AfterAll(p, src, c, calls);
      AnswersContiguous(p, src, next, calls[1..]);
      PrefixExtends(p, src, next.position, end.position);
      var all := Prefix(p, src, end.position);
      assert all[..next.position][c.position..] + all[next.position..] == all[c.position..];
    }
  }

  function Requested(calls: seq<Call>): nat {
    if calls == [] then 0 else
      (if calls[0].Output? then calls[0].length else 0) + Requested(calls[1..])
  }

  predicate OnlyNonEmptyOutputs(calls: seq<Call>) {
    forall i :: 0 <= i < |calls| ==> calls[i].Output? && calls[i].length > 0
  }

  /** Any way of splitting a request into non-empty ones delivers what the
      single request delivers, and leaves the same capacity. */
  lemma {:induction false} ChunkingIndependent(p: Prf, src: Source, c: Cursor, calls: seq<Call>)
    requires IsSource(p, src) && OnlyNonEmptyOutputs(calls) && calls != []
    requires Granted(p, src, c, Requested(calls))
    ensures AfterAll(p, src, c, calls) == After(p, src, c, Output(Requested(calls)))
    ensures Answers(p, src, c, calls) == Answer(p, src, c, Output(Requested(calls)))
  {
    SplitsFit(p, src, c, calls);
    AnswersContiguous(p, src, c, calls);
    hide Answers, AfterAll, Requested, Prefix, StreamLimit;
  }

  lemma {:induction false} SplitsFit(p: Prf, src: Source, c: Cursor, calls: seq<Call>)
    requires OnlyNonEmptyOutputs(calls)
    requires Requested(calls) <= c.capacity && c.position + Requested(calls) <= StreamLimit(p, src)
    ensures AfterAll(p, src, c, calls) == Cursor(c.position + Requested(calls), c.capacity - Requested(calls))
    decreases |calls|
  {
    if calls != [] {
      SplitsFit(p, src, After(p, src, c, calls[0]), calls[1..]);
    }
  }

  /** Once a request has been refused nothing more is ever delivered. */
  lemma {:induction false} NothingAfterRefusal(p: Prf, src: Source, c: Cursor, n: nat, calls: seq<Call>)
    requires IsSource(p, src) && !Granted(p, src, c, n)
    ensures Answers(p, src, After(p, src, c, Output(n)), calls) == []
  {
    AnswersContiguous(p, src, After(p, src, c, Output(n)), calls);
  }
}
