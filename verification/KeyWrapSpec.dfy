// SP 800-38F key wrapping over an arbitrary 128-bit block cipher: the wrapping
// function W on its shift register, its inverse, and the two modes built on it.
module KeyWrapSpec {
  import opened Bytes
  import opened Options

  const SEMIBLOCK: nat := 8
  const MIN_SEMIBLOCKS: nat := 3
  const ICV1: seq<byte> := [0xA6, 0xA6, 0xA6, 0xA6, 0xA6, 0xA6, 0xA6, 0xA6]
  const ICV2: seq<byte> := [0xA6, 0x59, 0x59, 0xA6]

  type CipherBlock = b: seq<byte> | |b| == 16 witness seq(16, _ => 0)
  type BlockFunction = CipherBlock -> CipherBlock
  type Semiblock = b: seq<byte> | |b| == 8 witness seq(8, _ => 0)

  /** All that is assumed of the cipher: decryption and encryption under one
      key undo each other. */
  ghost predicate IsCipher(enc: BlockFunction, dec: BlockFunction) {
    && (forall b: CipherBlock {:trigger dec(enc(b))} :: dec(enc(b)) == b)
    && (forall b: CipherBlock {:trigger enc(dec(b))} :: enc(dec(b)) == b)
  }

  datatype Mode = KW | KWP | Unknown

  // -------------------------------------------------------------- xor with t

  /** A xor [t]64 */
  function XorCounter(A: Semiblock, t: nat): Semiblock {
    seq(8, i requires 0 <= i < 8 => XorByte(A[i], PutBe(t, 8)[i]))
  }

  lemma XorCounterInvolutive(A: Semiblock, t: nat)
    ensures XorCounter(XorCounter(A, t), t) == A
  {
    forall i | 0 <= i < 8
      ensures XorCounter(XorCounter(A, t), t)[i] == A[i]
    {
      BitXorInvolutive(A[i], PutBe(t, 8)[i]);
    }
  }

  /** As a number, the register is combined with the counter bit by bit. */
  lemma XorCounterValue(A: Semiblock, t: nat)
    requires t < Pow256(8)
    ensures GetBe(XorCounter(A, t)) == BitXor(GetBe(A), t)
  {
    GetPutBe(t, 8);
    GetBeXor(A, PutBe(t, 8), XorCounter(A, t));
  }

  // ------------------------------------------------- the function W, section 6.1

  /** The register A and the shift register R_2 .. R_n, as bytes. */
  datatype Registers = Registers(A: Semiblock, R: seq<byte>)

  function Step(enc: BlockFunction, t: nat, s: Registers): (r: Registers)
    requires |s.R| >= 8
    ensures |r.R| == |s.R|
  {
    var b := enc(s.A + s.R[..8]);
    Registers(XorCounter(b[..8], t), s.R[8..] + b[8..])
  }

  function InverseStep(dec: BlockFunction, t: nat, s: Registers): (r: Registers)
    requires |s.R| >= 8
    ensures |r.R| == |s.R|
  {
    var b := dec(XorCounter(s.A, t) + s.R[|s.R| - 8..]);
    Registers(b[..8], b[8..] + s.R[..|s.R| - 8])
  }

  /** Steps 1 .. t of W. */
  function Steps(enc: BlockFunction, t: nat, s: Registers): (r: Registers)
    requires |s.R| >= 8
    ensures |r.R| == |s.R|
  {
    if t == 0 then s else Step(enc, t, Steps(enc, t - 1, s))
  }

  /** Steps t .. 1 of the inverse of W. */
  function InverseSteps(dec: BlockFunction, t: nat, s: Registers): (r: Registers)
    requires |s.R| >= 8
    ensures |r.R| == |s.R|
  {
    if t == 0 then s else InverseSteps(dec, t - 1, InverseStep(dec, t, s))
  }

  lemma StepInverse(enc: BlockFunction, dec: BlockFunction, t: nat, s: Registers)
    requires IsCipher(enc, dec) && |s.R| >= 8
    ensures InverseStep(dec, t, Step(enc, t, s)) == s
    ensures Step(enc, t, InverseStep(dec, t, s)) == s
  {
    var r := Step(enc, t, s);
    var b: CipherBlock := s.A + s.R[..8];
    XorCounterInvolutive(enc(b)[..8], t);
    assert dec(enc(b)) == b;
    assert r.R[|r.R| - 8..] == enc(b)[8..];
    assert enc(b)[..8] + enc(b)[8..] == enc(b);
    assert b[..8] == s.A && b[8..] == s.R[..8];
    assert b[8..] + r.R[..|r.R| - 8] == s.R;

    var c: CipherBlock := XorCounter(s.A, t) + s.R[|s.R| - 8..];
    var i := InverseStep(dec, t, s);
    assert enc(dec(c)) == c;
    assert i.R[..8] == dec(c)[8..];
    assert dec(c)[..8] + dec(c)[8..] == dec(c);
    assert c[..8] == XorCounter(s.A, t) && c[8..] == s.R[|s.R| - 8..];
    XorCounterInvolutive(s.A, t);
    assert i.R[8..] + c[8..] == s.R;
  }

  lemma {:induction false} InverseStepsUndo(enc: BlockFunction, dec: BlockFunction, t: nat, s: Registers)
    requires IsCipher(enc, dec) && |s.R| >= 8
    ensures InverseSteps(dec, t, Steps(enc, t, s)) == s
  {
    if t > 0 {
      var before := Steps(enc, t - 1, s);
      StepInverse(enc, dec, t, before);
      InverseStepsUndo(enc, dec, t - 1, s);
    }
  }

  lemma {:induction false} StepsUndo(enc: BlockFunction, dec: BlockFunction, t: nat, s: Registers)
    requires IsCipher(enc, dec) && |s.R| >= 8
    ensures Steps(enc, t, InverseSteps(dec, t, s)) == s
  {
    if t > 0 {
      var after := InverseStep(dec, t, s);
      StepInverse(enc, dec, t, s);
      StepsUndo(enc, dec, t - 1, after);
    }
  }

  /** The registers of a string of at least two semiblocks. */
  function Load(s: seq<byte>): Registers
    requires |s| >= 16
  {
    Registers(s[..8], s[8..])
  }

  function Unload(r: Registers): seq<byte> {
    r.A + r.R
  }

  /** The number of steps of W for a string of |s| / 8 semiblocks. */
  function StepCount(s: seq<byte>): nat
    requires |s| >= 16
  {
    6 * (|s| / SEMIBLOCK - 1)
  }

  function W(enc: BlockFunction, s: seq<byte>): (c: seq<byte>)
    requires |s| >= 16
    ensures |c| == |s|
  {
    Unload(Steps(enc, StepCount(s), Load(s)))
  }

  function InverseW(dec: BlockFunction, c: seq<byte>): (s: seq<byte>)
    requires |c| >= 16
    ensures |s| == |c|
  {
    Unload(InverseSteps(dec, StepCount(c), Load(c)))
  }

  lemma WInverse(enc: BlockFunction, dec: BlockFunction, s: seq<byte>)
    requires IsCipher(enc, dec) && |s| >= 16
    ensures InverseW(dec, W(enc, s)) == s
    ensures W(enc, InverseW(dec, s)) == s
  {
    var r := Load(s);
    InverseStepsUndo(enc, dec, StepCount(s), r);
    StepsUndo(enc, dec, StepCount(s), r);
    var f, g := Steps(enc, StepCount(s), r), InverseSteps(dec, StepCount(s), r);
    assert Load(Unload(f)) == f;
    assert Load(Unload(g)) == g;
    assert Unload(r) == s;
  }

  // ------------------------------------------ what W does to each semiblock

  type SemiblockFunction = Semiblock -> Semiblock

  /** A block function that treats the two halves of a block separately. It shows
      which half of which block W feeds to the cipher, and how often. */
  function Halves(f: SemiblockFunction, g: SemiblockFunction): BlockFunction {
    (b: CipherBlock) => f(b[..8]) + g(b[8..])
  }

  function Times(g: SemiblockFunction, k: nat, x: Semiblock): Semiblock {
    if k == 0 then x else g(Times(g, k - 1, x))
  }

  /** Every semiblock of a string, k times through g. */
  function Each(g: SemiblockFunction, k: nat, R: seq<byte>): (r: seq<byte>)
    requires |R| % 8 == 0
    ensures |r| == |R|
  {
    if R == [] then [] else Each(g, k, R[..|R| - 8]) + Times(g, k, R[|R| - 8..])
  }

  /** The register A once the counters 1 .. t have been added to it, each one
      after a turn through f. */
  function Counted(f: SemiblockFunction, t: nat, A: Semiblock): Semiblock {
    if t == 0 then A else XorCounter(f(Counted(f, t - 1, A)), t)
  }

  lemma {:induction false} EachConcat(g: SemiblockFunction, k: nat, Q: seq<byte>, R: seq<byte>)
    requires |Q| % 8 == 0 && |R| % 8 == 0
    ensures Each(g, k, Q + R) == Each(g, k, Q) + Each(g, k, R)
  {
    if R == [] {
      assert Q + R == Q;
    } else {
      EachConcat(g, k, Q, R[..|R| - 8]);
      assert (Q + R)[..|Q + R| - 8] == Q + R[..|R| - 8];
      assert (Q + R)[|Q + R| - 8..] == R[|R| - 8..];
    }
  }

  lemma EachOne(g: SemiblockFunction, k: nat, x: Semiblock)
    ensures Each(g, k, x) == Times(g, k, x)
  {
    assert x[..0] == [] && x[0..] == x;
    assert Each(g, k, []) == [];
  }

  lemma {:induction false} EachZero(g: SemiblockFunction, R: seq<byte>)
    requires |R| % 8 == 0
    ensures Each(g, 0, R) == R
  {
    if R != [] {
      EachZero(g, R[..|R| - 8]);
    }
  }

  /** The register in the middle of a pass: the semiblocks from the i-th on have
      been through k times, those before it once more. */
  function MidPass(g: SemiblockFunction, k: nat, i: nat, R: seq<byte>): seq<byte>
    requires |R| % 8 == 0 && 8 * i <= |R|
  {
    Each(g, k, R[8 * i..]) + Each(g, k + 1, R[..8 * i])
  }

  lemma MidPassStep(g: SemiblockFunction, k: nat, i: nat, R: seq<byte>)
    requires |R| % 8 == 0 && 8 * i + 8 <= |R|
    ensures var now, x := MidPass(g, k, i, R), Times(g, k, R[8 * i..8 * i + 8]);
            && now[..8] == x
            && MidPass(g, k, i + 1, R) == now[8..] + g(x)
  {
    var x, rest, done := R[8 * i..8 * i + 8], R[8 * i + 8..], R[..8 * i];
    assert R[8 * i..] == x + rest && R[..8 * i + 8] == done + x;
    EachConcat(g, k, x, rest);
    EachConcat(g, k + 1, done, x);
    EachOne(g, k, x);
    EachOne(g, k + 1, x);
    ShiftParts(Times(g, k, x), Each(g, k, rest), Each(g, k + 1, done), g(Times(g, k, x)));
    hide Each;
  }

  lemma ShiftParts(x: seq<byte>, rest: seq<byte>, done: seq<byte>, y: seq<byte>)
    ensures (x + rest + done)[..|x|] == x && (x + rest + done)[|x|..] + y == rest + (done + y)
  {
  }

  /** After t steps on s a pass is in its middle. */
  ghost predicate InPass(f: SemiblockFunction, g: SemiblockFunction, k: nat, t: nat, i: nat, s: Registers) {
    && |s.R| % 8 == 0 && 0 < |s.R| && 8 * i <= |s.R|
    && Steps(Halves(f, g), t, s) == Registers(Counted(f, t, s.A), MidPass(g, k, i, s.R))
  }

  lemma PassStep(f: SemiblockFunction, g: SemiblockFunction, k: nat, t: nat, i: nat, s: Registers)
    requires InPass(f, g, k, t, i, s) && 8 * i + 8 <= |s.R|
    ensures InPass(f, g, k, t + 1, i + 1, s)
  {
    var before := Steps(Halves(f, g), t, s);
    MidPassStep(g, k, i, s.R);
    SplitStep(f, g, t + 1, before);
    assert Steps(Halves(f, g), t + 1, s) == Step(Halves(f, g), t + 1, before);
    assert Counted(f, t + 1, s.A) == XorCounter(f(Counted(f, t, s.A)), t + 1);
    hide Step, MidPass, Each, Halves, XorCounter, Times;
  }

  /** A pass: the semiblocks go through g one by one. */
  lemma {:induction false} PassSteps(f: SemiblockFunction, g: SemiblockFunction, k: nat, t: nat, i: nat, s: Registers)
    requires InPass(f, g, k, t, 0, s) && 8 * i <= |s.R|
    ensures InPass(f, g, k, t + i, i, s)
  {
    hide InPass;
    if i > 0 {
      PassSteps(f, g, k, t, i - 1, s);
      PassStep(f, g, k, t + i - 1, i - 1, s);
    }
  }

  lemma PassEnds(g: SemiblockFunction, k: nat, R: seq<byte>)
    requires |R| % 8 == 0
    ensures MidPass(g, k, 0, R) == Each(g, k, R)
    ensures MidPass(g, k, |R| / 8, R) == Each(g, k + 1, R)
  {
    assert R[0..] == R && R[..0] == [] && R[|R|..] == [] && R[..|R|] == R;
    assert Each(g, k, []) == [] == Each(g, k + 1, []);
    assert Each(g, k, R) + [] == Each(g, k, R) && [] + Each(g, k + 1, R) == Each(g, k + 1, R);
  }

  lemma SplitStep(f: SemiblockFunction, g: SemiblockFunction, t: nat, s: Registers)
    requires |s.R| >= 8
    ensures Step(Halves(f, g), t, s) == Registers(XorCounter(f(s.A), t), s.R[8..] + g(s.R[..8]))
  {
    var b := s.A + s.R[..8];
    assert b[..8] == s.A && b[8..] == s.R[..8];
    var c := Halves(f, g)(b);
    assert c == f(s.A) + g(s.R[..8]);
    assert c[..8] == f(s.A) && c[8..] == g(s.R[..8]);
  }

  /** The end of one pass is the beginning of the next. */
  lemma NextPass(f: SemiblockFunction, g: SemiblockFunction, k: nat, t: nat, s: Registers)
    requires InPass(f, g, k, t, |s.R| / 8, s)
    ensures InPass(f, g, k + 1, t, 0, s)
  {
    PassEnds(g, k, s.R);
    PassEnds(g, k + 1, s.R);
    hide Steps, Counted, MidPass, Halves, Each;
  }

  lemma FirstPass(f: SemiblockFunction, g: SemiblockFunction, s: Registers)
    requires |s.R| % 8 == 0 && 0 < |s.R|
    ensures InPass(f, g, 0, 0, 0, s)
  {
    PassEnds(g, 0, s.R);
    EachZero(g, s.R);
    hide MidPass, Halves, Each;
  }

  lemma {:induction false} PassesSteps(f: SemiblockFunction, g: SemiblockFunction, k: nat, s: Registers)
    requires |s.R| % 8 == 0 && 0 < |s.R|
    ensures InPass(f, g, k, k * (|s.R| / 8), 0, s)
  {
    hide InPass;
    var m := |s.R| / 8;
    if k == 0 {
      FirstPass(f, g, s);
      assert k * m == 0;
    } else {
      PassesSteps(f, g, k - 1, s);
      PassSteps(f, g, k - 1, (k - 1) * m, m, s);
      assert (k - 1) * m + m == k * m;
      NextPass(f, g, k - 1, k * m, s);
    }
  }

  /** W passes every semiblock but the first through the low half of the cipher
      six times, and the first through the high half before each of the counters
      1 .. 6(n - 1) is added to it. */
  lemma WPasses(f: SemiblockFunction, g: SemiblockFunction, s: seq<byte>)
    requires |s| % 8 == 0 && |s| >= 16
    ensures W(Halves(f, g), s) == Counted(f, StepCount(s), s[..8]) + Each(g, 6, s[8..])
  {
    PassesSteps(f, g, 6, Load(s));
    PassEnds(g, 6, s[8..]);
    assert |s[8..]| / 8 == |s| / 8 - 1;
    hide Steps, Counted, MidPass, Halves, Each;
  }

  /** 1 xor 2 xor ... xor t */
  function CounterSum(t: nat): nat {
    if t == 0 then 0 else BitXor(CounterSum(t - 1), t)
  }

  /** Where the high half is left alone, the counters remain. */
  lemma {:induction false} CountersRemain(t: nat, A: Semiblock)
    requires t < Pow256(8)
    ensures GetBe(Counted((x: Semiblock) => x, t, A)) == BitXor(GetBe(A), CounterSum(t))
  {
    if t == 0 {
      BitXorZero(GetBe(A));
    } else {
      CountersRemain(t - 1, A);
      XorCounterValue(Counted((x: Semiblock) => x, t - 1, A), t);
      BitXorAssociates(GetBe(A), CounterSum(t - 1), t);
      hide BitXor, GetBe, XorCounter;
    }
  }

  // ---------------------------------------- the modes, sections 6.2 and 6.3

  function PadLength(n: nat): (p: nat)
    ensures p < 8 && (n + p) % 8 == 0
  {
    if n % 8 != 0 then 8 - n % 8 else 0
  }

  predicate KwPlaintextLength(n: nat) {
    16 <= n <= 0x1FFFFFFFFFFFFF8 && n % SEMIBLOCK == 0
  }

  predicate KwpPlaintextLength(n: nat) {
    1 <= n <= 0xFFFFFFFF
  }

  /** Wrapping formats under any mode but KW as under KWP. */
  predicate Formattable(mode: Mode, n: nat) {
    if mode == KW then KwPlaintextLength(n) else KwpPlaintextLength(n)
  }

  /** Only KWP itself has a case for a single block. */
  predicate PlaintextLength(mode: Mode, n: nat) {
    Formattable(mode, n) && (mode == Unknown ==> n > SEMIBLOCK)
  }

  /** Unwrapping supports the two modes only. */
  predicate CiphertextLength(mode: Mode, n: nat) {
    && n % SEMIBLOCK == 0
    && match mode
       case KW => 24 <= n <= 0x200000000000000
       case KWP => 16 <= n <= 0x100000000
       case Unknown => false
  }

  /** The string that wrapping encrypts. */
  function Formatted(mode: Mode, plaintext: seq<byte>): (s: seq<byte>)
    requires Formattable(mode, |plaintext|)
    ensures |s| == 8 + |plaintext| + (if mode == KW then 0 else PadLength(|plaintext|))
    ensures |s| % 8 == 0 && |s| >= 16
  {
    if mode == KW then ICV1 + plaintext
    else ICV2 + PutBe(|plaintext|, 4) + plaintext + Zeros(PadLength(|plaintext|))
  }

  /** A string of two semiblocks is one cipher block, any longer one goes through W. */
  function Encrypt(enc: BlockFunction, s: seq<byte>): (c: seq<byte>)
    requires |s| >= 16
    ensures |c| == |s|
  {
    if |s| == 16 then enc(s) else W(enc, s)
  }

  function Decrypt(dec: BlockFunction, c: seq<byte>): (s: seq<byte>)
    requires |c| >= 16
    ensures |s| == |c|
  {
    if |c| == 16 then dec(c) else InverseW(dec, c)
  }

  /** So wrapping passes a string of one block through the cipher once, and all
      but the first semiblock of a longer one six times. */
  lemma EncryptPasses(f: SemiblockFunction, g: SemiblockFunction, s: seq<byte>)
    requires |s| % 8 == 0 && |s| >= 16
    ensures Encrypt(Halves(f, g), s)
         == if |s| == 16 then f(s[..8]) + g(s[8..]) else Counted(f, StepCount(s), s[..8]) + Each(g, 6, s[8..])
  {
    WPasses(f, g, s);
  }

  function Wrapped(enc: BlockFunction, mode: Mode, plaintext: seq<byte>): (c: seq<byte>)
    requires PlaintextLength(mode, |plaintext|)
  {
    Encrypt(enc, Formatted(mode, plaintext))
  }

  /** The checks of unwrapping on the decrypted string: the integrity value,
      the length, and that the padding is zero. */
  function Checked(mode: Mode, s: seq<byte>): Option<seq<byte>>
    requires |s| >= 16
  {
    if mode == KW then
      if s[..8] == ICV1 then Some(s[8..]) else None
    else
      var len := GetBe(s[4..8]);
      if s[..4] == ICV2 && len <= |s| - 8 <= len + 7 && s[8 + len..] == Zeros(|s| - 8 - len)
      then Some(s[8..8 + len])
      else None
  }

  function Unwrapped(dec: BlockFunction, mode: Mode, c: seq<byte>): Option<seq<byte>>
    requires CiphertextLength(mode, |c|)
  {
    Checked(mode, Decrypt(dec, c))
  }

  lemma DecryptInverse(enc: BlockFunction, dec: BlockFunction, s: seq<byte>)
    requires IsCipher(enc, dec) && |s| >= 16
    ensures Decrypt(dec, Encrypt(enc, s)) == s
    ensures Encrypt(enc, Decrypt(dec, s)) == s
  {
    if |s| > 16 {
      WInverse(enc, dec, s);
    } else {
      var b: CipherBlock := s;
      assert dec(enc(b)) == b && enc(dec(b)) == b;
    }
  }

  lemma CheckedFormatted(mode: Mode, plaintext: seq<byte>)
    requires Formattable(mode, |plaintext|)
    ensures Checked(mode, Formatted(mode, plaintext)) == Some(plaintext)
  {
    var s := Formatted(mode, plaintext);
    if mode == KW {
      assert s[..8] == ICV1 && s[8..] == plaintext;
    } else {
      var n := |plaintext|;
      ConcatParts(ICV2, PutBe(n, 4), plaintext, Zeros(PadLength(n)));
      assert Pow256(4) == 0x1_0000_0000;
      GetPutBe(n, 4);
    }
  }

  lemma PadLengthUnique(n: nat, p: nat)
    requires p < 8 && (n + p) % 8 == 0
    ensures PadLength(n) == p
  {
  }

  lemma FormattedParts(s: seq<byte>, n: nat)
    requires 8 + n <= |s|
    ensures s == s[..4] + s[4..8] + s[8..8 + n] + s[8 + n..]
  {
  }

  /** A string that passes the checks is the formatting of what they return. */
  lemma FormattedChecked(mode: Mode, s: seq<byte>)
    requires CiphertextLength(mode, |s|)
    requires Checked(mode, s).Some?
    ensures PlaintextLength(mode, |Checked(mode, s).value|)
    ensures Formatted(mode, Checked(mode, s).value) == s
  {
    if mode == KW {
      assert s == s[..8] + s[8..];
    } else {
      var len := GetBe(s[4..8]);
      PutGetBe(s[4..8]);
      assert Pow256(4) == 0x1_0000_0000;
      PadLengthUnique(len, |s| - 8 - len);
      FormattedParts(s, len);
    }
    hide GetBe, PutBe, Pow256, PadLength;
  }

  /** Exactly the wrapped strings whose length unwrapping admits. */
  predicate Unwrappable(mode: Mode, n: nat) {
    PlaintextLength(mode, n) && (mode == KW || (mode == KWP && n <= 0x1_0000_0000 - 8))
  }

  lemma UnwrappableLengths(mode: Mode, n: nat)
    requires PlaintextLength(mode, n)
    ensures Unwrappable(mode, n) <==>
            CiphertextLength(mode, 8 + n + (if mode == KW then 0 else PadLength(n)))
  {
  }

  /** Round trip: a wrapped plaintext unwraps to itself if and only if the mode is
      KW, or it is KWP and the plaintext has at most 2^32 - 8 bytes. The last
      seven lengths that KWP wraps are longer than the ciphertexts it unwraps. */
  lemma UnwrapWrap(enc: BlockFunction, dec: BlockFunction, mode: Mode, plaintext: seq<byte>)
    requires IsCipher(enc, dec) && PlaintextLength(mode, |plaintext|)
    ensures var c := Wrapped(enc, mode, plaintext);
            Unwrappable(mode, |plaintext|) <==> CiphertextLength(mode, |c|) && Unwrapped(dec, mode, c) == Some(plaintext)
  {
    UnwrappableLengths(mode, |plaintext|);
    DecryptInverse(enc, dec, Formatted(mode, plaintext));
    CheckedFormatted(mode, plaintext);
  }

  /** For instance 2^32 - 7 zero bytes are wrapped, and the result is refused for
      its length. */
  lemma LongestWrappingsRefused(enc: BlockFunction)
    ensures PlaintextLength(KWP, 0xFFFF_FFF9)
    ensures !CiphertextLength(KWP, |Wrapped(enc, KWP, Zeros(0xFFFF_FFF9))|)
  {
    UnwrappableLengths(KWP, 0xFFFF_FFF9);
  }

  /** Nothing else is accepted: what unwraps is a wrapping of the result. */
  lemma WrapUnwrap(enc: BlockFunction, dec: BlockFunction, mode: Mode, c: seq<byte>)
    requires IsCipher(enc, dec) && CiphertextLength(mode, |c|)
    requires Unwrapped(dec, mode, c).Some?
    ensures PlaintextLength(mode, |Unwrapped(dec, mode, c).value|)
    ensures Wrapped(enc, mode, Unwrapped(dec, mode, c).value) == c
  {
    DecryptInverse(enc, dec, c);
    FormattedChecked(mode, Decrypt(dec, c));
  }

  /** Unwrapping accepts exactly the image of wrapping. */
  lemma AcceptsExactlyWrapped(enc: BlockFunction, dec: BlockFunction, mode: Mode, c: seq<byte>)
    requires IsCipher(enc, dec) && CiphertextLength(mode, |c|)
    ensures Unwrapped(dec, mode, c).Some? <==>
            exists p: seq<byte> :: PlaintextLength(mode, |p|) && Wrapped(enc, mode, p) == c
  {
    if Unwrapped(dec, mode, c).Some? {
      WrapUnwrap(enc, dec, mode, c);
    }
    if p: seq<byte> :| PlaintextLength(mode, |p|) && Wrapped(enc, mode, p) == c {
      UnwrappableLengths(mode, |p|);
      UnwrapWrap(enc, dec, mode, p);
    }
  }
}
