// mbedtls_nist_kw_wrap and mbedtls_nist_kw_unwrap as they work: in place in
// the output buffer, with a pointer that walks round it instead of a shift
// register. Both are proved against the shift-register definitions.
module KeyWrap {
  import opened Bytes
  import opened Options
  import opened KeyWrapSpec

  datatype KwStatus =
    | Success
    | InvalidArgument
    | BufferTooSmall
    | NotSupported
    | InvalidSignature
    | UpdateFailure
    | FinishFailure

  const SIZE_MODULUS: nat := 0x1_0000_0000_0000_0000
  const PTRDIFF_MAX: nat := 0x7FFF_FFFF_FFFF_FFFF

  /** The difference of two size_t values, wrapping round below zero. */
  function SizeSub(a: nat, b: nat): nat
    requires a < SIZE_MODULUS && b < SIZE_MODULUS
  {
    if b <= a then a - b else SIZE_MODULUS - (b - a)
  }

  /** psa_cipher_update on one ECB block, which it transforms at once. `reliable`
      says that the driver does not fail during this call. */
  method UpdateBlock(f: BlockFunction, reliable: bool, input: CipherBlock) returns (status: KwStatus, out: CipherBlock)
    ensures status == Success || status == UpdateFailure
    ensures reliable ==> status == Success
    ensures status == Success ==> out == f(input)
  {
    out := f(input);
    status := Success;
    if !reliable {
      if * {
        status := UpdateFailure;
      }
    }
  }

  /** psa_cipher_finish, which has no output left to give in ECB mode. */
  method FinishCipher(finishes: bool) returns (status: KwStatus)
    ensures status == if finishes then Success else FinishFailure
  {
    status := if finishes then Success else FinishFailure;
  }

  /** calc_a_xor_t, on the first semiblock of a buffer. */
  method CalcAXorT(buffer: array<byte>, t: nat)
    requires buffer.Length >= 8
    modifies buffer
    ensures buffer[..] == XorCounter(old(buffer[..8]), t) + old(buffer[8..])
    ensures t < Pow256(8) ==> GetBe(buffer[..8]) == BitXor(old(GetBe(buffer[..8])), t)
  {
    ghost var A: Semiblock := buffer[..8];
    var i := 0;
    while i < 8
      invariant 0 <= i <= 8
      invariant forall k :: 0 <= k < i ==> buffer[k] == XorCounter(A, t)[k]
      invariant forall k :: i <= k < buffer.Length ==> buffer[k] == old(buffer[k])
    {
      PutBeDigit(t, 8, 7 - i);
      buffer[i] := XorByte(buffer[i], t / Pow256(7 - i) % 256);
      i := i + 1;
    }
    assert buffer[..8] == XorCounter(A, t);
    assert t < Pow256(8) ==> GetBe(buffer[..8]) == BitXor(GetBe(A), t) by {
      if t < Pow256(8) {
        XorCounterValue(A, t);
      }
    }
    assert buffer[8..] == old(buffer[8..]);
    assert buffer[..] == buffer[..8] + buffer[8..];
  }

  // ----------------------------------------- the register that stays in place

  /** The shift register holds the buffer read round from offset k. */
  ghost predicate Rotated(register: seq<byte>, buffer: seq<byte>, k: nat) {
    k <= |buffer| && register == buffer[k..] + buffer[..k]
  }

  /** Shifting in at the end is overwriting in place at k and moving on. */
  lemma RotateForward(register: seq<byte>, buffer: seq<byte>, k: nat, x: seq<byte>)
    requires Rotated(register, buffer, k) && k + 8 <= |buffer| && |x| == 8
    ensures register[..8] == buffer[k..k + 8]
    ensures Rotated(register[8..] + x, buffer[..k] + x + buffer[k + 8..], if k + 8 == |buffer| then 0 else k + 8)
  {
    var after := buffer[..k] + x + buffer[k + 8..];
    assert register[8..] + x == after[k + 8..] + after[..k + 8];
    assert k + 8 == |buffer| ==> after[k + 8..] + after[..k + 8] == after[0..] + after[..0];
  }

  /** Shifting in at the front is moving back and overwriting in place. */
  lemma RotateBackward(register: seq<byte>, buffer: seq<byte>, k: nat, p: nat, x: seq<byte>)
    requires Rotated(register, buffer, k) && k % 8 == 0 && k < |buffer| && |buffer| % 8 == 0 && |x| == 8
    requires p == if k == 0 then |buffer| - 8 else k - 8
    ensures register[|register| - 8..] == buffer[p..p + 8]
    ensures Rotated(x + register[..|register| - 8], buffer[..p] + x + buffer[p + 8..], p)
  {
    var after := buffer[..p] + x + buffer[p + 8..];
    if k == 0 {
      assert register == buffer;
      assert x + register[..|register| - 8] == after[p..] + after[..p];
    } else {
      assert x + register[..|register| - 8] == after[p..] + after[..p];
    }
  }

  /** The position, among m, of the pointer after t steps round the buffer. */
  function Position(t: nat, m: nat): (p: nat)
    requires m > 0
    ensures p < m
  {
    if t == 0 || Position(t - 1, m) + 1 == m then 0 else Position(t - 1, m) + 1
  }

  lemma {:induction false} PositionRun(t: nat, k: nat, m: nat)
    requires m > 0 && Position(t, m) == 0 && k <= m
    ensures Position(t + k, m) == if k == m then 0 else k
  {
    if k > 0 {
      PositionRun(t, k - 1, m);
    }
  }

  /** After its 6 * m steps the pointer is back where it started. */
  lemma BackAtStart(m: nat)
    requires m > 0
    ensures Position(6 * m, m) == 0
  {
    PositionRun(0, m, m);
    PositionRun(m, m, m);
    PositionRun(2 * m, m, m);
    PositionRun(3 * m, m, m);
    PositionRun(4 * m, m, m);
    PositionRun(5 * m, m, m);
  }

  /** The three writes of a wrap step, seen from the register and the buffer. */
  lemma WrapWrites(s0: seq<byte>, s1: seq<byte>, s2: seq<byte>, s3: seq<byte>,
                   b0: seq<byte>, a: seq<byte>, x: seq<byte>, R2: nat, end: nat)
    requires |b0| == |a| == |x| == 8 <= R2 && R2 + 8 <= end <= |s0|
    requires s1 == b0 + s0[8..] && s2 == a + s1[8..] && s3 == s2[..R2] + x + s2[R2 + 8..]
    ensures s1[..8] == b0 && s3[..8] == a && s3[end..] == s0[end..]
    ensures s3[8..end] == s0[8..end][..R2 - 8] + x + s0[8..end][R2..]
  {
    assert s2[8..] == s0[8..];
    assert s3 == a + s0[8..R2] + x + s0[R2 + 8..];
    SliceOfSlice(s0, 8, end, 0, R2 - 8);
    SliceOfSlice(s0, 8, end, R2, end - 8);
    assert s3[8..end] == s0[8..R2] + x + s0[R2 + 8..end];
  }

  /** One iteration of the loop of mbedtls_nist_kw_wrap: step t of W, performed
      at the position of the pointer. */
  method WrapStep(enc: BlockFunction, reliable: bool, output: array<byte>, end: nat, R2: nat, t: nat,
                  ghost registers: Registers)
      returns (status: KwStatus)
    requires 8 <= R2 && R2 + 8 <= end <= output.Length
    requires |registers.R| == end - 8
    requires output[..8] == registers.A && Rotated(registers.R, output[8..end], R2 - 8)
    modifies output
    ensures status == Success || status == UpdateFailure
    ensures reliable ==> status == Success
    ensures status == Success ==>
              var next := Step(enc, t, registers);
              && output[..8] == next.A
              && Rotated(next.R, output[8..end], if R2 + 8 == end then 0 else R2)
              && output[end..] == old(output[end..])
  {
    ghost var buffer := output[8..end];
    ghost var s0 := output[..];
    RotateForward(registers.R, buffer, R2 - 8, Zeros(8));
    SliceOfSlice(s0, 8, end, R2 - 8, R2);
    var b;
    status, b := UpdateBlock(enc, reliable, output[..8] + output[R2..R2 + 8]);
    if status != Success {
      return;
    }
    assert b == enc(registers.A + registers.R[..8]);
    CopyBytes(output, 0, b[..8]);
    ghost var s1 := output[..];
    assert s1 == b[..8] + s0[8..];
    CalcAXorT(output, t);
    ghost var s2 := output[..];
    CopyBytes(output, R2, b[8..]);
    WrapWrites(s0, s1, s2, output[..], b[..8], s2[..8], b[8..], R2, end);
    RotateForward(registers.R, buffer, R2 - 8, b[8..]);
  }

  /** The loop of mbedtls_nist_kw_wrap over the first n semiblocks of output. */
  method WrapInPlace(enc: BlockFunction, reliable: bool, output: array<byte>, n: nat) returns (status: KwStatus)
    requires n >= MIN_SEMIBLOCKS && n * SEMIBLOCK <= output.Length
    modifies output
    ensures status == Success || status == UpdateFailure
    ensures reliable ==> status == Success
    ensures status == Success ==>
              && output[..n * SEMIBLOCK] == W(enc, old(output[..n * SEMIBLOCK]))
              && output[n * SEMIBLOCK..] == old(output[n * SEMIBLOCK..])
  {
    var end := n * SEMIBLOCK;
    var s := 6 * (n - 1);
    ghost var start := Load(output[..end]);
    ghost var registers := start;
    var R2 := SEMIBLOCK;
    var t := 1;
    assert StepCount(output[..end]) == s;
    while t <= s
      invariant 1 <= t <= s + 1
      invariant R2 == SEMIBLOCK + 8 * Position(t - 1, n - 1)
      invariant |registers.R| == end - 8
      invariant registers == Steps(enc, t - 1, start)
      invariant output[..8] == registers.A
      invariant Rotated(registers.R, output[8..end], R2 - 8)
      invariant output[end..] == old(output[end..])
    {
      status := WrapStep(enc, reliable, output, end, R2, t, registers);
      if status != Success {
        return;
      }
      registers := Step(enc, t, registers);
      R2 := R2 + SEMIBLOCK;
      if R2 >= end {
        R2 := SEMIBLOCK;
      }
      t := t + 1;
    }
    BackAtStart(n - 1);
    assert output[8..end] == registers.R;
    assert output[..end] == output[..8] + output[8..end];
    status := Success;
  }

  /** The string to work on, written as mbedtls_nist_kw_wrap writes it. */
  method FormatInto(mode: Mode, input: seq<byte>, padlen: nat, output: array<byte>)
    requires Formattable(mode, |input|)
    requires padlen == if mode == KW then 0 else PadLength(|input|)
    requires |input| + SEMIBLOCK + padlen <= output.Length
    modifies output
    ensures output[..|input| + SEMIBLOCK + padlen] == Formatted(mode, input)
    ensures output[|input| + SEMIBLOCK + padlen..] == old(output[|input| + SEMIBLOCK + padlen..])
  {
    ghost var end := SEMIBLOCK + |input| + padlen;
    ghost var rest := output[end..];
    if mode == KW {
      CopyBytes(output, 0, ICV1);
      assert output[..SEMIBLOCK] == ICV1 && output[end..] == rest;
      CopyBytes(output, SEMIBLOCK, input);
    } else {
      CopyBytes(output, 0, ICV2);
      assert output[..4] == ICV2 && output[end..] == rest;
      var inputLength := |input| % 0x1_0000_0000;
      assert inputLength == |input|;
      var length := PutBe(inputLength, 4);
      CopyBytes(output, 4, length);
      assert output[..SEMIBLOCK] == ICV2 + length && output[end..] == rest;
      CopyBytes(output, SEMIBLOCK, input);
      assert output[..SEMIBLOCK + |input|] == ICV2 + length + input && output[end..] == rest;
      ZeroBytes(output, SEMIBLOCK + |input|, padlen);
    }
  }

  /** The checks of mbedtls_nist_kw_wrap on the lengths, and the padding. */
  method CheckLengths(mode: Mode, length: nat, outputSize: nat) returns (status: KwStatus, padlen: nat)
    requires length <= PTRDIFF_MAX
    ensures var padding := if mode == KW then 0 else PadLength(length);
            && padlen == padding
            && status == if outputSize < length + SEMIBLOCK + padding then BufferTooSmall
                         else if !Formattable(mode, length) then InvalidArgument else Success
  {
    padlen := 0;
    if mode == KW {
      if outputSize < length + SEMIBLOCK {
        return BufferTooSmall, padlen;
      }
      if length < 16 || length > 0x1FFFFFFFFFFFFF8 || length % SEMIBLOCK != 0 {
        return InvalidArgument, padlen;
      }
    } else {
      if length % 8 != 0 {
        padlen := 8 - length % 8;
      }
      if outputSize < length + SEMIBLOCK + padlen {
        return BufferTooSmall, padlen;
      }
      if length < 1 || length > 0xFFFFFFFF {
        return InvalidArgument, padlen;
      }
    }
    return Success, padlen;
  }

  /** mbedtls_nist_kw_wrap up to its cleanup. */
  method WrapInto(enc: BlockFunction, reliable: bool, finishes: bool, mode: Mode, input: seq<byte>, output: array<byte>)
      returns (status: KwStatus, outputLength: nat)
    requires |input| <= PTRDIFF_MAX
    modifies output
    ensures var padding := if mode == KW then 0 else PadLength(|input|);
            && (status == BufferTooSmall <==> output.Length < |input| + SEMIBLOCK + padding)
            && (status == InvalidArgument <==>
                  output.Length >= |input| + SEMIBLOCK + padding && !PlaintextLength(mode, |input|))
    ensures status in {Success, BufferTooSmall, InvalidArgument, UpdateFailure, FinishFailure}
    ensures status == UpdateFailure ==> !reliable
    ensures status == FinishFailure ==> !finishes && mode == KWP && |input| <= SEMIBLOCK
    ensures status == Success ==>
              && PlaintextLength(mode, |input|)
              && outputLength == |Wrapped(enc, mode, input)| <= output.Length
              && output[..outputLength] == Wrapped(enc, mode, input)
              && output[outputLength..] == old(output[outputLength..])
    ensures status != Success ==> outputLength == 0
  {
    outputLength := 0;
    var padlen;
    status, padlen := CheckLengths(mode, |input|, output.Length);
    if status != Success {
      return;
    }
    FormatInto(mode, input, padlen, output);
    var semiblocks := (|input| + padlen) / SEMIBLOCK + 1;
    assert semiblocks * SEMIBLOCK == |input| + SEMIBLOCK + padlen;
    if !(mode == KWP && |input| <= SEMIBLOCK) && semiblocks < MIN_SEMIBLOCKS {
      return InvalidArgument, 0;
    }
    status := EncryptInPlace(enc, reliable, finishes, mode == KWP && |input| <= SEMIBLOCK, output, semiblocks);
    if status != Success {
      return;
    }
    outputLength := semiblocks * SEMIBLOCK;
  }

  /** mbedtls_nist_kw_wrap. A mode that is neither KW nor KWP is formatted as KWP
      is, but has no case for a single block. */
  method Wrap(enc: BlockFunction, reliable: bool, finishes: bool, mode: Mode, input: seq<byte>, output: array<byte>)
      returns (status: KwStatus, outputLength: nat)
    requires |input| <= PTRDIFF_MAX
    modifies output
    ensures var padding := if mode == KW then 0 else PadLength(|input|);
            && (status == BufferTooSmall <==> output.Length < |input| + SEMIBLOCK + padding)
            && (status == InvalidArgument <==>
                  output.Length >= |input| + SEMIBLOCK + padding && !PlaintextLength(mode, |input|))
    ensures status in {Success, BufferTooSmall, InvalidArgument, UpdateFailure, FinishFailure}
    ensures status == UpdateFailure ==> !reliable
    ensures status == FinishFailure ==> !finishes && mode == KWP && |input| <= SEMIBLOCK
    ensures status == Success ==>
              && PlaintextLength(mode, |input|)
              && outputLength == |Wrapped(enc, mode, input)| <= output.Length
              && output[..outputLength] == Wrapped(enc, mode, input)
              && output[outputLength..] == old(output[outputLength..])
    ensures status != Success ==> outputLength == 0 && output[..] == Zeros(output.Length)
  {
    status, outputLength := WrapInto(enc, reliable, finishes, mode, input, output);
    if status != Success {
      ZeroBytes(output, 0, output.Length);
    }
  }

  /** The encryption of the formatted string: a single block, or the loop. */
  method EncryptInPlace(enc: BlockFunction, reliable: bool, finishes: bool, single: bool, output: array<byte>, n: nat)
      returns (status: KwStatus)
    requires 2 <= n && n * SEMIBLOCK <= output.Length && (single <==> n == 2)
    modifies output
    ensures status in {Success, UpdateFailure, FinishFailure}
    ensures status == UpdateFailure ==> !reliable
    ensures status == FinishFailure ==> !finishes && single
    ensures status == Success ==>
              && output[..n * SEMIBLOCK] == Encrypt(enc, old(output[..n * SEMIBLOCK]))
              && output[n * SEMIBLOCK..] == old(output[n * SEMIBLOCK..])
  {
    if single {
      var b;
      status, b := UpdateBlock(enc, reliable, output[..16]);
      if status == Success {
        CopyBytes(output, 0, b);
        assert output[..16] == b;
        status := FinishCipher(finishes);
      }
    } else {
      status := WrapInPlace(enc, reliable, output, n);
    }
  }

  /** One iteration of the loop of unwrap: step t of the inverse of W, performed
      at the position of the pointer. */
  method UnwrapStep(dec: BlockFunction, reliable: bool, A: array<byte>, output: array<byte>, end: nat, ghost k: nat, R: nat, t: nat,
                    ghost registers: Registers)
      returns (status: KwStatus)
    requires A.Length == SEMIBLOCK && end <= output.Length && A != output
    requires k % 8 == 0 && k < end && end % 8 == 0 && R == if k == 0 then end - 8 else k - 8
    requires |registers.R| == end
    requires A[..] == registers.A && Rotated(registers.R, output[..end], k)
    modifies A, output
    ensures status == Success || status == UpdateFailure
    ensures reliable ==> status == Success
    ensures output[end..] == old(output[end..])
    ensures status == Success ==>
              var next := InverseStep(dec, t, registers);
              && A[..] == next.A
              && Rotated(next.R, output[..end], R)
  {
    ghost var buffer := output[..end];
    ghost var s0 := output[..];
    RotateBackward(registers.R, buffer, k, R, Zeros(8));
    SliceOfSlice(s0, 0, end, R, R + 8);
    CalcAXorT(A, t);
    assert A[..8] == A[..] == XorCounter(registers.A, t);
    var b;
    status, b := UpdateBlock(dec, reliable, A[..8] + output[R..R + 8]);
    if status != Success {
      return;
    }
    assert b == dec(XorCounter(registers.A, t) + registers.R[|registers.R| - 8..]);
    CopyBytes(A, 0, b[..8]);
    assert A[..] == b[..8];
    CopyBytes(output, R, b[8..]);
    UnwrapWrite(s0, output[..], b[8..], R, end);
    RotateBackward(registers.R, buffer, k, R, b[8..]);
    assert InverseStep(dec, t, registers) == Registers(b[..8], b[8..] + registers.R[..end - 8]);
    hide XorCounter, BitXor, GetBe;
  }

  lemma UnwrapWrite(s0: seq<byte>, s1: seq<byte>, x: seq<byte>, R: nat, end: nat)
    requires |x| == 8 && R + 8 <= end <= |s0|
    requires s1 == s0[..R] + x + s0[R + 8..]
    ensures s1[..end] == s0[..end][..R] + x + s0[..end][R + 8..] && s1[end..] == s0[end..]
  {
  }

  /** The loop of unwrap, on buffers that already hold the registers. */
  method UnwrapLoop(dec: BlockFunction, reliable: bool, n: nat, A: array<byte>, output: array<byte>, ghost start: Registers)
      returns (status: KwStatus)
    requires n >= MIN_SEMIBLOCKS && |start.R| == (n - 1) * SEMIBLOCK <= output.Length
    requires A.Length == SEMIBLOCK && A != output
    requires A[..] == start.A && output[..(n - 1) * SEMIBLOCK] == start.R
    modifies A, output
    ensures status == Success || status == UpdateFailure
    ensures reliable ==> status == Success
    ensures output[(n - 1) * SEMIBLOCK..] == old(output[(n - 1) * SEMIBLOCK..])
    ensures status == Success ==>
              Registers(A[..], output[..(n - 1) * SEMIBLOCK]) == InverseSteps(dec, 6 * (n - 1), start)
  {
    var end := (n - 1) * SEMIBLOCK;
    ghost var registers := start;
    BackAtStart(n - 1);
    var R := (n - 2) * SEMIBLOCK;
    var t := 6 * (n - 1);
    while t >= 1
      invariant 0 <= t <= 6 * (n - 1)
      invariant var k := 8 * Position(t, n - 1); R == if k == 0 then end - 8 else k - 8
      invariant |registers.R| == end
      invariant InverseSteps(dec, t, registers) == InverseSteps(dec, 6 * (n - 1), start)
      invariant A[..] == registers.A
      invariant Rotated(registers.R, output[..end], 8 * Position(t, n - 1))
      invariant output[end..] == old(output[end..])
    {
      ghost var k := 8 * Position(t, n - 1);
      status := UnwrapStep(dec, reliable, A, output, end, k, R, t, registers);
      if status != Success {
        return;
      }
      registers := InverseStep(dec, t, registers);
      if R == 0 {
        R := (n - 2) * SEMIBLOCK;
      } else {
        R := R - SEMIBLOCK;
      }
      t := t - 1;
    }
    assert output[..end] == registers.R;
    status := Success;
  }

  /** unwrap: the inverse of W, into a separate first semiblock A and the
      output buffer, with a pointer that walks round the buffer backwards. */
  method UnwrapInPlace(dec: BlockFunction, reliable: bool, finishes: bool, input: seq<byte>, n: nat, A: array<byte>,
                       output: array<byte>)
      returns (status: KwStatus)
    requires 1 <= n && |input| == n * SEMIBLOCK
    requires A.Length == SEMIBLOCK && (n - 1) * SEMIBLOCK <= output.Length && A != output
    modifies A, output
    ensures status == InvalidArgument <==> n < MIN_SEMIBLOCKS
    ensures status in {Success, InvalidArgument, UpdateFailure, FinishFailure}
    ensures status == UpdateFailure ==> !reliable
    ensures status == FinishFailure ==> !finishes
    ensures status == Success ==> finishes
    ensures output[(n - 1) * SEMIBLOCK..] == old(output[(n - 1) * SEMIBLOCK..])
    ensures status == Success ==> A[..] + output[..(n - 1) * SEMIBLOCK] == InverseW(dec, input)
    ensures status != Success ==> output[..(n - 1) * SEMIBLOCK] == Zeros((n - 1) * SEMIBLOCK)
  {
    var end := (n - 1) * SEMIBLOCK;
    if n < MIN_SEMIBLOCKS {
      ZeroBytes(output, 0, end);
      return InvalidArgument;
    }
    ghost var start := Load(input);
    CopyBytes(A, 0, input[..8]);
    CopyBytes(output, 0, input[8..]);
    assert A[..] == start.A && output[..end] == start.R;
    status := UnwrapLoop(dec, reliable, n, A, output, start);
    if status == Success {
      status := FinishCipher(finishes);
    }
    if status != Success {
      ZeroBytes(output, 0, end);
      return;
    }
    assert StepCount(input) == 6 * (n - 1);
  }

  /** The three tests of the KWP branch, with their wrap-around subtraction,
      are the checks of the specification. */
  lemma CheckedParts(a: seq<byte>, p: seq<byte>, len: nat, padlen: nat)
    requires |a| == 8 <= |p| < 0x100000000 && |p| % 8 == 0
    requires len == GetBe(a[4..8]) < 0x1_0000_0000
    requires padlen == SizeSub(|p|, len) % 8
    ensures Checked(KWP, a + p) == if a[..4] == ICV2 && SizeSub(|p|, len) <= 7 && p[|p| - padlen..] == Zeros(padlen)
                                   then Some(p[..len]) else None
  {
    var s := a + p;
    assert s[..4] == a[..4] && s[4..8] == a[4..8];
    if len <= |p| <= len + 7 {
      assert s[8 + len..] == p[len..] && s[8..8 + len] == p[..len];
    }
  }

  /** The checks of the KWP branch: every one is made, whatever the others say. */
  method CheckPadded(A: array<byte>, output: array<byte>, end: nat) returns (status: KwStatus, outputLength: nat)
    requires A.Length == SEMIBLOCK && CiphertextLength(KWP, end + SEMIBLOCK) && end <= output.Length
    modifies output
    ensures status == if Checked(KWP, old(A[..] + output[..end])).Some? then Success else InvalidSignature
    ensures output[end..] == old(output[end..])
    ensures status == Success ==>
              && outputLength <= end
              && Checked(KWP, old(A[..] + output[..end])) == Some(output[..outputLength])
              && output[outputLength..end] == Zeros(end - outputLength)
    ensures status != Success ==> outputLength == 0 && output[..end] == Zeros(end)
  {
    var a, p := A[..], output[..end];
    status := if a[..4] != ICV2 then InvalidSignature else Success;
    var Plen := GetBe(a[4..8]);
    PutGetBe(a[4..8]);
    assert Pow256(4) == 0x1_0000_0000;
    var padlen := SizeSub(end, Plen);
    status := if padlen > 7 then InvalidSignature else status;
    padlen := padlen % 8;
    status := if p[|p| - padlen..] != Zeros(padlen) then InvalidSignature else status;
    CheckedParts(a, p, Plen, padlen);
    if status != Success {
      ZeroBytes(output, 0, end);
      return InvalidSignature, 0;
    }
    assert Plen + padlen == end;
    assert output[..Plen] == p[..Plen];
    ZeroBytes(output, Plen, padlen);
    assert output[..end] == p[..Plen] + Zeros(padlen);
    assert output[..Plen] == p[..Plen];
    assert output[Plen..end] == Zeros(padlen);
    outputLength := Plen;
  }

  /** How many bytes from the start of its output mbedtls_nist_kw_unwrap clears
      when it fails on n bytes of input: as many as *output_length says then. In
      the one-block case that is the 16 bytes of the update, although the output
      is only asked to hold 8. */
  function Cleared(n: nat, status: KwStatus): nat {
    match status
    case UpdateFailure => if n <= 16 then 0 else n - SEMIBLOCK
    case FinishFailure => if n <= 16 then n else n - SEMIBLOCK
    case InvalidSignature => if n < SEMIBLOCK then 0 else n - SEMIBLOCK
    case _ => 0
  }

  /** An input whose processing may fail in these ways, and an output of at least
      the size that is asked for: the clearing stays within the plaintext part,
      and within the output, exactly unless it is the one-block case of KWP
      whose psa_cipher_finish failed (and the output is not larger). */
  lemma ClearedWithin(mode: Mode, n: nat, outputSize: nat, status: KwStatus)
    requires CiphertextLength(mode, n) && n - SEMIBLOCK <= outputSize
    ensures Cleared(n, status) <= n - SEMIBLOCK <==> !(mode == KWP && n == 16 && status == FinishFailure)
    ensures Cleared(n, status) <= outputSize
        <==> !(mode == KWP && n == 16 && status == FinishFailure && outputSize < 16)
  {
  }

  /** The one-block case of KWP, with its own update and finish. */
  method UnwrapBlock(dec: BlockFunction, reliable: bool, finishes: bool, input: seq<byte>, A: array<byte>,
                     output: array<byte>)
      returns (status: KwStatus)
    requires |input| == 16 <= output.Length && A.Length == SEMIBLOCK && A != output
    modifies A, output
    ensures status == UpdateFailure || status == if finishes then Success else FinishFailure
    ensures status == UpdateFailure ==> !reliable
    ensures status == Success ==>
        A[..] + output[..SEMIBLOCK] == Decrypt(dec, input) && output[SEMIBLOCK..] == old(output[SEMIBLOCK..])
    ensures status != Success ==>
        output[..] == Zeros(Cleared(16, status)) + old(output[Cleared(16, status)..])
  {
    var b;
    status, b := UpdateBlock(dec, reliable, input);
    if status != Success {
      return;
    }
    status := FinishCipher(finishes);
    if status != Success {
      ZeroBytes(output, 0, |b|);
      return;
    }
    CopyBytes(A, 0, b[..8]);
    CopyBytes(output, 0, b[8..]);
    assert A[..] == b[..8];
  }

  /** Longer inputs go through unwrap, after which the whole plaintext part is
      cleared on failure. */
  method UnwrapBlocks(dec: BlockFunction, reliable: bool, finishes: bool, input: seq<byte>, A: array<byte>,
                      output: array<byte>)
      returns (status: KwStatus)
    requires 24 <= |input| <= output.Length + SEMIBLOCK && |input| % SEMIBLOCK == 0
    requires A.Length == SEMIBLOCK && A != output
    modifies A, output
    ensures status == UpdateFailure || status == if finishes then Success else FinishFailure
    ensures status == UpdateFailure ==> !reliable
    ensures status == Success ==> A[..] + output[..|input| - SEMIBLOCK] == Decrypt(dec, input)
    ensures output[|input| - SEMIBLOCK..] == old(output[|input| - SEMIBLOCK..])
    ensures status != Success ==>
        output[..] == Zeros(Cleared(|input|, status)) + old(output[Cleared(|input|, status)..])
  {
    var end := |input| - SEMIBLOCK;
    status := UnwrapInPlace(dec, reliable, finishes, input, |input| / SEMIBLOCK, A, output);
    assert output[..] == output[..end] + output[end..];
  }

  /** The KWP branch of mbedtls_nist_kw_unwrap, whose clearing may reach 16 bytes
      in the one-block case. */
  method UnwrapPadded(dec: BlockFunction, reliable: bool, finishes: bool, input: seq<byte>, output: array<byte>)
      returns (status: KwStatus, outputLength: nat)
    requires CiphertextLength(KWP, |input|) && |input| - SEMIBLOCK <= output.Length
    requires |input| == 16 ==> 16 <= output.Length
    modifies output
    ensures status in {Success, InvalidSignature, UpdateFailure, FinishFailure}
    ensures status == UpdateFailure ==> !reliable
    ensures status == FinishFailure ==> !finishes
    ensures reliable && !finishes ==> status == FinishFailure
    ensures status == Success ==>
              && outputLength <= |input| - SEMIBLOCK
              && Unwrapped(dec, KWP, input) == Some(output[..outputLength])
              && output[outputLength..|input| - SEMIBLOCK] == Zeros(|input| - SEMIBLOCK - outputLength)
              && output[|input| - SEMIBLOCK..] == old(output[|input| - SEMIBLOCK..])
    ensures status == InvalidSignature ==> Unwrapped(dec, KWP, input) == None
    ensures status != Success ==> outputLength == 0 && Cleared(|input|, status) <= output.Length
    ensures status != Success ==>
              output[..] == Zeros(Cleared(|input|, status)) + old(output[Cleared(|input|, status)..])
  {
    outputLength := 0;
    var A := new byte[SEMIBLOCK];
    if |input| == SEMIBLOCK * 2 {
      status := UnwrapBlock(dec, reliable, finishes, input, A, output);
    } else {
      status := UnwrapBlocks(dec, reliable, finishes, input, A, output);
    }
    if status != Success {
      return;
    }
    status, outputLength := CheckPadded(A, output, |input| - SEMIBLOCK);
    assert status != Success ==> output[..] == output[..|input| - SEMIBLOCK] + output[|input| - SEMIBLOCK..];
  }

  /** The check of the KW branch. */
  method CheckPlain(A: array<byte>, output: array<byte>, end: nat) returns (status: KwStatus, outputLength: nat)
    requires A.Length == SEMIBLOCK && SEMIBLOCK <= end <= output.Length
    modifies output
    ensures status == if Checked(KW, old(A[..] + output[..end])).Some? then Success else InvalidSignature
    ensures output[end..] == old(output[end..])
    ensures status == Success ==>
              && outputLength == end
              && Checked(KW, old(A[..] + output[..end])) == Some(output[..end])
    ensures status != Success ==> outputLength == 0 && output[..end] == Zeros(end)
  {
    ghost var a, p := A[..], output[..end];
    assert (a + p)[..8] == a && (a + p)[8..] == p;
    if A[..] != ICV1 {
      ZeroBytes(output, 0, end);
      return InvalidSignature, 0;
    }
    return Success, end;
  }

  /** The KW branch of mbedtls_nist_kw_unwrap. */
  method UnwrapPlain(dec: BlockFunction, reliable: bool, finishes: bool, input: seq<byte>, output: array<byte>)
      returns (status: KwStatus, outputLength: nat)
    requires CiphertextLength(KW, |input|) && |input| - SEMIBLOCK <= output.Length
    modifies output
    ensures status in {Success, InvalidSignature, UpdateFailure, FinishFailure}
    ensures status == UpdateFailure ==> !reliable
    ensures status == FinishFailure ==> !finishes
    ensures reliable && !finishes ==> status == FinishFailure
    ensures status == Success ==>
              && outputLength == |input| - SEMIBLOCK
              && Unwrapped(dec, KW, input) == Some(output[..outputLength])
              && output[|input| - SEMIBLOCK..] == old(output[|input| - SEMIBLOCK..])
    ensures status == InvalidSignature ==> Unwrapped(dec, KW, input) == None
    ensures status != Success ==> outputLength == 0 && Cleared(|input|, status) <= output.Length
    ensures status != Success ==>
              output[..] == Zeros(Cleared(|input|, status)) + old(output[Cleared(|input|, status)..])
  {
    outputLength := 0;
    var A := new byte[SEMIBLOCK];
    var end := |input| - SEMIBLOCK;
    status := UnwrapBlocks(dec, reliable, finishes, input, A, output);
    if status != Success {
      return;
    }
    status, outputLength := CheckPlain(A, output, end);
    assert status != Success ==> output[..] == output[..end] + output[end..];
  }

  /** mbedtls_nist_kw_unwrap. The array is the memory from the start of the
      caller's output on, of which the first `outputSize` bytes are the output:
      the cleanup of the one-block case may write behind it. */
  method Unwrap(dec: BlockFunction, reliable: bool, finishes: bool, mode: Mode, input: seq<byte>, output: array<byte>,
                outputSize: nat)
      returns (status: KwStatus, outputLength: nat)
    requires |input| <= PTRDIFF_MAX && outputSize <= PTRDIFF_MAX && outputSize <= output.Length
    requires mode == KWP && |input| == 16 && SEMIBLOCK <= outputSize ==> 16 <= output.Length
    modifies output
    ensures status == BufferTooSmall <==> |input| < SEMIBLOCK || outputSize < |input| - SEMIBLOCK
    ensures status == InvalidArgument <==>
              SEMIBLOCK <= |input| <= outputSize + SEMIBLOCK && mode != Unknown && !CiphertextLength(mode, |input|)
    ensures status == NotSupported <==> SEMIBLOCK <= |input| <= outputSize + SEMIBLOCK && mode == Unknown
    ensures status == UpdateFailure ==> !reliable
    ensures status == FinishFailure ==> !finishes
    ensures reliable && !finishes && CiphertextLength(mode, |input|) && |input| <= outputSize + SEMIBLOCK
            ==> status == FinishFailure
    ensures status == Success ==>
              && CiphertextLength(mode, |input|)
              && outputLength <= |input| - SEMIBLOCK
              && Unwrapped(dec, mode, input) == Some(output[..outputLength])
              && output[outputLength..|input| - SEMIBLOCK] == Zeros(|input| - SEMIBLOCK - outputLength)
              && output[|input| - SEMIBLOCK..] == old(output[|input| - SEMIBLOCK..])
    ensures status == InvalidSignature ==> CiphertextLength(mode, |input|) && Unwrapped(dec, mode, input) == None
    ensures status != Success ==> outputLength == 0 && Cleared(|input|, status) <= output.Length
    ensures status != Success ==>
              output[..] == Zeros(Cleared(|input|, status)) + old(output[Cleared(|input|, status)..])
  {
    if outputSize < SizeSub(|input|, SEMIBLOCK) {
      return BufferTooSmall, 0;
    }
    if mode == KW {
      if |input| < 24 || |input| > 0x200000000000000 || |input| % SEMIBLOCK != 0 {
        return InvalidArgument, 0;
      }
      status, outputLength := UnwrapPlain(dec, reliable, finishes, input, output);
    } else if mode == KWP {
      if |input| < SEMIBLOCK * 2 || |input| > 0x100000000 || |input| % SEMIBLOCK != 0 {
        return InvalidArgument, 0;
      }
      status, outputLength := UnwrapPadded(dec, reliable, finishes, input, output);
    } else {
      return NotSupported, 0;
    }
  }

  /** The one-block input of KWP with reliable updates and a psa_cipher_finish
      that fails: 16 bytes are cleared, behind an output of 8 to 15 bytes too. */
  method OneBlockCleanup(dec: BlockFunction, input: seq<byte>, memory: array<byte>, outputSize: nat)
      returns (status: KwStatus, outputLength: nat)
    requires |input| == 16 <= memory.Length && SEMIBLOCK <= outputSize < 16
    modifies memory
    ensures status == FinishFailure && outputLength == 0
    ensures memory[outputSize..16] == Zeros(16 - outputSize) && memory[16..] == old(memory[16..])
  {
    status, outputLength := Unwrap(dec, true, false, KWP, input, memory, outputSize);
  }
}
