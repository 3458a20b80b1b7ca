// The multipart key-derivation operation: inputs, capacity, and the buffered
// block generators behind psa_key_derivation_output_bytes, proved to hand out
// the streams of KdfSpec.
module Kdf {
  import opened Bytes
  import opened Options
  import opened KdfSpec
  import opened KdfInputs

  /** Blank is PSA_ALG_NONE; anything else names a derivation and the
      pseudorandom function underneath. */
  datatype Algorithm = Blank | Derive(kind: Kind, prf: Prf)

  /** The algorithm asked for: a derivation, alone or behind a key agreement that
      supplies its secret, or something an operation cannot be set up with. */
  datatype Requested =
    | RawAgreement
    | AgreementThen(kind: Kind, prf: Prf, agreementSupported: bool)
    | Plain(kind: Kind, prf: Prf)
    | NotADerivation

  const PSK_TO_MS_CAPACITY: nat := 48

  /** What fills the output of a failed request. */
  const FILLER: byte := 33

  /** psa_key_derivation_set_maximum_capacity. */
  function MaximumCapacity(kind: Kind, p: Prf): nat {
    match kind
    case Hkdf => 255 * Length(p)
    case HkdfExtract => Length(p)
    case HkdfExpand => 255 * Length(p)
    case Tls12Prf => SIZE_MAX
    case Tls12PskToMs => PSK_TO_MS_CAPACITY
    case _ => UINT32_MAX * Length(p)
  }

  /** The capacity of HKDF and of PBKDF2 is what they can generate, that of PSK to
      master secret is less, and only the TLS 1.2 PRF may be asked for more. */
  lemma CapacityWithinStream(p: Prf, kind: Kind, ctx: Context)
    requires IsPrf(p) && Fits(kind, ctx)
    ensures var limit := StreamLimit(p, SourceOf(p, kind, ctx));
            && (!IsTlsKind(kind) ==> MaximumCapacity(kind, p) == limit)
            && (kind.Tls12PskToMs? ==> MaximumCapacity(kind, p) < limit)
            && (kind.Tls12Prf? ==> MaximumCapacity(kind, p) > limit)
  {
  }

  predicate OutputStarted(ctx: Context) {
    match ctx
    case HkdfContext(state, _, _, _, _, _, _, _, _) => state.HkdfOutput?
    case TlsContext(state, _, _, _, _, _, _, _, _) => state.TlsOutput?
    case Pbkdf2Context(state, _, _, _, _, _, _) => state.Pbkdf2Output?
  }

  /** The bytes of the current block that have not been delivered. */
  function Buffered(p: Prf, ctx: Context): seq<byte>
    requires Length(p) <= |ctx.outputBlock|
    requires ctx.HkdfContext? ==> ctx.offset <= Length(p)
    requires ctx.TlsContext? ==> ctx.left <= Length(p)
    requires ctx.Pbkdf2Context? ==> ctx.bytesUsed <= Length(p)
  {
    match ctx
    case HkdfContext(_, _, _, _, _, _, offset, _, block) => block[offset..Length(p)]
    case TlsContext(_, _, _, _, _, _, left, _, block) => block[Length(p) - left..Length(p)]
    case Pbkdf2Context(_, _, _, _, used, _, block) => block[used..Length(p)]
  }

  ghost predicate WithinBlock(p: Prf, ctx: Context) {
    && Length(p) <= |ctx.outputBlock|
    && (ctx.HkdfContext? ==> ctx.offset <= Length(p))
    && (ctx.TlsContext? ==> ctx.left <= Length(p))
    && (ctx.Pbkdf2Context? ==> ctx.bytesUsed <= Length(p))
  }

  /** What was delivered and what is buffered are together the blocks generated
      so far, and the last block (and A(i)) needed for the next one is at hand. */
  ghost predicate Generating(p: Prf, src: Source, ctx: Context, delivered: seq<byte>)
    requires IsSource(p, src)
  {
    && WithinBlock(p, ctx)
    && ctx.blockNumber <= BlockLimit(src)
    && delivered + Buffered(p, ctx) == Produced(p, src, ctx.blockNumber)
    && (ctx.HkdfContext? && ctx.blockNumber > 0
        ==> ctx.outputBlock[..Length(p)] == Block(p, src, ctx.blockNumber))
    && (ctx.TlsContext? && src.TlsStream? && ctx.blockNumber > 0 && |ctx.Ai| >= Length(p)
        ==> ctx.Ai[..Length(p)] == TlsA(p, src.secret, src.seed, ctx.blockNumber))
  }

  /** Before output starts the context is what the inputs made it; afterwards it
      generates the stream of their source. */
  ghost predicate Tracks(p: Prf, kind: Kind, ctx: Context, inputs: seq<Input>, delivered: seq<byte>)
    requires IsPrf(p) && Fits(kind, ctx)
  {
    match AcceptAll(p, kind, inputs)
    case None => false
    case Some(given) =>
      if OutputStarted(ctx) then
        && Ready(kind, given) && Ready(kind, ctx)
        && SourceOf(p, kind, ctx) == SourceOf(p, kind, given)
        && IsSource(p, SourceOf(p, kind, ctx))
        && Generating(p, SourceOf(p, kind, ctx), ctx, delivered)
      else
        ctx == given && delivered == []
  }

  /** The context has become one that is delivering the same stream. */
  ghost predicate ReadingOn(p: Prf, kind: Kind, ctx: Context, next: Context, delivered: seq<byte>)
    requires IsPrf(p) && Fits(kind, ctx)
  {
    && Fits(kind, next) && OutputStarted(next) && Ready(kind, ctx) && Ready(kind, next)
    && SourceOf(p, kind, next) == SourceOf(p, kind, ctx)
    && IsSource(p, SourceOf(p, kind, ctx))
    && Generating(p, SourceOf(p, kind, ctx), next, delivered)
  }

  /** When output starts nothing has been generated, whatever the inputs. */
  lemma StartsAtZero(p: Prf, kind: Kind, inputs: seq<Input>)
    requires IsPrf(p) && Suits(kind, p) && AcceptAll(p, kind, inputs).Some?
    requires Ready(kind, AcceptAll(p, kind, inputs).value)
    ensures var ctx := AcceptAll(p, kind, inputs).value;
            && !OutputStarted(ctx)
            && IsSource(p, SourceOf(p, kind, ctx))
            && ctx.blockNumber == 0
            && (!ctx.Pbkdf2Context? ==> Generating(p, SourceOf(p, kind, ctx), ctx, []))
  {
    AcceptedReflects(p, kind, inputs);
  }

  /** Inputs are accepted only before output starts, and do not start it. */
  lemma InputBeforeOutput(p: Prf, kind: Kind, ctx: Context, input: Input)
    requires IsPrf(p) && Fits(kind, ctx)
    requires ApplyInput(p, kind, ctx, input).status == Success
    ensures !OutputStarted(ctx) && !OutputStarted(ApplyInput(p, kind, ctx, input).ctx)
  {
  }

  lemma AcceptOneMore(p: Prf, kind: Kind, inputs: seq<Input>, input: Input)
    requires IsPrf(p) && AcceptAll(p, kind, inputs).Some?
    requires ApplyInput(p, kind, AcceptAll(p, kind, inputs).value, input).status == Success
    ensures AcceptAll(p, kind, inputs + [input])
         == Some(ApplyInput(p, kind, AcceptAll(p, kind, inputs).value, input).ctx)
  {
    assert (inputs + [input])[..|inputs + [input]| - 1] == inputs;
  }

  lemma InputKeepsTracking(p: Prf, kind: Kind, ctx: Context, inputs: seq<Input>, delivered: seq<byte>, input: Input)
    requires IsPrf(p) && Fits(kind, ctx) && Tracks(p, kind, ctx, inputs, delivered)
    requires ApplyInput(p, kind, ctx, input).status == Success
    ensures Tracks(p, kind, ApplyInput(p, kind, ctx, input).ctx, inputs + [input], delivered)
  {
    InputBeforeOutput(p, kind, ctx, input);
    AcceptOneMore(p, kind, inputs, input);
  }

  /** An input is accepted exactly before output, if it is admissible and in order. */
  lemma InputAccepted(p: Prf, kind: Kind, ctx: Context, inputs: seq<Input>, delivered: seq<byte>, input: Input)
    requires IsPrf(p) && Fits(kind, ctx) && Tracks(p, kind, ctx, inputs, delivered)
    ensures ApplyInput(p, kind, ctx, input).status == Success <==>
            !OutputStarted(ctx) && Admissible(p, kind, input) && InOrder(kind, Word(inputs + [input]))
  {
    if ApplyInput(p, kind, ctx, input).status == Success {
      InputBeforeOutput(p, kind, ctx, input);
    }
    if !OutputStarted(ctx) {
      ExactlyAccepted(p, kind, inputs);
      StepIsAt(p, kind, ctx, Word(inputs), input);
      assert Word(inputs + [input]) == Word(inputs) + [LetterOf(input)];
    }
    hide InOrder, Admissible, IsAt, ApplyInput, Generating;
  }

  /** The inputs accepted so far allow output. */
  predicate Prepared(p: Prf, kind: Kind, inputs: seq<Input>)
    requires IsPrf(p)
  {
    AcceptAll(p, kind, inputs).Some? && Ready(kind, AcceptAll(p, kind, inputs).value)
  }

  /** What was delivered is a prefix of the stream the inputs define. */
  lemma TracksPrefix(p: Prf, kind: Kind, ctx: Context, inputs: seq<Input>, delivered: seq<byte>)
    requires IsPrf(p) && Suits(kind, p) && Fits(kind, ctx)
    requires Tracks(p, kind, ctx, inputs, delivered) && OutputStarted(ctx)
    ensures IsSource(p, Derivation(p, kind, inputs))
    ensures delivered == Prefix(p, Derivation(p, kind, inputs), |delivered|)
    ensures |delivered| <= StreamLimit(p, Derivation(p, kind, inputs))
  {
    var src := SourceOf(p, kind, ctx);
    ProducedPrefix(p, src, ctx.blockNumber, delivered, Buffered(p, ctx));
    BlocksWithinLimit(p, src, ctx.blockNumber);
    InputsDetermineStream(p, kind, inputs, |delivered|);
  }

  lemma Associate(a: seq<byte>, b: seq<byte>, c: seq<byte>)
    ensures (a + b) + c == a + (b + c)
  {
  }

  /** Moving bytes from the buffer to the output keeps their place in the stream. */
  lemma TakeBuffered(p: Prf, src: Source, k: Context, next: Context, chunk: seq<byte>, before: seq<byte>)
    requires IsSource(p, src) && Generating(p, src, k, before) && WithinBlock(p, next)
    requires Buffered(p, k) == chunk + Buffered(p, next)
    requires next.blockNumber == k.blockNumber && next.outputBlock == k.outputBlock
    requires next.HkdfContext? == k.HkdfContext? && next.TlsContext? == k.TlsContext?
    requires k.TlsContext? ==> next.Ai == k.Ai
    ensures Generating(p, src, next, before + chunk)
  {
    Associate(before, chunk, Buffered(p, next));
  }

  lemma GeneratingWithin(p: Prf, src: Source, k: Context, before: seq<byte>)
    requires IsSource(p, src) && Generating(p, src, k, before)
    ensures WithinBlock(p, k)
  {
  }

  lemma HkdfTake(p: Prf, src: Source, k: Context, n: nat, before: seq<byte>)
    requires IsSource(p, src) && k.HkdfContext? && Generating(p, src, k, before) && k.offset + n <= Length(p)
    ensures Generating(p, src, k.(offset := k.offset + n), before + k.outputBlock[k.offset..k.offset + n])
  {
    TakeBuffered(p, src, k, k.(offset := k.offset + n), k.outputBlock[k.offset..k.offset + n], before);
  }

  lemma TlsTake(p: Prf, src: Source, k: Context, n: nat, before: seq<byte>)
    requires IsSource(p, src) && k.TlsContext? && Generating(p, src, k, before) && n <= k.left
    ensures var offset := Length(p) - k.left;
            Generating(p, src, k.(left := k.left - n), before + k.outputBlock[offset..offset + n])
  {
    var offset := Length(p) - k.left;
    TakeBuffered(p, src, k, k.(left := k.left - n), k.outputBlock[offset..offset + n], before);
  }

  lemma Pbkdf2Take(p: Prf, src: Source, k: Context, n: nat, before: seq<byte>)
    requires IsSource(p, src) && k.Pbkdf2Context? && Generating(p, src, k, before) && k.bytesUsed + n <= Length(p)
    ensures Generating(p, src, k.(bytesUsed := k.bytesUsed + n), before + k.outputBlock[k.bytesUsed..k.bytesUsed + n])
  {
    TakeBuffered(p, src, k, k.(bytesUsed := k.bytesUsed + n), k.outputBlock[k.bytesUsed..k.bytesUsed + n], before);
  }

  /** T(i + 1) may follow once T(i) has been delivered to the last byte. */
  lemma HkdfRefill(p: Prf, src: Source, ctx: Context, out: seq<byte>, before: seq<byte>)
    requires IsSource(p, src) && ctx.HkdfContext? && src.HkdfStream? && Generating(p, src, ctx, before)
    requires ctx.offset == Length(p) && ctx.blockNumber < BlockLimit(src)
    requires out == Mac(p, src.prk, (if ctx.blockNumber == 0 then [] else ctx.outputBlock[..Length(p)])
                                    + src.info + [ctx.blockNumber + 1])
    ensures Generating(p, src, ctx.(blockNumber := ctx.blockNumber + 1, offset := 0,
                                    outputBlock := Overwrite(ctx.outputBlock, out)), before)
  {
    assert before == Produced(p, src, ctx.blockNumber);
    assert out == Block(p, src, ctx.blockNumber + 1);
    assert Overwrite(ctx.outputBlock, out)[0..Length(p)] == out;
  }

  /** A(i + 1) and its block follow A(i). */
  lemma TlsRefill(p: Prf, src: Source, k: Context, next: Context, a: seq<byte>, out: seq<byte>, before: seq<byte>)
    requires IsSource(p, src) && src.TlsStream? && k.TlsContext? && |k.outputBlock| == HASH_MAX_SIZE == |k.Ai|
    requires Generating(p, src, k, before) && k.left == 0 && k.blockNumber < BlockLimit(src)
    requires a == Mac(p, src.secret, if k.blockNumber == 0 then src.seed else k.Ai[..Length(p)])
    requires out == Mac(p, src.secret, a + src.seed)
    requires next == k.(blockNumber := k.blockNumber + 1, left := Length(p), Ai := Overwrite(k.Ai, a),
                        outputBlock := Overwrite(k.outputBlock, out))
    ensures Generating(p, src, next, before)
  {
    assert before == Produced(p, src, k.blockNumber);
    assert a == TlsA(p, src.secret, src.seed, k.blockNumber + 1);
    assert out == Block(p, src, k.blockNumber + 1);
    assert Overwrite(k.outputBlock, out)[0..Length(p)] == out;
  }

  /** The next block of PBKDF2 may follow once the last one is used up; before
      the stream's end its counter has not wrapped. */
  lemma Pbkdf2Refill(p: Prf, src: Source, k: Context, next: Context, before: seq<byte>)
    requires IsSource(p, src) && src.Pbkdf2Stream? && k.Pbkdf2Context? && |k.outputBlock| == HASH_MAX_SIZE
    requires Generating(p, src, k, before) && k.bytesUsed == Length(p) && |before| < StreamLimit(p, src)
    requires next.Pbkdf2Context? && next.bytesUsed == 0 && |next.outputBlock| == HASH_MAX_SIZE
    requires next.blockNumber == (k.blockNumber + 1) % (UINT32_MAX + 1)
    requires next.outputBlock[..Length(p)]
          == PbkdfSum(p, src.password, src.salt + PutBe(next.blockNumber, 4), src.cost)
    ensures Generating(p, src, next, before)
  {
    assert before == Produced(p, src, k.blockNumber);
    BlocksWithinLimit(p, src, k.blockNumber);
    assert next.blockNumber == k.blockNumber + 1;
    assert next.outputBlock[0..Length(p)] == Block(p, src, next.blockNumber);
  }

  /** With nothing buffered, what was delivered is all that was generated; at
      the last block that is the whole stream. */
  lemma ExhaustedBlock(p: Prf, src: Source, ctx: Context, before: seq<byte>)
    requires IsSource(p, src) && Generating(p, src, ctx, before) && Buffered(p, ctx) == []
    ensures before == Produced(p, src, ctx.blockNumber)
    ensures ctx.blockNumber == BlockLimit(src) ==> |before| == StreamLimit(p, src)
  {
    ProducedLength(p, src, ctx.blockNumber);
  }

  /** One HMAC or CMAC computation through the drivers, which may fail unless
      they are `reliable`. */
  method ComputeMac(p: Prf, reliable: bool, key: seq<byte>, m: seq<byte>) returns (status: Status, out: seq<byte>)
    requires IsPrf(p)
    ensures status == Success || status == HardwareFailure
    ensures reliable ==> status == Success
    ensures |out| == Length(p)
    ensures status == Success ==> out == Mac(p, key, m)
  {
    out := Mac(p, key, m);
    status := Success;
    if !reliable {
      if * {
        status := HardwareFailure;
      }
    }
  }

  class KeyDerivation {
    var alg: Algorithm
    var capacity: nat
    var ctx: Context
    ghost var inputs: seq<Input>
    ghost var delivered: seq<byte>

    ghost predicate WellFormed()
      reads this
    {
      alg.Derive? ==> IsPrf(alg.prf) && Suits(alg.kind, alg.prf) && Fits(alg.kind, ctx)
    }

    /** An operation that may still deliver something delivers its inputs'
        stream, and has no more capacity than its algorithm allows. */
    ghost predicate Valid()
      reads this
    {
      && WellFormed()
      && (alg.Blank? ==> capacity == 0)
      && (alg.Derive? && capacity > 0 ==>
            && Tracks(alg.prf, alg.kind, ctx, inputs, delivered)
            && |delivered| + capacity <= MaximumCapacity(alg.kind, alg.prf))
    }

    ghost function Position(): Cursor
      reads this
    {
      Cursor(|delivered|, capacity)
    }

    constructor ()
      ensures Valid() && alg == Blank
    {
      alg, capacity, ctx := Blank, 0, ZeroContext(Hkdf);
      inputs, delivered := [], [];
    }

    /** psa_key_derivation_setup: `supported` says that the derivation is built in
        and its hash is available (for the TLS algorithms, SHA-256 or SHA-384). */
    method Setup(requested: Requested, supported: bool) returns (status: Status)
      requires Valid()
      requires requested.AgreementThen? || requested.Plain? ==> IsPrf(requested.prf) && Suits(requested.kind, requested.prf)
      modifies this
      ensures Valid()
      ensures status == if old(alg).Derive? then BadState
                        else if requested.RawAgreement? || requested.NotADerivation? then InvalidArgument
                        else if requested.AgreementThen? && !requested.agreementSupported then NotSupported
                        else if supported then Success else NotSupported
      ensures status == Success ==>
          && alg == Derive(requested.kind, requested.prf)
          && capacity == MaximumCapacity(requested.kind, requested.prf)
          && inputs == [] && delivered == [] && ctx == ZeroContext(requested.kind)
      ensures status != Success ==> alg == old(alg) && capacity == old(capacity)
    {
      if alg != Blank {
        return BadState;
      }
      match requested {
        case RawAgreement => return InvalidArgument;
        case AgreementThen(_, _, agreementSupported) => if !agreementSupported { return NotSupported; }
        case Plain(_, _) =>
        case NotADerivation => return InvalidArgument;
      }
      ctx := ZeroContext(requested.kind);
      if !supported {
        return NotSupported;
      }
      capacity := MaximumCapacity(requested.kind, requested.prf);
      alg := Derive(requested.kind, requested.prf);
      inputs, delivered := [], [];
      return Success;
    }

    method Abort()
      modifies this
      ensures Valid() && alg == Blank && capacity == 0
      ensures inputs == old(inputs) && delivered == old(delivered)
    {
      alg, capacity, ctx := Blank, 0, ZeroContext(Hkdf);
    }

    method GetCapacity() returns (status: Status, result: nat)
      ensures status == if alg.Blank? then BadState else Success
      ensures status == Success ==> result == capacity
    {
      if alg == Blank {
        return BadState, 0;
      }
      return Success, capacity;
    }

    method SetCapacity(wanted: nat) returns (status: Status)
      requires Valid()
      modifies this`capacity
      ensures Valid()
      ensures status == if alg.Blank? then BadState else if wanted > old(capacity) then InvalidArgument else Success
      ensures capacity == if status == Success then wanted else old(capacity)
    {
      if alg == Blank {
        return BadState;
      }
      if wanted > capacity {
        return InvalidArgument;
      }
      capacity := wanted;
      return Success;
    }

    /** psa_key_derivation_input_bytes and _input_integer: a refused input
        aborts the whole operation. */
    method ProvideInput(input: Input) returns (status: Status)
      requires Valid()
      modifies this
      ensures Valid()
      ensures old(alg).Blank? ==> status == BadState
      ensures old(alg).Derive? ==> status == ApplyInput(old(alg).prf, old(alg).kind, old(ctx), input).status
      ensures status == Success ==>
          && alg == old(alg) && capacity == old(capacity) && delivered == old(delivered)
          && inputs == old(inputs) + [input]
          && ctx == ApplyInput(old(alg).prf, old(alg).kind, old(ctx), input).ctx
      ensures status != Success ==> alg == Blank && capacity == 0
      ensures old(alg).Derive? && old(capacity) > 0 ==>
          (status == Success <==> !old(OutputStarted(ctx)) && Admissible(old(alg).prf, old(alg).kind, input)
                                  && InOrder(old(alg).kind, Word(old(inputs) + [input])))
    {
      hide InOrder, Admissible;
      status := BadState;
      if alg != Blank {
        if capacity > 0 {
          InputAccepted(alg.prf, alg.kind, ctx, inputs, delivered, input);
        }
        var r := ApplyInput(alg.prf, alg.kind, ctx, input);
        status := r.status;
        if status == Success {
          if capacity > 0 {
            InputKeepsTracking(alg.prf, alg.kind, ctx, inputs, delivered, input);
          }
          ctx := r.ctx;
          inputs := inputs + [input];
        }
      }
      if status != Success {
        Abort();
      }
    }

    /** The new block made inside psa_key_derivation_hkdf_read. */
    static method HkdfNextBlock(p: Prf, reliable: bool, ghost src: Source, k: Context, ghost before: seq<byte>)
        returns (status: Status, next: Context)
      requires IsSource(p, src) && src.HkdfStream? && k.HkdfContext? && |k.outputBlock| == HASH_MAX_SIZE <= |k.prk|
      requires src.prk == k.prk[..Length(p)] && src.info == k.info
      requires Generating(p, src, k, before) && k.offset == Length(p) && k.blockNumber < BlockLimit(src)
      ensures status == Success || (status == HardwareFailure && !reliable)
      ensures status == Success ==> Generating(p, src, next, before) && next.HkdfContext? && next.offset == 0
      ensures status == Success ==>
          && |next.outputBlock| == HASH_MAX_SIZE
          && next == k.(blockNumber := next.blockNumber, offset := 0, outputBlock := next.outputBlock)
    {
      var out;
      status, out := ComputeMac(p, reliable, k.prk[..Length(p)],
                                (if k.blockNumber == 0 then [] else k.outputBlock[..Length(p)])
                                + k.info + [k.blockNumber + 1]);
      next := k;
      if status == Success {
        HkdfRefill(p, src, k, out, before);
        next := k.(blockNumber := k.blockNumber + 1, offset := 0, outputBlock := Overwrite(k.outputBlock, out));
      }
    }

    /** The loop of psa_key_derivation_hkdf_read. */
    static method HkdfCopy(p: Prf, reliable: bool, ghost src: Source, lastBlock: nat, ctx: Context,
                           ghost delivered: seq<byte>, output: array<byte>)
        returns (status: Status, k: Context)
      requires IsSource(p, src) && (src.HkdfStream? || src.ExtractStream?) && lastBlock == BlockLimit(src)
      requires ctx.HkdfContext? && |ctx.outputBlock| == HASH_MAX_SIZE <= |ctx.prk|
      requires src.HkdfStream? ==> src.prk == ctx.prk[..Length(p)] && src.info == ctx.info
      requires Generating(p, src, ctx, delivered)
      modifies output
      ensures status == Success || status == BadState || (status == HardwareFailure && !reliable)
      ensures status == BadState ==> |delivered| + output.Length > StreamLimit(p, src)
      ensures status == Success ==> Generating(p, src, k, delivered + output[..])
      ensures status == Success ==>
          && k.HkdfContext? && |k.outputBlock| == HASH_MAX_SIZE
          && k == ctx.(offset := k.offset, blockNumber := k.blockNumber, outputBlock := k.outputBlock)
    {
      assert Length(p) > 0;
      hide Generating, Produced, IsPrf;
      k := ctx;
      var done := 0;
      assert delivered + output[..done] == delivered;
      while done < output.Length
        invariant 0 <= done <= output.Length
        invariant k.HkdfContext? && |k.outputBlock| == HASH_MAX_SIZE
        invariant k == ctx.(offset := k.offset, blockNumber := k.blockNumber, outputBlock := k.outputBlock)
        invariant Generating(p, src, k, delivered + output[..done])
        decreases output.Length - done, if k.offset < Length(p) then 0 else 1
      {
        GeneratingWithin(p, src, k, delivered + output[..done]);
        var n := Length(p) - k.offset;
        if n > output.Length - done {
          n := output.Length - done;
        }
        var chunk := k.outputBlock[k.offset..k.offset + n];
        HkdfTake(p, src, k, n, delivered + output[..done]);
        Associate(delivered, output[..done], chunk);
        CopyBytes(output, done, chunk);
        k := k.(offset := k.offset + n);
        done := done + n;
        if done == output.Length {
          break;
        }
        ExhaustedBlock(p, src, k, delivered + output[..done]);
        if k.blockNumber == lastBlock {
          return BadState, k;
        }
        status, k := HkdfNextBlock(p, reliable, src, k, delivered + output[..done]);
        if status != Success {
          return;
        }
      }
      assert output[..done] == output[..];
      status := Success;
    }

    /** psa_key_derivation_hkdf_read. It fails for want of blocks exactly when
        the stream is not long enough. */
    static method HkdfRead(p: Prf, kind: Kind, reliable: bool, ctx: Context, ghost delivered: seq<byte>, output: array<byte>)
        returns (status: Status, k: Context)
      requires IsPrf(p) && IsHkdfKind(kind) && Fits(kind, ctx)
      requires Ready(kind, ctx) ==>
          && IsSource(p, SourceOf(p, kind, ctx))
          && Generating(p, SourceOf(p, kind, ctx), ctx, delivered)
      modifies output
      ensures status == Success || status == BadState || (status == HardwareFailure && !reliable)
      ensures !Ready(kind, ctx) ==> status == BadState
      ensures Ready(kind, ctx) && status == BadState ==>
          |delivered| + output.Length > StreamLimit(p, SourceOf(p, kind, ctx))
      ensures status == Success ==> ReadingOn(p, kind, ctx, k, delivered + output[..])
    {
      k := ctx;
      if k.hkdfState.HkdfInit? || k.hkdfState.HkdfStarted? || (!k.infoSet && !kind.HkdfExtract?) {
        return BadState, k;
      }
      k := k.(hkdfState := HkdfOutput);
      var lastBlock := if kind.HkdfExtract? then 0 else 0xff;
      status, k := HkdfCopy(p, reliable, SourceOf(p, kind, ctx), lastBlock, k, delivered, output);
    }

    /** psa_key_derivation_tls12_prf_generate_next_block: A(i), then the block. */
    static method TlsNextBlock(p: Prf, reliable: bool, ghost src: Source, k: Context, ghost before: seq<byte>)
        returns (status: Status, next: Context)
      requires IsSource(p, src) && src.TlsStream?
      requires k.TlsContext? && |k.outputBlock| == HASH_MAX_SIZE == |k.Ai|
      requires src.secret == k.secret && src.seed == k.prfLabel + k.seed
      requires Generating(p, src, k, before) && k.left == 0
      ensures status == Success || status == CorruptionDetected || (status == HardwareFailure && !reliable)
      ensures status == CorruptionDetected <==> k.blockNumber == 0xff
      ensures status == Success ==> Generating(p, src, next, before) && next.TlsContext? && next.left == Length(p)
      ensures status == Success ==>
          && |next.outputBlock| == HASH_MAX_SIZE == |next.Ai|
          && next == k.(blockNumber := next.blockNumber, left := next.left, outputBlock := next.outputBlock,
                        Ai := next.Ai)
    {
      next := k;
      if next.blockNumber == 0xff {
        return CorruptionDetected, next;
      }
      next := next.(blockNumber := next.blockNumber + 1, left := Length(p));
      var a, out;
      status, a := ComputeMac(p, reliable, next.secret,
                              if next.blockNumber == 1 then next.prfLabel + next.seed else next.Ai[..Length(p)]);
      if status != Success {
        return;
      }
      status, out := ComputeMac(p, reliable, next.secret, a + next.prfLabel + next.seed);
      if status != Success {
        return;
      }
      Associate(a, next.prfLabel, next.seed);
      next := next.(Ai := Overwrite(next.Ai, a), outputBlock := Overwrite(next.outputBlock, out));
      TlsRefill(p, src, k, next, a, out, before);
    }

    /** The loop of psa_key_derivation_tls12_prf_read. */
    static method TlsCopy(p: Prf, reliable: bool, ghost src: Source, ctx: Context,
                          ghost delivered: seq<byte>, output: array<byte>)
        returns (status: Status, k: Context)
      requires IsSource(p, src) && src.TlsStream?
      requires ctx.TlsContext? && |ctx.outputBlock| == HASH_MAX_SIZE == |ctx.Ai|
      requires src.secret == ctx.secret && src.seed == ctx.prfLabel + ctx.seed
      requires Generating(p, src, ctx, delivered)
      modifies output
      ensures status == Success || status == CorruptionDetected || (status == HardwareFailure && !reliable)
      ensures status == CorruptionDetected ==> |delivered| + output.Length > StreamLimit(p, src)
      ensures status == Success ==> Generating(p, src, k, delivered + output[..])
      ensures status == Success ==>
          && k.TlsContext? && |k.outputBlock| == HASH_MAX_SIZE == |k.Ai|
          && k == ctx.(blockNumber := k.blockNumber, left := k.left, outputBlock := k.outputBlock, Ai := k.Ai)
    {
      assert Length(p) > 0;
      hide Generating, Produced, IsPrf;
      k := ctx;
      var done := 0;
      assert delivered + output[..done] == delivered;
      while done < output.Length
        invariant 0 <= done <= output.Length
        invariant k.TlsContext? && |k.outputBlock| == HASH_MAX_SIZE == |k.Ai|
        invariant k == ctx.(blockNumber := k.blockNumber, left := k.left, outputBlock := k.outputBlock, Ai := k.Ai)
        invariant Generating(p, src, k, delivered + output[..done])
        decreases output.Length - done, if k.left > 0 then 0 else 1
      {
        GeneratingWithin(p, src, k, delivered + output[..done]);
        if k.left == 0 {
          ExhaustedBlock(p, src, k, delivered + output[..done]);
          status, k := TlsNextBlock(p, reliable, src, k, delivered + output[..done]);
          if status != Success {
            return;
          }
          continue;
        }
        var length := if k.left > output.Length - done then output.Length - done else k.left;
        var offset := Length(p) - k.left;
        var chunk := k.outputBlock[offset..offset + length];
        TlsTake(p, src, k, length, delivered + output[..done]);
        Associate(delivered, output[..done], chunk);
        CopyBytes(output, done, chunk);
        k := k.(left := k.left - length);
        done := done + length;
      }
      assert output[..done] == output[..];
      status := Success;
    }

    /** psa_key_derivation_tls12_prf_read: it reports corruption only when asked
        for more than the stream's 255 blocks. */
    static method TlsRead(p: Prf, kind: Kind, reliable: bool, ctx: Context, ghost delivered: seq<byte>, output: array<byte>)
        returns (status: Status, k: Context)
      requires IsPrf(p) && IsTlsKind(kind) && Fits(kind, ctx)
      requires Ready(kind, ctx) ==> Generating(p, SourceOf(p, kind, ctx), ctx, delivered)
      modifies output
      ensures status == Success || status == BadState || status == CorruptionDetected
           || (status == HardwareFailure && !reliable)
      ensures status == BadState <==> !Ready(kind, ctx)
      ensures status == CorruptionDetected ==> |delivered| + output.Length > StreamLimit(p, SourceOf(p, kind, ctx))
      ensures status == Success ==> ReadingOn(p, kind, ctx, k, delivered + output[..])
    {
      k := ctx;
      match k.tlsState {
        case LabelSet => k := k.(tlsState := TlsOutput);
        case TlsOutput =>
        case _ => return BadState, k;
      }
      status, k := TlsCopy(p, reliable, SourceOf(p, kind, ctx), k, delivered, output);
    }

    /** psa_key_derivation_pbkdf2_generate_block: the sum of the iterated PRF. */
    static method Pbkdf2GenerateBlock(p: Prf, reliable: bool, password: seq<byte>, salt: seq<byte>, cost: nat,
                                      blockNumber: nat)
        returns (status: Status, sum: seq<byte>)
      requires IsPrf(p) && cost > 0
      ensures status == Success || (status == HardwareFailure && !reliable)
      ensures status == Success ==> sum == PbkdfSum(p, password, salt + PutBe(blockNumber, 4), cost)
    {
      ghost var salted := salt + PutBe(blockNumber, 4);
      var u;
      status, u := ComputeMac(p, reliable, password, salt + PutBe(blockNumber, 4));
      sum := u;
      if status != Success {
        return;
      }
      var i := 1;
      while i < cost
        invariant 1 <= i <= cost && status == Success
        invariant u == PbkdfU(p, password, salted, i)
        invariant sum == PbkdfSum(p, password, salted, i)
      {
        status, u := ComputeMac(p, reliable, password, u);
        if status != Success {
          return;
        }
        sum := XorBytes(sum, u);
        i := i + 1;
      }
    }

    /** The loop of psa_key_derivation_pbkdf2_read. The 32-bit block counter does
        not wrap within the stream. */
    static method Pbkdf2Copy(p: Prf, reliable: bool, ghost src: Source, ctx: Context,
                             ghost delivered: seq<byte>, output: array<byte>)
        returns (status: Status, k: Context)
      requires ctx.Pbkdf2Context? && |ctx.outputBlock| == HASH_MAX_SIZE
      requires src == Pbkdf2Stream(ctx.password, ctx.salt, ctx.cost) && IsSource(p, src)
      requires Generating(p, src, ctx, delivered) && |delivered| + output.Length <= StreamLimit(p, src)
      modifies output
      ensures status == Success || (status == HardwareFailure && !reliable)
      ensures status == Success ==> Generating(p, src, k, delivered + output[..])
      ensures status == Success ==>
          && k.Pbkdf2Context? && |k.outputBlock| == HASH_MAX_SIZE
          && k == ctx.(blockNumber := k.blockNumber, bytesUsed := k.bytesUsed, outputBlock := k.outputBlock)
    {
      assert Length(p) > 0;
      hide Generating, Produced, IsPrf;
      k := ctx;
      var done := 0;
      assert delivered + output[..done] == delivered;
      while done < output.Length
        invariant 0 <= done <= output.Length
        invariant k.Pbkdf2Context? && |k.outputBlock| == HASH_MAX_SIZE
        invariant k == ctx.(blockNumber := k.blockNumber, bytesUsed := k.bytesUsed, outputBlock := k.outputBlock)
        invariant Generating(p, src, k, delivered + output[..done])
        decreases output.Length - done, if k.bytesUsed < Length(p) then 0 else 1
      {
        GeneratingWithin(p, src, k, delivered + output[..done]);
        var n := Length(p) - k.bytesUsed;
        if n > output.Length - done {
          n := output.Length - done;
        }
        var chunk := k.outputBlock[k.bytesUsed..k.bytesUsed + n];
        Pbkdf2Take(p, src, k, n, delivered + output[..done]);
        Associate(delivered, output[..done], chunk);
        CopyBytes(output, done, chunk);
        k := k.(bytesUsed := k.bytesUsed + n);
        done := done + n;
        if done == output.Length {
          break;
        }
        ExhaustedBlock(p, src, k, delivered + output[..done]);
        ghost var exhausted := k;
        k := k.(bytesUsed := 0, blockNumber := (k.blockNumber + 1) % (UINT32_MAX + 1));
        var sum;
        status, sum := Pbkdf2GenerateBlock(p, reliable, k.password, k.salt, k.cost, k.blockNumber);
        if status != Success {
          return;
        }
        k := k.(bytesUsed := 0, outputBlock := Overwrite(k.outputBlock, sum));
        Pbkdf2Refill(p, src, exhausted, k, delivered + output[..done]);
      }
      assert output[..done] == output[..];
      status := Success;
    }

    /** psa_key_derivation_pbkdf2_read. */
    static method Pbkdf2Read(p: Prf, kind: Kind, reliable: bool, ctx: Context, ghost delivered: seq<byte>, output: array<byte>)
        returns (status: Status, k: Context)
      requires IsPrf(p) && !IsHkdfKind(kind) && !IsTlsKind(kind) && Fits(kind, ctx)
      requires Ready(kind, ctx) ==>
          && IsSource(p, SourceOf(p, kind, ctx))
          && |delivered| + output.Length <= StreamLimit(p, SourceOf(p, kind, ctx))
          && if ctx.pbkdf2State.PasswordSet? then delivered == [] && ctx.blockNumber == 0
             else Generating(p, SourceOf(p, kind, ctx), ctx, delivered)
      modifies output
      ensures status == Success || status == BadState || (status == HardwareFailure && !reliable)
      ensures status == BadState <==> !Ready(kind, ctx)
      ensures status == Success ==> ReadingOn(p, kind, ctx, k, delivered + output[..])
    {
      k := ctx;
      match k.pbkdf2State {
        case PasswordSet => k := k.(bytesUsed := Length(p), pbkdf2State := Pbkdf2Output);
        case Pbkdf2Output =>
        case _ => return BadState, k;
      }
      status, k := Pbkdf2Copy(p, reliable, SourceOf(p, kind, ctx), k, delivered, output);
    }

    /** The choice of generator in psa_key_derivation_output_bytes. */
    static method Read(p: Prf, kind: Kind, reliable: bool, ctx: Context, ghost inputs: seq<Input>,
                       ghost delivered: seq<byte>, output: array<byte>)
        returns (status: Status, k: Context)
      requires IsPrf(p) && Suits(kind, p) && Fits(kind, ctx) && Tracks(p, kind, ctx, inputs, delivered)
      requires |delivered| + output.Length <= MaximumCapacity(kind, p)
      modifies output
      ensures status == Success || status == BadState || status == CorruptionDetected
           || (status == HardwareFailure && !reliable)
      ensures status == BadState <==> !Prepared(p, kind, inputs)
      ensures status == CorruptionDetected ==>
          kind.Tls12Prf? && |delivered| + output.Length > StreamLimit(p, Derivation(p, kind, inputs))
      ensures status == Success ==> Fits(kind, k) && OutputStarted(k) && Tracks(p, kind, k, inputs, delivered + output[..])
    {
      CapacityWithinStream(p, kind, ctx);
      if Prepared(p, kind, inputs) {
        StartsAtZero(p, kind, inputs);
        InputsDetermineStream(p, kind, inputs, 0);
      }
      if IsHkdfKind(kind) {
        status, k := HkdfRead(p, kind, reliable, ctx, delivered, output);
      } else if IsTlsKind(kind) {
        status, k := TlsRead(p, kind, reliable, ctx, delivered, output);
      } else {
        status, k := Pbkdf2Read(p, kind, reliable, ctx, delivered, output);
      }
    }

    /** psa_key_derivation_output_bytes. A granted request delivers the next
        bytes of the stream that the accepted inputs define; a refused one leaves
        an operation that never delivers anything again. */
    method OutputBytes(reliable: bool, output: array<byte>) returns (status: Status)
      requires Valid()
      modifies this, output
      ensures Valid() && alg == old(alg)
      ensures alg.Blank? ==> status == BadState && unchanged(this) && unchanged(output)
      ensures alg.Derive? && output.Length == 0 == old(capacity) ==> status == InsufficientData && unchanged(this)
      ensures alg.Derive? && output.Length > old(capacity) ==> status == InsufficientData
      ensures alg.Derive? && output.Length <= old(capacity) && old(capacity) > 0 ==>
          Reported(alg.prf, alg.kind, old(inputs), old(|delivered|) + output.Length, reliable, status)
      ensures status == Success ==>
          && alg.Derive?
          && Served(alg.prf, alg.kind, old(inputs), old(Position()), output[..])
          && delivered == old(delivered) + output[..] && capacity == old(capacity) - output.Length
          && inputs == old(inputs)
      ensures status != Success ==> delivered == old(delivered) && capacity == 0
      ensures alg.Derive? && status != Success && (output.Length > 0 || old(capacity) > 0) ==>
          ctx == ZeroContext(alg.kind) && forall i :: 0 <= i < output.Length ==> output[i] == FILLER
    {
      if alg == Blank {
        return BadState;
      }
      if output.Length == 0 && capacity == 0 {
        return InsufficientData;
      }
      if output.Length > capacity {
        status := InsufficientData;
      } else {
        ghost var cursor := Position();
        capacity := capacity - output.Length;
        var k;
        status, k := Read(alg.prf, alg.kind, reliable, ctx, inputs, delivered, output);
        if status == Success {
          ServedBy(alg.prf, alg.kind, k, inputs, cursor, delivered, output[..]);
          ctx := k;
          delivered := delivered + output[..];
          return;
        }
      }
      Wipe(output);
    }

    /** The error path: the algorithm is preserved, everything else is cleared. */
    method Wipe(output: array<byte>)
      requires WellFormed() && alg.Derive?
      modifies this`capacity, this`ctx, output
      ensures Valid() && capacity == 0 && ctx == ZeroContext(alg.kind)
      ensures forall i :: 0 <= i < output.Length ==> output[i] == FILLER
    {
      capacity := 0;
      ctx := ZeroContext(alg.kind);
      forall i | 0 <= i < output.Length {
        output[i] := FILLER;
      }
    }
  }

  /** The status of a request within the capacity, which would bring the bytes
      delivered to `total`. */
  predicate Reported(p: Prf, kind: Kind, inputs: seq<Input>, total: nat, reliable: bool, status: Status)
    requires IsPrf(p)
  {
    && (status == Success || status == BadState || status == CorruptionDetected || status == HardwareFailure)
    && (status == BadState <==> !Prepared(p, kind, inputs))
    && (status == CorruptionDetected ==>
          kind.Tls12Prf? && total > StreamLimit(p, Derivation(p, kind, inputs)))
    && (status == HardwareFailure ==> !reliable)
  }

  /** The request for these bytes was to be granted from cursor `c`, and they are
      the answer that the stream of the inputs gives to it. */
  ghost predicate Served(p: Prf, kind: Kind, inputs: seq<Input>, c: Cursor, bytes: seq<byte>) {
    && IsPrf(p) && Prepared(p, kind, inputs)
    && var src := Derivation(p, kind, inputs);
       && IsSource(p, src)
       && Granted(p, src, c, |bytes|)
       && bytes == Answer(p, src, c, Output(|bytes|))
  }

  lemma ServedBy(p: Prf, kind: Kind, k: Context, inputs: seq<Input>, c: Cursor, before: seq<byte>, bytes: seq<byte>)
    requires IsPrf(p) && Suits(kind, p) && Fits(kind, k)
    requires Tracks(p, kind, k, inputs, before + bytes) && OutputStarted(k)
    requires c.position == |before| && |bytes| <= c.capacity && c.capacity > 0
    ensures Served(p, kind, inputs, c, bytes)
  {
    hide Generating, Produced;
    TracksPrefix(p, kind, k, inputs, before + bytes);
  }

  // --- Requests in any number of pieces.

  function Total(sizes: seq<nat>): nat {
    if sizes == [] then 0 else Total(sizes[..|sizes| - 1]) + sizes[|sizes| - 1]
  }

  lemma {:induction false} TotalGrows(sizes: seq<nat>, i: nat)
    requires i <= |sizes|
    ensures Total(sizes[..i]) <= Total(sizes)
    decreases |sizes| - i
  {
    if i < |sizes| {
      TotalGrows(sizes, i + 1);
      assert sizes[..i + 1][..i] == sizes[..i];
    } else {
      assert sizes[..i] == sizes;
    }
  }

  /** Two pieces served in a row are what one request for both is served. */
  lemma ServedJoins(p: Prf, kind: Kind, inputs: seq<Input>, c: Cursor, next: Cursor, a: seq<byte>, b: seq<byte>)
    requires Served(p, kind, inputs, c, a) && Served(p, kind, inputs, next, b)
    requires next.position == c.position + |a| && next.capacity == c.capacity - |a|
    ensures Served(p, kind, inputs, c, a + b)
  {
    var src, end := Derivation(p, kind, inputs), c.position + |a| + |b|;
    PrefixExtends(p, src, next.position, end);
    var all := Prefix(p, src, end);
    assert all[..next.position][c.position..] + all[next.position..] == all[c.position..];
  }

  /** A request of `total` bytes can be granted to an operation in this situation. */
  ghost predicate Grantable(alg: Algorithm, inputs: seq<Input>, c: Cursor, total: nat) {
    && alg.Derive? && IsPrf(alg.prf) && Prepared(alg.prf, alg.kind, inputs)
    && Granted(alg.prf, Derivation(alg.prf, alg.kind, inputs), c, total)
  }

  /** What any number of requests in a row has delivered. */
  ghost predicate ServedSoFar(alg: Algorithm, inputs: seq<Input>, c: Cursor, now: Cursor, bytes: seq<byte>) {
    && now.position == c.position + |bytes| && now.capacity + |bytes| == c.capacity
    && (bytes != [] ==> alg.Derive? && Served(alg.prf, alg.kind, inputs, c, bytes))
  }

  lemma ServedOneMore(alg: Algorithm, inputs: seq<Input>, c: Cursor, now: Cursor, bytes: seq<byte>, piece: seq<byte>)
    requires ServedSoFar(alg, inputs, c, now, bytes) && alg.Derive?
    requires Served(alg.prf, alg.kind, inputs, now, piece)
    requires |piece| <= now.capacity
    ensures ServedSoFar(alg, inputs, c, Cursor(now.position + |piece|, now.capacity - |piece|), bytes + piece)
  {
    if bytes == [] {
      assert bytes + piece == piece && now == c;
    } else {
      ServedJoins(alg.prf, alg.kind, inputs, c, now, bytes, piece);
    }
  }

  /** A refused piece with reliable drivers means that the whole could not have
      been granted either. */
  lemma RefusedPiece(alg: Algorithm, inputs: seq<Input>, c: Cursor, now: Cursor, bytes: seq<byte>, n: nat, total: nat,
                     status: Status)
    requires ServedSoFar(alg, inputs, c, now, bytes) && |bytes| + n <= total && status != Success
    requires alg.Derive? ==>
        && IsPrf(alg.prf)
        && (n > now.capacity || Reported(alg.prf, alg.kind, inputs, now.position + n, true, status))
    ensures !Grantable(alg, inputs, c, total)
  {
  }

  /** Chunking independence of the operation itself: requests of these sizes, one
      after the other, deliver together what one request of their total would be
      served from the same state, and with reliable drivers they all succeed
      exactly when that one would be granted. */
  method OutputPieces(operation: KeyDerivation, reliable: bool, sizes: seq<nat>) returns (status: Status, bytes: seq<byte>)
    requires operation.Valid() && sizes != [] && forall i :: 0 <= i < |sizes| ==> sizes[i] > 0
    modifies operation
    ensures operation.Valid() && operation.alg == old(operation.alg)
    ensures status == Success ==>
        && |bytes| == Total(sizes) && operation.alg.Derive?
        && Served(operation.alg.prf, operation.alg.kind, old(operation.inputs), old(operation.Position()), bytes)
        && operation.delivered == old(operation.delivered) + bytes
        && operation.capacity == old(operation.capacity) - Total(sizes)
        && operation.inputs == old(operation.inputs)
    ensures reliable && status != Success ==>
        !Grantable(operation.alg, old(operation.inputs), old(operation.Position()), Total(sizes))
  {
    hide Served, Grantable, Reported, Tracks, IsPrf;
    ghost var alg, inputs, c, before := operation.alg, operation.inputs, operation.Position(), operation.delivered;
    bytes := [];
    status := Success;
    var i := 0;
    assert sizes[..0] == [] && before + bytes == before;
    while i < |sizes|
      invariant 0 <= i <= |sizes| && operation.Valid() && status == Success
      invariant operation.alg == alg && operation.inputs == inputs
      invariant |bytes| == Total(sizes[..i]) && operation.delivered == before + bytes
      invariant ServedSoFar(alg, inputs, c, operation.Position(), bytes)
      invariant i > 0 ==> bytes != []
    {
      ghost var now := operation.Position();
      var piece := new byte[sizes[i]](_ => 0);
      status := operation.OutputBytes(reliable, piece);
      assert sizes[..i + 1][..i] == sizes[..i];
      TotalGrows(sizes, i + 1);
      if status != Success {
        if reliable {
          RefusedPiece(alg, inputs, c, now, bytes, sizes[i], Total(sizes), status);
        }
        return;
      }
      ServedOneMore(alg, inputs, c, now, bytes, piece[..]);
      Associate(before, bytes, piece[..]);
      bytes := bytes + piece[..];
      i := i + 1;
    }
    assert sizes[..i] == sizes;
  }
}
