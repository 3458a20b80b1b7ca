// The key-derivation contexts, and what each input step does to them. A step
// is a function from the context it finds to a status and the context it
// leaves; after a failed step the operation is aborted.
module KdfInputs {
  import opened Bytes
  import opened Options
  import opened KdfSpec

  datatype Status =
    | Success
    | BadState
    | InvalidArgument
    | NotSupported
    | InsufficientData
    | InsufficientMemory
    | CorruptionDetected
    | HardwareFailure

  datatype Kind =
    | Hkdf
    | HkdfExtract
    | HkdfExpand
    | Tls12Prf
    | Tls12PskToMs
    | Pbkdf2Hmac
    | Pbkdf2AesCmac

  datatype HkdfState = HkdfInit | HkdfStarted | HkdfKeyed | HkdfOutput

  datatype TlsState = TlsInit | SeedSet | OtherKeySet | KeySet | LabelSet | TlsOutput

  datatype Pbkdf2State = Pbkdf2Init | CostSet | SaltSet | PasswordSet | Pbkdf2Output

  /** The union inside the operation object, one variant for each family. The
      running HMAC of HKDF is its key and the data fed to it so far. */
  datatype Context =
    | HkdfContext(hkdfState: HkdfState, info: seq<byte>, infoSet: bool, prk: seq<byte>,
                  hmacKey: seq<byte>, hmacData: seq<byte>,
                  offset: nat, blockNumber: nat, outputBlock: seq<byte>)
    | TlsContext(tlsState: TlsState, secret: seq<byte>, seed: seq<byte>, prfLabel: seq<byte>,
                 otherSecret: seq<byte>, Ai: seq<byte>,
                 left: nat, blockNumber: nat, outputBlock: seq<byte>)
    | Pbkdf2Context(pbkdf2State: Pbkdf2State, cost: nat, salt: seq<byte>, password: seq<byte>,
                    bytesUsed: nat, blockNumber: nat, outputBlock: seq<byte>)

  datatype Step = Secret | OtherSecret | Password | Label | Salt | Info | Seed

  /** Whether memory allocations and driver calls succeed during one step. */
  datatype Env = Env(allocates: bool, drives: bool)

  /** The type of the key object an input comes from, if it comes from one. */
  datatype InputType = NotAKey | DeriveKey | RawDataKey | PasswordKey | OtherKey

  datatype Input =
    | BytesInput(step: Step, keyType: InputType, data: seq<byte>, env: Env)
    | IntegerInput(isCost: bool, value: nat)

  datatype Result = Result(status: Status, ctx: Context)

  const PSK_MAX_SIZE: nat := 128
  const PBKDF2_MAX_ITERATIONS: nat := 0xffff_ffff

  predicate IsHkdfKind(kind: Kind) { kind.Hkdf? || kind.HkdfExtract? || kind.HkdfExpand? }

  predicate IsTlsKind(kind: Kind) { kind.Tls12Prf? || kind.Tls12PskToMs? }

  /** AES-CMAC-PRF-128 serves PBKDF2 only, and PBKDF2-AES-CMAC uses nothing else. */
  predicate Suits(kind: Kind, p: Prf) { p.Cmac? <==> kind.Pbkdf2AesCmac? }

  /** The context after memset to zero. */
  function ZeroContext(kind: Kind): Context {
    var block := Zeros(HASH_MAX_SIZE);
    if IsHkdfKind(kind) then
      HkdfContext(HkdfInit, [], false, block, [], [], 0, 0, block)
    else if IsTlsKind(kind) then
      TlsContext(TlsInit, [], [], [], [], block, 0, 0, block)
    else
      Pbkdf2Context(Pbkdf2Init, 0, [], [], 0, 0, block)
  }

  /** The context is of the algorithm's family and its buffers have their size. */
  predicate Fits(kind: Kind, ctx: Context) {
    && (IsHkdfKind(kind) <==> ctx.HkdfContext?)
    && (IsTlsKind(kind) <==> ctx.TlsContext?)
    && |ctx.outputBlock| == HASH_MAX_SIZE
    && (ctx.HkdfContext? ==> |ctx.prk| == HASH_MAX_SIZE)
    && (ctx.TlsContext? ==> |ctx.Ai| == HASH_MAX_SIZE)
  }

  /** memcpy of data to the start of a buffer. */
  function Overwrite(buffer: seq<byte>, data: seq<byte>): (r: seq<byte>)
    requires |data| <= |buffer|
    ensures |r| == |buffer| && r[..|data|] == data
  {
    data + buffer[|data|..]
  }

  function Fail(status: Status, ctx: Context): Result {
    Result(status, ctx)
  }

  /** psa_hkdf_input. */
  function HkdfInput(p: Prf, kind: Kind, ctx: Context, step: Step, data: seq<byte>, env: Env): (r: Result)
    requires IsPrf(p) && IsHkdfKind(kind) && Fits(kind, ctx)
    ensures Fits(kind, r.ctx)
  {
    match step
    case Salt =>
      if kind.HkdfExpand? then Fail(InvalidArgument, ctx)
      else if !ctx.hkdfState.HkdfInit? then Fail(BadState, ctx)
      else if !env.drives then Fail(HardwareFailure, ctx)
      else Result(Success, ctx.(hmacKey := data, hmacData := [], hkdfState := HkdfStarted))
    case Secret =>
      if kind.HkdfExpand? then
        if !ctx.hkdfState.HkdfInit? then Fail(BadState, ctx)
        else if |data| != Length(p) then Fail(InvalidArgument, ctx)
        else Keyed(p, kind, ctx, data)
      else if ctx.hkdfState.HkdfInit? && kind.HkdfExtract? then Fail(BadState, ctx)
      else if !ctx.hkdfState.HkdfInit? && !ctx.hkdfState.HkdfStarted? then Fail(BadState, ctx)
      else if !env.drives then Fail(HardwareFailure, ctx)
      else
        var started := if ctx.hkdfState.HkdfInit? then ctx.(hmacKey := [], hmacData := []) else ctx;
        var fed := started.(hmacData := started.hmacData + data);
        Keyed(p, kind, fed, Mac(p, fed.hmacKey, fed.hmacData))
    case Info =>
      if kind.HkdfExtract? then Fail(InvalidArgument, ctx)
      else if kind.HkdfExpand? && ctx.hkdfState.HkdfInit? then Fail(BadState, ctx)
      else if ctx.hkdfState.HkdfOutput? then Fail(BadState, ctx)
      else if ctx.infoSet then Fail(BadState, ctx)
      else if data != [] && !env.allocates then Fail(InsufficientMemory, ctx)
      else Result(Success, ctx.(info := data, infoSet := true))
    case _ => Fail(InvalidArgument, ctx)
  }

  /** The pseudorandom key is known: no block has been generated yet, except
      that HKDF-Extract's only block of output is the key itself. */
  function Keyed(p: Prf, kind: Kind, ctx: Context, prk: seq<byte>): (r: Result)
    requires IsPrf(p) && IsHkdfKind(kind) && Fits(kind, ctx) && |prk| == Length(p)
    ensures Fits(kind, r.ctx)
  {
    var keyed := ctx.(prk := Overwrite(ctx.prk, prk), hkdfState := HkdfKeyed, blockNumber := 0);
    Result(Success,
           if kind.HkdfExtract? then keyed.(outputBlock := Overwrite(ctx.outputBlock, prk), offset := 0)
           else keyed.(offset := Length(p)))
  }

  /** psa_tls12_prf_set_key. */
  function SetKey(ctx: Context, data: seq<byte>, env: Env): (r: Result)
    requires ctx.TlsContext?
    ensures r.ctx.TlsContext? && r.ctx.Ai == ctx.Ai && r.ctx.outputBlock == ctx.outputBlock
  {
    if !ctx.tlsState.SeedSet? && !ctx.tlsState.OtherKeySet? then Fail(BadState, ctx)
    else if data != [] && !env.allocates then Fail(InsufficientMemory, ctx)
    else Result(Success, ctx.(secret := if data == [] then ctx.secret else data, tlsState := KeySet))
  }

  /** The premaster secret of RFC 4279, section 2, for a key used alone, or of
      RFC 5489, section 2, for a key used with another secret. */
  function Premaster(psk: seq<byte>, other: Option<seq<byte>>): seq<byte> {
    var first := match other case None => Zeros(|psk|) case Some(secret) => secret;
    PutBe(|first|, 2) + first + PutBe(|psk|, 2) + psk
  }

  /** psa_tls12_prf_input and, for PSK-to-MS, psa_tls12_prf_psk_to_ms_input. */
  function TlsInput(kind: Kind, ctx: Context, step: Step, data: seq<byte>, env: Env): (r: Result)
    requires IsTlsKind(kind) && Fits(kind, ctx)
    ensures Fits(kind, r.ctx)
  {
    match step
    case Seed =>
      if !ctx.tlsState.TlsInit? then Fail(BadState, ctx)
      else if data != [] && !env.allocates then Fail(InsufficientMemory, ctx)
      else Result(Success, ctx.(seed := if data == [] then ctx.seed else data, tlsState := SeedSet))
    case Secret =>
      if kind.Tls12Prf? then SetKey(ctx, data, env)
      else if |data| > PSK_MAX_SIZE then Fail(InvalidArgument, ctx)
      else if !env.allocates then Fail(InsufficientMemory, ctx)
      else
        var other := if ctx.tlsState.OtherKeySet? then Some(ctx.otherSecret) else None;
        SetKey(ctx, Premaster(data, other), env)
    case OtherSecret =>
      if kind.Tls12Prf? then Fail(InvalidArgument, ctx)
      else if !ctx.tlsState.SeedSet? then Fail(BadState, ctx)
      else if data != [] && !env.allocates then Fail(InsufficientMemory, ctx)
      else Result(Success, ctx.(otherSecret := data, tlsState := OtherKeySet))
    case Label =>
      if !ctx.tlsState.KeySet? then Fail(BadState, ctx)
      else if data != [] && !env.allocates then Fail(InsufficientMemory, ctx)
      else Result(Success, ctx.(prfLabel := if data == [] then ctx.prfLabel else data, tlsState := LabelSet))
    case _ => Fail(InvalidArgument, ctx)
  }

  /** What the operation keeps of a password: for HMAC the zero-padded password
      or, when it is longer than a block, its hash; for CMAC sixteen bytes. */
  function StoredPassword(p: Prf, password: seq<byte>): seq<byte>
    requires IsPrf(p)
  {
    if p.Cmac? then
      if |password| == AES_BLOCK then password else Mac(p, Zeros(AES_BLOCK), password)
    else if |password| > p.blockLength then
      p.hash(password)
    else
      password + Zeros(p.blockLength - |password|)
  }

  /** psa_pbkdf2_input. */
  function Pbkdf2Input(p: Prf, ctx: Context, step: Step, data: seq<byte>, env: Env): (r: Result)
    requires IsPrf(p) && ctx.Pbkdf2Context?
    ensures r.ctx.Pbkdf2Context? && r.ctx.outputBlock == ctx.outputBlock
  {
    match step
    case Salt =>
      if !ctx.pbkdf2State.CostSet? && !ctx.pbkdf2State.SaltSet? then Fail(BadState, ctx)
      else if data != [] && !env.allocates then Fail(InsufficientMemory, ctx)
      else Result(Success, ctx.(salt := ctx.salt + data, pbkdf2State := SaltSet))
    case Password =>
      if !ctx.pbkdf2State.SaltSet? then Fail(BadState, ctx)
      else if !env.drives then Fail(HardwareFailure, ctx)
      else Result(Success, ctx.(password := StoredPassword(p, data), pbkdf2State := PasswordSet))
    case _ => Fail(InvalidArgument, ctx)
  }

  /** psa_pbkdf2_set_input_cost. */
  function CostInput(ctx: Context, isCost: bool, value: nat): (r: Result)
    requires ctx.Pbkdf2Context?
    ensures r.ctx.Pbkdf2Context? && r.ctx.outputBlock == ctx.outputBlock
  {
    if !isCost then Fail(InvalidArgument, ctx)
    else if !ctx.pbkdf2State.Pbkdf2Init? then Fail(BadState, ctx)
    else if value > PBKDF2_MAX_ITERATIONS then Fail(NotSupported, ctx)
    else if value == 0 then Fail(InvalidArgument, ctx)
    else Result(Success, ctx.(cost := value, pbkdf2State := CostSet))
  }

  /** psa_key_derivation_check_input_type. */
  predicate TypeAllowed(step: Step, keyType: InputType) {
    match step
    case Secret => keyType == DeriveKey || keyType == NotAKey
    case OtherSecret => keyType == DeriveKey || keyType == NotAKey
    case Password => keyType == PasswordKey || keyType == DeriveKey || keyType == NotAKey
    case _ => keyType == RawDataKey || keyType == NotAKey
  }

  /** The dispatch of psa_key_derivation_input_bytes, _input_key and _input_integer. */
  function ApplyInput(p: Prf, kind: Kind, ctx: Context, input: Input): (r: Result)
    requires IsPrf(p) && Fits(kind, ctx)
    ensures Fits(kind, r.ctx)
  {
    match input
    case BytesInput(step, keyType, data, env) =>
      if !TypeAllowed(step, keyType) then Fail(InvalidArgument, ctx)
      else if IsHkdfKind(kind) then HkdfInput(p, kind, ctx, step, data, env)
      else if IsTlsKind(kind) then TlsInput(kind, ctx, step, data, env)
      else Pbkdf2Input(p, ctx, step, data, env)
    case IntegerInput(isCost, value) =>
      if ctx.Pbkdf2Context? then CostInput(ctx, isCost, value) else Fail(InvalidArgument, ctx)
  }

  /** Output may start, or has started. */
  predicate Ready(kind: Kind, ctx: Context) {
    match ctx
    case HkdfContext(state, _, infoSet, _, _, _, _, _, _) =>
      (state.HkdfKeyed? || state.HkdfOutput?) && (infoSet || kind.HkdfExtract?)
    case TlsContext(state, _, _, _, _, _, _, _, _) => state.LabelSet? || state.TlsOutput?
    case Pbkdf2Context(state, _, _, _, _, _, _) => state.PasswordSet? || state.Pbkdf2Output?
  }

  /** The stream a context generates. */
  function SourceOf(p: Prf, kind: Kind, ctx: Context): Source
    requires IsPrf(p) && Fits(kind, ctx)
  {
    match ctx
    case HkdfContext(_, info, _, prk, _, _, _, _, _) =>
      if kind.HkdfExtract? then ExtractStream(prk[..Length(p)]) else HkdfStream(prk[..Length(p)], info)
    case TlsContext(_, secret, seed, prfLabel, _, _, _, _, _) => TlsStream(secret, prfLabel + seed)
    case Pbkdf2Context(_, cost, salt, password, _, _, _) => Pbkdf2Stream(password, salt, cost)
  }

  // --- What a sequence of accepted inputs derives from.

  /** The context after all inputs, if every one of them is accepted. */
  function AcceptAll(p: Prf, kind: Kind, inputs: seq<Input>): (r: Option<Context>)
    requires IsPrf(p)
    ensures r.Some? ==> Fits(kind, r.value)
  {
    if inputs == [] then Some(ZeroContext(kind)) else
      match AcceptAll(p, kind, inputs[..|inputs| - 1])
      case None => None
      case Some(ctx) =>
        var r := ApplyInput(p, kind, ctx, inputs[|inputs| - 1]);
        if r.status == Success then Some(r.ctx) else None
  }

  predicate Is(input: Input, step: Step) {
    input.BytesInput? && input.step == step
  }

  /** Everything given for a step, in order. */
  function Given(inputs: seq<Input>, step: Step): seq<byte> {
    if inputs == [] then [] else
      var last := inputs[|inputs| - 1];
      Given(inputs[..|inputs| - 1], step) + if Is(last, step) then last.data else []
  }

  predicate Has(inputs: seq<Input>, step: Step) {
    exists i :: 0 <= i < |inputs| && Is(inputs[i], step)
  }

  function GivenCost(inputs: seq<Input>): nat {
    if inputs == [] then 0 else
      var last := inputs[|inputs| - 1];
      if last.IntegerInput? && last.isCost then last.value else GivenCost(inputs[..|inputs| - 1])
  }

  function OtherGiven(inputs: seq<Input>): Option<seq<byte>> {
    if Has(inputs, OtherSecret) then Some(Given(inputs, OtherSecret)) else None
  }

  /** The definitions of the RFCs, in terms of what the caller gave. */
  function Derivation(p: Prf, kind: Kind, inputs: seq<Input>): Source
    requires IsPrf(p)
  {
    var secret := Given(inputs, Secret);
    match kind
    case Hkdf => HkdfStream(Mac(p, Given(inputs, Salt), secret), Given(inputs, Info))
    case HkdfExtract => ExtractStream(Mac(p, Given(inputs, Salt), secret))
    case HkdfExpand => HkdfStream(secret, Given(inputs, Info))
    case Tls12Prf => TlsStream(secret, Given(inputs, Label) + Given(inputs, Seed))
    case Tls12PskToMs =>
      TlsStream(Premaster(secret, OtherGiven(inputs)), Given(inputs, Label) + Given(inputs, Seed))
    case _ => Pbkdf2Stream(Given(inputs, Password), Given(inputs, Salt), GivenCost(inputs))
  }

  ghost predicate HkdfReflects(p: Prf, kind: Kind, ctx: Context, inputs: seq<Input>)
    requires IsPrf(p) && IsHkdfKind(kind) && Fits(kind, ctx)
  {
    && ctx.info == Given(inputs, Info)
    && (match ctx.hkdfState
        case HkdfInit => Given(inputs, Salt) == [] == Given(inputs, Secret)
        case HkdfStarted =>
          ctx.hmacKey == Given(inputs, Salt) && ctx.hmacData == [] == Given(inputs, Secret) && !kind.HkdfExpand?
        case HkdfKeyed =>
          && ctx.prk[..Length(p)]
             == (if kind.HkdfExpand? then Given(inputs, Secret) else Mac(p, Given(inputs, Salt), Given(inputs, Secret)))
          && ctx.blockNumber == 0
          && ctx.offset == (if kind.HkdfExtract? then 0 else Length(p))
          && (kind.HkdfExtract? ==> ctx.outputBlock[..Length(p)] == ctx.prk[..Length(p)])
        case HkdfOutput => false)
    && (!ctx.infoSet ==> ctx.info == [])
  }

  ghost predicate TlsReflects(kind: Kind, ctx: Context, inputs: seq<Input>)
    requires IsTlsKind(kind) && Fits(kind, ctx)
  {
    && ctx.seed == Given(inputs, Seed)
    && ctx.prfLabel == Given(inputs, Label)
    && ctx.otherSecret == Given(inputs, OtherSecret)
    && ctx.left == 0 == ctx.blockNumber
    && (match ctx.tlsState
        case TlsInit =>
          Given(inputs, Seed) == [] && Given(inputs, Secret) == [] == ctx.secret
          && Given(inputs, Label) == [] == ctx.otherSecret && !Has(inputs, OtherSecret)
        case SeedSet =>
          && Given(inputs, Secret) == [] == ctx.secret && Given(inputs, Label) == [] == ctx.otherSecret
          && !Has(inputs, OtherSecret)
        case OtherKeySet =>
          Given(inputs, Secret) == [] == ctx.secret && Given(inputs, Label) == [] && Has(inputs, OtherSecret)
          && kind.Tls12PskToMs?
        case KeySet => SecretReflects(kind, ctx, inputs) && Given(inputs, Label) == []
        case LabelSet => SecretReflects(kind, ctx, inputs)
        case TlsOutput => false)
  }

  ghost predicate SecretReflects(kind: Kind, ctx: Context, inputs: seq<Input>)
    requires ctx.TlsContext?
  {
    ctx.secret == if kind.Tls12Prf? then Given(inputs, Secret)
                  else Premaster(Given(inputs, Secret), OtherGiven(inputs))
  }

  ghost predicate Pbkdf2Reflects(p: Prf, ctx: Context, inputs: seq<Input>)
    requires IsPrf(p) && ctx.Pbkdf2Context?
  {
    && ctx.salt == Given(inputs, Salt)
    && ctx.cost == GivenCost(inputs)
    && ctx.bytesUsed == 0 == ctx.blockNumber
    && (match ctx.pbkdf2State
        case Pbkdf2Init => Given(inputs, Password) == []
        case CostSet => Given(inputs, Password) == [] && ctx.cost > 0
        case SaltSet => Given(inputs, Password) == [] && ctx.cost > 0
        case PasswordSet => ctx.password == StoredPassword(p, Given(inputs, Password)) && ctx.cost > 0
        case Pbkdf2Output => false)
  }

  ghost predicate Reflects(p: Prf, kind: Kind, ctx: Context, inputs: seq<Input>)
    requires IsPrf(p) && Fits(kind, ctx)
  {
    if IsHkdfKind(kind) then HkdfReflects(p, kind, ctx, inputs)
    else if IsTlsKind(kind) then TlsReflects(kind, ctx, inputs)
    else Pbkdf2Reflects(p, ctx, inputs)
  }

  lemma HasExtends(inputs: seq<Input>, step: Step)
    requires inputs != []
    ensures Has(inputs, step) <==> Has(inputs[..|inputs| - 1], step) || Is(inputs[|inputs| - 1], step)
  {
    var before := inputs[..|inputs| - 1];
    if i :| 0 <= i < |inputs| && Is(inputs[i], step) {
      assert i < |before| ==> Is(before[i], step);
    }
    if i :| 0 <= i < |before| && Is(before[i], step) {
      assert Is(inputs[i], step);
    }
  }

  lemma GivenExtends(inputs: seq<Input>, step: Step)
    requires inputs != []
    ensures var before, last := inputs[..|inputs| - 1], inputs[|inputs| - 1];
            && (!Is(last, step) ==> Given(inputs, step) == Given(before, step))
            && (Is(last, step) && Given(before, step) == [] ==> Given(inputs, step) == last.data)
  {
  }

  lemma SaltExtends(inputs: seq<Input>)
    requires inputs != []
    ensures Is(inputs[|inputs| - 1], Salt) ==>
        Given(inputs, Salt) == Given(inputs[..|inputs| - 1], Salt) + inputs[|inputs| - 1].data
  {
  }

  lemma GivenCostExtends(inputs: seq<Input>)
    requires inputs != []
    ensures var last := inputs[|inputs| - 1];
            GivenCost(inputs) == if last.IntegerInput? && last.isCost then last.value else GivenCost(inputs[..|inputs| - 1])
  {
  }

  lemma HkdfStepReflects(p: Prf, kind: Kind, ctx: Context, inputs: seq<Input>)
    requires IsPrf(p) && IsHkdfKind(kind) && Fits(kind, ctx) && inputs != []
    requires HkdfReflects(p, kind, ctx, inputs[..|inputs| - 1])
    requires ApplyInput(p, kind, ctx, inputs[|inputs| - 1]).status == Success
    ensures HkdfReflects(p, kind, ApplyInput(p, kind, ctx, inputs[|inputs| - 1]).ctx, inputs)
  {
    hide Given, BlockKey;
    assert inputs[|inputs| - 1].BytesInput? ==> [] + inputs[|inputs| - 1].data == inputs[|inputs| - 1].data;
    GivenExtends(inputs, Salt);
    GivenExtends(inputs, Secret);
    GivenExtends(inputs, Info);
  }

  lemma TlsStepReflects(p: Prf, kind: Kind, ctx: Context, inputs: seq<Input>)
    requires IsPrf(p) && IsTlsKind(kind) && Fits(kind, ctx) && inputs != []
    requires TlsReflects(kind, ctx, inputs[..|inputs| - 1])
    requires ApplyInput(p, kind, ctx, inputs[|inputs| - 1]).status == Success
    ensures TlsReflects(kind, ApplyInput(p, kind, ctx, inputs[|inputs| - 1]).ctx, inputs)
  {
    hide Given, Has, Premaster;
    HasExtends(inputs, OtherSecret);
    GivenExtends(inputs, Seed);
    GivenExtends(inputs, Secret);
    GivenExtends(inputs, OtherSecret);
    GivenExtends(inputs, Label);
  }

  lemma CostReflects(p: Prf, ctx: Context, inputs: seq<Input>, value: nat)
    requires IsPrf(p) && ctx.Pbkdf2Context? && inputs != [] && inputs[|inputs| - 1] == IntegerInput(true, value)
    requires Pbkdf2Reflects(p, ctx, inputs[..|inputs| - 1]) && CostInput(ctx, true, value).status == Success
    ensures Pbkdf2Reflects(p, CostInput(ctx, true, value).ctx, inputs)
  {
    GivenExtends(inputs, Salt);
    GivenExtends(inputs, Password);
    GivenCostExtends(inputs);
    hide Given, GivenCost, StoredPassword;
  }

  lemma BytesReflect(p: Prf, ctx: Context, inputs: seq<Input>)
    requires IsPrf(p) && ctx.Pbkdf2Context? && inputs != [] && inputs[|inputs| - 1].BytesInput?
    requires Pbkdf2Reflects(p, ctx, inputs[..|inputs| - 1])
    requires var i := inputs[|inputs| - 1]; Pbkdf2Input(p, ctx, i.step, i.data, i.env).status == Success
    ensures var i := inputs[|inputs| - 1]; Pbkdf2Reflects(p, Pbkdf2Input(p, ctx, i.step, i.data, i.env).ctx, inputs)
  {
    GivenExtends(inputs, Salt);
    GivenExtends(inputs, Password);
    GivenCostExtends(inputs);
    SaltExtends(inputs);
    hide Given, GivenCost, StoredPassword;
  }

  lemma Pbkdf2StepReflects(p: Prf, kind: Kind, ctx: Context, inputs: seq<Input>)
    requires IsPrf(p) && !IsHkdfKind(kind) && !IsTlsKind(kind) && Fits(kind, ctx) && inputs != []
    requires Pbkdf2Reflects(p, ctx, inputs[..|inputs| - 1])
    requires ApplyInput(p, kind, ctx, inputs[|inputs| - 1]).status == Success
    ensures Pbkdf2Reflects(p, ApplyInput(p, kind, ctx, inputs[|inputs| - 1]).ctx, inputs)
  {
    hide Pbkdf2Reflects, Pbkdf2Input;
    if inputs[|inputs| - 1].BytesInput? {
      BytesReflect(p, ctx, inputs);
    } else {
      CostReflects(p, ctx, inputs, inputs[|inputs| - 1].value);
    }
  }

  lemma {:induction false} AcceptedReflects(p: Prf, kind: Kind, inputs: seq<Input>)
    requires IsPrf(p) && AcceptAll(p, kind, inputs).Some?
    ensures Reflects(p, kind, AcceptAll(p, kind, inputs).value, inputs)
  {
    if inputs != [] {
      var before := inputs[..|inputs| - 1];
      AcceptedReflects(p, kind, before);
      var ctx := AcceptAll(p, kind, before).value;
      if IsHkdfKind(kind) {
        HkdfStepReflects(p, kind, ctx, inputs);
      } else if IsTlsKind(kind) {
        TlsStepReflects(p, kind, ctx, inputs);
      } else {
        Pbkdf2StepReflects(p, kind, ctx, inputs);
      }
    }
  }

  // --- Which sequences of inputs are accepted.

  /** What an input is for, apart from its value. */
  datatype Letter = For(step: Step) | Cost

  function LetterOf(input: Input): Letter {
    if input.BytesInput? then For(input.step) else Cost
  }

  function Word(inputs: seq<Input>): (w: seq<Letter>)
    ensures |w| == |inputs|
    ensures forall i :: 0 <= i < |w| ==> w[i] == LetterOf(inputs[i])
  {
    seq(|inputs|, i requires 0 <= i < |inputs| => LetterOf(inputs[i]))
  }

  /** The data have a length that the algorithm takes for the step, and the memory
      and the driver calls that the step needs are granted. */
  predicate DataAdmissible(p: Prf, kind: Kind, step: Step, data: seq<byte>, env: Env) {
    match step
    case Salt => if IsHkdfKind(kind) then env.drives else data == [] || env.allocates
    case Secret =>
      if kind.HkdfExpand? then |data| == Length(p)
      else if IsHkdfKind(kind) then env.drives
      else if kind.Tls12Prf? then data == [] || env.allocates
      else |data| <= PSK_MAX_SIZE && env.allocates
    case Password => env.drives
    case _ => data == [] || env.allocates
  }

  /** The steps that a key of a type may be given to. */
  predicate Feeds(keyType: InputType, step: Step) {
    match keyType
    case NotAKey => true
    case DeriveKey => step in {Secret, OtherSecret, Password}
    case PasswordKey => step == Password
    case RawDataKey => step in {Label, Salt, Info, Seed}
    case OtherKey => false
  }

  predicate Admissible(p: Prf, kind: Kind, input: Input) {
    match input
    case BytesInput(step, keyType, data, env) => Feeds(keyType, step) && DataAdmissible(p, kind, step, data, env)
    case IntegerInput(isCost, value) => isCost && 1 <= value <= PBKDF2_MAX_ITERATIONS
  }

  /** A word that can be completed to the given one. */
  predicate Begins(w: seq<Letter>, whole: seq<Letter>) {
    w <= whole
  }

  function Salts(n: nat): (w: seq<Letter>)
    ensures |w| == n
  {
    seq(n, _ => For(Salt))
  }

  /** A word without the info of HKDF, which may come at any time. */
  function WithoutInfo(w: seq<Letter>): (r: seq<Letter>)
    ensures |r| <= |w|
  {
    if w == [] then [] else
      WithoutInfo(w[..|w| - 1]) + if w[|w| - 1] == For(Info) then [] else [w[|w| - 1]]
  }

  function InfoCount(w: seq<Letter>): nat {
    |w| - |WithoutInfo(w)|
  }

  predicate CoreInOrder(core: seq<Letter>) {
    Begins(core, [For(Salt), For(Secret)]) || Begins(core, [For(Secret)])
  }

  /** The orders in which inputs may be given. */
  predicate InOrder(kind: Kind, w: seq<Letter>) {
    match kind
    case Hkdf => CoreInOrder(WithoutInfo(w)) && InfoCount(w) <= 1
    case HkdfExtract => Begins(w, [For(Salt), For(Secret)])
    case HkdfExpand => Begins(w, [For(Secret), For(Info)])
    case Tls12Prf => Begins(w, [For(Seed), For(Secret), For(Label)])
    case Tls12PskToMs =>
      Begins(w, [For(Seed), For(Secret), For(Label)]) || Begins(w, [For(Seed), For(OtherSecret), For(Secret), For(Label)])
    case _ => w == [] || CostAndSalts(w) || CostSaltsPassword(w)
  }

  predicate CostAndSalts(w: seq<Letter>) {
    |w| > 0 && w == [Cost] + Salts(|w| - 1)
  }

  predicate CostSaltsPassword(w: seq<Letter>) {
    |w| > 2 && CostAndSalts(w[..|w| - 1]) && w[|w| - 1] == For(Password)
  }

  predicate Is1(w: seq<Letter>, a: Letter) { |w| == 1 && w[0] == a }

  predicate Is2(w: seq<Letter>, a: Letter, b: Letter) { |w| == 2 && w[0] == a && w[1] == b }

  predicate Is3(w: seq<Letter>, a: Letter, b: Letter, c: Letter) { |w| == 3 && w[0] == a && w[1] == b && w[2] == c }

  /** The state that such a word leads to. */
  ghost predicate HkdfAt(kind: Kind, ctx: Context, w: seq<Letter>)
    requires IsHkdfKind(kind) && ctx.HkdfContext?
  {
    if kind.Hkdf? then
      InfoCount(w) == (if ctx.infoSet then 1 else 0) && CoreAt(ctx, WithoutInfo(w))
    else if kind.HkdfExtract? then
      !ctx.infoSet && CoreAt(ctx, w) && !(ctx.hkdfState.HkdfKeyed? && |w| == 1)
    else
      match ctx.hkdfState
      case HkdfInit => !ctx.infoSet && w == []
      case HkdfKeyed => if ctx.infoSet then Is2(w, For(Secret), For(Info)) else Is1(w, For(Secret))
      case _ => false
  }

  ghost predicate CoreAt(ctx: Context, core: seq<Letter>)
    requires ctx.HkdfContext?
  {
    match ctx.hkdfState
    case HkdfInit => core == []
    case HkdfStarted => Is1(core, For(Salt))
    case HkdfKeyed => Is2(core, For(Salt), For(Secret)) || Is1(core, For(Secret))
    case HkdfOutput => false
  }

  ghost predicate TlsAt(kind: Kind, ctx: Context, w: seq<Letter>)
    requires IsTlsKind(kind) && ctx.TlsContext?
  {
    match ctx.tlsState
    case TlsInit => w == []
    case SeedSet => Is1(w, For(Seed))
    case OtherKeySet => kind.Tls12PskToMs? && Is2(w, For(Seed), For(OtherSecret))
    case KeySet =>
      Is2(w, For(Seed), For(Secret)) || (kind.Tls12PskToMs? && Is3(w, For(Seed), For(OtherSecret), For(Secret)))
    case LabelSet =>
      || Is3(w, For(Seed), For(Secret), For(Label))
      || (kind.Tls12PskToMs? && |w| == 4 && Is3(w[..3], For(Seed), For(OtherSecret), For(Secret)) && w[3] == For(Label))
    case TlsOutput => false
  }

  ghost predicate Pbkdf2At(ctx: Context, w: seq<Letter>)
    requires ctx.Pbkdf2Context?
  {
    match ctx.pbkdf2State
    case Pbkdf2Init => w == []
    case CostSet => Is1(w, Cost)
    case SaltSet => |w| > 1 && CostAndSalts(w)
    case PasswordSet => CostSaltsPassword(w)
    case Pbkdf2Output => false
  }

  ghost predicate IsAt(kind: Kind, ctx: Context, w: seq<Letter>)
    requires Fits(kind, ctx)
  {
    if IsHkdfKind(kind) then HkdfAt(kind, ctx, w) else if IsTlsKind(kind) then TlsAt(kind, ctx, w) else Pbkdf2At(ctx, w)
  }

  lemma WithoutInfoNext(w: seq<Letter>, l: Letter)
    ensures WithoutInfo(w + [l]) == WithoutInfo(w) + if l == For(Info) then [] else [l]
    ensures InfoCount(w + [l]) == InfoCount(w) + if l == For(Info) then 1 else 0
  {
    assert (w + [l])[..|w|] == w;
  }

  lemma {:induction false} WithoutInfoSame(w: seq<Letter>)
    requires InfoCount(w) == 0
    ensures WithoutInfo(w) == w
  {
    if w != [] {
      WithoutInfoNext(w[..|w| - 1], w[|w| - 1]);
      assert w[..|w| - 1] + [w[|w| - 1]] == w;
      WithoutInfoSame(w[..|w| - 1]);
    }
  }

  lemma BeginsNext(w: seq<Letter>, l: Letter, whole: seq<Letter>)
    ensures Begins(w + [l], whole) <==> Begins(w, whole) && |w| < |whole| && whole[|w|] == l
  {
    assert (w + [l])[|w|] == l;
    assert forall i :: 0 <= i < |w| ==> (w + [l])[i] == w[i];
  }

  lemma CostAndSaltsNext(w: seq<Letter>, l: Letter)
    ensures CostAndSalts(w + [l]) <==> if w == [] then l == Cost else CostAndSalts(w) && l == For(Salt)
    ensures CostSaltsPassword(w + [l]) <==> |w| > 1 && CostAndSalts(w) && l == For(Password)
    ensures CostSaltsPassword(w) ==> !CostAndSalts(w)
  {
    assert (w + [l])[..|w|] == w && (w + [l])[|w|] == l;
    if w != [] {
      assert [Cost] + Salts(|w|) == [Cost] + Salts(|w| - 1) + [For(Salt)];
      assert CostAndSalts(w + [l]) ==> w + [l] == [Cost] + Salts(|w| - 1) + [For(Salt)];
      if CostAndSalts(w + [l]) {
        SplitAtEnd(w, [l], [Cost] + Salts(|w| - 1), [For(Salt)]);
        assert [l][0] == [For(Salt)][0];
      }
    }
  }

  /** One more input: accepted if it is admissible and in order. */
  ghost predicate OneMore(p: Prf, kind: Kind, ctx: Context, w: seq<Letter>, input: Input)
    requires IsPrf(p) && Fits(kind, ctx)
  {
    var r := ApplyInput(p, kind, ctx, input);
    && (r.status == Success <==> Admissible(p, kind, input) && InOrder(kind, w + [LetterOf(input)]))
    && (r.status == Success ==> IsAt(kind, r.ctx, w + [LetterOf(input)]))
  }

  lemma TlsOneMore(p: Prf, kind: Kind, ctx: Context, w: seq<Letter>, input: Input)
    requires IsPrf(p) && IsTlsKind(kind) && Fits(kind, ctx) && TlsAt(kind, ctx, w)
    ensures OneMore(p, kind, ctx, w, input)
  {
    var l := LetterOf(input);
    var longer := w + [l];
    assert longer[|w|] == l && longer[..|w|] == w && forall i :: 0 <= i < |w| ==> longer[i] == w[i];
    hide Premaster;
  }

  lemma ExpandOneMore(p: Prf, ctx: Context, w: seq<Letter>, input: Input)
    requires IsPrf(p) && Fits(HkdfExpand, ctx) && HkdfAt(HkdfExpand, ctx, w)
    ensures OneMore(p, HkdfExpand, ctx, w, input)
  {
    var l := LetterOf(input);
    var longer := w + [l];
    assert longer[|w|] == l && forall i :: 0 <= i < |w| ==> longer[i] == w[i];
    hide WithoutInfo;
  }

  lemma ExtractOneMore(p: Prf, ctx: Context, w: seq<Letter>, input: Input)
    requires IsPrf(p) && Fits(HkdfExtract, ctx) && HkdfAt(HkdfExtract, ctx, w)
    ensures OneMore(p, HkdfExtract, ctx, w, input)
  {
    var l := LetterOf(input);
    var longer := w + [l];
    assert longer[|w|] == l && forall i :: 0 <= i < |w| ==> longer[i] == w[i];
    hide WithoutInfo;
  }

  /** What a letter other than info does to the order of salt and secret. */
  lemma CoreNext(core: seq<Letter>, l: Letter)
    ensures CoreInOrder(core + [l])
        <==> (core == [] && (l == For(Salt) || l == For(Secret))) || (Is1(core, For(Salt)) && l == For(Secret))
    ensures core == [] ==> Is1(core + [l], l)
    ensures Is1(core, For(Salt)) ==> Is2(core + [l], For(Salt), l)
  {
    var longer := core + [l];
    assert longer[|core|] == l && forall i :: 0 <= i < |core| ==> longer[i] == core[i];
  }

  lemma CoreAtInOrder(ctx: Context, core: seq<Letter>)
    requires ctx.HkdfContext? && CoreAt(ctx, core)
    ensures CoreInOrder(core)
  {
  }

  lemma HkdfOneMore(p: Prf, ctx: Context, w: seq<Letter>, input: Input)
    requires IsPrf(p) && Fits(Hkdf, ctx) && HkdfAt(Hkdf, ctx, w)
    ensures OneMore(p, Hkdf, ctx, w, input)
  {
    var l, core := LetterOf(input), WithoutInfo(w);
    WithoutInfoNext(w, l);
    CoreNext(core, l);
    assert core + [] == core;
    CoreAtInOrder(ctx, core);
    hide WithoutInfo, CoreInOrder;
  }

  lemma Pbkdf2OneMore(p: Prf, kind: Kind, ctx: Context, w: seq<Letter>, input: Input)
    requires IsPrf(p) && !IsHkdfKind(kind) && !IsTlsKind(kind) && Fits(kind, ctx) && Pbkdf2At(ctx, w)
    ensures OneMore(p, kind, ctx, w, input)
  {
    CostAndSaltsNext(w, LetterOf(input));
    assert (w + [LetterOf(input)])[|w|] == LetterOf(input);
    assert Is1(w, Cost) ==> CostAndSalts(w);
    hide CostAndSalts, CostSaltsPassword, StoredPassword;
  }

  /** What is in order was in order one letter before. */
  lemma InOrderBefore(kind: Kind, w: seq<Letter>, l: Letter)
    requires InOrder(kind, w + [l])
    ensures InOrder(kind, w)
  {
    var core := WithoutInfo(w);
    WithoutInfoNext(w, l);
    BeginsNext(core, l, [For(Salt), For(Secret)]);
    BeginsNext(core, l, [For(Secret)]);
    BeginsNext(w, l, [For(Salt), For(Secret)]);
    BeginsNext(w, l, [For(Secret), For(Info)]);
    BeginsNext(w, l, [For(Seed), For(Secret), For(Label)]);
    BeginsNext(w, l, [For(Seed), For(OtherSecret), For(Secret), For(Label)]);
    CostAndSaltsNext(w, l);
    assert core + [] == core;
    hide WithoutInfo, Begins, CostAndSalts, CostSaltsPassword;
  }

  lemma StartsAt(kind: Kind)
    ensures IsAt(kind, ZeroContext(kind), []) && InOrder(kind, [])
  {
    assert WithoutInfo([]) == [];
  }

  lemma StepIsAt(p: Prf, kind: Kind, ctx: Context, w: seq<Letter>, input: Input)
    requires IsPrf(p) && Fits(kind, ctx) && IsAt(kind, ctx, w)
    ensures OneMore(p, kind, ctx, w, input)
  {
    hide OneMore;
    if IsTlsKind(kind) {
      TlsOneMore(p, kind, ctx, w, input);
    } else if kind.HkdfExpand? {
      ExpandOneMore(p, ctx, w, input);
    } else if kind.HkdfExtract? {
      ExtractOneMore(p, ctx, w, input);
    } else if kind.Hkdf? {
      HkdfOneMore(p, ctx, w, input);
    } else {
      Pbkdf2OneMore(p, kind, ctx, w, input);
    }
  }

  /** A sequence of inputs is accepted if and only if every one of them is
      admissible and they come in an order of the algorithm. */
  lemma {:induction false} ExactlyAccepted(p: Prf, kind: Kind, inputs: seq<Input>)
    requires IsPrf(p)
    ensures AcceptAll(p, kind, inputs).Some? <==>
            InOrder(kind, Word(inputs)) && forall i :: 0 <= i < |inputs| ==> Admissible(p, kind, inputs[i])
    ensures AcceptAll(p, kind, inputs).Some? ==> IsAt(kind, AcceptAll(p, kind, inputs).value, Word(inputs))
  {
    hide InOrder, IsAt, Admissible, ApplyInput;
    if inputs == [] {
      StartsAt(kind);
      assert Word(inputs) == [];
    } else {
      var before, last := inputs[..|inputs| - 1], inputs[|inputs| - 1];
      var w, l := Word(before), LetterOf(last);
      ExactlyAccepted(p, kind, before);
      assert Word(inputs) == w + [l];
      assert forall i :: 0 <= i < |before| ==> inputs[i] == before[i];
      if InOrder(kind, w + [l]) {
        InOrderBefore(kind, w, l);
      }
      if AcceptAll(p, kind, before).Some? {
        StepIsAt(p, kind, AcceptAll(p, kind, before).value, w, last);
      }
    }
  }

  /** The inputs without which there is no output. */
  predicate Complete(kind: Kind, w: seq<Letter>) {
    match kind
    case Hkdf => For(Secret) in w && For(Info) in w
    case HkdfExtract => For(Secret) in w
    case HkdfExpand => For(Info) in w
    case Tls12Prf => For(Label) in w
    case Tls12PskToMs => For(Label) in w
    case _ => For(Password) in w
  }

  lemma {:induction false} InWithoutInfo(w: seq<Letter>, l: Letter)
    ensures l != For(Info) ==> (l in WithoutInfo(w) <==> l in w)
    ensures InfoCount(w) > 0 <==> For(Info) in w
  {
    if w != [] {
      var before, last := w[..|w| - 1], w[|w| - 1];
      assert w == before + [last];
      WithoutInfoNext(before, last);
      InWithoutInfo(before, l);
      hide WithoutInfo;
    }
  }

  lemma {:induction false} NoPasswordInSalts(w: seq<Letter>)
    ensures CostAndSalts(w) ==> For(Password) !in w
    ensures CostSaltsPassword(w) ==> For(Password) in w
  {
    if CostAndSalts(w) {
      assert forall i :: 0 <= i < |w| ==> w[i] == ([Cost] + Salts(|w| - 1))[i];
    }
  }

  lemma HkdfReadyAt(kind: Kind, ctx: Context, w: seq<Letter>)
    requires IsHkdfKind(kind) && Fits(kind, ctx) && HkdfAt(kind, ctx, w)
    ensures Ready(kind, ctx) <==> Complete(kind, w)
  {
    InWithoutInfo(w, For(Secret));
    hide WithoutInfo;
  }

  lemma OtherReadyAt(kind: Kind, ctx: Context, w: seq<Letter>)
    requires !IsHkdfKind(kind) && Fits(kind, ctx) && IsAt(kind, ctx, w)
    ensures Ready(kind, ctx) <==> Complete(kind, w)
  {
    NoPasswordInSalts(w);
    hide CostAndSalts, CostSaltsPassword;
  }

  /** Output may start exactly when the inputs are complete. */
  lemma ReadyExactly(p: Prf, kind: Kind, inputs: seq<Input>)
    requires IsPrf(p) && AcceptAll(p, kind, inputs).Some?
    ensures Ready(kind, AcceptAll(p, kind, inputs).value) <==> Complete(kind, Word(inputs))
  {
    hide Ready, Complete;
    ExactlyAccepted(p, kind, inputs);
    if IsHkdfKind(kind) {
      HkdfReadyAt(kind, AcceptAll(p, kind, inputs).value, Word(inputs));
    } else {
      OtherReadyAt(kind, AcceptAll(p, kind, inputs).value, Word(inputs));
    }
  }

  // --- What the stream is bound to.

  /** The premaster secret holds both secrets, each behind its length. */
  lemma PremasterParts(psk: seq<byte>, other: Option<seq<byte>>)
    requires |psk| < 0x1_0000 && (other.Some? ==> |other.value| < 0x1_0000)
    ensures var (first, s) := (if other.Some? then other.value else Zeros(|psk|), Premaster(psk, other));
            && |s| == 4 + |first| + |psk|
            && GetBe(s[..2]) == |first| && s[2..2 + |first|] == first
            && GetBe(s[2 + |first|..4 + |first|]) == |psk| && s[4 + |first|..] == psk
  {
    var first := if other.Some? then other.value else Zeros(|psk|);
    ConcatParts(PutBe(|first|, 2), first, PutBe(|psk|, 2), psk);
    assert Pow256(2) == 0x1_0000;
    GetPutBe(|first|, 2);
    GetPutBe(|psk|, 2);
  }

  /** So it determines the pre-shared key and, up to a string of as many zeros as
      the key is long standing for none, the other secret. */
  lemma PremasterBinds(psk: seq<byte>, other: Option<seq<byte>>, psk': seq<byte>, other': Option<seq<byte>>)
    requires |psk| < 0x1_0000 && (other.Some? ==> |other.value| < 0x1_0000)
    requires |psk'| < 0x1_0000 && (other'.Some? ==> |other'.value| < 0x1_0000)
    ensures Premaster(psk, other) == Premaster(psk', other') <==>
            && psk == psk'
            && (if other.Some? then other.value else Zeros(|psk|)) == (if other'.Some? then other'.value else Zeros(|psk'|))
  {
    PremasterParts(psk, other);
    PremasterParts(psk', other');
  }

  /** The application that extracts the pseudorandom key of HKDF. */
  function Extraction(p: Prf, inputs: seq<Input>): Application
    requires IsPrf(p)
  {
    Application(BlockKey(p, Given(inputs, Salt)), Given(inputs, Secret))
  }

  /** No input is lost: what derives from the same source was given the same, up
      to what HMAC identifies in a key and to collisions in the extraction. */
  lemma DerivationBinds(p: Prf, kind: Kind, a: seq<Input>, b: seq<Input>)
    requires IsPrf(p) && Derivation(p, kind, a) == Derivation(p, kind, b)
    ensures kind.Hkdf? || kind.HkdfExtract? ==> Apply(p, Extraction(p, a)) == Apply(p, Extraction(p, b))
    ensures kind.Hkdf? || kind.HkdfExpand? ==> Given(a, Info) == Given(b, Info)
    ensures kind.HkdfExpand? || kind.Tls12Prf? ==> Given(a, Secret) == Given(b, Secret)
    ensures IsTlsKind(kind) ==> Given(a, Label) + Given(a, Seed) == Given(b, Label) + Given(b, Seed)
    ensures kind.Tls12PskToMs?
            && |Given(a, Secret)| < 0x1_0000 && |Given(a, OtherSecret)| < 0x1_0000
            && |Given(b, Secret)| < 0x1_0000 && |Given(b, OtherSecret)| < 0x1_0000 ==>
              && Given(a, Secret) == Given(b, Secret)
              && (Has(a, OtherSecret) && Has(b, OtherSecret) ==> Given(a, OtherSecret) == Given(b, OtherSecret))
    ensures kind.Pbkdf2Hmac? || kind.Pbkdf2AesCmac? ==>
              && Given(a, Password) == Given(b, Password) && Given(a, Salt) == Given(b, Salt)
              && GivenCost(a) == GivenCost(b)
  {
    hide Given, Has, GivenCost, Premaster, BlockKey;
    if kind.Tls12PskToMs?
       && |Given(a, Secret)| < 0x1_0000 && |Given(a, OtherSecret)| < 0x1_0000
       && |Given(b, Secret)| < 0x1_0000 && |Given(b, OtherSecret)| < 0x1_0000 {
      PremasterBinds(Given(a, Secret), OtherGiven(a), Given(b, Secret), OtherGiven(b));
    }
  }

  // --- The stored password stands for the given one.

  lemma StoredPasswordMac(p: Prf, password: seq<byte>, m: seq<byte>)
    requires IsPrf(p)
    ensures Mac(p, StoredPassword(p, password), m) == Mac(p, password, m)
  {
    if p.Cmac? {
      assert Zeros(AES_BLOCK) == BlockKey(p, Zeros(AES_BLOCK));
    } else if |password| <= p.blockLength {
      assert BlockKey(p, StoredPassword(p, password)) == BlockKey(p, password);
    }
  }

  lemma {:induction false} StoredPasswordSum(p: Prf, password: seq<byte>, salted: seq<byte>, j: nat)
    requires IsPrf(p) && j > 0
    ensures PbkdfU(p, StoredPassword(p, password), salted, j) == PbkdfU(p, password, salted, j)
    ensures PbkdfSum(p, StoredPassword(p, password), salted, j) == PbkdfSum(p, password, salted, j)
  {
    if j > 1 {
      StoredPasswordSum(p, password, salted, j - 1);
      StoredPasswordMac(p, password, PbkdfU(p, password, salted, j - 1));
    } else {
      StoredPasswordMac(p, password, salted);
    }
  }

  lemma {:induction false} StoredPasswordStream(p: Prf, password: seq<byte>, salt: seq<byte>, cost: nat, n: nat)
    requires IsPrf(p) && cost > 0
    ensures Produced(p, Pbkdf2Stream(StoredPassword(p, password), salt, cost), n) == Produced(p, Pbkdf2Stream(password, salt, cost), n)
  {
    if n > 0 {
      StoredPasswordStream(p, password, salt, cost, n - 1);
      StoredPasswordSum(p, password, salt + PutBe(n, 4), cost);
    }
  }

  /** For HKDF and the TLS PRF the two sources are the same. */
  lemma ReflectsDerivation(p: Prf, kind: Kind, ctx: Context, inputs: seq<Input>)
    requires IsPrf(p) && Fits(kind, ctx) && (IsHkdfKind(kind) || IsTlsKind(kind))
    requires Reflects(p, kind, ctx, inputs) && Ready(kind, ctx)
    ensures SourceOf(p, kind, ctx) == Derivation(p, kind, inputs)
  {
  }

  /** Whatever inputs were accepted, in whatever order the state machine allows,
      an operation that is ready generates the stream the RFC defines for them. */
  lemma InputsDetermineStream(p: Prf, kind: Kind, inputs: seq<Input>, n: nat)
    requires IsPrf(p) && Suits(kind, p) && AcceptAll(p, kind, inputs).Some?
    requires Ready(kind, AcceptAll(p, kind, inputs).value)
    ensures IsSource(p, Derivation(p, kind, inputs))
    ensures IsSource(p, SourceOf(p, kind, AcceptAll(p, kind, inputs).value))
    ensures Prefix(p, SourceOf(p, kind, AcceptAll(p, kind, inputs).value), n)
         == Prefix(p, Derivation(p, kind, inputs), n)
    ensures StreamLimit(p, SourceOf(p, kind, AcceptAll(p, kind, inputs).value))
         == StreamLimit(p, Derivation(p, kind, inputs))
  {
    AcceptedReflects(p, kind, inputs);
    var ctx := AcceptAll(p, kind, inputs).value;
    if IsHkdfKind(kind) || IsTlsKind(kind) {
      ReflectsDerivation(p, kind, ctx, inputs);
    } else {
      StoredPasswordStream(p, Given(inputs, Password), Given(inputs, Salt), GivenCost(inputs), n);
    }
  }
}
