// Multipart authenticated encryption: the flags and counters of the operation
// object, proved to follow the history of accepted calls, and what that history
// must look like before finish or verify reaches the driver.
module Aead {
  import opened Options

  datatype Status =
    | Success
    | BadState
    | InvalidArgument
    | NotSupported
    | BufferTooSmall
    | NotPermitted
    | HardwareFailure

  /** The AEAD families, and anything that is not an AEAD algorithm. */
  datatype Base = NoBase | Gcm | Ccm | ChaChaPoly | OtherAead

  /** An algorithm argument: its base, its tag length and whether it is a
      wildcard, which only policies may use. */
  datatype AlgorithmId = AlgorithmId(base: Base, tag: nat, wildcard: bool)

  // --- The history of one operation.

  /** A call that was accepted. Additional data of length zero is accepted
      without reaching the driver; every other step is passed on to it. */
  datatype Step =
    | Nonce(length: nat)
    | Lengths(ad: nat, body: nat)
    | Ad(length: nat)
    | Body(length: nat)

  function AdTotal(log: seq<Step>): nat {
    if log == [] then 0 else
      AdTotal(log[..|log| - 1]) + if log[|log| - 1].Ad? then log[|log| - 1].length else 0
  }

  function BodyTotal(log: seq<Step>): nat {
    if log == [] then 0 else
      BodyTotal(log[..|log| - 1]) + if log[|log| - 1].Body? then log[|log| - 1].length else 0
  }

  predicate HasNonce(log: seq<Step>) { exists i :: 0 <= i < |log| && log[i].Nonce? }

  predicate HasLengths(log: seq<Step>) { exists i :: 0 <= i < |log| && log[i].Lengths? }

  predicate HasAd(log: seq<Step>) { exists i :: 0 <= i < |log| && log[i].Ad? }

  predicate HasBody(log: seq<Step>) { exists i :: 0 <= i < |log| && log[i].Body? }

  /** The lengths that were declared, if any were. */
  function Declared(log: seq<Step>): (d: Option<Step>)
    ensures d.Some? <==> HasLengths(log)
    ensures d.Some? ==> d.value.Lengths?
  {
    if log == [] then None
    else
      var before, last := log[..|log| - 1], log[|log| - 1];
      assert log == before + [last];
      if last.Lengths? then Some(last) else
        var d := Declared(before);
        assert d.None? ==> forall i :: 0 <= i < |log| ==> i < |before| ==> log[i] == before[i];
        assert d.Some? ==> exists i :: 0 <= i < |before| && before[i].Lengths? && log[i] == before[i];
        d
  }

  predicate NonceLengthAllowed(base: Base, n: nat) {
    match base
    case Gcm => n != 0
    case Ccm => 7 <= n <= 13
    case ChaChaPoly => n == 12
    case _ => false
  }

  /** GCM (NIST SP 800-38D, section 5.2.1.1) bounds both lengths; this
      implementation bounds the additional data of CCM. */
  predicate LengthsAllowed(base: Base, ad: nat, body: nat) {
    match base
    case Gcm => ad < 0x2000_0000_0000_0000 && body <= 0xF_FFFF_FFE0
    case Ccm => ad <= 0xFF00
    case _ => true
  }

  /** In bits, GCM takes up to 2^64 - 1 of additional data and 2^39 - 256 of body;
      CCM takes additional data whose length has a two-byte encoding (NIST SP
      800-38C, appendix A.2.2), and 2^16 - 2^8 bytes too; ChaCha20-Poly1305 takes
      everything. */
  lemma LengthLimits(ad: nat, body: nat)
    ensures LengthsAllowed(Gcm, ad, body) <==>
            8 * ad <= 0xFFFF_FFFF_FFFF_FFFF && 8 * body <= 0x80_0000_0000 - 256
    ensures LengthsAllowed(Ccm, ad, body) <==> ad <= 0x1_0000 - 0x100
    ensures LengthsAllowed(ChaChaPoly, ad, body)
  {
  }

  predicate TagLengthAllowed(base: Base, tag: nat) {
    match base
    case Ccm => 4 <= tag <= 16 && tag % 2 == 0
    case Gcm => tag == 4 || tag == 8 || 12 <= tag <= 16
    case ChaChaPoly => tag == 16
    case _ => false
  }

  /** Whether a call is in order after a history, in terms of that history only. */
  predicate InOrder(base: Base, log: seq<Step>, step: Step) {
    match step
    case Nonce(n) => !HasNonce(log) && NonceLengthAllowed(base, n)
    case Lengths(ad, body) =>
      !HasLengths(log) && !HasAd(log) && !HasBody(log) && LengthsAllowed(base, ad, body)
    case Ad(n) =>
      && HasNonce(log) && !HasBody(log)
      && (n == 0 || match Declared(log)
                    case Some(d) => AdTotal(log) + n <= d.ad
                    case None => base != Ccm)
    case Body(n) =>
      && HasNonce(log)
      && match Declared(log)
         case Some(d) => AdTotal(log) == d.ad && BodyTotal(log) + n <= d.body
         case None => base != Ccm
  }

  /** Whether the message may be completed. */
  predicate Completable(base: Base, log: seq<Step>) {
    && HasNonce(log)
    && match Declared(log)
       case Some(d) => AdTotal(log) == d.ad && BodyTotal(log) == d.body
       case None => base != Ccm
  }

  /** A history in which every call was in order. */
  predicate IsHistory(base: Base, log: seq<Step>) {
    log == [] || (IsHistory(base, log[..|log| - 1]) && InOrder(base, log[..|log| - 1], log[|log| - 1]))
  }

  /** The shape of a message: one nonce ahead of all data, lengths declared at
      most once and ahead of all data, additional data ahead of the body. */
  predicate IsOrdered(log: seq<Step>) {
    && (forall i, j :: 0 <= i < j < |log| && log[i].Nonce? ==> !log[j].Nonce?)
    && (forall i, j :: 0 <= i < j < |log| && log[i].Lengths? ==> !log[j].Lengths?)
    && (forall i, j :: 0 <= i < j < |log| && log[j].Nonce? ==> log[i].Lengths?)
    && (forall i, j :: 0 <= i < j < |log| && log[j].Lengths? ==> log[i].Nonce?)
    && (forall i, j :: 0 <= i < j < |log| && log[i].Body? ==> log[j].Body?)
  }

  lemma DataNeedsNonce(base: Base, log: seq<Step>)
    requires IsHistory(base, log)
    ensures HasAd(log) || HasBody(log) ==> HasNonce(log)
    decreases |log|
  {
    if log != [] {
      var before := log[..|log| - 1];
      DataNeedsNonce(base, before);
      HasOneMore(log);
    }
  }

  lemma HasOneMore(log: seq<Step>)
    requires log != []
    ensures var before, last := log[..|log| - 1], log[|log| - 1];
            && (HasNonce(log) <==> HasNonce(before) || last.Nonce?)
            && (HasLengths(log) <==> HasLengths(before) || last.Lengths?)
            && (HasAd(log) <==> HasAd(before) || last.Ad?)
            && (HasBody(log) <==> HasBody(before) || last.Body?)
  {
    var before, last := log[..|log| - 1], log[|log| - 1];
    assert log[|log| - 1] == last;
    assert forall i :: 0 <= i < |before| ==> log[i] == before[i];
    assert forall i {:trigger log[i]} :: 0 <= i < |log| ==> log[i] == if i < |before| then before[i] else last;
  }

  /** Every history of accepted calls has that shape. */
  lemma {:induction false} HistoryIsOrdered(base: Base, log: seq<Step>)
    requires IsHistory(base, log)
    ensures IsOrdered(log)
    decreases |log|
  {
    if log != [] {
      var before := log[..|log| - 1];
      HistoryIsOrdered(base, before);
      DataNeedsNonce(base, before);
      assert forall i :: 0 <= i < |before| ==> log[i] == before[i];
    }
  }

  /** Declared lengths are never exceeded, and no body starts before all the
      declared additional data is there. */
  lemma {:induction false} TotalsWithinDeclared(base: Base, log: seq<Step>)
    requires IsHistory(base, log)
    ensures match Declared(log)
            case Some(d) => AdTotal(log) <= d.ad && BodyTotal(log) <= d.body && (HasBody(log) ==> AdTotal(log) == d.ad)
            case None => base == Ccm ==> AdTotal(log) == 0 && !HasBody(log)
    ensures !HasAd(log) ==> AdTotal(log) == 0
    ensures !HasBody(log) ==> BodyTotal(log) == 0
    decreases |log|
  {
    if log != [] {
      TotalsWithinDeclared(base, log[..|log| - 1]);
      HasOneMore(log);
    }
  }

  predicate AllAllowed(base: Base, log: seq<Step>) {
    && (forall i :: 0 <= i < |log| && log[i].Nonce? ==> NonceLengthAllowed(base, log[i].length))
    && (forall i :: 0 <= i < |log| && log[i].Lengths? ==> LengthsAllowed(base, log[i].ad, log[i].body))
  }

  /** What the accepted sequences of calls are, without a state: the lengths
      allowed, that shape, data behind a nonce, and totals within what was
      declared; the body needs all the declared additional data, and CCM takes
      none of either without a declaration. */
  predicate WellFormed(base: Base, log: seq<Step>) {
    && IsOrdered(log)
    && AllAllowed(base, log)
    && (HasAd(log) || HasBody(log) ==> HasNonce(log))
    && match Declared(log)
       case Some(d) => AdTotal(log) <= d.ad && BodyTotal(log) <= d.body && (HasBody(log) ==> AdTotal(log) == d.ad)
       case None => base == Ccm ==> AdTotal(log) == 0 && !HasBody(log)
  }

  lemma {:induction false} HistoryLengths(base: Base, log: seq<Step>)
    requires IsHistory(base, log)
    ensures AllAllowed(base, log)
    decreases |log|
  {
    if log != [] {
      var before := log[..|log| - 1];
      HistoryLengths(base, before);
      assert forall i :: 0 <= i < |before| ==> log[i] == before[i];
    }
  }

  lemma OrderedBefore(log: seq<Step>)
    requires log != [] && IsOrdered(log)
    ensures IsOrdered(log[..|log| - 1])
    ensures var before, last := log[..|log| - 1], log[|log| - 1];
            && (last.Nonce? ==> !HasNonce(before) && !HasAd(before) && !HasBody(before))
            && (last.Lengths? ==> !HasLengths(before) && !HasAd(before) && !HasBody(before))
            && (last.Ad? ==> !HasBody(before))
  {
    var before := log[..|log| - 1];
    assert forall i :: 0 <= i < |before| ==> before[i] == log[i];
  }

  lemma AllowedBefore(base: Base, log: seq<Step>)
    requires log != [] && AllAllowed(base, log)
    ensures AllAllowed(base, log[..|log| - 1])
    ensures log[|log| - 1].Nonce? ==> NonceLengthAllowed(base, log[|log| - 1].length)
    ensures log[|log| - 1].Lengths? ==> LengthsAllowed(base, log[|log| - 1].ad, log[|log| - 1].body)
  {
  }

  lemma WellFormedBefore(base: Base, log: seq<Step>)
    requires log != [] && WellFormed(base, log)
    ensures WellFormed(base, log[..|log| - 1])
  {
    var before, last := log[..|log| - 1], log[|log| - 1];
    assert log == before + [last];
    Extend(base, before, last);
    OrderedBefore(log);
    AllowedBefore(base, log);
    NothingWithoutData(before);
    hide Declared, AdTotal, BodyTotal, IsOrdered, AllAllowed, HasNonce, HasLengths, HasAd, HasBody;
  }

  lemma {:induction false} NothingWithoutData(log: seq<Step>)
    ensures !HasAd(log) ==> AdTotal(log) == 0
    ensures !HasBody(log) ==> BodyTotal(log) == 0
    decreases |log|
  {
    if log != [] {
      NothingWithoutData(log[..|log| - 1]);
      HasOneMore(log);
    }
  }

  lemma WellFormedInOrder(base: Base, log: seq<Step>)
    requires log != [] && WellFormed(base, log)
    ensures InOrder(base, log[..|log| - 1], log[|log| - 1])
  {
    var before, last := log[..|log| - 1], log[|log| - 1];
    assert log == before + [last];
    Extend(base, before, last);
    OrderedBefore(log);
    AllowedBefore(base, log);
    hide Declared, AdTotal, BodyTotal, IsOrdered, AllAllowed;
  }

  /** The calls are accepted one after the other if and only if their sequence is
      of this form. */
  lemma {:induction false} ExactlyWellFormed(base: Base, log: seq<Step>)
    ensures IsHistory(base, log) <==> WellFormed(base, log)
    decreases |log|
  {
    hide Declared;
    if IsHistory(base, log) {
      HistoryIsOrdered(base, log);
      HistoryLengths(base, log);
      DataNeedsNonce(base, log);
      TotalsWithinDeclared(base, log);
    }
    if log != [] && WellFormed(base, log) {
      WellFormedBefore(base, log);
      WellFormedInOrder(base, log);
      ExactlyWellFormed(base, log[..|log| - 1]);
    }
  }

  /** Additional data and the body may be given in any fragments. */
  lemma Fragments(base: Base, log: seq<Step>, m: nat, n: nat)
    ensures IsHistory(base, log + [Body(m + n)]) <==> IsHistory(base, log + [Body(m), Body(n)])
    ensures IsHistory(base, log + [Ad(m + n)]) <==> IsHistory(base, log + [Ad(m), Ad(n)])
  {
    assert log + [Body(m), Body(n)] == log + [Body(m)] + [Body(n)];
    assert log + [Ad(m), Ad(n)] == log + [Ad(m)] + [Ad(n)];
    Extend(base, log, Body(m + n));
    Extend(base, log, Body(m));
    Extend(base, log + [Body(m)], Body(n));
    Extend(base, log, Ad(m + n));
    Extend(base, log, Ad(m));
    Extend(base, log + [Ad(m)], Ad(n));
  }

  /** Empty additional data is accepted for CCM before lengths are declared, and
      then they can no longer be: such an operation can never be completed. */
  lemma {:induction false} EmptyAdEndsCcm(log: seq<Step>, more: seq<Step>)
    requires IsHistory(Ccm, log + more) && HasAd(log) && !HasLengths(log)
    ensures !Completable(Ccm, log + more)
    decreases |more|
  {
    if more == [] {
      assert log + more == log;
    } else {
      var all := log + more;
      assert all[..|all| - 1] == log + more[..|more| - 1];
      EmptyAdEndsCcm(log, more[..|more| - 1]);
      HasOneMore(all);
      assert HasAd(log + more[..|more| - 1]) by {
        var i :| 0 <= i < |log| && log[i].Ad?;
        assert (log + more[..|more| - 1])[i].Ad?;
      }
      EmptyAdKeepsUndeclared(log, more[..|more| - 1]);
    }
  }

  lemma {:induction false} EmptyAdKeepsUndeclared(log: seq<Step>, more: seq<Step>)
    requires IsHistory(Ccm, log + more) && HasAd(log) && !HasLengths(log)
    ensures !HasLengths(log + more)
    decreases |more|
  {
    if more == [] {
      assert log + more == log;
    } else {
      var all := log + more;
      assert all[..|all| - 1] == log + more[..|more| - 1];
      EmptyAdKeepsUndeclared(log, more[..|more| - 1]);
      assert HasAd(log + more[..|more| - 1]) by {
        var i :| 0 <= i < |log| && log[i].Ad?;
        assert (log + more[..|more| - 1])[i].Ad?;
      }
      HasOneMore(all);
    }
  }

  /** One more step in a history, for the facts the operation object keeps. */
  lemma Extend(base: Base, log: seq<Step>, step: Step)
    ensures var l := log + [step];
            && (IsHistory(base, l) <==> IsHistory(base, log) && InOrder(base, log, step))
            && AdTotal(l) == AdTotal(log) + (if step.Ad? then step.length else 0)
            && BodyTotal(l) == BodyTotal(log) + (if step.Body? then step.length else 0)
            && (HasNonce(l) <==> HasNonce(log) || step.Nonce?)
            && (HasAd(l) <==> HasAd(log) || step.Ad?)
            && (HasBody(l) <==> HasBody(log) || step.Body?)
            && Declared(l) == if step.Lengths? then Some(step) else Declared(log)
  {
    var l := log + [step];
    assert l[..|l| - 1] == log;
    HasOneMore(l);
  }

  /** With lengths declared a message may be completed exactly when it has room
      for no further data; without, at any time unless the algorithm is CCM. */
  lemma CompleteWhenFull(base: Base, log: seq<Step>)
    requires IsHistory(base, log) && HasNonce(log)
    ensures HasLengths(log) ==>
        (Completable(base, log) <==> forall n: nat :: n > 0 ==> !InOrder(base, log, Ad(n)) && !InOrder(base, log, Body(n)))
    ensures !HasLengths(log) ==> (Completable(base, log) <==> base != Ccm)
  {
    TotalsWithinDeclared(base, log);
    if HasLengths(log) && !Completable(base, log) {
      var d := Declared(log).value;
      if AdTotal(log) < d.ad {
        assert InOrder(base, log, Ad(1));
      } else {
        assert InOrder(base, log, Body(1));
      }
    }
  }

  // --- Which operations can still be completed.

  /** Some further calls, all in order, lead to a message that may be completed. */
  ghost predicate CanComplete(base: Base, log: seq<Step>) {
    exists more: seq<Step> :: IsHistory(base, log + more) && Completable(base, log + more)
  }

  lemma CompletableNow(base: Base, log: seq<Step>)
    requires IsHistory(base, log) && Completable(base, log)
    ensures CanComplete(base, log)
  {
    assert log + [] == log;
  }

  lemma CompletableAfter(base: Base, log: seq<Step>, step: Step)
    requires CanComplete(base, log + [step])
    ensures CanComplete(base, log)
  {
    var more: seq<Step> :| IsHistory(base, log + [step] + more) && Completable(base, log + [step] + more);
    assert log + ([step] + more) == log + [step] + more;
  }

  /** With a nonce and the declared lengths reached but for the body. */
  lemma BodyCompletes(base: Base, log: seq<Step>)
    requires IsHistory(base, log) && HasNonce(log)
    requires match Declared(log) case Some(d) => AdTotal(log) == d.ad case None => base != Ccm
    ensures CanComplete(base, log)
  {
    TotalsWithinDeclared(base, log);
    if Declared(log).Some? && BodyTotal(log) < Declared(log).value.body {
      var step := Body(Declared(log).value.body - BodyTotal(log));
      Extend(base, log, step);
      CompletableNow(base, log + [step]);
      CompletableAfter(base, log, step);
    } else {
      CompletableNow(base, log);
    }
  }

  /** With a nonce, and lengths declared if the algorithm needs them. */
  lemma AdCompletes(base: Base, log: seq<Step>)
    requires IsHistory(base, log) && HasNonce(log)
    requires Declared(log).None? ==> base != Ccm
    ensures CanComplete(base, log)
  {
    TotalsWithinDeclared(base, log);
    if Declared(log).Some? && AdTotal(log) < Declared(log).value.ad {
      var step := Ad(Declared(log).value.ad - AdTotal(log));
      Extend(base, log, step);
      BodyCompletes(base, log + [step]);
      CompletableAfter(base, log, step);
    } else {
      BodyCompletes(base, log);
    }
  }

  lemma NonceCompletes(base: Base, log: seq<Step>)
    requires IsHistory(base, log) && base in {Gcm, Ccm, ChaChaPoly}
    requires Declared(log).None? ==> base != Ccm
    ensures CanComplete(base, log)
  {
    if HasNonce(log) {
      AdCompletes(base, log);
    } else {
      var step := Nonce(12);
      Extend(base, log, step);
      AdCompletes(base, log + [step]);
      CompletableAfter(base, log, step);
    }
  }

  /** Exactly the operations that gave additional data to CCM before declaring
      lengths are dead; every other one can still be completed. */
  lemma ExactlyCcmIsDead(base: Base, log: seq<Step>)
    requires IsHistory(base, log) && base in {Gcm, Ccm, ChaChaPoly}
    ensures CanComplete(base, log) <==> !(base == Ccm && HasAd(log) && !HasLengths(log))
  {
    if base == Ccm && HasAd(log) && !HasLengths(log) {
      forall more: seq<Step> | IsHistory(base, log + more)
        ensures !Completable(base, log + more)
      {
        EmptyAdEndsCcm(log, more);
      }
    } else if base == Ccm && !HasLengths(log) {
      TotalsWithinDeclared(base, log);
      var step := Lengths(0, 0);
      Extend(base, log, step);
      NonceCompletes(base, log + [step]);
      CompletableAfter(base, log, step);
    } else {
      NonceCompletes(base, log);
    }
  }

  /** A message that was handed to the driver to finish or verify. */
  datatype Message = Message(base: Base, log: seq<Step>)

  class Operation {
    var active: bool
    var base: Base
    var adRemaining: nat
    var bodyRemaining: nat
    var nonceSet: bool
    var lengthsSet: bool
    var adStarted: bool
    var bodyStarted: bool
    var isEncrypt: bool

    /** The accepted calls since setup, and every message that finish or verify
        has ever passed to the driver. */
    ghost var log: seq<Step>
    ghost var completed: seq<Message>

    ghost predicate Blank()
      reads this
    {
      && !active && base == NoBase && adRemaining == 0 == bodyRemaining
      && !nonceSet && !lengthsSet && !adStarted && !bodyStarted && !isEncrypt
    }

    /** The flags and counters are what the history says. */
    ghost predicate Follows()
      reads this
    {
      && IsHistory(base, log)
      && (nonceSet <==> HasNonce(log))
      && (adStarted <==> HasAd(log))
      && (bodyStarted <==> HasBody(log))
      && match Declared(log)
         case Some(d) => lengthsSet && adRemaining + AdTotal(log) == d.ad && bodyRemaining + BodyTotal(log) == d.body
         case None => !lengthsSet
    }

    ghost predicate Valid()
      reads this
    {
      && (if active then Follows() else Blank() && log == [])
      && forall m :: m in completed ==> IsHistory(m.base, m.log) && Completable(m.base, m.log)
    }

    constructor ()
      ensures Valid() && !active && completed == []
    {
      active, base, adRemaining, bodyRemaining := false, NoBase, 0, 0;
      nonceSet, lengthsSet, adStarted, bodyStarted, isEncrypt := false, false, false, false, false;
      log, completed := [], [];
    }

    /** psa_aead_abort. */
    method Abort()
      requires active || (Blank() && log == [])
      modifies this
      ensures Blank() && log == [] && completed == old(completed)
    {
      if !active {
        return;
      }
      active, base, adRemaining, bodyRemaining := false, NoBase, 0, 0;
      nonceSet, lengthsSet, adStarted, bodyStarted, isEncrypt := false, false, false, false, false;
      log := [];
    }

    /** psa_aead_setup, given the outcome of looking up the key and whether the
        driver's setup succeeds. A refused setup aborts even a running operation. */
    method Setup(encrypt: bool, alg: AlgorithmId, lookup: Status, drives: bool) returns (status: Status)
      requires Valid()
      modifies this
      ensures Valid() && completed == old(completed)
      ensures status == if alg.base == NoBase || alg.wildcard then InvalidArgument
                        else if old(active) then BadState
                        else if lookup != Success then lookup
                        else if alg.base == OtherAead then NotSupported
                        else if !TagLengthAllowed(alg.base, alg.tag) then InvalidArgument
                        else if !drives then HardwareFailure else Success
      ensures active <==> status == Success
      ensures status == Success ==> base == alg.base && isEncrypt == encrypt && log == []
    {
      status := SetupChecks(alg, lookup);
      if status == Success && !drives {
        status := HardwareFailure;
      }
      if status == Success {
        active, base, isEncrypt := true, alg.base, encrypt;
      } else {
        Abort();
      }
    }

    method SetupChecks(alg: AlgorithmId, lookup: Status) returns (status: Status)
      requires Valid()
      ensures status == if alg.base == NoBase || alg.wildcard then InvalidArgument
                        else if active then BadState
                        else if lookup != Success then lookup
                        else if alg.base == OtherAead then NotSupported
                        else if !TagLengthAllowed(alg.base, alg.tag) then InvalidArgument else Success
    {
      if alg.base == NoBase || alg.wildcard {
        return InvalidArgument;
      }
      if active {
        return BadState;
      }
      if nonceSet || lengthsSet || adStarted || bodyStarted {
        return BadState;
      }
      if lookup != Success {
        return lookup;
      }
      if alg.base == OtherAead {
        return NotSupported;
      }
      if !TagLengthAllowed(alg.base, alg.tag) {
        return InvalidArgument;
      }
      return Success;
    }

    /** What every data call promises: it succeeds exactly when it is in order
        (and the driver agrees), and otherwise the operation is gone. */
    twostate predicate Taken(step: Step, drives: bool, status: Status)
      reads this
    {
      && Valid() && completed == old(completed)
      && (status == Success <==> old(active) && InOrder(old(base), old(log), step) && drives)
      && (status == HardwareFailure <==> old(active) && InOrder(old(base), old(log), step) && !drives)
      && (status == Success ==> active && log == old(log) + [step] && base == old(base) && isEncrypt == old(isEncrypt))
      && (status != Success ==> !active)
    }

    /** psa_aead_set_nonce. */
    method SetNonce(length: nat, drives: bool) returns (status: Status)
      requires Valid()
      modifies this
      ensures Taken(Nonce(length), drives, status)
      ensures status == BadState <==> !old(active) || old(nonceSet)
    {
      Extend(base, log, Nonce(length));
      if !active {
        status := BadState;
      } else if nonceSet {
        status := BadState;
      } else if !NonceLengthAllowed(base, length) {
        status := InvalidArgument;
      } else {
        status := if drives then Success else HardwareFailure;
      }
      if status == Success {
        nonceSet := true;
        log := log + [Nonce(length)];
      } else {
        Abort();
      }
    }

    /** psa_aead_generate_nonce, for a required length that the base algorithm
        allows: only an encryption may have its nonce chosen for it. */
    method GenerateNonce(size: nat, required: nat, random: bool, drives: bool) returns (status: Status, length: nat)
      requires Valid() && (active ==> NonceLengthAllowed(base, required))
      modifies this
      ensures Valid() && completed == old(completed)
      ensures status == if !old(active) || old(nonceSet) || !old(isEncrypt) then BadState
                        else if size < required then BufferTooSmall
                        else if !random || !drives then HardwareFailure else Success
      ensures status == Success ==> length == required && active && log == old(log) + [Nonce(required)]
      ensures status != Success ==> length == 0 && !active
    {
      length := 0;
      if !active {
        status := BadState;
      } else if nonceSet || !isEncrypt {
        status := BadState;
      } else if size < required {
        status := BufferTooSmall;
      } else if !random {
        status := HardwareFailure;
      } else {
        status := SetNonce(required, drives);
      }
      if status == Success {
        length := required;
      } else {
        Abort();
      }
    }

    /** psa_aead_set_lengths. */
    method SetLengths(ad: nat, body: nat, drives: bool) returns (status: Status)
      requires Valid()
      modifies this
      ensures Taken(Lengths(ad, body), drives, status)
      ensures status == BadState <==> !old(active) || old(lengthsSet) || old(adStarted) || old(bodyStarted)
    {
      Extend(base, log, Lengths(ad, body));
      TotalsIfActive();
      if !active {
        status := BadState;
      } else if lengthsSet || adStarted || bodyStarted {
        status := BadState;
      } else if !LengthsAllowed(base, ad, body) {
        status := InvalidArgument;
      } else {
        status := if drives then Success else HardwareFailure;
      }
      if status == Success {
        adRemaining := ad;
        bodyRemaining := body;
        lengthsSet := true;
        log := log + [Lengths(ad, body)];
      } else {
        Abort();
      }
    }

    lemma TotalsIfActive()
      requires Valid()
      ensures active && !HasAd(log) ==> AdTotal(log) == 0
      ensures active && !HasBody(log) ==> BodyTotal(log) == 0
    {
      if active {
        TotalsWithinDeclared(base, log);
      }
    }

    /** psa_aead_update_ad. */
    method UpdateAd(length: nat, drives: bool) returns (status: Status)
      requires Valid()
      modifies this
      ensures Taken(Ad(length), drives || length == 0, status)
      ensures status == InvalidArgument ==> old(lengthsSet) && old(adRemaining) < length
    {
      Extend(base, log, Ad(length));
      if !active {
        status := BadState;
      } else if !nonceSet || bodyStarted {
        status := BadState;
      } else if length == 0 {
        status := Success;
      } else if lengthsSet && adRemaining < length {
        status := InvalidArgument;
      } else if !lengthsSet && base == Ccm {
        status := BadState;
      } else {
        if lengthsSet {
          adRemaining := adRemaining - length;
        }
        status := if drives then Success else HardwareFailure;
      }
      if status == Success {
        adStarted := true;
        log := log + [Ad(length)];
      } else {
        Abort();
      }
    }

    /** psa_aead_update. */
    method Update(length: nat, drives: bool) returns (status: Status)
      requires Valid()
      modifies this
      ensures Taken(Body(length), drives, status)
      ensures status == InvalidArgument ==>
          old(lengthsSet) && (old(adRemaining) != 0 || old(bodyRemaining) < length)
    {
      Extend(base, log, Body(length));
      if !active {
        status := BadState;
      } else if !nonceSet {
        status := BadState;
      } else if lengthsSet && adRemaining != 0 {
        status := InvalidArgument;
      } else if lengthsSet && bodyRemaining < length {
        status := InvalidArgument;
      } else if !lengthsSet && base == Ccm {
        status := BadState;
      } else {
        if lengthsSet {
          bodyRemaining := bodyRemaining - length;
        }
        status := if drives then Success else HardwareFailure;
      }
      if status == Success {
        bodyStarted := true;
        log := log + [Body(length)];
      } else {
        Abort();
      }
    }

    /** psa_aead_final_checks. */
    method FinalChecks() returns (status: Status)
      requires Valid()
      ensures status == Success <==> active && Completable(base, log)
      ensures status == Success || status == BadState || status == InvalidArgument
      ensures status == InvalidArgument ==> lengthsSet && (adRemaining != 0 || bodyRemaining != 0)
    {
      if base == Ccm && !lengthsSet {
        return BadState;
      }
      if !active || !nonceSet {
        return BadState;
      }
      if lengthsSet && (adRemaining != 0 || bodyRemaining != 0) {
        return InvalidArgument;
      }
      return Success;
    }

    /** psa_aead_finish (`encrypt`) and psa_aead_verify: the driver is reached
        exactly when the message is completable and the direction is right, and
        the operation is over in any case. */
    method Complete(encrypt: bool, outcome: Status) returns (status: Status)
      requires Valid()
      modifies this
      ensures Valid() && !active
      ensures var reached := old(active) && Completable(old(base), old(log)) && old(isEncrypt) == encrypt;
              && (reached ==> status == outcome && completed == old(completed) + [Message(old(base), old(log))])
              && (!reached ==> status != Success && completed == old(completed))
    {
      status := FinalChecks();
      if status == Success && isEncrypt != encrypt {
        status := BadState;
      }
      if status == Success {
        completed := completed + [Message(base, log)];
        status := outcome;
      }
      Abort();
    }
  }

  /** Over any run: a message that reached the driver has its parts in order and,
      where lengths were declared, exactly the declared amounts; with CCM they
      always were. */
  lemma CompletedMessages(operation: Operation, m: Message)
    requires operation.Valid() && m in operation.completed
    ensures IsOrdered(m.log) && HasNonce(m.log)
    ensures forall d :: d in m.log && d.Lengths? ==> AdTotal(m.log) == d.ad && BodyTotal(m.log) == d.body
    ensures m.base == Ccm ==> HasLengths(m.log)
  {
    HistoryIsOrdered(m.base, m.log);
    forall d | d in m.log && d.Lengths?
      ensures Declared(m.log) == Some(d)
    {
      DeclaredIs(m.log, d);
    }
  }

  lemma {:induction false} DeclaredIs(log: seq<Step>, d: Step)
    requires IsOrdered(log) && d in log && d.Lengths?
    ensures Declared(log) == Some(d)
  {
    var before, last := log[..|log| - 1], log[|log| - 1];
    assert forall i :: 0 <= i < |before| ==> log[i] == before[i];
    if last.Lengths? {
      assert log[|log| - 1] == last;
    } else {
      DeclaredIs(before, d);
    }
  }
}
