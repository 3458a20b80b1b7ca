// Deriving a private key for a short Weierstrass curve from a key-derivation
// stream by testing candidates (FIPS 186-4, section B.4.2): a rejection loop
// that ends because every draw spends capacity.
module EccDerive {
  import opened Bytes
  import opened Options
  import opened KdfSpec
  import opened KdfInputs
  import opened Kdf

  /** Candidate keys are drawn for the order N of m bits, m > 0. */
  predicate IsOrder(N: nat, m: nat) {
    m > 1 && Pow2(m - 1) <= N < Pow2(m)
  }

  function BytesOf(m: nat): nat {
    (m + 7) / 8
  }

  /** The candidate drawn at a position of the stream: the big-endian value of
      the next bytes, reduced to m bits. */
  function Candidate(p: Prf, src: Source, position: nat, m: nat): nat
    requires IsSource(p, src)
  {
    GetBe(Prefix(p, src, position + BytesOf(m))[position..]) % Pow2(m)
  }

  datatype Choice = Choice(k: nat, after: Cursor)

  /** The first candidate not above N - 2, if the capacity and the stream last
      until then. */
  function FirstAccepted(p: Prf, src: Source, c: Cursor, N: nat, m: nat): Option<Choice>
    requires IsSource(p, src) && m > 0
    decreases c.capacity
  {
    var next := After(p, src, c, Output(BytesOf(m)));
    if !Granted(p, src, c, BytesOf(m)) then None
    else if Candidate(p, src, c.position, m) <= N - 2 then Some(Choice(Candidate(p, src, c.position, m), next))
    else FirstAccepted(p, src, next, N, m)
  }

  /** Where draw number i starts. */
  function DrawAt(start: nat, i: nat, m: nat): nat {
    start + BytesOf(m) * i
  }

  lemma DrawAtNext(start: nat, i: nat, m: nat)
    ensures DrawAt(start + BytesOf(m), i, m) == DrawAt(start, i + 1, m)
  {
    TimesNext(BytesOf(m), i);
  }

  ghost predicate Rejected(p: Prf, src: Source, start: nat, draws: nat, N: nat, m: nat)
    requires IsSource(p, src)
  {
    forall i {:trigger DrawAt(start, i, m)} :: 0 <= i < draws ==> Candidate(p, src, DrawAt(start, i, m), m) > N - 2
  }

  lemma RejectedLonger(p: Prf, src: Source, start: nat, draws: nat, N: nat, m: nat)
    requires IsSource(p, src) && Candidate(p, src, start, m) > N - 2
    requires Rejected(p, src, start + BytesOf(m), draws, N, m)
    ensures Rejected(p, src, start, draws + 1, N, m)
  {
    hide Candidate;
    forall i: nat | i < draws + 1
      ensures Candidate(p, src, DrawAt(start, i, m), m) > N - 2
    {
      if i > 0 {
        DrawAtNext(start, i - 1, m);
        assert Candidate(p, src, DrawAt(start + BytesOf(m), i - 1, m), m) > N - 2;
      }
    }
  }

  /** The choice is in range, it is the draw that follows `draws` rejected ones,
      and the bytes spent are those of all these draws. */
  lemma {:induction false} FirstAcceptedIsFirst(p: Prf, src: Source, c: Cursor, N: nat, m: nat) returns (draws: nat)
    requires IsSource(p, src) && m > 0
    requires FirstAccepted(p, src, c, N, m).Some?
    ensures FirstAccepted(p, src, c, N, m).value.k == Candidate(p, src, DrawAt(c.position, draws, m), m) <= N - 2
    ensures Rejected(p, src, c.position, draws, N, m)
    ensures var end := FirstAccepted(p, src, c, N, m).value.after;
            end.position == DrawAt(c.position, draws + 1, m) && end.position + end.capacity == c.position + c.capacity
    decreases c.capacity
  {
    hide Candidate;
    var next := After(p, src, c, Output(BytesOf(m)));
    if Candidate(p, src, c.position, m) <= N - 2 {
      draws := 0;
      TimesNext(BytesOf(m), 0);
      assert DrawAt(c.position, 0, m) == c.position;
    } else {
      assert FirstAccepted(p, src, c, N, m) == FirstAccepted(p, src, next, N, m);
      var later := FirstAcceptedIsFirst(p, src, next, N, m);
      draws := later + 1;
      RejectedLonger(p, src, c.position, later, N, m);
      DrawAtNext(c.position, later, m);
      DrawAtNext(c.position, later + 1, m);
    }
  }

  lemma {:induction false} Pow2Sum(a: nat, b: nat)
    ensures Pow2(a + b) == Pow2(a) * Pow2(b)
  {
    if a > 0 {
      Pow2Sum(a - 1, b);
    }
  }

  lemma {:induction false} Pow256IsPow2(n: nat)
    ensures Pow256(n) == Pow2(8 * n)
  {
    if n > 0 {
      Pow256IsPow2(n - 1);
      Pow2Sum(8, 8 * (n - 1));
      assert Pow2(8) == 256;
    }
  }

  /** Reducing the high part of a number reduces the number. */
  lemma ReduceHigh(b: nat, mask: nat, unit: nat, low: nat)
    requires mask > 0 && unit > 0 && low < unit
    ensures (unit * b + low) % (unit * mask) == unit * (b % mask) + low
  {
    var q, r := b / mask, b % mask;
    Distribute(unit, mask, q, r);
    TimesMonotone(unit, r + 1, mask);
    assert unit * (r + 1) == unit * r + unit;
    QuotientUnique(unit * b + low, unit * mask, q, unit * r + low);
  }

  lemma Distribute(unit: nat, mask: nat, q: nat, r: nat)
    ensures unit * (mask * q + r) == unit * mask * q + unit * r
  {
    assert unit * (mask * q + r) == unit * (mask * q) + unit * r;
    assert unit * (mask * q) == unit * mask * q;
  }

  lemma RemainderAtMost(x: nat, d: nat)
    requires d > 0
    ensures x % d <= x
  {
    assert x == d * (x / d) + x % d;
  }

  /** Keeping the low bits of a byte: its bitwise and with (1 << bits) - 1. */
  function LowBits(b: byte, bits: nat): (r: byte) {
    RemainderAtMost(b, Pow2(bits));
    b % Pow2(bits)
  }

  /** The first byte with its excess high bits cleared, when there are any. */
  function Masked(s: seq<byte>, m: nat): seq<byte>
    requires m > 0 && |s| == BytesOf(m)
  {
    if m % 8 != 0 then [LowBits(s[0], m % 8)] + s[1..] else s
  }

  /** A power of two as whole bytes and the bits above them. */
  lemma Pow2OfWidth(m: nat)
    requires m > 0
    ensures m % 8 == 0 ==> Pow2(m) == Pow256(BytesOf(m))
    ensures m % 8 != 0 ==> Pow2(m) == Pow256(BytesOf(m) - 1) * Pow2(m % 8)
  {
    var low, high := 8 * (m / 8), m % 8;
    assert m == low + high;
    Pow256IsPow2(m / 8);
    Pow2Sum(low, high);
  }

  /** Clearing the excess bits reduces the number to m bits. */
  lemma MaskReduces(s: seq<byte>, m: nat)
    requires m > 0 && |s| == BytesOf(m)
    ensures GetBe(Masked(s, m)) == GetBe(s) % Pow2(m)
  {
    Pow2OfWidth(m);
    if m % 8 == 0 {
      PutGetBe(s);
      QuotientUnique(GetBe(s), Pow2(m), 0, GetBe(s));
    } else {
      MaskFirst(s[0], s[1..], m % 8);
      assert s == [s[0]] + s[1..];
    }
  }

  lemma MaskFirst(first: byte, rest: seq<byte>, bits: nat)
    ensures GetBe([LowBits(first, bits)] + rest) == GetBe([first] + rest) % (Pow256(|rest|) * Pow2(bits))
  {
    var unit, low := Pow256(|rest|), GetBe(rest);
    assert low < unit by {
      PutGetBe(rest);
    }
    assert GetBe([first] + rest) == unit * first + low by {
      LeadingByte(first, rest);
    }
    assert GetBe([LowBits(first, bits)] + rest) == unit * LowBits(first, bits) + low by {
      LeadingByte(LowBits(first, bits), rest);
    }
    ReduceHigh(first, Pow2(bits), unit, low);
  }

  /** What the first byte contributes. */
  lemma LeadingByte(b: byte, rest: seq<byte>)
    ensures GetBe([b] + rest) == Pow256(|rest|) * b + GetBe(rest)
  {
    assert [b][..0] == [];
    assert GetBe([b]) == b;
    GetBeConcat([b], rest);
  }

  /** A key in range is written without loss in as many bytes as the order has. */
  lemma KeyFits(k: nat, N: nat, m: nat)
    requires IsOrder(N, m) && k <= N - 2
    ensures 1 <= k + 1 <= N - 1
    ensures GetBe(PutBe(k + 1, BytesOf(m))) == k + 1
  {
    var w := BytesOf(m);
    Pow256IsPow2(w);
    Pow2Monotone(m, 8 * w);
    assert N >= 2 by {
      Pow2Monotone(1, m - 1);
    }
    GetPutBe(k + 1, w);
  }

  /** The key that an operation in this situation should derive, if any. */
  ghost function Search(alg: Algorithm, inputs: seq<Input>, c: Cursor, N: nat, m: nat): Option<Choice>
    requires m > 0
  {
    if alg.Derive? && IsPrf(alg.prf) && Prepared(alg.prf, alg.kind, inputs)
       && IsSource(alg.prf, Derivation(alg.prf, alg.kind, inputs))
    then FirstAccepted(alg.prf, Derivation(alg.prf, alg.kind, inputs), c, N, m)
    else None
  }

  /** One served draw: it is taken, or the search goes on behind it. */
  lemma SearchStep(alg: Algorithm, inputs: seq<Input>, c: Cursor, after: Cursor, N: nat, m: nat, data: seq<byte>)
    requires m > 0 && |data| == BytesOf(m)
    requires alg.Derive? && Served(alg.prf, alg.kind, inputs, c, data)
    requires after.position == c.position + |data| && after.capacity == c.capacity - |data|
    ensures var k := GetBe(Masked(data, m));
            Search(alg, inputs, c, N, m) == if N - 2 < k then Search(alg, inputs, after, N, m) else Some(Choice(k, after))
  {
    MaskReduces(data, m);
    var src := Derivation(alg.prf, alg.kind, inputs);
    ServedData(alg.prf, src, c, data);
    assert GetBe(Masked(data, m)) == Candidate(alg.prf, src, c.position, m);
    FirstAcceptedNext(alg.prf, src, c, after, N, m);
    hide Candidate, FirstAccepted, GetBe, Masked, Derivation, Prepared;
  }

  lemma ServedData(p: Prf, src: Source, c: Cursor, data: seq<byte>)
    requires IsSource(p, src) && data == Answer(p, src, c, Output(|data|)) && Granted(p, src, c, |data|)
    ensures data == Prefix(p, src, c.position + |data|)[c.position..]
  {
  }

  lemma FirstAcceptedNext(p: Prf, src: Source, c: Cursor, after: Cursor, N: nat, m: nat)
    requires IsSource(p, src) && m > 0 && Granted(p, src, c, BytesOf(m))
    requires after == Cursor(c.position + BytesOf(m), c.capacity - BytesOf(m))
    ensures var k := Candidate(p, src, c.position, m);
            FirstAccepted(p, src, c, N, m) == if N - 2 < k then FirstAccepted(p, src, after, N, m) else Some(Choice(k, after))
  {
    hide Candidate;
    assert After(p, src, c, Output(BytesOf(m))) == after;
  }

  /** A refused draw with reliable drivers: there is nothing left to choose from. */
  lemma SearchEnds(alg: Algorithm, inputs: seq<Input>, c: Cursor, N: nat, m: nat, status: Status)
    requires m > 0 && status != Success
    requires alg.Derive? ==>
        && IsPrf(alg.prf)
        && (BytesOf(m) > c.capacity || Reported(alg.prf, alg.kind, inputs, c.position + BytesOf(m), true, status))
    ensures Search(alg, inputs, c, N, m) == None
  {
  }

  /** One turn of the loop: draw, clear the excess bits, read as big-endian. */
  method DrawCandidate(operation: KeyDerivation, reliable: bool, N: nat, m: nat, data: array<byte>)
      returns (status: Status, k: nat)
    requires operation.Valid() && m > 0 && data.Length == BytesOf(m)
    modifies operation, data
    ensures operation.Valid() && operation.alg == old(operation.alg)
    ensures status == Success ==>
        && operation.inputs == old(operation.inputs) && operation.capacity < old(operation.capacity)
        && Search(operation.alg, operation.inputs, old(operation.Position()), N, m)
           == if N - 2 < k then Search(operation.alg, operation.inputs, operation.Position(), N, m)
              else Some(Choice(k, operation.Position()))
    ensures reliable && status != Success ==>
        Search(operation.alg, old(operation.inputs), old(operation.Position()), N, m) == None
  {
    hide Search, Tracks, IsPrf, Served, Reported;
    ghost var alg, inputs, c := operation.alg, operation.inputs, operation.Position();
    k := 0;
    status := operation.OutputBytes(reliable, data);
    if status != Success {
      assert reliable ==> Search(alg, inputs, c, N, m) == None by {
        if reliable {
          SearchEnds(alg, inputs, c, N, m, status);
        }
      }
      return;
    }
    ghost var drawn, after := data[..], operation.Position();
    ghost var candidate := GetBe(Masked(drawn, m));
    assert Search(alg, inputs, c, N, m)
        == if N - 2 < candidate then Search(alg, inputs, after, N, m) else Some(Choice(candidate, after)) by {
      SearchStep(alg, inputs, c, after, N, m, drawn);
    }
    if m % 8 != 0 {
      data[0] := LowBits(data[0], m % 8);
    }
    assert data[..] == Masked(drawn, m);
    k := GetBe(data[..]);
  }

  /** The order N of a group and its size of m bits. */
  datatype Order = Order(N: nat, m: nat)

  /** psa_generate_derived_ecc_key_weierstrass_helper: the private key is one
      more than the first acceptable candidate of the operation's stream, and
      running out of capacity is what ends the search otherwise. There may be no
      group of the requested kind and size; `arithmetic` is the result of the
      big-number calls, the first ones before any draw and the next ones after
      each draw and after the search. */
  method GenerateDerivedKey(operation: KeyDerivation, group: Option<Order>, reliable: bool, allocates: bool,
                            arithmetic: nat -> Status)
      returns (status: Status, key: Option<seq<byte>>)
    requires operation.Valid()
    requires group.Some? ==> IsOrder(group.value.N, group.value.m)
    modifies operation
    ensures operation.Valid()
    ensures status != Success ==> key == None
    ensures group.None? ==> status == InvalidArgument && unchanged(operation)
    ensures group.Some? && arithmetic(0) != Success ==> status == arithmetic(0) && unchanged(operation)
    ensures group.Some? && arithmetic(0) == Success && !allocates ==>
        status == InsufficientMemory && unchanged(operation)
    ensures status == Success ==>
        && group.Some?
        && var found := Search(old(operation.alg), old(operation.inputs), old(operation.Position()),
                               group.value.N, group.value.m);
           found.Some? && key == Some(PutBe(found.value.k + 1, BytesOf(group.value.m)))
           && operation.Position() == found.value.after
    ensures status != Success && reliable && allocates && group.Some? && (forall i: nat :: arithmetic(i) == Success) ==>
        Search(old(operation.alg), old(operation.inputs), old(operation.Position()), group.value.N, group.value.m) == None
  {
    hide Search, Tracks, IsPrf;
    key := None;
    if group.None? {
      return InvalidArgument, None;
    }
    if arithmetic(0) != Success {
      return arithmetic(0), None;
    }
    if !allocates {
      return InsufficientMemory, None;
    }
    var N, m := group.value.N, group.value.m;
    var width := BytesOf(m);
    var data := new byte[width](_ => 0);
    var k := 0;
    var outOfRange := true;
    ghost var alg, inputs := operation.alg, operation.inputs;
    ghost var found := Search(alg, inputs, operation.Position(), N, m);
    var draws: nat := 0;
    while outOfRange
      invariant operation.Valid() && operation.alg == alg && operation.inputs == inputs
      invariant outOfRange ==> found == Search(alg, inputs, operation.Position(), N, m)
      invariant !outOfRange ==> found == Some(Choice(k, operation.Position()))
      decreases if outOfRange then operation.capacity + 1 else 0
    {
      status, k := DrawCandidate(operation, reliable, N, m, data);
      if status != Success {
        return;
      }
      draws := draws + 1;
      if arithmetic(draws) != Success {
        return arithmetic(draws), None;
      }
      outOfRange := N - 2 < k;
    }
    if arithmetic(draws + 1) != Success {
      return arithmetic(draws + 1), None;
    }
    status, key := Success, Some(PutBe(k + 1, width));
  }
}
