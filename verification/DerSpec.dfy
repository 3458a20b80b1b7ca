// ECDSA signatures as DER (X.690, sections 8.1.3, 8.3 and 10.1) and as the
// fixed-width concatenation of their two integers: an encoder and a parser on
// byte strings, that they undo each other, and exactly what the parser takes.
module DerSpec {
  import opened Bytes

  datatype DerStatus =
    | Success
    | InvalidData
    | BufferTooSmall
    | OutOfData
    | UnexpectedTag
    | InvalidLength
    | LengthMismatch

  const INTEGER_TAG: byte := 0x02
  const SEQUENCE_TAG: byte := 0x30
  const LENGTH_LIMIT: nat := 0xffff_ffff

  /** PSA_VENDOR_ECC_MAX_CURVE_BITS, with every curve configured in. */
  const MAX_CURVE_BITS: nat := 521

  function BitsToBytes(bits: nat): nat {
    (bits + 7) / 8
  }

  // --- Encoding.

  /** How many bytes a number takes without leading zeros. */
  function ByteCount(n: nat): nat {
    if n == 0 then 0 else 1 + ByteCount(n / 256)
  }

  /** The shortest definite form of a length. */
  function LengthBytes(n: nat): (r: seq<byte>)
    requires n <= LENGTH_LIMIT
    ensures |r| == if n < 0x80 then 1 else 1 + ByteCount(n)
  {
    ByteCountBound(n, 4);
    if n < 0x80 then [n] else [0x80 + ByteCount(n)] + PutBe(n, ByteCount(n))
  }

  function Tlv(tag: byte, content: seq<byte>): seq<byte>
    requires |content| <= LENGTH_LIMIT
  {
    [tag] + LengthBytes(|content|) + content
  }

  function StripZeros(s: seq<byte>): (r: seq<byte>)
    ensures |r| <= |s|
    ensures r != [] ==> r[0] != 0
  {
    if s == [] || s[0] != 0 then s else StripZeros(s[1..])
  }

  /** A number without leading zeros, with a zero in front if the first bit would
      otherwise say that it is negative. */
  function Signed(stripped: seq<byte>): seq<byte> {
    if stripped != [] && stripped[0] >= 0x80 then [0] + stripped else stripped
  }

  /** The content of a non-negative INTEGER. */
  function IntegerContent(s: seq<byte>): (r: seq<byte>)
    ensures |r| <= |s| + 1
  {
    Signed(StripZeros(s))
  }

  function EncodeInteger(s: seq<byte>): seq<byte>
    requires |s| < LENGTH_LIMIT
  {
    Tlv(INTEGER_TAG, IntegerContent(s))
  }

  /** Both integers together still have a length that can be written. */
  predicate Encodable(r: seq<byte>, s: seq<byte>) {
    |r| < LENGTH_LIMIT && |s| < LENGTH_LIMIT && |EncodeInteger(r) + EncodeInteger(s)| <= LENGTH_LIMIT
  }

  function EncodeSignature(r: seq<byte>, s: seq<byte>): seq<byte>
    requires Encodable(r, s)
  {
    Tlv(SEQUENCE_TAG, EncodeInteger(r) + EncodeInteger(s))
  }

  // --- Parsing.

  datatype Header = Header(consumed: nat, length: nat) | Malformed(error: DerStatus)

  /** mbedtls_asn1_get_len on the input that is left. */
  function LengthHeader(s: seq<byte>): (h: Header)
    ensures h.Header? ==> 1 <= h.consumed && h.consumed + h.length <= |s|
  {
    if s == [] then Malformed(OutOfData)
    else if s[0] < 0x80 then
      if s[0] > |s| - 1 then Malformed(OutOfData) else Header(1, s[0])
    else
      var n := s[0] - 0x80;
      if n == 0 || n > 4 then Malformed(InvalidLength)
      else if |s| <= n then Malformed(OutOfData)
      else
        var length := GetBe(s[1..n + 1]);
        if length > |s| - (n + 1) then Malformed(OutOfData) else Header(n + 1, length)
  }

  /** mbedtls_asn1_get_tag. */
  function TagHeader(s: seq<byte>, tag: byte): (h: Header)
    ensures h.Header? ==> 2 <= h.consumed && h.consumed + h.length <= |s|
  {
    if s == [] then Malformed(OutOfData)
    else if s[0] != tag then Malformed(UnexpectedTag)
    else
      match LengthHeader(s[1..])
      case Header(consumed, length) => Header(consumed + 1, length)
      case Malformed(error) => Malformed(error)
  }

  /** The content without its one permitted leading zero. */
  function Unpadded(c: seq<byte>): seq<byte> {
    if c != [] && c[0] == 0 then c[1..] else c
  }

  /** The contents of INTEGER that the decoder takes for a coordinate of w bytes. */
  predicate Acceptable(c: seq<byte>, w: nat) {
    && c != []
    && c[0] < 0x80
    && (|c| > 1 && c[0] == 0 ==> c[1] != 0)
    && |Unpadded(c)| <= w
  }

  function FixedWidth(c: seq<byte>, w: nat): (r: seq<byte>)
    requires |Unpadded(c)| <= w
    ensures |r| == w
  {
    Zeros(w - |Unpadded(c)|) + Unpadded(c)
  }

  datatype Coordinate = Coordinate(consumed: nat, raw: seq<byte>) | Rejected(error: DerStatus)

  /** convert_der_to_raw_single_int. */
  function DecodeInteger(s: seq<byte>, w: nat): (r: Coordinate)
    ensures r.Coordinate? ==> r.consumed <= |s| && |r.raw| == w
  {
    match TagHeader(s, INTEGER_TAG)
    case Malformed(error) => Rejected(error)
    case Header(consumed, length) =>
      var c := s[consumed..consumed + length];
      if !Acceptable(c, w) then Rejected(InvalidData) else Coordinate(consumed + length, FixedWidth(c, w))
  }

  /** Both coordinates, one behind the other. */
  function DecodePair(s: seq<byte>, w: nat): (r: Coordinate)
    ensures r.Coordinate? ==> r.consumed <= |s| && |r.raw| == 2 * w
  {
    var first := DecodeInteger(s, w);
    if first.Rejected? then first else
      var second := DecodeInteger(s[first.consumed..], w);
      if second.Rejected? then second
      else Coordinate(first.consumed + second.consumed, first.raw + second.raw)
  }

  datatype Decoded = Decoded(raw: seq<byte>) | Undecodable(error: DerStatus)

  /** The parsing in mbedtls_ecdsa_der_to_raw, for coordinates of w bytes. */
  function DecodeSignature(der: seq<byte>, w: nat): Decoded {
    var h := TagHeader(der, SEQUENCE_TAG);
    if h.Malformed? then Undecodable(h.error) else
      var pair := DecodePair(der[h.consumed..h.consumed + h.length], w);
      if pair.Rejected? then Undecodable(pair.error)
      else if h.consumed + pair.consumed != |der| then Undecodable(LengthMismatch)
      else Decoded(pair.raw)
  }

  // --- What is written can be read.

  lemma {:induction false} ByteCountBound(n: nat, k: nat)
    requires n < Pow256(k)
    ensures ByteCount(n) <= k
  {
    if n > 0 {
      ByteCountBound(n / 256, k - 1);
    }
  }

  lemma {:induction false} ByteCountEnough(n: nat)
    ensures n < Pow256(ByteCount(n))
  {
    if n > 0 {
      ByteCountEnough(n / 256);
    }
  }

  /** The definite forms of a length, in up to four bytes. */
  predicate IsLength(b: seq<byte>, n: nat) {
    (|b| == 1 && n < 0x80 && b[0] == n)
    || (2 <= |b| <= 5 && b[0] == 0x80 + (|b| - 1) && GetBe(b[1..]) == n)
  }

  lemma LengthBytesIsLength(n: nat)
    requires n <= LENGTH_LIMIT
    ensures IsLength(LengthBytes(n), n)
  {
    if n >= 0x80 {
      ByteCountBound(n, 4);
      ByteCountEnough(n);
      GetPutBe(n, ByteCount(n));
      assert ([0x80 + ByteCount(n)] + PutBe(n, ByteCount(n)))[1..] == PutBe(n, ByteCount(n));
    }
  }

  /** A tag, any definite length and that many bytes are what the header parser
      takes, and it takes nothing else. */
  lemma TagHeaderComplete(tag: byte, l: seq<byte>, content: seq<byte>, rest: seq<byte>)
    requires IsLength(l, |content|)
    ensures TagHeader([tag] + l + content + rest, tag) == Header(1 + |l|, |content|)
  {
    var s := [tag] + l + content + rest;
    assert s[1..] == l + content + rest;
    assert |l| > 1 ==> (l + content + rest)[1..|l|] == l[1..];
  }

  lemma TagHeaderSound(s: seq<byte>, tag: byte)
    requires TagHeader(s, tag).Header?
    ensures var h := TagHeader(s, tag);
            && s[0] == tag
            && IsLength(s[1..h.consumed], h.length)
  {
    var h := TagHeader(s, tag);
    var l := s[1..h.consumed];
    assert l == s[1..][..h.consumed - 1];
    assert |l| > 1 ==> l[1..] == s[1..][1..h.consumed - 1];
  }

  lemma {:induction false} StripZerosValue(s: seq<byte>)
    ensures s == Zeros(|s| - |StripZeros(s)|) + StripZeros(s)
    ensures StripZeros(s) == [] <==> forall i :: 0 <= i < |s| ==> s[i] == 0
  {
    if s != [] && s[0] == 0 {
      StripZerosValue(s[1..]);
      assert s == [0] + s[1..];
      assert Zeros(|s| - |StripZeros(s)|) == [0] + Zeros(|s[1..]| - |StripZeros(s)|);
      assert forall i :: 0 < i < |s| ==> s[i] == s[1..][i - 1];
    }
  }

  predicate IsZero(s: seq<byte>) {
    forall i :: 0 <= i < |s| ==> s[i] == 0
  }

  // --- Exactly what is accepted.

  /** The length fields and the contents of an accepted signature. */
  datatype Parts = Parts(l: seq<byte>, lr: seq<byte>, r: seq<byte>, ls: seq<byte>, s: seq<byte>)

  function Body(p: Parts): seq<byte> {
    ([INTEGER_TAG] + p.lr + p.r) + ([INTEGER_TAG] + p.ls + p.s)
  }

  predicate IsPair(p: Parts, w: nat) {
    && IsLength(p.lr, |p.r|) && Acceptable(p.r, w)
    && IsLength(p.ls, |p.s|) && Acceptable(p.s, w)
  }

  /** A SEQUENCE of two acceptable INTEGERs that fill the input. */
  predicate IsSignature(der: seq<byte>, p: Parts, w: nat) {
    && der == [SEQUENCE_TAG] + p.l + Body(p)
    && IsLength(p.l, |Body(p)|)
    && IsPair(p, w)
  }

  lemma DecodeIntegerComplete(l: seq<byte>, c: seq<byte>, rest: seq<byte>, w: nat)
    requires IsLength(l, |c|) && Acceptable(c, w)
    ensures DecodeInteger([INTEGER_TAG] + l + c + rest, w) == Coordinate(1 + |l| + |c|, FixedWidth(c, w))
  {
    TagHeaderComplete(INTEGER_TAG, l, c, rest);
    assert ([INTEGER_TAG] + l + c + rest)[1 + |l|..1 + |l| + |c|] == c;
  }

  lemma DecodeIntegerSound(s: seq<byte>, w: nat) returns (l: seq<byte>, c: seq<byte>)
    requires DecodeInteger(s, w).Coordinate?
    ensures IsLength(l, |c|) && Acceptable(c, w)
    ensures s[..DecodeInteger(s, w).consumed] == [INTEGER_TAG] + l + c
    ensures DecodeInteger(s, w).raw == FixedWidth(c, w)
  {
    TagHeaderSound(s, INTEGER_TAG);
    var h := TagHeader(s, INTEGER_TAG);
    l, c := s[1..h.consumed], s[h.consumed..h.consumed + h.length];
    ThreeParts(s, h.consumed, h.length);
  }

  lemma ThreeParts(s: seq<byte>, start: nat, length: nat)
    requires 1 <= start && start + length <= |s|
    ensures s[..start + length] == [s[0]] + s[1..start] + s[start..start + length]
  {
  }

  lemma WholeSlice(s: seq<byte>)
    ensures s[..|s|] == s
  {
  }

  lemma Cut(a: seq<byte>, b: seq<byte>)
    ensures (a + b)[..|a|] == a && (a + b)[|a|..] == b
  {
  }

  lemma DecodePairComplete(p: Parts, w: nat)
    requires IsPair(p, w)
    ensures DecodePair(Body(p), w) == Coordinate(|Body(p)|, FixedWidth(p.r, w) + FixedWidth(p.s, w))
  {
    var er, es := [INTEGER_TAG] + p.lr + p.r, [INTEGER_TAG] + p.ls + p.s;
    hide DecodeInteger;
    DecodeIntegerComplete(p.lr, p.r, es, w);
    Cut(er, es);
    Cut(es, []);
    assert es + [] == es;
    DecodeIntegerComplete(p.ls, p.s, [], w);
  }

  lemma DecodePairSound(body: seq<byte>, l: seq<byte>, w: nat) returns (p: Parts)
    requires DecodePair(body, w).Coordinate? && DecodePair(body, w).consumed == |body|
    ensures p.l == l && IsPair(p, w) && body == Body(p)
    ensures DecodePair(body, w).raw == FixedWidth(p.r, w) + FixedWidth(p.s, w)
  {
    hide TagHeader;
    var n := DecodeInteger(body, w).consumed;
    var lr, r := DecodeIntegerSound(body, w);
    var ls, s := DecodeIntegerSound(body[n..], w);
    p := Parts(l, lr, r, ls, s);
    WholeSlice(body[n..]);
    assert body == body[..n] + body[n..];
  }

  /** Every such signature is decoded, to the fixed-width form of its integers. */
  lemma DecodeComplete(der: seq<byte>, p: Parts, w: nat)
    requires IsSignature(der, p, w)
    ensures DecodeSignature(der, w) == Decoded(FixedWidth(p.r, w) + FixedWidth(p.s, w))
  {
    TagHeaderComplete(SEQUENCE_TAG, p.l, Body(p), []);
    assert der + [] == der;
    assert der[1 + |p.l|..] == Body(p);
    assert der[1 + |p.l|..1 + |p.l| + |Body(p)|] == Body(p);
    DecodePairComplete(p, w);
  }

  /** Nothing else is. */
  lemma DecodeSound(der: seq<byte>, w: nat) returns (p: Parts)
    requires DecodeSignature(der, w).Decoded?
    ensures IsSignature(der, p, w)
    ensures DecodeSignature(der, w).raw == FixedWidth(p.r, w) + FixedWidth(p.s, w)
  {
    hide TagHeader, DecodePair;
    var h := TagHeader(der, SEQUENCE_TAG);
    var l, body := der[1..h.consumed], der[h.consumed..h.consumed + h.length];
    p := DecodePairSound(body, l, w);
    HeaderAndBody(der);
  }

  /** A parsed header leaves the input as a tag, a length field and a body. */
  lemma HeaderAndBody(der: seq<byte>)
    requires TagHeader(der, SEQUENCE_TAG).Header?
    requires TagHeader(der, SEQUENCE_TAG).consumed + TagHeader(der, SEQUENCE_TAG).length == |der|
    ensures var h := TagHeader(der, SEQUENCE_TAG);
            && der == [SEQUENCE_TAG] + der[1..h.consumed] + der[h.consumed..h.consumed + h.length]
            && IsLength(der[1..h.consumed], h.length)
  {
    var h := TagHeader(der, SEQUENCE_TAG);
    TagHeaderSound(der, SEQUENCE_TAG);
    ThreeParts(der, h.consumed, h.length);
    WholeSlice(der);
  }

  // --- The numbers that are written and read.

  /** How many bytes a number takes in two's complement (X.690, section 8.3.2). */
  function IntegerWidth(n: nat): (w: nat)
    ensures w > 0
  {
    if n < 0x80 then 1 else 1 + IntegerWidth(n / 256)
  }

  /** The content of the INTEGER of a number. */
  function IntegerOf(n: nat): (c: seq<byte>)
    ensures |c| == IntegerWidth(n)
  {
    PutBe(n, IntegerWidth(n))
  }

  lemma {:induction false} IntegerWidthFits(n: nat)
    ensures n < Pow256(IntegerWidth(n))
  {
    if n >= 0x80 {
      IntegerWidthFits(n / 256);
    }
  }

  /** A content whose first bit is clear and whose first nine bits are not all
      zero is the INTEGER of its value. */
  lemma {:induction false} MinimalContent(c: seq<byte>)
    requires c != [] && c[0] < 0x80 && (|c| > 1 && c[0] == 0 ==> c[1] >= 0x80)
    ensures c == IntegerOf(GetBe(c))
    decreases |c|
  {
    var init, n := c[..|c| - 1], GetBe(c);
    assert c == init + [c[|c| - 1]];
    assert n / 256 == GetBe(init) && n % 256 == c[|c| - 1];
    if |c| == 1 {
      assert GetBe(init) == 0;
      assert PutBe(n, 1) == PutBe(n / 256, 0) + [n % 256];
    } else {
      assert n >= 0x80 by {
        ContentAtLeast(c);
      }
      if |c| == 2 && c[0] == 0 {
        assert init == [0] && GetBe(init) == 0 by { assert init[..0] == []; }
        assert IntegerWidth(n / 256) == 1;
        assert PutBe(0, 1) == [0];
      } else {
        MinimalContent(init);
      }
    }
  }

  lemma ContentAtLeast(c: seq<byte>)
    requires |c| > 1 && (c[0] > 0 || c[1] >= 0x80)
    ensures GetBe(c) >= 0x80
  {
    assert c == [c[0]] + c[1..];
    GetBeConcat([c[0]], c[1..]);
    assert c[1..] == [c[1]] + c[2..];
    GetBeConcat([c[1]], c[2..]);
    assert [c[0]][..0] == [] && [c[1]][..0] == [];
    assert GetBe([c[0]]) == c[0] && GetBe([c[1]]) == c[1];
  }

  lemma {:induction false} IntegerOfMinimal(n: nat)
    ensures var c := IntegerOf(n);
            GetBe(c) == n && c[0] < 0x80 && (|c| > 1 && c[0] == 0 ==> c[1] >= 0x80)
  {
    IntegerWidthFits(n);
    GetPutBe(n, IntegerWidth(n));
    var c := IntegerOf(n);
    if n < 0x80 {
      assert c == PutBe(n / 256, 0) + [n % 256];
    } else {
      IntegerOfMinimal(n / 256);
      assert c == IntegerOf(n / 256) + [n % 256];
      if n / 256 < 0x80 {
        assert IntegerOf(n / 256) == PutBe(0, 0) + [n / 256];
      }
    }
  }

  lemma {:induction false} Pow256Monotone(a: nat, b: nat)
    requires a <= b
    ensures Pow256(a) <= Pow256(b)
  {
    if a < b {
      Pow256Monotone(a, b - 1);
    }
  }

  /** The value of a number without leading zeros tells its length. */
  lemma LengthByValue(s: seq<byte>, w: nat)
    requires s != [] ==> s[0] != 0
    ensures GetBe(s) < Pow256(w) <==> |s| <= w
  {
    PutGetBe(s);
    if |s| <= w {
      Pow256Monotone(|s|, w);
    } else {
      assert s == [s[0]] + s[1..];
      GetBeConcat([s[0]], s[1..]);
      assert [s[0]][..0] == [];
      assert GetBe([s[0]]) == s[0];
      TimesMonotone(Pow256(|s| - 1), 1, s[0]);
      Pow256Monotone(w, |s| - 1);
    }
  }

  /** Exactly the INTEGERs from zero to 256^w - 1 are accepted, and those that
      have one redundant zero in front. */
  lemma AcceptableExactly(c: seq<byte>, w: nat)
    ensures Acceptable(c, w) <==>
            var n := GetBe(c);
            n < Pow256(w) && (c == IntegerOf(n) || (n > 0 && c == [0] + IntegerOf(n) && IntegerOf(n)[0] > 0))
  {
    var n := GetBe(c);
    IntegerOfMinimal(n);
    if c != [] && c[0] == 0 {
      assert c == Zeros(1) + c[1..];
      LeadingZeros(1, c[1..]);
      if |c| == 1 || c[1] != 0 {
        LengthByValue(c[1..], w);
      }
      if |c| > 1 && 0 < c[1] < 0x80 {
        MinimalContent(c[1..]);
        assert c == [0] + c[1..];
      }
    } else {
      LengthByValue(c, w);
    }
    if c != [] && c[0] < 0x80 && (|c| > 1 && c[0] == 0 ==> c[1] >= 0x80) {
      MinimalContent(c);
    }
    hide GetBe, Pow256, IntegerOf;
  }

  /** What is written for a number is its INTEGER. */
  lemma ContentExactly(s: seq<byte>)
    requires !IsZero(s)
    ensures IntegerContent(s) == IntegerOf(GetBe(s))
  {
    StripZerosValue(s);
    var stripped := StripZeros(s);
    LeadingZeros(|s| - |stripped|, stripped);
    LeadingZeros(1, stripped);
    assert [0] + stripped == Zeros(1) + stripped;
    MinimalContent(IntegerContent(s));
  }

  // --- The round trip.

  /** The content written for a non-zero coordinate is acceptable and is read
      back as that coordinate. */
  lemma ContentRoundTrip(s: seq<byte>)
    requires !IsZero(s)
    ensures Acceptable(IntegerContent(s), |s|) && FixedWidth(IntegerContent(s), |s|) == s
  {
    StripZerosValue(s);
    assert Unpadded(IntegerContent(s)) == StripZeros(s);
  }

  function EncodedParts(r: seq<byte>, s: seq<byte>): Parts
    requires Encodable(r, s)
  {
    Parts(LengthBytes(|EncodeInteger(r) + EncodeInteger(s)|),
          LengthBytes(|IntegerContent(r)|), IntegerContent(r),
          LengthBytes(|IntegerContent(s)|), IntegerContent(s))
  }

  /** The decoder undoes the encoder for every width and all non-zero pairs. */
  lemma SignatureRoundTrip(r: seq<byte>, s: seq<byte>)
    requires |r| == |s| && Encodable(r, s) && !IsZero(r) && !IsZero(s)
    ensures DecodeSignature(EncodeSignature(r, s), |r|) == Decoded(r + s)
  {
    ContentRoundTrip(r);
    ContentRoundTrip(s);
    var p := EncodedParts(r, s);
    LengthBytesIsLength(|p.r|);
    LengthBytesIsLength(|p.s|);
    LengthBytesIsLength(|Body(p)|);
    DecodeComplete(EncodeSignature(r, s), p, |r|);
  }

  /** What is accepted keeps its value in its fixed-width form. */
  lemma FixedWidthValue(c: seq<byte>, w: nat)
    requires Acceptable(c, w)
    ensures GetBe(FixedWidth(c, w)) == GetBe(c)
  {
    LeadingZeros(w - |Unpadded(c)|, Unpadded(c));
    if c[0] == 0 {
      assert c == Zeros(1) + c[1..];
      LeadingZeros(1, c[1..]);
    }
  }

  lemma {:induction false} ZerosValue(n: nat)
    ensures GetBe(Zeros(n)) == 0
  {
    if n > 0 {
      assert Zeros(n)[..n - 1] == Zeros(n - 1);
      ZerosValue(n - 1);
    }
  }

  lemma LeadingZeros(n: nat, s: seq<byte>)
    ensures GetBe(Zeros(n) + s) == GetBe(s)
  {
    ZerosValue(n);
    GetBeConcat(Zeros(n), s);
  }
}
