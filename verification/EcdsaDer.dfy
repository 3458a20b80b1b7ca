// The conversions between raw and DER signatures as the library performs them:
// a writer that works backwards from the end of a buffer, and a forward parser.
module EcdsaDer {
  import opened Bytes
  import opened DerSpec

  /** The buffer now holds `bytes` from p up to p0 and is unchanged behind them. */
  twostate predicate WroteBefore(der: array<byte>, p: nat, p0: nat, bytes: seq<byte>)
    reads der
  {
    && p <= p0 <= der.Length
    && der[p..p0] == bytes
    && der[p0..] == old(der[p0..])
  }

  /** mbedtls_asn1_write_len. */
  method WriteLen(der: array<byte>, p0: nat, len: nat) returns (status: DerStatus, p: nat)
    requires p0 <= der.Length
    modifies der
    ensures status == if len > LENGTH_LIMIT then InvalidLength
                      else if p0 < |LengthBytes(len)| then BufferTooSmall else Success
    ensures status == Success ==> WroteBefore(der, p, p0, LengthBytes(len))
    ensures status == Success ==> p == p0 - |LengthBytes(len)|
  {
    p := p0;
    if len > LENGTH_LIMIT {
      return InvalidLength, p;
    }
    ByteCountBound(len, 4);
    var required := 1;
    if len >= 0x80 {
      var l := len;
      while l != 0
        invariant required - 1 + ByteCount(l) == ByteCount(len)
      {
        required := required + 1;
        l := l / 256;
      }
    }
    if required > p {
      return BufferTooSmall, p;
    }
    p := WriteDigits(der, p, len, if required == 1 then 1 else required - 1);
    if required > 1 {
      p := p - 1;
      der[p] := 0x80 + required - 1;
    }
    assert der[p0..] == old(der[p0..]);
    assert required > 1 ==> der[p..p0] == [0x80 + required - 1] + der[p + 1..p0];
    status := Success;
  }

  /** The do-while loop of mbedtls_asn1_write_len, which writes `count` bytes. */
  method WriteDigits(der: array<byte>, p0: nat, len: nat, count: nat) returns (p: nat)
    requires 0 < count <= p0 <= der.Length && count == (if len < 0x80 then 1 else ByteCount(len))
    modifies der
    ensures p == p0 - count && WroteBefore(der, p, p0, if len < 0x80 then [len] else PutBe(len, count))
  {
    p := p0;
    var l := len;
    var more := true;
    assert PutBe(l, count) == PutBe(l, count) + der[p0..p0];
    while more
      invariant p0 - count <= p <= p0
      invariant more ==> p > p0 - count && (l > 0 || (p == p0 && len == 0))
      invariant more && l > 0 ==> ByteCount(l) == count - (p0 - p)
      invariant !more ==> p == p0 - count && l == 0
      invariant PutBe(len, count) == PutBe(l, count - (p0 - p)) + der[p..p0]
      invariant der[p0..] == old(der[p0..])
      decreases p, more
    {
      ghost var high, low, rest := l / 256, der[p..p0], count - (p0 - p);
      assert PutBe(l, rest) == PutBe(high, rest - 1) + [l % 256];
      p := p - 1;
      der[p] := l % 256;
      assert der[p..p0] == [l % 256] + low;
      l := l / 256;
      more := l != 0;
    }
    assert len < 0x80 ==> PutBe(len, 1) == [len];
  }

  /** mbedtls_asn1_write_tag. */
  method WriteTag(der: array<byte>, p0: nat, tag: byte) returns (status: DerStatus, p: nat)
    requires p0 <= der.Length
    modifies der
    ensures status == if p0 < 1 then BufferTooSmall else Success
    ensures status == Success ==> p == p0 - 1 && WroteBefore(der, p, p0, [tag])
  {
    p := p0;
    if p < 1 {
      return BufferTooSmall, p;
    }
    p := p - 1;
    der[p] := tag;
    return Success, p;
  }

  lemma AppendWritten(s0: seq<byte>, s1: seq<byte>, p: nat, q: nat, r: nat, a: seq<byte>, b: seq<byte>)
    requires p <= q <= r <= |s0| == |s1|
    requires s0[q..r] == b && s1[p..q] == a && s1[q..] == s0[q..]
    ensures s1[p..r] == a + b && s1[r..] == s0[r..]
  {
    assert forall i :: r <= i < |s0| ==> s1[i] == s1[q..][i - q] == s0[q..][i - q] == s0[i];
    assert forall i :: q <= i < r ==> s1[i] == s1[q..][i - q] == s0[q..][i - q] == s0[q..r][i - q];
  }

  /** The length and the tag in front of a content already written. */
  method WriteHeader(der: array<byte>, p0: nat, end: nat, tag: byte, ghost content: seq<byte>)
      returns (status: DerStatus, p: nat)
    requires p0 <= end <= der.Length && der[p0..end] == content && |content| <= LENGTH_LIMIT
    modifies der
    ensures status == if end < |Tlv(tag, content)| then BufferTooSmall else Success
    ensures status == Success ==> p == end - |Tlv(tag, content)| && WroteBefore(der, p, end, Tlv(tag, content))
  {
    ghost var s0 := der[..];
    status, p := WriteLen(der, p0, end - p0);
    if status != Success {
      return;
    }
    ghost var s1, q := der[..], p;
    AppendWritten(s0, s1, q, p0, end, LengthBytes(|content|), content);
    status, p := WriteTag(der, p, tag);
    if status != Success {
      return;
    }
    AppendWritten(s1, der[..], p, q, end, [tag], LengthBytes(|content|) + content);
    assert [tag] + (LengthBytes(|content|) + content) == Tlv(tag, content);
  }

  /** The loop that skips leading zeros in convert_raw_to_der_single_int. */
  method SkipZeros(raw: seq<byte>) returns (start: nat)
    requires |raw| > 0
    ensures start <= |raw| && raw[start..] == StripZeros(raw)
    ensures start == |raw| <==> IsZero(raw)
  {
    start := 0;
    while raw[start] == 0
      invariant 0 <= start < |raw|
      invariant IsZero(raw[..start]) && StripZeros(raw[start..]) == StripZeros(raw)
      decreases |raw| - start
    {
      assert raw[start..][1..] == raw[start + 1..];
      start := start + 1;
      if start == |raw| {
        assert raw[..start] == raw;
        return;
      }
    }
    assert raw[start] != 0 && raw[start..][0] != 0;
  }

  /** The copy in convert_raw_to_der_single_int, and the zero that makes the
      number positive. */
  method WriteContent(der: array<byte>, p0: nat, stripped: seq<byte>) returns (status: DerStatus, p: nat)
    requires stripped != [] && p0 <= der.Length
    modifies der
    ensures status == if p0 < |Signed(stripped)| then BufferTooSmall else Success
    ensures status == Success ==> p == p0 - |Signed(stripped)| && WroteBefore(der, p, p0, Signed(stripped))
  {
    p := p0;
    if p < |stripped| {
      return BufferTooSmall, p;
    }
    p := p - |stripped|;
    CopyBytes(der, p, stripped);
    ghost var q, copied := p, der[..];
    assert der[q..p0] == stripped && der[p0..] == old(der[p0..]);
    if der[p] >= 0x80 {
      if p < 1 {
        return BufferTooSmall, p;
      }
      p := p - 1;
      der[p] := 0;
      AppendWritten(copied, der[..], p, q, p0, [0], stripped);
    }
    status := Success;
  }

  /** convert_raw_to_der_single_int. */
  method RawToDerSingleInt(raw: seq<byte>, der: array<byte>, p0: nat) returns (status: DerStatus, p: nat)
    requires 0 < |raw| < LENGTH_LIMIT && p0 <= der.Length
    modifies der
    ensures status == if IsZero(raw) then InvalidData
                      else if p0 < |EncodeInteger(raw)| then BufferTooSmall else Success
    ensures status == Success ==> p == p0 - |EncodeInteger(raw)| && WroteBefore(der, p, p0, EncodeInteger(raw))
  {
    hide StripZeros, Tlv;
    p := p0;
    var start := SkipZeros(raw);
    if start == |raw| {
      return InvalidData, p;
    }
    assert IntegerContent(raw) == Signed(raw[start..]);
    TlvLonger(INTEGER_TAG, IntegerContent(raw));
    status, p := WriteContent(der, p, raw[start..]);
    if status != Success {
      return;
    }
    status, p := WriteHeader(der, p, p0, INTEGER_TAG, IntegerContent(raw));
  }

  lemma TlvLonger(tag: byte, content: seq<byte>)
    requires |content| <= LENGTH_LIMIT
    ensures |Tlv(tag, content)| > |content|
  {
  }

  /** What mbedtls_ecdsa_raw_to_der returns: s is converted before r. */
  function RawToDerStatus(bits: nat, raw: seq<byte>, derSize: nat): DerStatus {
    var w := BitsToBytes(bits);
    if bits == 0 || |raw| != 2 * w then InvalidData
    else if w > BitsToBytes(MAX_CURVE_BITS) then BufferTooSmall
    else
      CoordinatesEncodable(raw[..w], raw[w..]);
      if IsZero(raw[w..]) then InvalidData
      else if derSize < |EncodeInteger(raw[w..])| then BufferTooSmall
      else if IsZero(raw[..w]) then InvalidData
      else if derSize < |EncodeSignature(raw[..w], raw[w..])| then BufferTooSmall
      else Success
  }

  lemma CoordinatesEncodable(r: seq<byte>, s: seq<byte>)
    requires |r| <= BitsToBytes(MAX_CURVE_BITS) && |s| <= BitsToBytes(MAX_CURVE_BITS)
    ensures |EncodeInteger(r)| <= |r| + 3 && |EncodeInteger(s)| <= |s| + 3
    ensures Encodable(r, s)
  {
  }

  /** mbedtls_ecdsa_raw_to_der. */
  method RawToDer(bits: nat, raw: seq<byte>, der: array<byte>) returns (status: DerStatus, derLen: nat)
    modifies der
    ensures status == RawToDerStatus(bits, raw, der.Length)
    ensures status == Success ==>
        && Encodable(raw[..BitsToBytes(bits)], raw[BitsToBytes(bits)..])
        && derLen <= der.Length
        && der[..derLen] == EncodeSignature(raw[..BitsToBytes(bits)], raw[BitsToBytes(bits)..])
  {
    derLen := 0;
    var w := BitsToBytes(bits);
    if bits == 0 {
      return InvalidData, derLen;
    }
    if |raw| != 2 * w {
      return InvalidData, derLen;
    }
    if w > BitsToBytes(MAX_CURVE_BITS) {
      return BufferTooSmall, derLen;
    }
    var r, s := raw[..w], raw[w..];
    CoordinatesEncodable(r, s);
    var p, q, end := der.Length, der.Length, der.Length;
    status, p := RawToDerSingleInt(s, der, end);
    if status != Success {
      return;
    }
    ghost var s1 := der[..];
    q := p;
    status, p := RawToDerSingleInt(r, der, q);
    if status != Success {
      return;
    }
    AppendWritten(s1, der[..], p, q, end, EncodeInteger(r), EncodeInteger(s));
    status, p := WriteHeader(der, p, end, SEQUENCE_TAG, EncodeInteger(r) + EncodeInteger(s));
    if status != Success {
      return;
    }
    derLen := end - p;
    CopyBytes(der, 0, der[p..]);
  }

  // --- How large the buffer must be.

  /** MBEDTLS_ECDSA_DER_MAX_SIG_LEN. */
  function MaxSigLen(bits: nat): nat {
    (if bits >= 61 * 8 then 3 else 2) + 2 * ((if bits >= 127 * 8 then 3 else 2) + (bits + 8) / 8)
  }

  /** The content of an INTEGER below 2^bits has room for bits + 1 bits. */
  lemma ContentLength(s: seq<byte>, bits: nat)
    requires |s| == BitsToBytes(bits) && GetBe(s) < Pow2(bits)
    ensures |IntegerContent(s)| <= (bits + 8) / 8
  {
    hide GetBe, Pow2;
    StripZerosValue(s);
    if |IntegerContent(s)| > (bits + 8) / 8 {
      assert |s| > 0 && StripZeros(s) == s && s[0] >= 0x80;
      TopBitValue(s);
      Pow2Monotone(bits, 8 * |s| - 1);
      assert false;
    }
  }

  /** A number whose first byte has its top bit set. */
  lemma {:induction false} TopBitValue(s: seq<byte>)
    requires s != [] && s[0] >= 0x80
    ensures GetBe(s) >= Pow2(8 * |s| - 1)
    decreases |s|
  {
    if |s| == 1 {
      assert s[..0] == [];
      assert Pow2(7) == 128;
    } else {
      TopBitValue(s[..|s| - 1]);
      var n := 8 * |s| - 9;
      assert Pow2(n + 8) == 256 * Pow2(n) by {
        assert Pow2(n + 2) == 4 * Pow2(n);
        assert Pow2(n + 4) == 4 * Pow2(n + 2);
        assert Pow2(n + 6) == 4 * Pow2(n + 4);
      }
    }
  }

  /** Tag and length of a content shorter than 256 bytes take two or three bytes. */
  lemma TlvLength(tag: byte, content: seq<byte>)
    requires |content| < 256
    ensures |Tlv(tag, content)| == |content| + if |content| < 0x80 then 2 else 3
  {
    ByteCountBound(|content|, 1);
  }

  /** The length of an encoding, from the lengths of the two contents. */
  lemma EncodedLength(r: seq<byte>, s: seq<byte>)
    requires |r| <= BitsToBytes(MAX_CURVE_BITS) && |s| <= BitsToBytes(MAX_CURVE_BITS)
    ensures |EncodeInteger(r)| == |IntegerContent(r)| + 2 && |EncodeInteger(s)| == |IntegerContent(s)| + 2
    ensures Encodable(r, s)
    ensures var n := |IntegerContent(r)| + |IntegerContent(s)| + 4;
            |EncodeSignature(r, s)| == n + if n < 0x80 then 2 else 3
  {
    CoordinatesEncodable(r, s);
    TlvLength(INTEGER_TAG, IntegerContent(r));
    TlvLength(INTEGER_TAG, IntegerContent(s));
    TlvLength(SEQUENCE_TAG, EncodeInteger(r) + EncodeInteger(s));
  }

  /** The documented size is enough for an encoding exactly when the two contents
      together are no longer than two contents of bits + 1 bits. */
  lemma MaxSigLenSuffices(bits: nat, r: seq<byte>, s: seq<byte>)
    requires 0 < bits <= MAX_CURVE_BITS && |r| == BitsToBytes(bits) == |s|
    ensures Encodable(r, s)
    ensures |EncodeSignature(r, s)| <= MaxSigLen(bits)
        <==> |IntegerContent(r)| + |IntegerContent(s)| <= 2 * ((bits + 8) / 8)
  {
    EncodedLength(r, s);
  }

  /** So that is exactly when the converter takes a pair of non-zero numbers with
      a buffer of that size. */
  lemma MaxSigLenExactly(bits: nat, raw: seq<byte>)
    requires 0 < bits <= MAX_CURVE_BITS && |raw| == 2 * BitsToBytes(bits)
    requires !IsZero(raw[..BitsToBytes(bits)]) && !IsZero(raw[BitsToBytes(bits)..])
    ensures var w := BitsToBytes(bits);
            RawToDerStatus(bits, raw, MaxSigLen(bits)) == Success
            <==> |IntegerContent(raw[..w])| + |IntegerContent(raw[w..])| <= 2 * ((bits + 8) / 8)
    ensures RawToDerStatus(bits, raw, MaxSigLen(bits)) in {Success, BufferTooSmall}
  {
    var w := BitsToBytes(bits);
    EncodedLength(raw[..w], raw[w..]);
    MaxSigLenSuffices(bits, raw[..w], raw[w..]);
  }

  /** It is enough for every raw signature of a curve size exactly when that
      size is a multiple of eight. */
  lemma MaxSigLenForAll(bits: nat)
    requires 0 < bits <= MAX_CURVE_BITS
    ensures (forall raw: seq<byte> :: |raw| == 2 * BitsToBytes(bits)
                ==> RawToDerStatus(bits, raw, MaxSigLen(bits)) != BufferTooSmall)
            <==> bits % 8 == 0
  {
    var w := BitsToBytes(bits);
    if bits % 8 == 0 {
      forall raw: seq<byte> | |raw| == 2 * w
        ensures RawToDerStatus(bits, raw, MaxSigLen(bits)) != BufferTooSmall
      {
        EncodedLength(raw[..w], raw[w..]);
      }
    } else {
      AllOnesTooLong(bits);
    }
  }

  /** For any other size the largest raw signature does not fit. */
  lemma AllOnesTooLong(bits: nat)
    requires 0 < bits <= MAX_CURVE_BITS && bits % 8 != 0
    ensures var ones := seq(2 * BitsToBytes(bits), _ => 0xFF);
            RawToDerStatus(bits, ones, MaxSigLen(bits)) == BufferTooSmall
  {
    var w := BitsToBytes(bits);
    var ones: seq<byte> := seq(2 * w, _ => 0xFF);
    var half := ones[..w];
    assert half[0] == 0xFF && ones[w..][0] == 0xFF && ones[w..] == half;
    assert StripZeros(half) == half;
    MaxSigLenExactly(bits, ones);
  }

  /** For two numbers below 2^bits, as those of any valid signature are, the
      documented size is enough, so only a zero is refused. */
  lemma BufferTooSmallImpossible(bits: nat, raw: seq<byte>, derSize: nat)
    requires 0 < bits <= MAX_CURVE_BITS && |raw| == 2 * BitsToBytes(bits) && derSize >= MaxSigLen(bits)
    requires GetBe(raw[..BitsToBytes(bits)]) < Pow2(bits) && GetBe(raw[BitsToBytes(bits)..]) < Pow2(bits)
    ensures RawToDerStatus(bits, raw, derSize) != BufferTooSmall
    ensures RawToDerStatus(bits, raw, derSize) == Success
        <==> !IsZero(raw[..BitsToBytes(bits)]) && !IsZero(raw[BitsToBytes(bits)..])
  {
    var w := BitsToBytes(bits);
    ContentLength(raw[..w], bits);
    ContentLength(raw[w..], bits);
    EncodedLength(raw[..w], raw[w..]);
  }

  // --- Parsing.

  /** mbedtls_asn1_get_len on s[p0..end]. */
  method GetLen(s: seq<byte>, p0: nat, end: nat) returns (status: DerStatus, p: nat, len: nat)
    requires p0 <= end <= |s|
    ensures var h := LengthHeader(s[p0..end]);
            if h.Malformed? then status == h.error else status == Success && p == p0 + h.consumed && len == h.length
    ensures LengthHeader(s[p0..end]).Malformed? ==> status != Success
  {
    p, len := p0, 0;
    ghost var rest := s[p0..end];
    if end - p < 1 {
      return OutOfData, p, len;
    }
    if s[p] < 0x80 {
      len := s[p];
      p := p + 1;
    } else {
      var n := s[p] - 0x80;
      if n == 0 || n > 4 {
        return InvalidLength, p, len;
      }
      if end - p <= n {
        return OutOfData, p, len;
      }
      p := p + 1;
      while n > 0
        invariant 0 <= n && p + n == p0 + 1 + (s[p0] - 0x80) <= end
        invariant len == GetBe(rest[1..p - p0])
      {
        ghost var read := rest[1..p + 1 - p0];
        assert read[..|read| - 1] == rest[1..p - p0] && read[|read| - 1] == s[p];
        len := len * 256 + s[p];
        p := p + 1;
        n := n - 1;
      }
    }
    if len > end - p {
      return OutOfData, p, len;
    }
    status := Success;
  }

  /** mbedtls_asn1_get_tag on s[p0..end]. */
  method GetTag(s: seq<byte>, p0: nat, end: nat, tag: byte) returns (status: DerStatus, p: nat, len: nat)
    requires p0 <= end <= |s|
    ensures var h := TagHeader(s[p0..end], tag);
            if h.Malformed? then status == h.error else status == Success && p == p0 + h.consumed && len == h.length
    ensures TagHeader(s[p0..end], tag).Malformed? ==> status != Success
  {
    if end - p0 < 1 {
      return OutOfData, p0, 0;
    }
    if s[p0] != tag {
      return UnexpectedTag, p0, 0;
    }
    assert s[p0..end][1..] == s[p0 + 1..end];
    status, p, len := GetLen(s, p0 + 1, end);
  }

  /** The checks of convert_der_to_raw_single_int: where the number is, without
      its leading zero. */
  method LocateInteger(s: seq<byte>, p0: nat, end: nat, w: nat) returns (status: DerStatus, p: nat, len: nat)
    requires p0 <= end <= |s|
    ensures var d := DecodeInteger(s[p0..end], w);
            if d.Rejected? then status == d.error else
              && status == Success && p + len == p0 + d.consumed && len <= w
              && d.raw == Zeros(w - len) + s[p..p + len]
    ensures DecodeInteger(s[p0..end], w).Rejected? ==> status != Success
  {
    hide TagHeader;
    status, p, len := GetTag(s, p0, end, INTEGER_TAG);
    if status != Success {
      return;
    }
    ghost var c := s[p..p + len];
    SliceOfSlice(s, p0, end, p - p0, p - p0 + len);
    if len == 0 || s[p] >= 0x80 {
      return InvalidData, p, len;
    }
    if s[p] == 0 {
      p := p + 1;
      len := len - 1;
      if len > 0 && s[p] == 0 {
        return InvalidData, p, len;
      }
    }
    assert s[p..p + len] == Unpadded(c);
    if len > w {
      return InvalidData, p, len;
    }
  }

  /** convert_der_to_raw_single_int: the coordinate is written to the right of
      zeros that the caller provides. */
  method DerToRawSingleInt(s: seq<byte>, p0: nat, end: nat, raw: array<byte>, offset: nat, w: nat)
      returns (status: DerStatus, p: nat)
    requires p0 <= end <= |s| && offset + w <= raw.Length
    requires raw[offset..offset + w] == Zeros(w)
    modifies raw
    ensures var d := DecodeInteger(s[p0..end], w);
            if d.Rejected? then status == d.error else
              && status == Success && p == p0 + d.consumed
              && raw[offset..offset + w] == d.raw
              && raw[..offset] == old(raw[..offset]) && raw[offset + w..] == old(raw[offset + w..])
    ensures DecodeInteger(s[p0..end], w).Rejected? ==> status != Success
  {
    hide DecodeInteger;
    var len;
    status, p, len := LocateInteger(s, p0, end, w);
    if status != Success {
      return;
    }
    CopyBytes(raw, offset + (w - len), s[p..p + len]);
    FillRight(old(raw[..]), raw[..], offset, w, s[p..p + len]);
    p := p + len;
  }

  lemma FillRight(s0: seq<byte>, s1: seq<byte>, offset: nat, w: nat, c: seq<byte>)
    requires offset + w <= |s0| && |c| <= w && s0[offset..offset + w] == Zeros(w)
    requires s1 == s0[..offset + w - |c|] + c + s0[offset + w..]
    ensures |s1| == |s0|
    ensures s1[..offset] == s0[..offset] && s1[offset + w..] == s0[offset + w..]
    ensures s1[offset..offset + w] == Zeros(w - |c|) + c
  {
    assert forall i :: offset <= i < offset + w - |c| ==> s1[i] == s0[i] == s0[offset..offset + w][i - offset] == 0;
  }

  /** Both coordinates, into a zeroed buffer of twice their size. */
  method DerToRawPair(s: seq<byte>, start: nat, end: nat, raw: array<byte>, w: nat)
      returns (status: DerStatus, p: nat)
    requires start <= end <= |s| && raw.Length == 2 * w && raw[..] == Zeros(2 * w)
    modifies raw
    ensures var d := DecodePair(s[start..end], w);
            if d.Rejected? then status == d.error else
              status == Success && p == start + d.consumed && raw[..] == d.raw
    ensures DecodePair(s[start..end], w).Rejected? ==> status != Success
  {
    hide DecodeInteger;
    assert raw[0..w] == Zeros(w) && raw[w..] == Zeros(w);
    status, p := DerToRawSingleInt(s, start, end, raw, 0, w);
    if status != Success {
      return;
    }
    SliceOfSlice(s, start, end, p - start, end - start);
    ghost var first := raw[0..w];
    assert raw[w..w + w] == raw[w..];
    status, p := DerToRawSingleInt(s, p, end, raw, w, w);
    if status != Success {
      return;
    }
    assert raw[..w] == first && raw[..] == raw[..w] + raw[w..w + w];
  }

  /** The header, the two integers and the check that nothing follows them. */
  method DerToRawParts(der: seq<byte>, w: nat) returns (status: DerStatus, bytes: seq<byte>)
    ensures match DecodeSignature(der, w)
            case Undecodable(error) => status == error && status != Success
            case Decoded(raw) => status == Success && bytes == raw && |raw| == 2 * w
  {
    hide TagHeader, DecodePair;
    bytes := [];
    var p, start, len;
    status, start, len := GetTag(der, 0, |der|, SEQUENCE_TAG);
    assert der[0..|der|] == der;
    if status != Success {
      return;
    }
    var temporary := new byte[2 * w](_ => 0);
    status, p := DerToRawPair(der, start, start + len, temporary, w);
    if status != Success {
      return;
    }
    if p != |der| {
      return LengthMismatch, bytes;
    }
    bytes := temporary[..];
  }

  /** mbedtls_ecdsa_der_to_raw. */
  method DerToRaw(bits: nat, der: seq<byte>, raw: array<byte>) returns (status: DerStatus, rawLen: nat)
    modifies raw
    ensures var w := BitsToBytes(bits);
            if bits == 0 then status == InvalidData
            else if raw.Length < 2 * w || w > BitsToBytes(MAX_CURVE_BITS) then status == BufferTooSmall
            else match DecodeSignature(der, w)
                 case Undecodable(error) => status == error && status != Success
                 case Decoded(bytes) =>
                   status == Success && rawLen == 2 * w && raw[..] == bytes + old(raw[2 * w..])
    ensures status != Success ==> raw[..] == old(raw[..])
  {
    rawLen := 0;
    var w := BitsToBytes(bits);
    if bits == 0 {
      return InvalidData, rawLen;
    }
    if raw.Length < 2 * w {
      return BufferTooSmall, rawLen;
    }
    if 2 * w > 2 * BitsToBytes(MAX_CURVE_BITS) {
      return BufferTooSmall, rawLen;
    }
    hide DecodeSignature;
    var temporary;
    status, temporary := DerToRawParts(der, w);
    if status != Success {
      return;
    }
    CopyBytes(raw, 0, temporary);
    rawLen := 2 * w;
  }

  /** Whatever the first conversion produced, the second gives the raw signature
      back. */
  lemma ConversionRoundTrip(bits: nat, raw: seq<byte>, derSize: nat)
    requires RawToDerStatus(bits, raw, derSize) == Success
    ensures var w := BitsToBytes(bits);
            && Encodable(raw[..w], raw[w..])
            && DecodeSignature(EncodeSignature(raw[..w], raw[w..]), w) == Decoded(raw)
  {
    var w := BitsToBytes(bits);
    hide EncodeInteger, EncodeSignature, DecodeSignature;
    CoordinatesEncodable(raw[..w], raw[w..]);
    SignatureRoundTrip(raw[..w], raw[w..]);
    assert raw[..w] + raw[w..] == raw;
  }
}
