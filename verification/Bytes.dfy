// Bytes, fixed-width integers in both byte orders, and the memory primitives
// (memcpy, memset) that every component of the library is written with.
module Bytes {

  type byte = x: int | 0 <= x < 256

  function Pow256(n: nat): (r: nat)
    ensures r >= 1
  {
    if n == 0 then 1 else 256 * Pow256(n - 1)
  }

  /** MBEDTLS_PUT_UINTnn_BE: the low n bytes of x, most significant first. */
  function PutBe(x: nat, n: nat): (s: seq<byte>)
    ensures |s| == n
    decreases n, x
  {
    if n == 0 then [] else PutBe(x / 256, n - 1) + [x % 256]
  }

  /** MBEDTLS_GET_UINTnn_BE, for any width. */
  function GetBe(s: seq<byte>): nat {
    if s == [] then 0 else GetBe(s[..|s| - 1]) * 256 + s[|s| - 1]
  }

  /** MBEDTLS_PUT_UINTnn_LE: the low n bytes of x, least significant first. */
  function PutLe(x: nat, n: nat): (s: seq<byte>)
    ensures |s| == n
    decreases n, x
  {
    if n == 0 then [] else [x % 256] + PutLe(x / 256, n - 1)
  }

  /** MBEDTLS_GET_UINTnn_LE, for any width. */
  function GetLe(s: seq<byte>): nat {
    if s == [] then 0 else s[0] + 256 * GetLe(s[1..])
  }

  lemma {:induction false} GetPutBe(x: nat, n: nat)
    requires x < Pow256(n)
    ensures GetBe(PutBe(x, n)) == x
  {
    if n > 0 {
      var high := PutBe(x / 256, n - 1);
      GetPutBe(x / 256, n - 1);
      assert (high + [x % 256])[..n - 1] == high;
      assert GetBe(high + [x % 256]) == GetBe(high) * 256 + x % 256;
    }
  }

  lemma {:induction false} PutGetBe(s: seq<byte>)
    ensures GetBe(s) < Pow256(|s|)
    ensures PutBe(GetBe(s), |s|) == s
  {
    if s != [] {
      PutGetBe(s[..|s| - 1]);
      assert s == s[..|s| - 1] + [s[|s| - 1]];
    }
  }

  lemma {:induction false} GetPutLe(x: nat, n: nat)
    requires x < Pow256(n)
    ensures GetLe(PutLe(x, n)) == x
  {
    if n > 0 {
      assert PutLe(x, n)[1..] == PutLe(x / 256, n - 1);
      GetPutLe(x / 256, n - 1);
    }
  }

  lemma {:induction false} PutGetLe(s: seq<byte>)
    ensures GetLe(s) < Pow256(|s|)
    ensures PutLe(GetLe(s), |s|) == s
  {
    if s != [] {
      PutGetLe(s[1..]);
      assert s == [s[0]] + s[1..];
    }
  }

  /** Byte k of the big-endian form, counted from the end, is digit k to the base 256. */
  lemma {:induction false} PutBeDigit(x: nat, n: nat, k: nat)
    requires k < n
    ensures PutBe(x, n)[n - 1 - k] == x / Pow256(k) % 256
    decreases k
  {
    if k > 0 {
      PutBeDigit(x / 256, n - 1, k - 1);
      QuotientOfQuotient(x, 256, Pow256(k - 1));
    }
  }

  /** Byte k of the little-endian form is digit k to the base 256. */
  lemma {:induction false} PutLeDigit(x: nat, n: nat, k: nat)
    requires k < n
    ensures PutLe(x, n)[k] == x / Pow256(k) % 256
    decreases k
  {
    if k > 0 {
      PutLeDigit(x / 256, n - 1, k - 1);
      QuotientOfQuotient(x, 256, Pow256(k - 1));
    }
  }

  lemma QuotientOfQuotient(x: nat, a: nat, b: nat)
    requires a > 0 && b > 0
    ensures a * b > 0 && x / (a * b) == x / a / b
  {
    var q := x / a;
    var e := q / b;
    assert x == a * q + x % a && q == b * e + q % b;
    var r := a * (q % b) + x % a;
    assert x == (a * b) * e + r by {
      assert a * (b * e + q % b) == a * (b * e) + a * (q % b);
      assert a * (b * e) == (a * b) * e;
    }
    assert r < a * b by {
      TimesMonotone(a, q % b + 1, b);
      assert a * (q % b + 1) == a * (q % b) + a;
    }
    QuotientUnique(x, a * b, e, r);
  }

  lemma TimesMonotone(x: nat, n: nat, m: nat)
    requires n <= m
    ensures x * n <= x * m
  {
    assert x * m == x * n + x * (m - n);
  }

  lemma TimesNext(d: nat, n: nat)
    ensures d * (n + 1) == d * n + d
  {
  }

  lemma QuotientUnique(x: nat, d: nat, q: nat, r: nat)
    requires d > 0 && x == d * q + r && r < d
    ensures x / d == q && x % d == r
  {
    var e := x / d;
    assert x == d * e + x % d && 0 <= x % d < d;
    TimesNext(d, e);
    TimesNext(d, q);
    if e < q {
      TimesMonotone(d, e + 1, q);
    } else if e > q {
      TimesMonotone(d, q + 1, e);
    }
  }

  lemma {:induction false} GetBeConcat(s: seq<byte>, t: seq<byte>)
    ensures GetBe(s + t) == GetBe(s) * Pow256(|t|) + GetBe(t)
  {
    if t == [] {
      assert s + t == s;
    } else {
      var t' := t[..|t| - 1];
      assert (s + t)[..|s + t| - 1] == s + t';
      GetBeConcat(s, t');
      TimesRegroup(GetBe(s), Pow256(|t'|));
    }
  }

  lemma TimesRegroup(x: nat, y: nat)
    ensures x * (256 * y) == x * y * 256
  {
  }

  /** The bitwise exclusive or of two unsigned integers. */
  function BitXor(a: nat, b: nat): nat {
    if a == 0 && b == 0 then 0
    else 2 * BitXor(a / 2, b / 2) + (if a % 2 == b % 2 then 0 else 1)
  }

  lemma {:induction false} BitXorInvolutive(a: nat, b: nat)
    ensures BitXor(BitXor(a, b), b) == a
  {
    if a != 0 || b != 0 {
      BitXorInvolutive(a / 2, b / 2);
      assert BitXor(a, b) / 2 == BitXor(a / 2, b / 2);
    }
  }

  /** Bit k of a number, counted from the lowest. */
  predicate Bit(x: nat, k: nat) {
    if k == 0 then x % 2 == 1 else Bit(x / 2, k - 1)
  }

  lemma {:induction false} BitIsDigit(x: nat, k: nat)
    ensures Bit(x, k) <==> x / Pow2(k) % 2 == 1
  {
    if k > 0 {
      BitIsDigit(x / 2, k - 1);
      QuotientOfQuotient(x, 2, Pow2(k - 1));
    }
  }

  /** Adding a power of two to a number without that bit sets the bit and no other. */
  lemma {:induction false} AddBit(x: nat, n: nat, k: nat)
    requires !Bit(x, n)
    ensures Bit(x + Pow2(n), k) <==> k == n || Bit(x, k)
  {
    if n == 0 {
      assert (x + 1) / 2 == x / 2;
    } else {
      assert (x + 2 * Pow2(n - 1)) / 2 == x / 2 + Pow2(n - 1);
      if k > 0 {
        AddBit(x / 2, n - 1, k - 1);
      }
    }
  }

  /** Exclusive or works bit by bit. */
  lemma {:induction false} BitXorBits(a: nat, b: nat, k: nat)
    ensures Bit(BitXor(a, b), k) <==> Bit(a, k) != Bit(b, k)
    decreases k
  {
    if a == 0 && b == 0 {
      ZeroBits(k);
    } else if k > 0 {
      BitXorBits(a / 2, b / 2, k - 1);
      assert BitXor(a, b) / 2 == BitXor(a / 2, b / 2);
    }
  }

  lemma {:induction false} ZeroBits(k: nat)
    ensures !Bit(0, k)
  {
    if k > 0 {
      ZeroBits(k - 1);
    }
  }

  /** Exclusive or of numbers composed of a high and a low part. */
  lemma {:induction false} BitXorParts(a: nat, b: nat, x: nat, y: nat, bits: nat)
    requires x < Pow2(bits) && y < Pow2(bits)
    ensures BitXor(a * Pow2(bits) + x, b * Pow2(bits) + y) == BitXor(a, b) * Pow2(bits) + BitXor(x, y)
  {
    if bits == 0 {
      assert x == 0 && y == 0 && Pow2(0) == 1;
    } else {
      BitXorParts(a, b, x / 2, y / 2, bits - 1);
      BitXorShift(a, b, BitXor(a, b), x, y, Pow2(bits - 1));
    }
  }

  lemma BitXorShift(a: nat, b: nat, c: nat, x: nat, y: nat, unit: nat)
    requires BitXor(a * unit + x / 2, b * unit + y / 2) == c * unit + BitXor(x / 2, y / 2)
    ensures BitXor(a * (2 * unit) + x, b * (2 * unit) + y) == c * (2 * unit) + BitXor(x, y)
  {
    BitXorDoubled(a * unit, b * unit, c * unit, x, y);
    TimesDouble(a, unit);
    TimesDouble(b, unit);
    TimesDouble(c, unit);
    hide BitXor;
  }

  lemma BitXorDoubled(a: nat, b: nat, c: nat, x: nat, y: nat)
    requires BitXor(a + x / 2, b + y / 2) == c + BitXor(x / 2, y / 2)
    ensures BitXor(2 * a + x, 2 * b + y) == 2 * c + BitXor(x, y)
  {
    BitXorUnfold(2 * a + x, 2 * b + y);
    BitXorUnfold(x, y);
    assert (2 * a + x) / 2 == a + x / 2 && (2 * b + y) / 2 == b + y / 2;
    hide BitXor;
  }

  lemma BitXorUnfold(a: nat, b: nat)
    ensures BitXor(a, b) == 2 * BitXor(a / 2, b / 2) + (if a % 2 == b % 2 then 0 else 1)
  {
  }

  lemma {:induction false} BitXorAssociates(a: nat, b: nat, c: nat)
    ensures BitXor(BitXor(a, b), c) == BitXor(a, BitXor(b, c))
    decreases a + b + c
  {
    if a != 0 || b != 0 || c != 0 {
      BitXorAssociates(a / 2, b / 2, c / 2);
      BitXorUnfold(a, b);
      BitXorUnfold(b, c);
      BitXorUnfold(BitXor(a, b), c);
      BitXorUnfold(a, BitXor(b, c));
    }
  }

  lemma {:induction false} BitXorZero(a: nat)
    ensures BitXor(a, 0) == a
  {
    if a != 0 {
      BitXorZero(a / 2);
    }
  }

  /** Exclusive or with 1 swaps the two children of a tree node. */
  lemma BitXorOne(a: nat)
    ensures BitXor(a, 1) == if a % 2 == 0 then a + 1 else a - 1
  {
    BitXorZero(a / 2);
  }

  lemma {:induction false} BitXorBound(a: nat, b: nat, bits: nat)
    requires a < Pow2(bits) && b < Pow2(bits)
    ensures BitXor(a, b) < Pow2(bits)
  {
    if bits > 0 {
      BitXorBound(a / 2, b / 2, bits - 1);
    }
  }

  /** The bitwise or of two unsigned integers. */
  function BitOr(a: nat, b: nat): nat {
    if a == 0 && b == 0 then 0
    else 2 * BitOr(a / 2, b / 2) + (if a % 2 == 0 && b % 2 == 0 then 0 else 1)
  }

  lemma {:induction false} BitOrZero(a: nat)
    ensures BitOr(a, 0) == a
  {
    if a != 0 {
      BitOrZero(a / 2);
    }
  }

  /** Numbers with no bit in common are added by their bitwise or. */
  lemma {:induction false} BitOrDisjoint(a: nat, b: nat, bits: nat)
    requires b < Pow2(bits)
    ensures BitOr(a * Pow2(bits), b) == a * Pow2(bits) + b
  {
    if bits == 0 {
      BitOrZero(a);
    } else {
      BitOrDisjoint(a, b / 2, bits - 1);
      var half := a * Pow2(bits - 1);
      TimesDouble(a, Pow2(bits - 1));
      assert BitOr(2 * half, b) == 2 * BitOr(half, b / 2) + b % 2;
    }
  }

  lemma TimesDouble(x: nat, y: nat)
    ensures x * (2 * y) == 2 * (x * y)
  {
  }

  function Pow2(n: nat): (r: nat)
    ensures r >= 1
  {
    if n == 0 then 1 else 2 * Pow2(n - 1)
  }

  lemma {:induction false} Pow2Monotone(a: nat, b: nat)
    requires a <= b
    ensures Pow2(a) <= Pow2(b)
  {
    if a < b {
      Pow2Monotone(a, b - 1);
    }
  }

  /** The bitwise exclusive or of two bytes. */
  function XorByte(a: byte, b: byte): byte {
    assert Pow2(8) == 256 by { assert Pow2(4) == 16; assert Pow2(8) == 16 * Pow2(4); }
    BitXorBound(a, b, 8);
    BitXor(a, b)
  }

  /** Exclusive or byte by byte is exclusive or of the big-endian values. */
  lemma {:induction false} GetBeXor(s: seq<byte>, t: seq<byte>, u: seq<byte>)
    requires |s| == |t| == |u| && forall i :: 0 <= i < |s| ==> u[i] == XorByte(s[i], t[i])
    ensures GetBe(u) == BitXor(GetBe(s), GetBe(t))
  {
    if s != [] {
      var n := |s| - 1;
      GetBeXor(s[..n], t[..n], u[..n]);
      assert Pow2(8) == 256 by { assert Pow2(4) == 16; assert Pow2(8) == 16 * Pow2(4); }
      BitXorParts(GetBe(s[..n]), GetBe(t[..n]), s[n], t[n], 8);
    }
  }

  function Zeros(n: nat): (s: seq<byte>)
    ensures |s| == n
    ensures forall i :: 0 <= i < n ==> s[i] == 0
  {
    seq(n, _ => 0)
  }

  /** memcpy(dst + offset, src, |src|). */
  method CopyBytes(dst: array<byte>, offset: nat, src: seq<byte>)
    requires offset + |src| <= dst.Length
    modifies dst
    ensures dst[..] == old(dst[..offset]) + src + old(dst[offset + |src|..])
    ensures dst[..offset + |src|] == old(dst[..offset]) + src
    ensures dst[offset + |src|..] == old(dst[offset + |src|..])
  {
    forall k | 0 <= k < |src| {
      dst[offset + k] := src[k];
    }
  }

  /** A part of a part of a string is a part of the string. */
  lemma SliceOfSlice(s: seq<byte>, at: nat, end: nat, lo: nat, hi: nat)
    requires lo <= hi && at + hi <= end <= |s|
    ensures s[at..end][lo..hi] == s[at + lo..at + hi]
  {
    assert forall i :: 0 <= i < hi - lo ==> s[at..end][lo..hi][i] == s[at + lo..at + hi][i];
  }

  /** The four parts of a concatenation are found at their offsets. */
  lemma ConcatParts(a: seq<byte>, b: seq<byte>, c: seq<byte>, d: seq<byte>)
    ensures var s := a + b + c + d;
            && s[..|a|] == a
            && s[|a|..|a| + |b|] == b
            && s[|a| + |b|..|a| + |b| + |c|] == c
            && s[|a| + |b| + |c|..] == d
  {
  }

  /** Three consecutive copies write their sources side by side. */
  lemma SpliceThree(s0: seq<byte>, s1: seq<byte>, s2: seq<byte>, s3: seq<byte>,
                    at: nat, a: seq<byte>, b: seq<byte>, c: seq<byte>)
    requires at + |a| + |b| + |c| <= |s0|
    requires s1 == s0[..at] + a + s0[at + |a|..]
    requires s2 == s1[..at + |a|] + b + s1[at + |a| + |b|..]
    requires s3 == s2[..at + |a| + |b|] + c + s2[at + |a| + |b| + |c|..]
    ensures s3 == s0[..at] + (a + b + c) + s0[at + |a| + |b| + |c|..]
  {
  }

  /** memset(dst + offset, 0, n). */
  method ZeroBytes(dst: array<byte>, offset: nat, n: nat)
    requires offset + n <= dst.Length
    modifies dst
    ensures dst[..] == old(dst[..offset]) + Zeros(n) + old(dst[offset + n..])
    ensures dst[..offset + n] == old(dst[..offset]) + Zeros(n)
    ensures dst[offset + n..] == old(dst[offset + n..])
  {
    forall k | 0 <= k < n {
      dst[offset + k] := 0;
    }
  }
}
