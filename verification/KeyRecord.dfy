// The storage record of a persistent key: how psa_crypto_storage.c lays out
// attributes and key material, and exactly which byte strings it reads back.
module KeyRecord {
  import opened Bytes
  import opened KeyTypes
  import opened Options

  const MAGIC: seq<byte> := [0x50, 0x53, 0x41, 0x00, 0x4B, 0x45, 0x59, 0x00]
  const HEADER_LEN: nat := 36

  datatype Parsed = Parsed(attr: Attributes, data: seq<byte>)

  function Header(data: seq<byte>, a: Attributes): (s: seq<byte>)
    ensures |s| == HEADER_LEN
  {
    MAGIC + PutLe(0, 4) + PutLe(a.lifetime, 4) + PutLe(a.ktype, 2) + PutLe(a.bits, 2)
    + PutLe(a.policy.usage, 4) + PutLe(a.policy.alg, 4) + PutLe(a.policy.alg2, 4) + PutLe(|data|, 4)
  }

  /** psa_format_key_data_for_storage */
  function Format(data: seq<byte>, a: Attributes): (s: seq<byte>)
    ensures |s| == HEADER_LEN + |data|
  {
    Header(data, a) + data
  }

  /** The attributes in a header; the identifier is not stored. */
  function HeaderAttributes(s: seq<byte>, id: KeyId): Attributes
    requires |s| >= HEADER_LEN
  {
    Attributes(id, GetLe(s[12..16]), GetLe(s[16..18]), GetLe(s[18..20]),
               Policy(GetLe(s[20..24]), GetLe(s[24..28]), GetLe(s[28..32])))
  }

  /** psa_parse_key_data_from_storage, when memory can be allocated. */
  function Parse(s: seq<byte>, id: KeyId): Option<Parsed> {
    if |s| < HEADER_LEN then None
    else if s[..8] != MAGIC then None
    else if GetLe(s[8..12]) != 0 then None
    else
      var len := GetLe(s[32..36]);
      if len > |s| - HEADER_LEN || len > MAX_STORAGE_SIZE then None
      else Some(Parsed(HeaderAttributes(s, id), s[HEADER_LEN..HEADER_LEN + len]))
  }

  lemma PrefixSlice(s: seq<byte>, x: seq<byte>, lo: nat, hi: nat)
    requires lo <= hi <= |x| && x <= s
    ensures s[lo..hi] == x[lo..hi]
  {
  }

  /** The fields of a concatenation of nine, in two groups. */
  lemma NineFields(m: seq<byte>, v: seq<byte>, l: seq<byte>, t: seq<byte>, b: seq<byte>,
                   u: seq<byte>, g: seq<byte>, h: seq<byte>, n: seq<byte>)
    requires |m| == 8 && |v| == |l| == |u| == |g| == |h| == |n| == 4 && |t| == |b| == 2
    ensures var s := m + v + l + t + b + u + g + h + n;
            && s[..8] == m && s[8..12] == v && s[12..16] == l && s[16..18] == t && s[18..20] == b
            && s[20..24] == u && s[24..28] == g && s[28..32] == h && s[32..36] == n
  {
    var first := m + v + l + t;
    var second := first + b + u + g;
    var s := second + h + n;
    assert s[..8] == m && s[8..12] == v && s[12..16] == l && s[16..18] == t by {
      ConcatParts(m, v, l, t);
      assert first <= s;
      PrefixSlice(s, first, 0, 8);
      PrefixSlice(s, first, 8, 12);
      PrefixSlice(s, first, 12, 16);
      PrefixSlice(s, first, 16, 18);
    }
    assert s[18..20] == b && s[20..24] == u && s[24..28] == g by {
      ConcatParts(first, b, u, g);
      assert second <= s;
      PrefixSlice(s, second, 18, 20);
      PrefixSlice(s, second, 20, 24);
      PrefixSlice(s, second, 24, 28);
    }
  }

  lemma HeaderFields(data: seq<byte>, a: Attributes)
    ensures var s := Header(data, a);
            && s[..8] == MAGIC && s[8..12] == PutLe(0, 4) && s[12..16] == PutLe(a.lifetime, 4)
            && s[16..18] == PutLe(a.ktype, 2) && s[18..20] == PutLe(a.bits, 2)
            && s[20..24] == PutLe(a.policy.usage, 4) && s[24..28] == PutLe(a.policy.alg, 4)
            && s[28..32] == PutLe(a.policy.alg2, 4) && s[32..36] == PutLe(|data|, 4)
  {
    NineFields(MAGIC, PutLe(0, 4), PutLe(a.lifetime, 4), PutLe(a.ktype, 2), PutLe(a.bits, 2),
               PutLe(a.policy.usage, 4), PutLe(a.policy.alg, 4), PutLe(a.policy.alg2, 4), PutLe(|data|, 4));
  }

  lemma PowValues()
    ensures Pow256(2) == 0x1_0000 && Pow256(4) == 0x1_0000_0000
  {
  }

  lemma ParseHeader(data: seq<byte>, a: Attributes, id: KeyId, s: seq<byte>)
    requires Representable(a) && |data| <= MAX_STORAGE_SIZE
    requires |s| >= HEADER_LEN && s[..HEADER_LEN] == Header(data, a)
    ensures s[..8] == MAGIC && GetLe(s[8..12]) == 0 && GetLe(s[32..36]) == |data|
    ensures HeaderAttributes(s, id) == a.(id := id)
  {
    HeaderFields(data, a);
    PowValues();
    var t := s[..HEADER_LEN];
    assert s[..8] == t[..8] && s[8..12] == t[8..12] && s[12..16] == t[12..16] && s[16..18] == t[16..18];
    assert s[18..20] == t[18..20] && s[20..24] == t[20..24] && s[24..28] == t[24..28];
    assert s[28..32] == t[28..32] && s[32..36] == t[32..36];
    GetPutLe(0, 4);
    GetPutLe(a.lifetime, 4);
    GetPutLe(a.ktype, 2);
    GetPutLe(a.bits, 2);
    GetPutLe(a.policy.usage, 4);
    GetPutLe(a.policy.alg, 4);
    GetPutLe(a.policy.alg2, 4);
    GetPutLe(|data|, 4);
  }

  /** Reading back a record, even with bytes after it, gives what was written. */
  lemma ParseFormat(data: seq<byte>, a: Attributes, id: KeyId, trailing: seq<byte>)
    requires Representable(a) && |data| <= MAX_STORAGE_SIZE
    ensures Parse(Format(data, a) + trailing, id) == Some(Parsed(a.(id := id), data))
  {
    var s := Format(data, a) + trailing;
    assert s[..HEADER_LEN] == Header(data, a);
    ParseHeader(data, a, id, s);
    assert s[HEADER_LEN..HEADER_LEN + |data|] == data;
  }

  lemma HeaderFromFields(s: seq<byte>, id: KeyId, data: seq<byte>)
    requires |s| >= HEADER_LEN && s[..8] == MAGIC && GetLe(s[8..12]) == 0 && GetLe(s[32..36]) == |data|
    ensures Representable(HeaderAttributes(s, id))
    ensures s[..HEADER_LEN] == Header(data, HeaderAttributes(s, id))
  {
    PowValues();
    PutGetLe(s[8..12]);
    PutGetLe(s[12..16]);
    PutGetLe(s[16..18]);
    PutGetLe(s[18..20]);
    PutGetLe(s[20..24]);
    PutGetLe(s[24..28]);
    PutGetLe(s[28..32]);
    PutGetLe(s[32..36]);
    assert s[..HEADER_LEN] == s[..8] + s[8..12] + s[12..16] + s[16..18] + s[18..20]
                              + s[20..24] + s[24..28] + s[28..32] + s[32..36];
  }

  /** Exactly which byte strings parse, and to what: those that begin with a
      record, whatever follows it. */
  lemma ParseExactly(s: seq<byte>, id: KeyId, a: Attributes, data: seq<byte>)
    ensures Parse(s, id) == Some(Parsed(a, data)) <==>
            && Representable(a) && a.id == id && |data| <= MAX_STORAGE_SIZE
            && Format(data, a) <= s
  {
    if Parse(s, id) == Some(Parsed(a, data)) {
      HeaderFromFields(s, id, data);
      assert s[..HEADER_LEN + |data|] == s[..HEADER_LEN] + s[HEADER_LEN..HEADER_LEN + |data|];
    }
    if Representable(a) && a.id == id && |data| <= MAX_STORAGE_SIZE && Format(data, a) <= s {
      ParseFormat(data, a, id, s[|Format(data, a)|..]);
      assert s == Format(data, a) + s[|Format(data, a)|..];
    }
  }

  /** psa_format_key_data_for_storage, field by field into a buffer. */
  method FormatKeyData(data: seq<byte>, a: Attributes, storage: array<byte>)
    requires storage.Length == HEADER_LEN + |data|
    modifies storage
    ensures storage[..] == Format(data, a)
  {
    CopyBytes(storage, 0, MAGIC);
    assert storage[..8] == MAGIC;
    CopyBytes(storage, 8, PutLe(0, 4));
    CopyBytes(storage, 12, PutLe(a.lifetime, 4));
    assert storage[..16] == MAGIC + PutLe(0, 4) + PutLe(a.lifetime, 4);
    CopyBytes(storage, 16, PutLe(a.ktype, 2));
    CopyBytes(storage, 18, PutLe(a.bits, 2));
    CopyBytes(storage, 20, PutLe(a.policy.usage, 4));
    CopyBytes(storage, 24, PutLe(a.policy.alg, 4));
    CopyBytes(storage, 28, PutLe(a.policy.alg2, 4));
    CopyBytes(storage, 32, PutLe(|data|, 4));
    assert storage[..HEADER_LEN] == Header(data, a);
    CopyBytes(storage, HEADER_LEN, data);
    assert storage[..] == storage[..HEADER_LEN + |data|];
  }
}
