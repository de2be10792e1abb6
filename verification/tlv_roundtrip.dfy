/** Round trips between the encoder and the decoder of src/tlv.rs, in both
    directions, and the conditions under which they hold. */
module TlvRoundTrip {
  import opened Octets
  import opened TlvCodec

  // ---------------------------------------------------------------------
  // Encode, then decode

  /** A tag number whose minimal big-endian octets are themselves a valid
      identifier: one octet without the 0x1F escape, or an escaped first
      octet, continuation octets with bit 0x80 set and a last one with it clear. */
  predicate EncodableTag(tag: Tag)
  {
    tag != 0 &&
    var b := MinimalBE(tag);
    if |b| == 1 then !IsLongTagLead(b[0])
    else
      IsLongTagLead(b[0]) &&
      (forall i :: 1 <= i < |b| - 1 ==> HasTopBit(b[i])) &&
      !HasTopBit(b[|b| - 1])
  }

  /** A tree the decoder can reproduce: encodable tags, content lengths that
      fit a `usize`, values that agree with their tags, and no `Nothing`
      (whose encoding reads back as empty raw bytes). */
  predicate Encodable(t: Tlv)
  {
    EncodableTag(t.tag) && ValueLen(t.val) < TWO_64 &&
    match t.val
    case Val(_) => IsPrimitive(t.tag)
    case TlvList(list) => !IsPrimitive(t.tag) && forall i :: 0 <= i < |list| ==> Encodable(list[i])
    case Nothing => false
  }

  lemma {:induction false} EncodableHasNonZeroTags(t: Tlv)
    requires Encodable(t)
    ensures TagsNonZero(t)
    decreases t
  {
    if t.val.TlvList? {
      forall i | 0 <= i < |t.val.list|
        ensures TagsNonZero(t.val.list[i])
      {
        EncodableHasNonZeroTags(t.val.list[i]);
      }
    }
  }

  /** Reading back the tag octets the encoder emits gives the tag. */
  lemma ReadTagOfTagBytes(tag: Tag, rest: seq<Byte>)
    requires EncodableTag(tag)
    ensures ReadTag(TagBytes(tag) + rest) == Ok((tag, TagLen(tag)))
  {
    var b := MinimalBE(tag);
    var s := b + rest;
    assert s[..|b|] == b;
    if |b| > 1 {
      var t := s[1..];
      forall i | 0 <= i < |b| - 2
        ensures HasTopBit(t[i])
      {
        assert t[i] == b[i + 1];
      }
      assert t[|b| - 2] == b[|b| - 1];
      TagTailLenIs(t, |b| - 1);
    }
    assert TagSpan(s) == |b|;
  }

  /** Decoding an encodable tree's encoding, followed by anything, gives the
      tree back and consumes exactly its encoding. */
  lemma {:induction false} EncodeThenDecode(t: Tlv, rest: seq<Byte>)
    requires Encodable(t)
    ensures Decode(ToVec(t) + rest) == Ok((t, |ToVec(t)|))
    decreases t, 1
  {
    var s := ToVec(t) + rest;
    var n := ValueLen(t.val);
    var start := |TagBytes(t.tag)| + |EncodeLen(n)|;
    EncodedHeader(t, rest, s, start, n);
    DecodeEncoded(t, s, start, n);
    var u := |ToVec(t)|;
    assert Decode(s).value.1 == u;
    OkPair(Decode(s), t, u);
  }

  /** A header for an encodable `t` followed by the encoding of its value
      decodes to `t`. */
  lemma DecodeEncoded(t: Tlv, s: seq<Byte>, start: nat, n: nat)
    requires Encodable(t) && ReadHeader(s) == Ok((t.tag, start, n)) && start + n <= |s|
    requires s[start..start + n] == ValueToVec(t.val)
    ensures Decode(s).Ok? && Decode(s).value.0 == t && Decode(s).value.1 == start + n
    decreases t, 0
  {
    if t.val.TlvList? {
      ListEncodeThenDecode(t.val.list);
    }
    DecodeOfHeader(t, s, start, n);
  }

  /** A header for `t` followed by content octets that decode back to
      `t`'s value decodes to `t`. */
  lemma DecodeOfHeader(t: Tlv, s: seq<Byte>, start: nat, n: nat)
    requires ReadHeader(s) == Ok((t.tag, start, n)) && start + n <= |s|
    requires t.val.Val? ==> IsPrimitive(t.tag) && s[start..start + n] == t.val.bytes
    requires t.val.TlvList? ==> !IsPrimitive(t.tag) && DecodeList(s[start..start + n]) == Ok(t.val.list)
    requires !t.val.Nothing?
    ensures Decode(s).Ok? && Decode(s).value.0 == t && Decode(s).value.1 == start + n
  {
    if t.val.Val? {
      DecodePrimitive(s, t.tag, start, n);
    } else {
      DecodeConstructed(s, t.tag, start, n);
    }
  }

  /** The header of an encodable tree's encoding reads back as its tag and
      content length, and the content bytes follow it. */
  lemma EncodedHeader(t: Tlv, rest: seq<Byte>, s: seq<Byte>, start: nat, n: nat)
    requires Encodable(t) && s == ToVec(t) + rest && n == ValueLen(t.val)
    requires start == |TagBytes(t.tag)| + |EncodeLen(n)|
    ensures ReadHeader(s) == Ok((t.tag, start, n))
    ensures start + n == |ToVec(t)|
    ensures s[start..start + n] == ValueToVec(t.val)
  {
    ToVecSplit(t, rest);
    EncodableHasNonZeroTags(t);
    ValueToVecSize(t.val);
    HeaderOfEncoding(t.tag, n, s, TagBytes(t.tag), EncodeLen(n), ValueToVec(t.val), rest, start);
  }

  lemma ToVecSplit(t: Tlv, rest: seq<Byte>)
    ensures ToVec(t) + rest ==
      TagBytes(t.tag) + (EncodeLen(ValueLen(t.val)) + (ValueToVec(t.val) + rest))
  {
  }

  /** Identifier octets, length octets for `n`, then `n` content bytes read
      back as that header. */
  lemma HeaderOfEncoding(tag: Tag, n: nat, s: seq<Byte>, tb: seq<Byte>, lb: seq<Byte>, vb: seq<Byte>, rest: seq<Byte>, start: nat)
    requires EncodableTag(tag) && n < TWO_64 && |vb| == n
    requires tb == TagBytes(tag) && lb == EncodeLen(n) && s == tb + (lb + (vb + rest))
    requires start == |tb| + |lb|
    ensures ReadHeader(s) == Ok((tag, start, n))
    ensures s[start..start + n] == vb
  {
    var tail := vb + rest;
    ReadTagOfTagBytes(tag, lb + tail);
    SuffixOfConcat(tb, lb + tail);
    ReadLenOfEncodeLen(n, tail);
    ReadHeaderOfParts(s, tag, |tb|, n, |lb|, start);
    assert s[start..start + n] == vb;
  }

  lemma SuffixOfConcat(a: seq<Byte>, b: seq<Byte>)
    ensures (a + b)[|a|..] == b
  {
  }

  lemma {:induction false} ListEncodeThenDecode(list: seq<Tlv>)
    requires forall i :: 0 <= i < |list| ==> Encodable(list[i])
    ensures DecodeList(ListToVec(list)) == Ok(list)
    decreases list, 0
  {
    if |list| > 0 {
      var c := list[0];
      var tail := ListToVec(list[1..]);
      var u := |ToVec(c)|;
      var s := ListToVec(list);
      assert s == ToVec(c) + tail;
      assert Decode(s) == Ok((c, u)) by {
        EncodeThenDecode(c, tail);
      }
      assert DecodeList(s[u..]) == Ok(list[1..]) by {
        assert s[u..] == tail;
        ListEncodeThenDecode(list[1..]);
      }
      DecodeListCons(s, c, u, list[1..]);
      assert [c] + list[1..] == list;
    }
  }

  // ---------------------------------------------------------------------
  // Decode, then encode

  /** The TLV at the head of `s` decodes with identifier octets of at most
      eight octets (no wrap-around) and with minimal length octets, and so do
      all the TLVs nested in it. */
  predicate CanonicalAt(s: seq<Byte>)
    decreases |s|, 1
  {
    ReadHeader(s).Ok? &&
    CanonicalNode(s, ReadHeader(s).value.0, ReadHeader(s).value.1, ReadHeader(s).value.2)
  }

  /** `CanonicalAt` with the header already read: the tag, where the content
      starts and its length. */
  predicate CanonicalNode(s: seq<Byte>, tag: Tag, start: nat, len: nat)
    decreases |s|, 0
  {
    0 < start && start + len <= |s| &&
    CanonicalHeaderOctets(s) &&
    (IsPrimitive(tag) || CanonicalList(s[start..start + len]))
  }

  /** At most eight identifier octets and minimal length octets. */
  predicate CanonicalHeaderOctets(s: seq<Byte>)
    requires |s| > 0
  {
    TagSpan(s) <= 8 && MinimalLengthField(s[TagSpan(s)..])
  }

  /** Every TLV in a sequence of TLVs is canonical. */
  predicate CanonicalList(s: seq<Byte>)
    decreases |s|, 3
  {
    |s| == 0 ||
    (ReadHeader(s).Ok? && CanonicalSeq(s, ReadHeader(s).value.1 + ReadHeader(s).value.2))
  }

  /** `CanonicalList` of a non-empty `s` whose first TLV spans `u` bytes. */
  predicate CanonicalSeq(s: seq<Byte>, u: nat)
    decreases |s|, 2
  {
    0 < u <= |s| && CanonicalAt(s) && CanonicalList(s[u..])
  }

  /** The encoder reproduces exactly the bytes a canonical decode consumed,
      and `len()` is the number of bytes consumed. */
  lemma {:induction false} DecodeThenEncode(s: seq<Byte>, t: Tlv, u: nat)
    requires Decode(s) == Ok((t, u)) && CanonicalAt(s)
    ensures ToVec(t) == s[..u]
    ensures Len(t) == u
    decreases |s|, 1
  {
    var start, len := DecodeParts(s, t, u);
    ValueRoundTrip(s, t, u, start, len);
    HeaderRoundTrip(s, t.tag, start, len);
    Reassemble(t, s, start, u);
  }

  /** Header octets and content octets that each match `s` make up the whole encoding. */
  lemma Reassemble(t: Tlv, s: seq<Byte>, start: nat, u: nat)
    requires t.tag != 0 && start <= u <= |s|
    requires TagBytes(t.tag) + EncodeLen(ValueLen(t.val)) == s[..start]
    requires ValueToVec(t.val) == s[start..u] && ValueLen(t.val) == u - start
    ensures ToVec(t) == s[..u] && Len(t) == u
  {
    SplitAt(s, start, u);
  }

  lemma SplitAt(s: seq<Byte>, i: nat, j: nat)
    requires i <= j <= |s|
    ensures s[..j] == s[..i] + s[i..j]
  {
  }

  /** The content octets of a canonical decode are re-encoded unchanged, and
      their count is the header's length. */
  lemma {:induction false} ValueRoundTrip(s: seq<Byte>, t: Tlv, u: nat, start: nat, len: nat)
    requires CanonicalAt(s) && ReadHeader(s) == Ok((t.tag, start, len))
    requires 2 <= start && u == start + len && u <= |s|
    requires IsPrimitive(t.tag) ==> t.val == Val(s[start..u])
    requires !IsPrimitive(t.tag) ==> t.val.TlvList? && DecodeList(s[start..u]) == Ok(t.val.list)
    ensures ValueToVec(t.val) == s[start..u] && ValueLen(t.val) == len
    decreases |s|, 0
  {
    var body := s[start..u];
    assert |body| == len;
    if !IsPrimitive(t.tag) {
      assert CanonicalList(body) by {
        CanonicalBody(s, t.tag, start, len);
      }
      ListDecodeThenEncode(body, t.val.list);
      assert ValueToVec(t.val) == ListToVec(t.val.list) && ValueLen(t.val) == ListLen(t.val.list);
    } else {
      assert ValueToVec(t.val) == body && ValueLen(t.val) == |body|;
    }
  }

  /** The content of a canonical constructed TLV is a canonical sequence. */
  lemma CanonicalBody(s: seq<Byte>, tag: Tag, start: nat, len: nat)
    requires CanonicalAt(s) && ReadHeader(s) == Ok((tag, start, len)) && !IsPrimitive(tag)
    ensures start + len <= |s| && CanonicalList(s[start..start + len])
  {
    CanonicalNodeBody(s, tag, start, len);
  }

  lemma CanonicalNodeBody(s: seq<Byte>, tag: Tag, start: nat, len: nat)
    requires CanonicalNode(s, tag, start, len) && !IsPrimitive(tag)
    ensures start + len <= |s| && CanonicalList(s[start..start + len])
  {
  }

  /** The identifier and length octets of a canonical TLV are re-encoded unchanged. */
  lemma HeaderRoundTrip(s: seq<Byte>, tag: Tag, start: nat, len: nat)
    requires CanonicalAt(s) && ReadHeader(s) == Ok((tag, start, len))
    ensures start <= |s| && TagBytes(tag) + EncodeLen(len) == s[..start]
  {
    var tu := ReadHeaderParts(s, tag, start, len);
    CanonicalHeader(s);
    TagOctetsRoundTrip(s);
    LengthOctetsRoundTrip(s[tu..], len, start - tu);
    HeaderJoin(s, tu, start, TagBytes(tag), EncodeLen(len));
  }

  /** A canonical TLV has at most eight identifier octets and minimal length octets. */
  lemma CanonicalHeader(s: seq<Byte>)
    requires CanonicalAt(s)
    ensures |s| > 0 && TagSpan(s) <= |s| && TagSpan(s) <= 8 && MinimalLengthField(s[TagSpan(s)..])
  {
  }

  lemma HeaderJoin(s: seq<Byte>, tu: nat, start: nat, a: seq<Byte>, b: seq<Byte>)
    requires tu <= start <= |s| && a == s[..tu] && b == s[tu..][..start - tu]
    ensures a + b == s[..start]
  {
    assert b == s[tu..start];
  }

  /** The encoder reproduces a canonical sequence of TLVs exactly, and the
      children's lengths add up to its size. */
  lemma {:induction false} ListDecodeThenEncode(s: seq<Byte>, list: seq<Tlv>)
    requires DecodeList(s) == Ok(list) && CanonicalList(s)
    ensures ListToVec(list) == s && ListLen(list) == |s|
    decreases |s|, 2
  {
    if |s| > 0 {
      var c, u, tail := DecodeListParts(s, list);
      CanonicalListParts(s, c, u);
      DecodeThenEncode(s, c, u);
      ListDecodeThenEncode(s[u..], tail);
      ListJoin(s, u, c, tail, list);
    }
  }

  lemma ListJoin(s: seq<Byte>, u: nat, c: Tlv, tail: seq<Tlv>, list: seq<Tlv>)
    requires u <= |s| && list == [c] + tail
    requires ToVec(c) == s[..u] && Len(c) == u
    requires ListToVec(tail) == s[u..] && ListLen(tail) == |s| - u
    ensures ListToVec(list) == s && ListLen(list) == |s|
  {
    assert list[0] == c && list[1..] == tail;
    ConcatOfSplit(ToVec(c), ListToVec(tail), s, u);
  }

  lemma ConcatOfSplit(a: seq<Byte>, b: seq<Byte>, s: seq<Byte>, u: nat)
    requires u <= |s| && a == s[..u] && b == s[u..]
    ensures a + b == s
  {
  }

  /** Each TLV of a canonical sequence is canonical, and so is what follows it. */
  lemma CanonicalListParts(s: seq<Byte>, c: Tlv, u: nat)
    requires CanonicalList(s) && |s| > 0 && Decode(s) == Ok((c, u))
    ensures u <= |s| && CanonicalAt(s) && CanonicalList(s[u..])
  {
    var start, len := DecodeParts(s, c, u);
    CanonicalListHead(s, c.tag, start, len, u);
  }

  lemma CanonicalListHead(s: seq<Byte>, tag: Tag, start: nat, len: nat, u: nat)
    requires CanonicalList(s) && |s| > 0 && ReadHeader(s) == Ok((tag, start, len)) && u == start + len
    ensures CanonicalSeq(s, u)
  {
  }

  /** Identifier octets of at most eight octets are the encoder's tag octets. */
  lemma TagOctetsRoundTrip(s: seq<Byte>)
    requires |s| > 0 && ReadTag(s).Ok? && TagSpan(s) <= 8
    ensures TagSpan(s) <= |s| && TagBytes(ReadTag(s).value.0) == s[..TagSpan(s)]
  {
    var n := TagSpan(s);
    assert s[0] != 0;
    assert s[..n][0] == s[0];
    MinimalBEOfBeValue(s[..n]);
  }

  /** Minimal length octets are the encoder's length octets. */
  lemma LengthOctetsRoundTrip(q: seq<Byte>, len: nat, lu: nat)
    requires MinimalLengthField(q) && ReadLen(q) == Ok((len, lu))
    ensures lu <= |q| && EncodeLen(len) == q[..lu]
  {
    MinimalLengthFieldIsEncodeLen(q);
    if HasTopBit(q[0]) {
      assert Min(q[0] - 0x80, |q| - 1) == q[0] - 0x80;
    }
  }
}
