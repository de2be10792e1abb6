/** The unit tests and documentation examples of src/tlv.rs and src/lib.rs,
    and the property test of tests/lib.rs, stated as facts about the model. */
module TlvExamples {
  import opened Octets
  import opened TlvCodec
  import opened TlvRoundTrip
  import opened TlvPath
  import Legacy

  // ---------------------------------------------------------------------
  // tag_len_test

  lemma TagLenExamples()
    ensures TagLen(0x03) == 1
    ensures TagLen(0x0303) == 2
    ensures TagLen(0x030303) == 3
    ensures TagLen(0x03030303) == 4
  {
    MinimalBEOne(0x03);
    MinimalBEAppend(0x0303, 0x03, 0x03);
    MinimalBEAppend(0x030303, 0x0303, 0x03);
    MinimalBEAppend(0x03030303, 0x030303, 0x03);
  }

  // ---------------------------------------------------------------------
  // to_vec_test: the length octets the encoder emits

  lemma EncodeLen127()
    ensures EncodeLen(127) == [0x7F]
  {
  }

  /** Long-form length octets: the count octet, then the minimal octets. */
  lemma EncodeLenLong(n: nat, bs: seq<Byte>)
    requires 0x7F < n && MinimalBE(n) == bs && |bs| < 128
    ensures EncodeLen(n) == [0x80 + |bs|] + bs
  {
  }

  /** The minimal octets of `hi * 256 + lo` are those of `hi` followed by `lo`. */
  lemma MinimalBEAppend(n: nat, hi: nat, lo: Byte)
    requires n == hi * 256 + lo && hi > 0
    ensures MinimalBE(n) == MinimalBE(hi) + [lo]
  {
    DivUnique(n, hi, lo, 256);
    assert n % 256 == lo;
  }

  lemma MinimalBEOne(n: nat)
    requires 0 < n < 256
    ensures MinimalBE(n) == [n]
  {
    assert MinimalBE(n / 256) == [];
  }

  lemma EncodeLen255()
    ensures EncodeLen(255) == [0x81, 0xFF]
  {
    MinimalBEOne(255);
    EncodeLenLong(255, [0xFF]);
  }

  lemma EncodeLen256()
    ensures EncodeLen(256) == [0x82, 0x01, 0x00]
  {
    MinimalBEOne(1);
    MinimalBEAppend(256, 1, 0x00);
    EncodeLenLong(256, [0x01, 0x00]);
  }

  lemma EncodeLenLarge()
    ensures EncodeLen(0xFF_FF01) == [0x83, 0xFF, 0xFF, 0x01]
  {
    MinimalBEOne(0xFF);
    MinimalBEAppend(0xFFFF, 0xFF, 0xFF);
    MinimalBEAppend(0xFF_FF01, 0xFFFF, 0x01);
    EncodeLenLong(0xFF_FF01, [0xFF, 0xFF, 0x01]);
  }

  /** The header octets at the head of a primitive TLV with a one-octet tag. */
  lemma ToVecHeader(tag: Tag, v: seq<Byte>, lb: seq<Byte>, expected: seq<Byte>)
    requires 0 < tag < 256 && EncodeLen(|v|) == lb && expected == [tag] + lb
    ensures ToVec(Tlv(tag, Val(v)))[..|expected|] == expected
  {
    MinimalBEOne(tag);
    assert ToVec(Tlv(tag, Val(v))) == expected + v;
  }

  lemma ToVecOne()
    ensures ToVec(Tlv(0x01, Val([0]))) == [0x01, 0x01, 0x00]
  {
    MinimalBEOne(0x01);
  }

  lemma ToVec127(v: seq<Byte>)
    requires |v| == 127
    ensures ToVec(Tlv(0x01, Val(v)))[..2] == [0x01, 0x7F]
  {
    ToVecHeader(0x01, v, [0x7F], [0x01, 0x7F]);
  }

  lemma ToVec255(v: seq<Byte>)
    requires |v| == 255
    ensures ToVec(Tlv(0x01, Val(v)))[..3] == [0x01, 0x81, 0xFF]
  {
    EncodeLen255();
    ToVecHeader(0x01, v, [0x81, 0xFF], [0x01, 0x81, 0xFF]);
  }

  lemma ToVec256(v: seq<Byte>)
    requires |v| == 256
    ensures ToVec(Tlv(0x02, Val(v)))[..4] == [0x02, 0x82, 0x01, 0x00]
  {
    EncodeLen256();
    ToVecHeader(0x02, v, [0x82, 0x01, 0x00], [0x02, 0x82, 0x01, 0x00]);
  }

  lemma ToVecLarge(v: seq<Byte>)
    requires |v| == 0xFF_FF01
    ensures ToVec(Tlv(0x03, Val(v)))[..5] == [0x03, 0x83, 0xFF, 0xFF, 0x01]
  {
    EncodeLenLarge();
    ToVecHeader(0x03, v, [0x83, 0xFF, 0xFF, 0x01], [0x03, 0x83, 0xFF, 0xFF, 0x01]);
  }

  // ---------------------------------------------------------------------
  // value_to_vec_test

  lemma OneOctetTag(tag: Tag)
    requires 0 < tag < 256
    ensures TagBytes(tag) == [tag] && TagLen(tag) == 1 && LeadOctet(tag) == tag
    ensures !IsLongTagLead(tag) ==> EncodableTag(tag)
  {
    MinimalBEOne(tag);
  }

  lemma ValueToVecLeaves()
    ensures ValueToVec(Nothing) == []
    ensures ValueToVec(Val([1, 2, 3])) == [1, 2, 3]
    ensures ToVec(Tlv(1, Nothing)) == [1, 0]
    ensures ToVec(Tlv(2, Val([1, 2, 3]))) == [2, 3, 1, 2, 3]
  {
    OneOctetTag(1);
    OneOctetTag(2);
  }

  /** One child with one-octet tags and no value encodes as four octets. */
  lemma EmptyChildToVec(outer: Tag, inner: Tag)
    requires 0 < outer < 256 && 0 < inner < 256
    ensures ToVec(Tlv(outer, TlvList([Tlv(inner, Nothing)]))) == [outer, 2, inner, 0]
  {
    OneOctetTag(outer);
    OneOctetTag(inner);
    var list := [Tlv(inner, Nothing)];
    assert ToVec(Tlv(inner, Nothing)) == [inner] + [0] + [];
    assert ListToVec(list) == [inner, 0] by {
      assert ListToVec(list[1..]) == [];
    }
    assert ListLen(list) == 2 by {
      assert ListLen(list[1..]) == 0;
    }
    assert [outer] + [2] + [inner, 0] == [outer, 2, inner, 0];
  }

  lemma ValueToVecInner()
    ensures ToVec(Tlv(3, TlvList([Tlv(4, Nothing)]))) == [3, 2, 4, 0]
  {
    EmptyChildToVec(3, 4);
  }

  /** Three children encode as their three encodings in order. */
  lemma ListToVecOfThree(c1: Tlv, c2: Tlv, c3: Tlv)
    ensures ListToVec([c1, c2, c3]) == ToVec(c1) + ToVec(c2) + ToVec(c3)
  {
    var list := [c1, c2, c3];
    assert list[1..][1..][1..] == [];
    assert ListToVec(list[1..][1..]) == ToVec(c3);
  }

  lemma ValueToVecExample()
    ensures ValueToVec(TlvList([Tlv(1, Nothing), Tlv(2, Val([1, 2, 3])), Tlv(3, TlvList([Tlv(4, Nothing)]))]))
      == [1, 0, 2, 3, 1, 2, 3, 3, 2, 4, 0]
  {
    var e: seq<Byte> := [1, 0] + [2, 3, 1, 2, 3] + [3, 2, 4, 0];
    assert e == [1, 0, 2, 3, 1, 2, 3, 3, 2, 4, 0];
    ValueToVecLeaves();
    ValueToVecInner();
    ListToVecOfThree(Tlv(1, Nothing), Tlv(2, Val([1, 2, 3])), Tlv(3, TlvList([Tlv(4, Nothing)])));
  }

  // ---------------------------------------------------------------------
  // Tlv::new

  /** A value variant that contradicts the tag is refused; a constructed tag
      takes a child list. */
  lemma NewExamples()
    ensures New(0x01, Nothing) == Ok(Tlv(0x01, Nothing))
    ensures New(0x01, TlvList([])) == Err(ValExpected(0x01))
    ensures New(0x21, Val([0])) == Err(TlvListExpected(0x21))
    ensures New(0x21, TlvList([Tlv(0x01, Nothing)])).Ok?
    ensures ToVec(Tlv(0x21, TlvList([Tlv(0x01, Nothing)]))) == [0x21, 0x02, 0x01, 0x00]
  {
    assert LeadOctet(0x01) == 0x01;
    assert LeadOctet(0x21) == 0x21;
    EmptyChildToVec(0x21, 0x01);
  }

  // ---------------------------------------------------------------------
  // from_vec_test: each input decodes to a tree that encodes back to it

  /** An encodable tree whose encoding is `input` is what `from_vec` returns. */
  lemma FromVecOfEncoding(t: Tlv, input: seq<Byte>)
    requires Encodable(t) && ToVec(t) == input
    ensures FromVec(input) == Ok(t) && ToVec(FromVec(input).value) == input
  {
    EncodeThenDecode(t, []);
    assert ToVec(t) + [] == input;
  }

  lemma FromVecShortTag()
    ensures FromVec([0x01, 0x02, 0x00, 0x00]) == Ok(Tlv(0x01, Val([0x00, 0x00])))
    ensures ToVec(FromVec([0x01, 0x02, 0x00, 0x00]).value) == [0x01, 0x02, 0x00, 0x00]
  {
    var t := Tlv(0x01, Val([0x00, 0x00]));
    OneOctetTag(0x01);
    assert LeadOctet(0x01) == 0x01;
    assert Encodable(t);
    FromVecOfEncoding(t, [0x01, 0x02, 0x00, 0x00]);
  }

  /** A primitive TLV whose identifier octets are `tb` decodes from its
      header and content. */
  lemma PrimitiveFromVec(tag: Tag, tb: seq<Byte>, content: seq<Byte>, input: seq<Byte>)
    requires TagBytes(tag) == tb && EncodableTag(tag) && IsPrimitive(tag) && |content| < TWO_64
    requires input == tb + EncodeLen(|content|) + content
    ensures FromVec(input) == Ok(Tlv(tag, Val(content)))
    ensures ToVec(FromVec(input).value) == input
  {
    var t := Tlv(tag, Val(content));
    assert Encodable(t);
    FromVecOfEncoding(t, input);
  }

  lemma FromVecTwoOctetTag()
    ensures FromVec([0x9F, 0x02, 0x02, 0x00, 0x00]) == Ok(Tlv(0x9F02, Val([0x00, 0x00])))
    ensures ToVec(FromVec([0x9F, 0x02, 0x02, 0x00, 0x00]).value) == [0x9F, 0x02, 0x02, 0x00, 0x00]
  {
    MinimalBEOne(0x9F);
    MinimalBEAppend(0x9F02, 0x9F, 0x02);
    assert LeadOctet(0x9F02) == 0x9F;
    PrimitiveFromVec(0x9F02, [0x9F, 0x02], [0x00, 0x00], [0x9F, 0x02, 0x02, 0x00, 0x00]);
  }

  /** 128 content octets need the long form 81 80. */
  lemma FromVecLongLength(zeros: seq<Byte>)
    requires |zeros| == 0x80 && forall i :: 0 <= i < |zeros| ==> zeros[i] == 0
    ensures FromVec([0x9F, 0x02, 0x81, 0x80] + zeros) == Ok(Tlv(0x9F02, Val(zeros)))
    ensures ToVec(FromVec([0x9F, 0x02, 0x81, 0x80] + zeros).value) == [0x9F, 0x02, 0x81, 0x80] + zeros
  {
    var head: seq<Byte> := [0x9F, 0x02, 0x81, 0x80];
    assert head == [0x9F, 0x02] + [0x81, 0x80];
    MinimalBEOne(0x9F);
    MinimalBEAppend(0x9F02, 0x9F, 0x02);
    assert LeadOctet(0x9F02) == 0x9F;
    MinimalBEOne(0x80);
    EncodeLenLong(0x80, [0x80]);
    PrimitiveFromVec(0x9F02, [0x9F, 0x02], zeros, head + zeros);
  }

  /** A four-octet tag number: 5F, then C8 and 80 with bit 0x80 set, then 01. */
  lemma FromVecFourOctetTag()
    ensures FromVec([0x5F, 0xC8, 0x80, 0x01, 0x02, 0x01, 0x02]) == Ok(Tlv(0x5FC8_8001, Val([0x01, 0x02])))
    ensures ToVec(FromVec([0x5F, 0xC8, 0x80, 0x01, 0x02, 0x01, 0x02]).value) == [0x5F, 0xC8, 0x80, 0x01, 0x02, 0x01, 0x02]
  {
    MinimalBEOne(0x5F);
    MinimalBEAppend(0x5FC8, 0x5F, 0xC8);
    MinimalBEAppend(0x5FC880, 0x5FC8, 0x80);
    MinimalBEAppend(0x5FC8_8001, 0x5FC880, 0x01);
    assert LeadOctet(0x5FC8_8001) == 0x5F;
    PrimitiveFromVec(0x5FC8_8001, [0x5F, 0xC8, 0x80, 0x01], [0x01, 0x02], [0x5F, 0xC8, 0x80, 0x01, 0x02, 0x01, 0x02]);
  }

  // ---------------------------------------------------------------------
  // The examples in the documentation comments of src/tlv.rs

  lemma LenDocExample()
    ensures New(0x01, Val([0x02, 0x03])) == Ok(Tlv(0x01, Val([0x02, 0x03])))
    ensures Len(Tlv(0x01, Val([0x02, 0x03]))) == 4
  {
    OneOctetTag(0x01);
  }

  /** A one-octet primitive tag with two content octets. */
  lemma TwoOctetContent(tag: Tag, a: Byte, b: Byte)
    requires 0 < tag < 256
    ensures ToVec(Tlv(tag, Val([a, b]))) == [tag, 0x02, a, b] && Len(Tlv(tag, Val([a, b]))) == 4
  {
    OneOctetTag(tag);
    assert [tag] + [0x02] + [a, b] == [tag, 0x02, a, b];
  }

  /** Two children of four octets each. */
  lemma TwoChildren(list: seq<Tlv>, e1: seq<Byte>, e2: seq<Byte>)
    requires |list| == 2 && ToVec(list[0]) == e1 && ToVec(list[1]) == e2
    requires Len(list[0]) == 4 && Len(list[1]) == 4
    ensures ListToVec(list) == e1 + e2 && ListLen(list) == 8
  {
    assert list[1..][1..] == [];
    assert ListLen(list[1..]) == 4;
    assert ListToVec(list[1..]) == e2;
  }

  /** A one-octet tag over children whose encodings are `e`, short enough
      for a one-octet length. */
  lemma ShortListToVec(tag: Tag, list: seq<Tlv>, e: seq<Byte>)
    requires 0 < tag < 256 && ListToVec(list) == e && ListLen(list) == |e| <= 0x7F
    ensures ToVec(Tlv(tag, TlvList(list))) == [tag, |e|] + e
  {
    OneOctetTag(tag);
  }

  lemma DocBytes(e: seq<Byte>)
    requires e == [0x01, 0x02, 0xA1, 0xA2] + [0x02, 0x02, 0xB1, 0xB2]
    ensures |e| == 8 && [0x21, 0x08] + e == [0x21, 0x08, 0x01, 0x02, 0xA1, 0xA2, 0x02, 0x02, 0xB1, 0xB2]
  {
  }

  lemma ToVecDocExample(c1: Tlv, c2: Tlv)
    requires c1 == Tlv(0x01, Val([0xA1, 0xA2])) && c2 == Tlv(0x02, Val([0xB1, 0xB2]))
    ensures New(0x01, c1.val) == Ok(c1) && New(0x02, c2.val) == Ok(c2)
    ensures New(0x21, TlvList([c1, c2])) == Ok(Tlv(0x21, TlvList([c1, c2])))
    ensures ToVec(Tlv(0x21, TlvList([c1, c2]))) == [0x21, 0x08, 0x01, 0x02, 0xA1, 0xA2, 0x02, 0x02, 0xB1, 0xB2]
  {
    OneOctetTag(0x01);
    OneOctetTag(0x02);
    OneOctetTag(0x21);
    TwoOctetContent(0x01, 0xA1, 0xA2);
    TwoOctetContent(0x02, 0xB1, 0xB2);
    var e: seq<Byte> := [0x01, 0x02, 0xA1, 0xA2] + [0x02, 0x02, 0xB1, 0xB2];
    TwoChildren([c1, c2], [0x01, 0x02, 0xA1, 0xA2], [0x02, 0x02, 0xB1, 0xB2]);
    ShortListToVec(0x21, [c1, c2], e);
    DocBytes(e);
  }

  /** `01 00` is tag 1 with empty content: one tag octet, two in all. */
  lemma FromVecDocExample()
    ensures FromVec([0x01, 0x00]) == Ok(Tlv(0x01, Val([])))
    ensures TagLen(FromVec([0x01, 0x00]).value.tag) == 1 && Len(FromVec([0x01, 0x00]).value) == 2
  {
    OneOctetTag(0x01);
    assert [0x01] + EncodeLen(0) + [] == [0x01, 0x00];
    PrimitiveFromVec(0x01, [0x01], [], [0x01, 0x00]);
  }

  // ---------------------------------------------------------------------
  // find_val_test

  /** A constructed tag over one child whose encoding needs a one-octet length. */
  lemma OneChildOf(tag: Tag, tb: seq<Byte>, c: Tlv, cv: seq<Byte>)
    requires TagBytes(tag) == tb && EncodableTag(tag) && !IsPrimitive(tag)
    requires Encodable(c) && ToVec(c) == cv && |cv| <= 0x7F
    ensures ToVec(Tlv(tag, TlvList([c]))) == tb + [|cv|] + cv
    ensures Encodable(Tlv(tag, TlvList([c])))
  {
    EncodableHasNonZeroTags(c);
    ToVecSize(c);
    var list := [c];
    assert list[1..] == [];
    assert ListToVec(list) == cv;
    assert ListLen(list) == |cv|;
  }

  /** A constructed TLV with a one-octet tag and a single short child. */
  lemma OneChild(tag: Tag, c: Tlv, cv: seq<Byte>)
    requires 0 < tag < 256 && !IsLongTagLead(tag) && IsConstructedOctet(tag)
    requires Encodable(c) && ToVec(c) == cv && |cv| <= 0x7F
    ensures ToVec(Tlv(tag, TlvList([c]))) == [tag, |cv|] + cv
    ensures Encodable(Tlv(tag, TlvList([c])))
  {
    OneOctetTag(tag);
    OneChildOf(tag, [tag], c, cv);
    assert [tag] + [|cv|] + cv == [tag, |cv|] + cv;
  }

  lemma LeafAA(leaf: Tlv)
    requires leaf == Tlv(0x03, Val([0xAA]))
    ensures ToVec(leaf) == [0x03, 0x01, 0xAA] && Encodable(leaf)
  {
    OneOctetTag(0x03);
  }

  lemma MidAA(leaf: Tlv, mid: Tlv)
    requires leaf == Tlv(0x03, Val([0xAA])) && mid == Tlv(0x22, TlvList([leaf]))
    ensures ToVec(mid) == [0x22, 0x03, 0x03, 0x01, 0xAA] && Encodable(mid)
  {
    LeafAA(leaf);
    OneChild(0x22, leaf, [0x03, 0x01, 0xAA]);
  }

  lemma TopAA(leaf: Tlv, mid: Tlv, top: Tlv)
    requires leaf == Tlv(0x03, Val([0xAA])) && mid == Tlv(0x22, TlvList([leaf]))
    requires top == Tlv(0x21, TlvList([mid]))
    ensures ToVec(top) == [0x21, 0x05, 0x22, 0x03, 0x03, 0x01, 0xAA] && Encodable(top)
  {
    MidAA(leaf, mid);
    OneChild(0x21, mid, [0x22, 0x03, 0x03, 0x01, 0xAA]);
  }

  /** `21 05 22 03 03 01 AA` is 21 holding 22 holding the primitive 03 with value AA. */
  lemma FindValTree(leaf: Tlv, mid: Tlv, top: Tlv)
    requires leaf == Tlv(0x03, Val([0xAA])) && mid == Tlv(0x22, TlvList([leaf]))
    requires top == Tlv(0x21, TlvList([mid]))
    ensures FromVec([0x21, 0x05, 0x22, 0x03, 0x03, 0x01, 0xAA]) == Ok(top)
  {
    TopAA(leaf, mid, top);
    FromVecOfEncoding(top, [0x21, 0x05, 0x22, 0x03, 0x03, 0x01, 0xAA]);
  }

  /** Two hexadecimal digits spell a number below 256. */
  lemma TwoDigits(seg: string, hi: char, lo: char)
    requires seg == [hi, lo] && IsHexDigit(hi) && IsHexDigit(lo)
    ensures ParseHex(seg) == Ok(HexValue(hi) * 16 + HexValue(lo))
  {
    assert seg[..1] == [hi] && seg[..1][..0] == [];
    assert AllHex(seg);
    assert HexNumber(seg[..1]) == HexValue(hi);
    assert HexNumber(seg) == HexValue(hi) * 16 + HexValue(lo);
  }

  lemma JoinThree(a: string, b: string, c: string)
    ensures Join([a, b, c]) == a + ("/" + (b + ("/" + c)))
  {
    var segs := [a, b, c];
    assert segs[1..] == [b, c] && segs[1..][1..] == [c];
    assert Join(segs[1..]) == b + "/" + c;
  }

  /** A path whose path characters are `pieces` joined with '/' names the
      tags the pieces spell. */
  lemma GetPathOfPieces(p: string, pieces: seq<string>, tags: seq<Tag>)
    requires |pieces| >= 1 && forall i :: 0 <= i < |pieces| ==> NoSeparator(pieces[i])
    requires Filter(p) == Join(pieces) && ParseAll(pieces) == Ok(tags)
    ensures GetPath(p) == Ok(tags)
  {
    SplitJoin(pieces);
  }

  /** Three runs of path characters with a separator that filters to '/'
      between them filter to the three runs with '/' between them. */
  lemma FilterOfThree(a: string, b: string, c: string, sep: string)
    requires Filter(a) == a && Filter(b) == b && Filter(c) == c && Filter(sep) == "/"
    ensures Filter(a + (sep + (b + (sep + c)))) == a + ("/" + (b + ("/" + c)))
  {
    FilterConcat(sep, c);
    FilterConcat(b, sep + c);
    FilterConcat(sep, b + (sep + c));
    FilterConcat(a, sep + (b + (sep + c)));
  }

  lemma FilterExample(p: string)
    requires p == "21 / 22 / 03"
    ensures Filter(p) == Join(["21", "22", "03"])
  {
    var sep: string := " / ";
    assert p == "21" + (sep + ("22" + (sep + "03")));
    assert Filter(sep) == "/";
    FilterKeeps("21");
    FilterKeeps("22");
    FilterKeeps("03");
    FilterOfThree("21", "22", "03", sep);
    JoinThree("21", "22", "03");
  }

  lemma ParseExample()
    ensures ParseAll(["21", "22", "03"]) == Ok([0x21, 0x22, 0x03])
  {
    var segs := ["21", "22", "03"];
    TwoDigits(segs[0], '2', '1');
    TwoDigits(segs[1], '2', '2');
    TwoDigits(segs[2], '0', '3');
    var r := ParseAll(segs);
    assert r.Ok? && |r.value| == 3;
    assert r.value == [0x21, 0x22, 0x03];
  }

  /** Spaces are dropped, so "21 / 22 / 03" reads as the three tags. */
  lemma GetPathExample(p: string)
    requires p == "21 / 22 / 03"
    ensures GetPath(p) == Ok([0x21, 0x22, 0x03])
  {
    var pieces := ["21", "22", "03"];
    FilterExample(p);
    ParseExample();
    assert NoSeparator(pieces[0]) && NoSeparator(pieces[1]) && NoSeparator(pieces[2]);
    GetPathOfPieces(p, pieces, [0x21, 0x22, 0x03]);
  }

  /** Two levels of single children, followed tag by tag. */
  lemma WalkTwo(top: Tlv, mid: Tlv, leaf: Tlv)
    requires top.val == TlvList([mid]) && mid.val == TlvList([leaf])
    ensures Walk(top, [mid.tag, leaf.tag]) == Some(leaf.val)
  {
    var rest := [mid.tag, leaf.tag];
    assert FirstWithTag([mid], mid.tag) == Some(0);
    assert FirstWithTag([leaf], leaf.tag) == Some(0);
    assert rest[1..] == [leaf.tag];
  }

  /** "21 / 22 / 03" on the tree of `21 05 22 03 03 01 AA` gives the value AA. */
  lemma FindValExample(p: string, leaf: Tlv, mid: Tlv, top: Tlv)
    requires p == "21 / 22 / 03"
    requires leaf == Tlv(0x03, Val([0xAA])) && mid == Tlv(0x22, TlvList([leaf]))
    requires top == Tlv(0x21, TlvList([mid]))
    ensures FindVal(top, p) == Some(Val([0xAA]))
  {
    GetPathExample(p);
    var path: seq<Tag> := [0x21, 0x22, 0x03];
    assert path[1..] == [mid.tag, leaf.tag];
    WalkTwo(top, mid, leaf);
  }

  // ---------------------------------------------------------------------
  // The documentation example of `find_val`: `6F 09 A5 07 BF 0C 04 DF 7F 01 55`
  // holds DF7F, with value 55, under BF0C under A5 under 6F.

  /** A two-octet tag number: a lead octet announcing more, then a last octet. */
  lemma TwoOctetTagNumber(tag: Tag, hi: Byte, lo: Byte)
    requires tag == hi * 256 + lo && IsLongTagLead(hi) && !HasTopBit(lo)
    ensures TagBytes(tag) == [hi, lo] && EncodableTag(tag) && LeadOctet(tag) == hi
  {
    MinimalBEOne(hi);
    MinimalBEAppend(tag, hi, lo);
    DivUnique(tag, hi, lo, 256);
    assert LeadOctet(tag) == LeadOctet(hi);
  }

  lemma DocLeaf(leaf: Tlv)
    requires leaf == Tlv(0xDF7F, Val([0x55]))
    ensures ToVec(leaf) == [0xDF, 0x7F, 0x01, 0x55] && Encodable(leaf)
  {
    TwoOctetTagNumber(0xDF7F, 0xDF, 0x7F);
    assert [0xDF, 0x7F] + [0x01] + [0x55] == [0xDF, 0x7F, 0x01, 0x55];
  }

  lemma DocInner(leaf: Tlv, inner: Tlv)
    requires leaf == Tlv(0xDF7F, Val([0x55])) && inner == Tlv(0xBF0C, TlvList([leaf]))
    ensures ToVec(inner) == [0xBF, 0x0C, 0x04, 0xDF, 0x7F, 0x01, 0x55] && Encodable(inner)
  {
    DocLeaf(leaf);
    TwoOctetTagNumber(0xBF0C, 0xBF, 0x0C);
    OneChildOf(0xBF0C, [0xBF, 0x0C], leaf, [0xDF, 0x7F, 0x01, 0x55]);
    assert [0xBF, 0x0C] + [0x04] + [0xDF, 0x7F, 0x01, 0x55] == [0xBF, 0x0C, 0x04, 0xDF, 0x7F, 0x01, 0x55];
  }

  lemma DocTree(leaf: Tlv, inner: Tlv, mid: Tlv, top: Tlv)
    requires leaf == Tlv(0xDF7F, Val([0x55])) && inner == Tlv(0xBF0C, TlvList([leaf]))
    requires mid == Tlv(0xA5, TlvList([inner])) && top == Tlv(0x6F, TlvList([mid]))
    ensures ToVec(top) == [0x6F, 0x09, 0xA5, 0x07, 0xBF, 0x0C, 0x04, 0xDF, 0x7F, 0x01, 0x55]
    ensures Encodable(top)
  {
    var v3: seq<Byte> := [0xBF, 0x0C, 0x04, 0xDF, 0x7F, 0x01, 0x55];
    DocInner(leaf, inner);
    OneChild(0xA5, inner, v3);
    OneChild(0x6F, mid, [0xA5, 0x07] + v3);
    DocBytesTree(v3);
  }

  lemma DocBytesTree(v3: seq<Byte>)
    requires v3 == [0xBF, 0x0C, 0x04, 0xDF, 0x7F, 0x01, 0x55]
    ensures |[0xA5, 0x07] + v3| == 9
    ensures [0x6F, 0x09] + ([0xA5, 0x07] + v3) == [0x6F, 0x09, 0xA5, 0x07, 0xBF, 0x0C, 0x04, 0xDF, 0x7F, 0x01, 0x55]
  {
  }

  /** Four hexadecimal digits. */
  lemma FourDigits(seg: string, a: char, b: char, c: char, d: char)
    requires seg == [a, b, c, d] && IsHexDigit(a) && IsHexDigit(b) && IsHexDigit(c) && IsHexDigit(d)
    ensures ParseHex(seg) == Ok(((HexValue(a) * 16 + HexValue(b)) * 16 + HexValue(c)) * 16 + HexValue(d))
  {
    assert AllHex(seg);
    assert seg[..3] == [a, b, c] && seg[..3][..2] == [a, b];
    assert seg[..3][..2][..1] == [a] && seg[..3][..2][..1][..0] == [];
    assert HexNumber([a]) == HexValue(a);
    assert HexNumber([a, b]) == HexValue(a) * 16 + HexValue(b);
    assert HexNumber([a, b, c]) == (HexValue(a) * 16 + HexValue(b)) * 16 + HexValue(c);
  }

  lemma DocParse()
    ensures ParseAll(["6F", "A5", "BF0C", "DF7F"]) == Ok([0x6F, 0xA5, 0xBF0C, 0xDF7F])
  {
    var segs := ["6F", "A5", "BF0C", "DF7F"];
    TwoDigits(segs[0], '6', 'F');
    TwoDigits(segs[1], 'A', '5');
    FourDigits(segs[2], 'B', 'F', '0', 'C');
    FourDigits(segs[3], 'D', 'F', '7', 'F');
    var r := ParseAll(segs);
    assert r.Ok? && |r.value| == 4;
    assert r.value == [0x6F, 0xA5, 0xBF0C, 0xDF7F];
  }

  lemma JoinFour(a: string, b: string, c: string, d: string)
    ensures Join([a, b, c, d]) == a + ("/" + (b + ("/" + (c + ("/" + d)))))
  {
    var segs := [a, b, c, d];
    assert segs[1..] == [b, c, d];
    JoinThree(b, c, d);
  }

  lemma FilterOfFour(a: string, b: string, c: string, d: string, sep: string)
    requires Filter(a) == a && Filter(b) == b && Filter(c) == c && Filter(d) == d && Filter(sep) == "/"
    ensures Filter(a + (sep + (b + (sep + (c + (sep + d)))))) == a + ("/" + (b + ("/" + (c + ("/" + d)))))
  {
    var x := b + (sep + (c + (sep + d)));
    FilterOfThree(b, c, d, sep);
    FilterConcat(sep, x);
    FilterConcat(a, sep + x);
  }

  lemma HexPieceKeeps(x: string)
    requires AllHex(x)
    ensures Filter(x) == x
  {
    FilterKeeps(x);
  }

  lemma SeparatorFilter(sep: string)
    requires sep == " / "
    ensures Filter(sep) == "/"
  {
    var tail := sep[1..][1..];
    assert !IsPathChar(sep[0]) && IsPathChar(sep[1..][0]) && !IsPathChar(tail[0]);
    assert tail[1..] == [];
    assert Filter(tail) == [];
    assert Filter(sep[1..]) == [sep[1..][0]] + Filter(tail);
  }

  lemma DocPieces(a: string, b: string, c: string, d: string, sep: string)
    requires a == "6F" && b == "A5" && c == "BF0C" && d == "DF7F" && sep == " / "
    ensures Filter(a) == a && Filter(b) == b && Filter(c) == c && Filter(d) == d && Filter(sep) == "/"
  {
    assert AllHex(a) && AllHex(b);
    assert AllHex(c) && AllHex(d);
    HexPieceKeeps(a);
    HexPieceKeeps(b);
    HexPieceKeeps(c);
    HexPieceKeeps(d);
    SeparatorFilter(sep);
  }

  lemma DocFilter(p: string)
    requires p == "6F / A5 / BF0C / DF7F"
    ensures Filter(p) == Join(["6F", "A5", "BF0C", "DF7F"])
  {
    var a, b, c, d, sep: string := "6F", "A5", "BF0C", "DF7F", " / ";
    assert p == a + (sep + (b + (sep + (c + (sep + d)))));
    DocPieces(a, b, c, d, sep);
    FilterOfFour(a, b, c, d, sep);
    JoinFour(a, b, c, d);
  }

  lemma DocNoSeparators(pieces: seq<string>)
    requires pieces == ["6F", "A5", "BF0C", "DF7F"]
    ensures forall i :: 0 <= i < |pieces| ==> NoSeparator(pieces[i])
  {
    assert AllHex(pieces[0]) && AllHex(pieces[1]);
    assert AllHex(pieces[2]) && AllHex(pieces[3]);
  }

  lemma DocPath(p: string)
    requires p == "6F / A5 / BF0C / DF7F"
    ensures GetPath(p) == Ok([0x6F, 0xA5, 0xBF0C, 0xDF7F])
  {
    var pieces := ["6F", "A5", "BF0C", "DF7F"];
    DocFilter(p);
    DocParse();
    DocNoSeparators(pieces);
    GetPathOfPieces(p, pieces, [0x6F, 0xA5, 0xBF0C, 0xDF7F]);
  }

  /** Three levels of single children, followed tag by tag. */
  lemma WalkThree(top: Tlv, mid: Tlv, inner: Tlv, leaf: Tlv)
    requires top.val == TlvList([mid]) && mid.val == TlvList([inner]) && inner.val == TlvList([leaf])
    ensures Walk(top, [mid.tag, inner.tag, leaf.tag]) == Some(leaf.val)
  {
    var rest := [mid.tag, inner.tag, leaf.tag];
    assert FirstWithTag([mid], mid.tag) == Some(0);
    assert rest[1..] == [inner.tag, leaf.tag];
    WalkTwo(mid, inner, leaf);
  }

  lemma FindValDocExample(p: string, leaf: Tlv, inner: Tlv, mid: Tlv, top: Tlv)
    requires p == "6F / A5 / BF0C / DF7F"
    requires leaf == Tlv(0xDF7F, Val([0x55])) && inner == Tlv(0xBF0C, TlvList([leaf]))
    requires mid == Tlv(0xA5, TlvList([inner])) && top == Tlv(0x6F, TlvList([mid]))
    ensures FromVec([0x6F, 0x09, 0xA5, 0x07, 0xBF, 0x0C, 0x04, 0xDF, 0x7F, 0x01, 0x55]) == Ok(top)
    ensures FindVal(top, p) == Some(Val([0x55]))
  {
    DocTree(leaf, inner, mid, top);
    FromVecOfEncoding(top, [0x6F, 0x09, 0xA5, 0x07, 0xBF, 0x0C, 0x04, 0xDF, 0x7F, 0x01, 0x55]);
    DocPath(p);
    var path: seq<Tag> := [0x6F, 0xA5, 0xBF0C, 0xDF7F];
    assert path[1..] == [mid.tag, inner.tag, leaf.tag];
    WalkThree(top, mid, inner, leaf);
  }

  // ---------------------------------------------------------------------
  // Error cases

  /** A one-octet tag number read from a non-empty input. */
  lemma ShortTag(s: seq<Byte>)
    requires |s| > 0 && s[0] != 0 && !IsLongTagLead(s[0])
    ensures ReadTag(s) == Ok((s[0], 1))
  {
    assert s[..1] == [s[0]];
    assert AccWrap([s[0]]) == s[0] by {
      assert [s[0]][..0] == [];
    }
  }

  /** A declared length of 5 with two octets left: `01 05 AA BB`. */
  lemma TooShortExample(s: seq<Byte>)
    requires s == [0x01, 0x05, 0xAA, 0xBB]
    ensures FromVec(s) == Err(TooShortBody(5, 2))
  {
    ShortTag(s);
    assert s[1..] == [0x05, 0xAA, 0xBB];
  }

  /** An identifier octet and nothing after it: `9F`. */
  lemma TruncatedExample(s: seq<Byte>)
    requires s == [0x9F]
    ensures FromVec(s) == Err(TruncatedTlv)
  {
    assert TagSpan(s) == 1;
    assert s[1..] == [];
  }

  /** A zero identifier octet: `00 00`. */
  lemma ZeroTagExample(s: seq<Byte>)
    requires s == [0x00, 0x00]
    ensures FromVec(s) == Err(InvalidTagNumber)
  {
  }

  /** The length octet 0x80 reads as length 0: `01 80` is tag 1 with empty bytes. */
  lemma IndefiniteAsZero(s: seq<Byte>)
    requires s == [0x01, 0x80]
    ensures FromVec(s) == Ok(Tlv(0x01, Val([])))
  {
    ShortTag(s);
    assert s[1..] == [0x80];
    OneOctetTag(0x01);
    DecodePrimitive(s, 0x01, 2, 0);
    assert s[2..2] == [];
  }

  /** The property of tests/lib.rs, that an accepted input begins with the
      re-encoding of what was decoded from it, fails for `01 80`: the
      re-encoding is `01 00`. It holds for canonical input (`DecodeThenEncode`). */
  lemma QuickcheckCounterexample(s: seq<Byte>)
    requires s == [0x01, 0x80]
    ensures FromVec(s).Ok? && ToVec(FromVec(s).value) == [0x01, 0x00]
    ensures ToVec(FromVec(s).value) != s[..Min(|s|, |ToVec(FromVec(s).value)|)]
  {
    IndefiniteAsZero(s);
    OneOctetTag(0x01);
    assert ToVec(Tlv(0x01, Val([]))) == [0x01] + [0x00] + [];
  }

  /** A child is read within its parent's budget: in `21 03 01 05 AA BB CC`
      the child 01 declares 5 octets, finds 1 left of the parent's 3, and
      the trailing octets BB CC do not count. */
  lemma ChildBudgetExample(s: seq<Byte>)
    requires s == [0x21, 0x03, 0x01, 0x05, 0xAA, 0xBB, 0xCC]
    ensures FromVec(s) == Err(TooShortBody(5, 1))
  {
    ShortTag(s);
    assert s[1..] == [0x03, 0x01, 0x05, 0xAA, 0xBB, 0xCC];
    assert ReadHeader(s) == Ok((0x21, 2, 3));
    OneOctetTag(0x21);
    var body := s[2..5];
    assert body == [0x01, 0x05, 0xAA];
    ShortTag(body);
    assert body[1..] == [0x05, 0xAA];
    assert Decode(body) == Err(TooShortBody(5, 1));
    DecodeConstructed(s, 0x21, 2, 3);
  }

  // ---------------------------------------------------------------------
  // The tests of src/lib.rs

  /** The header octets at the head of an earlier encoding. */
  lemma LegacyHeader(tag: seq<Byte>, v: seq<Byte>, lb: seq<Byte>, expected: seq<Byte>)
    requires EncodeLen(|v|) == lb && expected == tag + lb
    ensures Legacy.ToVec(Legacy.Tlv(tag, Legacy.Val(v)))[..|expected|] == expected
  {
    assert Legacy.ToVec(Legacy.Tlv(tag, Legacy.Val(v))) == expected + v;
  }

  /** The earlier encoder emits the stored tag octets, then the same length
      octets as the newer one. */
  lemma LegacyToVecOne()
    ensures Legacy.ToVec(Legacy.Tlv([0x01], Legacy.Val([0]))) == [0x01, 0x01, 0x00]
  {
  }

  lemma LegacyToVec127(v: seq<Byte>)
    requires |v| == 127
    ensures Legacy.ToVec(Legacy.Tlv([0x01], Legacy.Val(v)))[..2] == [0x01, 0x7F]
  {
    LegacyHeader([0x01], v, [0x7F], [0x01, 0x7F]);
  }

  lemma LegacyToVec255(v: seq<Byte>)
    requires |v| == 255
    ensures Legacy.ToVec(Legacy.Tlv([0x01], Legacy.Val(v)))[..3] == [0x01, 0x81, 0xFF]
  {
    EncodeLen255();
    LegacyHeader([0x01], v, [0x81, 0xFF], [0x01, 0x81, 0xFF]);
  }

  lemma LegacyToVec256(v: seq<Byte>)
    requires |v| == 256
    ensures Legacy.ToVec(Legacy.Tlv([0x02], Legacy.Val(v)))[..4] == [0x02, 0x82, 0x01, 0x00]
  {
    EncodeLen256();
    LegacyHeader([0x02], v, [0x82, 0x01, 0x00], [0x02, 0x82, 0x01, 0x00]);
  }

  lemma LegacyToVecLarge(v: seq<Byte>)
    requires |v| == 0xFF_FF01
    ensures Legacy.ToVec(Legacy.Tlv([0x03], Legacy.Val(v)))[..5] == [0x03, 0x83, 0xFF, 0xFF, 0x01]
  {
    EncodeLenLarge();
    LegacyHeader([0x03], v, [0x83, 0xFF, 0xFF, 0x01], [0x03, 0x83, 0xFF, 0xFF, 0x01]);
  }

  /** A fresh object filled from the encoding of an encodable primitive tree
      holds that tree, and encodes back to the input. */
  lemma LegacyRoundTrip(t: Legacy.Tlv, input: seq<Byte>)
    requires Legacy.Encodable(t) && t.val.Val? && Legacy.ToVec(t) == input
    ensures Legacy.FromVec(Legacy.Blank, input) == Legacy.Done(t)
    ensures Legacy.ToVec(Legacy.FromVec(Legacy.Blank, input).value) == input
  {
    Legacy.EncodeThenDecode(t, []);
    assert Legacy.ToVec(t) + [] == input;
  }

  lemma LegacyShortTag(t: Legacy.Tlv)
    requires t == Legacy.Tlv([0x01], Legacy.Val([0x00, 0x00]))
    ensures Legacy.FromVec(Legacy.Blank, [0x01, 0x02, 0x00, 0x00]) == Legacy.Done(t)
    ensures Legacy.ToVec(t) == [0x01, 0x02, 0x00, 0x00]
  {
    assert Legacy.Encodable(t);
    LegacyRoundTrip(t, [0x01, 0x02, 0x00, 0x00]);
  }

  lemma LegacyTwoOctetTag(t: Legacy.Tlv)
    requires t == Legacy.Tlv([0x9F, 0x02], Legacy.Val([0x00, 0x00]))
    ensures Legacy.FromVec(Legacy.Blank, [0x9F, 0x02, 0x02, 0x00, 0x00]) == Legacy.Done(t)
    ensures Legacy.ToVec(t) == [0x9F, 0x02, 0x02, 0x00, 0x00]
  {
    assert Legacy.TagOctets(t.tag);
    assert Legacy.Encodable(t);
    LegacyRoundTrip(t, [0x9F, 0x02, 0x02, 0x00, 0x00]);
  }

  lemma LegacyLongEncoding(t: Legacy.Tlv, zeros: seq<Byte>)
    requires |zeros| == 0x80 && t == Legacy.Tlv([0x9F, 0x02], Legacy.Val(zeros))
    ensures Legacy.Encodable(t) && Legacy.ToVec(t) == [0x9F, 0x02, 0x81, 0x80] + zeros
  {
    var head: seq<Byte> := [0x9F, 0x02, 0x81, 0x80];
    assert head == [0x9F, 0x02] + [0x81, 0x80];
    MinimalBEOne(0x80);
    EncodeLenLong(0x80, [0x80]);
    assert Legacy.TagOctets(t.tag);
  }

  lemma LegacyLongLength(t: Legacy.Tlv, zeros: seq<Byte>)
    requires |zeros| == 0x80 && forall i :: 0 <= i < |zeros| ==> zeros[i] == 0
    requires t == Legacy.Tlv([0x9F, 0x02], Legacy.Val(zeros))
    ensures Legacy.FromVec(Legacy.Blank, [0x9F, 0x02, 0x81, 0x80] + zeros) == Legacy.Done(t)
    ensures Legacy.ToVec(t) == [0x9F, 0x02, 0x81, 0x80] + zeros
  {
    LegacyLongEncoding(t, zeros);
    LegacyRoundTrip(t, [0x9F, 0x02, 0x81, 0x80] + zeros);
  }
}
