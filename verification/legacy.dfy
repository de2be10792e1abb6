/** The earlier codec of src/lib.rs: tags kept as their identifier octets,
    a decoder that fills in an existing object and panics on bad input.

    Each `panic!` becomes a `Panicked` outcome naming the message. The
    slice iterator is modelled as the bytes it still yields; `size_hint()`
    of a slice iterator is exact, so it is the length of that sequence. */
module Legacy {
  import opened Octets
  import TlvCodec

  datatype Value =
    | TlvList(list: seq<Tlv>)
    | Val(bytes: seq<Byte>)
    | Nothing

  datatype Tlv = Tlv(tag: seq<Byte>, val: Value)

  /** The `panic!` messages of `from_iter`. */
  datatype Panic =
    | NoData               // "Too short TLV, no data at all"
    | OnlyTag              // "Too short TLV, only tag exists"
    | InvalidLengthValue   // "Invalid length value!"
    | TooShortBody(expected: nat, found: nat)

  datatype Outcome<+T> = Done(value: T) | Panicked(reason: Panic)

  /** A completed triple is determined by its three components. */
  lemma DoneTriple<A, B, C>(r: Outcome<(A, B, C)>, a: A, b: B, c: C)
    requires r.Done? && r.value.0 == a && r.value.1 == b && r.value.2 == c
    ensures r == Done((a, b, c))
  {
  }

  /** A completed pair is determined by its two components. */
  lemma DonePair<A, B>(r: Outcome<(A, B)>, a: A, b: B)
    requires r.Done? && r.value.0 == a && r.value.1 == b
    ensures r == Done((a, b))
  {
  }

  /** `Tlv::new()`: no tag octets and empty raw bytes. */
  const Blank: Tlv := Tlv([], Val([]))

  // ---------------------------------------------------------------------
  // Sizes and encoder

  /** `Value::len`. */
  function ValueLen(v: Value): nat
  {
    match v
    case TlvList(list) => ListLen(list)
    case Val(bytes) => |bytes|
    case Nothing => 0
  }

  /** `Tlv::len`: beyond the stored tag octets and the content, at least one
      length octet. */
  function Len(t: Tlv): (n: nat)
    ensures n > |t.tag| + ValueLen(t.val)
  {
    |t.tag| + |EncodeLen(ValueLen(t.val))| + ValueLen(t.val)
  }

  function ListLen(list: seq<Tlv>): nat
  {
    if |list| == 0 then 0 else Len(list[0]) + ListLen(list[1..])
  }

  /** `Tlv::to_vec`: the stored tag octets, the length octets, the content.
      Since the tag is stored as octets, the encoding is always as long as
      `len` says. */
  function ToVec(t: Tlv): (r: seq<Byte>)
    ensures |r| == Len(t)
  {
    t.tag + EncodeLen(ValueLen(t.val)) + ValueToVec(t.val)
  }

  function ValueToVec(v: Value): (r: seq<Byte>)
    ensures |r| == ValueLen(v)
  {
    match v
    case TlvList(list) => ListToVec(list)
    case Val(bytes) => bytes
    case Nothing => []
  }

  function ListToVec(list: seq<Tlv>): (r: seq<Byte>)
    ensures |r| == ListLen(list)
  {
    if |list| == 0 then [] else ToVec(list[0]) + ListToVec(list[1..])
  }

  // ---------------------------------------------------------------------
  // Decoder

  /** The length octets of `from_iter`, read from `q`, the bytes after the
      tag: the content length and the number of length octets. A long form
      announcing zero octets, or more octets than remain, is invalid; so is
      a length beyond what remains after the length octets. */
  function ReadLen(q: seq<Byte>): (r: Outcome<(nat, nat)>)
    ensures r == Panicked(OnlyTag) <==> |q| == 0
    ensures r == Panicked(InvalidLengthValue) <==>
      |q| > 0 && HasTopBit(q[0]) && (q[0] == 0x80 || q[0] - 0x80 > |q| - 1)
    ensures r.Done? ==> 1 <= r.value.1 && r.value.1 + r.value.0 <= |q|
    ensures r.Panicked? ==> r.reason != NoData
    ensures r.Panicked? && r.reason.TooShortBody? ==> r.reason.found < r.reason.expected
    ensures |q| > 0 && !HasTopBit(q[0]) ==>
      r == (if |q| - 1 < q[0] then Panicked(TooShortBody(q[0], |q| - 1)) else Done((q[0], 1)))
  {
    if |q| == 0 then Panicked(OnlyTag)
    else if !HasTopBit(q[0]) then
      if |q| - 1 < q[0] then Panicked(TooShortBody(q[0], |q| - 1)) else Done((q[0], 1))
    else
      var k := q[0] - 0x80;
      if k == 0 || |q| - 1 < k then Panicked(InvalidLengthValue)
      else
        var len := AccWrap(q[1..1 + k]);
        var remain := |q| - 1 - k;
        if remain < len then Panicked(TooShortBody(len, remain)) else Done((len, 1 + k))
  }

  /** A long form announcing `k` octets, all present: the length is their
      big-endian value kept to 64 bits, and content shorter than that panics. */
  lemma ReadLenLongForm(q: seq<Byte>, k: nat, len: nat)
    requires |q| > 0 && HasTopBit(q[0]) && k == q[0] - 0x80 && 0 < k <= |q| - 1
    requires len == BeValue(q[1..1 + k]) % TWO_64
    ensures ReadLen(q) == if |q| - 1 - k < len then Panicked(TooShortBody(len, |q| - 1 - k)) else Done((len, 1 + k))
  {
    AccWrapIsBeValueMod(q[1..1 + k]);
  }

  /** The tag and length octets at the head of `s`: how many tag octets, where
      the content starts, and the content length. */
  function ReadHeader(s: seq<Byte>): (r: Outcome<(nat, nat, nat)>)
    ensures r == Panicked(NoData) <==> |s| == 0
    ensures r.Done? ==> r.value.0 == TagSpan(s) && r.value.0 < r.value.1 && r.value.1 + r.value.2 <= |s|
  {
    if |s| == 0 then Panicked(NoData)
    else
      var n := TagSpan(s);
      match ReadLen(s[n..])
      case Panicked(p) => Panicked(p)
      case Done((len, lu)) => Done((n, n + lu, len))
  }

  /** `from_iter` on `self` and the bytes `s`: the object it leaves behind
      and the number of bytes it took. The tag octets read are appended to
      those `self` already holds, and the classification reads bit 0x20 of
      the first stored octet. A constructed value takes children until the
      input is used up, whatever its length said. */
  function FromIter(self: Tlv, s: seq<Byte>): (r: Outcome<(Tlv, nat)>)
    ensures r == Panicked(NoData) <==> |s| == 0
    ensures r.Done? ==> 2 <= r.value.1 <= |s|
    ensures r.Done? ==> r.value.0.tag == self.tag + s[..TagSpan(s)]
    ensures r.Done? && IsConstructedOctet(r.value.0.tag[0]) ==> r.value.1 == |s|
    decreases |s|, 0
  {
    match ReadHeader(s)
    case Panicked(p) => Panicked(p)
    case Done((n, start, len)) =>
      var tag := self.tag + s[..n];
      if IsConstructedOctet(tag[0]) then
        match Children(s[start..])
        case Panicked(p) => Panicked(p)
        case Done(children) => Done((Tlv(tag, TlvList(children)), |s|))
      else
        Done((Tlv(tag, Val(s[start..start + len])), start + len))
  }

  /** The `while iter.size_hint().1.unwrap() != 0` loop: fresh objects filled
      one after another until no byte is left; the first panic ends it all. */
  function Children(s: seq<Byte>): (r: Outcome<seq<Tlv>>)
    ensures |s| == 0 ==> r == Done([])
    ensures r.Panicked? ==> r.reason != NoData
    decreases |s|, 1
  {
    if |s| == 0 then Done([])
    else
      match FromIter(Blank, s)
      case Panicked(p) => Panicked(p)
      case Done((child, used)) =>
        match Children(s[used..])
        case Panicked(p) => Panicked(p)
        case Done(rest) => Done([child] + rest)
  }

  /** `from_vec`: empty input leaves the object as it was. */
  function FromVec(self: Tlv, v: seq<Byte>): (r: Outcome<Tlv>)
    ensures |v| == 0 ==> r == Done(self)
    ensures |v| > 0 ==> (r.Done? <==> FromIter(self, v).Done?)
  {
    if |v| == 0 then Done(self)
    else
      match FromIter(self, v)
      case Panicked(p) => Panicked(p)
      case Done((t, _)) => Done(t)
  }

  // ---------------------------------------------------------------------
  // Encode, then decode

  /** Identifier octets the loop of `from_iter` reads back whole: one octet
      without the long-form marker, or the marker octet, continuation octets
      with bit 0x80 set and a last octet with it clear. */
  predicate TagOctets(tag: seq<Byte>)
  {
    |tag| >= 1 &&
    if !IsLongTagLead(tag[0]) then |tag| == 1
    else
      |tag| >= 2 && !HasTopBit(tag[|tag| - 1]) &&
      forall i :: 1 <= i < |tag| - 1 ==> HasTopBit(tag[i])
  }

  /** A tree the decoder gives back from its encoding: well-formed tag octets
      that agree with the value variant, no `Nothing`, lengths below 2^64,
      and in every child list a constructed child only in last place, since
      a constructed child takes every byte after it. */
  predicate Encodable(t: Tlv)
    decreases t
  {
    TagOctets(t.tag) && ValueLen(t.val) < TWO_64 &&
    match t.val
    case Val(_) => !IsConstructedOctet(t.tag[0])
    case Nothing => false
    case TlvList(list) =>
      IsConstructedOctet(t.tag[0]) && EncodableList(list)
  }

  predicate EncodableList(list: seq<Tlv>)
    decreases list
  {
    (forall i :: 0 <= i < |list| ==> Encodable(list[i])) &&
    forall i :: 0 <= i < |list| - 1 ==> list[i].val.Val?
  }

  lemma TagSpanOfTagOctets(tag: seq<Byte>, rest: seq<Byte>)
    requires TagOctets(tag)
    ensures TagSpan(tag + rest) == |tag| && (tag + rest)[..|tag|] == tag
  {
    var s := tag + rest;
    assert s[0] == tag[0];
    if IsLongTagLead(tag[0]) {
      var t := s[1..];
      forall i | 0 <= i < |tag| - 2
        ensures HasTopBit(t[i])
      {
        assert t[i] == tag[i + 1];
      }
      assert t[|tag| - 2] == tag[|tag| - 1];
      TlvCodec.TagTailLenIs(t, |tag| - 1);
    }
    assert s[..|tag|] == tag;
  }

  /** Reading back the length octets the encoder emits, with enough content
      after them, gives the length. */
  lemma ReadLenOfEncodeLen(n: nat, rest: seq<Byte>)
    requires n < TWO_64 && |rest| >= n
    ensures ReadLen(EncodeLen(n) + rest) == Done((n, |EncodeLen(n)|))
  {
    var e := EncodeLen(n);
    var q := e + rest;
    if n > 0x7F {
      EncodeLenHeader(n);
      var bs := MinimalBE(n);
      assert e[1..] == bs;
      assert q[1..1 + |bs|] == bs;
      var r := ReadLen(q);
      assert r.Done? && r.value.0 == n && r.value.1 == |e|;
      DonePair(r, n, |e|);
    }
  }

  /** Tag octets, length octets for `n`, then `n` content bytes read back as
      that header. */
  lemma HeaderOfEncoding(s: seq<Byte>, tb: seq<Byte>, lb: seq<Byte>, vb: seq<Byte>, rest: seq<Byte>, n: nat, start: nat)
    requires TagOctets(tb) && n < TWO_64 && |vb| == n
    requires lb == EncodeLen(n) && s == tb + (lb + (vb + rest)) && start == |tb| + |lb|
    ensures ReadHeader(s) == Done((|tb|, start, n))
    ensures s[..|tb|] == tb && s[start..] == vb + rest && s[start..start + n] == vb
  {
    var tail := lb + (vb + rest);
    TagSpanOfTagOctets(tb, tail);
    assert s[|tb|..] == tail;
    ReadLenOfEncodeLen(n, vb + rest);
    var r := ReadHeader(s);
    assert r.Done? && r.value.0 == |tb| && r.value.1 == start && r.value.2 == n;
    DoneTriple(r, |tb|, start, n);
    assert s[start..] == vb + rest;
    assert s[start..start + n] == vb;
  }

  lemma ToVecSplit(t: Tlv, rest: seq<Byte>)
    ensures ToVec(t) + rest == t.tag + (EncodeLen(ValueLen(t.val)) + (ValueToVec(t.val) + rest))
  {
  }

  /** The header of an encodable tree's encoding, and what follows it. */
  lemma EncodedHeader(t: Tlv, rest: seq<Byte>, s: seq<Byte>, start: nat, n: nat)
    requires Encodable(t) && s == ToVec(t) + rest && n == ValueLen(t.val)
    requires start == |t.tag| + |EncodeLen(n)|
    ensures ReadHeader(s) == Done((|t.tag|, start, n))
    ensures s[..|t.tag|] == t.tag && s[start..] == ValueToVec(t.val) + rest
    ensures s[start..start + n] == ValueToVec(t.val)
    ensures start + n == |ToVec(t)|
  {
    ToVecSplit(t, rest);
    HeaderOfEncoding(s, t.tag, EncodeLen(n), ValueToVec(t.val), rest, n, start);
  }

  /** A fresh object decodes an encodable tree back from its encoding; after
      a primitive tree anything may follow, after a constructed one nothing. */
  lemma {:induction false} EncodeThenDecode(t: Tlv, rest: seq<Byte>)
    requires Encodable(t) && (t.val.TlvList? ==> rest == [])
    ensures FromIter(Blank, ToVec(t) + rest) == Done((t, |ToVec(t)|))
    decreases t, 1
  {
    var s := ToVec(t) + rest;
    var n := ValueLen(t.val);
    var start := |t.tag| + |EncodeLen(n)|;
    EncodedHeader(t, rest, s, start, n);
    DecodeEncoded(t, rest, s, start, n);
    var u := |ToVec(t)|;
    assert FromIter(Blank, s).value.1 == u;
    DonePair(FromIter(Blank, s), t, u);
  }

  lemma DecodeEncoded(t: Tlv, rest: seq<Byte>, s: seq<Byte>, start: nat, n: nat)
    requires Encodable(t) && (t.val.TlvList? ==> rest == [])
    requires ReadHeader(s) == Done((|t.tag|, start, n)) && start + n <= |s|
    requires s[..|t.tag|] == t.tag && s[start..] == ValueToVec(t.val) + rest
    requires s[start..start + n] == ValueToVec(t.val)
    ensures FromIter(Blank, s).Done? && FromIter(Blank, s).value.0 == t
    ensures FromIter(Blank, s).value.1 == if t.val.TlvList? then |s| else start + n
    decreases t, 0
  {
    assert Blank.tag + s[..|t.tag|] == t.tag;
    if t.val.TlvList? {
      assert s[start..] == ListToVec(t.val.list);
      ListEncodeThenDecode(t.val.list);
    }
  }

  /** The children of an encodable list are decoded back from its encoding. */
  lemma {:induction false} ListEncodeThenDecode(list: seq<Tlv>)
    requires EncodableList(list)
    ensures Children(ListToVec(list)) == Done(list)
    decreases list, 0
  {
    if |list| > 0 {
      var c := list[0];
      var tail := ListToVec(list[1..]);
      ListEncodingSplit(list, c, tail);
      EncodeThenDecode(c, tail);
      ListEncodeThenDecode(list[1..]);
      ChildrenOfSplit(ListToVec(list), ToVec(c), tail, c, list[1..], list);
    }
  }

  /** The encoding of a non-empty list is its first child's encoding, then
      the rest; only the last child can be constructed. */
  lemma ListEncodingSplit(list: seq<Tlv>, c: Tlv, tail: seq<Byte>)
    requires EncodableList(list) && |list| > 0 && c == list[0] && tail == ListToVec(list[1..])
    ensures ListToVec(list) == ToVec(c) + tail
    ensures Encodable(c) && EncodableList(list[1..]) && (c.val.TlvList? ==> tail == [])
    ensures list == [c] + list[1..]
  {
    if c.val.TlvList? {
      assert |list| == 1;
      assert list[1..] == [];
    }
  }

  /** A child decoded from the first `|a|` bytes, then children decoded from
      the rest. */
  lemma ChildrenOfSplit(s: seq<Byte>, a: seq<Byte>, b: seq<Byte>, c: Tlv, rest: seq<Tlv>, list: seq<Tlv>)
    requires s == a + b && |a| >= 1 && FromIter(Blank, a + b) == Done((c, |a|))
    requires Children(b) == Done(rest) && list == [c] + rest
    ensures Children(s) == Done(list)
  {
    assert s[|a|..] == b;
    ChildrenAt(s, c, |a|, rest, list);
  }

  // ---------------------------------------------------------------------
  // Behaviour the newer codec does not share

  /** A primitive header read from `s`: the object `from_iter` fills in. */
  lemma PrimitiveAt(self: Tlv, s: seq<Byte>, n: nat, start: nat, len: nat)
    requires ReadHeader(s) == Done((n, start, len))
    requires !IsConstructedOctet((self.tag + s[..n])[0])
    ensures FromIter(self, s) == Done((Tlv(self.tag + s[..n], Val(s[start..start + len])), start + len))
  {
  }

  /** What a successful `from_iter` holds: the header read from `s`; under a
      primitive first octet exactly the `len` content bytes after it, and the
      input consumed up to their end; under a constructed one the children
      decoded from everything after the header, whatever `len` said. */
  lemma FromIterParts(self: Tlv, s: seq<Byte>, t: Tlv, u: nat) returns (n: nat, start: nat, len: nat)
    requires FromIter(self, s) == Done((t, u))
    ensures ReadHeader(s) == Done((n, start, len))
    ensures t.tag == self.tag + s[..n]
    ensures !IsConstructedOctet(t.tag[0]) ==> t.val == Val(s[start..start + len]) && u == start + len
    ensures IsConstructedOctet(t.tag[0]) ==> t.val.TlvList? && Children(s[start..]) == Done(t.val.list) && u == |s|
  {
    n, start, len := ReadHeader(s).value.0, ReadHeader(s).value.1, ReadHeader(s).value.2;
  }

  /** A constructed header read from `s`: the children fill the rest of `s`. */
  lemma ConstructedAt(self: Tlv, s: seq<Byte>, n: nat, start: nat, len: nat, children: seq<Tlv>)
    requires ReadHeader(s) == Done((n, start, len))
    requires IsConstructedOctet((self.tag + s[..n])[0]) && Children(s[start..]) == Done(children)
    ensures FromIter(self, s) == Done((Tlv(self.tag + s[..n], TlvList(children)), |s|))
  {
  }

  /** A child decoded at the head of `s`, then the children after it. */
  lemma ChildrenAt(s: seq<Byte>, c: Tlv, u: nat, rest: seq<Tlv>, list: seq<Tlv>)
    requires |s| > 0 && FromIter(Blank, s) == Done((c, u)) && Children(s[u..]) == Done(rest)
    requires list == [c] + rest
    ensures Children(s) == Done(list)
  {
  }

  /** A constructed child takes its later siblings as its own children:
      the child list 22{01}, 02 encodes to octets that decode as the single
      child 22{01, 02}. */
  lemma SiblingsSwallowed()
    ensures
      var inner := Tlv([0x22], TlvList([Tlv([0x01], Val([]))]));
      ListToVec([inner, Tlv([0x02], Val([]))]) == [0x22, 0x02, 0x01, 0x00, 0x02, 0x00] &&
      Children(ListToVec([inner, Tlv([0x02], Val([]))])) ==
        Done([Tlv([0x22], TlvList([Tlv([0x01], Val([])), Tlv([0x02], Val([]))]))])
  {
    SwallowEncoding();
    SwallowInner();
  }

  lemma SwallowEncoding()
    ensures ListToVec([Tlv([0x22], TlvList([Tlv([0x01], Val([]))])), Tlv([0x02], Val([]))])
      == [0x22, 0x02, 0x01, 0x00, 0x02, 0x00]
  {
    var p1 := Tlv([0x02], Val([]));
    var inner := Tlv([0x22], TlvList([Tlv([0x01], Val([]))]));
    SwallowInnerEncoding();
    assert ToVec(p1) == [0x02, 0x00];
    assert [inner, p1][1..] == [p1] && [p1][1..] == [];
    assert ListToVec([p1]) == [0x02, 0x00];
  }

  lemma SwallowInnerEncoding()
    ensures ToVec(Tlv([0x22], TlvList([Tlv([0x01], Val([]))]))) == [0x22, 0x02, 0x01, 0x00]
  {
    var p0 := Tlv([0x01], Val([]));
    assert ToVec(p0) == [0x01, 0x00];
    assert [p0][1..] == [];
    assert ListLen([p0]) == 2 && ListToVec([p0]) == [0x01, 0x00];
  }

  /** The inner constructed value takes both remaining TLVs. */
  lemma SwallowInner()
    ensures Children([0x22, 0x02, 0x01, 0x00, 0x02, 0x00]) ==
      Done([Tlv([0x22], TlvList([Tlv([0x01], Val([])), Tlv([0x02], Val([]))]))])
  {
    var p0 := Tlv([0x01], Val([]));
    var p1 := Tlv([0x02], Val([]));
    var body: seq<Byte> := [0x01, 0x00, 0x02, 0x00];
    var s: seq<Byte> := [0x22, 0x02, 0x01, 0x00, 0x02, 0x00];
    SwallowLeaves();
    assert s == [0x22, 0x02] + body;
    ShortConstructed(s, 0x22, 2, body, [p0, p1], |s|);
    OnlyChild(s, Tlv([0x22], TlvList([p0, p1])));
  }

  lemma SwallowLeaves()
    ensures Children([0x01, 0x00, 0x02, 0x00]) == Done([Tlv([0x01], Val([])), Tlv([0x02], Val([]))])
  {
    var p0 := Tlv([0x01], Val([]));
    var p1 := Tlv([0x02], Val([]));
    EmptyPrimitiveChild(0x02, [], []);
    assert [p1] + [] == [p1] && [0x02, 0x00] + [] == [0x02, 0x00];
    EmptyPrimitiveChild(0x01, [0x02, 0x00], [p1]);
    assert [p0] + [p1] == [p0, p1];
    assert [0x01, 0x00] + [0x02, 0x00] == [0x01, 0x00, 0x02, 0x00];
  }

  /** An empty primitive with a one-octet tag, then further children. */
  lemma EmptyPrimitiveChild(tag: Byte, rest: seq<Byte>, cs: seq<Tlv>)
    requires !IsLongTagLead(tag) && !IsConstructedOctet(tag) && Children(rest) == Done(cs)
    ensures Children([tag, 0] + rest) == Done([Tlv([tag], Val([]))] + cs)
  {
    var s := [tag, 0] + rest;
    HeaderOf(s, tag, 0);
    assert Blank.tag + s[..1] == [tag] && s[2..2] == [] && s[2..] == rest;
    PrimitiveAt(Blank, s, 1, 2, 0);
    ChildrenAt(s, Tlv([tag], Val([])), 2, cs, [Tlv([tag], Val([]))] + cs);
  }

  /** A constructed value with a one-octet tag and a short-form length whose
      children fill the rest of the input. */
  lemma ShortConstructed(s: seq<Byte>, tag: Byte, len: nat, body: seq<Byte>, cs: seq<Tlv>, n: nat)
    requires !IsLongTagLead(tag) && IsConstructedOctet(tag) && len < 0x80 && len <= |body|
    requires Children(body) == Done(cs) && s == [tag, len] + body && n == |s|
    ensures FromIter(Blank, s) == Done((Tlv([tag], TlvList(cs)), n))
  {
    HeaderOf(s, tag, len);
    assert Blank.tag + s[..1] == [tag] && s[2..] == body;
    ConstructedAt(Blank, s, 1, 2, len, cs);
  }

  /** A child that takes all of `s` is the only one. */
  lemma OnlyChild(s: seq<Byte>, c: Tlv)
    requires |s| > 0 && FromIter(Blank, s) == Done((c, |s|))
    ensures Children(s) == Done([c])
  {
    assert |s[|s|..]| == 0;
    assert [c] == [c] + [];
    ChildrenAt(s, c, |s|, [], [c]);
  }

  /** A one-octet tag and a short-form length at the head of `s`. */
  lemma HeaderOf(s: seq<Byte>, tag: Byte, len: nat)
    requires |s| >= 2 + len && s[0] == tag && !IsLongTagLead(tag) && s[1] == len && len < 0x80
    ensures ReadHeader(s) == Done((1, 2, len)) && s[..1] == [tag]
  {
    assert s[1..][0] == len;
    var r := ReadHeader(s);
    assert r.Done? && r.value.0 == 1 && r.value.1 == 2 && r.value.2 == len;
    DoneTriple(r, 1, 2, len);
  }

  /** Filling an object that already holds tag octets appends to them, and
      its old first octet decides the classification. */
  lemma ReusedObject()
    ensures FromVec(Tlv([0x21], Nothing), [0x01, 0x02, 0x05, 0x00]) ==
      Done(Tlv([0x21, 0x01], TlvList([Tlv([0x05], Val([]))])))
    ensures FromVec(Blank, [0x01, 0x02, 0x05, 0x00]) == Done(Tlv([0x01], Val([0x05, 0x00])))
  {
    var s: seq<Byte> := [0x01, 0x02, 0x05, 0x00];
    var c := Tlv([0x05], Val([]));
    assert s[2..] == [0x05, 0x00] && s[2..][2..] == [] && s[2..][2..2] == [];
    assert Blank.tag + [0x05] == [0x05] && Blank.tag + [0x01] == [0x01];
    assert Tlv([0x21], Nothing).tag + [0x01] == [0x21, 0x01];
    HeaderOf(s, 0x01, 2);
    HeaderOf(s[2..], 0x05, 0);
    PrimitiveAt(Blank, s[2..], 1, 2, 0);
    assert [c] == [c] + [];
    ChildrenAt(s[2..], c, 2, [], [c]);
    ConstructedAt(Tlv([0x21], Nothing), s, 1, 2, 2, [c]);
    PrimitiveAt(Blank, s, 1, 2, 2);
    assert s[2..4] == [0x05, 0x00];
  }

  /** Where the newer codec reads 0x80 as length 0, this one panics. */
  lemma IndefiniteLengthPanics()
    ensures FromVec(Blank, [0x01, 0x80]) == Panicked(InvalidLengthValue)
  {
    assert [0x01, 0x80][1..] == [0x80];
  }
}
