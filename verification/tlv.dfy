/** The BER-TLV codec of src/tlv.rs: a tree of tagged values with integer tag
    numbers, a validating constructor, the size functions, the encoder and the
    recursive-descent decoder over a byte cursor.

    The cursor (`dyn ExactSizeIterator`) is modelled as the sequence of bytes
    it still yields; every reader returns what it read together with how many
    bytes it consumed. A constructed value's children are decoded from the
    `take(len)` view, which is the slice of exactly `len` bytes that follows
    the length octets. */
module TlvCodec {
  import opened Octets

  /** A tag number: a Rust `usize`. */
  type Tag = Usize

  datatype Value =
    | TlvList(list: seq<Tlv>)
    | Val(bytes: seq<Byte>)
    | Nothing

  datatype Tlv = Tlv(tag: Tag, val: Value)

  /** The error kinds the codec returns. */
  datatype Error =
    | TruncatedTlv
    | InvalidLength
    | InvalidTagNumber
    | TooShortBody(expected: nat, found: nat)
    | ValExpected(tagNumber: Tag)
    | TlvListExpected(tagNumber: Tag)
    | TagPathError

  datatype Result<+T> = Ok(value: T) | Err(error: Error)

  /** A successful triple result is determined by its three components. */
  lemma OkTriple<A, B, C>(r: Result<(A, B, C)>, a: A, b: B, c: C)
    requires r.Ok? && r.value.0 == a && r.value.1 == b && r.value.2 == c
    ensures r == Ok((a, b, c))
  {
  }

  /** A successful pair result is determined by its two components. */
  lemma OkPair<A, B>(r: Result<(A, B)>, a: A, b: B)
    requires r.Ok? && r.value.0 == a && r.value.1 == b
    ensures r == Ok((a, b))
  {
  }

  // ---------------------------------------------------------------------
  // Tag size and classification

  /** Number of octets of the tag number: the minimal big-endian width, and 1 for tag 0. */
  function TagLen(tag: Tag): (n: nat)
    ensures 1 <= n <= 8
    ensures tag < Pow256(n)
    ensures n == 1 || Pow256(n - 1) <= tag
  {
    if tag == 0 then 1
    else
      Pow256Eight();
      MinimalBELength(tag, 8);
      |MinimalBE(tag)|
  }

  /** The `while tag != 0 { len += 1; tag >>= 8; }` loop of `tag_len`. */
  method TagLenLoop(tag: Tag) returns (len: nat)
    ensures len == TagLen(tag)
  {
    var t: nat := tag;
    len := 0;
    while t != 0
      invariant |MinimalBE(tag)| == len + |MinimalBE(t)|
      decreases t
    {
      len := len + 1;
      t := t / 256;
    }
    if len == 0 {
      len := len + 1;
    }
  }

  /** `0x20 << ((tag_len - 1) * 8)`: bit 0x20 of the most significant octet of the tag number. */
  function ConstructedMask(tag: Tag): nat
  {
    0x20 * Pow256(TagLen(tag) - 1)
  }

  /** A primitive tag: bit 0x20 of the most significant octet of the tag
      number is clear (X.690 section 8.1.2.5); tag 0 counts as primitive. */
  predicate IsPrimitive(tag: Tag)
  {
    !IsConstructedOctet(LeadOctet(tag))
  }

  /** The most significant octet of `n` (0 for 0). */
  function LeadOctet(n: nat): Byte
  {
    if n < 256 then n else LeadOctet(n / 256)
  }

  lemma {:induction false} LeadOctetIsFirst(n: nat)
    requires n != 0
    ensures LeadOctet(n) == MinimalBE(n)[0]
    decreases n
  {
    if n >= 256 {
      LeadOctetIsFirst(n / 256);
      assert MinimalBE(n) == MinimalBE(n / 256) + [n % 256];
    } else {
      assert MinimalBE(n / 256) == [];
    }
  }

  /** The classification is the source's test `tag & mask != mask` for the
      single-bit mask `ConstructedMask(tag)`: that bit of `tag` is clear. */
  lemma IsPrimitiveMaskTest(tag: Tag)
    ensures IsPrimitive(tag) <==> (tag / ConstructedMask(tag)) % 2 == 0
  {
    var p := Pow256(TagLen(tag) - 1);
    MaskQuotient(tag, p);
    if tag != 0 {
      LeadingOctet(tag);
      LeadOctetIsFirst(tag);
      OctetBit(MinimalBE(tag)[0]);
    }
  }

  /** The classification reads bit 0x20 of the first octet the encoder emits
      for the tag; tag 0, for which it emits nothing, counts as primitive. */
  lemma IsPrimitiveFirstOctet(tag: Tag)
    ensures tag == 0 ==> IsPrimitive(tag)
    ensures tag != 0 ==> (IsPrimitive(tag) <==> !IsConstructedOctet(TagBytes(tag)[0]))
  {
    if tag != 0 {
      LeadOctetIsFirst(tag);
    }
  }

  lemma MaskQuotient(tag: Tag, p: nat)
    requires p == Pow256(TagLen(tag) - 1)
    ensures tag / ConstructedMask(tag) == (tag / p) / 0x20
  {
    DivDiv(tag, p, 0x20);
    assert ConstructedMask(tag) == p * 0x20;
  }

  lemma OctetBit(b: Byte)
    ensures (b / 0x20) % 2 == 0 <==> !IsConstructedOctet(b)
  {
  }

  // ---------------------------------------------------------------------
  // Construction

  /** Whether a value variant is allowed for a tag: a child list only for a
      constructed tag, raw bytes only for a primitive one, `Nothing` for any. */
  predicate Agrees(tag: Tag, v: Value)
  {
    match v
    case TlvList(_) => !IsPrimitive(tag)
    case Val(_) => IsPrimitive(tag)
    case Nothing => true
  }

  /** `Tlv::new`: checks the value variant against the tag's classification. */
  function New(tag: Tag, value: Value): (r: Result<Tlv>)
    ensures r.Ok? <==> Agrees(tag, value)
    ensures r.Ok? ==> r.value == Tlv(tag, value)
    ensures value.TlvList? && IsPrimitive(tag) ==> r == Err(ValExpected(tag))
    ensures value.Val? && !IsPrimitive(tag) ==> r == Err(TlvListExpected(tag))
  {
    match value
    case TlvList(_) => if IsPrimitive(tag) then Err(ValExpected(tag)) else Ok(Tlv(tag, value))
    case Val(_) => if !IsPrimitive(tag) then Err(TlvListExpected(tag)) else Ok(Tlv(tag, value))
    case Nothing => Ok(Tlv(tag, value))
  }

  // ---------------------------------------------------------------------
  // Sizes

  /** `Tlv::len`: tag octets, length octets and content octets. */
  function Len(t: Tlv): (n: nat)
    ensures n >= 2 + ValueLen(t.val)
  {
    TagLen(t.tag) + |EncodeLen(ValueLen(t.val))| + ValueLen(t.val)
  }

  /** `Value::len`: the content length; a child list has none only when it
      has no children, since each child counts its identifier and length octets. */
  function ValueLen(v: Value): (n: nat)
    ensures v.TlvList? ==> (n == 0 <==> |v.list| == 0)
  {
    match v
    case TlvList(list) => ListLen(list)
    case Val(bytes) => |bytes|
    case Nothing => 0
  }

  /** The fold `sum + x.len()` over a child list. */
  function ListLen(list: seq<Tlv>): (n: nat)
    ensures |list| > 0 ==> n >= 2
  {
    if |list| == 0 then 0 else Len(list[0]) + ListLen(list[1..])
  }

  /** `Value::is_empty`: an empty list, empty bytes or `Nothing`; exactly the
      values of content length 0. */
  function ValueIsEmpty(v: Value): (r: bool)
    ensures r <==> ValueLen(v) == 0
  {
    match v
    case TlvList(list) => |list| == 0
    case Val(bytes) => |bytes| == 0
    case Nothing => true
  }

  /** `Tlv::is_empty`: the encoding is just the tag octets and a zero length octet. */
  function IsEmpty(t: Tlv): (r: bool)
    ensures r <==> Len(t) == TagLen(t.tag) + 1
  {
    ValueIsEmpty(t.val)
  }

  // ---------------------------------------------------------------------
  // Encoder

  /** `(tag as u64).to_be_bytes()` without leading zero octets. Tag 0 gives no octet. */
  function TagBytes(tag: Tag): (r: seq<Byte>)
    ensures tag != 0 ==> |r| == TagLen(tag) && r[0] != 0 && BeValue(r) == tag
    ensures tag == 0 ==> r == []
  {
    MinimalBE(tag)
  }

  /** `Tlv::to_vec`. The first octet emitted for a non-zero tag carries the
      class bit that `is_primitive` reads. */
  function ToVec(t: Tlv): (r: seq<Byte>)
    ensures |r| > 0
    ensures t.tag != 0 ==> (IsPrimitive(t.tag) <==> !IsConstructedOctet(r[0]))
  {
    IsPrimitiveFirstOctet(t.tag);
    TagBytes(t.tag) + EncodeLen(ValueLen(t.val)) + ValueToVec(t.val)
  }

  /** `Value::to_vec`: the content octets alone, none exactly when the value
      is empty. */
  function ValueToVec(v: Value): (r: seq<Byte>)
    ensures |r| == 0 <==> ValueIsEmpty(v)
  {
    match v
    case TlvList(list) => ListToVec(list)
    case Val(bytes) => bytes
    case Nothing => []
  }

  /** The concatenated encodings of a child list. */
  function ListToVec(list: seq<Tlv>): (r: seq<Byte>)
    ensures |r| == 0 <==> |list| == 0
  {
    if |list| == 0 then [] else ToVec(list[0]) + ListToVec(list[1..])
  }

  /** No tag anywhere in the tree is 0. */
  predicate TagsNonZero(t: Tlv)
  {
    t.tag != 0 &&
    (t.val.TlvList? ==> forall i :: 0 <= i < |t.val.list| ==> TagsNonZero(t.val.list[i]))
  }

  /** The size identity `to_vec().len() == len()` for trees without tag 0. */
  lemma {:induction false} ToVecSize(t: Tlv)
    requires TagsNonZero(t)
    ensures |ToVec(t)| == Len(t)
    decreases t
  {
    ValueToVecSize(t.val);
  }

  lemma {:induction false} ValueToVecSize(v: Value)
    requires v.TlvList? ==> forall i :: 0 <= i < |v.list| ==> TagsNonZero(v.list[i])
    ensures |ValueToVec(v)| == ValueLen(v)
    decreases v
  {
    if v.TlvList? {
      ListToVecSize(v.list);
    }
  }

  lemma {:induction false} ListToVecSize(list: seq<Tlv>)
    requires forall i :: 0 <= i < |list| ==> TagsNonZero(list[i])
    ensures |ListToVec(list)| == ListLen(list)
    decreases list
  {
    if |list| > 0 {
      ToVecSize(list[0]);
      ListToVecSize(list[1..]);
    }
  }

  /** Tag 0 is accepted by the constructor and counted as one octet by `len`,
      but the encoder emits no octet for it. */
  lemma TagZeroMismatch()
    ensures New(0, Nothing) == Ok(Tlv(0, Nothing))
    ensures Len(Tlv(0, Nothing)) == 2
    ensures ToVec(Tlv(0, Nothing)) == [0]
  {
  }

  // ---------------------------------------------------------------------
  // Decoder

  /** `read_tag`: the tag number at the head of `s` and the number of
      identifier octets read. */
  function ReadTag(s: seq<Byte>): (r: Result<(Tag, nat)>)
    ensures r == Err(TruncatedTlv) <==> |s| == 0
    ensures r == Err(InvalidTagNumber) <==> |s| > 0 && s[0] == 0
    ensures r.Ok? ==> r.value.0 != 0 && r.value.1 == TagSpan(s)
    ensures r.Ok? && r.value.1 <= 8 ==> r.value.0 == BeValue(s[..r.value.1])
  {
    if |s| == 0 then Err(TruncatedTlv)
    else
      var n := TagSpan(s);
      var tag := AccWrap(s[..n]);
      assert s[0] != 0 ==> tag != 0 by {
        if s[0] != 0 {
          TagValueNonZero(s);
        }
      }
      if tag == 0 then Err(InvalidTagNumber) else Ok((tag, n))
  }

  /** The tag reader succeeds on every input with a non-zero first octet,
      and the tag number it reads is the big-endian value of all identifier
      octets, modulo 2^64: `checked_shl(8)` drops the top octet of the
      accumulator once more than eight identifier octets have been read. */
  lemma ReadTagValue(s: seq<Byte>)
    ensures ReadTag(s).Ok? <==> |s| > 0 && s[0] != 0
    ensures ReadTag(s).Ok? ==> ReadTag(s).value.0 == BeValue(s[..ReadTag(s).value.1]) % TWO_64
  {
    if |s| > 0 {
      AccWrapIsBeValueMod(s[..TagSpan(s)]);
    }
  }

  /** The accumulated tag number is 0 only when the first octet is 0: in the
      long form the last two octets read are never both 0. */
  lemma TagValueNonZero(s: seq<Byte>)
    requires |s| > 0 && s[0] != 0
    ensures AccWrap(s[..TagSpan(s)]) != 0
  {
    var n := TagSpan(s);
    var b := s[..n];
    if n >= 2 {
      TagSpanShape(s);
      assert b[n - 2] != 0 by {
        if n - 2 > 0 {
          assert HasTopBit(s[n - 2]);
        }
      }
      var init := b[..n - 1];
      assert init[|init| - 1] == b[n - 2];
      ShiftKeepsNonZero(AccWrap(init), b[n - 1]);
    }
  }

  /** The loop of `read_tag`, statement by statement. */
  method ReadTagLoop(s: seq<Byte>) returns (r: Result<(Tag, nat)>)
    ensures r == ReadTag(s)
  {
    if |s| == 0 {
      return Err(TruncatedTlv);
    }
    var first := s[0];
    var tag: Usize := first;
    var pos := 1;
    assert s[..1] == [first];
    if IsLongTagLead(first) {
      var more := true;
      while more && pos < |s|
        invariant 1 <= pos <= |s|
        invariant tag == AccWrap(s[..pos])
        invariant forall i :: 1 <= i < pos - 1 ==> HasTopBit(s[i])
        invariant more ==> forall i :: 1 <= i < pos ==> HasTopBit(s[i])
        invariant !more ==> pos >= 2 && !HasTopBit(s[pos - 1])
        decreases |s| - pos
      {
        var x := s[pos];
        assert s[..pos + 1][..pos] == s[..pos];
        tag := Shl8(tag) + x;
        pos := pos + 1;
        more := HasTopBit(x);
      }
      TagTailLenIs(s[1..], pos - 1);
    }
    if tag == 0 {
      return Err(InvalidTagNumber);
    }
    return Ok((tag, pos));
  }

  /** The properties `TagTailLen` promises determine it. */
  lemma {:induction false} TagTailLenIs(t: seq<Byte>, k: nat)
    requires k <= |t|
    requires forall i :: 0 <= i < k - 1 ==> HasTopBit(t[i])
    requires k < |t| ==> k > 0 && !HasTopBit(t[k - 1])
    ensures TagTailLen(t) == k
    decreases |t|
  {
    if |t| > 0 && k > 0 && HasTopBit(t[0]) {
      TagTailLenIs(t[1..], k - 1);
    }
  }

  /** `read_len`: the content length and the number of length octets read.
      A long form with fewer octets than announced uses those present. */
  function ReadLen(s: seq<Byte>): (r: Result<(nat, nat)>)
    ensures r == Err(TruncatedTlv) <==> |s| == 0
    ensures r.Err? ==> r.error.TruncatedTlv? || r.error.TooShortBody?
    ensures r.Ok? ==> 1 <= r.value.1 && r.value.1 + r.value.0 <= |s|
    ensures r.Err? && r.error.TooShortBody? ==>
      r.error.found < r.error.expected && r.error.found < |s|
    ensures |s| > 0 && !HasTopBit(s[0]) && s[0] <= |s| - 1 ==> r == Ok((s[0], 1))
    ensures |s| > 0 && !HasTopBit(s[0]) && s[0] > |s| - 1 ==> r == Err(TooShortBody(s[0], |s| - 1))
    ensures |s| > 0 && s[0] == 0x80 ==> r == Ok((0, 1))
  {
    if |s| == 0 then Err(TruncatedTlv)
    else
      var (len, used) := LengthOctets(s);
      var remain := |s| - used;
      if remain < len then Err(TooShortBody(len, remain)) else Ok((len, used))
  }

  /** The length octets at the head of a non-empty `s`, before the check
      against the remaining input. */
  function LengthOctets(s: seq<Byte>): (r: (Usize, nat))
    requires |s| > 0
    ensures 1 <= r.1 <= |s|
    ensures !HasTopBit(s[0]) ==> r == (s[0], 1)
    ensures HasTopBit(s[0]) ==> r.1 == 1 + Min(s[0] - 0x80, |s| - 1)
  {
    if !HasTopBit(s[0]) then (s[0], 1)
    else
      var k := Min(s[0] - 0x80, |s| - 1);
      (AccWrap(s[1..1 + k]), 1 + k)
  }

  /** The long form: the length is the big-endian value of the octets after
      the first, as many as it announces or as are present, kept to 64 bits;
      content shorter than that is `TooShortBody`. */
  lemma ReadLenLongForm(s: seq<Byte>, used: nat, len: nat)
    requires |s| > 0 && HasTopBit(s[0])
    requires used == 1 + Min(s[0] - 0x80, |s| - 1) && len == BeValue(s[1..used]) % TWO_64
    ensures ReadLen(s) == if |s| - used < len then Err(TooShortBody(len, |s| - used)) else Ok((len, used))
  {
    AccWrapIsBeValueMod(s[1..used]);
  }

  /** The statements of `read_len`, with the `take(octet_num)` loop. */
  method ReadLenLoop(s: seq<Byte>) returns (r: Result<(nat, nat)>)
    ensures r == ReadLen(s)
  {
    if |s| == 0 {
      return Err(TruncatedTlv);
    }
    var len: Usize := s[0];
    var pos := 1;
    if HasTopBit(s[0]) {
      var octetNum := s[0] - 0x80;
      len := 0;
      var taken := 0;
      while taken < octetNum && pos < |s|
        invariant 0 <= taken <= octetNum
        invariant pos == 1 + taken && pos <= |s|
        invariant len == AccWrap(s[1..pos])
      {
        assert s[1..pos + 1][..pos - 1] == s[1..pos];
        len := Shl8(len) + s[pos];
        pos := pos + 1;
        taken := taken + 1;
      }
    }
    var remain := |s| - pos;
    if remain < len {
      return Err(TooShortBody(len, remain));
    }
    return Ok((len, pos));
  }

  /** Reading back the length octets the encoder emits gives the length. */
  lemma ReadLenOfEncodeLen(n: nat, rest: seq<Byte>)
    requires n < TWO_64
    ensures |rest| >= n ==> ReadLen(EncodeLen(n) + rest) == Ok((n, |EncodeLen(n)|))
    ensures |rest| < n ==> ReadLen(EncodeLen(n) + rest) == Err(TooShortBody(n, |rest|))
  {
    var e := EncodeLen(n);
    var s := e + rest;
    if n > 0x7F {
      EncodeLenHeader(n);
      var bs := MinimalBE(n);
      assert e[1..] == bs;
      assert s[1..1 + |bs|] == bs;
    }
  }

  /** Every node a decode produces: non-zero tag, raw bytes under a primitive
      tag, a child list under a constructed one, never `Nothing`. */
  predicate WellFormed(t: Tlv)
  {
    t.tag != 0 &&
    match t.val
    case Val(_) => IsPrimitive(t.tag)
    case TlvList(list) => !IsPrimitive(t.tag) && forall i :: 0 <= i < |list| ==> WellFormed(list[i])
    case Nothing => false
  }

  /** The identifier and length octets at the head of `s`: the tag number,
      where the content starts and the content length. */
  function ReadHeader(s: seq<Byte>): (r: Result<(Tag, nat, nat)>)
    ensures r.Ok? ==> r.value.0 != 0 && 2 <= r.value.1 && r.value.1 + r.value.2 <= |s|
    ensures r.Err? ==> r.error in {TruncatedTlv, InvalidTagNumber} || r.error.TooShortBody?
    ensures |s| == 0 ==> r == Err(TruncatedTlv)
  {
    match ReadTag(s)
    case Err(e) => Err(e)
    case Ok((tag, tu)) =>
      match ReadLen(s[tu..])
      case Err(e) => Err(e)
      case Ok((len, lu)) => Ok((tag, tu + lu, len))
  }

  /** Identifier octets read by `read_tag`, then length octets read by
      `read_len` right after them, make up the header. */
  lemma ReadHeaderOfParts(s: seq<Byte>, tag: Tag, tu: nat, len: nat, lu: nat, start: nat)
    requires ReadTag(s) == Ok((tag, tu)) && tu <= |s| && ReadLen(s[tu..]) == Ok((len, lu))
    requires start == tu + lu
    ensures ReadHeader(s) == Ok((tag, start, len))
  {
    var r := ReadHeader(s);
    assert r.Ok? && r.value.0 == tag && r.value.1 == start && r.value.2 == len;
    OkTriple(r, tag, start, len);
  }

  /** A header splits into the identifier octets `read_tag` consumed and the
      length octets `read_len` consumed right after them. */
  lemma ReadHeaderParts(s: seq<Byte>, tag: Tag, start: nat, len: nat) returns (tu: nat)
    requires ReadHeader(s) == Ok((tag, start, len))
    ensures |s| > 0 && tu == TagSpan(s) && ReadTag(s) == Ok((tag, tu))
    ensures tu < start && start + len <= |s| && ReadLen(s[tu..]) == Ok((len, start - tu))
  {
    tu := ReadTag(s).value.1;
  }

  /** `from_iter`: one TLV at the head of `s` and the number of bytes it spans.
      The children of a constructed value are decoded from exactly the `len`
      bytes after the length octets. */
  function Decode(s: seq<Byte>): (r: Result<(Tlv, nat)>)
    ensures r.Ok? ==> 2 <= r.value.1 <= |s|
    ensures |s| == 0 ==> r == Err(TruncatedTlv)
    decreases |s|, 0
  {
    match ReadHeader(s)
    case Err(e) => Err(e)
    case Ok((tag, start, len)) =>
      var body := s[start..start + len];
      if IsPrimitive(tag) then Ok((Tlv(tag, Val(body)), start + len))
      else
        match DecodeList(body)
        case Err(e) => Err(e)
        case Ok(children) => Ok((Tlv(tag, TlvList(children)), start + len))
  }

  /** What a successful decode consists of: the header's tag; under a
      primitive tag raw bytes, exactly the `len` content bytes (empty bytes
      rather than `Nothing` when `len` is 0); under a constructed tag the
      children decoded from those `len` bytes. */
  lemma DecodeParts(s: seq<Byte>, t: Tlv, u: nat) returns (start: nat, len: nat)
    requires Decode(s) == Ok((t, u))
    ensures ReadHeader(s) == Ok((t.tag, start, len))
    ensures 2 <= start && u == start + len && u <= |s|
    ensures IsPrimitive(t.tag) ==> t.val == Val(s[start..u])
    ensures !IsPrimitive(t.tag) ==> t.val.TlvList? && DecodeList(s[start..u]) == Ok(t.val.list)
  {
    DecodeReadsHeader(s);
    var h := ReadHeader(s);
    var tag := h.value.0;
    start, len := h.value.1, h.value.2;
    if IsPrimitive(tag) {
      DecodePrimitive(s, tag, start, len);
    } else {
      DecodeConstructedOk(s, tag, start, len, t, u);
    }
  }

  /** A decode succeeds only after its header was read. */
  lemma DecodeReadsHeader(s: seq<Byte>)
    requires Decode(s).Ok?
    ensures ReadHeader(s).Ok?
  {
  }

  /** A successful constructed decode holds the children of exactly `len` bytes. */
  lemma DecodeConstructedOk(s: seq<Byte>, tag: Tag, start: nat, len: nat, t: Tlv, u: nat)
    requires ReadHeader(s) == Ok((tag, start, len)) && !IsPrimitive(tag) && Decode(s) == Ok((t, u))
    ensures t.tag == tag && u == start + len
    ensures t.val.TlvList? && DecodeList(s[start..start + len]) == Ok(t.val.list)
  {
    DecodeConstructed(s, tag, start, len);
  }

  /** A primitive header is followed by exactly `len` raw content bytes. */
  lemma DecodePrimitive(s: seq<Byte>, tag: Tag, start: nat, len: nat)
    requires ReadHeader(s) == Ok((tag, start, len)) && IsPrimitive(tag)
    ensures Decode(s) == Ok((Tlv(tag, Val(s[start..start + len])), start + len))
  {
  }

  /** A constructed header is followed by the children decoded from exactly
      `len` bytes, and any error among them is the decode's error. */
  lemma DecodeConstructed(s: seq<Byte>, tag: Tag, start: nat, len: nat)
    requires ReadHeader(s) == Ok((tag, start, len)) && !IsPrimitive(tag)
    ensures Decode(s) ==
      match DecodeList(s[start..start + len])
      case Err(e) => Err(e)
      case Ok(children) => Ok((Tlv(tag, TlvList(children)), start + len))
  {
  }

  /** Every tree the decoder returns is well formed. */
  lemma {:induction false} DecodeWellFormed(s: seq<Byte>)
    ensures Decode(s).Ok? ==> WellFormed(Decode(s).value.0)
    decreases |s|, 0
  {
    if Decode(s).Ok? {
      var (t, u) := Decode(s).value;
      var start, len := DecodeParts(s, t, u);
      if !IsPrimitive(t.tag) {
        DecodeListWellFormed(s[start..u]);
      }
    }
  }

  lemma {:induction false} DecodeListWellFormed(s: seq<Byte>)
    ensures DecodeList(s).Ok? ==>
      forall i :: 0 <= i < |DecodeList(s).value| ==> WellFormed(DecodeList(s).value[i])
    decreases |s|, 1
  {
    if |s| > 0 && DecodeList(s).Ok? {
      var (c, u) := Decode(s).value;
      DecodeWellFormed(s);
      DecodeListWellFormed(s[u..]);
      assert DecodeList(s).value == [c] + DecodeList(s[u..]).value;
    }
  }

  /** The `while val.size_hint().0 != 0` loop: children one after another
      until the budget is used up; the first error ends the whole decode. */
  function DecodeList(s: seq<Byte>): (r: Result<seq<Tlv>>)
    ensures r.Ok? ==> 2 * |r.value| <= |s|
    ensures r.Ok? && |s| > 0 ==> |r.value| > 0
    decreases |s|, 1
  {
    if |s| == 0 then Ok([])
    else
      match Decode(s)
      case Err(e) => Err(e)
      case Ok((child, used)) =>
        match DecodeList(s[used..])
        case Err(e) => Err(e)
        case Ok(rest) => Ok([child] + rest)
  }

  /** A child decoded at the head of `s`, then the children after it. */
  lemma DecodeListCons(s: seq<Byte>, c: Tlv, u: nat, tail: seq<Tlv>)
    requires |s| > 0 && Decode(s) == Ok((c, u)) && DecodeList(s[u..]) == Ok(tail)
    ensures DecodeList(s) == Ok([c] + tail)
  {
  }

  /** A non-empty child list is its first child followed by the children
      decoded from the bytes after it. */
  lemma DecodeListParts(s: seq<Byte>, list: seq<Tlv>) returns (c: Tlv, u: nat, tail: seq<Tlv>)
    requires DecodeList(s) == Ok(list) && |s| > 0
    ensures Decode(s) == Ok((c, u)) && DecodeList(s[u..]) == Ok(tail)
    ensures list == [c] + tail
  {
    c, u := Decode(s).value.0, Decode(s).value.1;
    tail := DecodeList(s[u..]).value;
  }

  /** `from_vec`: decode the TLV at the head of `slice`; later bytes are ignored. */
  function FromVec(slice: seq<Byte>): (r: Result<Tlv>)
    ensures |slice| == 0 ==> r == Err(TruncatedTlv)
    ensures r.Ok? ==> WellFormed(r.value)
  {
    DecodeWellFormed(slice);
    match Decode(slice)
    case Err(e) => Err(e)
    case Ok((t, _)) => Ok(t)
  }

  /** Every node a decode produces is one `Tlv::new` accepts unchanged. */
  lemma {:induction false} DecodedNodesAreNew(t: Tlv)
    requires WellFormed(t)
    ensures New(t.tag, t.val) == Ok(t)
    ensures t.val.TlvList? ==> forall i :: 0 <= i < |t.val.list| ==> New(t.val.list[i].tag, t.val.list[i].val) == Ok(t.val.list[i])
  {
    if t.val.TlvList? {
      forall i | 0 <= i < |t.val.list|
        ensures New(t.val.list[i].tag, t.val.list[i].val) == Ok(t.val.list[i])
      {
        assert WellFormed(t.val.list[i]);
      }
    }
  }

  /** A decoded tree has no tag 0 anywhere, so its encoding is as long as
      `len` says. */
  lemma {:induction false} WellFormedLenIsToVecSize(t: Tlv)
    requires WellFormed(t)
    ensures TagsNonZero(t) && |ToVec(t)| == Len(t)
    decreases t
  {
    if t.val.TlvList? {
      forall i | 0 <= i < |t.val.list|
        ensures TagsNonZero(t.val.list[i])
      {
        WellFormedLenIsToVecSize(t.val.list[i]);
      }
    }
    ToVecSize(t);
  }

  /** A decode reads only the bytes it reports as consumed: decoding that
      prefix alone gives the same TLV, so trailing bytes play no part. */
  lemma DecodeUsesOnlyPrefix(s: seq<Byte>, t: Tlv, u: nat)
    requires Decode(s) == Ok((t, u))
    ensures Decode(s[..u]) == Ok((t, u))
  {
    var (tag, start, len) := ReadHeader(s).value;
    ReadHeaderOfPrefix(s, u);
    SliceOfPrefix(s, u, start, start + len);
  }

  lemma SliceOfPrefix(s: seq<Byte>, u: nat, i: nat, j: nat)
    requires i <= j <= u <= |s|
    ensures s[..u][i..j] == s[i..j]
  {
  }

  lemma ReadHeaderOfPrefix(s: seq<Byte>, u: nat)
    requires ReadHeader(s).Ok? && ReadHeader(s).value.1 + ReadHeader(s).value.2 <= u <= |s|
    ensures ReadHeader(s[..u]) == ReadHeader(s)
  {
    var p := s[..u];
    var (tag, start, len) := ReadHeader(s).value;
    var tu := ReadHeaderParts(s, tag, start, len);
    ReadTagOfPrefix(s, u);
    assert p[tu..] == s[tu..][..u - tu];
    ReadLenOfPrefix(s[tu..], u - tu);
    ReadHeaderOfParts(p, tag, tu, len, start - tu, start);
  }

  lemma ReadTagOfPrefix(s: seq<Byte>, u: nat)
    requires ReadTag(s).Ok? && ReadTag(s).value.1 < u <= |s|
    ensures ReadTag(s[..u]) == ReadTag(s)
  {
    var n := TagSpan(s);
    TagSpanOfPrefix(s, u);
    assert s[..u][..n] == s[..n];
  }

  lemma ReadLenOfPrefix(q: seq<Byte>, m: nat)
    requires ReadLen(q).Ok? && ReadLen(q).value.1 + ReadLen(q).value.0 <= m <= |q|
    ensures ReadLen(q[..m]) == ReadLen(q)
  {
    var qp := q[..m];
    if HasTopBit(q[0]) {
      var k := Min(q[0] - 0x80, |q| - 1);
      assert 1 + k <= m;
      assert qp[1..1 + k] == q[1..1 + k];
      assert Min(q[0] - 0x80, m - 1) == k;
    }
    assert LengthOctets(qp) == LengthOctets(q);
  }

  /** When the identifier octets end before `u`, a prefix of length `u` has
      the same identifier octets. */
  lemma TagSpanOfPrefix(s: seq<Byte>, u: nat)
    requires 0 < u <= |s| && TagSpan(s) < u
    ensures TagSpan(s[..u]) == TagSpan(s)
  {
    var p := s[..u];
    assert p[0] == s[0];
    if IsLongTagLead(s[0]) {
      var t := s[1..];
      var k := TagTailLen(t);
      assert k < |t|;
      assert p[1..] == t[..u - 1];
      TagTailLenIs(p[1..], k);
    }
  }
}
