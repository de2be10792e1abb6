/** Octet-level building blocks of the BER-TLV codec (ITU-T X.690, section 8.1):
    big-endian integers, the 64-bit wrap-around of `usize` accumulation,
    the span of identifier octets and the definite-form length octets.
    Both the current codec (src/tlv.rs) and the legacy one (src/lib.rs) use them. */
module Octets {

  type Byte = b: nat | b < 256

  /** 2^64: the range of a Rust `usize` on the 64-bit targets the codec runs on. */
  const TWO_64: nat := 0x1_0000_0000_0000_0000

  type Usize = x: nat | x < TWO_64

  function Pow256(k: nat): (p: nat)
    ensures p >= 1
  {
    if k == 0 then 1 else 256 * Pow256(k - 1)
  }

  lemma {:induction false} Pow256Monotonic(i: nat, j: nat)
    requires i <= j
    ensures Pow256(i) <= Pow256(j)
    decreases j
  {
    if i < j {
      Pow256Monotonic(i, j - 1);
    }
  }

  lemma Pow256Eight()
    ensures Pow256(8) == TWO_64
  {
  }

  function Min(a: nat, b: nat): nat
  {
    if a <= b then a else b
  }

  // ---------------------------------------------------------------------
  // Bit tests on single octets, written arithmetically.

  /** Bit 0x20 of an identifier octet: set for a constructed encoding (X.690 section 8.1.2.5). */
  predicate IsConstructedOctet(b: Byte)
  {
    b % 64 >= 32
  }

  /** Low five bits all ones (b & 0x1F == 0x1F): a multi-octet tag number follows (X.690 section 8.1.2.4). */
  predicate IsLongTagLead(b: Byte)
  {
    b % 32 == 31
  }

  /** Bit 0x80 set: in a subsequent identifier octet, another octet follows;
      in the first length octet, the long form is used. */
  predicate HasTopBit(b: Byte)
  {
    b >= 128
  }

  // ---------------------------------------------------------------------
  // Big-endian integers.

  /** The unsigned integer whose big-endian octets are `bs`. */
  function BeValue(bs: seq<Byte>): (v: nat)
    ensures v < Pow256(|bs|)
  {
    if |bs| == 0 then 0
    else
      var hi := BeValue(bs[..|bs| - 1]);
      assert hi * 256 + bs[|bs| - 1] < Pow256(|bs|) by {
        assert hi <= Pow256(|bs| - 1) - 1;
        assert hi * 256 <= (Pow256(|bs| - 1) - 1) * 256;
      }
      hi * 256 + bs[|bs| - 1]
  }

  lemma {:induction false} BeValueLowerBound(bs: seq<Byte>)
    requires |bs| > 0 && bs[0] != 0
    ensures Pow256(|bs| - 1) <= BeValue(bs)
    decreases |bs|
  {
    if |bs| > 1 {
      var init := bs[..|bs| - 1];
      assert init[0] == bs[0];
      BeValueLowerBound(init);
    }
  }

  /** The big-endian octets of `n` with every leading zero octet stripped:
      what `to_be_bytes()` followed by `skip_while(|x| x == 0)` yields. */
  function MinimalBE(n: nat): (r: seq<Byte>)
    ensures BeValue(r) == n
    ensures |r| == 0 <==> n == 0
    ensures |r| > 0 ==> r[0] != 0
    ensures n < Pow256(|r|)
    ensures |r| > 0 ==> Pow256(|r| - 1) <= n
    decreases n
  {
    if n == 0 then []
    else
      var hi := MinimalBE(n / 256);
      var r := hi + [n % 256];
      assert r[..|r| - 1] == hi;
      assert |hi| > 0 ==> Pow256(|hi| - 1) * 256 <= (n / 256) * 256;
      r
  }

  /** Reading back the octets of a value without leading zero octets gives those octets. */
  lemma {:induction false} MinimalBEOfBeValue(bs: seq<Byte>)
    requires |bs| > 0 ==> bs[0] != 0
    ensures MinimalBE(BeValue(bs)) == bs
    decreases |bs|
  {
    if |bs| > 0 {
      var init := bs[..|bs| - 1];
      var n := BeValue(bs);
      BeValueLowerBound(bs);
      assert n != 0;
      assert n / 256 == BeValue(init) && n % 256 == bs[|bs| - 1];
      if |init| > 0 {
        assert init[0] == bs[0];
      }
      MinimalBEOfBeValue(init);
      assert bs == init + [bs[|bs| - 1]];
    }
  }

  /** Values below 256^k need at most k octets. */
  lemma {:induction false} MinimalBELength(n: nat, k: nat)
    requires n < Pow256(k)
    ensures |MinimalBE(n)| <= k
    decreases k
  {
    if n != 0 {
      assert k > 0;
      assert n / 256 < Pow256(k - 1);
      MinimalBELength(n / 256, k - 1);
    }
  }

  lemma Pow256Seven()
    ensures Pow256(7) == 0x100_0000_0000_0000
  {
  }

  // ---------------------------------------------------------------------
  // Division facts used to locate the most significant octet of an integer.

  lemma {:induction false} MulAtLeast(d: nat, m: nat)
    requires d >= 1
    ensures d * m >= m
    decreases d
  {
    if d > 1 {
      MulAtLeast(d - 1, m);
      assert d * m == (d - 1) * m + m;
    }
  }

  lemma DivUnique(x: nat, q: nat, y: nat, m: nat)
    requires m > 0 && x == q * m + y && y < m
    ensures x / m == q
  {
    var q' := x / m;
    var y' := x % m;
    assert x == q' * m + y';
    if q' < q {
      assert (q - q') * m == y' - y;
      MulAtLeast(q - q', m);
      assert false;
    } else if q' > q {
      assert (q' - q) * m == y - y';
      MulAtLeast(q' - q, m);
      assert false;
    }
  }

  lemma DivDiv(a: nat, b: nat, c: nat)
    requires b > 0 && c > 0
    ensures a / (b * c) == (a / b) / c
  {
    DivDivParts(a, b, c, a / b, a % b, (a / b) / c, (a / b) % c);
  }

  lemma DivDivParts(a: nat, b: nat, c: nat, x: nat, r1: nat, q: nat, r2: nat)
    requires b > 0 && c > 0
    requires a == x * b + r1 && r1 < b
    requires x == q * c + r2 && r2 < c
    ensures a / (b * c) == q
  {
    Regroup(a, b, c, x, q, r2, r1);
    RemainderBound(b, c, r2, r1);
    MulAtLeast(b, c);
    DivUnique(a, q, r2 * b + r1, b * c);
  }

  lemma Regroup(a: nat, b: nat, c: nat, x: nat, q: nat, r2: nat, r1: nat)
    requires a == x * b + r1 && x == q * c + r2
    ensures a == q * (b * c) + (r2 * b + r1)
  {
    assert x * b == (q * c + r2) * b;
    assert (q * c + r2) * b == q * (b * c) + r2 * b;
  }

  lemma RemainderBound(b: nat, c: nat, r2: nat, r1: nat)
    requires r2 < c && r1 < b
    ensures r2 * b + r1 < b * c
  {
    assert r2 * b <= (c - 1) * b;
    assert (c - 1) * b == b * c - b;
  }

  /** The most significant octet of a non-zero `n` is `n` divided by 256 to the
      power of one less than its octet count. */
  lemma {:induction false} LeadingOctet(n: nat)
    requires n != 0
    ensures n / Pow256(|MinimalBE(n)| - 1) == MinimalBE(n)[0]
    decreases n
  {
    var r := MinimalBE(n);
    var hi := MinimalBE(n / 256);
    assert r == hi + [n % 256];
    if n / 256 == 0 {
      assert r == [n % 256];
      assert n < 256;
    } else {
      LeadingOctet(n / 256);
      var p := Pow256(|hi| - 1);
      assert Pow256(|r| - 1) == 256 * p;
      DivDiv(n, 256, p);
      assert r[0] == hi[0];
    }
  }

  // ---------------------------------------------------------------------
  // usize accumulation as the source writes it: `x.checked_shl(8)` never
  // fails for a shift of 8, so the high octet silently falls off.

  /** `x << 8` on a 64-bit `usize`: the top octet is dropped, the rest moves up one octet. */
  function Shl8(x: Usize): (r: Usize)
    ensures r % 256 == 0
    ensures x < 0x100_0000_0000_0000 ==> r == x * 256
  {
    (x % 0x100_0000_0000_0000) * 256
  }

  /** The accumulator loop `acc = (acc << 8) | b` over `bs`, starting from 0. */
  function AccWrap(bs: seq<Byte>): (v: Usize)
    ensures |bs| > 0 ==> v % 256 == bs[|bs| - 1]
    ensures |bs| <= 8 ==> v == BeValue(bs)
  {
    if |bs| == 0 then 0
    else
      var init := bs[..|bs| - 1];
      var acc := AccWrap(init);
      assert |bs| <= 8 ==> acc < 0x100_0000_0000_0000 by {
        if |bs| <= 8 {
          Pow256Monotonic(|init|, 7);
          Pow256Seven();
        }
      }
      Shl8(acc) + bs[|bs| - 1]
  }

  /** Whatever the number of octets, the wrapping accumulation keeps the low
      64 bits of their big-endian value. */
  lemma {:induction false} AccWrapIsBeValueMod(bs: seq<Byte>)
    ensures AccWrap(bs) == BeValue(bs) % TWO_64
    decreases |bs|
  {
    if |bs| > 0 {
      var init := bs[..|bs| - 1];
      var b := bs[|bs| - 1];
      AccWrapIsBeValueMod(init);
      var h := BeValue(init);
      var acc := AccWrap(init);
      var p56: nat := 0x100_0000_0000_0000;
      var r := acc % p56;
      var q1 := h / TWO_64;
      var q2 := acc / p56;
      assert h == q1 * TWO_64 + acc;
      assert acc == q2 * p56 + r;
      assert h == (q1 * 256 + q2) * p56 + r;
      ModUnique(h, q1 * 256 + q2, r, p56);
      assert h * 256 + b == (q1 * 256 + q2) * TWO_64 + (r * 256 + b);
      ModUnique(h * 256 + b, q1 * 256 + q2, r * 256 + b, TWO_64);
      assert BeValue(bs) == h * 256 + b;
    }
  }

  /** The remainder is determined by any quotient-remainder split. */
  lemma ModUnique(x: nat, q: nat, y: nat, m: nat)
    requires m > 0 && x == q * m + y && y < m
    ensures x % m == y
  {
    DivUnique(x, q, y, m);
  }

  /** Once the accumulator is non-zero modulo 256 (the last octet read was not
      zero), one more step of any octet keeps it non-zero. */
  lemma ShiftKeepsNonZero(x: Usize, b: Byte)
    requires x % 256 != 0
    ensures Shl8(x) + b != 0
  {
    assert (x % 0x100_0000_0000_0000) % 256 == x % 256;
  }

  // ---------------------------------------------------------------------
  // Identifier octets (X.690 section 8.1.2).

  /** Number of subsequent identifier octets: up to and including the first
      octet with bit 0x80 clear, or all of `s` when none is clear. */
  function TagTailLen(s: seq<Byte>): (k: nat)
    ensures k <= |s|
    ensures forall i :: 0 <= i < k - 1 ==> HasTopBit(s[i])
    ensures k > 0 ==> k == |s| || !HasTopBit(s[k - 1])
    ensures k < |s| ==> k > 0 && !HasTopBit(s[k - 1])
  {
    if |s| == 0 then 0
    else if !HasTopBit(s[0]) then 1
    else 1 + TagTailLen(s[1..])
  }

  /** Number of identifier octets at the head of a non-empty `s`. */
  function TagSpan(s: seq<Byte>): (n: nat)
    requires |s| > 0
    ensures 1 <= n <= |s|
    ensures !IsLongTagLead(s[0]) ==> n == 1
  {
    if IsLongTagLead(s[0]) then 1 + TagTailLen(s[1..]) else 1
  }

  /** The identifier octets the loop collects, when the low five bits of the
      first octet are all ones: the first octet itself, every continuation
      octet with bit 0x80 set, and the first one with it clear. */
  lemma TagSpanShape(s: seq<Byte>)
    requires |s| > 0 && IsLongTagLead(s[0])
    ensures forall i :: 1 <= i < TagSpan(s) - 1 ==> HasTopBit(s[i])
    ensures TagSpan(s) == |s| || (TagSpan(s) >= 2 && !HasTopBit(s[TagSpan(s) - 1]))
  {
    var t := s[1..];
    var k := TagTailLen(t);
    forall i | 1 <= i < TagSpan(s) - 1
      ensures HasTopBit(s[i])
    {
      assert s[i] == t[i - 1];
    }
    if k > 0 && k < |t| {
      assert s[k] == t[k - 1];
    }
  }

  // ---------------------------------------------------------------------
  // Length octets (X.690 sections 8.1.3.4 and 8.1.3.5, definite form only).

  /** A long-form length field: `0x80 | (count as u8)` followed by the octets.
      `as u8` keeps the low eight bits of the count; below 2^64 the count is at
      most 8, so the header is plainly 0x80 plus the count. */
  function LongForm(bs: seq<Byte>): (r: seq<Byte>)
    ensures |r| == 1 + |bs| && HasTopBit(r[0]) && r[1..] == bs
    ensures |bs| < 128 ==> r == [0x80 + |bs|] + bs
  {
    [0x80 + |bs| % 128] + bs
  }

  /** The length octets the encoder emits for a content length `n`. */
  function EncodeLen(n: nat): (r: seq<Byte>)
    ensures n <= 0x7F ==> r == [n]
    ensures n > 0x7F ==> 2 <= |r| && HasTopBit(r[0]) && r[1] != 0 && BeValue(r[1..]) == n
  {
    if n <= 0x7F then [n] else LongForm(MinimalBE(n))
  }

  /** Below 2^64 a long-form header is exactly 0x80 plus the number of
      octets that follow it, and at most eight follow. */
  lemma EncodeLenHeader(n: nat)
    requires 0x7F < n < TWO_64
    ensures |EncodeLen(n)| <= 9 && EncodeLen(n)[0] == 0x80 + (|EncodeLen(n)| - 1)
  {
    Pow256Eight();
    MinimalBELength(n, 8);
  }

  /** A long-form length field is minimal exactly when the encoder would have
      produced it: a count of 1 to 8 octets, all present, no leading zero
      octet, and a value that does not fit the short form. */
  predicate MinimalLengthField(s: seq<Byte>)
  {
    |s| > 0 &&
    (!HasTopBit(s[0]) ||
      var n := s[0] - 0x80;
      1 <= n <= 8 && n < |s| && s[1] != 0 && (n > 1 || HasTopBit(s[1])))
  }

  /** The long-form octets of a minimal length field are what the encoder emits. */
  lemma LongLengthIsEncodeLen(bs: seq<Byte>)
    requires 1 <= |bs| <= 8 && bs[0] != 0 && (|bs| > 1 || HasTopBit(bs[0]))
    ensures AccWrap(bs) == BeValue(bs)
    ensures EncodeLen(BeValue(bs)) == [0x80 + |bs|] + bs
  {
    var v: nat := BeValue(bs);
    BeValueLowerBound(bs);
    if |bs| == 1 {
      assert bs[..0] == [];
      assert v == bs[0];
    } else {
      Pow256Monotonic(1, |bs| - 1);
    }
    assert v > 0x7F;
    MinimalBEOfBeValue(bs);
    var r := MinimalBE(v);
    assert r == bs;
    assert EncodeLen(v) == LongForm(r);
  }

  lemma MinimalLengthFieldIsEncodeLen(s: seq<Byte>)
    requires MinimalLengthField(s)
    ensures !HasTopBit(s[0]) ==> EncodeLen(s[0]) == [s[0]]
    ensures HasTopBit(s[0]) ==>
      AccWrap(s[1..s[0] - 0x7F]) == BeValue(s[1..s[0] - 0x7F]) &&
      EncodeLen(BeValue(s[1..s[0] - 0x7F])) == s[..s[0] - 0x7F]
  {
    if HasTopBit(s[0]) {
      var bs := s[1..s[0] - 0x7F];
      LongLengthIsEncodeLen(bs);
      assert s[..s[0] - 0x7F] == [s[0]] + bs;
    }
  }
}
