/** Tag paths of src/tlv.rs: `get_path` turns a string such as "6F / A5"
    into tag numbers, and `find_val` follows such a path down a tree.

    Strings are sequences of `char`; only the ASCII hexadecimal digits and
    '/' take part in a path, as `char::is_digit(16)` accepts nothing else. */
module TlvPath {
  import opened Octets
  import opened TlvCodec

  datatype Option<T> = None | Some(value: T)

  // ---------------------------------------------------------------------
  // Characters and segments

  predicate IsHexDigit(c: char)
  {
    '0' <= c <= '9' || 'a' <= c <= 'f' || 'A' <= c <= 'F'
  }

  /** The characters `get_path` keeps: hexadecimal digits and the separator. */
  predicate IsPathChar(c: char)
  {
    IsHexDigit(c) || c == '/'
  }

  function HexValue(c: char): (d: nat)
    requires IsHexDigit(c)
    ensures d < 16
  {
    if '0' <= c <= '9' then c as int - '0' as int
    else if 'a' <= c <= 'f' then c as int - 'a' as int + 10
    else c as int - 'A' as int + 10
  }

  /** The `filter(|&x| x.is_digit(16) || x == '/')` step: the path characters
      of `p`, in order. */
  function Filter(p: string): (r: string)
    ensures |r| <= |p|
    ensures forall i :: 0 <= i < |r| ==> IsPathChar(r[i])
  {
    if |p| == 0 then []
    else if IsPathChar(p[0]) then [p[0]] + Filter(p[1..])
    else Filter(p[1..])
  }

  /** A string of path characters is left as it is. */
  lemma {:induction false} FilterKeeps(p: string)
    requires forall i :: 0 <= i < |p| ==> IsPathChar(p[i])
    ensures Filter(p) == p
    decreases |p|
  {
    if |p| > 0 {
      assert IsPathChar(p[0]);
      FilterKeeps(p[1..]);
    }
  }

  /** A string with no path character filters to nothing. */
  lemma {:induction false} FilterDrops(p: string)
    requires forall i :: 0 <= i < |p| ==> !IsPathChar(p[i])
    ensures Filter(p) == []
    decreases |p|
  {
    if |p| > 0 {
      assert !IsPathChar(p[0]);
      FilterDrops(p[1..]);
    }
  }

  /** Filtering distributes over concatenation, so with `FilterKeeps` and
      `FilterDrops` it fixes `Filter` on every string. */
  lemma {:induction false} FilterConcat(a: string, b: string)
    ensures Filter(a + b) == Filter(a) + Filter(b)
    decreases |a|
  {
    if |a| == 0 {
      assert a + b == b;
    } else {
      assert (a + b)[0] == a[0] && (a + b)[1..] == a[1..] + b;
      FilterConcat(a[1..], b);
    }
  }

  /** `split('/')`: the pieces between separators, an empty piece wherever two
      separators meet or one stands at either end, so always at least one. */
  function Split(p: string): (r: seq<string>)
    ensures |r| >= 1
    ensures forall i, j :: 0 <= i < |r| && 0 <= j < |r[i]| ==> r[i][j] != '/'
    ensures forall i, j :: 0 <= i < |r| && 0 <= j < |r[i]| ==> r[i][j] in p
    ensures |r| - 1 <= |p|
  {
    if |p| == 0 then [[]]
    else
      var r := Split(p[1..]);
      if p[0] == '/' then [[]] + r
      else [[p[0]] + r[0]] + r[1..]
  }

  /** The segments joined back with '/' between them. */
  function Join(segs: seq<string>): (r: string)
    requires |segs| >= 1
  {
    if |segs| == 1 then segs[0] else segs[0] + "/" + Join(segs[1..])
  }

  predicate NoSeparator(seg: string)
  {
    forall j :: 0 <= j < |seg| ==> seg[j] != '/'
  }

  /** Splitting loses nothing: joining the pieces gives the string back. */
  lemma {:induction false} JoinSplit(p: string)
    ensures Join(Split(p)) == p
    decreases |p|
  {
    if |p| > 0 {
      var r := Split(p[1..]);
      JoinSplit(p[1..]);
      if p[0] == '/' {
        assert Split(p) == [[]] + r;
        assert Split(p)[1..] == r;
      } else {
        var r2 := Split(p);
        assert r2[0] == [p[0]] + r[0] && r2[1..] == r[1..];
        if |r| == 1 {
          assert Join(r2) == r2[0];
        } else {
          assert Join(r) == r[0] + "/" + Join(r[1..]);
          assert Join(r2) == r2[0] + "/" + Join(r2[1..]);
        }
      }
    }
  }

  /** A piece without separators, followed by the rest, is the first piece
      of the split with that piece in front. */
  lemma {:induction false} SplitOfPrefix(a: string, rest: string)
    requires NoSeparator(a)
    ensures Split(a + rest) == [a + Split(rest)[0]] + Split(rest)[1..]
    decreases |a|
  {
    var r := Split(rest);
    if |a| == 0 {
      assert a + rest == rest && a + r[0] == r[0];
      assert [r[0]] + r[1..] == r;
    } else {
      assert (a + rest)[0] == a[0] && (a + rest)[1..] == a[1..] + rest;
      SplitOfPrefix(a[1..], rest);
      assert [a[0]] + (a[1..] + r[0]) == a + r[0];
    }
  }

  /** Joining pieces without separators and splitting again gives the pieces. */
  lemma {:induction false} SplitJoin(segs: seq<string>)
    requires |segs| >= 1
    requires forall i :: 0 <= i < |segs| ==> NoSeparator(segs[i])
    ensures Split(Join(segs)) == segs
    decreases |segs|
  {
    if |segs| == 1 {
      SplitOfPrefix(segs[0], []);
      assert segs[0] + [] == segs[0];
      assert Split([]) == [[]];
    } else {
      var tail := Join(segs[1..]);
      SplitJoin(segs[1..]);
      var st := "/" + tail;
      assert st[0] == '/' && st[1..] == tail;
      assert Split(st) == [[]] + Split(tail);
      SplitOfPrefix(segs[0], st);
      assert segs[0] + st == Join(segs);
      assert segs[0] + [] == segs[0];
      assert segs == [segs[0]] + segs[1..];
    }
  }

  // ---------------------------------------------------------------------
  // Hexadecimal numbers

  /** The number the hexadecimal digits of `seg` spell, without bound. */
  function HexNumber(seg: string): (n: nat)
    requires forall i :: 0 <= i < |seg| ==> IsHexDigit(seg[i])
  {
    if |seg| == 0 then 0
    else HexNumber(seg[..|seg| - 1]) * 16 + HexValue(seg[|seg| - 1])
  }

  predicate AllHex(seg: string)
  {
    forall i :: 0 <= i < |seg| ==> IsHexDigit(seg[i])
  }

  /** `usize::from_str_radix(x, 16)`: an empty piece, a character that is not
      a hexadecimal digit, or a value of 2^64 or more is an error. */
  function ParseHex(seg: string): (r: Result<Tag>)
    ensures r.Ok? <==> |seg| > 0 && AllHex(seg) && HexNumber(seg) < TWO_64
    ensures r.Ok? ==> r.value == HexNumber(seg)
    ensures r.Err? ==> r.error == TagPathError
  {
    if |seg| == 0 || !AllHex(seg) then Err(TagPathError)
    else
      var n := HexNumber(seg);
      if n < TWO_64 then Ok(n) else Err(TagPathError)
  }

  /** A longer string of digits never spells a smaller number. */
  lemma {:induction false} HexNumberGrows(seg: string, k: nat)
    requires AllHex(seg) && k <= |seg|
    ensures HexNumber(seg[..k]) <= HexNumber(seg)
    decreases |seg| - k
  {
    if k < |seg| {
      var next := seg[..k + 1];
      assert AllHex(next);
      assert next[..k] == seg[..k];
      HexNumberGrows(seg, k + 1);
    } else {
      assert seg[..k] == seg;
    }
  }

  /** The digit loop of `from_str_radix` with its checked multiply and add:
      the first step past `usize::MAX` is an error. */
  method ParseHexLoop(seg: string) returns (r: Result<Tag>)
    ensures r == ParseHex(seg)
  {
    if |seg| == 0 {
      return Err(TagPathError);
    }
    var acc: nat := 0;
    var i := 0;
    while i < |seg|
      invariant 0 <= i <= |seg|
      invariant AllHex(seg[..i]) && acc == HexNumber(seg[..i]) && acc < TWO_64
    {
      var c := seg[i];
      if !IsHexDigit(c) {
        return Err(TagPathError);
      }
      assert seg[..i + 1][..i] == seg[..i];
      var next := acc * 16 + HexValue(c);
      assert AllHex(seg[..i + 1]) && HexNumber(seg[..i + 1]) == next;
      if next >= TWO_64 {
        if AllHex(seg) {
          HexNumberGrows(seg, i + 1);
        }
        return Err(TagPathError);
      }
      acc := next;
      i := i + 1;
    }
    assert seg[..i] == seg;
    return Ok(acc);
  }

  // ---------------------------------------------------------------------
  // get_path

  /** The `collect::<Result<Vec<_>>>()` over the pieces: every piece parsed,
      or the error as soon as one fails. */
  function ParseAll(segs: seq<string>): (r: Result<seq<Tag>>)
    ensures r.Ok? <==> forall i :: 0 <= i < |segs| ==> ParseHex(segs[i]).Ok?
    ensures r.Ok? ==> |r.value| == |segs|
    ensures r.Ok? ==> forall i :: 0 <= i < |segs| ==> r.value[i] == ParseHex(segs[i]).value
    ensures r.Err? ==> r.error == TagPathError
  {
    if |segs| == 0 then Ok([])
    else
      match ParseHex(segs[0])
      case Err(e) => Err(e)
      case Ok(x) =>
        match ParseAll(segs[1..])
        case Err(e) => Err(e)
        case Ok(xs) => Ok([x] + xs)
  }

  /** `get_path`: the tag numbers of a path such as "6F / A5 / BF0C". */
  function GetPath(p: string): (r: Result<seq<Tag>>)
    ensures r.Ok? ==> |r.value| >= 1
    ensures r.Err? ==> r.error == TagPathError
  {
    ParseAll(Split(Filter(p)))
  }

  /** The filter is idempotent, so parsing an already filtered path again
      changes nothing. Which characters it drops is `FilterDrops` and
      `FilterConcat`. */
  lemma GetPathIgnoresOtherChars(p: string)
    ensures Filter(Filter(p)) == Filter(p)
    ensures GetPath(p) == GetPath(Filter(p))
  {
    FilterKeeps(Filter(p));
  }

  /** The pieces of a filtered path are strings of hexadecimal digits. */
  lemma PiecesAreHex(p: string)
    ensures forall i :: 0 <= i < |Split(Filter(p))| ==> AllHex(Split(Filter(p))[i])
  {
    var f := Filter(p);
    var r := Split(f);
    forall i, j | 0 <= i < |r| && 0 <= j < |r[i]|
      ensures IsHexDigit(r[i][j])
    {
      var c := r[i][j];
      assert c in f && c != '/';
      var k :| 0 <= k < |f| && f[k] == c;
      assert IsPathChar(f[k]);
    }
  }

  /** `get_path` fails exactly when, once the other characters are dropped,
      some piece is empty (two separators in a row, or one at either end) or
      spells a number of 2^64 or more. */
  lemma GetPathFailsExactly(p: string)
    ensures GetPath(p).Err? <==>
      exists i :: 0 <= i < |Split(Filter(p))| &&
        (|Split(Filter(p))[i]| == 0 || HexNumber(Split(Filter(p))[i]) >= TWO_64)
  {
    PiecesAreHex(p);
    var r := Split(Filter(p));
    if GetPath(p).Err? {
      var i :| 0 <= i < |r| && ParseHex(r[i]).Err?;
      assert |r[i]| == 0 || HexNumber(r[i]) >= TWO_64;
    } else {
      forall i | 0 <= i < |r|
        ensures |r[i]| > 0 && HexNumber(r[i]) < TWO_64
      {
        assert ParseHex(r[i]).Ok?;
      }
    }
  }

  /** The lower-case hexadecimal digits of `n`, without leading zeros ("0" for 0). */
  function HexDigits(n: nat): (r: string)
    ensures |r| >= 1 && AllHex(r) && NoSeparator(r)
    ensures HexNumber(r) == n
    decreases n
  {
    var d := "0123456789abcdef"[n % 16];
    if n < 16 then [d]
    else
      var hi := HexDigits(n / 16);
      var r := hi + [d];
      assert r[..|r| - 1] == hi;
      r
  }

  /** A path written the way the source's examples write it, "6f / a5". */
  function FormatPath(tags: seq<Tag>): (r: string)
    requires |tags| >= 1
    decreases |tags|
  {
    if |tags| == 1 then HexDigits(tags[0])
    else HexDigits(tags[0]) + " / " + FormatPath(tags[1..])
  }

  function HexPieces(tags: seq<Tag>): (r: seq<string>)
    ensures |r| == |tags|
    ensures forall i :: 0 <= i < |tags| ==> r[i] == HexDigits(tags[i])
  {
    seq(|tags|, i requires 0 <= i < |tags| => HexDigits(tags[i]))
  }

  lemma {:induction false} FilterFormatPath(tags: seq<Tag>)
    requires |tags| >= 1
    ensures Filter(FormatPath(tags)) == Join(HexPieces(tags))
    decreases |tags|
  {
    var h := HexDigits(tags[0]);
    FilterKeeps(h);
    if |tags| == 1 {
    } else {
      FilterFormatPath(tags[1..]);
      FilterConcat(h + " / ", FormatPath(tags[1..]));
      FilterConcat(h, " / ");
      assert Filter(" / ") == "/";
      assert HexPieces(tags)[1..] == HexPieces(tags[1..]);
    }
  }

  /** Any tag path written out as text is read back by `get_path`. */
  lemma FormatThenGetPath(tags: seq<Tag>)
    requires |tags| >= 1
    ensures GetPath(FormatPath(tags)) == Ok(tags)
  {
    var pieces := HexPieces(tags);
    FilterFormatPath(tags);
    SplitJoin(pieces);
    var r := GetPath(FormatPath(tags));
    assert r.Ok? && r.value == tags;
  }

  // ---------------------------------------------------------------------
  // find_val

  /** The position of the first node of `list` with tag number `tag`. */
  function FirstWithTag(list: seq<Tlv>, tag: Tag): (r: Option<nat>)
    ensures r.None? <==> forall j :: 0 <= j < |list| ==> list[j].tag != tag
    ensures r.Some? ==> r.value < |list| && list[r.value].tag == tag
    ensures r.Some? ==> forall j :: 0 <= j < r.value ==> list[j].tag != tag
  {
    if |list| == 0 then None
    else if list[0].tag == tag then Some(0)
    else
      match FirstWithTag(list[1..], tag)
      case None => None
      case Some(k) => Some(k + 1)
  }

  /** The `for tag in path.iter().skip(1)` loop from node `t` with the tags
      `rest` still to go: a node without a child list ends the search; the
      first child with the tag is taken, and its value returned if the tag
      is the last one; a tag no child has is passed over. Whatever it
      returns is the value of a node below `t` carrying the last tag. */
  function Walk(t: Tlv, rest: seq<Tag>): (r: Option<Value>)
    requires |rest| >= 1
    ensures r.Some? ==> HeldBelow(t, rest[|rest| - 1], r.value)
    decreases |rest|
  {
    if !t.val.TlvList? then None
    else
      match FirstWithTag(t.val.list, rest[0])
      case None =>
        if |rest| == 1 then None
        else
          assert rest[1..][|rest| - 2] == rest[|rest| - 1];
          Walk(t, rest[1..])
      case Some(i) =>
        if |rest| == 1 then
          assert t.val.list[i].tag == rest[0];
          Some(t.val.list[i].val)
        else
          assert rest[1..][|rest| - 2] == rest[|rest| - 1];
          var r := Walk(t.val.list[i], rest[1..]);
          assert r.Some? ==> HeldBelow(t.val.list[i], rest[|rest| - 1], r.value);
          r
  }

  /** `find_val`: the value at the end of a path whose first tag is the tag of `t`. */
  function FindVal(t: Tlv, p: string): (r: Option<Value>)
    ensures GetPath(p).Err? ==> r.None?
    ensures GetPath(p).Ok? && GetPath(p).value[0] != t.tag ==> r.None?
    ensures GetPath(p) == Ok([t.tag]) ==> r == Some(t.val)
  {
    match GetPath(p)
    case Err(_) => None
    case Ok(path) =>
      if |path| == 0 then None
      else if path[0] != t.tag then None
      else if |path| == 1 then Some(t.val)
      else Walk(t, path[1..])
  }

  /** The inner `for subtag in list` scan: the first child carrying `tag`. */
  method FindChild(list: seq<Tlv>, tag: Tag) returns (r: Option<nat>)
    ensures r == FirstWithTag(list, tag)
  {
    var j := 0;
    while j < |list|
      invariant 0 <= j <= |list|
      invariant forall m :: 0 <= m < j ==> list[m].tag != tag
    {
      if list[j].tag == tag {
        return Some(j);
      }
      j := j + 1;
    }
    return None;
  }

  /** The loops of `find_val`, statement by statement. */
  method FindValLoop(t: Tlv, p: string) returns (r: Option<Value>)
    ensures r == FindVal(t, p)
  {
    var parsed := GetPath(p);
    if parsed.Err? {
      return None;
    }
    var path := parsed.value;
    if |path| == 0 || path[0] != t.tag {
      return None;
    }
    if |path| == 1 {
      return Some(t.val);
    }
    var tlv := t;
    var k := 1;
    while k < |path|
      invariant 1 <= k <= |path|
      invariant k < |path| ==> Walk(tlv, path[k..]) == Walk(t, path[1..])
      invariant k == |path| ==> Walk(t, path[1..]) == None
    {
      var tag := path[k];
      assert path[k..][0] == tag;
      if !tlv.val.TlvList? {
        return None;
      }
      var list := tlv.val.list;
      var child := FindChild(list, tag);
      if child.Some? && k + 1 == |path| {
        return Some(list[child.value].val);
      }
      if child.Some? {
        assert path[k..][1..] == path[k + 1..];
        tlv := list[child.value];
      } else if k + 1 < |path| {
        assert path[k..][1..] == path[k + 1..];
      } else {
        assert |path[k..]| == 1;
      }
      k := k + 1;
    }
    return None;
  }

  // ---------------------------------------------------------------------
  // Exact resolution, and the skip

  /** Resolution that follows every tag: each must be the tag of a child of
      the node reached so far (the first such child is taken). */
  function ExactResolve(t: Tlv, rest: seq<Tag>): (r: Option<Value>)
    requires |rest| >= 1
    decreases |rest|
  {
    if !t.val.TlvList? then None
    else
      match FirstWithTag(t.val.list, rest[0])
      case None => None
      case Some(i) =>
        if |rest| == 1 then Some(t.val.list[i].val) else ExactResolve(t.val.list[i], rest[1..])
  }

  /** Wherever every tag of the path is present, `find_val` finds what exact
      resolution finds. */
  lemma {:induction false} WalkAgreesWhereExact(t: Tlv, rest: seq<Tag>)
    requires |rest| >= 1 && ExactResolve(t, rest).Some?
    ensures Walk(t, rest) == ExactResolve(t, rest)
    decreases |rest|
  {
    if |rest| > 1 {
      var i := FirstWithTag(t.val.list, rest[0]).value;
      WalkAgreesWhereExact(t.val.list[i], rest[1..]);
    }
  }

  /** `v` is the value of some node strictly below `t` whose tag is `tag`. */
  predicate HeldBelow(t: Tlv, tag: Tag, v: Value)
    decreases t
  {
    t.val.TlvList? &&
    exists i :: 0 <= i < |t.val.list| &&
      ((t.val.list[i].tag == tag && t.val.list[i].val == v) || HeldBelow(t.val.list[i], tag, v))
  }

  /** A tag that no child carries is passed over rather than ending the
      search: "21 / 99 / 03" finds the child 03 of 21. */
  lemma SkipExample()
    ensures
      var t := Tlv(0x21, TlvList([Tlv(0x03, Val([0xAA]))]));
      ExactResolve(t, [0x99, 0x03]) == None && Walk(t, [0x99, 0x03]) == Some(Val([0xAA]))
  {
    var t := Tlv(0x21, TlvList([Tlv(0x03, Val([0xAA]))]));
    assert FirstWithTag(t.val.list, 0x99) == None;
    assert FirstWithTag(t.val.list, 0x03) == Some(0);
  }
}
