# tlv-parser in Dafny

A model of the BER-TLV codec of the Rust crate `tlv-parser`, with proofs
about it. A TLV is a tag, a length and a value.
- The tag is an identifier of one or more octets. The low five bits of its
  first octet set to `1F` mean more octets follow, up to the first one
  without bit `0x80`.
- The length is one short-form octet up to 127, or a long form `0x80 | N`
  followed by N big-endian octets.
- The value is either raw bytes (a primitive tag: bit `0x20` of the first
  identifier octet is clear) or the concatenated encodings of child TLVs
  (a constructed tag).

The project has six modules.

- `Octets` (octets.dfy): octets as naturals below 256, and big-endian values
  with their minimal octet strings. It also holds:
  - `usize` accumulation with 64-bit wrap-around (`len << 8 | x`);
  - the span of identifier octets;
  - the length encoder `encode_len`.
- `TlvCodec` (tlv.dfy): `Tlv` and `Value` of src/tlv.rs, where a tag is a
  `usize` number. It models:
  - the validating constructor `new`, `tag_len`, `is_primitive`;
  - the sizes `len`/`is_empty`, the encoder `to_vec`;
  - the readers `read_tag`/`read_len`;
  - the recursive decoder `from_iter`/`from_vec`.

  The byte cursor is the sequence of bytes it still yields. Every reader
  returns what it read and how many bytes it consumed. Children are decoded
  inside the `take(len)` budget of their parent.
- `TlvRoundTrip` (tlv_roundtrip.dfy): the two round trips.
  - Decoding the encoding of any encodable tree gives the tree back and
    consumes exactly its encoding, whatever follows.
  - Re-encoding what was decoded from canonical input gives back exactly the
    bytes consumed.
- `TlvPath` (path.dfy): `get_path` as filter, split and hexadecimal parse,
  and `find_val` as a walk down the tree. Both are compared with independent
  definitions: an inverse formatter, and a strict root-anchored resolution.
- `Legacy` (legacy.dfy): the earlier codec of src/lib.rs. There a tag is its
  identifier octets and `from_vec` fills in an existing object. Every
  `panic!` becomes a `Panicked` outcome naming the message.
- `TlvExamples` (examples.dfy): the unit tests and documentation examples
  of both files, and a counterexample to the property test of
  tests/lib.rs, stated as facts about the model.

## Model

| member | source | states |
|---|---|---|
| Octets.MinimalBE | src/tlv.rs:134-139 | The octets of a number with the leading zero octets stripped. Their big-endian value is the number. Zero has no octets, and no other number has a leading zero octet. There are exactly as many octets as the number needs: it lies in [256^(k-1), 256^k). |
| Octets.MinimalBEOfBeValue | src/tlv.rs:134-139 | Big-endian octets without a leading zero are exactly the minimal octets of their own value. |
| Octets.AccWrap | src/tlv.rs:264-268 | The `len << 8 \| x` accumulation in a 64-bit `usize`. Its low octet is the last octet read. For at most eight octets it equals their big-endian value. |
| Octets.AccWrapIsBeValueMod | src/tlv.rs:263-268 | Whatever the number of octets, the wrapping accumulation is their big-endian value modulo 2^64. |
| Octets.Shl8 | src/tlv.rs:236-240 | `checked_shl(8)` on a `usize` never fails. It clears the low octet, and it multiplies by 256 when no bit is shifted out. |
| Octets.TagSpan | src/tlv.rs:233-245 | How many identifier octets the reader takes: between 1 and what remains, and exactly 1 unless the first octet's low five bits are all set. |
| Octets.TagSpanShape | src/tlv.rs:233-245 | In the long form, every identifier octet between the first and the last has bit `0x80` set. The last one does not, unless the input ran out. |
| Octets.EncodeLen | src/tlv.rs:355-371 | A length up to 127 is the single octet holding it. A longer one is an octet with bit `0x80` set, then big-endian octets with no leading zero whose value is the length. |
| Octets.EncodeLenHeader | src/tlv.rs:368-369 | Below 2^64 the long form has at most eight length octets. Its first octet is `0x80` plus their count. |
| Octets.LongLengthIsEncodeLen | src/tlv.rs:260-268 | Minimal long-form length octets read back, with wrap-around, to their big-endian value. The encoder writes exactly those octets for that value. |
| Octets.MinimalLengthFieldIsEncodeLen | src/tlv.rs:256-269 | Any minimal length field is exactly what the encoder emits for the length the reader finds in it. |
| TlvCodec.TagLen | src/tlv.rs:83-96 | `tag_len` is between 1 and 8. It is the fewest octets that hold the tag number: tag < 256^n, and tag >= 256^(n-1) unless n = 1. |
| TlvCodec.TagLenLoop | src/tlv.rs:83-96 | The shift-right-by-8 loop computes `TagLen`. |
| TlvCodec.IsPrimitiveMaskTest | src/tlv.rs:283-286 | A tag is primitive exactly when `tag & (0x20 << (tag_len - 1) * 8)` is not the whole mask, i.e. that bit is clear. |
| TlvCodec.LeadOctetIsFirst | src/tlv.rs:283-286 | The octet the mask looks at is the first octet of the tag's encoding. |
| TlvCodec.IsPrimitiveFirstOctet | src/tlv.rs:283-286 | A non-zero tag is primitive exactly when its first encoded octet lacks bit `0x20`. Tag 0 counts as primitive. |
| TlvCodec.New | src/tlv.rs:47-67 | `new` succeeds exactly when the value's variant agrees with the tag's class, and then holds the given tag and value. A child list under a primitive tag is `ValExpected(tag)`. Raw bytes under a constructed tag are `TlvListExpected(tag)`. |
| TlvCodec.ValueIsEmpty | src/tlv.rs:344-350 | `Value::is_empty` holds exactly when `Value::len` is 0. |
| TlvCodec.IsEmpty | src/tlv.rs:112-114 | `Tlv::is_empty` holds exactly when the TLV's `len` is its tag octets plus one length octet. |
| TlvCodec.Len | src/tlv.rs:107-109 | `len` counts at least one identifier octet and one length octet beyond the content length. |
| TlvCodec.ValueLen | src/tlv.rs:335-340 | A child list has content length 0 exactly when it has no children. |
| TlvCodec.ListLen | src/tlv.rs:337 | The fold over a non-empty child list is at least 2, since each child has an identifier and a length octet. |
| TlvCodec.TagBytes | src/tlv.rs:134-139 | The tag octets `to_vec` emits. For a non-zero tag there are `tag_len` of them, the first is non-zero, and their big-endian value is the tag. Tag 0 emits none. |
| TlvCodec.ToVec | src/tlv.rs:133-154 | `to_vec` emits at least one octet. For a non-zero tag its first octet carries the class bit that `is_primitive` reads. |
| TlvCodec.ValueToVec | src/tlv.rs:374-380 | `Value::to_vec` emits no octet exactly when `Value::is_empty` holds. |
| TlvCodec.ListToVec | src/tlv.rs:376 | The concatenated encodings of a child list are empty exactly when the list is. |
| TlvCodec.ToVecSize | src/tlv.rs:107-109 | When all tags are non-zero, `len` is exactly the number of octets `to_vec` emits. |
| TlvCodec.ValueToVecSize | src/tlv.rs:335-341 | `Value::len` is exactly the number of octets `Value::to_vec` emits. |
| TlvCodec.ListToVecSize | src/tlv.rs:337 | The sum of the children's `len` is the size of their concatenated encodings. |
| TlvCodec.TagZeroMismatch | src/tlv.rs:91-95 | Tag 0 is accepted by `new`, and `tag_len` counts one octet for it, so `len` says 2. But `to_vec` strips the zero octet and emits the single octet `00`. |
| TlvCodec.ReadTag | src/tlv.rs:227-253 | `TruncatedTlv` exactly on empty input. `InvalidTagNumber` exactly when the first octet is 0. A success exactly when the input is non-empty with a non-zero first octet, giving a non-zero tag read from the identifier octets, which is their big-endian value when there are at most eight. |
| TlvCodec.ReadTagValue | src/tlv.rs:233-240 | For any number of identifier octets, the tag read is their big-endian value modulo 2^64: with more than eight octets `checked_shl(8)` drops the high octets. |
| TlvCodec.TagValueNonZero | src/tlv.rs:248-250 | With a non-zero first octet the wrapped accumulation is never 0, so the zero-tag check only rejects a zero first octet. |
| TlvCodec.ReadTagLoop | src/tlv.rs:227-253 | The octet-by-octet loop with `checked_shl` returns what `ReadTag` states. |
| TlvCodec.ReadLen | src/tlv.rs:256-280 | `TruncatedTlv` exactly on empty input. No other error than `TruncatedTlv` or `TooShortBody` is produced. A short-form octet is the length when that many octets remain, and `TooShortBody(len, remaining)` otherwise. `80` reads as length 0. Success leaves room for the content. |
| TlvCodec.ReadLenLongForm | src/tlv.rs:260-279 | In the long form the length is the big-endian value, modulo 2^64, of the octets after the first: as many as announced, or as remain. It is returned with the octets used when that much content remains, and is `TooShortBody(len, remaining)` otherwise. |
| TlvCodec.LengthOctets | src/tlv.rs:258-269 | One length octet in the short form. In the long form, one plus the announced count, cut short by `take` where the input ends. |
| TlvCodec.ReadLenLoop | src/tlv.rs:256-280 | The loop with `checked_shl` and the remaining-length check returns what `ReadLen` states. |
| TlvCodec.ReadLenOfEncodeLen | src/tlv.rs:256-280 | Reading the encoder's length octets gives the length back when enough content follows. Otherwise it is `TooShortBody(length, remaining)`. |
| TlvCodec.ReadHeader | src/tlv.rs:290-291 | A header has a non-zero tag, at least one identifier and one length octet, and content within the input. Empty input is `TruncatedTlv`, and the only errors are those of the two readers. |
| TlvCodec.ReadHeaderParts | src/tlv.rs:290-291 | A header read is a tag read followed by a length read starting right after the identifier octets. |
| TlvCodec.Decode | src/tlv.rs:289-314 | A decoded TLV consumes at least two octets and no more than the input. Empty input is `TruncatedTlv`. |
| TlvCodec.DecodeList | src/tlv.rs:305-311 | The child loop yields at most one child per two octets of its budget, and at least one child from a non-empty budget. |
| TlvCodec.DecodeParts | src/tlv.rs:289-314 | A decoded TLV has its header's tag and ends where its content ends. A primitive one holds exactly the `len` content octets. A constructed one holds the children decoded from exactly those octets. |
| TlvCodec.DecodeListParts | src/tlv.rs:307-311 | A non-empty child budget decodes as its first child followed by the children of what is left. |
| TlvCodec.DecodeWellFormed | src/tlv.rs:289-314 | Every decoded tree is well formed, recursively: tags are non-zero, primitive tags hold raw bytes, constructed tags hold child lists, and no node is `Nothing`. |
| TlvCodec.DecodeListWellFormed | src/tlv.rs:307-311 | Every child decoded from a budget is well formed. |
| TlvCodec.FromVec | src/tlv.rs:327-330 | `from_vec` on an empty slice is `TruncatedTlv`. Whatever it returns is well formed. |
| TlvCodec.DecodedNodesAreNew | src/tlv.rs:47-67 | Every node of a decoded tree is what `new` builds from its tag and value, so decoding never yields a tree `new` would refuse. |
| TlvCodec.WellFormedLenIsToVecSize | src/tlv.rs:107-109 | For every well-formed tree, and so for every decoded one, no tag is 0 and `len` equals the length of its `to_vec`. |
| TlvCodec.DecodeUsesOnlyPrefix | src/tlv.rs:289-314 | Decoding reads nothing beyond what it consumes. The consumed prefix alone decodes to the same tree. |
| TlvRoundTrip.EncodableHasNonZeroTags | src/tlv.rs:133-154 | Every tag of an encodable tree is non-zero. |
| TlvRoundTrip.ReadTagOfTagBytes | src/tlv.rs:227-253 | The tag reader reads back the identifier octets the encoder emits for an encodable tag, and consumes exactly them. |
| TlvRoundTrip.EncodeThenDecode | src/tlv.rs:133-154 | For every encodable tree and any trailing bytes, decoding `to_vec(t)` followed by those bytes gives `t` and consumes exactly `to_vec(t)`. |
| TlvRoundTrip.ListEncodeThenDecode | src/tlv.rs:374-380 | The concatenated encodings of encodable children decode back to the same children. |
| TlvRoundTrip.DecodeThenEncode | src/tlv.rs:327-330 | For input in canonical form (at most eight identifier octets and minimal length octets, recursively), `to_vec` of the decoded tree is exactly the consumed octets, and its `len` is their number. |
| TlvRoundTrip.ListDecodeThenEncode | src/tlv.rs:307-311 | Canonical child octets that decode to a list re-encode to exactly those octets. |
| TlvRoundTrip.ValueRoundTrip | src/tlv.rs:374-380 | The decoded value of a canonical TLV re-encodes to exactly its content octets. |
| TlvRoundTrip.HeaderRoundTrip | src/tlv.rs:133-141 | The tag and length octets of a canonical TLV are exactly what the encoder emits for the decoded tag and length. |
| TlvRoundTrip.TagOctetsRoundTrip | src/tlv.rs:227-253 | Identifier octets of at most eight octets are exactly the encoder's octets for the tag read from them. |
| TlvRoundTrip.LengthOctetsRoundTrip | src/tlv.rs:256-280 | A minimal length field is exactly the encoder's octets for the length read from it. |
| TlvPath.Filter | src/tlv.rs:159-161 | The filtered path is no longer than the input and holds only hexadecimal digits and `/`. |
| TlvPath.FilterKeeps | src/tlv.rs:159-161 | A string of hexadecimal digits and `/` passes the filter unchanged. |
| TlvPath.FilterDrops | src/tlv.rs:159-161 | A string without hexadecimal digits or `/` filters to nothing. |
| TlvPath.FilterConcat | src/tlv.rs:159-161 | Filtering works character by character: it distributes over concatenation. |
| TlvPath.Split | src/tlv.rs:162 | `split('/')` gives at least one piece. No piece holds a `/`. Every character of a piece comes from the input. |
| TlvPath.JoinSplit | src/tlv.rs:162 | Joining the pieces of `split('/')` with `/` gives back the string. |
| TlvPath.SplitJoin | src/tlv.rs:162 | Splitting pieces without `/` joined with `/` gives back the pieces. |
| TlvPath.ParseHex | src/tlv.rs:163 | `from_str_radix(_, 16)` on a piece succeeds exactly when the piece is non-empty, all hexadecimal, and its value is below 2^64. The result is that value, and any error is `TagPathError`. |
| TlvPath.ParseHexLoop | src/tlv.rs:163 | A digit-by-digit parse with an overflow check returns what `ParseHex` states. |
| TlvPath.ParseAll | src/tlv.rs:163-164 | Collecting into a `Result` succeeds exactly when every piece parses. The i-th tag is the value of the i-th piece. |
| TlvPath.GetPath | src/tlv.rs:157-168 | A parsed path has at least one tag. The only error is `TagPathError`. |
| TlvPath.GetPathIgnoresOtherChars | src/tlv.rs:160 | The filter is idempotent, so a path that was filtered once parses the same again. Which characters it drops is stated by `FilterDrops` and `FilterConcat`. |
| TlvPath.GetPathFailsExactly | src/tlv.rs:157-168 | `get_path` fails exactly when some `/`-separated piece of the filtered path is empty, or names a number of 2^64 or more. |
| TlvPath.FormatThenGetPath | src/tlv.rs:157-168 | Any non-empty list of tags, written in hexadecimal and separated by ` / `, parses back to that list. |
| TlvPath.FirstWithTag | src/tlv.rs:206-216 | The index of the first child carrying the tag. It is absent exactly when no child carries the tag. |
| TlvPath.FindChild | src/tlv.rs:206-217 | The `for subtag in list` scan stops at the child `FirstWithTag` names. |
| TlvPath.FindVal | src/tlv.rs:181-224 | `find_val` is `None` when the path does not parse or its first tag is not the root's tag. A path naming only the root's tag gives the root's value. |
| TlvPath.FindValLoop | src/tlv.rs:181-224 | The loop over the path segments, with the inner child scan, returns what `FindVal` states. |
| TlvPath.WalkAgreesWhereExact | src/tlv.rs:202-221 | Whenever strict resolution finds a value, `find_val` finds the same value. Strict resolution needs each segment to name a child of the node matched before it. |
| TlvPath.Walk | src/tlv.rs:202-221 | Any value the walk below the root returns belongs to a node somewhere below whose tag is the path's last tag. |
| TlvPath.SkipExample | src/tlv.rs:206-216 | A segment that no child matches is passed over rather than failing: `21 / 99 / 03` finds child 03 of 21, where strict resolution finds nothing. |
| Legacy.Len | src/lib.rs:38-40 | The earlier `len` counts the stored tag octets, the content and at least one length octet. |
| Legacy.ToVec | src/lib.rs:43-58 | The earlier `to_vec` emits exactly `len` octets, for every tree. |
| Legacy.ValueToVec | src/lib.rs:50-54 | The value's octets number exactly the earlier `Value::len`. |
| Legacy.ListToVec | src/lib.rs:51-53 | The children's encodings together are exactly as long as the sum of their `len`. |
| Legacy.ReadLen | src/lib.rs:79-103 | No length octet panics with "only tag exists". A long form announcing zero octets, or more octets than remain, panics with "Invalid length value". A short-form octet is the length when that many octets remain, and otherwise panics with too short body (that octet, remaining). A success leaves room for the content. |
| Legacy.ReadLenLongForm | src/lib.rs:84-103 | A long form announcing k octets, all present, reads their big-endian value modulo 2^64. It succeeds with k + 1 octets used when that much content remains, and otherwise panics with too short body (length, remaining). |
| Legacy.ReadHeader | src/lib.rs:61-103 | Empty input, and only empty input, panics with "no data at all". A success took `TagSpan` identifier octets, and its content fits in the input. |
| Legacy.FromIter | src/lib.rs:61-121 | Only empty input panics with "no data at all". The tag becomes the object's previous octets followed by the identifier octets read. A constructed TLV consumes the whole rest of the input. |
| Legacy.FromIterParts | src/lib.rs:105-119 | A successful earlier `from_iter` read its header first. Under a primitive first octet the value is exactly the `len` content bytes after the header, and the input is consumed to their end. Under a constructed one the value is the children decoded from everything after the header, and the whole input is consumed. |
| Legacy.Children | src/lib.rs:105-116 | The child loop over an exhausted iterator gives no children. A panic in it is never "no data at all". |
| Legacy.FromVec | src/lib.rs:124-130 | An empty vector leaves the object unchanged. Otherwise `from_vec` completes exactly when `from_iter` does. |
| Legacy.ReadLenOfEncodeLen | src/lib.rs:79-103 | Reading the length octets of `encode_len` gives the length back when the content follows. |
| Legacy.HeaderOfEncoding | src/lib.rs:61-103 | Identifier octets, length octets for n, then n content octets read back as exactly that header. |
| Legacy.EncodeThenDecode | src/lib.rs:43-58 | A fresh object filled from `to_vec(t)` of an encodable tree is `t`. This holds with any trailing octets after a primitive TLV, and with none after a constructed one, which swallows them. |
| Legacy.ListEncodeThenDecode | src/lib.rs:105-116 | Encoded children decode back when only the last child may be constructed. |
| Legacy.SiblingsSwallowed | src/lib.rs:105-116 | The encoding of the child list `22{01}, 02` decodes as the single child `22{01, 02}`: a constructed child takes its later siblings. |
| Legacy.ReusedObject | src/lib.rs:67 | A reused object keeps its old tag octets, and the new ones are appended. A fresh object gets only the new ones. |
| Legacy.IndefiniteLengthPanics | src/lib.rs:84-88 | The length octet `80` panics with "Invalid length value". |
| TlvExamples.TagLenExamples | src/tlv.rs:525-547 | Tags 03, 0303, 030303 and 03030303 take 1, 2, 3 and 4 octets. |
| TlvExamples.EncodeLen127 | src/tlv.rs:483-488 | Length 127 is the single octet `7F`. |
| TlvExamples.EncodeLen255 | src/tlv.rs:490-495 | Length 255 is `81 FF`. |
| TlvExamples.EncodeLen256 | src/tlv.rs:497-502 | Length 256 is `82 01 00`. |
| TlvExamples.EncodeLenLarge | src/tlv.rs:504-509 | Length `FFFF01` is `83 FF FF 01`. |
| TlvExamples.ToVecOne | src/tlv.rs:476-481 | Tag 01 with value `00` encodes as `01 01 00`. |
| TlvExamples.ToVec127 | src/tlv.rs:483-488 | Tag 01 with 127 value octets starts `01 7F`. |
| TlvExamples.ToVec255 | src/tlv.rs:490-495 | Tag 01 with 255 value octets starts `01 81 FF`. |
| TlvExamples.ToVec256 | src/tlv.rs:497-502 | Tag 02 with 256 value octets starts `02 82 01 00`. |
| TlvExamples.ToVecLarge | src/tlv.rs:504-509 | Tag 03 with `FFFF01` value octets starts `03 83 FF FF 01`. |
| TlvExamples.ValueToVecLeaves | src/tlv.rs:551-552 | `Nothing` encodes as no octets, and raw bytes as themselves. |
| TlvExamples.ValueToVecExample | src/tlv.rs:554-574 | The three-child list of the unit test encodes as `1 0 2 3 1 2 3 3 2 4 0`. |
| TlvExamples.NewExamples | src/tlv.rs:31-45 | Primitive 01 may hold `Nothing`, constructed 21 may hold a list of it, and that list encodes as `21 02 01 00`. The mismatched variants are refused with the matching error. |
| TlvExamples.LenDocExample | src/tlv.rs:104-105 | Tag 01 with value `02 03` is built by `new` and has `len` 4. |
| TlvExamples.ToVecDocExample | src/tlv.rs:127-131 | Tag 21 over 01 `A1 A2` and 02 `B1 B2` is built by `new` and encodes as `21 08 01 02 A1 A2 02 02 B1 B2`. |
| TlvExamples.FromVecDocExample | src/tlv.rs:322-325 | `01 00` decodes to tag 01 with one tag octet and `len` 2. |
| TlvExamples.FindValDocExample | src/tlv.rs:175-179 | `6F 09 A5 07 BF 0C 04 DF 7F 01 55` decodes to 6F over A5 over BF0C over DF7F, and `find_val("6F / A5 / BF0C / DF7F")` gives the value `55`. |
| TlvExamples.FromVecOfEncoding | src/tlv.rs:455-472 | `from_vec` of the encoding of an encodable tree returns that tree, and re-encoding it gives back the input. |
| TlvExamples.FromVecShortTag | src/tlv.rs:456-458 | `01 02 00 00` is tag 01 with value `00 00`. Its `to_vec` is the input. |
| TlvExamples.PrimitiveFromVec | src/tlv.rs:455-472 | Tag octets, length octets and content of a primitive TLV decode to it and re-encode to the input. |
| TlvExamples.FromVecTwoOctetTag | src/tlv.rs:460-462 | `9F 02 02 00 00` is tag 9F02 with value `00 00`. Its `to_vec` is the input. |
| TlvExamples.FromVecLongLength | src/tlv.rs:464-467 | `9F 02 81 80` followed by 128 zero octets is tag 9F02 holding those zeros. Its `to_vec` is the input. |
| TlvExamples.FromVecFourOctetTag | src/tlv.rs:469-471 | `5F C8 80 01 02 01 02` is tag 5FC88001 with value `01 02`. Its `to_vec` is the input. |
| TlvExamples.FindValTree | src/tlv.rs:514-515 | `21 05 22 03 03 01 AA` decodes to 21 holding 22 holding the primitive 03 with value `AA`. |
| TlvExamples.GetPathExample | src/tlv.rs:517 | `"21 / 22 / 03"` parses to the tags 21, 22, 03. |
| TlvExamples.FindValExample | src/tlv.rs:513-522 | `find_val("21 / 22 / 03")` on that tree gives the value `AA`. |
| TlvExamples.TooShortExample | src/tlv.rs:271-277 | `01 05 AA BB` fails with `TooShortBody(5, 2)`. |
| TlvExamples.TruncatedExample | src/tlv.rs:256-258 | `9F` alone fails with `TruncatedTlv` at the length octet. |
| TlvExamples.ZeroTagExample | src/tlv.rs:248-250 | `00 00` fails with `InvalidTagNumber`. |
| TlvExamples.IndefiniteAsZero | src/tlv.rs:260-269 | `01 80` is tag 01 with an empty value. |
| TlvExamples.QuickcheckCounterexample | tests/lib.rs:9-18 | `01 80` is accepted, and its re-encoding `01 00` is not the input's prefix of that length. |
| TlvExamples.ChildBudgetExample | src/tlv.rs:293-311 | In `21 03 01 05 AA BB CC` the child may use only the parent's three octets, so decoding fails with `TooShortBody(5, 1)`. |
| TlvExamples.LegacyToVecOne | src/lib.rs:258-263 | The earlier tag `01` with value `00` encodes as `01 01 00`. |
| TlvExamples.LegacyToVec127 | src/lib.rs:265-270 | With 127 value octets the earlier encoding starts `01 7F`. |
| TlvExamples.LegacyToVec255 | src/lib.rs:272-277 | With 255 value octets it starts `01 81 FF`. |
| TlvExamples.LegacyToVec256 | src/lib.rs:279-284 | With 256 value octets under tag `02` it starts `02 82 01 00`. |
| TlvExamples.LegacyToVecLarge | src/lib.rs:286-291 | With `FFFF01` value octets under tag `03` it starts `03 83 FF FF 01`. |
| TlvExamples.LegacyRoundTrip | src/lib.rs:233-254 | A fresh object filled from the encoding of an encodable primitive TLV is that TLV, and its `to_vec` is the input. |
| TlvExamples.LegacyShortTag | src/lib.rs:234-239 | `01 02 00 00` fills a fresh object with tag `01` and value `00 00`. That TLV's `to_vec` is the input. |
| TlvExamples.LegacyTwoOctetTag | src/lib.rs:241-246 | `9F 02 02 00 00` fills it with tag `9F 02` and value `00 00`. That TLV's `to_vec` is the input. |
| TlvExamples.LegacyLongLength | src/lib.rs:248-253 | `9F 02 81 80` followed by 128 zero octets fills it with tag `9F 02` and those zeros. That TLV's `to_vec` is the input. |

## Left out

- Display: the `Display` implementations of both files (text rendering) are not modelled.
- Other code: `tag()` and `val()` accessors (plain field reads), the binaries, examples, benchmarks and fuzz targets.
- Errors: src/errors.rs and the error plumbing. The error kinds are the `Error` datatype.
- Iterators: the iterator machinery itself. A cursor is the sequence of bytes it still yields, and a reader reports how many it consumed.
- TlvCodec.Len: the sum in `len` and `Value::len` is an unbounded natural. A Rust `usize` sum could overflow only for a value larger than memory.
- Octets.EncodeLen: `bytes as u8` in `encode_len` is modelled as `0x80 + count % 128`. Below 2^64 the count is at most 8, so nothing is truncated.
- TlvCodec.ReadLen: `InvalidLength` is in the `Error` datatype but never returned. `checked_shl(8)` fails only for a shift of 64 bits or more, so in `read_len` and `read_tag` the bits shifted out are lost silently. The model does the same with `AccWrap`.
- TlvCodec.ReadLen: the length octet `80` reads as length 0, as the code does. An intended rejection of the indefinite form is not modelled.
- TlvCodec.ReadTag: `InvalidTagNumber` is returned only for a zero first octet, as `TagValueNonZero` shows. No overflow check on long tags is modelled, because `checked_shl(8)` never fails.
- TlvPath.FindVal: a path segment that no child matches is skipped, not a failure, and a non-list node ends the search with `None`; `SkipExample` shows the first. A strictly root-anchored resolution is `ExactResolve`. `WalkAgreesWhereExact` proves `find_val` agrees with it wherever it finds something.
- TlvPath.ParseHex: the sign prefix `from_str_radix` would accept cannot occur, because the filter keeps only hexadecimal digits and `/`.
- TlvCodec.TagZeroMismatch: tag 0 can be built with `new`, but its `len` (2) disagrees with its `to_vec` (1 octet). The round trip therefore assumes non-zero tags; the lemma records the mismatch.
- TlvRoundTrip.DecodeThenEncode: stated for canonical input, meaning at most eight identifier octets and minimal length octets (so no long form for a length below 128, and no leading zero length octet), recursively. Other input decodes but does not re-encode byte for byte.
- Legacy: `Tlv::new` and `Default` are the constant `Blank` (no tag octets, and empty raw bytes `Val([])`).
- Legacy.FromIter: the `len << 8` accumulation wraps like the newer reader, modelled with `AccWrap`.
- Legacy.FromIter: `iter.size_hint().1.unwrap()` is the exact number of remaining bytes, as it is for slice iterators.
- Legacy.ToVec: the `usize` sums are unbounded naturals, as in the newer codec.
- Legacy.EncodeThenDecode: stated only with no trailing octets after a constructed TLV, and `ListEncodeThenDecode` only when no child but the last is constructed. The earlier constructed decoder reads children from all the remaining input, not from `len` octets, so other trees do not round-trip; `SiblingsSwallowed` shows this.
- Legacy tests: the third case of `from_vec_test` in src/lib.rs adds a slice to a `Vec`. `LegacyLongLength` states it with the vector it evidently means.

## Findings

| source | as written | input that shows it | evidently intended | confidence | as-written member | corrected member |
|---|---|---|---|---|---|---|
| tests/lib.rs:9-18 | The property claims that every input `from_vec` accepts begins with the `to_vec` of the decoded tree. | `01 80`: it decodes to tag 01 with empty content, which re-encodes as `01 00`. | The re-encoding reproduces the input for canonical input: at most eight identifier octets and minimal length octets. | not executed | TlvExamples.QuickcheckCounterexample | TlvRoundTrip.DecodeThenEncode |
