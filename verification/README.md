# Verified model of the fcpw CBOR codec

This project models the codec's core in Dafny and proves that its many forms of one grammar agree: the dynamic
decoder and encoder, three skippers, the deterministic encoder and its validator, float narrowing, unrolled array
decoders, the refilling reader, the pipelined parallel decoder, and diagnostic notation.

## How the model is laid out

Each operation that moves a cursor or appends to a vector in the library is a class method or a loop here
(`SliceDecoder`, `Encoder`, `DeterministicCompound`, `SequenceDecoder`, `ReaderDeserializer`, `Pool`,
`DiagnosticParser`, the array bodies), and its contract ties it to a specification function of the input and the
position. The theorems are about those functions, so they hold of the methods.

| part | files |
|---|---|
| bytes, errors, big-endian numbers, UTF-8, values, heads | `Core`, `Utf8`, `Values`, `Heads` |
| floats as bit patterns | `Floats`, `FloatProofs` |
| what decoding, skipping and encoding mean | `Decoding`, `Skipping`, `Encoding` |
| the grammar of section 3 of RFC 8949, round trips, agreement, prefixes | `Grammar`, `RoundTrip`, `WholeInput`, `Agreement`, `StructuralSkip`, `Prefix`, `Offsets` |
| what each error means | `Failures`, `MissingBytes`, `Limits` |
| deterministic encoding, section 4.2.1 of RFC 8949 | `KeyOrder`, `Canonical`, `Deterministic`, `TaggedItems`, `Canonicity`, `Normalization` |
| the cursor, the owned decoder, the encoder, the arena serializer | `SliceDecoder`, `OwnedDecoder`, `Encoder`, `DeterministicEncoder`, `Compound` |
| bulk arrays | `Arrays`, `ArrayBodies`, `BulkArrays`, `BoolArrays` |
| 128-bit integers, sequences, readers, parallel decoding, diagnostics | `Events`, `Tokens`, `Bignum`, `Sequence`, `Reader`, `Parallel`, `Diagnostic`, `DiagnosticText` |

Conventions: a byte is an integer below 256 (`initial >> 5` is `/ 32`, `& 31` is `% 32`, `x & 0xdf == 0x1b` is
`x == 0x1b || x == 0x3b`); `usize` has 64 bits; text is its UTF-8 bytes; a float is its binary64 pattern; a result
that also moves a cursor is `Parse.Done(value, end)` or `Parse.Fail(error)`, with the error's kind and offset.

## Main results

- **Grammar.** `Grammar.DecoderMeetsGrammar`: the decoder returns a value exactly when the input is some
  well-formed encoding of it within the limits: of any head width, definite or chunked, and under deterministic
  options of the shortest width and definite. `WholeInput.ValueMeetsGrammar` is the same for whole inputs and
  `WholeInput.StreamMeetsGrammar` for streams. With `RoundTrip.DecodeEncoded` and `RoundTrip.ReencodeDecoded` both
  round trips follow.
- **Errors.** `MissingBytes.EofIsCurable`: `Eof` is exactly the failure that some continuation of the input cures.
  `Failures.NothingWrongBefore`: cut off where an error points, the input is only unfinished.
  `Limits.DepthLimitIsAboutDepth`: `DepthLimit` is exactly what a higher nesting limit changes.
- **Deterministic encoding.** `Deterministic.ValidatorAcceptsFixedPoints`: the validator accepts exactly the inputs
  that re-encode deterministically to themselves, tags included. The library's own encoder copies the inside of a
  tag unchanged, so for it the same statement is *false* in general: `TaggedItems.TaggedFloatIsNotFixed` gives the
  input `d8 64 f9 3e 00`. `TaggedItems.ValidatorAgainstEncoder` gives the exact condition, and
  `TaggedItems.TagFreeCharacterisation` the equivalence on all tag-free inputs. `Canonicity.AcceptedEncodingIsUnique`
  is canonicity, tags included; `Normalization.SerializedRoundTrip` says that the value survives
  and when what is written passes validation.
  No side condition on lengths is needed: an input that decodes has none over the limit.
- **Refinements.** The arena serializer writes the bytes of the recursive encoder (`Compound.SerializedIsDeterministic`);
  each unrolled array body is its one-element loop (`ArrayBodies`); the two float encoders agree and are shortest
  (`FloatProofs`); the three skippers and the decoder agree (`Agreement`), and structural skipping is basic skipping
  of the input with its text repaired (`StructuralSkip.StructuralIsBasicOfRepaired`).
- **Whole runs.** Reads of any size give the same items, offsets and end (`Readers.ReaderDeserializer.Drain`); any
  completion order gives the sequential result (`Parallel.FromSequenceWithOptions`).

## Model

| member | source | states |
|---|---|---|
| Utf8.ValidConcat | src/decode.rs:2813-2837 | Text chunks may be validated one by one: the joined text of an indefinite string is well-formed when its chunks are |
| Utf8.ValidIsEncoded | src/decode.rs:2813-2837 | Bytes are accepted as text exactly when they encode some sequence of Unicode scalar values as section 3 of RFC 3629 says |
| Heads.ReadHead | src/decode.rs:161-202 | A head that is read ends after the argument bytes its additional information announces, inside the input, and its argument fits that width |
| Heads.ReadHeadBytes | src/encode.rs:78-101 | A written head is read back with its major type and argument, by the lenient and by the deterministic reader, wherever it stands |
| Heads.HeadIsShortest | src/encode.rs:78-101 | No head with the same argument has fewer bytes than the one the encoder writes |
| Heads.DeterministicHeadIsShortest | src/decode.rs:176-192 | Outside major type 7 a head the deterministic reader accepts is byte for byte the head the encoder writes |
| Heads.DeterministicHeadIsLenient | src/decode.rs:161-202 | The deterministic reader gives the outcome of the lenient one, or blames the head itself as `NonDeterministic` |
| FloatProofs.NarrowWiden | src/encode.rs:219-220 | Narrowing to binary32 undoes widening on every number |
| FloatProofs.NarrowToHalfIsExact | src/encode.rs:242-279 | `exact_half` never changes a number: widening its result gives the argument back |
| FloatProofs.NarrowWidenedHalf | src/encode.rs:242-279 | `exact_half` finds every number a half can hold |
| FloatProofs.NarrowDoubleToHalfIsExact | src/serde_codec.rs:807-829 | `exact_half_f64` never changes a number |
| FloatProofs.NarrowWidenedHalfAtOnce | src/serde_codec.rs:807-829 | `exact_half_f64` finds every number a half can hold, and such a number passes the test of the 42 discarded bits |
| FloatProofs.HalfTestsAgree | src/serde_codec.rs:807-829 | The half test on binary64 and the one on the narrowed binary32 give the same half or both none |
| FloatProofs.HalfWideningKeepsNumber | src/decode.rs:3147-3163 | The binary32 built from a finite half has its sign and exactly its magnitude, subnormals included |
| FloatProofs.WideningKeepsNumber | src/decode.rs:3162-3162 | Widening a finite binary32 keeps sign and magnitude |
| FloatProofs.SingleHoldsNumber | src/encode.rs:220-220 | A binary32 holds a number exactly if and only if sign and magnitude are equal |
| FloatProofs.HalfHoldsNumber | src/encode.rs:221-221 | A half holds a number exactly if and only if sign and magnitude are equal |
| FloatProofs.NarrowingTest | src/encode.rs:219-220 | Comparing the narrowed and widened float with the original tests exactly whether some binary32 holds it |
| FloatProofs.EncodersAgree | src/serde_codec.rs:774-804 | `write_float_preferred` and `Encoder::f64_preferred` write the same bytes for every bit pattern |
| FloatProofs.ShortestExactWidth | src/encode.rs:215-234 | The width written is half if a half holds the number, else single if a single does, else double; reading it restores the bits; NaN is f97e00 |
| FloatProofs.ValidatorAcceptsHalf | src/decode.rs:429-437 | The validator accepts a half exactly when the encoder would write it |
| FloatProofs.ValidatorAcceptsSingle | src/decode.rs:438-438 | The validator accepts a single exactly when the encoder would write it |
| FloatProofs.ValidatorAcceptsDouble | src/decode.rs:439-442 | The validator accepts a double exactly when the encoder would write it |
| Skipping.Skip | src/decode.rs:528-590 | A successful skip moves forward inside the input and visits at least one item and at most as many as it consumes bytes |
| Grammar.Sound | src/decode.rs:2727-2767 | What the decoder accepts is an encoding of the value it returns, with the shortest heads and nothing indefinite under deterministic options; the value is within the limits and can be encoded |
| Grammar.Complete | src/decode.rs:2727-2767 | Every well-formed encoding of a value within the limits is decoded to that value and to its end; under deterministic options every one with shortest heads and nothing indefinite |
| Grammar.DecoderMeetsGrammar | src/decode.rs:2718-2920 | Under any options the decoder returns a value and an end if and only if the bytes up to there encode the value, in the form the options ask for, and it is within the limits |
| Grammar.ShortestIsEncoding | src/decode.rs:2718-2920 | The encodings with shortest heads and nothing indefinite are among the well-formed encodings |
| WholeInput.ValueMeetsGrammar | src/decode.rs:2718-2724 | `from_slice_value` returns a value if and only if the whole input is an encoding of it within the limits |
| WholeInput.TrailingBytesAreRefused | src/lib.rs:340-357 | An encoding with bytes after it gives exactly `TrailingData` at its end, from decoding, from both validations and from a reader |
| WholeInput.TrailingDataMeansTrailing | src/decode.rs:131-137 | `TrailingData` is reported only where an encoding of a value within the limits ends before the input does |
| WholeInput.StreamMeetsGrammar | src/lib.rs:263-312 | A reader gives certain values and then a clean end if and only if the stream is encodings of those values within the limits, one after another |
| WholeInput.StreamIsEncoded | src/lib.rs:263-312 | Otherwise the values it gives are encoded up to the place where decoding fails, and the error is the one of that place |
| RoundTrip.EncodeSucceeds | src/value.rs:386-417 | `Value::encode` fails on no value with negatives in [-2^64, -1] and encodable simple numbers |
| RoundTrip.EncodeRefuses | src/value.rs:386-417 | `Value::encode` fails exactly on an integer outside [-2^64, 2^64) or a simple number from 20 to 31, with the error that belongs to it |
| RoundTrip.EncodedIsEncoding | src/value.rs:386-417 | `Value::encode` writes one of the encodings of the grammar, with shortest heads and nothing indefinite |
| RoundTrip.DecodeEncodedAt | src/decode.rs:2727-2920 | Under any options and wherever they stand, the bytes of `Value::encode` decode to the value and to their end |
| RoundTrip.DecodeEncoded | src/value.rs:386-417 | decode(encode(v)) = v for every encodable value within the limits |
| RoundTrip.ReencodeDecoded | src/decode.rs:2718-2724 | Every decoded value is encodable and within the limits, and decode(encode(decode(x))) = decode(x) |
| Agreement.SkipFollowsDecode | src/decode.rs:528-633 | Where decoding succeeds basic skipping succeeds at the same end having visited each item of the value once; where it fails other than by a collection limit, skipping fails with the same kind and offset |
| Agreement.ValidateFollowsDecode | src/lib.rs:340-363 | `validate` gives the verdict of `from_slice_value`, except where a collection limit stopped the decoder |
| Agreement.BasicRefinesStructural | src/decode.rs:789-888 | Basic skipping is structural skipping, with the same end and the same error, unless it stops at text that is not UTF-8 |
| Agreement.DeterministicRefinesBasic | src/decode.rs:635-756 | Deterministic skipping gives the outcome of basic skipping or `NonDeterministic` |
| StructuralSkip.LocalSkip | src/decode.rs:528-888 | What a skipper accepts it accepts for the bytes of the item alone: another input of the same length that has them is skipped alike |
| StructuralSkip.BlamedText | src/decode.rs:537-570 | Basic skipping blames text only where a text head stands whose content is present and not UTF-8 |
| StructuralSkip.TextIsLeftAlone | src/decode.rs:800-825 | Replacing the content of that text, and nothing else, changes nothing for structural skipping |
| StructuralSkip.StructuralIsBasicOfRepaired | src/decode.rs:788-888 | Structural skipping of an input is basic skipping of the input with the blamed text made ASCII: same end, same number of items, same error |
| StructuralSkip.StructuralBlamesNoText | src/decode.rs:800-825 | Structural skipping never fails with `InvalidUtf8` |
| Failures.DecodeFailure | src/decode.rs:2727-2920 | Every error points into the item, at a byte that deserves it: reserved information, a break, a text head, a string or container head; only deterministic options report `NonDeterministic` |
| Failures.SkipFailure | src/decode.rs:528-888 | The same for all three skippers, and one that does not check UTF-8 never blames it |
| Failures.BlamedFirstByte | src/decode.rs:161-202 | `InvalidAdditionalInfo` at an item is reported exactly for reserved additional information, an integer or tag without argument or a two-byte simple value below 32, and `UnexpectedBreak` exactly for 0xff |
| Failures.NothingWrongBefore | src/decode.rs:2727-2920 | The input cut off where an error points fails with `Eof`, whatever the error was, nesting excepted |
| Failures.NothingWrongBeforeSkip | src/decode.rs:528-888 | The same for all three skippers |
| MissingBytes.EofIsCurable | src/decode.rs:146-158 | Decoding fails with `Eof` if and only if some continuation of the input changes the outcome, and some continuation always gives another outcome than `Eof` |
| MissingBytes.SkippedEofIsCurable | src/decode.rs:528-888 | The same for all three skippers |
| MissingBytes.StreamEofIsCurable | src/lib.rs:263-312 | A stream whose items end with `Eof` has a continuation whose items do not |
| Limits.RaisingLimits | src/decode.rs:2727-2920 | Raising the limits changes an outcome only if it was the error of a limit that was raised |
| Limits.DepthLimitIsAboutDepth | src/decode.rs:2727-2731 | `DepthLimit` is reported if and only if a nesting limit as large as the input gives another outcome |
| Limits.BeyondTheLimits | src/decode.rs:2727-2920 | An encoding of a value beyond the limits is refused with `DepthLimit` if only its nesting is too deep and with `CollectionLimit` if only its lengths are too large |
| Limits.SkippedIsEncoded | src/decode.rs:528-633 | What basic skipping accepts is an encoding of a value within the nesting limit none of whose arrays and maps is over the length limit |
| Limits.AnnouncedTooLong | src/decode.rs:528-633 | A string, array or map that announces more than the limit is a `CollectionLimit` at its head, for the decoder and for all skippers |
| Prefix.FinalDecode | src/decode.rs:2727-2920 | More input changes an outcome of the decoder only if it was `Eof`: values, ends, error kinds and offsets are stable |
| Prefix.FinalSkip | src/decode.rs:528-888 | The same for all three skippers |
| Prefix.ProperPrefixIsEof | src/decode.rs:146-158 | Every proper prefix of an accepted item fails with exactly `Eof` |
| Prefix.NoProperPrefix | src/decode.rs:2727-2920 | No accepted item is a proper prefix of another |
| Prefix.SkippedPrefixIsEof | src/decode.rs:528-888 | Every proper prefix of an item that one of the three skippers accepts fails that skipper with exactly `Eof` |
| Prefix.NoSkippedProperPrefix | src/decode.rs:528-888 | No skipper accepts an item and a proper prefix of it |
| Canonical.SortSorts | src/serde_codec.rs:2172-2172 | Sorting entries by key loses, adds and repeats nothing, and orders the keys |
| KeyOrder.LessIsLexicographic | src/serde_codec.rs:2172-2172 | Keys are ordered by the smaller byte at the first difference, and a proper prefix comes first: the order of byte slices |
| KeyOrder.IntegerKeysAscend | src/decode.rs:720-730 | Encoded naturals ascend exactly as the numbers do, negative integers as their arguments do, and all naturals come first |
| KeyOrder.StringKeysAscend | src/decode.rs:720-730 | Encoded strings are ordered by length, and those of one length bytewise |
| KeyOrder.NaturalKeysStay | src/serde_codec.rs:2167-2183 | A map whose keys are naturals in increasing order is written in that order |
| KeyOrder.DuplicateKeysAreRefused | src/serde_codec.rs:2173-2177 | A map is refused, with `DuplicateKey`, if and only if two of its encoded keys are equal |
| Canonical.AscendingIsSorted | src/serde_codec.rs:2172-2177 | Entries with strictly increasing keys are left alone by sorting and hold no duplicate |
| Canonical.AscendingUnique | src/serde_codec.rs:2172-2177 | There is one strictly increasing arrangement of given entries |
| Canonical.SortForgetsOrder | src/serde_codec.rs:2172-2177 | Without duplicate keys the sorted entries do not depend on their original order |
| Deterministic.AcceptedIsCanonical | src/decode.rs:635-756 | An item that deterministic skipping accepts decodes to a value whose canonical encoding is the item's bytes, and whose maps are in order |
| Deterministic.CanonicalIsAccepted | src/decode.rs:635-756 | The canonical encoding of a value within the limits is accepted wherever it stands, up to its end |
| Deterministic.ValidatorAcceptsFixedPoints | src/lib.rs:347-357 | `validate_deterministic` accepts exactly the inputs that decode to a value whose canonical encoding is the input; tags included |
| TaggedItems.PlainIsCanonical | src/value.rs:386-417 | `Value::encode` is already canonical on values whose maps are in order and whose floats need all eight bytes |
| TaggedItems.PlainIsNoShorter | src/value.rs:386-417 | On values in order `Value::encode` is never shorter than the canonical encoding, and longer as soon as one float has a shorter form |
| TaggedItems.PlainTagsMakeNoDifference | src/serde_codec.rs:2158-2192 | Copying tags is canonical where their content is in order and holds no float with a shorter form |
| TaggedItems.ValidatorAgainstEncoder | src/serde_codec.rs:2158-2192 | On inputs that are accepted or are fixed points of `encode_deterministic`, being accepted and being a fixed point coincide if and only if the content of tags is plain |
| TaggedItems.TagFreeCharacterisation | src/serde_codec.rs:2158-2192 | On tag-free inputs the validator accepts exactly the fixed points of `encode_deterministic` |
| TaggedItems.TaggedFloatIsNotFixed | src/serde_codec.rs:2185-2185 | Tag 100 around the half 1.5 is accepted and is not reproduced by `encode_deterministic` |
| DeterministicEncoder.EncodeDeterministic | src/serde_codec.rs:2158-2192 | The bytes, or the error, that the theorems about deterministic encoding speak of |
| DeterministicEncoder.Go | src/serde_codec.rs:2159-2188 | The deterministic encoding is appended and nothing before it changes, or the first error is returned |
| DeterministicEncoder.GoArray | src/serde_codec.rs:2161-2166 | The same for arrays, element by element |
| DeterministicEncoder.GoMap | src/serde_codec.rs:2167-2183 | The same for maps: entries encoded aside, ordered by key, refused if two keys are equal, appended |
| DeterministicEncoder.EncodePairs | src/serde_codec.rs:2168-2171 | Every key and value encoded, in the given order, or the first error |
| DeterministicEncoder.WritePairs | src/serde_codec.rs:2179-2182 | All entries are appended, key before value, and nothing else |
| Offsets.ShiftDecode | src/decode.rs:2727-2920 | Where an item stands does not matter: in a suffix it decodes to the same value or error kind, with end and error offset moved by the same amount |
| Offsets.DecodeRest | src/lib.rs:266-284 | Decoding the rest of a stream on its own is decoding the stream at that offset, errors included |
| Canonicity.EquivalentAreEncodedAlike | src/serde_codec.rs:2165-2182 | Values equal up to the order of map entries at every level have the same canonical encoding |
| Canonicity.AcceptedEncodingIsUnique | src/decode.rs:720-730 | Two inputs that both pass deterministic validation and decode to values equal up to the order of map entries are the same bytes; tags included |
| Normalization.CanonicalStands | src/serde_codec.rs:2158-2192 | The canonical encoding of a value is an encoding of the value with entries in key order and NaNs quiet |
| Normalization.DeterministicRoundTrip | src/serde_codec.rs:2158-2192 | A canonical encoding passes deterministic validation and decodes to the value in normal form |
| Normalization.EncodedDecodes | src/serde_codec.rs:2158-2192 | For every encodable value within the limits, whatever its tags, the bytes of `encode_deterministic` decode to the value in normal form with the content of tags left alone |
| Normalization.NormalEncodesAlike | src/serde_codec.rs:2158-2192 | A normal form has the deterministic encoding of the value it came from, so encoding what was decoded changes nothing |
| Normalization.NormalKeepsTags | src/serde_codec.rs:2158-2192 | The tags of a normal form are plain exactly when those of the value are |
| Normalization.SerializedRoundTrip | src/serde_codec.rs:174-186 | What the arena serializer and `encode_deterministic` write decodes to the normal form and is written again from it; it passes deterministic validation if and only if the content of tags is plain |
| Normalization.NormalIsEquivalent | src/serde_codec.rs:2158-2192 | Unless it holds a NaN that is not quiet, the normal form equals the value up to the order of map entries |
| SliceDecoders.SliceDecoder.constructor | src/decode.rs:103-109 | A cursor starts at the first byte |
| SliceDecoders.SliceDecoder.ReadByte | src/decode.rs:139-144 | One byte and one step, or `Eof` at the cursor |
| SliceDecoders.SliceDecoder.Take | src/decode.rs:146-158 | The next n bytes and a cursor after them, or `Eof` at the cursor |
| SliceDecoders.SliceDecoder.ReadArgument | src/decode.rs:160-193 | Cursor and argument, or the error, are those of the head read at `head` |
| SliceDecoders.SliceDecoder.ReadHeader | src/decode.rs:195-202 | Cursor, head and error are those of the head specification under the options' validation |
| SliceDecoders.SliceDecoder.Raw | src/decode.rs:490-494 | Exactly the bytes of the skipped item, or the skipper's error |
| SliceDecoders.SliceDecoder.RawStructural | src/decode.rs:497-501 | The same with structural skipping |
| SliceDecoders.SliceDecoder.Skip | src/decode.rs:504-510 | Deterministic options choose the deterministic skipper and all others the basic one |
| SliceDecoders.SliceDecoder.BasicHeader | src/decode.rs:513-526 | The separate copy of head reading agrees with the lenient head specification |
| SliceDecoders.SliceDecoder.SkipBasicAt | src/decode.rs:528-590 | End, error kind and error offset are those of basic skipping |
| SliceDecoders.SliceDecoder.SkipBasicString | src/decode.rs:537-570 | The arm for strings, definite and chunked |
| SliceDecoders.SliceDecoder.SkipBasicContainer | src/decode.rs:592-633 | The loops over arrays and maps, counted and up to a break |
| SliceDecoders.SliceDecoder.SkipAt | src/decode.rs:635-700 | End and error are those of skipping with the options' deterministic rules and the given UTF-8 check |
| SliceDecoders.SliceDecoder.SkipStringAt | src/decode.rs:646-677 | Its arm for strings |
| SliceDecoders.SliceDecoder.SkipContainerAt | src/decode.rs:702-756 | Its loops, with keys compared to the key before them |
| SliceDecoders.SliceDecoder.StructuralHeader | src/decode.rs:776-786 | The third copy of head reading agrees with the lenient head specification |
| SliceDecoders.SliceDecoder.StructuralArgument | src/decode.rs:758-774 | Its argument |
| SliceDecoders.SliceDecoder.SkipStructuralAt | src/decode.rs:788-844 | End and error are those of structural skipping |
| SliceDecoders.SliceDecoder.SkipStructuralString | src/decode.rs:800-825 | Its arm for strings, whose content it does not look at |
| SliceDecoders.SliceDecoder.SkipStructuralContainer | src/decode.rs:846-888 | Its loops |
| OwnedDecoder.DecodeOwnedValueAt | src/decode.rs:2727-2767 | Value, cursor and error are those of the decoding specification that the grammar theorem is about |
| OwnedDecoder.DecodeOwnedString | src/decode.rs:2771-2839 | The same for strings |
| OwnedDecoder.JoinChunks | src/decode.rs:2790-2838 | The loops that join the chunks of an indefinite string |
| OwnedDecoder.DecodeOwnedArray | src/decode.rs:2843-2876 | The same for arrays, counted and up to a break |
| OwnedDecoder.DecodeOwnedMap | src/decode.rs:2880-2920 | The same for maps, including a break in place of a value |
| OwnedDecoder.DecodeOwnedValue | src/decode.rs:2718-2724 | The whole input is one item, or the error says why not |
| OwnedDecoder.Validate | src/lib.rs:340-344 | The basic verdict on the whole input |
| OwnedDecoder.ValidateDeterministic | src/lib.rs:347-357 | The deterministic verdict on the whole input |
| Encoders.Encoder.Head | src/encode.rs:78-101 | Exactly the shortest head is appended |
| Encoders.Encoder.Signed | src/encode.rs:118-124 | On an `i64` the bytes are those of `integer` and there is no error |
| Encoders.Encoder.Integer | src/encode.rs:127-139 | The head of the integer is appended, or `IntegerOverflow` outside [-2^64, 2^64) |
| Encoders.Encoder.Bytes | src/encode.rs:142-145 | Head and content of a byte string are appended |
| Encoders.Encoder.Text | src/encode.rs:148-151 | Head and content of a text string are appended |
| Encoders.Encoder.Simple | src/encode.rs:169-177 | The simple value is appended, or an error for 20 to 31 |
| Encoders.Encoder.F64Preferred | src/encode.rs:215-234 | What is appended is what `write_float_preferred` writes |
| Encoders.Encoder.EncodeValue | src/value.rs:386-417 | The encoding of the tree is appended and nothing before it changes, or the tree's first error is returned |
| Encoders.Encoder.ArrayValue | src/value.rs:392-398 | The same for arrays |
| Encoders.Encoder.MapValue | src/value.rs:399-406 | The same for maps, key before value |
| Encoders.ToVecValue | src/lib.rs:367-373 | A new buffer holds exactly the encoding |
| Compound.SerializedIsDeterministic | src/serde_codec.rs:2158-2192 | For every encodable value the serializer gives the bytes, or the duplicate key, of `encode_deterministic` |
| Compound.TilesJoin | src/serde_codec.rs:1976-1999 | Ranges that tile the arena hold every byte of it, once and in order |
| Compound.AnySortServes | src/serde_codec.rs:2018-2025 | Any unstable sort by key gives the same bytes, or the same duplicate key, as the stable one |
| Compound.AscendingIsOnly | src/serde_codec.rs:2018-2025 | A strictly increasing arrangement is the only sorted one |
| Compound.SortUnstable | src/serde_codec.rs:2018-2020 | Some arrangement of the entries ordered by key |
| Compound.DeterministicCompound.Sequence | src/serde_codec.rs:1889-1903 | A sequence of known length writes its head at once, one of unknown length nothing |
| Compound.DeterministicCompound.Map | src/serde_codec.rs:1905-1937 | Whatever the scratch held, a map starts with no entry and an empty arena |
| Compound.DeterministicCompound.SerializeElement | src/serde_codec.rs:1939-1955 | An element goes to the output or to the buffered body and is counted; on a map it is an error that changes nothing |
| Compound.DeterministicCompound.SerializeKey | src/serde_codec.rs:1957-1974 | A key is appended to the arena and waits; while one waits a second is an error that changes nothing; entries are kept |
| Compound.DeterministicCompound.SerializeValue | src/serde_codec.rs:1976-1999 | A value completes exactly one entry, with the waiting key; without one it is an error that changes nothing; the ranges keep tiling the arena |
| Compound.DeterministicCompound.NothingLost | src/serde_codec.rs:1976-1999 | Unless a call failed half-way the arena is the finished entries and nothing else |
| Compound.DeterministicCompound.SerializeField | src/serde_codec.rs:2125-2132 | A field adds one entry, or the first error of its key or value |
| Compound.DeterministicCompound.Finish | src/serde_codec.rs:2001-2049 | The head and the entries ordered by key, or `DuplicateKey`, or an error for a waiting key; the scratch is left empty |
| Compound.WriteFloatPreferred | src/serde_codec.rs:774-804 | The shortest exact float is appended |
| Compound.SerializeInto | src/value.rs:597-628 | What `Serialize for Value` appends through the deterministic serializer |
| Compound.SerializeMap | src/value.rs:608-615 | The entries of a map go through the arena, in whatever order they come |
| Compound.SerializeArray | src/value.rs:607-607 | The elements of an array go straight to the output |
| Compound.ToVecDeterministic | src/serde_codec.rs:174-186 | The output holds the bytes and nothing else; on failure it is empty; prior contents of output and scratch do not matter |
| Arrays.FourAtOnce | src/decode.rs:1841-1858 | Four elements with equally wide arguments in range are four turns of the one-element loop |
| Arrays.TinyAtOnce | src/decode.rs:1859-1867 | Any number of one-byte elements are as many turns of the one-element loop |
| ArrayBodies.FittingBlock | src/decode.rs:1841-1915 | A block whose arguments always fit the type is four turns of the loop |
| ArrayBodies.ClearBlock | src/decode.rs:1942-1969 | A block of a signed type with clear top bits is four turns of the loop |
| ArrayBodies.DecodeArgument | src/decode.rs:1792-1827 | Argument, end and error of one element |
| ArrayBodies.DecodeU8Body | src/decode.rs:1627-1669 | Values, end, error kind and error offset of the one-element loop, whatever mixture of blocks is taken |
| ArrayBodies.DecodeU8Uncommon | src/decode.rs:1673-1703 | The element step of an unsigned byte for wide arguments and errors |
| ArrayBodies.DecodeU16Element | src/decode.rs:1338-1372 | Value, end and error of one element, matched by its initial byte |
| ArrayBodies.DecodeU16Body | src/decode.rs:1311-1378 | As for u8 |
| ArrayBodies.DecodeU32Body | src/decode.rs:1381-1451 | As for u8 |
| ArrayBodies.DecodeU64Body | src/decode.rs:1830-1928 | As for u8, with five kinds of block |
| ArrayBodies.NextU64Block | src/decode.rs:1839-1915 | Whichever of the five blocks is taken, its values and its end are those of the one-element loop |
| ArrayBodies.DecodeI8Body | src/decode.rs:2184-2257 | As for u8 |
| ArrayBodies.DecodeI16Body | src/decode.rs:2260-2312 | As for u8 |
| ArrayBodies.DecodeI32Body | src/decode.rs:2315-2366 | As for u8 |
| ArrayBodies.DecodeI64Body | src/decode.rs:1931-2070 | As for u8, with five kinds of block |
| ArrayBodies.NextI64Block | src/decode.rs:1940-2049 | Whichever of the five blocks is taken, its values and its end are those of the one-element loop |
| BulkArrays.ElementAgrees | src/decode.rs:1792-1827 | An element is accepted exactly when the general decoder finds an integer of the type there, and it is that integer |
| BulkArrays.LooseElementAgrees | src/decode.rs:254-318 | The element reader of indefinite arrays, which checks in another order, accepts the same elements |
| BulkArrays.RefusedElement | src/decode.rs:1792-1827 | An element that is an item but is refused is `IntegerOverflow` after it if it is an integer outside the type, and `UnexpectedType` where it stands otherwise or if negative for an unsigned type |
| BulkArrays.BulkAgreesWithDecoder | src/decode.rs:1156-1185 | A bulk decoder returns integers exactly when `from_slice_value` returns the array of those integers and all are in range; definite and indefinite |
| BulkArrays.ReadSigned | src/decode.rs:254-318 | The element reader of signed types, argument before major type |
| BulkArrays.ReadUnsigned | src/decode.rs:205-213 | The element reader of unsigned types |
| BulkArrays.FromSliceArray | src/decode.rs:1156-1185 | The eight `from_slice_*_array` functions give the specified values or error |
| BulkArrays.FromSliceArrayInto | src/decode.rs:1454-1482 | The reusing variants give the same, with an empty output on failure |
| BoolArrays.DecodeBoolBody | src/decode.rs:1706-1762 | The booleans of the body; a short input is `Eof` at its end; otherwise the first byte that is no boolean is reported |
| BoolArrays.BodyIsRun | src/decode.rs:1706-1762 | Eight bytes at a time or one, the body decodes what the one-element run decodes, and fails where it fails |
| BoolArrays.FromSliceBoolArray | src/decode.rs:1546-1582 | The values or the error as specified; accepts exactly the inputs that `from_slice_value` decodes to an array of booleans, and returns those |
| Events.Next | src/decode.rs:3084-3145 | Event, cursor and error of the token specification, on heads that `parse_event` does not panic on |
| Tokens.FirstToken | src/decode.rs:3084-3145 | Where the decoder finds a value the token stream does not panic and its first token says what the value is: the whole of an integer, string, simple value or float, or the head of a container or tag |
| Tokens.WholeTokenIsItem | src/decode.rs:3084-3145 | A token that is a whole item is that item for the decoder, unless a string is over the limit |
| Tokens.DirectIntegerIsDecoded | src/serde_codec.rs:3420-3440 | Reading an `i128` directly gives the number the decoded value denotes, `IntegerOverflow` outside the type, and refuses every other value |
| Tokens.DirectUnsignedIsDecoded | src/serde_codec.rs:3442-3451 | Reading a `u128` gives the number of a natural or of tag 2 and refuses every other value |
| Bignum.Trimmed | src/serde_codec.rs:748-752 | The number is kept and a positive one keeps no leading zero byte |
| Bignum.WriteBignumBytes | src/serde_codec.rs:748-752 | The byte string of the number without leading zeros is appended |
| Bignum.SerializeI128 | src/serde_codec.rs:863-879 | The specified bytes are appended |
| Bignum.SerializeU128 | src/serde_codec.rs:901-909 | The specified bytes are appended |
| Bignum.ReadDirectBiguint | src/serde_codec.rs:3453-3472 | The big-endian number of a byte string of 1 to 16 bytes, or the error |
| Bignum.ReadDirectInteger | src/serde_codec.rs:3420-3440 | The integer, cursor or error as specified |
| Bignum.ReadDirectUnsigned | src/serde_codec.rs:3442-3451 | The integer, cursor or error as specified |
| Bignum.I128RoundTrip | src/serde_codec.rs:3420-3440 | Every `i128`, the least included, survives encoding and direct decoding, under any options and at any position |
| Bignum.U128RoundTrip | src/serde_codec.rs:3442-3451 | Every `u128` survives |
| Bignum.BignumOnlyWhenNeeded | src/serde_codec.rs:863-879 | A bignum tag appears exactly outside the 64-bit argument range, over 9 to 16 bytes of which the first is not zero |
| Bignum.UnsignedBignumOnlyWhenNeeded | src/serde_codec.rs:901-909 | The same for `u128`: tag 2 exactly from 2^64 on, over 9 to 16 bytes of which the first is not zero |
| Sequences.ItemsPartition | src/decode.rs:3189-3215 | The items concatenate to a prefix, which is the whole input without an error; an error carries the number of items before it |
| Sequences.SplitsWhole | src/decode.rs:3189-3215 | The split gives certain items and no error if and only if they are the input, each of them skipped to its end |
| Sequences.SplitsUpToFailure | src/decode.rs:3189-3215 | Where skipping fails after some items the split gives those items and that error with their number |
| Sequences.FastPathIsSkip | src/decode.rs:892-897 | The one-byte fast path is what skipping finds, under all options |
| Sequences.SequenceDecoder.Next | src/decode.rs:3192-3214 | The next item and one step of the index, or the error with its index and an exhausted cursor |
| Sequences.SequenceDecoder.Collect | src/decode.rs:3189-3215 | Iterating to the end gives the items of the split and its error |
| Sequences.ConcatenationIsSplit | src/decode.rs:3189-3215 | Encodings of values within the limits, one after another, are split into exactly those encodings |
| Sequences.SequenceRoundTrip | src/decode.rs:3189-3215 | A sequence written item by item comes back item by item without an error |
| Readers.DecoderIsStable | src/decode.rs:2727-2920 | The value decoder meets what the readers rely on: `Eof` is the only failure more bytes can cure |
| Readers.ReaderDeserializer.DeserializeNext | src/lib.rs:263-312 | Item, byte offset, final `None` or error are those of the stream at the offset, whatever the sizes of the reads; it terminates, and reads at most once, and at most 8 KiB, beyond bytes that are no whole item |
| Readers.ReaderDeserializer.BufferedOutcome | src/lib.rs:266-284 | What is decoded from the buffer is the next item, or the error, of the whole stream, unless it is `Eof` and the end has not been read |
| Readers.ReaderDeserializer.Consume | src/lib.rs:271-279 | The stream goes on after the item, and a buffer that is used up is emptied |
| Readers.ReaderDeserializer.Refill | src/lib.rs:285-309 | Buffer and unread bytes stay the stream from the offset on; either bytes are added or the end is noted |
| Readers.ReaderDeserializer.Drain | src/lib.rs:263-312 | The items and the end of the whole stream do not depend on the reads |
| Readers.FromReaderWithBuffer | src/lib.rs:171-216 | The result of decoding the whole stream at once, including the offset of trailing data |
| Readers.ReadValue | src/lib.rs:171-216 | For values the result is that of decoding the rest of the stream as a whole input |
| Readers.RestartingIsInPlace | src/lib.rs:263-284 | Restarting the value decoder on what is unread, and adding the offset to its errors, is decoding the stream in place |
| Readers.ReadValues | src/lib.rs:263-312 | Values and error are those of decoding the stream in place, item after item, for all reads |
| Parallel.LowestFailure | src/parallel.rs:93-115 | An item error is that of the lowest failing index, and all items before it decode |
| Parallel.SequentialSucceeds | src/parallel.rs:37-62 | The result is certain values if and only if the whole input is items, each skipped structurally to its end, that decode to those values in wire order |
| Parallel.BoundaryErrorWins | src/parallel.rs:171-199 | Where skipping fails after some items the result is that error with their number, whatever the items decode to |
| Parallel.FirstItemErrorWins | src/parallel.rs:93-115 | Where all boundaries are found the result is the error of the first item that does not decode, with its index |
| Parallel.Pool.Finish | src/parallel.rs:171-180 | Whichever task finishes, every spawned task is still pending or has replied exactly once |
| Parallel.Pool.Join | src/parallel.rs:182-190 | The replies received are those of all spawned tasks, in some order |
| Parallel.WireOrderRestored | src/parallel.rs:189-190 | Sorting the replies by start restores the order of the chunks, whatever the order of completion |
| Parallel.GatherReplies | src/parallel.rs:192-198 | The chunks one after another give the values of all items in order, or the error of the lowest failing item |
| Parallel.NextChunk | src/parallel.rs:131-163 | Up to eight items in wire order, known ones first, or the boundary error of the sequence |
| Parallel.DecodeRaw | src/parallel.rs:93-106 | Item by item, up to the first failure |
| Parallel.DecodeRawPipelined | src/parallel.rs:117-199 | The sequential result for every completion order, a boundary error before any item error |
| Parallel.FromSequenceWithOptions | src/parallel.rs:37-62 | The sequential result, whatever the thresholds |
| Diagnostic.NumberParses | src/diagnostic.rs:227-251 | A printed integer is read back where no digit follows |
| Diagnostic.StringParses | src/diagnostic.rs:155-185 | An escaped ASCII string is read back up to its closing quote |
| Diagnostic.ValueParses | src/diagnostic.rs:131-225 | A printed value is read back wherever it stands, and parsing stops at its end |
| Diagnostic.PrintedIsParsed | src/diagnostic.rs:87-99 | parse(write_value(v)) = v on the shared subset |
| Diagnostic.AfterTheValue | src/diagnostic.rs:87-99 | Whitespace may follow a printed value; anything else is an error at the place where it stands |
| Diagnostic.HexSpells | src/diagnostic.rs:24-31 | The notation of a byte string has two digits for each byte, the higher half first |
| Diagnostic.EncodedFormattedParsed | src/diagnostic.rs:9-14 | Encoding, decoding, printing and parsing a value of the subset gives the value |
| DiagnosticText.WriteValue | src/diagnostic.rs:16-68 | The notation of the value is appended |
| DiagnosticText.WriteElements | src/diagnostic.rs:70-81 | Elements with separators between them and none before the first |
| DiagnosticText.WriteEntries | src/diagnostic.rs:45-53 | Entries likewise, key before value |
| DiagnosticText.Format | src/diagnostic.rs:9-14 | The notation of what the input decodes to, or the decoder's error |
| DiagnosticText.DiagnosticParser.ParseValue | src/diagnostic.rs:131-144 | Value, position and error of the notation's specification |
| DiagnosticText.DiagnosticParser.ParseString | src/diagnostic.rs:155-185 | Text, position and error |
| DiagnosticText.DiagnosticParser.ParseArray | src/diagnostic.rs:187-203 | Elements, position and error |
| DiagnosticText.DiagnosticParser.ParseMap | src/diagnostic.rs:205-225 | Entries, position and error |
| DiagnosticText.DiagnosticParser.Number | src/diagnostic.rs:227-251 | Number, position and error |
| DiagnosticText.ParseText | src/diagnostic.rs:87-99 | One value and nothing but whitespace after it |

## Left out

- The Serde visitor plumbing (deserializer trait methods, streaming and packed serializers, enum access): generic over code that is not part of this model. An arbitrary `Serialize` type is the model's `OfOther` item: bytes it writes, and then possibly a failure.
- Compound.ToVecDeterministic: is stated for value trees, because an arbitrary `Serialize` type is code that is not part of this model; the methods of the arena serializer it runs take any item, failing ones included.
- Readers.ReadValues: decodes owned values, because the deserializer of an arbitrary item type is not part of this model; `Readers.ReaderDeserializer.Drain` holds of every item decoder with the stated stability.
- Events.Next: panics of `parse_event` on the bytes 0x1f and 0x3f are excluded by its precondition, since the code unwraps a missing argument there.
- Readers.ReaderDeserializer: I/O errors and interrupted reads are not modelled; a read returns any positive number of bytes up to the limit, and none only at the end. The item decoder is a parameter with the stated stability; the value decoder is proved to have it.
- Parallel.Pool: real threads; a completion order is an arbitrary choice of the next task to finish, at any moment. Item decoding is an arbitrary pure function.
- `from_slices_with_options` with `par_iter`: which error it returns is the thread library's choice. The `par_iter` branch of `decode_raw` cannot be reached from `from_sequence_with_options`.
- Capacity: reservations, allocation failure and the `CollectionLimit` errors that only arise from overflowing a reservation size or from counting 2^64 elements.
- Widening a NaN: its payload is shifted and its quiet bit set, which the language leaves unspecified; no result here depends on the payload except the value a decoded NaN carries.
- `value as f32` is round to nearest, ties to even; the uses on these paths compare the widened result with the original.
- UTF-8 validation is the predicate of section 4 of RFC 3629; the vectorised validators are not part of this model.
- f32 and f64 bulk arrays, and the text of floats in diagnostics, which is a parameter of the printer and the parser: library and platform rounding.
- Error kinds when bulk decoders are compared with the general decoder: the order of their checks differs, so only acceptance and values are compared there. The boolean body checks the length before the elements for the same reason.
- `BorrowedValue`, value accessors and conversions, tag helpers, fixed-size outputs and sinks: copies of what is modelled, or easy members.
- The block heads of the unrolled array bodies are methods of their own here, as are the string arms of the skippers, the arms of `encode_deterministic`, the element of the u16 body, and the advance and the refill of the reader; in the library they stand inside the loops.
