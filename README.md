# Bencode codec model

This project models the PHP bencode library s9e\Bencode in Dafny and proves properties of it. The library has three parts:

- **`Decoder`** is the strict decoder of src/Decoder.php. It is a recursive-descent reader with a mutable cursor. It rejects anything that is not the canonical encoding of a value:
  - leading zeros and `-0`;
  - dictionary keys that are out of order or repeated;
  - trailing bytes.
- **`NonCompliantDecoder`** is the lenient decoder of src/NonCompliantDecoder.php. It silences those compliance errors. A dictionary whose keys arrive out of order is sorted with `ksort(SORT_STRING)`.
- **`Encoder`** (src/Encoder.php) turns PHP values into bencode. There is also the older self-contained `Bencode` class of src/Bencode.php, with its own iterative decoder and recursive encoder.

Modules, one concept each:

- `Decimal`: decimal digit runs, the decimal text of a number, and reading it back.
- `ByteOrder`: the byte-wise key order (`strcmp`), PHP array assignment (`Put`), and `ksort` (`SortByKey`).
- `Values`: decoded values and decoding errors.
- `DecoderSpec`: `Decoder` and `NonCompliantDecoder` as functions of the input and a cursor. A flag selects the lenient policy.
- `Decoders`: the decoder as a class. It holds the fields `offset`, `max`, `lenient` and `sortDictionary`. Its methods advance the cursor in place. Each method is proved to agree with its `DecoderSpec` function. `ComputeSafeBoundary` keeps the backward scan of the PHP loop, with line 107 corrected as "## Findings" describes: a trailing `-` is stepped over only when an `i` precedes it. The code as written is modelled by `DecoderSpec.DecodeAsWritten`. Whatever it accepts, the corrected decoder accepts with the same value (`AsWrittenAgrees`), so every guarantee below also covers the inputs the code as written accepts.
- `Encoders`: `Encoder` over the `Host` datatype, which stands for PHP values. The `foreach` of `encodeArrayObject` is a method proved equal to its function.
- `Serialization`: the wire form of a value, the PHP value a decoder returns for it, and in the other direction `ToValue`, the value that Encoder::encode writes the wire form of for any PHP value.
- `RoundTrip` and `StrictDecoding`: the round trip in both directions for the strict and the lenient decoder.
- `LenientDecoding`: how the lenient decoder relates to the strict one.
- `LegacyDecoding` and `LegacyEncoding`: `Bencode::decode` and `Bencode::encode`.
  - The decoder is a loop over a machine state: the cursor, the stack of enclosing containers, and `$current`. It is proved equal to a step function.
  - Its round trip, its agreement with the strict decoder and its error cases are lemmas.

Three points where the model reads the code in a specific way:

- **Compliance hooks in `NonCompliantDecoder`.** It overrides `checkDictionaryCompliance` and `complianceError(string, int)`. The `Decoder` shown has neither hook: it has `dictionaryComplianceError` and `complianceError(int, string)`. The model fires the lenient hooks where src/Decoder.php:156-159 finds `key <= lastKey`, and wherever `complianceError` is called. A smaller key therefore raises the sort flag, and no compliance error is thrown.
- **Bencode.php offsets.** tests/Test.php expects errors that src/Bencode.php does not produce:
  - for `ie` the code reports "Invalid integer found" at offset 1, not 0 (`LegacyIntegerWithoutDigits`);
  - for `li` the code reports "Premature end of data" (`LegacyIntegerAtEnd`);
  - for `i1x` the code reports "Invalid integer end found" at offset 2, not "Invalid integer found" at 0 (`LegacyIntegerUnterminated`);
  - for `i-1-e` the code reports "Invalid integer end found" at offset 3 (`LegacyIntegerUnterminated`);
  - for `lli123` the code reports "Invalid integer end found" at offset 6, reading past the end of the input (`ReadInteger`).

  The model follows the code in every one of these cases.
- **Key order.** Dictionary keys are compared byte-wise everywhere, as `strcmp` and `ksort(SORT_STRING)` compare them.

## Model

| member | source | states |
|---|---|---|
| Decimal.DigitsCanonical | src/Encoder.php:94-97 | The decimal text of a length has no leading zero, and it is `0` exactly for zero. |
| Decimal.ParseDigitsOfDigits | src/Decoder.php:184-185 | Casting the decimal text of `n` back to an integer gives `n`. |
| Decimal.DigitsOfParseDigits | src/Decoder.php:179-185 | A digit run without a leading zero is the decimal text of its own value. |
| Decimal.IntTextShape | src/Encoder.php:89-92 | The `%d` text of an integer is canonical digits, preceded by `-` and a nonzero digit when the integer is negative. |
| ByteOrder.LessIrreflexive | src/Decoder.php:156 | No key is below itself in byte order. |
| ByteOrder.LessAsymmetric | src/Decoder.php:156 | Byte order is asymmetric. |
| ByteOrder.LessTransitive | src/Decoder.php:156 | Byte order is transitive. |
| ByteOrder.LessTotal | src/NonCompliantDecoder.php:23 | Two different keys are ordered one way or the other. |
| ByteOrder.PutContents | src/Decoder.php:164 | `$values[$key] = v`: a new key is appended; a present key keeps its place and takes `v`; every other entry is unchanged. |
| ByteOrder.PutDistinct | src/Decoder.php:164 | Assignment keeps keys distinct, and the key then maps to `v`. |
| ByteOrder.SortByKey | src/NonCompliantDecoder.php:41 | `ksort` returns a permutation of the entries (same length, same multiset). |
| ByteOrder.SortByKeyStrict | src/NonCompliantDecoder.php:39-42 | Sorting entries whose keys are distinct gives strictly increasing keys. |
| ByteOrder.SortByKeySortedIdentity | src/Encoder.php:51-52 | `ksort` leaves a dictionary that is already in order unchanged. |
| DecoderSpec.LastNonDigit | src/Decoder.php:101-106 | The index where the backward digit scan stops: that byte is not a digit and every byte after it is. |
| DecoderSpec.SafeBoundaryIsSafe | src/Decoder.php:94-118 | The boundary lies before the end. No value can start past it, so every read the decoder makes stays in the input. |
| DecoderSpec.SafeBoundaryAsWrittenIsSafe | src/Decoder.php:99-116 | The boundary exactly as written is safe too, and never above the corrected one. |
| DecoderSpec.DigitRun | src/Decoder.php:174 | `strspn`: the digits from `pos` on, stopping at the first non-digit. |
| DecoderSpec.ReadDigits | src/Decoder.php:171-195 | decodeDigits ends after its terminator, inside the input, or fails with "Illegal character" at an offset inside the input. |
| DecoderSpec.ReadDigitsRun | src/Decoder.php:174-192 | On success it read a digit run followed by the terminator, and the value is the run's. The strict policy also guarantees the run has no leading zero. |
| DecoderSpec.Substr | src/Decoder.php:233 | `substr` is the requested slice when the input is long enough, and never longer than asked. |
| DecoderSpec.ParseString | src/Decoder.php:230-237 | decodeString moves at least two bytes. When it ends inside the input, the string is the bytes just before the cursor. |
| DecoderSpec.ParseInteger | src/Decoder.php:197-208 | decodeInteger returns an integer and ends inside the input, at least three bytes on. |
| DecoderSpec.ParseAnything | src/Decoder.php:120-137 | decodeAnything moves the cursor forward. Its errors name offsets inside the input. |
| DecoderSpec.ParseList | src/Decoder.php:210-228 | decodeList returns a list and spans at least `le`. |
| DecoderSpec.ListItems | src/Decoder.php:215-227 | The items gathered so far are a prefix of the list returned. |
| DecoderSpec.ParseDictionary | src/Decoder.php:139-169 | decodeDictionary returns a dictionary and spans at least `de`. |
| DecoderSpec.KeyCheck | src/Decoder.php:239-249 | A key passes exactly when the policy is lenient, there is no previous key, or the key is strictly greater. Otherwise the error is a compliance error at the key's offset: "Duplicate" exactly when the key is equal, "Out of order" otherwise. |
| DecoderSpec.DictEntries | src/Decoder.php:145-168 | The strict policy never raises the sort flag. Once raised, the flag stays raised. |
| DecoderSpec.DictEntry | src/Decoder.php:154-164 | An entry is read only when its key passed the key check. |
| DecoderSpec.CheckBoundary | src/Decoder.php:60-71 | Passes exactly when `max >= 1`. Otherwise "Illegal character at offset 0" exactly when the first byte is `-` or `e`, else "Premature end of data". |
| DecoderSpec.CheckCursorPosition | src/Decoder.php:76-87 | Passes exactly at the end of the input, or before it under the lenient policy. Past the end gives "Premature end of data". Before the end gives a "Superfluous content" compliance error at the cursor. |
| DecoderSpec.DecodeWithBoundary | src/Decoder.php:36-44 | Every error names an offset inside the input. |
| DecoderSpec.Decode | src/Decoder.php:36-58 | The empty string, and only it, gives InvalidArgumentException. Error offsets lie inside the input. The lenient decoder never raises a compliance error. |
| DecoderSpec.DecodeAsWritten | src/Decoder.php:36-58 | The decoder with the boundary exactly as src/Decoder.php:107-110 computes it. The empty string, and only it, gives InvalidArgumentException. Error offsets lie inside the input. The lenient decoder never raises a compliance error. |
| DecoderSpec.AnythingWider | src/Decoder.php:120-137 | The boundary only ends the container loops early: a value read under one safe boundary is read alike, to the same offset, under any larger one. |
| DecoderSpec.ListItemsWider | src/Decoder.php:210-228 | The same for the list loop. |
| DecoderSpec.DictEntriesWider | src/Decoder.php:139-169 | The same for the dictionary loop. |
| DecoderSpec.DictEntryWider | src/Decoder.php:154-165 | The same for one key and value. |
| DecoderSpec.AsWrittenAgrees | src/Decoder.php:94-118 | Under either policy, whatever the decoder with the boundary as written accepts, the corrected decoder accepts with the same value. |
| Decoders.Decoder.constructor | src/Decoder.php:46-58 | Stores the input, puts the cursor at 0 and sets `max` to the safe boundary, with line 107 corrected as "## Findings" describes. |
| Decoders.Decoder.ComplianceError | src/NonCompliantDecoder.php:29-32 | Under the lenient policy nothing is raised. Otherwise a compliance error with the given offset and kind. |
| Decoders.Decoder.DictionaryComplianceError | src/Decoder.php:239-249 | Raises exactly what KeyCheck says. Under the lenient policy it raises the sort flag for a smaller key. |
| Decoders.Decoder.CheckDictionaryCompliance | src/NonCompliantDecoder.php:21-27 | The sort flag becomes set once a key is below its predecessor, and stays set. |
| Decoders.Decoder.DecodeDigits | src/Decoder.php:171-195 | Result and new cursor agree with ReadDigits. |
| Decoders.Decoder.DecodeInteger | src/Decoder.php:197-208 | Result and new cursor agree with ParseInteger. |
| Decoders.Decoder.DecodeString | src/Decoder.php:230-237 | Result and new cursor agree with ParseString. |
| Decoders.Decoder.DecodeAnything | src/Decoder.php:120-137 | Result and new cursor agree with ParseAnything. After a success the sort flag is as before. |
| Decoders.Decoder.DecodeList | src/Decoder.php:210-228 | The loop's result and new cursor agree with ParseList. |
| Decoders.Decoder.DecodeDictionary | src/NonCompliantDecoder.php:34-46 | Saves the sort flag, reads the entries, sorts them if the flag was raised, and restores the flag. Agrees with ParseDictionary. |
| Decoders.Decoder.DecodeDictionaryEntries | src/Decoder.php:139-169 | The loop's entries, cursor and sort flag agree with DictEntries. |
| Decoders.Decoder.DecodeEntry | src/Decoder.php:154-165 | One key and value. The sort flag is raised when the lenient policy meets a smaller key. |
| Decoders.ComputeSafeBoundary | src/Decoder.php:99-118 | The backward loop computes SafeBoundary. Its test for the `i` before a `-` is the correction of line 107 that "## Findings" describes; the code as written is SafeBoundaryAsWritten. |
| Decoders.Decode | src/Decoder.php:36-44 | Constructor, decodeAnything and checkCursorPosition together compute DecoderSpec.Decode, the decoder with line 107 corrected. |
| Encoders.KeyBytes | src/Encoder.php:57 | A string key is written as itself. An integer key is written as its decimal text, as tests/EncoderTest.php:93-97 expect; the code shown throws a TypeError there instead (see "## Left out"). |
| Encoders.EncodeInteger | src/Encoder.php:89-92 | `i` … `e` around the decimal text. |
| Encoders.EncodeBoolean | src/Encoder.php:79-82 | true is `i1e` and false is `i0e`, as encodeInteger of the cast. |
| Encoders.EncodeString | src/Encoder.php:94-97 | The bytes come last, after at least a length digit and a colon. |
| Encoders.Keyed | src/Encoder.php:50-57 | The entries in the same order, keys rendered as strings. |
| Encoders.Encode | src/Encoder.php:16-25 | Succeeds exactly when no unsupported value appears at any depth. Output is at least two bytes. What it writes is stated by Serialization.EncodeToValue. |
| Encoders.EncodeItems | src/Encoder.php:38-41 | Succeeds exactly when every item is supported. |
| Encoders.EncodeDictionary | src/Encoder.php:49-77 | Succeeds exactly when every value is supported. The result is `d` … `e`. Its key order is stated by Serialization.DictToValue. |
| Encoders.EncodeEntries | src/Encoder.php:54-58 | Succeeds exactly when every remaining value is supported. |
| Encoders.SortedFrom | src/Encoder.php:51-52 | The sorted copy is supported exactly when the array is. |
| Encoders.CompletesStep | src/Encoder.php:54-58 | One turn of the `foreach` keeps the output a prefix of the final encoding, or ends with the value's error. |
| Encoders.EncodeArrayObject | src/Encoder.php:49-62 | The `ksort` + `foreach` method returns exactly EncodeDictionary. |
| Serialization.Serialize | src/Encoder.php:16-97 | The wire form of a value is at least two bytes. |
| Serialization.SerializeEnds | src/Decoder.php:120-137 | The first byte of a wire form tells its kind, which is what decodeAnything dispatches on. A non-string ends in `e`. |
| Serialization.FromValue | src/Decoder.php:151 | A decoded list comes back as a PHP array and a dictionary as an ArrayObject. |
| Serialization.EncodeFromValue | src/Encoder.php:16-62 | Encoding a decoded canonical value gives its wire form. |
| Serialization.ToValue | src/Encoder.php:16-25 | The value a PHP value stands for once encoded. Booleans become integers. Arrays keyed 0..n-1 become lists. Every other array, ArrayObject and stdClass becomes a dictionary whose entries are in `ksort` order of their rendered keys. |
| Serialization.EncodeToValue | src/Encoder.php:16-62 | For every supported value whose keys render apart, Encoder::encode writes the wire form of ToValue of it, and that value is canonical: every dictionary, at every depth, has strictly increasing keys. |
| Serialization.DictToValue | src/Encoder.php:49-62 | `ksort` then the `foreach` write the entries in strictly increasing byte order of their keys, each value as its wire form. |
| Serialization.SwappedPair | src/Encoder.php:49-62 | Two entries of an array that is not a list, with keys in decreasing byte order, are written swapped. |
| Serialization.EncodeUnsortedDigits | src/Encoder.php:30-62 | `[1 => 1, 0 => 0]` is written `d1:0i0e1:1i1ee`, as tests/EncoderTest.php:91-94 expect. |
| Serialization.EncodeUnsortedNumbers | src/Encoder.php:30-62 | `[5 => 5, 11 => 11]` is written `d2:11i11e1:5i5ee`, because "11" sorts before "5", as tests/EncoderTest.php:95-98 expect. |
| RoundTrip.ParseSerialized | src/Decoder.php:120-137 | decodeAnything at the wire form of a canonical value reads that value and stops right after it. |
| RoundTrip.SerializedBoundary | src/Decoder.php:99-116 | The safe boundary of a wire form is at least 1. For a non-string it is the last byte. |
| RoundTrip.DecodeSerialized | src/Decoder.php:36-44 | Both decoders decode the wire form of every canonical value to that value. |
| RoundTrip.DecodeWhole | src/Decoder.php:36-44 | A value read up to the end of the input is what decode returns. |
| RoundTrip.BoundaryAsWrittenRejectsString | src/Decoder.php:107-110 | `2:-1`, the encoding of `-1`, fails with "Premature end of data" under the boundary as written. The corrected decoders return `-1`. |
| StrictDecoding.ParsedWire | src/Decoder.php:120-137 | Whatever the strict decodeAnything reads is the wire form of a canonical value. |
| StrictDecoding.StrictDecodeIsSerialize | src/Decoder.php:36-44 | An input the strict decoder accepts is exactly the wire form of the canonical value it returns. |
| StrictDecoding.StrictDecodeThenEncode | src/Encoder.php:16-62 | Encoding what the strict decoder returned gives back its input byte for byte. |
| StrictDecoding.EncodeThenDecode | src/Encoder.php:16-25 | What Encoder::encode writes for a supported value whose keys render apart, both decoders accept, and they return ToValue of it. |
| StrictDecoding.AsWrittenStrictAgrees | src/Decoder.php:36-58 | Whatever Decoder::decode as written accepts is the wire form of the canonical value it returns, and the corrected decoder returns that value too. |
| StrictDecoding.StrictDecodeExactly | src/Decoder.php:36-44 | The strict decoder accepts exactly the wire forms of canonical values, each decoded to its value. |
| LenientDecoding.AnythingAgree | src/NonCompliantDecoder.php:29-32 | Where the strict decodeAnything does not stop on a compliance error, the lenient one gives the same result. |
| LenientDecoding.LenientAgreesWithStrict | src/NonCompliantDecoder.php:29-32 | The same for decode as a whole. |
| LenientDecoding.StrictSuccessLenientSame | src/NonCompliantDecoder.php:29-46 | Whatever the strict decoder accepts, the lenient one accepts with the same value. |
| LenientDecoding.SortCanonical | src/NonCompliantDecoder.php:39-42 | Sorting the entries of a dictionary read leniently gives strictly increasing keys. |
| LenientDecoding.ParsedCanonical | src/NonCompliantDecoder.php:34-46 | Every value either decoder's decodeAnything returns is canonical. |
| LenientDecoding.DecodedCanonical | src/NonCompliantDecoder.php:34-46 | Every value either decoder returns is canonical. |
| LenientDecoding.AsWrittenLenientAgrees | src/NonCompliantDecoder.php:34-46 | Whatever NonCompliantDecoder::decode as written accepts, the corrected one returns alike. The value is canonical, and the strict decoder reads it back from its wire form. |
| LenientDecoding.LenientNormalises | src/NonCompliantDecoder.php:34-46 | A leniently decoded value re-encodes to its canonical wire form. Both decoders read that form back to the same value. |
| LenientDecoding.NegativeZero | src/Decoder.php:199-203 | `i-0e` is a compliance error at offset 2 for the strict decoder. The lenient decoder reads 0. |
| LenientDecoding.OutOfOrderStrict | src/Decoder.php:245-248 | A second key below the first gives "Out of order dictionary entry" at the second key's offset. |
| LenientDecoding.OutOfOrderSorted | src/NonCompliantDecoder.php:36-43 | The lenient decoder returns the two entries sorted. |
| LenientDecoding.RepeatedKeyStrict | src/Decoder.php:241-244 | A repeated key gives "Duplicate dictionary entry" at its offset. |
| LenientDecoding.RepeatedKeyOverwrites | src/Decoder.php:164 | The lenient decoder keeps one entry, holding the second value. |
| LenientDecoding.BoundaryGrows | src/Decoder.php:99-116 | Appending bytes never lowers the safe boundary. |
| LenientDecoding.DecodeStopsShort | src/Decoder.php:76-87 | A value that ends before the input does: a "Superfluous content" compliance error when strict, the value when lenient. |
| LenientDecoding.TrailingContent | src/Decoder.php:76-87 | A wire form followed by more bytes: strict reports superfluous content right after it, lenient returns the value. |
| LegacyDecoding.ReadInteger | src/Bencode.php:72-103 | An integer token ends inside the input, at least three bytes on. |
| LegacyDecoding.ReadString | src/Bencode.php:104-121 | A string token moves at least two bytes. |
| LegacyDecoding.Token | src/Bencode.php:62-121 | The token read is a container exactly when the byte is `d` or `l`. |
| LegacyDecoding.Place | src/Bencode.php:123-166 | Placing a value never breaks the loop. The cursor ends after the token. |
| LegacyDecoding.Step | src/Bencode.php:39-169 | A turn of the loop that goes on moves the cursor forward. |
| LegacyDecoding.StepShape | src/Bencode.php:49-59 | `$depth` stays the number of open containers, changing by +1 on `d`/`l` and -1 on `e`. The loop breaks only on an `e` at depth 0 or 1. |
| LegacyDecoding.Finish | src/Bencode.php:171-181 | Stopping before the last byte gives "Superfluous content" at the next offset. Running out with a container open gives "Premature end of data". |
| LegacyDecoding.Decoded | src/Bencode.php:23-28 | The empty string, and only it, gives InvalidArgumentException. |
| LegacyDecoding.LegacyDecode | src/Bencode.php:23-182 | The loop over `$pos`, `$depth`, `$current`, the pending key and the stack computes Decoded. |
| LegacyDecoding.Merged | src/Bencode.php:123-135 | Merging repeated keys keeps the kind of each value. |
| LegacyDecoding.MergedUnique | src/Bencode.php:127-131 | Without repeated keys, the assignments rebuild every dictionary as it was written. |
| LegacyDecoding.LegacyReadsWireForm | src/Bencode.php:23-182 | Every wire form, of any value, decodes to that value with repeated keys merged (first place, last value). With `$useArray = true`; see "## Left out" for the stdClass property-name errors of the default. |
| LegacyDecoding.LegacyRoundTrip | src/Bencode.php:23-182 | Without repeated keys, the wire form decodes to the value itself. |
| LegacyDecoding.LegacyAgreesWithStrict | src/Bencode.php:23-182 | Whatever Decoder::decode accepts, Bencode::decode accepts with the same value. With `$useArray = true`; under the default, keys that are not valid property names are refused (see "## Left out"). |
| LegacyDecoding.LegacySecondScalar | src/Bencode.php:149-152 | Two top-level scalars: "Unexpected value" at the offset after the second one. |
| LegacyDecoding.LegacySecondContainer | src/Bencode.php:149-152 | A scalar followed by `d` or `l`: "Unexpected value" at the offset after that byte. |
| LegacyDecoding.LegacyScalarThenEnd | src/Bencode.php:49-52 | A scalar followed by `e` is accepted when the `e` is last, as in `i1ee`. Otherwise "Superfluous content" after the `e`. |
| LegacyDecoding.LegacyTrailingContent | src/Bencode.php:171-174 | Bytes after the top-level container: "Superfluous content" at the first of them. |
| LegacyDecoding.LegacyUnclosedList | src/Bencode.php:176-179 | A list whose `e` is missing: "Premature end of data". |
| LegacyDecoding.LegacyPendingKey | src/Bencode.php:44-47 | An `e` right after a key: "Premature end of dictionary" at the `e`. |
| LegacyDecoding.LegacyIntegerKey | src/Bencode.php:136-141 | An integer in key position: "Invalid dictionary key type" naming `i`. |
| LegacyDecoding.LegacyContainerKey | src/Bencode.php:136-141 | A list or dictionary in key position: "Invalid dictionary key type" naming `l` or `d`. |
| LegacyDecoding.LegacyShortString | src/Bencode.php:119-120 | A top-level string whose length runs past the end is accepted with the bytes that are there. |
| LegacyDecoding.LegacyIntegerWithoutDigits | src/Bencode.php:86-90 | `i` (or `i-`) not followed by a digit: "Invalid integer found" where the digits should start. |
| LegacyDecoding.LegacyIntegerUnterminated | src/Bencode.php:96-100 | Digits not followed by `e`: "Invalid integer end found" after the digits. |
| LegacyDecoding.LegacyIntegerAtEnd | src/Bencode.php:74-77 | An `i` as the last byte, alone or inside a list: "Premature end of data". |
| LegacyEncoding.LegacyEncode | src/Bencode.php:190-234 | Succeeds exactly when no unsupported value and no ArrayObject appear at any depth. |
| LegacyEncoding.LegacyItems | src/Bencode.php:208-211 | A list succeeds exactly when every item is accepted. |
| LegacyEncoding.LegacyObject | src/Bencode.php:218-231 | Succeeds exactly when every property is accepted. The result is `d` … `e`. |
| LegacyEncoding.LegacyEntries | src/Bencode.php:224-228 | Succeeds exactly when every remaining property is accepted. |
| LegacyEncoding.LegacySortedFrom | src/Bencode.php:220-221 | The `ksort`ed copy is accepted exactly when the properties are. |
| LegacyEncoding.LegacyCompletesStep | src/Bencode.php:224-228 | One turn of the `foreach` keeps the output a prefix of the final encoding, or ends with the value's error. |
| LegacyEncoding.LegacyEncodeObject | src/Bencode.php:218-231 | The `ksort` + `foreach` method returns exactly LegacyObject. |
| LegacyEncoding.LegacyEncodeAgrees | src/Bencode.php:190-234 | Bencode::encode equals Encoder::encode on every value it accepts, and fails with "Unsupported value" on every other one. |
| LegacyEncoding.LegacyEncodeToValue | src/Bencode.php:190-234 | For every value it accepts whose keys render apart, Bencode::encode writes the wire form of the canonical value ToValue of it, with stdClass objects and cast arrays in `ksort` order. |

## Left out

- Floats: `encodeDouble`, the `round()` in `sprintf('i%de', round($value))`, and the int-to-float promotion of large integers in src/Bencode.php. Integers are unbounded mathematical integers.
- The saturation of PHP's `(int)` cast on overlong digit runs (src/Decoder.php:185). Lengths and integers are read exactly.
- Exception classes and message texts. Errors are datatypes holding the kind, the offset or byte the message names, and whether the error went through the compliance hook.
- Non-string input and `TypeError` in the decoders: the input is a byte sequence. PHP type dispatch by `gettype` becomes a match on `Host`.
- Encoders.KeyBytes: src/Encoder.php:1 declares `strict_types=1`, so `strlen($k)` at src/Encoder.php:57 throws a `TypeError` for an integer key. The model writes the key's decimal text instead, as tests/EncoderTest.php:93-97 expect. Arrays such as `[1=>1,0=>0]` and `[5=>5,11=>11]` are therefore encoded, where the code shown fails. So is any decoded dictionary whose key PHP turns into an integer: `d1:5i0ee` gives the key 5. `StrictDecodeThenEncode` and `EncodeFromValue` hold because the model keeps every key a byte string. With PHP's integer keys, such a dictionary would not re-encode. `EncodeUnsortedDigits` and `EncodeUnsortedNumbers` likewise state the tests' expected output, not the `TypeError`.
- Serialization.EncodeToValue: requires `DistinctRendered`, the rendered keys of every array that is not a list, and of every ArrayObject and stdClass, being distinct. A PHP array always meets it, because PHP stores the key `"5"` as the integer 5. `Host` can hold both `KInt(5)` and `KStr("5")` in one array, and for such a value nothing is stated.
- PHP references and aliasing in `Bencode::decode`. Each open container holds what it has gathered so far, instead of a reference into its parent.
- The `$useArray` parameter of `Bencode::decode`. Dictionaries are values, whether PHP would build arrays or stdClass objects.
- LegacyDecoding.Place: with the default `$useArray = false`, src/Bencode.php:131 assigns a stdClass property named by the key. PHP refuses a property name that starts with a NUL byte, and before PHP 7.1 also the empty name. So `d2:\0ai0ee`, which Decoder::decode accepts, makes Bencode::decode throw. The model drops that error path. `Place`, `LegacyReadsWireForm` and `LegacyAgreesWithStrict` describe the array form, in which every byte-string key is accepted.
- PHP's conversion of numeric-string array keys to integers. Keys are byte strings throughout. PHP's `<=` and default `ksort` compare such keys numerically; the model compares all keys byte-wise.
- ArrayObject property access (`ARRAY_AS_PROPS`) and the distinction between stdClass and arrays beyond what the encoders dispatch on.
- `BencodeSerializable`: an interface no encoder shown calls.
- The memory-use tests and the fuzzer: they measure PHP runtime behaviour, not the codec.
- The legacy encoder is related to the Encoder class (LegacyEncodeAgrees), not to the legacy decoder. Dictionaries decoded by `Bencode::decode` come back as PHP arrays, and their re-encoding is not stated.

## Findings

| source | as written | input that shows it | evidently intended | confidence | as-written member | corrected member |
|---|---|---|---|---|---|---|
| src/Decoder.php:107-110 | computeSafeBoundary steps back two bytes past any trailing `-` that precedes the final digits, whatever byte comes before the `-`. | `2:-1`, the encoding of the string `-1`: max becomes 0 and decode fails with "Premature end of data". | Step back two bytes only over an `i-` integer prefix, as the method's doc comment says ("optionally preceded by i or i-"). | not executed | DecoderSpec.DecodeAsWritten, RoundTrip.BoundaryAsWrittenRejectsString | DecoderSpec.SafeBoundary, RoundTrip.DecodeSerialized |
