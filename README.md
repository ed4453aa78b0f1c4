# parse-range-header, modelled in Dafny

This library has two functions in `src/index.ts`:

- `parseRange` reads an HTTP `Range` request header. The header asks for a single byte range, after section 2.1 of RFC 7233. The result is the range descriptor that a ranged storage read accepts, or nothing when the header is not one the worker serves.
- `makeContentRange` turns that descriptor and an object's size into a `Content-Range` value `first-last/size`, after section 4.2 of RFC 7233.

Both functions are pure, so the model is made of Dafny functions and lemmas about them.

- `wrappers.dfy` holds the `Option` type. Its `None` stands for JavaScript's `undefined` and, for numbers, for `NaN`.
- `js_text.dfy` (module `JsText`) models the JavaScript built-ins the code relies on:
  - `String.prototype.split` with a non-empty separator, with `indexOf` and `join` as its reference;
  - `parseInt(_, 10)`;
  - the decimal rendering of a number inside a template literal.

  A JavaScript number is an `Option<int>`: an integer or `NaN`.
- `range_header.dfy` (module `RangeHeader`) models the two functions.
  - The descriptors the parser returns (a suffix, an offset alone, or an offset with a length) become the datatype `ByteRange`, whose shapes are `Suffix`, `OffsetOnly` and `OffsetLength`. The length-only shape that the `Range` type at lines 3-5 also admits is left out (see below).
  - `RangeHeaderOf` writes the canonical header that asks for a descriptor, and the parser inverts it. It is a right inverse only: many headers parse to the same descriptor (`xbytes=0-99`, `bytes=00-99`, `bytes= 0-+99`).
  - `IntendedContentRange` is the formatter with the defect at line 82 corrected (see Findings).
- `range_header_examples.dfy` (module `RangeHeaderExamples`) holds each case of `test/range-header.test.ts` as a lemma. It also pins a few edges the tests leave open.

The code accepts more than the grammar of section 2.1 of RFC 7233. The model follows the code:

- Text before `bytes=` is ignored: `xbytes=0-99` parses like `bytes=0-99`. The grammar `byte-ranges-specifier = bytes-unit "=" byte-range-set` allows no text before the unit.
- The range-spec ends at a second `bytes=`, if there is one, so `bytes=bytes=0-99` has an empty range-spec and is rejected. The grammar allows no second unit.
- Text after the digits of a side is ignored: `bytes=5abc-7` asks for bytes 5 to 7. The grammar `first-byte-pos = 1*DIGIT` allows only digits.
- White space before a side and a `+` sign are accepted, as `parseInt` accepts them: `bytes= 5-+7` asks for bytes 5 to 7.
- A single-sided range keeps whatever `parseInt` returns. This includes `NaN` (`bytes=NaN-`), which the grammar does not allow. It also includes a suffix of 0 (`bytes=-0`), which the RFC calls unsatisfiable.
- The formatter does not resolve the length of an open-ended or suffix range against the object's size. It reads `length` from the `offset` property.

## Model

| member | source | states |
|---|---|---|
| JsText.IndexOf | src/index.ts:19 | the leftmost occurrence of a separator: it occurs there, nowhere before, and `None` means nowhere |
| JsText.Split | src/index.ts:19 | `split` on a non-empty separator: at least one piece, joining the pieces with the separator gives the input back, no piece holds the separator, and the first cut is at the leftmost occurrence |
| JsText.SplitCharCount | src/index.ts:25-35 | splitting on one character gives one more piece than the character's occurrences, so "more than one piece" means "holds the character" and "exactly two pieces" means "exactly one dash" |
| JsText.SplitAroundChar | src/index.ts:31-37 | `a + "-" + b` with no dash in `a` or `b` splits into exactly `[a, b]` |
| JsText.SplitWithoutChar | src/index.ts:25-29 | a text without a comma splits into the single piece that is the text itself |
| JsText.ParseInt | src/index.ts:56-57 | `parseInt(_, 10)`: the result of a text without a minus sign is NaN or non-negative |
| JsText.ParseIntNeedsDigit | src/index.ts:56-60 | a text with no decimal digit parses to NaN |
| JsText.ParseIntSkipsWhiteSpace | src/index.ts:56-57 | leading white space does not change the result |
| JsText.ParseIntPlus | src/index.ts:56-57 | a leading `+` is dropped and the digits after it are read |
| JsText.ParseIntPlusNat | src/index.ts:56-57 | `+n` for a rendered natural number `n` reads as `n` |
| JsText.ParseIntMinus | src/index.ts:56-57 | a leading `-` negates what the text after it reads as, so `-` before a non-digit gives NaN |
| JsText.ParseIntNegated | src/index.ts:56-57 | a leading `-` negates the value of the digits after it |
| JsText.ParseIntNonDigitFirst | src/index.ts:56-60 | a text whose first character is not white space, a sign or a digit parses to NaN, as `x5` does |
| JsText.ParseIntUnsigned | src/index.ts:56-57 | a text starting with a digit is read as its leading digits, without trimming or sign |
| JsText.ParseDigitsOf | src/index.ts:56-57 | a run of digits followed by text that does not start with a digit reads as the run's value; the rest is ignored |
| JsText.NatToString | src/index.ts:83 | the decimal rendering is non-empty, all digits, without a leading zero, and denotes the number |
| JsText.IntToString | src/index.ts:83 | a rendered integer is non-empty, starts with `-` exactly when it is negative, and otherwise starts with a digit |
| JsText.NumberToString | src/index.ts:83 | a number in a template literal: `NaN`, or the integer's rendering; `ParseIntOfNumberToString` is its inverse |
| JsText.ParseIntOfIntToString | src/index.ts:83 | `parseInt` reads back any rendered integer followed by text that does not start with a digit |
| JsText.ParseIntOfNumberToString | src/index.ts:83 | `parseInt(String(x)) == x` for every integer and for NaN |
| JsText.IntToStringInjective | src/index.ts:83 | distinct integers render to distinct texts, even with text appended that does not start with a digit |
| RangeHeader.ByteRange | src/index.ts:46-71 | the three shapes the parser returns, as one datatype: a suffix (line 47), an offset alone (line 53), or an offset with a length (line 71), each value being exactly one of them |
| RangeHeader.WellFormed | src/index.ts:31-71 | what the parser produces: no negative value, and a length of at least 1 beside an offset |
| RangeHeader.RangeSpecText | src/index.ts:19 | `str.split('bytes=')[1] ?? ''`: empty when there is no `bytes=`, and never holding `bytes=` itself |
| RangeHeader.ParseRange | src/index.ts:18-72 | any result comes from a header that holds `bytes=` and has a non-empty range-spec with no comma and exactly one dash, and the result is well formed (no negative value, a length of at least 1) |
| RangeHeader.ParseRangeSpec | src/index.ts:21-29 | an empty range-spec or one with a comma is rejected |
| RangeHeader.ParseSingleRange | src/index.ts:31-35 | a range without exactly one dash is rejected |
| RangeHeader.ClassifyRange | src/index.ts:37-54 | sides without a dash only ever give a well-formed descriptor |
| RangeHeader.RangeFromEnds | src/index.ts:56-71 | a result exactly when both ends are numbers and the first is at most the last; it starts at the first and its last byte is the last |
| RangeHeader.LeadingTextIgnored | src/index.ts:19 | text before the first `bytes=` does not change the result |
| RangeHeader.RangeSpecTextAfterUnit | src/index.ts:19 | the range-spec is the text after the first `bytes=` up to the next `bytes=` |
| RangeHeader.ParseRangeOfSpec | src/index.ts:37-71 | for a range-spec `first-last`: both sides empty is rejected; an empty first side gives `Suffix(parseInt(last))`; an empty last side gives `OffsetOnly(parseInt(first))`; otherwise a result exactly when both parse and are in order, holding the offset `a` and the length `b - a + 1` |
| RangeHeader.ParseRangeDecimal | src/index.ts:56-71 | `bytes=a-b` gives offset `a` and length `b - a + 1` when `a <= b`, and nothing when the range is inverted |
| RangeHeader.ParseRangeOffsetLength | src/index.ts:56-71 | the canonical header of an offset and a positive length parses to that offset and length |
| RangeHeader.ParseRangeOpenEnded | src/index.ts:52-54 | `bytes=N-` parses to the open-ended range at `N`, NaN included |
| RangeHeader.ParseRangeSuffix | src/index.ts:46-48 | `bytes=-N` parses to the suffix of `N` bytes, NaN included |
| RangeHeader.RangeHeaderOf | src/index.ts:18-72 | the canonical header asking for a descriptor, which starts with `bytes=`; `ParseRangeHeaderOf` proves the parser inverts it |
| RangeHeader.ParseRangeHeaderOf | src/index.ts:18-72 | every well-formed descriptor is parsed back from its canonical header; with `ParseRange`'s own contract, the well-formed descriptors are exactly the parser's results |
| RangeHeader.OffsetProperty | src/index.ts:81 | `range.offset`, absent exactly on a suffix range |
| RangeHeader.LengthProperty | src/index.ts:82 | `range.length`, the property the corrected line 82 reads (line 82 as written reads `range.offset`); present exactly on an offset-and-length range; used only by `IntendedContentRange` |
| RangeHeader.Coalesce | src/index.ts:81-82 | `??`: only an absent property falls back to the default, so NaN stays NaN |
| RangeHeader.Plus | src/index.ts:83 | number addition: a number exactly when both operands are numbers, so NaN absorbs |
| RangeHeader.RenderContentRange | src/index.ts:83 | the template `${offset}-${offset + length - 1}/${size}`; `RenderIntegers` states its value for two integers |
| RangeHeader.RenderIntegers | src/index.ts:83 | two integers render as `offset-(offset+length-1)/size` |
| RangeHeader.MakeContentRange | src/index.ts:74-84 | the empty string exactly when no range is given |
| RangeHeader.MakeContentRangeIgnoresLength | src/index.ts:81-83 | a range whose offset is `o` renders as `o-(2o-1)/size`, whatever its length |
| RangeHeader.MakeContentRangeOfSuffix | src/index.ts:81-83 | a suffix range has no offset and renders as `0--1/size` |
| RangeHeader.MakeContentRangeOfNaN | src/index.ts:81-83 | an open-ended range whose offset is NaN renders as `NaN-NaN/size`, because `??` keeps NaN |
| RangeHeader.IntendedContentRange | src/index.ts:74-84 | with `length` read from the `length` property: the empty string exactly when no range is given |
| RangeHeader.IntendedContentRangeOf | src/index.ts:83 | with `length` read from the `length` property, an offset and a length render as `offset-(offset+length-1)/size` |
| RangeHeader.IntendedContentRangeRoundTrip | src/index.ts:83 | with `length` read from the `length` property, the range parsed from `bytes=a-b` renders as `a-b/size` |
| RangeHeader.MakeContentRangeMisreportsEnd | src/index.ts:82 | as written, the range parsed from `bytes=a-b` never renders as `a-b/size` unless `b = 2a - 1` |
| RangeHeaderExamples.AcceptsOpenEnded | test/range-header.test.ts:10 | `bytes=0-` gives offset 0 |
| RangeHeaderExamples.AcceptsSuffix | test/range-header.test.ts:11 | `bytes=-100` gives suffix 100 |
| RangeHeaderExamples.AcceptsFirstHundred | test/range-header.test.ts:12 | `bytes=0-99` gives offset 0, length 100 |
| RangeHeaderExamples.AcceptsHundredToTwoHundred | test/range-header.test.ts:13 | `bytes=100-200` gives offset 100, length 101 |
| RangeHeaderExamples.RejectsEmpty | test/range-header.test.ts:24 | the empty header is rejected |
| RangeHeaderExamples.RejectsBareEquals | test/range-header.test.ts:25 | `=` is rejected |
| RangeHeaderExamples.RejectsOtherUnit | test/range-header.test.ts:26 | `unknown=0-100` is rejected |
| RangeHeaderExamples.RejectsMissingUnit | test/range-header.test.ts:27 | `1-100` is rejected |
| RangeHeaderExamples.RejectsEmptySides | test/range-header.test.ts:28 | `bytes=-` is rejected |
| RangeHeaderExamples.RejectsTwoDashes | test/range-header.test.ts:29 | `bytes=-1-1` is rejected |
| RangeHeaderExamples.RejectsInverted | test/range-header.test.ts:30 | `bytes=200-100` is rejected |
| RangeHeaderExamples.RejectsTextOffset | test/range-header.test.ts:31 | `bytes=x-100` is rejected |
| RangeHeaderExamples.RejectsTextEnd | test/range-header.test.ts:32 | `bytes=100-x` is rejected |
| RangeHeaderExamples.RejectsTextSides | test/range-header.test.ts:33 | `bytes=x-x` is rejected |
| RangeHeaderExamples.RejectsMultipleRanges | test/range-header.test.ts:34 | `bytes=0-99,100-199` is rejected |
| RangeHeaderExamples.AcceptsLeadingText | src/index.ts:19 | `xbytes=0-99` gives offset 0, length 100 |
| RangeHeaderExamples.RejectsRepeatedUnit | src/index.ts:19-23 | `bytes=bytes=0-99` has an empty range-spec and is rejected |
| RangeHeaderExamples.AcceptsZeroSuffix | src/index.ts:46-48 | `bytes=-0` gives suffix 0 |
| RangeHeaderExamples.AcceptsNaNOffset | src/index.ts:52-54 | `bytes=NaN-` gives an offset of NaN |
| RangeHeaderExamples.AcceptsTrailingText | src/index.ts:56-71 | `bytes=5abc-7` gives offset 5, length 3 |
| RangeHeaderExamples.AcceptsWhiteSpaceAndPlus | src/index.ts:56-71 | `bytes= 5-+7` gives offset 5, length 3 |
| RangeHeaderExamples.IntendedContentRangeOfHundredToTwoHundred | src/index.ts:83 | with `length` read from the `length` property, `bytes=100-200` and size 1000 render as `100-200/1000` |
| RangeHeaderExamples.ContentRangeOfHundredToTwoHundred | src/index.ts:82 | as written, `bytes=100-200` and size 1000 render as `100-199/1000` |
| RangeHeaderExamples.ContentRangeOfSuffix | src/index.ts:81-83 | `bytes=-100` and size 1000 render as `0--1/1000` |

## Left out

- The storage types `R2Object` and `R2Range` are not part of this model. The formatter takes the descriptor as an `Option<ByteRange>` and the object's size as a `nat`. The `as Range` cast at line 75 is therefore the identity, and no storage read is modelled.
- JavaScript numbers are modelled as unbounded integers or `NaN`. Four effects of floating point are not modelled:
  - rounding of values above 2^53, both when `parseInt` reads a long digit string and in the sums at line 64 (`end - offset + 1`) and line 83 (`offset + length - 1`). For `bytes=0-9007199254740992`, `parseInt` reads 2^53 exactly, but line 64 rounds 2^53 + 1 to 2^53, so the code returns `{offset: 0, length: 9007199254740992}` where `ParseRangeDecimal` gives `OffsetLength(0, 9007199254740993)`. For an offset of 2^53, line 83 rounds 2^54 - 1 to 2^54, so the code renders the end as `18014398509481984` where `MakeContentRange` gives `18014398509481983`. The values that `IntendedContentRangeRoundTrip` and `MakeContentRangeMisreportsEnd` state assume these sums are exact;
  - exponent notation when a number of 1e21 or more is rendered;
  - negative zero;
  - overflow to `Infinity`: `parseInt` reads a digit run as `Infinity` when its value is at least 2^1024 - 2^970 (about 1.7976931348623158e308). Every run of 310 or more significant digits overflows, and so do some runs of 309; leading zeros do not count.

  The parser's sides never hold a minus sign, so negative zero cannot arise from them. Overflow does arise: for `bytes=N-N` where the digits of `N` read as `Infinity`, line 64 computes `Infinity - Infinity + 1`, which is `NaN`. `NaN <= 0` is false, so line 71 returns `{offset: Infinity, length: NaN}`, where the model returns `OffsetLength(N, 1)`.
- RangeHeader.ParseRange: its promise that every result is well formed (no negative value, a length of at least 1) holds for unbounded integers. It does not hold for the overflow above.
- RangeHeader.ByteRange: the `Range` type at lines 3-5 also admits a length without an offset (the second variation in the comment at line 13). `ByteRange` has no value for it, because the parser never returns it (lines 47, 53 and 71), so the formatter only ever receives the parser's results. For that shape the formatter would render `0--1/size`, as for a suffix.
- JavaScript strings are sequences of UTF-16 code units, while a Dafny `string` holds characters. Surrogate pairs are not modelled.
- `file.size` is taken to be a non-negative integer.
- Multiple ranges, `If-Range` and range units other than `bytes` are not modelled; the code does not implement them either.
- The Jest harness in `test/range-header.test.ts` is not modelled. Its cases appear as lemmas in `RangeHeaderExamples`.
- RangeHeader.IntendedContentRange: corrects only the property read at line 82. It does not resolve the length of an open-ended or suffix range against the object's size, which the code does not do either.

## Findings

| source | as written | input that shows it | evidently intended | confidence | as-written member | corrected member |
|---|---|---|---|---|---|---|
| src/index.ts:82 | `length` is read from the `offset` property, so the end renders as twice the offset minus one | `bytes=100-200` with an object of 1000 bytes renders `100-199/1000` | `length` read from the `length` property, so the value is `100-200/1000`, the range asked for | high (not executed) | RangeHeader.MakeContentRangeMisreportsEnd | RangeHeader.IntendedContentRangeRoundTrip |
