# csv-count: cell classification and counting, in Dafny

A model of the counting pipeline in `src/main.rs`. The program reads a CSV file and drops its header record. It classifies every remaining cell as null, `Unknown`, `String`, `Integer` or `Float`, then counts how often each classification occurs.

The model has six modules, one per concern:

- `Fields` (`fields.dfy`): the `Field` enum, `Option` and the `NULL` marker. It also defines a `byte` type.
- `Utf8` (`utf8.dfy`): the check that `std::str::from_utf8` makes, following the UTF8-octets grammar of section 4 of RFC 3629. It includes a decoder and an encoder, and both round trips are proved.
- `Numbers` (`numbers.dfy`): the two numeric tests as text validators.
  - `ParseI64` models `str::parse::<i64>`. It returns the value, and `FormatI64` is its reference inverse.
  - `IsF64Literal` models the grammar `str::parse::<f64>` accepts.
- `Classifier` (`classifier.dfy`):
  - `Parse` is the priority chain of `parse`.
  - `Classify` holds the rules that apply after decoding.
  - The lemmas characterise each outcome as an if-and-only-if.
  - Example lemmas pin down edge cases.
- `Aggregator` (`aggregator.dfy`): `histogram`.
  - `HistogramOf` is the fold used as the specification.
  - The `Histogram` method is the loop that updates the map.
  - The lemmas cover counting, totality and order independence.
- `Decoder` (`decoder.dfy`): the loop in `read_csv` that drops the header, flattens the records and classifies each cell. The `csv` crate tokenises the input, so its output is an input here: a sequence of records, each a sequence of cells, each cell a byte string.

`Parse` has no precondition and Dafny proves that it terminates, so `parse` is total. Its result type is `Option<Field>` (`Aggregator.Key`), and `Aggregator.KeyInKeys` proves that every such value is one of the five entries of `Aggregator.Keys`.

## Model

| member | source | states |
|---|---|---|
| Utf8.IsValidUtf8 | src/main.rs:53 | what `from_utf8` accepts: a sequence of RFC 3629 characters, each sized by its lead byte; valid UTF-8 never contains the octets C0, C1 or F5 to FF |
| Utf8.DecodeUtf8 | src/main.rs:53-56 | decoding succeeds exactly when the bytes are valid UTF-8 under RFC 3629, and yields no more characters than there are bytes |
| Utf8.ScalarOf | src/main.rs:53 | a well-formed UTF-8 character always encodes a Unicode scalar value (no surrogate, nothing above U+10FFFF) in its shortest form (no overlong encoding) |
| Utf8.EncodeCharIsUtf8Char | src/main.rs:53 | the encoding of each character is one well-formed UTF-8 character, its lead byte announces its length, and it decodes back to the character |
| Utf8.ScalarOfEncodes | src/main.rs:53 | every well-formed UTF-8 character is the encoding of the scalar value it decodes to |
| Utf8.DecodeEncode | src/main.rs:53-56 | the encoding of any text is valid UTF-8 and decodes back to that text |
| Utf8.EncodeDecode | src/main.rs:53-56 | bytes that decode are exactly the encoding of the decoded text |
| Utf8.ValidIffEncoding | src/main.rs:53-56 | bytes are valid UTF-8 if and only if they are the encoding of some text |
| Numbers.ParseI64 | src/main.rs:60 | a successful integer parse always gives a value in [-2^63, 2^63-1] |
| Numbers.NatDigits | src/main.rs:60 | the reference printer for naturals yields nonempty digit text without leading zeros whose value is the number |
| Numbers.FormatParseRoundTrip | src/main.rs:60 | the integer parse accepts the decimal text of n and returns n exactly when n is in 64-bit signed range; out-of-range text is rejected |
| Numbers.IsF64Literal | src/main.rs:63 | what `parse::<f64>` accepts: an optional sign, then a decimal literal or inf/infinity/nan in any ASCII case; at least one character follows the sign and the text never ends in a sign |
| Numbers.SkipDigits | src/main.rs:63 | the float scanner's digit run ends at the first non-digit, and every character it skips is a digit |
| Numbers.IntegerTextIsFloatText | src/main.rs:60-65 | all text that the integer parse accepts is accepted by the float parse too, which is why the integer rule must come first |
| Numbers.FormatIsFloatText | src/main.rs:63 | the decimal text of any integer, including one outside 64-bit range, is float text |
| Numbers.DecimalLiteralChars | src/main.rs:63 | a decimal float literal contains only digits, `.`, `e`, `E`, `+` and `-` |
| Numbers.InfOrNanHasNoWhitespace | src/main.rs:63 | no text containing whitespace is inf, infinity or nan in any case |
| Numbers.WhitespaceIsNotNumeric | src/main.rs:60-65 | text containing ASCII whitespace anywhere is neither integer nor float text, because nothing is trimmed |
| Classifier.Parse | src/main.rs:52-67 | `parse`: total, no precondition; `Unknown` exactly when the bytes are not valid UTF-8; the other outcomes are characterised by ParseNullIff, ParseIntegerIff, ParseFloatIff and ParseStringIff |
| Classifier.Classify | src/main.rs:57-66 | the rules after decoding never give `Unknown`, and give `Integer` or `Float` exactly for float text, since integer text is float text too |
| Classifier.ParseText | src/main.rs:52-67 | for every text, `parse` of its bytes is the classification of the text |
| Classifier.NullMarkerBytes | src/main.rs:19 | the marker is the four bytes N, U, L, L |
| Classifier.ParseNullIff | src/main.rs:57-59 | null if and only if the bytes are exactly those of `NULL` |
| Classifier.NullMarkerIsNotNumeric | src/main.rs:57-65 | the marker is neither integer nor float text, so the null rule takes nothing away from the numeric rules |
| Classifier.ParseIntegerIff | src/main.rs:60-62 | for valid text, `Integer` if and only if the 64-bit integer parse succeeds |
| Classifier.ParseFloatIff | src/main.rs:63-65 | for valid text, `Float` if and only if the text is float text and the integer parse fails |
| Classifier.ParseStringIff | src/main.rs:57-66 | for valid text, `String` if and only if it is not the marker and not float text |
| Classifier.IntegerTextClassification | src/main.rs:60-65 | the decimal text of n classifies as `Integer` when n is in [-2^63, 2^63-1] and as `Float` otherwise |
| Classifier.WhitespaceTextIsString | src/main.rs:60-66 | valid text with ASCII whitespace anywhere in it, such as " 1", classifies as `String` |
| Classifier.IntegerBoundaryExamples | src/main.rs:60-65 | 2^63-1 and -2^63 are `Integer`; 2^63 and -2^63-1 are `Float` |
| Classifier.PrecedenceExamples | src/main.rs:60-65 | "42" is `Integer` and "42.0" is `Float` |
| Classifier.NullExamples | src/main.rs:57-59 | "NULL" is null; " NULL" and "NULL " are strings |
| Classifier.NullCaseExamples | src/main.rs:57-59 | "null" and "Null" are strings |
| Classifier.WordExamples | src/main.rs:60-66 | "hello" and the empty cell are strings |
| Classifier.PaddedExamples | src/main.rs:60-66 | " 1" and "1 " are strings |
| Classifier.NonNumericExamples | src/main.rs:60-66 | "." and "-" are strings |
| Classifier.SpecialFloatExamples | src/main.rs:63-65 | "inf" and "NaN" are floats (under every toolchain) |
| Classifier.SignedInfinityExample | src/main.rs:63-65 | "-Infinity" is a float (the float grammar of Rust 1.55 and later) |
| Classifier.PointExamples | src/main.rs:63-65 | "1." and ".5" are floats |
| Classifier.ExponentExample | src/main.rs:63-65 | "1e-7" is a float |
| Classifier.UnknownExamples | src/main.rs:53-56 | a lone continuation byte, an overlong form, an encoded surrogate and a value above U+10FFFF are `Unknown` |
| Aggregator.Bump | src/main.rs:74 | one step of the fold adds `f` to the keys and raises only `f`'s count, by exactly one |
| Aggregator.FoldFrom | src/main.rs:70-76 | the fold adds an entry for exactly the keys that occur, never lowers a count, and raises the count of every key that occurs |
| Aggregator.HistogramOf | src/main.rs:69-77 | the fold from the empty map has an entry, of at least 1, for exactly the keys that occur |
| Aggregator.FoldFromCounts | src/main.rs:70-76 | folding from any accumulator adds each key's number of occurrences to its count |
| Aggregator.HistogramCounts | src/main.rs:69-77 | a key has an entry if and only if it occurs; its count is its number of occurrences; every entry is at least 1 |
| Aggregator.KeyInKeys | src/main.rs:21-27 | every result is one of the five keys: null and the four field types |
| Aggregator.OccurrencesAddUp | src/main.rs:69-77 | the occurrences of the five keys add up to the input length |
| Aggregator.HistogramTotal | src/main.rs:69-77 | the counts sum to the input length |
| Aggregator.HistogramPermutation | src/main.rs:69-77 | inputs that are permutations of each other give the same map |
| Aggregator.Histogram | src/main.rs:69-77 | the loop that updates the map in place gives exactly the fold's map: keys are the inputs that occur, each mapped to its number of occurrences |
| Decoder.PushAll | src/main.rs:45-47 | the inner loop appends `parse` of each cell of the record, in order, after what was already pushed |
| Decoder.ReadCsv | src/main.rs:38-50 | the loop pushes `parse` of every cell of every record after the header, row after row, left to right; if the final read at end of input leaves the buffer holding the last record, that record's cells are pushed once more (the as-written result) |
| Decoder.CsvFieldsAsWritten | src/main.rs:43-47 | with the last record left in the buffer, the result has one entry per data cell plus one per cell of the last record |
| Decoder.FlattenAppend | src/main.rs:43-47 | reading one more record appends its cells after the cells already pushed |
| Decoder.FlattenLength | src/main.rs:43-47 | flattening keeps every cell: the length is the total cell count |
| Decoder.FlattenAt | src/main.rs:43-47 | row-major order: cell c of row r lands after all cells of earlier rows, at offset c |
| Decoder.CsvFields | src/main.rs:38-50 | `read_csv`'s result has one entry per data cell; the header's cells are not counted |
| Decoder.CsvFieldsAt | src/main.rs:40-49 | the result at the flat position of cell c of record r (r at least 1) is `parse` of that cell |
| Decoder.HeaderNeverClassified | src/main.rs:40 | replacing the header record changes nothing in the result |
| Decoder.PipelineTotal | src/main.rs:79-82 | over the whole pipeline, the histogram's counts sum to the number of data cells |
| Decoder.RepeatedLastRow | src/main.rs:43-47 | as written, with the last record left in the buffer, the histogram's total exceeds the number of data cells by the last record's width |
| Decoder.ScenarioCellExamples | src/main.rs:60-66 | "1" is `Integer`, "2.5" is `Float` and "x" is `String` |
| Decoder.ScenarioFields | src/main.rs:38-50 | for any header and the rows `1,hello` / `NULL,2.5` / `x,NULL`, the output is Integer, String, null, Float, String, null in that order |
| Decoder.Scenario | src/main.rs:38-67 | for any header and the cells' actual bytes `1,hello` / `NULL,2.5` / `x,NULL`, the output is Integer, String, null, Float, String, null in that order |
| Decoder.ScenarioHistogram | src/main.rs:69-77 | any arrangement of two nulls, two strings, one integer and one float, such as that output, has the histogram null 2, String 2, Integer 1, Float 1 |
| Decoder.EndToEnd | src/main.rs:38-77 | on the example file's actual cell bytes, the histogram is null 2, String 2, Integer 1, Float 1 |
| Decoder.ScenarioFieldsAsWritten | src/main.rs:43-47 | as written, with the last record left in the buffer, cells classified like the example's give eight results, the last row's two repeated |
| Decoder.ScenarioAsWritten | src/main.rs:43-47 | the same on the example file's actual cell bytes: Integer, String, null, Float, String, null, String, null |

The example lemmas in `Classifier` are stated on `Classify`, the rules after decoding. `Classifier.ParseText` shows that `Parse` of any text's bytes equals `Classify` of the text. Together they state each example for `parse` itself.

## Left out

- `read_file` (src/main.rs:29-36): filesystem I/O. The model starts from the byte cells.
- `go` and `main` (src/main.rs:79-94): printing the map, the stderr message and the process exit. `Decoder.PipelineTotal` relates the two stages that `go` chains.
- The dhat allocator and heap profiling (src/main.rs:4-5, 13-17, 87-88): they have no behaviour.
- The benchmark (src/main.rs:96-112): it only measures time.
- CSV tokenising by the `csv` crate (`Reader::from_reader`, `headers`, `read_byte_record`, `is_done`). The crate is not part of this model, so records arrive already split, and its quoting rules and errors are not modelled.
  - The panics from `unwrap` on a malformed record, or on a header that is not UTF-8, are outside the model.
  - So is the crate's check that every record has as many fields as the header.
  - What the read that meets the end of input leaves in the reused record is up to the crate. `Decoder.ReadCsv` takes it as a parameter: either the read empties the buffer, or it leaves the last record there. The loop at src/main.rs:43-47 ignores the read's result, so in the second case the last record is pushed twice (see Findings). The rest of the model, `CsvFields` and every lemma about it, describes the first case: each data cell classified once.
- An empty input (no header record) gives an empty result here. Whether the crate fails on it instead happens inside the crate.
- The parsed `f64` and `i64` values are not carried into the result. `parse` only asks whether each parse succeeds, so the float rule is modelled as grammar acceptance.
- `IsF64Literal` follows the float grammar of the standard library from Rust 1.55 on:
  - an optional sign;
  - digits with an optional point and at least one digit;
  - an optional exponent;
  - or `inf`, `infinity` or `nan`, ignoring ASCII case.

  Which special words are accepted depends on the toolchain that builds the program, and the model follows Rust 1.55 and later. Older toolchains accepted exactly `inf` and `NaN`, each with an optional sign. Under them, `-Infinity`, `nan` and `INF` classify as `String`.
- Aggregator.Histogram: counts are unbounded integers rather than `i64`. An `i64` count would overflow only after 2^63 cells.
- The `HashMap`'s hashing and iteration order are not modelled. The map is a Dafny `map`, and only its contents are observable.
- `from_utf8`, `parse::<i64>` and `parse::<f64>` are standard-library code. They are modelled as functions that define what each accepts, not as the library's own scanning loops.

## Findings

| source | as written | input that shows it | evidently intended | confidence | as-written member | corrected member |
|---|---|---|---|---|---|---|
| src/main.rs:43-47 | the loop ignores the result of `read_byte_record` and pushes the buffer's cells even after the read that meets the end of input | any header, then the rows `1,hello`, `NULL,2.5`, `x,NULL`: if that final read leaves the buffer holding `x,NULL`, the result has eight entries ending String, null, String, null, and the histogram counts 8 cells for 6 | each data cell classified exactly once (six results; counts sum to the number of data cells) | not executed; rests on the `csv` crate leaving the buffer untouched when a read returns no record, and that crate is not part of this model | Decoder.ScenarioAsWritten | Decoder.PipelineTotal |
