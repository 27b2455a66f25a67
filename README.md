# linr — a verified model of line-based console input

linr is a small C++ header library for reading typed values from a
line of console input. A `read<int, bool, std::string>(prompt, ' ')` call
goes through the same steps every time:

1. It checks the error indicator of stdin.
2. It writes the prompt to stdout.
3. It reads one line into a zero-filled buffer with `fgets`, doubling the
   buffer until the line fits.
4. It splits the line at a delimiter into exactly as many fields as values
   are wanted, skipping runs of delimiters.
5. It parses each field with a user-declared `CustomParser<T>` or with the
   built-in `DefaultParser<T>`.

The result is a `Result`: either all the values or one `Error`. The
`BufReader` class does the same over a stream of the caller's choice. It
keeps its line buffer from one read to the next.

The model has one module per header:

| module | file | models |
|---|---|---|
| `Common` | common.dfy | the `Error` enumeration, its stream/parse classes, `to_string`, `Result`, `make_result`, `make_error` |
| `Util` | util.dfy | `util::split<N>`, as a method over an array of `N` views, proved against the span function `FieldSpans` |
| `DefaultParser` | default_parser.dfy | the `char`, `bool`, integer and `std::string` parsers |
| `Parser` | parser.dfy | `parse<T>` (custom parser first, default otherwise), `parse_into_tuple` and `parse_array` |
| `LineReader` | line_reader.dfy | `fgets`, the `FgetsReader` and `BufFgetsReader` readline loops, as methods over arrays, proved against the function `Fill` |
| `ReadImpl` | read_impl.dfy | both `read_impl` overloads (tuple and array), with the end-to-end specification `ReadSpec` |
| `Read` | read.dfy | the four free `read` overloads |
| `BufRead` | buf_read.dfy | the `BufReader` class |

Modelling choices:

- **Characters and streams.** Characters are Dafny `char`; a line is a
  `seq<char>`, and NUL is `'\0'`. A C stream is a `Stream` object holding
  the characters not yet read and its error indicator. stdout is a `Sink`
  holding what has been written.
- **Types and parsers.** Field types are the datatype `FieldType` and
  values are `Val`. The declared custom parsers form a `Registry`: a
  function from types to optional parse functions.
- **Integers.** Integer types are given by their limits. The integer
  parser models `std::from_chars` in base 10 (section 22.13.3 of ISO C++
  2023):
  - an optional '-', accepted only for a signed type;
  - the longest run of decimal digits;
  - `invalid_argument` when there is no digit, `result_out_of_range` when
    the value does not fit;
  - characters after the digits are ignored.

Two behaviours of the code, as written, shape what the model proves:

- **The last field keeps the newline.** `find_delim_or_null` stops at the
  delimiter or at NUL, but not at '\n'. So the last field of a
  newline-terminated line keeps its '\n':
  - `"1 2\n"` split at `' '` gives `"1"` and `"2\n"` (`Util.SplitKeepsNewline`);
  - `read<bool>()` on the line `"true\n"` is invalid input, while `"1\n"`
    gives `true` (`ReadImpl.ReadBoolLine`);
  - integers are unaffected, because `from_chars` stops at the first
    non-digit.

  The model keeps this behaviour as written.
- **Call sites that do not match the parameters they call.** Both
  `read_impl` overloads call `reader.readline()` with no stream
  (include/linr/detail/read.hpp:22 and :46), but every reader's `readline`
  takes the stream to read (include/linr/detail/line_reader.hpp:24). Every
  read goes through that call, `BufReader`'s included. `BufReader` also
  passes its stream to `read_impl` as an extra first argument
  (include/linr/buf_read.hpp:37), and `read_impl` has no parameter for it.
  The model reads the line from the intended stream: stdin for the free
  functions, the bound stream for `BufReader`. The error check stays on
  stdin, as written, whatever the stream.
- **Re-typing results.** Each built-in parser returns a `Result` of its own
  C++ type. The helper `Common.Map` lifts it to a `Result<Val>`, so that
  all fields share one value type.

## Model

| member | source | states |
|---|---|---|
| Common.Code | include/linr/common.hpp:33-42 | bit 0b0100 is set exactly on the two stream errors, as the enumeration's grouping says, and no code is zero |
| Common.ToString | include/linr/common.hpp:50-62 | every error has a non-empty message of its own, so the fallback "Unknown error" is never returned |
| Common.IsStreamError | include/linr/common.hpp:69-72 | a stream error is exactly one whose code has bit 0b0100 set |
| Common.IsParseError | include/linr/common.hpp:79-82 | the parse errors are exactly InvalidInput and OutOfRange |
| Common.ErrorClasses | include/linr/common.hpp:33-82 | every error is in exactly one of the two classes, and bit 0b0100 of its code says which |
| Common.ErrorsDistinguishable | include/linr/common.hpp:33-62 | distinct errors have distinct codes and distinct descriptions |
| Common.Result.ValueOr | include/linr/common.hpp:113-114 | the held value on success, the default on error |
| Common.MakeResult | include/linr/common.hpp:142-150 | yields a success holding the given value |
| Common.MakeError | include/linr/common.hpp:152-160 | yields a failure holding the given error |
| Common.Result.HasValue | include/linr/common.hpp:120-122 | true exactly when the result holds no error: a result holds one of the two, never both |
| Util.SkipDelims | include/linr/util.hpp:34-36 | the index reached lies between the start and the end of the text |
| Util.SkipDelimiters | include/linr/util.hpp:34-36 | the inner loop stops exactly where `SkipDelims` says |
| Util.SkipDelimsRun | include/linr/util.hpp:34-36 | everything skipped is a delimiter, and the loop stops on a non-delimiter or at the end |
| Util.FindDelimOrNull | include/linr/util.hpp:26-31 | a found index lies at or after the start and holds the delimiter or NUL |
| Util.FindDelimOrNullClear | include/linr/util.hpp:26-31 | no delimiter and no NUL lies before the index found, or before the end when none is found |
| Util.SplitSpec | include/linr/util.hpp:18-59 | a result, when there is one, holds exactly `n` fields |
| Util.Split | include/linr/util.hpp:18-59 | the loop with its three exits returns the first `n` spans of `FieldSpans` when there are that many, and no result otherwise |
| Util.ScanRound | include/linr/util.hpp:33-52 | one round of the outer loop cuts span `i` and either ends the scan or resumes right after the delimiter |
| Util.FieldSpansWellFormed | include/linr/util.hpp:33-52 | the spans lie in the text in increasing order; they hold no delimiter and no NUL; only delimiters separate them; they are non-empty except possibly the last; each starts past the whole run of delimiters before it and ends at a delimiter, a NUL or the end of the text |
| Util.WellFormedUnique | include/linr/util.hpp:33-52 | two sequences of spans of the same length that both have that shape from the same index are equal, so the shape determines the fields |
| Util.SplitFields | include/linr/util.hpp:18-59 | split succeeds exactly when the line has at least `n` fields; each field then holds no delimiter and no NUL, every field but the last is non-empty, and the fields are exactly the texts of any `n` spans of that shape from the start of the line |
| Util.SplitPrefix | include/linr/util.hpp:33-58 | splitting into fewer fields gives a prefix of splitting into more |
| Util.SplitNothing | include/linr/util.hpp:33 | an empty line, or one starting with NUL or '\n', has no field, so only `split<0>` succeeds |
| Util.SplitOnlyDelims | include/linr/util.hpp:33-47 | a run of delimiters alone is one empty field, never two |
| Util.SplitOneWord | include/linr/util.hpp:38-42 | a word without delimiter or NUL splits into itself alone |
| Util.WholeLine | include/linr/util.hpp:38-47 | splitting at '\n' returns the line without its terminator |
| Util.FieldSpansPadded | include/linr/util.hpp:26-52 | nothing after the first NUL affects the spans |
| Util.SplitPadded | include/linr/util.hpp:18-59 | nothing after the first NUL affects the split, so the buffer's zero padding is never seen |
| Util.SplitSkipsRuns | include/linr/util.hpp:34-36 | `"  1   2  3"` splits into `"1"`, `"2"`, `"3"` |
| Util.SplitKeepsNewline | include/linr/util.hpp:26-31 | the last field of a newline-terminated line keeps its '\n' |
| DefaultParser.ParseCharAsWritten | include/linr/detail/default_parser.hpp:20 | the first byte of the view, defined only for a non-empty view |
| DefaultParser.ParseChar | include/linr/detail/default_parser.hpp:20 | succeeds exactly on a non-empty field, with its first character; the empty field is invalid input |
| DefaultParser.ParseCharAgrees | include/linr/detail/default_parser.hpp:20 | wherever the parser as written is defined, the corrected one agrees with it |
| DefaultParser.ParseString | include/linr/detail/default_parser.hpp:81-84 | the string parser never fails and returns the field unchanged |
| DefaultParser.ToLower | include/linr/detail/default_parser.hpp:38 | C-locale `tolower`: upper-case ASCII letters map to lower case, every other character to itself |
| DefaultParser.Lower | include/linr/detail/default_parser.hpp:36-39 | same length, each character lowered |
| DefaultParser.Window | include/linr/detail/default_parser.hpp:29-39 | the six-byte buffer always has six bytes |
| DefaultParser.ParseBool | include/linr/detail/default_parser.hpp:27-54 | the copy-and-lower loop into the zeroed six-byte buffer, then the comparisons, compute `BoolValue` |
| DefaultParser.BoolValue | include/linr/detail/default_parser.hpp:41-53 | a leading '0' or '1' decides the value whatever follows, and the only error is InvalidInput |
| DefaultParser.WindowIsWord | include/linr/detail/default_parser.hpp:29-39 | the buffer equals a NUL-padded literal exactly when the lowered field equals the literal's word |
| DefaultParser.BoolWords | include/linr/detail/default_parser.hpp:27-54 | true exactly for a leading '1' or a case-insensitive "true", and false likewise for '0' or "false" |
| DefaultParser.BoolAccepts | include/linr/detail/default_parser.hpp:27-54 | "TRUE", "False" and "10" are accepted |
| DefaultParser.BoolRejects | include/linr/detail/default_parser.hpp:27-54 | "yes", "", "truex" and "true\n" are rejected |
| DefaultParser.DigitRun | include/linr/detail/default_parser.hpp:65 | the longest run of decimal digits from a position |
| DefaultParser.FromChars | include/linr/detail/default_parser.hpp:65 | a value is stored exactly when there is no error, and it is in range; the end position stays within the field |
| DefaultParser.ParseInteger | include/linr/detail/default_parser.hpp:62-74 | a value is always in range; errors are always parse errors |
| DefaultParser.IntegerInvalid | include/linr/detail/default_parser.hpp:67-68 | invalid input exactly when no digit follows the optional sign |
| DefaultParser.DecimalShowNat | include/linr/detail/default_parser.hpp:65 | reading back the decimal digits of a number gives the number |
| DefaultParser.IntegerRoundTrip | include/linr/detail/default_parser.hpp:62-74 | a number in range, written in decimal and followed by anything but a digit, parses back to itself |
| DefaultParser.IntegerOutOfRange | include/linr/detail/default_parser.hpp:69-70 | a well-formed number outside the type's range is OutOfRange |
| DefaultParser.IntegerTrailing | include/linr/detail/default_parser.hpp:65-73 | trailing characters are ignored: "12\n" and "12abc" give 12 |
| DefaultParser.IntegerLeast | include/linr/detail/default_parser.hpp:62-74 | "-128" fits an 8-bit signed type |
| DefaultParser.IntegerPastMax | include/linr/detail/default_parser.hpp:69-70 | "128" overflows an 8-bit signed type and "256" an 8-bit unsigned one |
| DefaultParser.IntegerSyntax | include/linr/detail/default_parser.hpp:67-68 | "-1" for an unsigned type, "+1", " 1" and "" are invalid input |
| DefaultParser.DefaultParse | include/linr/parser.hpp:45 | a built-in parser yields a value of its type or a parse error, never a stream error |
| Parser.Parse | include/linr/parser.hpp:39-47 | a successful parse has the field's type whenever the custom parser, if any, is typed as the concepts require; without a custom parser every error is a parse error |
| Parser.ParseChooses | include/linr/parser.hpp:39-47 | a declared custom parser is used; otherwise the default parser, which then exists |
| Parser.Declare | include/linr/parser.hpp:20-26 | declaring a parser for one type leaves every other type's parser as it was |
| Parser.DeclareOverrides | include/linr/parser.hpp:39-47 | a custom parser overrides a built-in type's default and changes how no other type parses |
| Parser.Collect | include/linr/parser.hpp:61-64 | result `k` is the parse of field `k` with type `k` |
| Parser.Repeat | include/linr/parser.hpp:89-90 | `n` copies of the element type |
| Parser.FirstFailure | include/linr/parser.hpp:66-71 | every result before the index succeeded, and the one at the index failed |
| Parser.Values | include/linr/parser.hpp:76-78 | the values of all-successful results, in order |
| Parser.AggregateSpec | include/linr/parser.hpp:56-80 | success exactly when every field parses, the values in field order; otherwise the error of the lowest-index failing field |
| Parser.ParseIntoTuple | include/linr/parser.hpp:56-80 | parses every field in index order, counting each call, even past a failing one; then keeps the first error in index order; the result is the aggregate and exactly one parser call is made per field |
| Parser.ParseArray | include/linr/parser.hpp:89-103 | the same aggregate, but stopping at the first failure: exactly the fields up to and including it are parsed |
| LineReader.Zeros | include/linr/detail/line_reader.hpp:147 | `n` NUL bytes |
| LineReader.LineLength | include/linr/detail/line_reader.hpp:152 | the first line is non-empty exactly when there is input left |
| LineReader.LineLengthSpec | include/linr/detail/line_reader.hpp:152 | the first line holds no '\n' except as its last character, which is '\n' unless the input ends |
| LineReader.FgetsCount | include/linr/detail/line_reader.hpp:152 | `fgets` moves at most `n - 1` characters, and at least one when input is left |
| LineReader.Fgets | include/linr/detail/line_reader.hpp:152-154 | copies up to `n - 1` characters, stopping after '\n', and writes a NUL after them; at end of file it fails and changes nothing |
| LineReader.Fill | include/linr/detail/line_reader.hpp:150-167 | the loop consumes no more than the input, keeps the NUL inside the buffer, and only grows the buffer |
| LineReader.FillStep | include/linr/detail/line_reader.hpp:159-166 | the byte at `size - 2` decides between stopping and doubling the buffer to go on from `size - 1` |
| LineReader.Round | include/linr/detail/line_reader.hpp:152-162 | one round of `fgets`: the buffer still holds the input read so far, followed by zeros |
| LineReader.Grow | include/linr/detail/line_reader.hpp:166 | `resize(2 * size, '\0')`: the old bytes, then zeros |
| LineReader.ReadInto | include/linr/detail/line_reader.hpp:150-169 | no line at end of file before any character; otherwise the whole final buffer is the consumed input followed by zeros, the size `Fill` gives, and the stream continues after the consumed input |
| LineReader.FgetsReadline | include/linr/detail/line_reader.hpp:145-170 | the read starts from a fresh 256-byte buffer |
| LineReader.BufFgetsReader.constructor | include/linr/detail/line_reader.hpp:186-189 | a zeroed buffer of the given size; any size is accepted |
| LineReader.BufFgetsReader.Readline | include/linr/detail/line_reader.hpp:199-224 | zero-fills the kept buffer, then reads as `ReadInto` does; the buffer keeps its size at end of file and otherwise takes the size the loop grew to (`NextSize`), and it holds the returned line |
| LineReader.FillDoubles | include/linr/detail/line_reader.hpp:165-166 | the final buffer size is the initial size doubled some number of times |
| LineReader.FillLine | include/linr/detail/line_reader.hpp:150-167 | on a line free of NUL, the read consumes exactly the first line, '\n' included, whatever the buffer size |
| LineReader.LineView | include/linr/detail/line_reader.hpp:145-170 | such a line comes back as its characters followed by at least one NUL |
| LineReader.LineFits | include/linr/detail/line_reader.hpp:160-162 | a line that fits with its NUL needs no growth |
| LineReader.LineFillsBuffer | include/linr/detail/line_reader.hpp:152-166 | a final line without '\n' that exactly fills the buffer is still returned, in a buffer twice the size |
| LineReader.NextSize | include/linr/detail/line_reader.hpp:201-220 | the buffer never shrinks, and after a line it is larger than what was consumed |
| LineReader.NulLineCapacity | include/linr/detail/line_reader.hpp:214-216 | a line with a NUL is cut at the NUL by a 4-byte buffer but read whole by an 8-byte one, so the size kept between reads matters |
| ReadImpl.WritePrompt | include/linr/detail/read.hpp:18-20 | the prompt, if any, is appended to stdout |
| ReadImpl.ReadlineFrom | include/linr/detail/read.hpp:22 | reads as the chosen reader does, from its current capacity; a buffered reader is left with exactly `NextSize`, a fresh one is discarded |
| ReadImpl.ReadTupleImpl | include/linr/detail/read.hpp:10-32 | when stdin's error indicator is set: Unknown, with nothing written and nothing read; otherwise the prompt is written and the result is `ReadSpec`, with the stream advanced past the line read and a buffered reader left at `NextSize` |
| ReadImpl.ReadArrayImpl | include/linr/detail/read.hpp:34-56 | the same, with `n` fields of one type parsed until the first failure |
| ReadImpl.ReadTypedValues | include/linr/detail/read.hpp:27-29 | a successful read holds one value per type, each of its type |
| ReadImpl.Unwrap | include/linr/read.hpp:34-37 | a one-field result becomes that field's value on success and keeps its error on failure |
| ReadImpl.ReadArityHolds | include/linr/detail/read.hpp:27-29 | a successful read holds one value per type |
| ReadImpl.ReadAtEnd | include/linr/detail/read.hpp:22-25 | with no input left the result is EndOfFile, whatever the parsers |
| ReadImpl.ReadDefaultStages | include/linr/detail/read.hpp:10-32 | with built-in parsers: EndOfFile exactly when the input is exhausted, otherwise a parse error; a success holds values of the requested types |
| ReadImpl.ReadCleanLine | include/linr/detail/read.hpp:22-29 | on a line free of NUL the result depends only on the line, not on the buffer size, and exactly that line is consumed |
| ReadImpl.ReadCapacityIrrelevant | include/linr/detail/line_reader.hpp:145-224 | the fresh reader and a buffered reader of any size agree on such a line |
| ReadImpl.ReadCharOfBlanks | include/linr/detail/read.hpp:27-29 | a last line of blanks hands the empty field to the char parser, outside the domain of the parser as written; the corrected parser gives InvalidInput |
| ReadImpl.ReadBoolLine | include/linr/util.hpp:26-31 | `read<bool>` of the line "true\n" is InvalidInput, while "1\n" gives true |
| ReadImpl.ReadWholeLine | include/linr/read.hpp:45-53 | a whole-line read returns the line without '\n', spaces and all |
| ReadImpl.ReadEmptyLine | include/linr/read.hpp:45-53 | an empty line has no field, so a whole-line read of it is InvalidInput |
| Read.ReadTuple | include/linr/read.hpp:14-20 | the pipeline on stdin from a fresh 256-byte reader |
| Read.ReadOne | include/linr/read.hpp:28-38 | the single value of the one-field pipeline, or its error |
| Read.ReadLine | include/linr/read.hpp:45-53 | the one-field pipeline on a string split at '\n', its string taken out |
| Read.ReadArray | include/linr/read.hpp:61-66 | the array pipeline on stdin from a fresh reader |
| BufRead.BufReader.OnStdin | include/linr/buf_read.hpp:15-19 | a reader on stdin with a zeroed buffer of the given size; any size is accepted, and the reader can read exactly when the size is at least 2 |
| BufRead.BufReader.constructor | include/linr/buf_read.hpp:21-25 | a reader on the given stream with a zeroed buffer of the given size; any size is accepted, and the reader can read exactly when the size is at least 2 |
| BufRead.BufReader.SetStream | include/linr/buf_read.hpp:83 | later reads use the new stream |
| BufRead.BufReader.GetStream | include/linr/buf_read.hpp:85 | the bound stream |
| BufRead.BufReader.ReadTuple | include/linr/buf_read.hpp:33-38 | the pipeline on the bound stream, from the kept buffer's current size, which it leaves at exactly `NextSize` for the next read |
| BufRead.BufReader.ReadOne | include/linr/buf_read.hpp:46-55 | the single value of the one-field pipeline, or its error; the buffer is left at `NextSize` |
| BufRead.BufReader.ReadLine | include/linr/buf_read.hpp:62-69 | a whole line as a string, split at '\n'; the buffer is left at `NextSize` |
| BufRead.BufReader.ReadArray | include/linr/buf_read.hpp:77-81 | the array pipeline on the bound stream; the buffer is left at `NextSize` |

## Left out

- The `GetlineReader` and `BufGetlineReader` readers (include/linr/detail/line_reader.hpp:27-134): they exist only on glibc with `LINR_ENABLE_GETLINE`. The model takes the `fgets` configuration.
- Floating-point fields: `from_chars` for `float` and `double` is not modelled.
- Read errors during `fgets`: a stream's error indicator is modelled only as set before the call, and `fgets` never fails midway. In the source, a read error during the first `fgets` makes `readline` return nothing (include/linr/detail/line_reader.hpp:153-154), so `read_impl` reports EndOfFile rather than Unknown (include/linr/detail/read.hpp:23-24). The model does not capture this.
- `tolower` is modelled for the C locale only. A byte of 0x80 or more in a signed plain `char` is negative, and `std::tolower` of it is undefined (include/linr/detail/default_parser.hpp:38). The model leaves such characters unchanged.
- DefaultParser.ToLower: maps only ASCII letters, so it is weaker than a locale-dependent `tolower`.
- The `static_cast<int>` of the buffer size given to `fgets`: sizes are unbounded, so a buffer past `INT_MAX` bytes is not modelled.
- LineReader.BufFgetsReader.Readline, BufRead.BufReader.ReadTuple, BufRead.BufReader.ReadOne, BufRead.BufReader.ReadLine, BufRead.BufReader.ReadArray: require a buffer of at least 2 bytes. The constructors accept any size, as the source does. With size 1, a read indexes the byte at `size - 2`, which is out of bounds. With size 0, `fgets` gets a count of 0; whether it returns null there is implementation-defined. glibc does, and the read then reports EndOfFile without indexing the buffer (include/linr/detail/line_reader.hpp:205-208). Reads on buffers of size 0 or 1 are not modelled.
- `to_string`'s fallback "Unknown error" (include/linr/common.hpp:61): unreachable for the four enumerators, so it is not modelled. `Common.ToString` proves it is never returned.
- Default arguments: the source's `read` overloads default the prompt to `std::nullopt` and the delimiter to `' '` (include/linr/read.hpp:16, 30, 62; include/linr/buf_read.hpp:35, 48, 78), and the whole-line reads default the prompt (include/linr/read.hpp:45; include/linr/buf_read.hpp:62). Dafny has no default arguments, so every model read takes them explicitly.
- The line view aliases the buffer. The model returns a copy, so a later read overwriting an earlier line's view is not captured.
- Common.Result: the `std::variant` storage, references and moves are not modelled. Only the value-or-error distinction is.
- Compile-time checks are not modelled: the `movable` requirements, the `Parseable` concepts as templates, and `std::span` extents. Arity limits become `requires` clauses; parsers are modelled as a `Registry` value.
- DefaultParser.BoolWords: stated for fields free of NUL. A NUL inside the first six bytes compares like padding.
- The example programs and the benchmark are not modelled.

## Findings

| source | as written | input that shows it | evidently intended | confidence | as-written member | corrected member |
|---|---|---|---|---|---|---|
| include/linr/detail/default_parser.hpp:20 | the `char` parser returns `str[0]` without checking that the view is non-empty | a last line of blanks with no '\n', e.g. `"  "` read with delimiter `' '`: split yields one empty field, so `str[0]` reads out of bounds (`ReadImpl.ReadCharOfBlanks`) | the empty field is rejected as InvalidInput | not executed | DefaultParser.ParseCharAsWritten | DefaultParser.ParseChar |
