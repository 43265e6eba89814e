# macbat battery report parser, in Dafny

macbat prints four rows about a Mac's battery: raw health, temperature,
cycle count and charge. It gets the numbers by reading the text that
`ioreg -w 0 -r -c AppleSmartBattery` prints. The program exists twice, in
Rust (`src/main.rs`) and in Go (`main.go`). This project models the parts of
both that carry logic:

- the loop that fills an `Info` record from the report. It splits each line
  on `=`, trims the key and strips its quotes, matches it against six known
  names, and overwrites the matching field with a number or a `Yes` test;
- the row formatter (`format_opt` / `formatOpt`);
- the choice of charging arrow.

Modules:

- `Text`: whitespace and quote trimming, and splitting on a separator. These
  stand for `str::trim`, `trim_matches`, `strings.TrimSpace`, `strings.Trim`,
  `str::split` and `strings.Split`.
- `Decimal`: integer literals. It covers Rust's `parse::<isize>`, Go's
  `strconv.Atoi` (syntax error gives 0, out of range gives the 64-bit bound)
  and decimal rendering.
- `Battery`: the `Snapshot` (the `Info` record), the six keys, how a line
  splits into key and value, and a generic fold of a per-line step over the
  report. It proves, once for both programs:
  - the first failure ends the run;
  - a run succeeds exactly when each line does;
  - the last line naming a field wins;
  - parsing is idempotent.
- `RustMain`: the Rust program. `ParseReport` is the loop as a `method`,
  proved equal to the functional `Run`. A panic is an `Err` carrying a
  `Failure`.
- `GoMain`: the Go program. `ParseOutput` is the loop as a `method`, proved
  equal to `Parse`. `formatOpt` is built on a model of `fmt.Sprintf` for `%s`
  directives.
- `Dialects`: where the two programs agree (constants, rows, arrows, and the
  snapshot for well-formed reports) and the inputs on which they differ.

The temperature is kept as the integer reading in hundredths of a degree
(3200 stands for 32.00 °C). Both programs are taken to run on 64-bit
targets, so `isize` and Go's `int` hold [-2^63, 2^63-1].

Two behaviours of the parser are easy to miss, and the model follows the
code:

- A line without `=` is not always skipped. Rust panics in `value.unwrap()`
  when the line's key is one of the six. Go panics on `parsed[1]` for any
  line it scans that has no `=`.
- The value is not everything after the first `=`. It is only the text
  between the first and second `=`: `k = a = b` gives `a`.

## Model

| member | source | states |
|---|---|---|
| Text.StripStartShape | src/main.rs:104 | leading trim removes exactly a prefix of dropped characters and stops at the first kept one |
| Text.StripEndShape | src/main.rs:104 | trailing trim removes exactly a suffix of dropped characters and stops at the last kept one |
| Text.StripIsSlice | src/main.rs:104 | trimmed text is a slice of the input with only dropped characters cut on each side, and it neither starts nor ends with one |
| Text.StripEnclosed | src/main.rs:104 | trimming `w1 + x + w2` gives `x` when the `w`s are all dropped characters and `x` starts and ends with kept ones |
| Text.StripIdempotent | src/main.rs:104 | trimming twice is trimming once |
| Text.StripKeeps | src/main.rs:104 | trimming never introduces a character |
| Text.IndexOf | src/main.rs:100 | the first position of the separator, or -1 exactly when it is absent |
| Text.Split | src/main.rs:100 | at least one piece; just the text itself when the separator is absent, at least two pieces when it occurs |
| Text.SplitSnocSep | src/main.rs:100 | a separator at the end of the text adds exactly one empty last piece |
| Text.JoinSplit | src/main.rs:100 | joining the pieces with the separator gives the text back |
| Text.SplitPiecesFree | src/main.rs:100 | no piece holds the separator |
| Text.SplitJoin | src/main.rs:100 | splitting undoes joining pieces that hold no separator |
| Text.SplitCons | main.go:109 | splitting at the first separator peels off the text before it |
| Text.SplitKeeps | src/main.rs:99 | a character absent from the text is absent from every piece |
| Text.JoinSnoc | src/main.rs:99 | the last piece follows the last separator |
| Decimal.ParseIsize | src/main.rs:106 | succeeds exactly on a signed decimal literal whose value fits in 64 bits, and then gives that value |
| Decimal.Atoi | main.go:116 | always a 64-bit value; on a literal, the literal clamped to 64 bits; on anything else 0 or a bound |
| Decimal.Clamp | main.go:116 | within 64 bits; the identity inside, the nearer bound outside |
| Decimal.ParseShowInt | src/main.rs:106-112 | the integer literal read from a rendered integer is that integer |
| Decimal.ParseIsizeShowInt | src/main.rs:106 | Rust's parse reads back every rendered 64-bit integer |
| Decimal.AtoiShowInt | main.go:116 | Go's Atoi reads back every rendered 64-bit integer |
| Decimal.AtoiAgreesWithParseIsize | main.go:116 | wherever Rust's parse succeeds, Atoi gives the same number |
| Decimal.AtoiOfNonNumber | main.go:116 | text not starting with a digit (after an optional sign) gives 0 |
| Decimal.AtoiSyntaxError | main.go:115-122 | a non-literal gives 0 whenever at most 19 digits precede its first bad character, so no range error comes first |
| Decimal.AtoiShortSyntaxError | main.go:115-122 | every non-literal of at most 20 characters (`12x`, `4.5`, the empty text) gives 0 |
| Decimal.DigitsValueBound | main.go:116 | n decimal digits denote less than 10^n |
| Decimal.ShowIntChars | src/main.rs:106-112 | a rendered integer is nonempty, with digits and an optional leading `-` |
| Battery.FieldOfKeyName | src/main.rs:104-116 | exactly the six names are recognised, each naming its own field |
| Battery.KeyShape | src/main.rs:100-104 | a key never holds `=` and never starts or ends with a quote |
| Battery.ValueOf | src/main.rs:102 | there is a value exactly when the line has an `=` |
| Battery.Store | src/main.rs:106-112 | the chosen integer field takes the new value and every other field is unchanged |
| Battery.AllFieldsSame | src/main.rs:13-21 | snapshots agreeing on all six fields are equal |
| Battery.PropertyLineFields | src/main.rs:100-104 | a property line gives back its key and value; text up to the next `=` joins the value, and anything after a second `=` is ignored |
| Battery.PrintedFields | src/main.rs:100-104 | a property line on its own has an `=` and reads back as exactly its key and value |
| Battery.PrintedNumber | src/main.rs:100-104 | a printed number property names its field and carries its digits as the value |
| Battery.PrintedFlag | src/main.rs:100-105 | a printed `IsCharging` property names the flag and carries `Yes` or `No` |
| Battery.TakeField | src/main.rs:100 | the text before the first `=` holds no `=` and is the first piece of splitting on `=` |
| Battery.TakeFieldAppend | src/main.rs:100 | the text before the first `=` of `x + y`, when `x` holds none, is `x` followed by that of `y` |
| Battery.SampleFold | src/main.rs:98-120 | a step that reads each sample property back turns the sample report into the sample snapshot |
| Battery.FoldStep | src/main.rs:99-120 | one more line applies the step to what came before, and a failure there is the failure of the whole report |
| Battery.FoldPrefix | src/main.rs:99-120 | a prefix one line longer is the step applied to the shorter prefix's result |
| Battery.FoldAppend | src/main.rs:99-120 | running over `a + b` is running over `a`, then over `b` from where `a` left off |
| Battery.FoldSame | src/main.rs:99-120 | two steps that agree and succeed on every line give the same successful run |
| Battery.FoldSkipsFrame | main.go:108 | a step that passes over the first two lines and the last gives the run of the inner lines |
| Battery.FoldFailureSticks | src/main.rs:99-120 | once a prefix fails, the whole report fails the same way |
| Battery.FoldSucceeds | src/main.rs:99-120 | with a keyed step, the report succeeds exactly when every line succeeds on its own |
| Battery.LastWrite | src/main.rs:103-117 | the last line naming the field, and no later line names it |
| Battery.LastWriteWins | src/main.rs:103-117 | each field ends as the last line naming it wrote it, or keeps its start value when none does |
| Battery.Reparse | src/main.rs:98-120 | reading the same lines again over the result changes nothing |
| RustMain.FormatOpt | src/main.rs:89-91 | the row starts with the color, ends with the reset, and adds 30 characters of styling to its four parts |
| RustMain.ChargingSymbol | src/main.rs:42 | `⇡` exactly when charging, `⇣` exactly when not |
| RustMain.StdoutLinesNewline | src/main.rs:99 | a final newline ends the last line and adds none: the lines of output with no `\r` followed by a newline are the pieces between newlines of the output before it |
| RustMain.TerminatedEmptyLast | src/main.rs:99 | `lines()` does not yield the empty text after a final newline, and lines without `\r` keep their text |
| RustMain.StdoutLinesPlain | src/main.rs:99 | for output with no `\r` and no final newline, the lines are the pieces between newlines and join back to the output |
| RustMain.Unwrap | src/main.rs:105 | succeeds exactly when the segment after `=` exists |
| RustMain.RawValue | src/main.rs:100-102 | absent exactly when the line has no `=`; trimmed, it is the line's value |
| RustMain.NamedByField | src/main.rs:104-116 | comparing the key with the six names in turn is dispatching on the field the key names |
| RustMain.ParseReport | src/main.rs:98-120 | the loop from the default `Info` returns the fold of the line step over the output's lines |
| RustMain.UnknownKeyIgnored | src/main.rs:103-118 | a line whose key is not one of the six changes nothing, with or without `=` |
| RustMain.MissingValueFails | src/main.rs:105-114 | a recognised key without `=` panics with a missing value |
| RustMain.ChargingIsYes | src/main.rs:105 | `IsCharging` never fails; it becomes true exactly when the value is `Yes`, and nothing else changes |
| RustMain.CountParsed | src/main.rs:106-112 | a capacity or cycle count takes the 64-bit decimal value; anything else panics with an invalid number |
| RustMain.ApplyCount | src/main.rs:106-112 | the count arms store the parsed 64-bit value or fail with the trimmed text |
| RustMain.TemperatureParsed | src/main.rs:113-115 | the temperature takes the integer reading; a value that is not an integer literal panics |
| RustMain.ApplyTemperature | src/main.rs:113-115 | the temperature arm stores the integer reading or fails with the trimmed text |
| RustMain.ReadsPrintedNumber | src/main.rs:104-115 | a number property printed as `ioreg` prints it reads back as that number in its field |
| RustMain.ReadsPrintedFlag | src/main.rs:105 | a printed `IsCharging` property reads back as the flag |
| RustMain.SampleFlagRead | src/main.rs:105 | the sample's first line sets the charging flag from any snapshot |
| RustMain.SampleNumbersRead | src/main.rs:106-115 | each later sample line stores its number from any snapshot |
| RustMain.SampleParsed | src/main.rs:98-120 | the six sample properties give charging, 5000/4000/5500 mAh, 120 cycles and 3200 hundredths of a degree |
| RustMain.StepIsKeyed | src/main.rs:103-117 | a line fails or succeeds regardless of the snapshot, writes only the field its key names, and writes it the same way from any snapshot |
| RustMain.ApplyKeyed | src/main.rs:103-117 | the same for the arms of the `match` |
| RustMain.ParseLineKeyed | src/main.rs:103-117 | the line step is keyed by the field the line's key names |
| RustMain.ReportSucceeds | src/main.rs:99-120 | the run succeeds exactly when no line panics on its own |
| RustMain.ReportLastWins | src/main.rs:103-117 | the last line naming a field decides it; a field no line names stays at its default |
| RustMain.ReportIdempotent | src/main.rs:98-120 | parsing the same lines again over the result gives it back |
| GoMain.SprintfLiteral | main.go:32-37 | literal text in front of the directives is copied unchanged |
| GoMain.SprintfVerb | main.go:32-37 | a leading `%s` is replaced by the first argument |
| GoMain.RowFormatShape | main.go:33 | the row format holds exactly three directives for a color without `%` |
| GoMain.RowFormatExpand | main.go:32-37 | the three directives of the row format are filled in order |
| GoMain.RowTailExpand | main.go:33 | the part after the color fills its three directives in order |
| GoMain.FormatOptLayout | main.go:31-38 | the row is the color, normal-weight label, tab, bold value, two spaces, gray italic description and reset |
| GoMain.ChargingSymbol | main.go:45-48 | `⇡` exactly when charging, `⇣` exactly when not |
| GoMain.Body | main.go:108 | the lines read are all but the first two and the last, in order |
| GoMain.ParseOutput | main.go:106-127 | the loop returns the model of `main`: too few lines fail, otherwise the fold over the inner lines |
| GoMain.NamedByField | main.go:112-126 | the `switch` on the key is dispatching on the field the key names |
| GoMain.TakeFieldSpaces | main.go:111 | whitespace after the value does not reach the trimmed value |
| GoMain.TrimSplit | main.go:109 | a line is its trimmed text with whitespace on each side |
| GoMain.TrimmedSeparator | main.go:109 | an `=` of the line survives trimming, and the first one splits the trimmed line where it splits the line |
| GoMain.SeparatorInCore | main.go:109 | an `=` in whitespace-framed text lies in its core |
| GoMain.GoFields | main.go:109-111 | on a line with `=`, Go's key and value are exactly Rust's |
| GoMain.NoSeparatorFails | main.go:109-111 | a line without `=` panics, whatever its key |
| GoMain.ParseLineByField | main.go:109-126 | a line with `=` never fails; it writes the field its key names from its value |
| GoMain.UnknownKeyIgnored | main.go:112-126 | a line with `=` whose key is not one of the six changes nothing |
| GoMain.ChargingIsYes | main.go:113-114 | `IsCharging` becomes true exactly when the value is `Yes` |
| GoMain.NumberStored | main.go:115-125 | every integer field takes Atoi of the value, never fails and stays within 64 bits |
| GoMain.LineSucceeds | main.go:109-111 | a line fails exactly when it has no `=` |
| GoMain.ReadsPrintedNumber | main.go:115-125 | a number property printed as `ioreg` prints it reads back as that number in its field |
| GoMain.ReadsPrintedFlag | main.go:113-114 | a printed `IsCharging` property reads back as the flag |
| GoMain.SampleFlagRead | main.go:113-114 | the sample's first line sets the charging flag from any snapshot |
| GoMain.SampleNumbersRead | main.go:115-125 | each later sample line stores its number from any snapshot |
| GoMain.SampleParsed | main.go:106-127 | the sample report framed by header, `{` and `}` gives the sample snapshot |
| GoMain.ApplyKeyed | main.go:112-126 | each `switch` case writes only its own field, the same way from any snapshot |
| GoMain.StepIsKeyed | main.go:109-126 | a line fails or succeeds regardless of the snapshot, writes only the field its key names, and writes it the same way from any snapshot |
| GoMain.ParseLineKeyed | main.go:109-126 | the line step is keyed by the field the line's key names |
| GoMain.ReportSucceeds | main.go:107-111 | the run succeeds exactly when there are at least three lines and every line read has an `=` |
| GoMain.BodySucceeds | main.go:108-111 | over the lines read, the loop succeeds exactly when each has an `=` |
| GoMain.ReportLastWins | main.go:108-126 | the last line read that names a field decides it; a field no line names stays at its zero value |
| GoMain.ReportIdempotent | main.go:108-126 | reading the same lines again over the result gives it back |
| Dialects.ConstantsAgree | main.go:20-29 | both programs use the same escape sequences |
| Dialects.FormatOptAgree | main.go:31-38 | for a color without `%`, Go's Sprintf row is Rust's row character for character |
| Dialects.ColorsArePlain | main.go:25-28 | every color the programs print with is free of `%` |
| Dialects.SymbolsAgree | main.go:45-48 | both choose the same arrow |
| Dialects.LineAgrees | main.go:109-125 | on a line with `=` whose number, if any, is a 64-bit literal, both take the same step and neither fails |
| Dialects.ApplyAgrees | main.go:112-126 | Rust's `match` arms and Go's `switch` cases agree on a valid value |
| Dialects.FoldAgrees | main.go:108-126 | over well-formed lines both loops compute the same snapshot |
| Dialects.ReportsAgree | main.go:107-108 | when the first two lines and the last name no field and the rest are well formed, both end with the same snapshot |
| Dialects.SameLines | main.go:107 | on output with no `\r` that starts and ends with visible characters, both see the same lines |
| Dialects.OutputsAgree | main.go:107-127 | on such output, both whole runs give the same snapshot |
| Dialects.SameLinesTerminated | main.go:107 | on such output followed by the newline `ioreg` ends with, both see the same lines, those of the output without the newline |
| Dialects.OutputsAgreeTerminated | main.go:107-127 | on such output followed by its final newline, both whole runs succeed with the same snapshot as on the output without it |
| Dialects.MalformedCountDiffers | main.go:115-122 | a count that is not a 64-bit literal makes Rust panic, while Go stores 0 or a bound |
| Dialects.WideTemperatureDiffers | main.go:123-125 | a temperature reading beyond 64 bits is read in full by Rust (whose `f64` reading is modelled as the integer, see RustMain.ParseTemperature under Left out) and clamped by Go |
| Dialects.BareUnknownLineDiffers | main.go:109-111 | a line with no `=` and no known key is passed over by Rust and panics in Go |
| Dialects.BareKnownLineFails | main.go:109-111 | a known key with no `=` panics in both, each its own way |

## Left out

- Running `ioreg` and capturing its output, in both programs. The output is an input string.
- Rust's UTF-8 decoding of each line and the `unwrap` on it. The output is taken as text.
- RustMain.ParseTemperature: Rust parses the temperature as `f64`. The model accepts only integer literals, not fractions, exponents, `inf` or `nan`. It omits the division by 100.
- GoMain.Apply: Go converts the reading to `float32` and divides it by 100. The model keeps the raw `Atoi` integer.
- The health and charge percentages, with their floating-point division (including division by zero), and all `%.2f` / `{:.2}` formatting.
- The four `println!` / `fmt.Println` rows of `print`. Only `format_opt` and the arrow are modelled. The Go labels `Cycles Count` and `Charge Info` differ in case from Rust's `Cycles count` and `Charge info`.
- The `PrintStyle::Interactive` branch of the Rust program. It is an empty stub.
- GoMain.FormatOpt: `fmt.Sprintf` is modelled for `%s` directives only, so the color must hold no `%`. Every color the program passes qualifies (`Dialects.ColorsArePlain`).
- `isize` and Go `int` are taken as 64 bits. The model does not cover 32-bit targets.
