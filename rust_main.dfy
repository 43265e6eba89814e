/** The Rust program, src/main.rs: the report row formatter, the charging
    symbol, and the loop in `main` that fills an `Info` from the lines of
    `ioreg` output. A panic becomes an `Err` carrying its `Failure`. */
module RustMain {
  import opened Wrappers
  import opened Text
  import opened Decimal
  import opened Battery

  const RESET: string := "\U{1B}[0m"
  const BOLD: string := "\U{1B}[1m"
  const NORMAL: string := "\U{1B}[22m"
  const ITALIC: string := "\U{1B}[3m"
  const BLUE: string := "\U{1B}[34m"
  const RED: string := "\U{1B}[31m"
  const YELLOW: string := "\U{1B}[33m"
  const CYAN: string := "\U{1B}[36m"
  const GRAY: string := "\U{1B}[90m"

  /** One report row: the label in `color` at normal weight, a tab, the
      value in bold, two spaces, the description in gray italics, and a
      reset of every style. */
  function FormatOpt(name: string, value: string, desc: string, color: string): (row: string)
    ensures |row| == |color| + |name| + |value| + |desc| + 30
    ensures row[..|color|] == color && row[|row| - |RESET|..] == RESET
  {
    color + NORMAL + name + "\t" + BOLD + value + "  " + GRAY + NORMAL + ITALIC + desc + RESET
  }

  /** `⇡` while charging, `⇣` otherwise. */
  function ChargingSymbol(isCharging: bool): (c: char)
    ensures c == '\U{21E1}' <==> isCharging
    ensures c == '\U{21E3}' <==> !isCharging
  {
    if isCharging then '\U{21E1}' else '\U{21E3}'
  }

  /** A line as `BufRead::lines` yields it once its `\n` is removed: a
      `\r` just before that `\n` goes too. */
  function DropCR(line: string): string {
    if line != [] && line[|line| - 1] == '\r' then line[..|line| - 1] else line
  }

  /** `output.stdout.lines()`: the text between newlines; each line that a
      newline ends loses a trailing `\r`, and the empty text after a final
      newline is not a line. */
  function StdoutLines(out: string): seq<string> {
    Terminated(Split(out, '\n'))
  }

  /** The pieces between newlines as lines: all but the last were followed
      by a newline; the last is a line only when it is not empty. */
  function Terminated(pieces: seq<string>): seq<string>
    requires pieces != []
  {
    var n := |pieces| - 1;
    var ended := seq(n, i requires 0 <= i < n => DropCR(pieces[i]));
    if pieces[n] == [] then ended else ended + [pieces[n]]
  }

  /** For text with no `\r` that does not end in a newline, the lines are
      exactly the pieces between newlines, and joining them gives the text
      back. */
  lemma StdoutLinesPlain(out: string)
    requires '\r' !in out && out != [] && out[|out| - 1] != '\n'
    ensures StdoutLines(out) == Split(out, '\n')
    ensures Join(StdoutLines(out), '\n') == out
  {
    var pieces := Split(out, '\n');
    var n := |pieces| - 1;
    JoinSplit(out, '\n');
    SplitKeeps(out, '\n', '\r');
    if n == 0 {
      assert pieces[0] == out;
    } else {
      JoinSnoc(pieces, '\n');
      assert pieces[n] != [];
    }
    TerminatedPlain(pieces);
  }

  /** The newline that ends the output ends its last line and adds none:
      for text with no `\r`, the lines are the pieces between newlines. */
  lemma StdoutLinesNewline(core: string)
    requires '\r' !in core
    ensures StdoutLines(core + "\n") == Split(core, '\n')
  {
    SplitSnocSep(core, '\n');
    SplitKeeps(core, '\n', '\r');
    TerminatedEmptyLast(Split(core, '\n'));
  }

  /** An empty last piece is not a line. */
  lemma TerminatedEmptyLast(pieces: seq<string>)
    requires forall i :: 0 <= i < |pieces| ==> '\r' !in pieces[i]
    ensures Terminated(pieces + [""]) == pieces
  {
    var all := pieces + [""];
    var n := |pieces|;
    var ended := seq(n, i requires 0 <= i < n => DropCR(all[i]));
    forall i | 0 <= i < n
      ensures ended[i] == pieces[i]
    {
      assert all[i] == pieces[i];
      DropCRPlain(pieces[i]);
    }
  }

  lemma TerminatedPlain(pieces: seq<string>)
    requires pieces != [] && pieces[|pieces| - 1] != []
    requires forall i :: 0 <= i < |pieces| ==> '\r' !in pieces[i]
    ensures Terminated(pieces) == pieces
  {
    var n := |pieces| - 1;
    var ended := seq(n, i requires 0 <= i < n => DropCR(pieces[i]));
    forall i | 0 <= i < n
      ensures ended[i] == pieces[i]
    {
      DropCRPlain(pieces[i]);
    }
    assert ended == pieces[..n];
    SnocLast(pieces);
  }

  lemma SnocLast(pieces: seq<string>)
    requires pieces != []
    ensures pieces[..|pieces| - 1] + [pieces[|pieces| - 1]] == pieces
  {
  }

  lemma DropCRPlain(line: string)
    requires '\r' !in line
    ensures DropCR(line) == line
  {
  }

  /** `value.unwrap()`: the segment after the first `=`, or a panic. */
  function Unwrap(name: string, value: Option<string>): (r: Result<string, Failure>)
    ensures r.Ok? <==> value.Some?
  {
    match value
    case Some(v) => Ok(v)
    case None => Err(MissingValue(name))
  }

  /** `value.unwrap().trim().parse::<isize>().unwrap()`. */
  function ParseCount(name: string, value: Option<string>): Result<int, Failure> {
    var v :- Unwrap(name, value);
    match ParseIsize(Trim(v))
    case Some(n) => Ok(n)
    case None => Err(InvalidNumber(name, Trim(v)))
  }

  /** `value.unwrap().trim().parse::<f64>().unwrap()`, for the integer
      literals `ioreg` prints: the raw reading in hundredths. */
  function ParseTemperature(name: string, value: Option<string>): Result<int, Failure> {
    var v :- Unwrap(name, value);
    match ParseInteger(Trim(v))
    case Some(n) => Ok(n)
    case None => Err(InvalidNumber(name, Trim(v)))
  }

  /** One turn of the loop in `main`: split the line on `=`, match the
      trimmed, quote-stripped first piece against the six keys (`FieldOf`)
      and overwrite that field from the second piece. */
  function ParseLine(info: Snapshot, line: string): Result<Snapshot, Failure> {
    Apply(info, LineField(line), RawValue(line))
  }

  /** The arms of the `match`: the field a key names, written from the
      segment after the first `=`, which must be there. */
  function Apply(info: Snapshot, field: Option<Field>, value: Option<string>): Result<Snapshot, Failure> {
    match field
    case None => Ok(info)
    case Some(f) =>
      var v :- Unwrap(KeyName(f), value);
      match f
      case IsCharging => Ok(info.(isCharging := Trim(v) == "Yes"))
      case Temperature =>
        var t :- ParseTemperature(KeyName(f), Some(v));
        Ok(info.(temperature := t))
      case _ =>
        var n :- ParseCount(KeyName(f), Some(v));
        Ok(Store(info, f, n))
  }

  /** The `match` on the key as written, comparing it with each of the six
      names in turn. */
  function ParseNamed(info: Snapshot, name: string, value: Option<string>): Result<Snapshot, Failure> {
    if name == "IsCharging" then
      var v :- Unwrap(name, value);
      Ok(info.(isCharging := Trim(v) == "Yes"))
    else if name == "AppleRawMaxCapacity" then
      var n :- ParseCount(name, value);
      Ok(info.(maxCapacity := n))
    else if name == "AppleRawCurrentCapacity" then
      var n :- ParseCount(name, value);
      Ok(info.(currentCapacity := n))
    else if name == "DesignCapacity" then
      var n :- ParseCount(name, value);
      Ok(info.(designCapacity := n))
    else if name == "CycleCount" then
      var n :- ParseCount(name, value);
      Ok(info.(cyclesCount := n))
    else if name == "Temperature" then
      var t :- ParseTemperature(name, value);
      Ok(info.(temperature := t))
    else Ok(info)
  }

  /** Comparing the key with the six names in turn is dispatching on the
      field `FieldOf` gives it. */
  lemma NamedByField(s: Snapshot, name: string, value: Option<string>)
    ensures ParseNamed(s, name, value) == Apply(s, FieldOf(name), value)
  {
    match FieldOf(name)
    case None =>
      UnknownKey(name);
    case Some(f) =>
      FieldOfKeyName(name, f);
      match f
      case IsCharging => assert name == "IsCharging";
      case MaxCapacity => assert name == "AppleRawMaxCapacity";
      case CurrentCapacity => assert name == "AppleRawCurrentCapacity";
      case DesignCapacity => assert name == "DesignCapacity";
      case CycleCount => assert name == "CycleCount";
      case Temperature => assert name == "Temperature";
  }

  /** `main` after `ioreg` returns: every line of its output, in order. */
  function Run(out: string): Result<Snapshot, Failure> {
    Fold(ParseLine, Zero, StdoutLines(out))
  }

  /** The parsing loop of `main`: starting from `Info::default()`, each line
      overwrites the field its key names; the first panic ends the run. */
  method ParseReport(out: string) returns (r: Result<Snapshot, Failure>)
    ensures r == Run(out)
  {
    var lines := StdoutLines(out);
    var info := Zero;
    for i := 0 to |lines|
      invariant Fold(ParseLine, Zero, lines[..i]) == Ok(info)
    {
      FoldStep(ParseLine, Zero, lines, i);
      var value := RawValue(lines[i]);
      var name := KeyOf(lines[i]);
      NamedByField(info, name, value);
      var next :- ParseNamed(info, name, value);
      info := next;
    }
    assert lines[..|lines|] == lines;
    r := Ok(info);
  }

  /** `parts.get(1)`: the text between the first and second `=`, untrimmed. */
  function RawValue(line: string): (value: Option<string>)
    ensures value.None? <==> '=' !in line
    ensures value.Some? ==> Trim(value.value) == ValueOf(line).value
  {
    var parts := Split(line, '=');
    if |parts| > 1 then Some(parts[1]) else None
  }

  /** A line whose key is not one of the six changes nothing, whether or not
      it has an `=`. */
  lemma UnknownKeyIgnored(s: Snapshot, line: string)
    requires LineField(line).None?
    ensures ParseLine(s, line) == Ok(s)
  {
  }

  /** A recognised key with no `=` after it panics in `value.unwrap()`. */
  lemma MissingValueFails(s: Snapshot, line: string)
    requires LineField(line).Some? && '=' !in line
    ensures ParseLine(s, line) == Err(MissingValue(KeyOf(line)))
  {
    FieldOfKeyName(KeyOf(line), LineField(line).value);
  }

  /** `IsCharging` never fails; it becomes true exactly when the value is
      `Yes`, and nothing else changes. */
  lemma ChargingIsYes(s: Snapshot, line: string)
    requires LineField(line) == Some(IsCharging) && '=' in line
    ensures ParseLine(s, line) == Ok(s.(isCharging := ValueOf(line).value == "Yes"))
  {
  }

  /** A capacity or the cycle count takes the value read as a 64-bit
      signed decimal; an empty, non-numeric or out-of-range value panics. */
  lemma CountParsed(s: Snapshot, line: string, f: Field)
    requires LineField(line) == Some(f) && f != IsCharging && f != Temperature && '=' in line
    ensures var v := ValueOf(line).value;
      ParseLine(s, line) == match ParseIsize(v)
        case Some(n) => Ok(Store(s, f, n))
        case None => Err(InvalidNumber(KeyName(f), v))
  {
    ApplyCount(s, f, RawValue(line).value);
  }

  lemma ApplyCount(s: Snapshot, f: Field, raw: string)
    requires f != IsCharging && f != Temperature
    ensures Apply(s, Some(f), Some(raw)) == match ParseIsize(Trim(raw))
      case Some(n) => Ok(Store(s, f, n))
      case None => Err(InvalidNumber(KeyName(f), Trim(raw)))
  {
    var count := ParseCount(KeyName(f), Some(raw));
    assert Unwrap(KeyName(f), Some(raw)) == Ok(raw);
    assert count == match ParseIsize(Trim(raw))
      case Some(n) => Ok(n)
      case None => Err(InvalidNumber(KeyName(f), Trim(raw)));
    assert Apply(s, Some(f), Some(raw)) == match count
      case Ok(n) => Ok(Store(s, f, n))
      case Err(e) => Err(e);
  }

  /** The temperature takes the raw reading; a value that is not a decimal
      integer panics. */
  lemma TemperatureParsed(s: Snapshot, line: string)
    requires LineField(line) == Some(Temperature) && '=' in line
    ensures var v := ValueOf(line).value;
      ParseLine(s, line) == match ParseInteger(v)
        case Some(n) => Ok(s.(temperature := n))
        case None => Err(InvalidNumber("Temperature", v))
  {
    ApplyTemperature(s, RawValue(line).value);
  }

  lemma ApplyTemperature(s: Snapshot, raw: string)
    ensures Apply(s, Some(Temperature), Some(raw)) == match ParseInteger(Trim(raw))
      case Some(n) => Ok(s.(temperature := n))
      case None => Err(InvalidNumber("Temperature", Trim(raw)))
  {
  }

  /** A number field printed the way `ioreg` prints it is read back as the
      number it shows. */
  lemma ReadsPrintedNumber(s: Snapshot, indent: string, f: Field, n: int)
    requires AllDropped(indent, IsSpace) && f != IsCharging && InInt64(n)
    ensures ParseLine(s, PropertyLine(indent, KeyName(f), ShowInt(n))) == Ok(Store(s, f, n))
  {
    var line := PropertyLine(indent, KeyName(f), ShowInt(n));
    PrintedNumber(indent, f, n);
    ParseIsizeShowInt(n);
    if f == Temperature {
      TemperatureParsed(s, line);
    } else {
      CountParsed(s, line, f);
    }
  }

  /** A printed `IsCharging` flag is read back as the flag. */
  lemma ReadsPrintedFlag(s: Snapshot, indent: string, yes: bool)
    requires AllDropped(indent, IsSpace)
    ensures ParseLine(s, PropertyLine(indent, "IsCharging", if yes then "Yes" else "No"))
      == Ok(s.(isCharging := yes))
  {
    var line := PropertyLine(indent, "IsCharging", if yes then "Yes" else "No");
    PrintedFlag(indent, yes);
    ChargingIsYes(s, line);
  }

  /** The six sample properties give the sample snapshot. */
  lemma SampleParsed(indent: string)
    requires AllDropped(indent, IsSpace)
    ensures Fold(ParseLine, Zero, SampleProperties(indent)) == Ok(SampleSnapshot)
  {
    SampleFlagRead(indent);
    SampleNumbersRead(indent);
    SampleFold(ParseLine, indent);
  }

  lemma SampleFlagRead(indent: string)
    requires AllDropped(indent, IsSpace)
    ensures forall s: Snapshot :: ParseLine(s, SampleProperties(indent)[0]) == Ok(s.(isCharging := true))
  {
    SampleLines(indent);
    forall s: Snapshot {
      ReadsPrintedFlag(s, indent, true);
    }
  }

  lemma SampleNumbersRead(indent: string)
    requires AllDropped(indent, IsSpace)
    ensures forall s: Snapshot, i :: 1 <= i < 6 ==>
      ParseLine(s, SampleProperties(indent)[i]) == Ok(Store(s, SampleField(i), SampleValue(i)))
  {
    SampleLines(indent);
    forall s: Snapshot, i | 1 <= i < 6
      ensures ParseLine(s, SampleProperties(indent)[i]) == Ok(Store(s, SampleField(i), SampleValue(i)))
    {
      ReadsPrintedNumber(s, indent, SampleField(i), SampleValue(i));
    }
  }

  /** Each line fails, or writes the field its key names, the same way
      whatever the snapshot, and touches no other field. */
  lemma StepIsKeyed(s: Snapshot, line: string)
    ensures ParseLine(s, line).Ok? <==> ParseLine(Zero, line).Ok?
    ensures ParseLine(s, line).Ok? ==>
      Writes(s, ParseLine(s, line).value, LineField(line))
      && SameNamed(ParseLine(s, line).value, ParseLine(Zero, line).value, LineField(line))
  {
    ApplyKeyed(s, LineField(line), RawValue(line));
  }

  lemma ApplyKeyed(s: Snapshot, field: Option<Field>, value: Option<string>)
    ensures Apply(s, field, value).Ok? <==> Apply(Zero, field, value).Ok?
    ensures Apply(s, field, value).Ok? ==>
      Writes(s, Apply(s, field, value).value, field)
      && SameNamed(Apply(s, field, value).value, Apply(Zero, field, value).value, field)
  {
  }

  lemma ParseLineKeyed()
    ensures Keyed(ParseLine, LineField)
  {
    forall s: Snapshot, line: string {
      StepIsKeyed(s, line);
    }
  }

  /** The run succeeds exactly when no line panics on its own. */
  lemma ReportSucceeds(lines: seq<string>)
    ensures Fold(ParseLine, Zero, lines).Ok? <==>
      forall i :: 0 <= i < |lines| ==> ParseLine(Zero, lines[i]).Ok?
  {
    ParseLineKeyed();
    FoldSucceeds(ParseLine, LineField, Zero, lines);
  }

  /** The last line naming a field decides it; a field no line names stays
      at the default 0 (false for `is_charging`). */
  lemma ReportLastWins(lines: seq<string>, f: Field)
    requires Fold(ParseLine, Zero, lines).Ok?
    ensures var i := LastWrite(lines, LineField, f);
      if i < 0 then SameField(Fold(ParseLine, Zero, lines).value, Zero, f)
      else (ParseLine(Zero, lines[i]).Ok?
            && SameField(Fold(ParseLine, Zero, lines).value, ParseLine(Zero, lines[i]).value, f))
  {
    ParseLineKeyed();
    LastWriteWins(ParseLine, LineField, Zero, lines, f);
  }

  /** Parsing the same report again over its own result gives it back. */
  lemma ReportIdempotent(lines: seq<string>)
    requires Fold(ParseLine, Zero, lines).Ok?
    ensures Fold(ParseLine, Fold(ParseLine, Zero, lines).value, lines) == Fold(ParseLine, Zero, lines)
  {
    ParseLineKeyed();
    Reparse(ParseLine, LineField, Zero, lines);
  }
}
