/** The Go program, main.go: the report row formatter built on
    `fmt.Sprintf`, the charging symbol, and the loop in `main` that fills an
    `Info` from the lines of `ioreg` output. A panic becomes an `Err`
    carrying its `Failure`. */
module GoMain {
  import opened Wrappers
  import opened Text
  import opened Decimal
  import opened Battery

  const CSI: string := "\U{1B}["
  const RESET: string := CSI + "0m"
  const BOLD: string := CSI + "1m"
  const NORMAL: string := CSI + "22m"
  const ITALIC: string := CSI + "3m"
  const BLUE: string := CSI + "34m"
  const RED: string := CSI + "31m"
  const YELLOW: string := CSI + "33m"
  const CYAN: string := CSI + "36m"
  const GRAY: string := CSI + "90m"

  /** A format whose only directives are `%s`. */
  predicate OnlyStringVerbs(format: string) {
    forall i :: 0 <= i < |format| && format[i] == '%' ==> i + 1 < |format| && format[i + 1] == 's'
  }

  /** Number of `%s` directives in such a format. */
  function Verbs(format: string): nat
    requires OnlyStringVerbs(format)
  {
    if format == [] then 0
    else if format[0] == '%' then
      assert OnlyStringVerbs(format[2..]) by {
        assert forall i :: 0 <= i < |format| - 2 ==> format[2..][i] == format[i + 2];
      }
      1 + Verbs(format[2..])
    else
      assert OnlyStringVerbs(format[1..]) by {
        assert forall i :: 0 <= i < |format| - 1 ==> format[1..][i] == format[i + 1];
      }
      Verbs(format[1..])
  }

  /** `fmt.Sprintf` for a format of literal text and `%s` directives, with
      exactly one string argument per directive: each directive is replaced
      by its argument, in order. */
  function Sprintf(format: string, args: seq<string>): string
    requires OnlyStringVerbs(format) && Verbs(format) == |args|
  {
    if format == [] then ""
    else if format[0] == '%' then
      assert OnlyStringVerbs(format[2..]) by {
        assert forall i :: 0 <= i < |format| - 2 ==> format[2..][i] == format[i + 2];
      }
      args[0] + Sprintf(format[2..], args[1..])
    else
      assert OnlyStringVerbs(format[1..]) by {
        assert forall i :: 0 <= i < |format| - 1 ==> format[1..][i] == format[i + 1];
      }
      [format[0]] + Sprintf(format[1..], args)
  }

  /** Literal text in front of the directives is copied unchanged. */
  lemma {:induction false} SprintfLiteral(text: string, format: string, args: seq<string>)
    requires '%' !in text && OnlyStringVerbs(format) && Verbs(format) == |args|
    ensures OnlyStringVerbs(text + format) && Verbs(text + format) == |args|
    ensures Sprintf(text + format, args) == text + Sprintf(format, args)
  {
    if text == [] {
      assert text + format == format;
    } else {
      var c, more := text[0], text[1..];
      var rest := more + format;
      assert text == [c] + more;
      SprintfLiteral(more, format, args);
      SprintfChar(c, rest, args);
      assert text + format == [c] + rest;
      var out := Sprintf(format, args);
      assert [c] + (more + out) == text + out;
    }
  }

  /** One literal character in front is copied unchanged. */
  lemma SprintfChar(c: char, format: string, args: seq<string>)
    requires c != '%' && OnlyStringVerbs(format) && Verbs(format) == |args|
    ensures OnlyStringVerbs([c] + format) && Verbs([c] + format) == |args|
    ensures Sprintf([c] + format, args) == [c] + Sprintf(format, args)
  {
    var f := [c] + format;
    assert f[1..] == format;
    forall i | 0 <= i < |f| && f[i] == '%'
      ensures i + 1 < |f| && f[i + 1] == 's'
    {
      assert f[i] == format[i - 1] && f[i + 1] == format[i];
    }
  }

  /** A `%s` directive in front takes the first argument. */
  lemma SprintfVerb(format: string, arg: string, args: seq<string>)
    requires OnlyStringVerbs(format) && Verbs(format) == |args|
    ensures OnlyStringVerbs("%s" + format) && Verbs("%s" + format) == |args| + 1
    ensures Sprintf("%s" + format, [arg] + args) == arg + Sprintf(format, args)
  {
    var f := "%s" + format;
    assert f[2..] == format;
    assert forall i :: 0 <= i < |format| ==> f[i + 2] == format[i];
    assert ([arg] + args)[1..] == args;
  }

  /** One report row: the same layout as the Rust program's, produced by
      substituting the three pieces into `color + "%s\t%s  %s" + RESET`. */
  function FormatOpt(name: string, value: string, desc: string, color: string): (row: string)
    requires '%' !in color
  {
    RowFormatShape(color);
    Sprintf(color + "%s\t%s  %s" + RESET, [NORMAL + name, BOLD + value, GRAY + NORMAL + ITALIC + desc])
  }

  lemma RowFormatShape(color: string)
    requires '%' !in color
    ensures OnlyStringVerbs(color + "%s\t%s  %s" + RESET) && Verbs(color + "%s\t%s  %s" + RESET) == 3
  {
    var a, b, c := [], [], [];
    RowFormatExpand(color, a, b, c);
  }

  /** The three directives of the row format are filled in order. */
  lemma RowFormatExpand(color: string, a: string, b: string, c: string)
    requires '%' !in color
    ensures OnlyStringVerbs(color + "%s\t%s  %s" + RESET) && Verbs(color + "%s\t%s  %s" + RESET) == 3
    ensures Sprintf(color + "%s\t%s  %s" + RESET, [a, b, c]) == color + a + "\t" + b + "  " + c + RESET
  {
    var tail := "%s" + ("\t" + ("%s" + ("  " + ("%s" + RESET))));
    RowTailExpand(a, b, c);
    SprintfLiteral(color, tail, [a, b, c]);
    assert color + "%s\t%s  %s" + RESET == color + tail;
    assert color + (a + ("\t" + (b + ("  " + (c + RESET))))) == color + a + "\t" + b + "  " + c + RESET;
  }

  lemma RowTailExpand(a: string, b: string, c: string)
    ensures var tail := "%s" + ("\t" + ("%s" + ("  " + ("%s" + RESET))));
      OnlyStringVerbs(tail) && Verbs(tail) == 3
      && Sprintf(tail, [a, b, c]) == a + ("\t" + (b + ("  " + (c + RESET))))
  {
    SprintfLiteral(RESET, [], []);
    assert RESET + [] == RESET;
    SprintfVerb(RESET, c, []);
    assert [c] + [] == [c];
    SprintfLiteral("  ", "%s" + RESET, [c]);
    SprintfVerb("  " + ("%s" + RESET), b, [c]);
    SprintfLiteral("\t", "%s" + ("  " + ("%s" + RESET)), [b, c]);
    assert [b] + [c] == [b, c];
    SprintfVerb("\t" + ("%s" + ("  " + ("%s" + RESET))), a, [b, c]);
    assert [a] + [b, c] == [a, b, c];
  }

  /** The row is the color, the label at normal weight, a tab, the value in
      bold, two spaces, the description in gray italics, and a reset. */
  lemma FormatOptLayout(name: string, value: string, desc: string, color: string)
    requires '%' !in color
    ensures FormatOpt(name, value, desc, color)
      == color + NORMAL + name + "\t" + BOLD + value + "  " + GRAY + NORMAL + ITALIC + desc + RESET
  {
    RowFormatExpand(color, NORMAL + name, BOLD + value, GRAY + NORMAL + ITALIC + desc);
  }

  /** `"⇡"` while charging, `"⇣"` otherwise. */
  function ChargingSymbol(isCharging: bool): (symbol: string)
    ensures symbol == "\U{21E1}" <==> isCharging
    ensures symbol == "\U{21E3}" <==> !isCharging
  {
    if isCharging then "\U{21E1}" else "\U{21E3}"
  }

  /** `strings.Split(strings.TrimSpace(line), "=")`. */
  function Fields(line: string): seq<string> {
    Split(Trim(line), '=')
  }

  /** The `switch name` as written, comparing the key with each of the six
      names in turn; a number is read with `strconv.Atoi`, its error
      ignored, and the temperature keeps the integer reading in hundredths. */
  function ParseNamed(info: Snapshot, name: string, value: string): Snapshot {
    if name == "IsCharging" then info.(isCharging := value == "Yes")
    else if name == "AppleRawMaxCapacity" then info.(maxCapacity := Atoi(value))
    else if name == "AppleRawCurrentCapacity" then info.(currentCapacity := Atoi(value))
    else if name == "DesignCapacity" then info.(designCapacity := Atoi(value))
    else if name == "CycleCount" then info.(cyclesCount := Atoi(value))
    else if name == "Temperature" then info.(temperature := Atoi(value))
    else info
  }

  /** One turn of the loop: a line without `=` panics on `parsed[1]`,
      whatever its key; otherwise the switch (`FieldOf`) picks the field the
      key names. */
  function ParseLine(info: Snapshot, line: string): Result<Snapshot, Failure> {
    var parsed := Fields(line);
    if |parsed| < 2 then Err(NoSeparator(line))
    else Ok(Apply(info, FieldOf(TrimQuotes(Trim(parsed[0]))), Trim(parsed[1])))
  }

  /** `strings.Split(strings.TrimSpace(out), "\n")`. */
  function Lines(out: string): seq<string> {
    Split(Trim(out), '\n')
  }

  /** The whole of `main` after `ioreg` returns. */
  function Parse(out: string): Result<Snapshot, Failure> {
    ParseLines(Lines(out))
  }

  /** The loop over `lines[2 : len(lines)-1]`: the slice panics when there
      are fewer than three lines; otherwise the lines between the first two
      and the last are parsed in order. */
  function ParseLines(lines: seq<string>): Result<Snapshot, Failure> {
    if |lines| < 3 then Err(TooFewLines(|lines|))
    else Fold(ParseLine, Zero, Body(lines))
  }

  /** The lines the loop reads: all but the first two and the last. */
  function Body(lines: seq<string>): (body: seq<string>)
    requires |lines| >= 3
    ensures |body| == |lines| - 3
    ensures forall i :: 0 <= i < |body| ==> body[i] == lines[i + 2]
  {
    lines[2..|lines| - 1]
  }

  /** `main` from the `ioreg` output to the filled `Info`. */
  method ParseOutput(out: string) returns (r: Result<Snapshot, Failure>)
    ensures r == Parse(out)
  {
    var lines := Split(Trim(out), '\n');
    if |lines| < 3 {
      return Err(TooFewLines(|lines|));
    }
    var body := lines[2..|lines| - 1];
    var info := Zero;
    for i := 0 to |body|
      invariant Fold(ParseLine, Zero, body[..i]) == Ok(info)
    {
      FoldStep(ParseLine, Zero, body, i);
      var parsed := Split(Trim(body[i]), '=');
      var name := TrimQuotes(Trim(parsed[0]));
      if |parsed| < 2 {
        return Err(NoSeparator(body[i]));
      }
      var value := Trim(parsed[1]);
      NamedByField(info, name, value);
      info := ParseNamed(info, name, value);
    }
    assert body[..|body|] == body;
    r := Ok(info);
  }

  /** The cases of the switch: the field a key names, written from the
      value. */
  function Apply(info: Snapshot, field: Option<Field>, value: string): Snapshot {
    match field
    case None => info
    case Some(IsCharging) => info.(isCharging := value == "Yes")
    case Some(f) => Store(info, f, Atoi(value))
  }

  /** Comparing the key with the six names in turn is dispatching on the
      field `FieldOf` gives it. */
  lemma NamedByField(s: Snapshot, name: string, value: string)
    ensures ParseNamed(s, name, value) == Apply(s, FieldOf(name), value)
  {
    match FieldOf(name)
    case None =>
      UnknownKey(name);
    case Some(f) =>
      FieldOfKeyName(name, f);
      match f
      case IsCharging => assert name == "IsCharging";
      case MaxCapacity => assert name == "AppleRawMaxCapacity";
      case CurrentCapacity => assert name == "AppleRawCurrentCapacity";
      case DesignCapacity => assert name == "DesignCapacity";
      case CycleCount => assert name == "CycleCount";
      case Temperature => assert name == "Temperature";
  }

  /** Spaces after the value do not reach the trimmed field. */
  lemma TakeFieldSpaces(y: string, w: string)
    requires AllDropped(w, IsSpace)
    ensures Trim(TakeField(y + w)) == Trim(TakeField(y))
  {
    if '=' in y {
      var i := IndexOf(y, '=');
      assert (y + w)[..i] == y[..i];
      IndexOfUnique(y + w, '=', i);
    } else {
      assert '=' !in w;
      assert '=' !in y + w;
      StripTrailing(y, w, IsSpace);
    }
  }

  /** The whitespace around a line: `line == w1 + Trim(line) + w2`. */
  lemma TrimSplit(line: string) returns (w1: string, w2: string)
    ensures line == w1 + Trim(line) + w2
    ensures AllDropped(w1, IsSpace) && AllDropped(w2, IsSpace)
  {
    StripIsSlice(line, IsSpace);
    var t := Trim(line);
    var a := |line| - |StripStart(line, IsSpace)|;
    w1, w2 := line[..a], line[a + |t|..];
    Slices(line, a, a + |t|);
  }

  /** An `=` of the line survives trimming, and the first one splits the
      trimmed line as it splits the line. */
  lemma TrimmedSeparator(line: string) returns (w1: string, x: string, y: string, w2: string)
    requires '=' in line
    ensures Trim(line) == x + ['='] + y && line == (w1 + x) + ['='] + (y + w2)
    ensures '=' !in w1 + x
    ensures AllDropped(w1, IsSpace) && AllDropped(w2, IsSpace)
  {
    w1, w2 := TrimSplit(line);
    x, y := SeparatorInCore(w1, Trim(line), w2);
  }

  lemma SeparatorInCore(w1: string, t: string, w2: string) returns (x: string, y: string)
    requires AllDropped(w1, IsSpace) && AllDropped(w2, IsSpace) && '=' in w1 + t + w2
    ensures t == x + ['='] + y && w1 + t + w2 == (w1 + x) + ['='] + (y + w2)
    ensures '=' !in w1 + x
  {
    var line := w1 + t + w2;
    var k := IndexOf(line, '=');
    assert !IsSpace('=');
    assert forall i :: 0 <= i < |w1| ==> line[i] == w1[i];
    assert forall i :: 0 <= i < |w2| ==> line[|w1| + |t| + i] == w2[i];
    assert |w1| <= k < |w1| + |t|;
    var j := k - |w1|;
    assert t[j] == line[k];
    x, y := t[..j], t[j + 1..];
    assert t == x + ['='] + y;
    assert line[..k] == w1 + x;
  }

  /** Go reads the key and value of a line with an `=` exactly as Rust does:
      trimming the line first changes neither. */
  lemma GoFields(line: string)
    requires '=' in line
    ensures |Fields(line)| >= 2
    ensures TrimQuotes(Trim(Fields(line)[0])) == KeyOf(line)
    ensures Trim(Fields(line)[1]) == ValueOf(line).value
  {
    var w1, x, y, w2 := TrimmedSeparator(line);
    SplitCons(x, '=', y);
    SplitCons(w1 + x, '=', y + w2);
    StripLeading(w1, x, IsSpace);
    TakeFieldSpaces(y, w2);
  }

  /** A line without `=` panics, whatever its key. */
  lemma NoSeparatorFails(s: Snapshot, line: string)
    requires '=' !in line
    ensures ParseLine(s, line) == Err(NoSeparator(line))
  {
    StripKeeps(line, IsSpace, '=');
  }

  /** A line with an `=` never fails: it does what its key names to the
      snapshot, with the value read the way Rust reads it. */
  lemma ParseLineByField(s: Snapshot, line: string)
    requires '=' in line
    ensures ParseLine(s, line) == Ok(Apply(s, LineField(line), ValueOf(line).value))
  {
    GoFields(line);
  }

  /** A line whose key is not one of the six changes nothing, provided it
      has an `=`. */
  lemma UnknownKeyIgnored(s: Snapshot, line: string)
    requires LineField(line).None? && '=' in line
    ensures ParseLine(s, line) == Ok(s)
  {
    ParseLineByField(s, line);
  }

  /** `IsCharging` becomes true exactly when the value is `Yes`. */
  lemma ChargingIsYes(s: Snapshot, line: string)
    requires LineField(line) == Some(IsCharging) && '=' in line
    ensures ParseLine(s, line) == Ok(s.(isCharging := ValueOf(line).value == "Yes"))
  {
    ParseLineByField(s, line);
  }

  /** Every integer field, the temperature included, takes `Atoi` of the
      value and never fails: a malformed number is stored as 0 or as a
      64-bit bound. */
  lemma NumberStored(s: Snapshot, line: string, f: Field)
    requires LineField(line) == Some(f) && f != IsCharging && '=' in line
    ensures ParseLine(s, line) == Ok(Store(s, f, Atoi(ValueOf(line).value)))
    ensures InInt64(IntField(ParseLine(s, line).value, f))
  {
    ParseLineByField(s, line);
  }

  /** A line fails exactly when it has no `=`. */
  lemma LineSucceeds(s: Snapshot, line: string)
    ensures ParseLine(s, line).Ok? <==> '=' in line
  {
    if '=' in line {
      ParseLineByField(s, line);
    } else {
      NoSeparatorFails(s, line);
    }
  }

  /** A number field printed the way `ioreg` prints it is read back as the
      number it shows. */
  lemma ReadsPrintedNumber(s: Snapshot, indent: string, f: Field, n: int)
    requires AllDropped(indent, IsSpace) && f != IsCharging && InInt64(n)
    ensures ParseLine(s, PropertyLine(indent, KeyName(f), ShowInt(n))) == Ok(Store(s, f, n))
  {
    var line := PropertyLine(indent, KeyName(f), ShowInt(n));
    PrintedNumber(indent, f, n);
    AtoiShowInt(n);
    NumberStored(s, line, f);
  }

  /** A printed `IsCharging` flag is read back as the flag. */
  lemma ReadsPrintedFlag(s: Snapshot, indent: string, yes: bool)
    requires AllDropped(indent, IsSpace)
    ensures ParseLine(s, PropertyLine(indent, "IsCharging", if yes then "Yes" else "No"))
      == Ok(s.(isCharging := yes))
  {
    var line := PropertyLine(indent, "IsCharging", if yes then "Yes" else "No");
    PrintedFlag(indent, yes);
    ChargingIsYes(s, line);
  }

  /** The sample report framed by the header line, the opening brace and
      the closing brace, as `ioreg` frames it. */
  function SampleReport(indent: string): seq<string> {
    ["+-o AppleSmartBattery  <class AppleSmartBattery>", "  {"] + SampleProperties(indent) + ["  }"]
  }

  /** The framed sample report gives the sample snapshot. */
  lemma SampleParsed(indent: string)
    requires AllDropped(indent, IsSpace)
    ensures ParseLines(SampleReport(indent)) == Ok(SampleSnapshot)
  {
    assert Body(SampleReport(indent)) == SampleProperties(indent);
    SampleFlagRead(indent);
    SampleNumbersRead(indent);
    SampleFold(ParseLine, indent);
  }

  lemma SampleFlagRead(indent: string)
    requires AllDropped(indent, IsSpace)
    ensures forall s: Snapshot :: ParseLine(s, SampleProperties(indent)[0]) == Ok(s.(isCharging := true))
  {
    SampleLines(indent);
    forall s: Snapshot {
      ReadsPrintedFlag(s, indent, true);
    }
  }

  lemma SampleNumbersRead(indent: string)
    requires AllDropped(indent, IsSpace)
    ensures forall s: Snapshot, i :: 1 <= i < 6 ==>
      ParseLine(s, SampleProperties(indent)[i]) == Ok(Store(s, SampleField(i), SampleValue(i)))
  {
    SampleLines(indent);
    forall s: Snapshot, i | 1 <= i < 6
      ensures ParseLine(s, SampleProperties(indent)[i]) == Ok(Store(s, SampleField(i), SampleValue(i)))
    {
      ReadsPrintedNumber(s, indent, SampleField(i), SampleValue(i));
    }
  }

  lemma ApplyKeyed(s: Snapshot, field: Option<Field>, value: string)
    ensures Writes(s, Apply(s, field, value), field)
    ensures SameNamed(Apply(s, field, value), Apply(Zero, field, value), field)
  {
  }

  /** Each line fails, or writes the field its key names, the same way
      whatever the snapshot, and touches no other field. */
  lemma StepIsKeyed(s: Snapshot, line: string)
    ensures ParseLine(s, line).Ok? <==> ParseLine(Zero, line).Ok?
    ensures ParseLine(s, line).Ok? ==>
      Writes(s, ParseLine(s, line).value, LineField(line))
      && SameNamed(ParseLine(s, line).value, ParseLine(Zero, line).value, LineField(line))
  {
    if '=' in line {
      ParseLineByField(s, line);
      ParseLineByField(Zero, line);
      ApplyKeyed(s, LineField(line), ValueOf(line).value);
    } else {
      NoSeparatorFails(s, line);
      NoSeparatorFails(Zero, line);
    }
  }

  lemma ParseLineKeyed()
    ensures Keyed(ParseLine, LineField)
  {
    forall s: Snapshot, line: string {
      StepIsKeyed(s, line);
    }
  }

  /** The run fails on short output, otherwise succeeds exactly when every
      line it reads has an `=`. */
  lemma ReportSucceeds(lines: seq<string>)
    ensures ParseLines(lines).Ok? <==>
      |lines| >= 3 && forall i :: 2 <= i < |lines| - 1 ==> '=' in lines[i]
  {
    if |lines| >= 3 {
      var body := Body(lines);
      var r := Fold(ParseLine, Zero, body);
      assert ParseLines(lines) == r;
      BodySucceeds(body);
      forall i | 2 <= i < |lines| - 1
        ensures lines[i] == body[i - 2]
      {
      }
    }
  }

  /** Over the lines it reads, the loop succeeds exactly when each has an `=`. */
  lemma BodySucceeds(body: seq<string>)
    ensures Fold(ParseLine, Zero, body).Ok? <==> forall i :: 0 <= i < |body| ==> '=' in body[i]
  {
    ParseLineKeyed();
    FoldSucceeds(ParseLine, LineField, Zero, body);
    forall i | 0 <= i < |body| {
      LineSucceeds(Zero, body[i]);
    }
  }

  /** The last line read that names a field decides it; a field no line
      names stays at the default 0 (false for `IsCharging`). */
  lemma ReportLastWins(lines: seq<string>, f: Field)
    requires ParseLines(lines).Ok?
    ensures |lines| >= 3
    ensures var body := Body(lines);
      var i := LastWrite(body, LineField, f);
      if i < 0 then SameField(ParseLines(lines).value, Zero, f)
      else ('=' in body[i]
            && SameField(ParseLines(lines).value, Apply(Zero, Some(f), ValueOf(body[i]).value), f))
  {
    var body := Body(lines);
    ParseLineKeyed();
    LastWriteWins(ParseLine, LineField, Zero, body, f);
    var i := LastWrite(body, LineField, f);
    if 0 <= i {
      if '=' in body[i] {
        ParseLineByField(Zero, body[i]);
      } else {
        NoSeparatorFails(Zero, body[i]);
      }
    }
  }

  /** Reading the same lines again over the result gives it back. */
  lemma ReportIdempotent(lines: seq<string>)
    requires ParseLines(lines).Ok?
    ensures |lines| >= 3
    ensures Fold(ParseLine, ParseLines(lines).value, Body(lines)) == ParseLines(lines)
  {
    ParseLineKeyed();
    Reparse(ParseLine, LineField, Zero, Body(lines));
  }
}
