/** The two programs side by side: where their row formatting, charging
    symbol and report parsing coincide, and the inputs on which they part. */
module Dialects {
  import opened Wrappers
  import opened Text
  import opened Decimal
  import opened Battery
  import RustMain
  import GoMain

  /** Both programs use the same escape sequences. */
  lemma ConstantsAgree()
    ensures GoMain.RESET == RustMain.RESET && GoMain.BOLD == RustMain.BOLD
    ensures GoMain.NORMAL == RustMain.NORMAL && GoMain.ITALIC == RustMain.ITALIC
    ensures GoMain.BLUE == RustMain.BLUE && GoMain.RED == RustMain.RED
    ensures GoMain.YELLOW == RustMain.YELLOW && GoMain.CYAN == RustMain.CYAN
    ensures GoMain.GRAY == RustMain.GRAY
  {
  }

  /** For a color free of `%` the Go row, built by `Sprintf`, is the Rust
      row character for character. */
  lemma FormatOptAgree(name: string, value: string, desc: string, color: string)
    requires '%' !in color
    ensures GoMain.FormatOpt(name, value, desc, color) == RustMain.FormatOpt(name, value, desc, color)
  {
    GoMain.FormatOptLayout(name, value, desc, color);
  }

  /** Every color the programs print with is free of `%`. */
  lemma ColorsArePlain()
    ensures '%' !in GoMain.BLUE && '%' !in GoMain.RED && '%' !in GoMain.YELLOW && '%' !in GoMain.CYAN
  {
  }

  /** Both print the same arrow. */
  lemma SymbolsAgree(isCharging: bool)
    ensures GoMain.ChargingSymbol(isCharging) == [RustMain.ChargingSymbol(isCharging)]
  {
  }

  /** A line both programs read alike: it has an `=`, and when its key is a
      number field the value is a decimal that fits in 64 bits. */
  predicate WellFormed(line: string) {
    '=' in line &&
    match LineField(line)
    case Some(f) => f == IsCharging || ParseIsize(ValueOf(line).value).Some?
    case None => true
  }

  /** On a well-formed line the programs take the same step and neither fails. */
  lemma LineAgrees(s: Snapshot, line: string)
    requires WellFormed(line)
    ensures RustMain.ParseLine(s, line).Ok?
    ensures RustMain.ParseLine(s, line) == GoMain.ParseLine(s, line)
  {
    GoMain.ParseLineByField(s, line);
    var raw := RustMain.RawValue(line).value;
    ApplyAgrees(s, LineField(line), raw);
  }

  lemma ApplyAgrees(s: Snapshot, field: Option<Field>, raw: string)
    requires field.Some? && field.value != IsCharging ==> ParseIsize(Trim(raw)).Some?
    ensures RustMain.Apply(s, field, Some(raw)) == Ok(GoMain.Apply(s, field, Trim(raw)))
  {
    match field
    case None =>
    case Some(f) =>
      if f != IsCharging {
        AtoiAgreesWithParseIsize(Trim(raw));
      }
  }

  /** Over well-formed lines the two loops compute the same snapshot. */
  lemma FoldAgrees(s: Snapshot, lines: seq<string>)
    requires forall i :: 0 <= i < |lines| ==> WellFormed(lines[i])
    ensures Fold(RustMain.ParseLine, s, lines).Ok?
    ensures Fold(RustMain.ParseLine, s, lines) == Fold(GoMain.ParseLine, s, lines)
  {
    forall t: Snapshot, i | 0 <= i < |lines|
      ensures RustMain.ParseLine(t, lines[i]).Ok? && RustMain.ParseLine(t, lines[i]) == GoMain.ParseLine(t, lines[i])
    {
      LineAgrees(t, lines[i]);
    }
    FoldSame(RustMain.ParseLine, GoMain.ParseLine, s, lines);
  }

  /** At least three lines; the first two and the last name no field and
      the others are well formed. */
  predicate Framed(lines: seq<string>) {
    |lines| >= 3
    && LineField(lines[0]).None? && LineField(lines[1]).None? && LineField(lines[|lines| - 1]).None?
    && forall i :: 2 <= i < |lines| - 1 ==> WellFormed(lines[i])
  }

  /** Rust reads every line and Go skips the first two and the last; when
      those frame lines name no field and the rest are well formed, both
      end with the same snapshot. */
  lemma ReportsAgree(lines: seq<string>)
    requires Framed(lines)
    ensures Fold(RustMain.ParseLine, Zero, lines).Ok?
    ensures Fold(RustMain.ParseLine, Zero, lines) == GoMain.ParseLines(lines)
  {
    forall t: Snapshot
      ensures RustMain.ParseLine(t, lines[0]) == Ok(t) && RustMain.ParseLine(t, lines[1]) == Ok(t)
      ensures RustMain.ParseLine(t, lines[|lines| - 1]) == Ok(t)
    {
      RustMain.UnknownKeyIgnored(t, lines[0]);
      RustMain.UnknownKeyIgnored(t, lines[1]);
      RustMain.UnknownKeyIgnored(t, lines[|lines| - 1]);
    }
    forall t: Snapshot, i | 2 <= i < |lines| - 1
      ensures RustMain.ParseLine(t, lines[i]).Ok? && RustMain.ParseLine(t, lines[i]) == GoMain.ParseLine(t, lines[i])
    {
      LineAgrees(t, lines[i]);
    }
    FoldSkipsFrame(RustMain.ParseLine, GoMain.ParseLine, Zero, lines);
  }

  /** The whole runs agree on `ioreg` output without carriage returns,
      starting and ending with visible characters, whose frame lines name no field and whose other
      lines are well formed. */
  lemma OutputsAgree(out: string)
    requires '\r' !in out && out != [] && !IsSpace(out[0]) && !IsSpace(out[|out| - 1])
    requires Framed(GoMain.Lines(out))
    ensures RustMain.Run(out).Ok?
    ensures RustMain.Run(out) == GoMain.Parse(out)
  {
    var lines := GoMain.Lines(out);
    SameLines(out);
    assert RustMain.Run(out) == Fold(RustMain.ParseLine, Zero, lines);
    assert GoMain.Parse(out) == GoMain.ParseLines(lines);
    ReportsAgree(lines);
  }

  /** On such output both programs see the same lines. */
  lemma SameLines(out: string)
    requires '\r' !in out && out != [] && !IsSpace(out[0]) && !IsSpace(out[|out| - 1])
    ensures RustMain.StdoutLines(out) == GoMain.Lines(out)
  {
    StripKept(out, IsSpace);
    RustMain.StdoutLinesPlain(out);
  }

  /** `ioreg` ends its output with a newline; the programs still see the
      same lines, those of the text before it. */
  lemma SameLinesTerminated(core: string)
    requires '\r' !in core && core != [] && !IsSpace(core[0]) && !IsSpace(core[|core| - 1])
    ensures RustMain.StdoutLines(core + "\n") == GoMain.Lines(core + "\n") == GoMain.Lines(core)
  {
    RustMain.StdoutLinesNewline(core);
    StripTrailing(core, "\n", IsSpace);
    SameLines(core);
    RustMain.StdoutLinesPlain(core);
  }

  /** The whole runs agree on such output followed by the newline that
      ends it. */
  lemma OutputsAgreeTerminated(core: string)
    requires '\r' !in core && core != [] && !IsSpace(core[0]) && !IsSpace(core[|core| - 1])
    requires Framed(GoMain.Lines(core))
    ensures RustMain.Run(core + "\n").Ok?
    ensures RustMain.Run(core + "\n") == GoMain.Parse(core + "\n") == RustMain.Run(core)
  {
    SameLinesTerminated(core);
    OutputsAgree(core);
    SameLines(core);
  }

  /** A capacity or cycle count that is not a 64-bit decimal makes Rust
      panic, while Go stores 0 or a 64-bit bound and carries on. */
  lemma MalformedCountDiffers(s: Snapshot, line: string, f: Field)
    requires LineField(line) == Some(f) && f != IsCharging && f != Temperature && '=' in line
    requires ParseIsize(ValueOf(line).value).None?
    ensures RustMain.ParseLine(s, line) == Err(InvalidNumber(KeyName(f), ValueOf(line).value))
    ensures var n := Atoi(ValueOf(line).value);
      GoMain.ParseLine(s, line) == Ok(Store(s, f, n)) && (n == 0 || n == MinInt64 || n == MaxInt64)
  {
    RustMain.CountParsed(s, line, f);
    GoMain.NumberStored(s, line, f);
  }

  /** A temperature reading beyond 64 bits: Rust reads it in full, Go clamps it. */
  lemma WideTemperatureDiffers(s: Snapshot, line: string)
    requires LineField(line) == Some(Temperature) && '=' in line
    requires ParseInteger(ValueOf(line).value).Some? && !InInt64(ParseInteger(ValueOf(line).value).value)
    ensures var n := ParseInteger(ValueOf(line).value).value;
      RustMain.ParseLine(s, line) == Ok(s.(temperature := n))
      && GoMain.ParseLine(s, line) == Ok(s.(temperature := Clamp(n)))
      && Clamp(n) != n
  {
    RustMain.TemperatureParsed(s, line);
    FieldOfKeyName(KeyOf(line), Temperature);
    GoMain.NumberStored(s, line, Temperature);
  }

  /** A line without `=` whose key is not one of the six: Rust passes over
      it, Go panics. */
  lemma BareUnknownLineDiffers(s: Snapshot, line: string)
    requires LineField(line).None? && '=' !in line
    ensures RustMain.ParseLine(s, line) == Ok(s)
    ensures GoMain.ParseLine(s, line) == Err(NoSeparator(line))
  {
    RustMain.UnknownKeyIgnored(s, line);
    GoMain.NoSeparatorFails(s, line);
  }

  /** A recognised key without `=`: both panic, each its own way. */
  lemma BareKnownLineFails(s: Snapshot, line: string)
    requires LineField(line).Some? && '=' !in line
    ensures RustMain.ParseLine(s, line) == Err(MissingValue(KeyOf(line)))
    ensures GoMain.ParseLine(s, line) == Err(NoSeparator(line))
  {
    RustMain.MissingValueFails(s, line);
    GoMain.NoSeparatorFails(s, line);
  }
}
