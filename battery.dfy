/** The battery snapshot both programs fill from `ioreg` text, the six keys
    they recognise, how a line splits into key and value, and the fold of a
    per-line step over the report with what it guarantees. */
module Battery {
  import opened Wrappers
  import opened Text
  import opened Decimal

  /** `Info` in both programs. The temperature is kept as the raw reading
      in hundredths of a degree Celsius (3650 stands for 36.50). */
  datatype Snapshot = Snapshot(
    temperature: int,
    cyclesCount: int,
    designCapacity: int,
    maxCapacity: int,
    currentCapacity: int,
    isCharging: bool)

  /** `Info::default()` in Rust, `Info{}` in Go. */
  const Zero: Snapshot := Snapshot(0, 0, 0, 0, 0, false)

  /** The snapshot field each recognised key writes. */
  datatype Field = IsCharging | MaxCapacity | CurrentCapacity | DesignCapacity | CycleCount | Temperature

  /** The key as it appears in the report. */
  function KeyName(f: Field): string {
    match f
    case IsCharging => "IsCharging"
    case MaxCapacity => "AppleRawMaxCapacity"
    case CurrentCapacity => "AppleRawCurrentCapacity"
    case DesignCapacity => "DesignCapacity"
    case CycleCount => "CycleCount"
    case Temperature => "Temperature"
  }

  /** The field a key names, if it is one of the six. */
  function FieldOf(key: string): Option<Field>
  {
    if key == "IsCharging" then Some(IsCharging)
    else if key == "AppleRawMaxCapacity" then Some(MaxCapacity)
    else if key == "AppleRawCurrentCapacity" then Some(CurrentCapacity)
    else if key == "DesignCapacity" then Some(DesignCapacity)
    else if key == "CycleCount" then Some(CycleCount)
    else if key == "Temperature" then Some(Temperature)
    else None
  }

  /** Exactly the six key names are recognised, each naming its own field. */
  lemma FieldOfKeyName(key: string, f: Field)
    ensures FieldOf(KeyName(f)) == Some(f)
    ensures FieldOf(key) == Some(f) ==> key == KeyName(f)
  {
  }

  /** Key names are plain words: no `=` and no quotes. */
  lemma KeyNameShape(f: Field)
    ensures var k := KeyName(f);
      k != [] && '=' !in k && k[0] != '"' && k[|k| - 1] != '"'
  {
  }

  lemma UnknownKey(key: string)
    requires FieldOf(key).None?
    ensures key != "IsCharging" && key != "AppleRawMaxCapacity" && key != "AppleRawCurrentCapacity"
    ensures key != "DesignCapacity" && key != "CycleCount" && key != "Temperature"
  {
  }

  /** The field the key of a line names, if any. */
  function LineField(line: string): Option<Field> {
    FieldOf(KeyOf(line))
  }

  predicate SameField(s: Snapshot, t: Snapshot, f: Field) {
    match f
    case IsCharging => s.isCharging == t.isCharging
    case MaxCapacity => s.maxCapacity == t.maxCapacity
    case CurrentCapacity => s.currentCapacity == t.currentCapacity
    case DesignCapacity => s.designCapacity == t.designCapacity
    case CycleCount => s.cyclesCount == t.cyclesCount
    case Temperature => s.temperature == t.temperature
  }

  /** `s` and `t` agree on every field except perhaps `f`. */
  predicate SameExcept(s: Snapshot, t: Snapshot, f: Field) {
    forall g: Field :: g != f ==> SameField(s, t, g)
  }

  /** The value of one of the five integer fields. */
  function IntField(s: Snapshot, f: Field): int
    requires f != IsCharging
  {
    match f
    case MaxCapacity => s.maxCapacity
    case CurrentCapacity => s.currentCapacity
    case DesignCapacity => s.designCapacity
    case CycleCount => s.cyclesCount
    case Temperature => s.temperature
  }

  /** `s` with the integer field `f` overwritten by `n`. */
  function Store(s: Snapshot, f: Field, n: int): (t: Snapshot)
    requires f != IsCharging
    ensures IntField(t, f) == n && SameExcept(s, t, f)
  {
    match f
    case MaxCapacity => s.(maxCapacity := n)
    case CurrentCapacity => s.(currentCapacity := n)
    case DesignCapacity => s.(designCapacity := n)
    case CycleCount => s.(cyclesCount := n)
    case Temperature => s.(temperature := n)
  }

  lemma AllFieldsSame(s: Snapshot, t: Snapshot)
    requires forall g: Field :: SameField(s, t, g)
    ensures s == t
  {
    assert SameField(s, t, IsCharging) && SameField(s, t, MaxCapacity);
    assert SameField(s, t, CurrentCapacity) && SameField(s, t, DesignCapacity);
    assert SameField(s, t, CycleCount) && SameField(s, t, Temperature);
  }

  /** Why a run aborts. Rust panics in `unwrap` on a recognised key without
      `=` and on a number it cannot parse; Go panics when the report has
      fewer than three lines and on a scanned line without `=`. */
  datatype Failure =
    | MissingValue(key: string)
    | InvalidNumber(key: string, text: string)
    | TooFewLines(count: nat)
    | NoSeparator(line: string)

  /** The key of a line: the text before the first `=` (the whole line when
      there is none), trimmed, then cleared of leading and trailing quotes. */
  function KeyOf(line: string): string
  {
    TrimQuotes(Trim(Split(line, '=')[0]))
  }

  /** A key never holds `=` and never starts or ends with a quote. */
  lemma KeyShape(line: string)
    ensures var key := KeyOf(line);
      '=' !in key && (key != [] ==> key[0] != '"' && key[|key| - 1] != '"')
  {
    var head := Split(line, '=')[0];
    assert '=' !in head;
    StripKeeps(head, IsSpace, '=');
    StripKeeps(Trim(head), IsQuote, '=');
    StripIsSlice(Trim(head), IsQuote);
  }

  /** The value of a line: the trimmed text between the first and the
      second `=`, or none when the line has no `=`. */
  function ValueOf(line: string): (value: Option<string>)
    ensures value.None? <==> '=' !in line
  {
    var parts := Split(line, '=');
    if |parts| < 2 then None else Some(Trim(parts[1]))
  }

  /** A line the way `ioreg` prints a property: indentation, the quoted
      key, ` = ` and the value. */
  function PropertyLine(indent: string, key: string, value: string): string {
    indent + "\"" + key + "\" = " + value
  }

  /** Key and value come back out of a property line. Whatever follows
      the value up to the next `=` joins it; with nothing, or another `=`,
      after it the value is exactly the one printed. */
  lemma PropertyLineFields(indent: string, key: string, value: string, rest: string)
    requires AllDropped(indent, IsSpace)
    requires '=' !in key && (key != [] ==> key[0] != '"' && key[|key| - 1] != '"')
    requires '=' !in value && (value != [] ==> !IsSpace(value[0]) && !IsSpace(value[|value| - 1]))
    ensures KeyOf(PropertyLine(indent, key, value) + rest) == key
    ensures ValueOf(PropertyLine(indent, key, value) + rest) == Some(Trim(value + TakeField(rest)))
    ensures rest == [] || rest[0] == '=' ==> ValueOf(PropertyLine(indent, key, value) + rest) == Some(value)
  {
    var line := PropertyLine(indent, key, value) + rest;
    var head := indent + "\"" + key + "\" ";
    var tail := " " + value + rest;
    PropertyLineSplits(indent, key, value, rest);
    SplitCons(head, '=', tail);
    assert Split(line, '=') == [head] + Split(tail, '=');
    PropertyKey(indent, key);
    PropertyValue(value, rest);
    if rest == [] || rest[0] == '=' {
      PropertyValueAlone(value, rest);
    }
  }

  /** The first `=` of a property line is the one after the key. */
  lemma PropertyLineSplits(indent: string, key: string, value: string, rest: string)
    requires AllDropped(indent, IsSpace) && '=' !in key
    ensures PropertyLine(indent, key, value) + rest
      == (indent + "\"" + key + "\" ") + ['='] + (" " + value + rest)
    ensures '=' !in indent + "\"" + key + "\" "
  {
    DroppedExcludes(indent, IsSpace, '=');
  }

  /** A property line on its own reads back as its key and value. */
  lemma PrintedFields(indent: string, key: string, value: string)
    requires AllDropped(indent, IsSpace)
    requires '=' !in key && (key != [] ==> key[0] != '"' && key[|key| - 1] != '"')
    requires '=' !in value && (value != [] ==> !IsSpace(value[0]) && !IsSpace(value[|value| - 1]))
    ensures '=' in PropertyLine(indent, key, value)
    ensures KeyOf(PropertyLine(indent, key, value)) == key
    ensures ValueOf(PropertyLine(indent, key, value)) == Some(value)
  {
    var rest: string := [];
    PropertyLineFields(indent, key, value, rest);
    assert PropertyLine(indent, key, value) + rest == PropertyLine(indent, key, value);
  }

  /** A printed number field reads back as its key and digits. */
  lemma PrintedNumber(indent: string, f: Field, n: int)
    requires AllDropped(indent, IsSpace)
    ensures var line := PropertyLine(indent, KeyName(f), ShowInt(n));
      '=' in line && LineField(line) == Some(f) && ValueOf(line) == Some(ShowInt(n))
  {
    KeyNameShape(f);
    ShowIntChars(n);
    PrintedFields(indent, KeyName(f), ShowInt(n));
    FieldOfKeyName(KeyName(f), f);
  }

  /** A printed `IsCharging` flag reads back as `Yes` or `No`. */
  lemma PrintedFlag(indent: string, yes: bool)
    requires AllDropped(indent, IsSpace)
    ensures var line := PropertyLine(indent, "IsCharging", if yes then "Yes" else "No");
      '=' in line && LineField(line) == Some(IsCharging)
      && ValueOf(line) == Some(if yes then "Yes" else "No")
  {
    KeyNameShape(IsCharging);
    PrintedFields(indent, "IsCharging", if yes then "Yes" else "No");
    FieldOfKeyName("IsCharging", IsCharging);
  }

  /** The six properties of a sample report, as `ioreg` prints them: on
      charge, 5000 of 5500 mAh at full charge, 4000 mAh now, 120 cycles,
      32.00 degrees Celsius. */
  function SampleProperties(indent: string): seq<string> {
    [PropertyLine(indent, "IsCharging", "Yes"),
     PropertyLine(indent, KeyName(MaxCapacity), ShowInt(5000)),
     PropertyLine(indent, KeyName(CurrentCapacity), ShowInt(4000)),
     PropertyLine(indent, KeyName(DesignCapacity), ShowInt(5500)),
     PropertyLine(indent, KeyName(CycleCount), ShowInt(120)),
     PropertyLine(indent, KeyName(Temperature), ShowInt(3200))]
  }

  /** The snapshot the sample report describes. */
  const SampleSnapshot: Snapshot := Snapshot(3200, 120, 5500, 5000, 4000, true)

  /** Running a step that reads each printed property back over the sample
      gives the sample snapshot. */
  lemma SampleFold(step: (Snapshot, string) -> Result<Snapshot, Failure>, indent: string)
    requires forall s: Snapshot :: step(s, SampleProperties(indent)[0]) == Ok(s.(isCharging := true))
    requires forall s: Snapshot, i :: 1 <= i < 6 ==>
      step(s, SampleProperties(indent)[i]) == Ok(Store(s, SampleField(i), SampleValue(i)))
    ensures Fold(step, Zero, SampleProperties(indent)) == Ok(SampleSnapshot)
  {
    var lines := SampleProperties(indent);
    var s := Zero.(isCharging := true);
    assert lines[..0] == [];
    FoldPrefix(step, Zero, lines, 0);
    assert Fold(step, Zero, lines[..1]) == Ok(s);
    for i := 1 to 6
      invariant Fold(step, Zero, lines[..i]) == Ok(s)
      invariant s == SampleUpTo(i)
    {
      FoldPrefix(step, Zero, lines, i);
      s := Store(s, SampleField(i), SampleValue(i));
    }
    assert lines[..6] == lines;
  }

  /** The sample snapshot after its first `n` properties. */
  function SampleUpTo(n: int): Snapshot
    requires 1 <= n <= 6
  {
    if n == 1 then Zero.(isCharging := true)
    else Store(SampleUpTo(n - 1), SampleField(n - 1), SampleValue(n - 1))
  }

  lemma SampleLines(indent: string)
    ensures SampleProperties(indent)[0] == PropertyLine(indent, "IsCharging", "Yes")
    ensures forall i :: 1 <= i < 6 ==>
      SampleProperties(indent)[i] == PropertyLine(indent, KeyName(SampleField(i)), ShowInt(SampleValue(i)))
  {
    var p := SampleProperties(indent);
    forall i | 1 <= i < 6
      ensures p[i] == PropertyLine(indent, KeyName(SampleField(i)), ShowInt(SampleValue(i)))
    {
      if i == 1 {
      } else if i == 2 {
      } else if i == 3 {
      } else if i == 4 {
      } else {
        assert i == 5;
      }
    }
  }

  function SampleField(i: int): (f: Field)
    ensures f != IsCharging
  {
    if i == 1 then MaxCapacity else if i == 2 then CurrentCapacity
    else if i == 3 then DesignCapacity else if i == 4 then CycleCount else Temperature
  }

  function SampleValue(i: int): int {
    if i == 1 then 5000 else if i == 2 then 4000
    else if i == 3 then 5500 else if i == 4 then 120 else 3200
  }

  lemma PropertyKey(indent: string, key: string)
    requires AllDropped(indent, IsSpace)
    requires key != [] ==> key[0] != '"' && key[|key| - 1] != '"'
    ensures TrimQuotes(Trim(indent + "\"" + key + "\" ")) == key
  {
    var quoted := "\"" + key + "\"";
    assert indent + "\"" + key + "\" " == indent + quoted + " ";
    assert AllDropped(" ", IsSpace) && AllDropped("\"", IsQuote);
    StripEnclosed(indent, quoted, " ", IsSpace);
    StripEnclosed("\"", key, "\"", IsQuote);
  }

  lemma PropertyValue(value: string, rest: string)
    requires '=' !in value
    ensures Trim(Split(" " + value + rest, '=')[0]) == Trim(value + TakeField(rest))
  {
    assert '=' !in " " + value;
    TakeFieldAppend(" " + value, rest);
    ConcatAssoc(" ", value, TakeField(rest));
    assert AllDropped(" ", IsSpace);
    StripLeading(" ", value + TakeField(rest), IsSpace);
  }

  lemma PropertyValueAlone(value: string, rest: string)
    requires value != [] ==> !IsSpace(value[0]) && !IsSpace(value[|value| - 1])
    requires rest == [] || rest[0] == '='
    ensures Trim(value + TakeField(rest)) == value
  {
    EmptyField(rest);
    assert value + TakeField(rest) == value;
    StripKept(value, IsSpace);
  }

  lemma EmptyField(rest: string)
    requires rest == [] || rest[0] == '='
    ensures TakeField(rest) == []
  {
    if rest != [] {
      IndexOfUnique(rest, '=', 0);
    }
  }

  /** The text of `s` before its first `=`: the first piece of splitting `s` on `=`. */
  function TakeField(s: string): (r: string)
    ensures '=' !in r
    ensures r == Split(s, '=')[0]
  {
    var i := IndexOf(s, '=');
    SplitHead(s, '=');
    if i < 0 then s else s[..i]
  }

  /** Text free of `=` in front passes through to the field. */
  lemma TakeFieldAppend(x: string, y: string)
    requires '=' !in x
    ensures TakeField(x + y) == x + TakeField(y)
  {
    var i := IndexOf(y, '=');
    if 0 <= i {
      var s := x + y;
      assert s[..|x| + i] == x + y[..i];
      IndexOfUnique(s, '=', |x| + i);
    } else {
      assert '=' !in x + y;
    }
  }

  /** Runs `step` over the lines in order from `s`, stopping at the first
      failure: the `for` loop over the report in both programs. */
  function Fold(step: (Snapshot, string) -> Result<Snapshot, Failure>, s: Snapshot, lines: seq<string>): Result<Snapshot, Failure>
    decreases |lines|
  {
    if lines == [] then Ok(s)
    else match Fold(step, s, lines[..|lines| - 1])
      case Err(e) => Err(e)
      case Ok(t) => step(t, lines[|lines| - 1])
  }

  /** What a successful step may do to the snapshot: a line that names no
      field leaves it alone, one that names a field changes at most that field. */
  predicate Writes(s: Snapshot, t: Snapshot, named: Option<Field>) {
    match named
    case None => t == s
    case Some(f) => SameExcept(s, t, f)
  }

  predicate SameNamed(s: Snapshot, t: Snapshot, named: Option<Field>) {
    match named
    case None => true
    case Some(f) => SameField(s, t, f)
  }

  /** A step in which a line fails, or writes the field `field` names for it,
      the same way whatever snapshot it is applied to. Both programs' steps
      are keyed with `LineField`. */
  ghost predicate Keyed(step: (Snapshot, string) -> Result<Snapshot, Failure>, field: string -> Option<Field>) {
    forall s: Snapshot, line: string ::
      (step(s, line).Ok? <==> step(Zero, line).Ok?)
      && (step(s, line).Ok? ==>
            Writes(s, step(s, line).value, field(line))
            && SameNamed(step(s, line).value, step(Zero, line).value, field(line)))
  }

  lemma FoldPrefix(step: (Snapshot, string) -> Result<Snapshot, Failure>, s: Snapshot, lines: seq<string>, i: nat)
    requires i < |lines|
    ensures Fold(step, s, lines[..i + 1])
      == match Fold(step, s, lines[..i]) case Err(e) => Err(e) case Ok(t) => step(t, lines[i])
  {
    assert lines[..i + 1][..i] == lines[..i];
  }

  /** One more line: the step applied to what the prefix gave, and if that
      fails the whole report fails with it. */
  lemma FoldStep(step: (Snapshot, string) -> Result<Snapshot, Failure>, s: Snapshot, lines: seq<string>, i: nat)
    requires i < |lines| && Fold(step, s, lines[..i]).Ok?
    ensures Fold(step, s, lines[..i + 1]) == step(Fold(step, s, lines[..i]).value, lines[i])
    ensures Fold(step, s, lines[..i + 1]).Err? ==> Fold(step, s, lines) == Fold(step, s, lines[..i + 1])
  {
    FoldPrefix(step, s, lines, i);
    if Fold(step, s, lines[..i + 1]).Err? {
      FoldFailureSticks(step, s, lines, i + 1);
    }
  }

  /** Running over `a + b` is running over `a`, then over `b` from where
      `a` left off. */
  lemma {:induction false} FoldAppend(step: (Snapshot, string) -> Result<Snapshot, Failure>, s: Snapshot, a: seq<string>, b: seq<string>)
    ensures Fold(step, s, a + b)
      == match Fold(step, s, a) case Err(e) => Err(e) case Ok(t) => Fold(step, t, b)
  {
    if b == [] {
      assert a + b == a;
    } else {
      var n := |b| - 1;
      FoldAppend(step, s, a, b[..n]);
      assert (a + b)[..|a + b| - 1] == a + b[..n];
    }
  }

  /** Two steps that agree, and succeed, on every line give the same run. */
  lemma {:induction false} FoldSame(step1: (Snapshot, string) -> Result<Snapshot, Failure>, step2: (Snapshot, string) -> Result<Snapshot, Failure>, s: Snapshot, lines: seq<string>)
    requires forall t: Snapshot, i :: 0 <= i < |lines| ==> step1(t, lines[i]).Ok? && step1(t, lines[i]) == step2(t, lines[i])
    ensures Fold(step1, s, lines).Ok? && Fold(step1, s, lines) == Fold(step2, s, lines)
  {
    if lines != [] {
      var n := |lines| - 1;
      assert forall i :: 0 <= i < n ==> lines[..n][i] == lines[i];
      FoldSame(step1, step2, s, lines[..n]);
    }
  }

  /** A step that passes over the first two lines and the last, and agrees
      with another everywhere between, runs like the other on the lines in
      between. */
  lemma FoldSkipsFrame(step1: (Snapshot, string) -> Result<Snapshot, Failure>, step2: (Snapshot, string) -> Result<Snapshot, Failure>, s: Snapshot, lines: seq<string>)
    requires |lines| >= 3
    requires forall t: Snapshot :: step1(t, lines[0]) == Ok(t) && step1(t, lines[1]) == Ok(t) && step1(t, lines[|lines| - 1]) == Ok(t)
    requires forall t: Snapshot, i :: 2 <= i < |lines| - 1 ==> step1(t, lines[i]).Ok? && step1(t, lines[i]) == step2(t, lines[i])
    ensures Fold(step1, s, lines).Ok? && Fold(step1, s, lines) == Fold(step2, s, lines[2..|lines| - 1])
  {
    var n := |lines| - 1;
    var head, body, last := lines[..2], lines[2..n], [lines[n]];
    assert lines == head + body + last;
    assert head[..1][..0] == [] && head[..2] == head;
    FoldPrefix(step1, s, head, 0);
    FoldPrefix(step1, s, head, 1);
    assert forall i :: 0 <= i < |body| ==> body[i] == lines[i + 2];
    FoldSame(step1, step2, s, body);
    FoldAppend(step1, s, head, body);
    FoldAppend(step1, s, head + body, last);
    assert last[..0] == [] && last[..1] == last;
    FoldPrefix(step1, Fold(step1, s, body).value, last, 0);
  }

  /** Once a prefix of the report fails, the whole report fails the same way. */
  lemma {:induction false} FoldFailureSticks(step: (Snapshot, string) -> Result<Snapshot, Failure>, s: Snapshot, lines: seq<string>, i: nat)
    requires i <= |lines| && Fold(step, s, lines[..i]).Err?
    ensures Fold(step, s, lines) == Fold(step, s, lines[..i])
  {
    if i < |lines| {
      var n := |lines| - 1;
      assert lines[..n][..i] == lines[..i];
      FoldFailureSticks(step, s, lines[..n], i);
      assert lines[..n + 1] == lines;
      FoldPrefix(step, s, lines, n);
    } else {
      assert lines[..i] == lines;
    }
  }

  /** With a keyed step the report succeeds exactly when every line does on
      its own, whatever the starting snapshot. */
  lemma {:induction false} FoldSucceeds(step: (Snapshot, string) -> Result<Snapshot, Failure>, field: string -> Option<Field>, s: Snapshot, lines: seq<string>)
    requires Keyed(step, field)
    ensures Fold(step, s, lines).Ok? <==> forall i :: 0 <= i < |lines| ==> step(Zero, lines[i]).Ok?
  {
    if lines != [] {
      var n := |lines| - 1;
      FoldSucceeds(step, field, s, lines[..n]);
      assert forall i :: 0 <= i < n ==> lines[..n][i] == lines[i];
      match Fold(step, s, lines[..n])
      case Ok(t) =>
        assert step(t, lines[n]).Ok? <==> step(Zero, lines[n]).Ok?;
      case Err(_) =>
    }
  }

  /** Index of the last line for which `field` names `f`, or -1. */
  function LastWrite(lines: seq<string>, field: string -> Option<Field>, f: Field): (i: int)
    ensures -1 <= i < |lines|
    ensures 0 <= i ==> field(lines[i]) == Some(f)
    ensures forall j :: i < j < |lines| ==> field(lines[j]) != Some(f)
  {
    if lines == [] then -1
    else if field(lines[|lines| - 1]) == Some(f) then |lines| - 1
    else LastWrite(lines[..|lines| - 1], field, f)
  }

  /** The last occurrence of a key wins: after a successful run each field
      holds what the last line naming it wrote, and keeps its starting value
      when no line names it. */
  lemma {:induction false} LastWriteWins(step: (Snapshot, string) -> Result<Snapshot, Failure>, field: string -> Option<Field>, s: Snapshot, lines: seq<string>, f: Field)
    requires Keyed(step, field) && Fold(step, s, lines).Ok?
    ensures var i := LastWrite(lines, field, f);
      if i < 0 then SameField(Fold(step, s, lines).value, s, f)
      else step(Zero, lines[i]).Ok? && SameField(Fold(step, s, lines).value, step(Zero, lines[i]).value, f)
  {
    if lines != [] {
      var n := |lines| - 1;
      var line := lines[n];
      var t := Fold(step, s, lines[..n]).value;
      var u := step(t, line).value;
      assert Fold(step, s, lines) == step(t, line);
      assert step(t, line).Ok? <==> step(Zero, line).Ok?;
      assert Writes(t, u, field(line));
      if field(line) == Some(f) {
        assert SameNamed(u, step(Zero, line).value, field(line));
      } else {
        assert SameField(t, u, f);
        LastWriteWins(step, field, s, lines[..n], f);
        assert forall j :: 0 <= j < n ==> lines[..n][j] == lines[j];
      }
    }
  }

  /** Reading the same report again on top of its own result changes
      nothing: parsing is idempotent. */
  lemma Reparse(step: (Snapshot, string) -> Result<Snapshot, Failure>, field: string -> Option<Field>, s: Snapshot, lines: seq<string>)
    requires Keyed(step, field) && Fold(step, s, lines).Ok?
    ensures Fold(step, Fold(step, s, lines).value, lines) == Fold(step, s, lines)
  {
    var t := Fold(step, s, lines).value;
    FoldSucceeds(step, field, s, lines);
    FoldSucceeds(step, field, t, lines);
    var u := Fold(step, t, lines).value;
    forall g: Field ensures SameField(u, t, g) {
      LastWriteWins(step, field, s, lines, g);
      LastWriteWins(step, field, t, lines, g);
    }
    AllFieldsSame(u, t);
  }
}
