/** Decimal integer text: the integer parsers the two programs call
    (Rust `str::parse::<isize>`, Go `strconv.Atoi`) and decimal rendering,
    which is how the battery report writes its numbers. Both programs run
    on 64-bit targets, so `isize` and Go's `int` hold [MinInt64, MaxInt64]. */
module Decimal {
  import opened Wrappers

  const MinInt64: int := -0x8000_0000_0000_0000
  const MaxInt64: int := 0x7FFF_FFFF_FFFF_FFFF
  const MaxUint64: int := 0xFFFF_FFFF_FFFF_FFFF

  predicate InInt64(n: int) {
    MinInt64 <= n <= MaxInt64
  }

  predicate IsDigit(c: char) {
    '0' <= c <= '9'
  }

  predicate AllDigits(s: string) {
    forall i :: 0 <= i < |s| ==> IsDigit(s[i])
  }

  function DigitValue(c: char): nat
    requires IsDigit(c)
  {
    c as int - '0' as int
  }

  function DigitChar(d: nat): (c: char)
    requires d < 10
    ensures IsDigit(c) && DigitValue(c) == d
  {
    ('0' as int + d) as char
  }

  /** The number a string of decimal digits denotes. */
  function DigitsValue(s: string): nat
    requires AllDigits(s)
  {
    if s == [] then 0 else DigitsValue(s[..|s| - 1]) * 10 + DigitValue(s[|s| - 1])
  }

  /** A signed decimal integer literal: an optional `+` or `-`, then at
      least one digit and nothing else. */
  function ParseInteger(s: string): (r: Option<int>)
  {
    if |s| > 0 && (s[0] == '+' || s[0] == '-') then
      var digits := s[1..];
      if digits != [] && AllDigits(digits) then
        Some(if s[0] == '-' then 0 - DigitsValue(digits) else DigitsValue(digits))
      else None
    else if s != [] && AllDigits(s) then Some(DigitsValue(s))
    else None
  }

  /** `s.parse::<isize>()` in Rust: a decimal literal whose value fits
      in 64 bits, anything else an error. */
  function ParseIsize(s: string): (r: Option<int>)
    ensures r.Some? <==> ParseInteger(s).Some? && InInt64(ParseInteger(s).value)
    ensures r.Some? ==> r == ParseInteger(s)
  {
    match ParseInteger(s)
    case Some(n) => if InInt64(n) then Some(n) else None
    case None => None
  }

  function Clamp(n: int): (r: int)
    ensures InInt64(r)
    ensures InInt64(n) ==> r == n
    ensures n < MinInt64 ==> r == MinInt64
    ensures n > MaxInt64 ==> r == MaxInt64
  {
    if n < MinInt64 then MinInt64 else if n > MaxInt64 then MaxInt64 else n
  }

  /** Length of the run of digits at the start of `s`. */
  function DigitRun(s: string): (k: nat)
    ensures k <= |s| && AllDigits(s[..k])
    ensures k < |s| ==> !IsDigit(s[k])
  {
    if s != [] && IsDigit(s[0]) then
      var k := DigitRun(s[1..]);
      assert s[..k + 1] == [s[0]] + s[1..][..k];
      k + 1
    else 0
  }

  /** The text after an optional leading sign. */
  function Unsigned(s: string): (body: string)
    ensures |body| <= |s|
  {
    if |s| > 0 && (s[0] == '+' || s[0] == '-') then s[1..] else s
  }

  function Pow10(n: nat): nat {
    if n == 0 then 1 else 10 * Pow10(n - 1)
  }

  /** `n` digits denote less than `10^n`. */
  lemma {:induction false} DigitsValueBound(t: string)
    requires AllDigits(t)
    ensures DigitsValue(t) < Pow10(|t|)
  {
    if t != [] {
      var u := t[..|t| - 1];
      assert AllDigits(u) by {
        assert forall i :: 0 <= i < |u| ==> u[i] == t[i];
      }
      DigitsValueBound(u);
    }
  }

  /** `Pow10` grows with its exponent. */
  lemma {:induction false} Pow10Monotone(m: nat, n: nat)
    requires m <= n
    ensures Pow10(m) <= Pow10(n)
  {
    if m < n {
      Pow10Monotone(m, n - 1);
    }
  }

  /** The value `strconv.Atoi(s)` returns (its error is not looked at by
      the caller). A syntax error gives 0. Digits scanned past the unsigned
      64-bit range give a range error whose value is the bound of the sign,
      even when a bad character follows; a well-formed literal outside the
      signed range gives the bound as well. */
  function Atoi(s: string): (r: int)
    ensures InInt64(r)
    ensures ParseInteger(s).Some? ==> r == Clamp(ParseInteger(s).value)
    ensures ParseInteger(s).None? ==> r == 0 || r == MinInt64 || r == MaxInt64
  {
    var negative := |s| > 0 && s[0] == '-';
    var body := Unsigned(s);
    var k := DigitRun(body);
    var u: int := DigitsValue(body[..k]);
    assert k == |body| ==> body[..k] == body;
    if body == [] then 0
    else if u > MaxUint64 then (if negative then MinInt64 else MaxInt64)
    else if k < |body| then 0
    else Clamp(if negative then 0 - u else u)
  }

  /** Digits of a natural number, most significant first. */
  function ShowNat(n: nat): (s: string)
    ensures s != [] && AllDigits(s)
  {
    if n < 10 then [DigitChar(n)] else ShowNat(n / 10) + [DigitChar(n % 10)]
  }

  /** `{}` in Rust and `%d` in Go for an integer. */
  function ShowInt(n: int): (s: string)
  {
    if n < 0 then "-" + ShowNat(-n) else ShowNat(n)
  }

  /** A rendered integer is an optional `-` followed by digits. */
  lemma ShowIntChars(n: int)
    ensures var s := ShowInt(n);
      s != [] && forall i :: 0 <= i < |s| ==> IsDigit(s[i]) || (i == 0 && s[i] == '-')
  {
    if n < 0 {
      var t := ShowNat(-n);
      assert forall i :: 1 <= i < |t| + 1 ==> ShowInt(n)[i] == t[i - 1];
    }
  }

  lemma {:induction false} DigitsValueOfShowNat(n: nat)
    ensures DigitsValue(ShowNat(n)) == n
  {
    var s := ShowNat(n);
    if n >= 10 {
      DigitsValueOfShowNat(n / 10);
      assert s[..|s| - 1] == ShowNat(n / 10);
    }
  }

  /** Reading back a rendered integer gives the integer. */
  lemma ParseShowInt(n: int)
    ensures ParseInteger(ShowInt(n)) == Some(n)
  {
    if n < 0 {
      DigitsValueOfShowNat(-n);
      assert ShowInt(n)[1..] == ShowNat(-n);
    } else {
      DigitsValueOfShowNat(n);
    }
  }

  /** Rust reads back every rendered 64-bit integer. */
  lemma ParseIsizeShowInt(n: int)
    requires InInt64(n)
    ensures ParseIsize(ShowInt(n)) == Some(n)
  {
    ParseShowInt(n);
  }

  /** Go reads back every rendered 64-bit integer. */
  lemma AtoiShowInt(n: int)
    requires InInt64(n)
    ensures Atoi(ShowInt(n)) == n
  {
    ParseShowInt(n);
  }

  /** Where Rust's parse succeeds, Go's Atoi yields the same number. */
  lemma AtoiAgreesWithParseIsize(s: string)
    requires ParseIsize(s).Some?
    ensures Atoi(s) == ParseIsize(s).value
  {
  }

  /** Text that does not start with a digit (after an optional sign) is a
      syntax error for Atoi, which then gives 0. */
  lemma AtoiOfNonNumber(s: string)
    requires var body := if |s| > 0 && (s[0] == '+' || s[0] == '-') then s[1..] else s;
      body == [] || !IsDigit(body[0])
    ensures Atoi(s) == 0
  {
  }

  /** Text that is not a decimal literal is a syntax error for Atoi, which
      then gives 0, as long as the digits in front of the first bad
      character stay within 19, so that no range error comes first. */
  lemma AtoiSyntaxError(s: string)
    requires ParseInteger(s).None? && DigitRun(Unsigned(s)) <= 19
    ensures Atoi(s) == 0
  {
    var body := Unsigned(s);
    var k := DigitRun(body);
    if body != [] {
      DigitsValueBound(body[..k]);
      Pow10Monotone(k, 19);
      Pow10Nineteen();
    }
  }

  lemma Pow10Nineteen()
    ensures Pow10(19) == 10_000_000_000_000_000_000
  {
    assert Pow10(10) == 10_000_000_000;
  }

  /** In particular every non-literal of at most 20 characters gives 0:
      `12x`, `4.5`, `1 000`, the empty text. */
  lemma AtoiShortSyntaxError(s: string)
    requires ParseInteger(s).None? && |s| <= 20
    ensures Atoi(s) == 0
  {
    var body := Unsigned(s);
    if |body| == 20 {
      assert body == s && body[0] != '+' && body[0] != '-';
      if DigitRun(body) == 20 {
        assert false;
      }
    }
    AtoiSyntaxError(s);
  }
}
