/** String helpers used by both programs: whitespace and quote trimming
    (Rust `str::trim` / `trim_matches`, Go `strings.TrimSpace` / `strings.Trim`)
    and splitting on a separator (Rust `str::split`, Go `strings.Split`). */
module Text {

  /** Unicode White_Space: what Rust's `char::is_whitespace` and Go's
      `unicode.IsSpace` both accept. */
  predicate IsSpace(c: char) {
    ('\t' <= c <= '\r') || c == ' ' || c == '\U{85}' || c == '\U{A0}' || c == '\U{1680}'
    || ('\U{2000}' <= c <= '\U{200A}') || c == '\U{2028}' || c == '\U{2029}'
    || c == '\U{202F}' || c == '\U{205F}' || c == '\U{3000}'
  }

  predicate IsQuote(c: char) {
    c == '"'
  }

  predicate AllDropped(s: string, drop: char -> bool) {
    forall i :: 0 <= i < |s| ==> drop(s[i])
  }

  /** Removes every leading character that `drop` accepts. */
  function StripStart(s: string, drop: char -> bool): string
  {
    if s != [] && drop(s[0]) then StripStart(s[1..], drop) else s
  }

  /** Removes every trailing character that `drop` accepts. */
  function StripEnd(s: string, drop: char -> bool): string
  {
    if s != [] && drop(s[|s| - 1]) then StripEnd(s[..|s| - 1], drop) else s
  }

  /** Removes leading and trailing characters that `drop` accepts. */
  function Strip(s: string, drop: char -> bool): string
  {
    StripEnd(StripStart(s, drop), drop)
  }

  /** `str::trim` in Rust, `strings.TrimSpace` in Go. */
  function Trim(s: string): string {
    Strip(s, IsSpace)
  }

  /** `trim_matches('"')` in Rust, `strings.Trim(s, "\"")` in Go. */
  function TrimQuotes(s: string): string {
    Strip(s, IsQuote)
  }

  /** The leading strip cuts off exactly a run of dropped characters and
      stops at the first kept one. */
  lemma {:induction false} StripStartShape(s: string, drop: char -> bool)
    ensures var r := StripStart(s, drop);
      |r| <= |s| && r == s[|s| - |r|..]
      && (forall i :: 0 <= i < |s| - |r| ==> drop(s[i]))
      && (r != [] ==> !drop(r[0]))
  {
    if s != [] && drop(s[0]) {
      var t := s[1..];
      StripStartShape(t, drop);
      var r := StripStart(t, drop);
      assert r == t[|t| - |r|..] == s[|s| - |r|..];
      forall i | 1 <= i < |s| - |r|
        ensures drop(s[i])
      {
        assert s[i] == t[i - 1];
      }
    }
  }

  /** The trailing strip cuts off exactly a run of dropped characters and
      stops at the last kept one. */
  lemma {:induction false} StripEndShape(s: string, drop: char -> bool)
    ensures var r := StripEnd(s, drop);
      |r| <= |s| && r == s[..|r|]
      && (forall i :: |r| <= i < |s| ==> drop(s[i]))
      && (r != [] ==> !drop(r[|r| - 1]))
  {
    if s != [] && drop(s[|s| - 1]) {
      var t := s[..|s| - 1];
      StripEndShape(t, drop);
      var r := StripEnd(t, drop);
      assert r == t[..|r|] == s[..|r|];
      forall i | |r| <= i < |s| - 1
        ensures drop(s[i])
      {
        assert s[i] == t[i];
      }
    }
  }

  /** The stripped text is a slice of the input with only dropped characters
      cut off on each side, and it neither starts nor ends with one. */
  lemma StripIsSlice(s: string, drop: char -> bool)
    ensures var r := Strip(s, drop);
      var a := |s| - |StripStart(s, drop)|;
      0 <= a && a + |r| <= |s| && r == s[a..a + |r|]
      && AllDropped(s[..a], drop) && AllDropped(s[a + |r|..], drop)
      && (r != [] ==> !drop(r[0]) && !drop(r[|r| - 1]))
  {
    var t := StripStart(s, drop);
    var a := |s| - |t|;
    var r := StripEnd(t, drop);
    StripStartShape(s, drop);
    StripEndShape(t, drop);
    assert t == s[a..];
    assert r == t[..|r|];
    assert s[a..][..|r|] == s[a..a + |r|];
    PrefixDropped(s, a, drop);
    SuffixDropped(t, |r|, drop);
    assert s[a + |r|..] == t[|r|..];
    assert r != [] ==> r[0] == t[0];
  }

  lemma PrefixDropped(s: string, a: int, drop: char -> bool)
    requires 0 <= a <= |s| && forall i :: 0 <= i < a ==> drop(s[i])
    ensures AllDropped(s[..a], drop)
  {
    forall i | 0 <= i < a
      ensures drop(s[..a][i])
    {
      assert s[..a][i] == s[i];
    }
  }

  lemma SuffixDropped(t: string, b: int, drop: char -> bool)
    requires 0 <= b <= |t| && forall i :: b <= i < |t| ==> drop(t[i])
    ensures AllDropped(t[b..], drop)
  {
    forall i | 0 <= i < |t| - b
      ensures drop(t[b..][i])
    {
      assert t[b..][i] == t[b + i];
    }
  }

  /** A character `drop` keeps does not occur in dropped text. */
  lemma DroppedExcludes(w: string, drop: char -> bool, c: char)
    requires AllDropped(w, drop) && !drop(c)
    ensures c !in w
  {
    forall i | 0 <= i < |w|
      ensures w[i] != c
    {
      assert drop(w[i]);
    }
  }

  lemma Slices(s: string, a: nat, b: nat)
    requires a <= b <= |s|
    ensures s == s[..a] + s[a..b] + s[b..]
  {
  }

  lemma ConcatAssoc(a: string, b: string, c: string)
    ensures a + b + c == a + (b + c)
  {
  }

  /** Stripping only removes characters. */
  lemma StripKeeps(s: string, drop: char -> bool, c: char)
    requires c !in s
    ensures c !in Strip(s, drop)
  {
    StripIsSlice(s, drop);
    var r := Strip(s, drop);
    var a := |s| - |StripStart(s, drop)|;
    forall i | 0 <= i < |r|
      ensures r[i] != c
    {
      assert r[i] == s[a + i] && s[a + i] in s;
    }
  }

  /** Dropped characters in front never change the stripped start. */
  lemma {:induction false} StripStartPrefix(w: string, x: string, drop: char -> bool)
    requires AllDropped(w, drop)
    ensures StripStart(w + x, drop) == StripStart(x, drop)
  {
    if w != [] {
      assert (w + x)[0] == w[0] && drop(w[0]);
      assert (w + x)[1..] == w[1..] + x;
      StripStartPrefix(w[1..], x, drop);
    } else {
      assert w + x == x;
    }
  }

  /** Dropped characters at the back never change the stripped end. */
  lemma {:induction false} StripEndSuffix(x: string, w: string, drop: char -> bool)
    requires AllDropped(w, drop)
    ensures StripEnd(x + w, drop) == StripEnd(x, drop)
  {
    if w != [] {
      assert (x + w)[|x + w| - 1] == w[|w| - 1] && drop(w[|w| - 1]);
      assert (x + w)[..|x + w| - 1] == x + w[..|w| - 1];
      StripEndSuffix(x, w[..|w| - 1], drop);
    } else {
      assert x + w == x;
    }
  }

  /** Stripping the start of `x + y` only touches `x` once `x` holds a kept character. */
  lemma {:induction false} StripStartAppend(x: string, y: string, drop: char -> bool)
    requires !AllDropped(x, drop)
    ensures StripStart(x + y, drop) == StripStart(x, drop) + y
  {
    if drop(x[0]) {
      assert (x + y)[1..] == x[1..] + y;
      StripStartAppend(x[1..], y, drop);
    }
  }

  lemma StripLeading(w: string, x: string, drop: char -> bool)
    requires AllDropped(w, drop)
    ensures Strip(w + x, drop) == Strip(x, drop)
  {
    StripStartPrefix(w, x, drop);
  }

  lemma StripTrailing(x: string, w: string, drop: char -> bool)
    requires AllDropped(w, drop)
    ensures Strip(x + w, drop) == Strip(x, drop)
  {
    if AllDropped(x, drop) {
      StripStartPrefix(x, w, drop);
      StripStartPrefix(x, [], drop);
      assert x + [] == x;
      StripStartPrefix(w, [], drop);
      assert w + [] == w;
    } else {
      StripStartAppend(x, w, drop);
      StripEndSuffix(StripStart(x, drop), w, drop);
    }
  }

  /** Stripping removes exactly the dropped characters around a core that
      starts and ends with kept ones. */
  lemma StripEnclosed(w1: string, x: string, w2: string, drop: char -> bool)
    requires AllDropped(w1, drop) && AllDropped(w2, drop)
    requires x != [] ==> !drop(x[0]) && !drop(x[|x| - 1])
    ensures Strip(w1 + x + w2, drop) == x
  {
    assert w1 + x + w2 == w1 + (x + w2);
    StripLeading(w1, x + w2, drop);
    StripTrailing(x, w2, drop);
  }

  /** Text that starts and ends with kept characters is left as it is. */
  lemma StripKept(x: string, drop: char -> bool)
    requires x != [] ==> !drop(x[0]) && !drop(x[|x| - 1])
    ensures Strip(x, drop) == x
  {
  }

  /** Stripping twice is stripping once. */
  lemma StripIdempotent(s: string, drop: char -> bool)
    ensures Strip(Strip(s, drop), drop) == Strip(s, drop)
  {
    StripIsSlice(s, drop);
    StripKept(Strip(s, drop), drop);
  }

  /** First position of `c` in `s`, or -1 when `c` does not occur. */
  function IndexOf(s: string, c: char): (i: int)
    ensures -1 <= i < |s|
    ensures i < 0 ==> c !in s
    ensures 0 <= i ==> s[i] == c && c !in s[..i]
  {
    if s == [] then -1
    else if s[0] == c then 0
    else
      var j := IndexOf(s[1..], c);
      assert j >= 0 ==> s[..j + 1] == [s[0]] + s[1..][..j];
      if j < 0 then -1 else j + 1
  }

  /** Any position holding the first `c` is the one IndexOf finds. */
  lemma IndexOfUnique(s: string, c: char, i: int)
    requires 0 <= i < |s| && s[i] == c && c !in s[..i]
    ensures IndexOf(s, c) == i
  {
    var j := IndexOf(s, c);
    assert forall k :: 0 <= k < i ==> s[..i][k] == s[k];
    assert forall k :: 0 <= k < j ==> s[..j][k] == s[k];
  }

  /** The pieces of `s` between occurrences of `sep`: `str::split` and `strings.Split`. */
  function Split(s: string, sep: char): (parts: seq<string>)
    ensures |parts| >= 1
    ensures sep !in s ==> parts == [s]
    ensures sep in s ==> |parts| >= 2
    decreases |s|
  {
    var i := IndexOf(s, sep);
    if i < 0 then [s]
    else
      [s[..i]] + Split(s[i + 1..], sep)
  }

  /** Joining the pieces with `sep` gives the text back. */
  lemma {:induction false} JoinSplit(s: string, sep: char)
    ensures Join(Split(s, sep), sep) == s
    decreases |s|
  {
    var i := IndexOf(s, sep);
    if 0 <= i {
      var head, tail := s[..i], s[i + 1..];
      JoinSplit(tail, sep);
      JoinSplitCons(s, sep, i);
    }
  }

  lemma JoinSplitCons(s: string, sep: char, i: int)
    requires i == IndexOf(s, sep) && 0 <= i
    requires Join(Split(s[i + 1..], sep), sep) == s[i + 1..]
    ensures Join(Split(s, sep), sep) == s
  {
    var head, tail := s[..i], s[i + 1..];
    var rest := Split(tail, sep);
    assert Split(s, sep) == [head] + rest;
    JoinCons(head, rest, sep);
    Around(s, i);
  }

  /** Text is what comes before a position, the character there, and what follows. */
  lemma Around(s: string, i: int)
    requires 0 <= i < |s|
    ensures s == s[..i] + [s[i]] + s[i + 1..]
  {
  }

  lemma JoinCons(head: string, rest: seq<string>, sep: char)
    requires rest != []
    ensures Join([head] + rest, sep) == head + [sep] + Join(rest, sep)
  {
    assert ([head] + rest)[1..] == rest;
  }

  /** The pieces glued back together with `sep` between them. */
  function Join(parts: seq<string>, sep: char): string
  {
    if parts == [] then ""
    else if |parts| == 1 then parts[0]
    else parts[0] + [sep] + Join(parts[1..], sep)
  }

  /** The last piece follows the last separator. */
  lemma {:induction false} JoinSnoc(parts: seq<string>, sep: char)
    requires |parts| >= 2
    ensures Join(parts, sep) == Join(parts[..|parts| - 1], sep) + [sep] + parts[|parts| - 1]
  {
    var n := |parts| - 1;
    if |parts| > 2 {
      JoinSnoc(parts[1..], sep);
      assert parts[1..][..n - 1] == parts[..n][1..];
      assert Join(parts[..n], sep) == parts[0] + [sep] + Join(parts[..n][1..], sep);
    }
  }

  /** A character absent from the text is absent from every piece. */
  lemma SplitKeeps(s: string, sep: char, c: char)
    requires c !in s
    ensures forall i :: 0 <= i < |Split(s, sep)| ==> c !in Split(s, sep)[i]
    decreases |s|
  {
    var i := IndexOf(s, sep);
    if 0 <= i {
      var rest := s[i + 1..];
      assert forall k :: 0 <= k < |rest| ==> rest[k] == s[i + 1 + k];
      assert forall k :: 0 <= k < i ==> s[..i][k] == s[k];
      SplitKeeps(s[i + 1..], sep, c);
    }
  }

  /** Splitting undoes joining pieces that contain no separator. */
  lemma {:induction false} SplitJoin(parts: seq<string>, sep: char)
    requires |parts| >= 1
    requires forall i :: 0 <= i < |parts| ==> sep !in parts[i]
    ensures Split(Join(parts, sep), sep) == parts
  {
    if |parts| == 1 {
      assert sep !in Join(parts, sep);
    } else {
      var p, more := parts[0], parts[1..];
      assert parts == [p] + more;
      JoinCons(p, more, sep);
      forall i | 0 <= i < |more|
        ensures sep !in more[i]
      {
        assert more[i] == parts[i + 1];
      }
      SplitJoin(more, sep);
      SplitCons(p, sep, Join(more, sep));
    }
  }

  /** A separator at the end of the text adds one empty piece. */
  lemma SplitSnocSep(s: string, sep: char)
    ensures Split(s + [sep], sep) == Split(s, sep) + [""]
  {
    var parts := Split(s, sep) + [""];
    var n := |parts| - 1;
    assert parts[..n] == Split(s, sep);
    JoinSnoc(parts, sep);
    JoinSplit(s, sep);
    assert Join(parts, sep) == s + [sep];
    SplitPiecesFree(s, sep);
    forall i | 0 <= i < |parts|
      ensures sep !in parts[i]
    {
      if i < n {
        assert parts[i] == Split(s, sep)[i];
      }
    }
    SplitJoin(parts, sep);
  }

  /** No piece of `parts` holds `c`. */
  predicate NoneHolds(parts: seq<string>, c: char) {
    forall i :: 0 <= i < |parts| ==> c !in parts[i]
  }

  lemma NoneHoldsCons(head: string, rest: seq<string>, c: char)
    requires c !in head && NoneHolds(rest, c)
    ensures NoneHolds([head] + rest, c)
  {
    var parts := [head] + rest;
    forall i | 1 <= i < |parts|
      ensures c !in parts[i]
    {
      assert parts[i] == rest[i - 1];
    }
  }

  /** No piece holds the separator. */
  lemma {:induction false} SplitPiecesFree(s: string, sep: char)
    ensures NoneHolds(Split(s, sep), sep)
    decreases |s|
  {
    var k := IndexOf(s, sep);
    if 0 <= k {
      var tail := s[k + 1..];
      SplitPiecesFree(tail, sep);
      NoneHoldsCons(s[..k], Split(tail, sep), sep);
    }
  }

  /** Splitting at a first separator peels off the piece before it. */
  lemma SplitCons(x: string, sep: char, y: string)
    requires sep !in x
    ensures Split(x + [sep] + y, sep) == [x] + Split(y, sep)
  {
    var s := x + [sep] + y;
    assert s[..|x|] == x;
    IndexOfUnique(s, sep, |x|);
    assert s[|x| + 1..] == y;
  }

  /** The first piece is the text before the first separator. */
  lemma SplitHead(s: string, sep: char)
    ensures var i := IndexOf(s, sep);
      Split(s, sep)[0] == if i < 0 then s else s[..i]
  {
  }

  /** The second piece is the text between the first and second separator. */
  lemma SplitSecond(s: string, sep: char)
    requires sep in s
    ensures var i := IndexOf(s, sep);
      |Split(s, sep)| >= 2 && Split(s, sep)[1] == Split(s[i + 1..], sep)[0]
  {
  }
}
