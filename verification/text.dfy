/**
  The two pieces of C++ stream behaviour the map formats rely on: splitting a text into the
  lines `std::getline` yields, and reading an `int` with `operator>>` in the "C" locale,
  together with their printing counterparts (`operator<<` on an int, one '\n' per line).
 */
module Text {
  import opened Outcomes

  /** Characters `isspace` accepts in the "C" locale; `operator>>` skips them. */
  predicate IsSpace(c: char) {
    c == ' ' || c == '\t' || c == '\n' || c == '\r' || c == '\U{000B}' || c == '\U{000C}'
  }

  predicate IsDigit(c: char) {
    '0' <= c <= '9'
  }

  predicate NoNewline(s: string) {
    '\n' !in s
  }

  predicate AllDigits(s: string) {
    forall i :: 0 <= i < |s| ==> IsDigit(s[i])
  }

  function DigitValue(c: char): (d: nat)
    requires IsDigit(c)
    ensures d < 10
  {
    (c as int) - ('0' as int)
  }

  function DigitChar(d: nat): (c: char)
    requires d < 10
    ensures IsDigit(c) && DigitValue(c) == d
  {
    ((d + '0' as int) as char)
  }

  // ---------------------------------------------------------------------------
  // Lines: std::getline over a string stream
  // ---------------------------------------------------------------------------

  /** Index of the first '\n' in `s`, or `|s|` when there is none. */
  function NewlineIndex(s: string): (k: nat)
    ensures k <= |s|
    ensures NoNewline(s[..k])
    ensures k < |s| ==> s[k] == '\n'
  {
    if |s| == 0 || s[0] == '\n' then 0 else 1 + NewlineIndex(s[1..])
  }

  /**
    The lines successive `std::getline` calls yield: each call consumes up to and including
    the next '\n' and returns what precedes it; a final segment with no '\n' is returned only
    when it is non-empty, because a call that extracts nothing fails.
   */
  function Lines(s: string): (ls: seq<string>)
    ensures forall i :: 0 <= i < |ls| ==> NoNewline(ls[i])
    decreases |s|
  {
    if |s| == 0 then []
    else
      var k := NewlineIndex(s);
      if k == |s| then [s] else [s[..k]] + Lines(s[k + 1..])
  }

  /** Each line followed by '\n', as `oss << line << '\n'` writes them. */
  function Unlines(ls: seq<string>): string
  {
    if |ls| == 0 then "" else ls[0] + "\n" + Unlines(ls[1..])
  }

  /** Splitting what `Unlines` wrote gives back exactly the lines written. */
  lemma {:induction false} LinesOfUnlines(ls: seq<string>)
    requires forall i :: 0 <= i < |ls| ==> NoNewline(ls[i])
    ensures Lines(Unlines(ls)) == ls
    decreases |ls|
  {
    if |ls| > 0 {
      var line, rest := ls[0], Unlines(ls[1..]);
      var s := Unlines(ls);
      var k := |line|;
      assert s == line + ("\n" + rest);
      NewlineIndexOfPrefix(line, "\n" + rest);
      assert s[..k] == line;
      assert s[k + 1..] == rest;
      LinesAtNewline(s, k);
      LinesOfUnlines(ls[1..]);
      assert ls == [line] + ls[1..];
    }
  }

  lemma {:induction false} NewlineIndexOfPrefix(a: string, b: string)
    requires NoNewline(a)
    requires |b| > 0 && b[0] == '\n'
    ensures NewlineIndex(a + b) == |a|
    decreases |a|
  {
    if |a| > 0 {
      assert (a + b)[1..] == a[1..] + b;
      NewlineIndexOfPrefix(a[1..], b);
    } else {
      assert a + b == b;
    }
  }

  /** Splitting then re-joining loses at most a missing final '\n'. */
  lemma {:induction false} UnlinesOfLines(s: string)
    ensures Unlines(Lines(s)) == if |s| == 0 || s[|s| - 1] == '\n' then s else s + "\n"
    decreases |s|
  {
    if |s| > 0 {
      var k := NewlineIndex(s);
      if k == |s| {
        LinesWithoutNewline(s);
      } else {
        var rest := s[k + 1..];
        UnlinesOfLines(rest);
        LinesWithNewline(s, k);
        SplitAtNewline(s, k);
      }
    }
  }

  lemma LinesWithoutNewline(s: string)
    requires |s| > 0 && NewlineIndex(s) == |s|
    ensures Unlines(Lines(s)) == s + "\n"
    ensures s[|s| - 1] != '\n'
  {
    assert Lines(s) == [s];
    assert Unlines([s]) == s + "\n" + Unlines([]);
    assert s[..|s|] == s;
  }

  lemma LinesWithNewline(s: string, k: nat)
    requires |s| > 0 && k == NewlineIndex(s) && k < |s|
    ensures Unlines(Lines(s)) == s[..k] + "\n" + Unlines(Lines(s[k + 1..]))
  {
    var ls := Lines(s);
    LinesAtNewline(s, k);
    assert ls[0] == s[..k];
    assert ls[1..] == Lines(s[k + 1..]);
  }

  lemma LinesAtNewline(s: string, k: nat)
    requires |s| > 0 && k == NewlineIndex(s) && k < |s|
    ensures Lines(s) == [s[..k]] + Lines(s[k + 1..])
  {
    var line := s[..k];
    var rest := s[k + 1..];
    assert Lines(s) == [line] + Lines(rest);
  }

  lemma SplitAtNewline(s: string, k: nat)
    requires k < |s| && s[k] == '\n'
    ensures s == s[..k] + "\n" + s[k + 1..]
    ensures |s[k + 1..]| == 0 ==> s[|s| - 1] == '\n'
    ensures |s[k + 1..]| > 0 ==> s[|s| - 1] == s[k + 1..][|s[k + 1..]| - 1]
  {
  }

  // ---------------------------------------------------------------------------
  // Integers: operator>> (int&) and operator<< (int)
  // ---------------------------------------------------------------------------

  const IntMin: int := -0x8000_0000
  const IntMax: int := 0x7FFF_FFFF

  predicate IsInt32(n: int) {
    IntMin <= n <= IntMax
  }

  /** What remains after the leading whitespace `operator>>` skips. */
  function SkipSpace(s: string): (t: string)
    ensures |t| <= |s| && t == s[|s| - |t|..]
    ensures |t| > 0 ==> !IsSpace(t[0])
    ensures forall i :: 0 <= i < |s| - |t| ==> IsSpace(s[i])
  {
    if |s| > 0 && IsSpace(s[0]) then SkipSpace(s[1..]) else s
  }

  /** Length of the run of decimal digits `s` starts with. */
  function DigitRun(s: string): (n: nat)
    ensures n <= |s|
    ensures AllDigits(s[..n])
    ensures n < |s| ==> !IsDigit(s[n])
  {
    if |s| > 0 && IsDigit(s[0]) then 1 + DigitRun(s[1..]) else 0
  }

  /** The decimal value of a digit string, most significant digit first. */
  function DigitsValue(ds: string): nat
    requires AllDigits(ds)
  {
    if |ds| == 0 then 0 else DigitsValue(ds[..|ds| - 1]) * 10 + DigitValue(ds[|ds| - 1])
  }

  /** The sign and digits `operator>>` reads once whitespace is skipped. */
  function ReadSigned(t: string): (r: Option<(int, string)>)
    ensures r.Some? ==> IsInt32(r.value.0) && |r.value.1| < |t|
  {
    if |t| > 0 && t[0] == '-' then
      match ReadDigits(t[1..])
      case None => None
      case Some((m, rest)) => if IsInt32(-(m as int)) then Some((-(m as int), rest)) else None
    else
      var u := if |t| > 0 && t[0] == '+' then t[1..] else t;
      match ReadDigits(u)
      case None => None
      case Some((m, rest)) => if IsInt32(m) then Some((m, rest)) else None
  }

  /** A non-empty run of decimal digits and its value, with the unread rest. */
  function ReadDigits(u: string): (r: Option<(nat, string)>)
    ensures r.Some? ==> |r.value.1| < |u|
  {
    var n := DigitRun(u);
    if n == 0 then None else Some((DigitsValue(u[..n]), u[n..]))
  }

  /**
    One `stream >> n` with `n` an int: skip whitespace, read an optional '+' or '-' and then a
    non-empty run of decimal digits. The extraction fails (None) when no digit follows or the
    value does not fit in 32 bits; otherwise it yields the value and the unread rest.
   */
  function ReadInt(s: string): (r: Option<(int, string)>)
    ensures r.Some? ==> IsInt32(r.value.0) && |r.value.1| < |s|
  {
    ReadSigned(SkipSpace(s))
  }

  /** A successful extraction consumes a prefix of the text and stops before a digit. */
  lemma ReadIntRest(s: string)
    ensures var r := ReadInt(s);
      r.Some? ==> r.value.1 == s[|s| - |r.value.1|..] && (|r.value.1| == 0 || !IsDigit(r.value.1[0]))
  {
    var t := SkipSpace(s);
    ReadSignedRest(t);
    var r := ReadSigned(t);
    if r.Some? {
      var rest := r.value.1;
      assert t == s[|s| - |t|..];
      assert rest == t[|t| - |rest|..];
      SuffixOfSuffix(s, t, rest);
    }
  }

  lemma SuffixOfSuffix(s: string, t: string, rest: string)
    requires |t| <= |s| && t == s[|s| - |t|..]
    requires |rest| <= |t| && rest == t[|t| - |rest|..]
    ensures rest == s[|s| - |rest|..]
  {
    assert forall i :: 0 <= i < |rest| ==> rest[i] == s[|s| - |rest| + i];
  }

  lemma ReadSignedRest(t: string)
    ensures var r := ReadSigned(t);
      r.Some? ==> r.value.1 == t[|t| - |r.value.1|..] && (|r.value.1| == 0 || !IsDigit(r.value.1[0]))
  {
    if |t| > 0 && (t[0] == '-' || t[0] == '+') {
      ReadDigitsRest(t[1..]);
      var r := ReadDigits(t[1..]);
      if r.Some? {
        SuffixOfSuffix(t, t[1..], r.value.1);
      }
    } else {
      ReadDigitsRest(t);
    }
  }

  lemma ReadDigitsRest(u: string)
    ensures var r := ReadDigits(u);
      r.Some? ==> r.value.1 == u[|u| - |r.value.1|..] && (|r.value.1| == 0 || !IsDigit(r.value.1[0]))
  {
  }

  /** `line >> a >> b`: two integers in a row, or None when either extraction fails. */
  function ReadTwoInts(s: string): (r: Option<(int, int)>)
    ensures r.Some? ==> IsInt32(r.value.0) && IsInt32(r.value.1)
  {
    match ReadInt(s)
    case None => None
    case Some((a, rest)) =>
      match ReadInt(rest)
      case None => None
      case Some((b, _)) => Some((a, b))
  }

  /** Decimal digits of a natural number without leading zeros, as `operator<<` prints them. */
  function NatToString(n: nat): (s: string)
    ensures |s| > 0 && AllDigits(s)
    ensures DigitsValue(s) == n
  {
    if n < 10 then [DigitChar(n)]
    else
      var s := NatToString(n / 10) + [DigitChar(n % 10)];
      assert s[..|s| - 1] == NatToString(n / 10);
      s
  }

  /** `operator<<` on an int: a '-' for negative values, then the digits of the magnitude. */
  function IntToString(n: int): (s: string)
    ensures |s| > 0 && (IsDigit(s[0]) || s[0] == '-')
    ensures NoNewline(s)
  {
    if n < 0 then "-" + NatToString(-n) else NatToString(n)
  }

  lemma DigitRunOfDigits(ds: string, rest: string)
    requires AllDigits(ds)
    requires |rest| == 0 || !IsDigit(rest[0])
    ensures DigitRun(ds + rest) == |ds|
    decreases |ds|
  {
    if |ds| > 0 {
      assert (ds + rest)[1..] == ds[1..] + rest;
      DigitRunOfDigits(ds[1..], rest);
    } else {
      assert ds + rest == rest;
    }
  }

  lemma ReadDigitsOfPrinted(n: nat, rest: string)
    requires |rest| == 0 || !IsDigit(rest[0])
    ensures ReadDigits(NatToString(n) + rest) == Some((n, rest))
  {
    var ds := NatToString(n);
    var u := ds + rest;
    DigitRunOfDigits(ds, rest);
    assert u[..|ds|] == ds;
    assert u[|ds|..] == rest;
  }

  /** Reading back what `operator<<` printed yields the same integer and leaves the rest unread. */
  lemma ReadIntOfPrinted(n: int, rest: string)
    requires IsInt32(n)
    requires |rest| == 0 || !IsDigit(rest[0])
    ensures ReadInt(IntToString(n) + rest) == Some((n, rest))
  {
    var s := IntToString(n) + rest;
    assert s[0] == IntToString(n)[0];
    SkipSpaceNoop(s);
    if n < 0 {
      var m: nat := -n;
      assert s == "-" + NatToString(m) + rest;
      ReadSignedNegative(m, rest);
    } else {
      ReadSignedNonNegative(n, rest);
    }
  }

  lemma SkipSpaceNoop(s: string)
    requires |s| > 0 && !IsSpace(s[0])
    ensures SkipSpace(s) == s
  {
  }

  lemma ReadSignedNegative(m: nat, rest: string)
    requires IsInt32(-(m as int))
    requires |rest| == 0 || !IsDigit(rest[0])
    ensures ReadSigned("-" + NatToString(m) + rest) == Some((-(m as int), rest))
  {
    var t := "-" + NatToString(m) + rest;
    var u := NatToString(m) + rest;
    assert t[0] == '-' && t[1..] == u;
    ReadDigitsOfPrinted(m, rest);
    assert ReadDigits(u) == Some((m, rest));
  }

  lemma ReadSignedNonNegative(m: nat, rest: string)
    requires IsInt32(m)
    requires |rest| == 0 || !IsDigit(rest[0])
    ensures ReadSigned(NatToString(m) + rest) == Some((m, rest))
  {
    var t := NatToString(m) + rest;
    assert t[0] == NatToString(m)[0];
    ReadDigitsOfPrinted(m, rest);
  }

  /** The dimension line both map writers print: `out << a << " " << b`. */
  function DimensionLine(a: int, b: int): (s: string)
    ensures NoNewline(s)
  {
    IntToString(a) + " " + IntToString(b)
  }

  /** The dimension line reads back as the pair (a, b) whenever both fit in 32 bits. */
  lemma ReadDimensionLine(a: int, b: int)
    ensures IsInt32(a) && IsInt32(b) ==> ReadTwoInts(DimensionLine(a, b)) == Some((a, b))
  {
    if IsInt32(a) && IsInt32(b) {
      var tail := " " + IntToString(b);
      assert DimensionLine(a, b) == IntToString(a) + tail;
      ReadIntOfPrinted(a, tail);
      ReadIntOfPrinted(b, "");
      assert IntToString(b) + "" == IntToString(b);
      ReadIntSkipsSpace(IntToString(b));
    }
  }

  lemma ReadIntSkipsSpace(x: string)
    ensures ReadInt(" " + x) == ReadInt(x)
  {
    assert (" " + x)[1..] == x;
  }
}
