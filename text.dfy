/**
 * The few Python `str` built-ins the codec relies on: `str(n)` and `int(s)`
 * on decimal numbers, `s.split(sep)` with and without a maximum number of
 * splits, the inverse `sep.join(parts)`, and `s.rstrip('\n')`.
 */
module Text {
  import opened Wrappers

  predicate IsDigit(ch: char) { '0' <= ch <= '9' }

  predicate IsAsciiLetter(ch: char) { 'a' <= ch <= 'z' || 'A' <= ch <= 'Z' }

  predicate AllDigits(s: string) { forall i :: 0 <= i < |s| ==> IsDigit(s[i]) }

  function DigitValue(ch: char): (d: nat)
    requires IsDigit(ch)
    ensures d < 10
  {
    ch as int - '0' as int
  }

  function DigitChar(d: nat): (ch: char)
    requires d < 10
    ensures IsDigit(ch) && DigitValue(ch) == d
  {
    ('0' as int + d) as char
  }

  /** The value of a string of decimal digits, most significant first. */
  function DigitsValue(s: string): nat
    requires AllDigits(s)
    decreases |s|
  {
    if s == [] then 0 else DigitsValue(s[..|s| - 1]) * 10 + DigitValue(s[|s| - 1])
  }

  /**
   * `int(s)`, restricted to a non-empty run of ASCII digits (leading zeros
   * allowed, as in Python).
   */
  function ParseNat(s: string): Option<nat>
  {
    if s != [] && AllDigits(s) then Some(DigitsValue(s)) else None
  }

  /** `str(n)`: the decimal representation, without leading zeros. */
  function NatToString(n: nat): (s: string)
    ensures s != [] && AllDigits(s)
    ensures ' ' !in s && '\n' !in s
    decreases n
  {
    if n < 10 then [DigitChar(n)] else NatToString(n / 10) + [DigitChar(n % 10)]
  }

  /** `int(str(n)) == n` */
  lemma {:induction false} ParseNatToString(n: nat)
    ensures ParseNat(NatToString(n)) == Some(n)
    decreases n
  {
    var s := NatToString(n);
    if n < 10 {
      assert DigitsValue(s) == DigitsValue([]) * 10 + n;
    } else {
      ParseNatToString(n / 10);
      assert s[..|s| - 1] == NatToString(n / 10);
      assert DigitsValue(s) == (n / 10) * 10 + n % 10;
    }
  }

  /** The index of the first occurrence of `ch` in `s`, if any. */
  function IndexOf(s: string, ch: char): (r: Option<nat>)
    ensures r.None? <==> ch !in s
    ensures r.Some? ==> r.value < |s| && s[r.value] == ch && ch !in s[..r.value]
    decreases |s|
  {
    if s == [] then None
    else if s[0] == ch then Some(0)
    else match IndexOf(s[1..], ch)
      case None => None
      case Some(i) => assert s[1..][..i] == s[1..i + 1]; Some(i + 1)
  }

  /**
   * `s.split(sep, n)`: at most `n` splits, at the first occurrences of
   * `sep`; the last field keeps the rest of the string.
   */
  function SplitN(s: string, sep: char, n: nat): (r: seq<string>)
    ensures 1 <= |r| <= n + 1
    ensures |r| > 1 ==> |r[|r| - 1]| < |s|
    decreases |s|
  {
    if n == 0 then [s]
    else match IndexOf(s, sep)
      case None => [s]
      case Some(i) => [s[..i]] + SplitN(s[i + 1..], sep, n - 1)
  }

  /** `s.split(sep)`: every occurrence of `sep` separates two fields. */
  function Split(s: string, sep: char): (r: seq<string>)
    ensures |r| >= 1
    decreases |s|
  {
    match IndexOf(s, sep)
    case None => [s]
    case Some(i) => [s[..i]] + Split(s[i + 1..], sep)
  }

  /** `sep.join(parts)` */
  function Join(parts: seq<string>, sep: char): string
    decreases |parts|
  {
    if parts == [] then ""
    else if |parts| == 1 then parts[0]
    else parts[0] + [sep] + Join(parts[1..], sep)
  }

  /** Splitting a join of separator-free fields gives back the fields. */
  lemma {:induction false} SplitJoin(parts: seq<string>, sep: char)
    requires |parts| >= 1
    requires forall i :: 0 <= i < |parts| ==> sep !in parts[i]
    ensures Split(Join(parts, sep), sep) == parts
    decreases |parts|
  {
    if |parts| == 1 {
      SplitNoSep(parts[0], sep);
    } else {
      SplitJoin(parts[1..], sep);
      SplitAfterField(parts[0], Join(parts[1..], sep), sep);
    }
  }

  lemma SplitNoSep(s: string, sep: char)
    requires sep !in s
    ensures Split(s, sep) == [s]
  {
  }

  lemma SplitNNoSep(s: string, sep: char, n: nat)
    requires sep !in s
    ensures SplitN(s, sep, n) == [s]
  {
  }

  lemma IndexAfterField(a: string, b: string, sep: char)
    requires sep !in a
    ensures IndexOf(a + [sep] + b, sep) == Some(|a|)
  {
    var s := a + [sep] + b;
    assert s[|a|] == sep;
    assert s[..|a|] == a;
  }

  /** The first separator after a separator-free field ends that field. */
  lemma SplitAfterField(a: string, b: string, sep: char)
    requires sep !in a
    ensures Split(a + [sep] + b, sep) == [a] + Split(b, sep)
  {
    var s := a + [sep] + b;
    IndexAfterField(a, b, sep);
    assert s[..|a|] == a && s[|a| + 1..] == b;
  }

  lemma SplitNAfterField(a: string, b: string, sep: char, n: nat)
    requires sep !in a
    ensures SplitN(a + [sep] + b, sep, n + 1) == [a] + SplitN(b, sep, n)
  {
    var s := a + [sep] + b;
    IndexAfterField(a, b, sep);
    assert s[..|a|] == a && s[|a| + 1..] == b;
  }

  predicate EndsWithNewline(s: string) { s != [] && s[|s| - 1] == '\n' }

  /** `s.rstrip('\n')`: every trailing newline is removed. */
  function RStripNewlines(s: string): (r: string)
    ensures !EndsWithNewline(r)
    ensures |r| <= |s| && r == s[..|r|]
    ensures forall i :: |r| <= i < |s| ==> s[i] == '\n'
    decreases |s|
  {
    if EndsWithNewline(s) then RStripNewlines(s[..|s| - 1]) else s
  }
}
