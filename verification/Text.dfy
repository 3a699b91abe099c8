/**
 * Text as the harness's two languages see it: decimal numbers, splitting, line reading.
 * A character stands for one byte of UTF-8 text; everything looked at here is ASCII.
 */
module Text {
  import opened Wrappers
  import Bytes

  predicate IsDigit(c: char) {
    '0' <= c <= '9'
  }

  function DigitChar(d: nat): (c: char)
    requires d < 10
    ensures IsDigit(c)
  {
    ['0', '1', '2', '3', '4', '5', '6', '7', '8', '9'][d]
  }

  function DigitVal(c: char): (d: nat)
    requires IsDigit(c)
    ensures d < 10
  {
    c as int - '0' as int
  }

  predicate AllDigits(s: string) {
    forall i :: 0 <= i < |s| ==> IsDigit(s[i])
  }

  /** `format!("{}", n)` */
  function Decimal(n: nat): (s: string)
    ensures |s| > 0 && AllDigits(s)
  {
    if n < 10 then [DigitChar(n)] else Decimal(n / 10) + [DigitChar(n % 10)]
  }

  /** The number a string of digits spells; leading zeros are fine. */
  function Value(s: string): nat
    requires AllDigits(s)
    decreases |s|
  {
    if s == [] then 0 else Value(s[..|s| - 1]) * 10 + DigitVal(s[|s| - 1])
  }

  lemma DigitRoundTrip(d: nat)
    requires d < 10
    ensures DigitVal(DigitChar(d)) == d
  {
  }

  lemma {:induction false} ValueOfDecimal(n: nat)
    ensures Value(Decimal(n)) == n
  {
    DigitRoundTrip(n % 10);
    if n >= 10 {
      ValueOfDecimal(n / 10);
      var s := Decimal(n);
      assert s[..|s| - 1] == Decimal(n / 10);
    }
  }

  /** Rust's `str::parse::<u64>`: an optional plus, at least one digit, no overflow. */
  function ParseU64(s: string): Option<nat> {
    var t := if s != [] && s[0] == '+' then s[1..] else s;
    if t != [] && AllDigits(t) && Value(t) < Bytes.TWO_64 then Some(Value(t)) else None
  }

  lemma ParsePrinted(n: nat)
    requires n < Bytes.TWO_64
    ensures ParseU64(Decimal(n)) == Some(n)
  {
    hide Decimal, Value;
    ValueOfDecimal(n);
  }

  // ---- Python's int()

  predicate IsSpace(c: char) {
    c == ' ' || '\t' <= c <= '\r' || '\U{1C}' <= c <= '\U{1F}'
  }

  function StripLeft(s: string): string {
    if s != [] && IsSpace(s[0]) then StripLeft(s[1..]) else s
  }

  function StripRight(s: string): string
    decreases |s|
  {
    if s != [] && IsSpace(s[|s| - 1]) then StripRight(s[..|s| - 1]) else s
  }

  /** Digits with single underscores between them; the underscores removed. */
  function Grouped(s: string): Option<string> {
    if s == [] || !IsDigit(s[0]) then None
    else if |s| == 1 then Some(s)
    else
      var rest := if s[1] == '_' then s[2..] else s[1..];
      match Grouped(rest)
      case None => None
      case Some(t) => Some([s[0]] + t)
  }

  lemma {:induction false} GroupedIsDigits(s: string)
    ensures Grouped(s).Some? ==> AllDigits(Grouped(s).value) && Grouped(s).value != []
  {
    if s != [] && IsDigit(s[0]) && |s| > 1 {
      GroupedIsDigits(if s[1] == '_' then s[2..] else s[1..]);
    }
  }

  lemma {:induction false} GroupedOfDigits(s: string)
    requires s != [] && AllDigits(s)
    ensures Grouped(s) == Some(s)
  {
    if |s| > 1 {
      assert s[1] != '_';
      GroupedOfDigits(s[1..]);
      assert s == [s[0]] + s[1..];
    }
  }

  /** `int(s)` on ASCII text: surrounding whitespace, a sign, grouped digits. */
  function PyInt(s: string): Option<int> {
    var t := StripRight(StripLeft(s));
    var negative := t != [] && t[0] == '-';
    var body := if t != [] && (t[0] == '-' || t[0] == '+') then t[1..] else t;
    GroupedIsDigits(body);
    match Grouped(body)
    case None => None
    case Some(d) => Some(if negative then -(Value(d) as int) else Value(d))
  }

  lemma StripNothing(s: string)
    requires s != [] && !IsSpace(s[0]) && !IsSpace(s[|s| - 1])
    ensures StripRight(StripLeft(s)) == s
  {
  }

  /** Whatever Rust reads as a u64, Python reads as the same number. */
  lemma U64IsPyInt(s: string)
    requires ParseU64(s).Some?
    ensures PyInt(s) == Some(ParseU64(s).value)
  {
    hide Value, Grouped;
    var t := if s[0] == '+' then s[1..] else s;
    assert s[|s| - 1] == t[|t| - 1];
    StripNothing(s);
    GroupedOfDigits(t);
  }

  lemma PyIntOfDecimal(n: nat)
    ensures PyInt(Decimal(n)) == Some(n)
  {
    hide Value, Grouped, Decimal;
    var s := Decimal(n);
    StripNothing(s);
    GroupedOfDigits(s);
    ValueOfDecimal(n);
  }

  // ---- Splitting

  /** The first index of `c`, or the length. */
  function IndexOf(s: string, c: char): (i: nat)
    ensures i <= |s|
    ensures i < |s| ==> s[i] == c
    ensures forall j :: 0 <= j < i ==> s[j] != c
  {
    if s == [] || s[0] == c then 0 else 1 + IndexOf(s[1..], c)
  }

  /** Rust's `splitn(n, sep)` and Python's `split(sep, n - 1)`. */
  function SplitN(s: string, sep: char, n: nat): (parts: seq<string>)
    requires n > 0
    ensures 1 <= |parts| <= n
    decreases n
  {
    var i := IndexOf(s, sep);
    if n == 1 || i == |s| then [s] else [s[..i]] + SplitN(s[i + 1..], sep, n - 1)
  }

  lemma IndexOfAfter(a: string, sep: char, rest: string)
    requires sep !in a
    ensures IndexOf(a + [sep] + rest, sep) == |a|
  {
    var s := a + [sep] + rest;
    assert s[|a|] == sep && forall j :: 0 <= j < |a| ==> s[j] == a[j];
  }

  lemma SplitNCons(a: string, sep: char, rest: string, n: nat)
    requires sep !in a && n > 1
    ensures SplitN(a + [sep] + rest, sep, n) == [a] + SplitN(rest, sep, n - 1)
  {
    var s := a + [sep] + rest;
    IndexOfAfter(a, sep, rest);
    assert s[..|a|] == a && s[|a| + 1..] == rest;
  }

  lemma SplitNWhole(a: string, sep: char, n: nat)
    requires sep !in a && n > 0
    ensures SplitN(a, sep, n) == [a]
  {
  }

  lemma DigitsHaveNo(s: string, c: char)
    requires AllDigits(s) && !IsDigit(c)
    ensures c !in s
  {
  }

  /** `text.split(sep)` */
  function SplitAll(s: string, sep: char): (parts: seq<string>)
    ensures |parts| >= 1
    decreases |s|
  {
    var i := IndexOf(s, sep);
    if i == |s| then [s] else [s[..i]] + SplitAll(s[i + 1..], sep)
  }

  lemma SplitAllCons(a: string, sep: char, rest: string)
    requires sep !in a
    ensures SplitAll(a + [sep] + rest, sep) == [a] + SplitAll(rest, sep)
  {
    var s := a + [sep] + rest;
    IndexOfAfter(a, sep, rest);
    assert s[..|a|] == a && s[|a| + 1..] == rest;
  }

  function NonEmpty(parts: seq<string>): seq<string> {
    if parts == [] then []
    else (if parts[0] == [] then [] else [parts[0]]) + NonEmpty(parts[1..])
  }

  /** The complete lines of a text, newest last, empty ones dropped: `[ln for ln in text.split("\n") if ln]`. */
  function Lines(s: string): seq<string> {
    NonEmpty(SplitAll(s, '\n'))
  }
}
