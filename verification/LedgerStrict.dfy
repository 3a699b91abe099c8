/**
 * Which lines the Rust parser accepts. It is documented to reject anything the printer would never
 * emit; what it accepts beyond that is stated exactly.
 */
module LedgerStrict {
  import opened Wrappers
  import opened Text
  import opened LedgerLine
  import Bytes

  // ---- Fields

  /** The fields put back together. */
  function Joined(parts: seq<string>): string
    requires parts != []
  {
    if |parts| == 1 then parts[0] else parts[0] + " " + Joined(parts[1..])
  }

  /** Splitting loses nothing, and a space is left only in a last field that reached the limit. */
  lemma {:induction false} SplitJoins(s: string, n: nat)
    requires n > 0
    ensures var p := SplitN(s, ' ', n);
            && Joined(p) == s
            && (forall i :: 0 <= i < |p| - 1 ==> ' ' !in p[i])
            && (|p| < n ==> ' ' !in p[|p| - 1])
    decreases n
  {
    hide SplitN;
    SplitNUnfold(s, n);
    var i := IndexOf(s, ' ');
    if n > 1 && i < |s| {
      var rest := SplitN(s[i + 1..], ' ', n - 1);
      SplitJoins(s[i + 1..], n - 1);
      var p := [s[..i]] + rest;
      assert p[1..] == rest;
      assert s == s[..i] + " " + s[i + 1..];
      hide IndexOf, Joined;
      forall j | 0 <= j < |p| - 1
        ensures ' ' !in p[j]
      {
        if j > 0 {
          assert p[j] == rest[j - 1];
        }
      }
    }
  }

  lemma SplitOne(s: string)
    ensures SplitN(s, ' ', 1) == [s]
  {
  }

  predicate Plain(s: string) {
    ' ' !in s
  }

  /** A line of five fields, or of six when there is a reason. */
  function LineOf(a: string, b: string, c: string, d: string, tag: string, reason: Option<string>): string {
    a + " " + (b + " " + (c + " " + (d + " " + TailOf(tag, reason))))
  }

  function TailOf(tag: string, reason: Option<string>): string {
    match reason
    case None => tag
    case Some(r) => tag + " " + r
  }

  lemma TailSplits(tag: string, reason: Option<string>)
    requires Plain(tag)
    ensures SplitN(TailOf(tag, reason), ' ', 2) == [tag] + match reason case None => [] case Some(r) => [r]
  {
    hide IndexOf;
    match reason {
      case None => SplitNWhole(tag, ' ', 2);
      case Some(r) =>
        assert tag + " " + r == tag + [' '] + r;
        SplitNCons(tag, ' ', r, 2);
        SplitOne(r);
    }
  }

  lemma LineSplits(a: string, b: string, c: string, d: string, tag: string, reason: Option<string>)
    requires Plain(a) && Plain(b) && Plain(c) && Plain(d) && Plain(tag)
    ensures SplitN(LineOf(a, b, c, d, tag, reason), ' ', 6)
         == [a, b, c, d, tag] + match reason case None => [] case Some(r) => [r]
  {
    hide SplitN, TailOf;
    var d5 := TailOf(tag, reason);
    var d4 := d + " " + d5;
    var d3 := c + " " + d4;
    var d2 := b + " " + d3;
    SplitNCons(a, ' ', d2, 6);
    SplitNCons(b, ' ', d3, 5);
    SplitNCons(c, ' ', d4, 4);
    SplitNCons(d, ' ', d5, 3);
    TailSplits(tag, reason);
  }

  /** What the oracle makes of a line, by its fields: a NACK takes a reason, ACK and UNK take none. */
  lemma OracleGrammar(a: string, b: string, c: string, d: string, tag: string, reason: Option<string>)
    requires Plain(a) && Plain(b) && Plain(c) && Plain(d) && Plain(tag) && !EndsInNewline(LineOf(a, b, c, d, tag, reason))
    ensures ParseLedgerLine(LineOf(a, b, c, d, tag, reason)) ==
            if PyInt(a).None? || PyInt(a).value < 0 then None
            else if tag == "NACK" && reason.Some? then Some((PyInt(a).value, NACK))
            else if tag == "ACK" && reason.None? then Some((PyInt(a).value, ACK))
            else if tag == "UNK" && reason.None? then Some((PyInt(a).value, UNK))
            else None
  {
    hide SplitN, PyInt, LineOf;
    LineSplits(a, b, c, d, tag, reason);
  }

  /** The same for the Rust parser, which checks every field. */
  lemma RustGrammar(a: string, b: string, c: string, d: string, tag: string, reason: Option<string>)
    requires Plain(a) && Plain(b) && Plain(c) && Plain(d) && Plain(tag)
    ensures FromLine(LineOf(a, b, c, d, tag, reason)) ==
            if ParseU64(a).None? || b == [] || ParseU64(c).None? || ParseU64(d).None? then None
            else
              var e := Entry(ParseU64(a).value, b[0], Unknown, ParseU64(c).value, ParseU64(d).value);
              if tag == "NACK" && reason.Some? then Some(e.(outcome := Nacked(Unescaped(reason.value))))
              else if tag == "ACK" && reason.None? then Some(e.(outcome := Acked))
              else if tag == "UNK" && reason.None? then Some(e)
              else None
  {
    hide SplitN, ParseU64, LineOf, Unescaped;
    LineSplits(a, b, c, d, tag, reason);
  }

  // ---- Numbers

  /** As the printer writes a number: digits only, no sign, no leading zero. */
  predicate Canonical(s: string) {
    s != [] && AllDigits(s) && (s[0] == '0' ==> |s| == 1)
  }

  lemma DigitBack(c: char)
    requires IsDigit(c)
    ensures DigitChar(DigitVal(c)) == c
  {
  }

  lemma ValueSnoc(s: string)
    requires s != [] && AllDigits(s)
    ensures Value(s) == Value(s[..|s| - 1]) * 10 + DigitVal(s[|s| - 1])
  {
  }

  lemma {:induction false} CanonicalPositive(s: string)
    requires Canonical(s) && s[0] != '0'
    ensures Value(s) > 0
    decreases |s|
  {
    ValueSnoc(s);
    if |s| > 1 {
      CanonicalPositive(s[..|s| - 1]);
    }
  }

  lemma DecimalUnfold(n: nat)
    ensures Decimal(n) == if n < 10 then [DigitChar(n)] else Decimal(n / 10) + [DigitChar(n % 10)]
  {
  }

  lemma {:induction false} CanonicalPrints(s: string)
    requires Canonical(s)
    ensures Decimal(Value(s)) == s
    decreases |s|
  {
    hide Value, Decimal, DigitChar, DigitVal;
    var n := |s| - 1;
    ValueSnoc(s);
    DigitBack(s[n]);
    DecimalUnfold(Value(s));
    assert s == s[..n] + [s[n]];
    if n == 0 {
      ValueEmpty();
      assert s[..0] == [];
    } else {
      CanonicalPositive(s[..n]);
      CanonicalPrints(s[..n]);
    }
  }

  lemma ValueEmpty()
    ensures Value([]) == 0
  {
  }

  lemma {:induction false} PrintedIsCanonical(n: nat)
    ensures Canonical(Decimal(n)) && (n > 0 ==> Decimal(n)[0] != '0')
  {
    if n >= 10 {
      PrintedIsCanonical(n / 10);
    }
  }

  /** A number Rust accepts is spelled as it would be printed exactly when it is canonical. */
  lemma NumberExactly(s: string)
    requires ParseU64(s).Some?
    ensures Decimal(ParseU64(s).value) == s <==> Canonical(s)
  {
    hide Decimal, Value;
    PrintedIsCanonical(ParseU64(s).value);
    if Canonical(s) {
      CanonicalPrints(s);
    }
  }

  // ---- Reasons

  /** As the printer writes a reason: no raw line break, and no escape but the three it knows. */
  predicate Tidy(s: string) {
    if s == [] then true
    else if s[0] == '\\' then |s| > 1 && s[1] in {'\\', 'n', 'r'} && Tidy(s[2..])
    else s[0] != '\n' && s[0] != '\r' && Tidy(s[1..])
  }

  lemma EscapedFront(c: char, rest: string)
    ensures Escaped([c] + rest) == EscapeChar(c) + Escaped(rest)
  {
    assert ([c] + rest)[1..] == rest;
  }

  lemma {:induction false} TidyPrints(s: string)
    requires Tidy(s)
    ensures Escaped(Unescaped(s)) == s
    decreases |s|
  {
    hide Escaped;
    if s == [] {
      EscapedEmpty();
    } else if s[0] == '\\' {
      TidyPrints(s[2..]);
      EscapedFront(Meaning(s[1])[0], Unescaped(s[2..]));
      assert s == s[..2] + s[2..];
    } else {
      TidyPrints(s[1..]);
      EscapedFront(s[0], Unescaped(s[1..]));
      assert s == [s[0]] + s[1..];
    }
  }

  lemma EscapedEmpty()
    ensures Escaped([]) == []
  {
  }

  lemma {:induction false} PrintedIsTidy(s: string)
    ensures Tidy(Escaped(s))
  {
    if s != [] {
      PrintedIsTidy(s[1..]);
      var e, rest := EscapeChar(s[0]), Escaped(s[1..]);
      if |e| == 2 {
        assert (e + rest)[2..] == rest;
      } else {
        assert (e + rest)[1..] == rest;
      }
    }
  }

  lemma ReasonExactly(s: string)
    ensures Escaped(Unescaped(s)) == s <==> Tidy(s)
  {
    hide Escaped, Unescaped, Tidy;
    PrintedIsTidy(Unescaped(s));
    if Tidy(s) {
      TidyPrints(s);
    }
  }

  // ---- Whole lines

  /** The fields of a line the printer emits. */
  predicate PrinterFields(p: seq<string>)
    requires |p| >= 5
  {
    && Canonical(p[0]) && p[1] in {"D", "S", "U"} && Canonical(p[2]) && Canonical(p[3])
    && (|p| == 6 ==> Tidy(p[5]))
  }

  ghost predicate Emitted(line: string) {
    exists e :: Writable(e) && ToLine(e) == line
  }

  lemma EntryFits(line: string)
    requires FromLine(line).Some?
    ensures var p, e := SplitN(line, ' ', 6), FromLine(line).value;
            && |p| >= 5 && p[1] != [] && e.tier == p[1][0]
            && ParseU64(p[0]) == Some(e.seqNo) && ParseU64(p[2]) == Some(e.tMicros) && ParseU64(p[3]) == Some(e.rttMicros)
            && e.seqNo < Bytes.TWO_64 && e.tMicros < Bytes.TWO_64 && e.rttMicros < Bytes.TWO_64
            && p[4] == TagText(TagOf(e.outcome))
            && (e.outcome.Nacked? <==> |p| == 6) && (|p| == 6 ==> e.outcome == Nacked(Unescaped(p[5])))
  {
    hide SplitN, Unescaped, Value;
  }

  lemma TierField(tier: char)
    ensures [tier] in {"D", "S", "U"} <==> tier in {'D', 'S', 'U'}
  {
    assert [tier] == "D" || [tier] == "S" || [tier] == "U" ==> tier == [tier][0];
  }

  /** Fields spelled as printed are the fields of the entry they spell. */
  lemma SpelledFields(p: seq<string>, e: Entry)
    requires |p| >= 5 && Decimal(e.seqNo) == p[0] && [e.tier] == p[1] && Decimal(e.tMicros) == p[2]
    requires Decimal(e.rttMicros) == p[3] && TagText(TagOf(e.outcome)) == p[4]
    requires if |p| == 6 then e.outcome.Nacked? && Escaped(e.outcome.reason) == p[5] else |p| == 5 && !e.outcome.Nacked?
    ensures FieldsOf(e) == p
  {
    hide Decimal, Escaped, TagText;
  }

  /** An accepted line with printer's fields is what its own entry prints. */
  lemma FieldsPrint(line: string)
    requires FromLine(line).Some? && |SplitN(line, ' ', 6)| >= 5 && PrinterFields(SplitN(line, ' ', 6))
    ensures Writable(FromLine(line).value) && FieldsOf(FromLine(line).value) == SplitN(line, ' ', 6)
  {
    hide FromLine, SplitN, Decimal, ParseU64, Escaped, Unescaped, Tidy, Canonical, TagText, FieldsOf;
    var p, e := SplitN(line, ' ', 6), FromLine(line).value;
    EntryFits(line);
    NumberExactly(p[0]);
    NumberExactly(p[2]);
    NumberExactly(p[3]);
    assert p[1] == [e.tier];
    TierField(e.tier);
    if |p| == 6 {
      ReasonExactly(p[5]);
    }
    SpelledFields(p, e);
  }

  lemma EmittedFields(e: Entry)
    requires Writable(e)
    ensures |SplitN(ToLine(e), ' ', 6)| >= 5 && PrinterFields(SplitN(ToLine(e), ' ', 6))
  {
    hide SplitN, Decimal, Escaped, Tidy, ToLine, Canonical, TagText;
    LineFields(e);
    PrintedIsCanonical(e.seqNo);
    PrintedIsCanonical(e.tMicros);
    PrintedIsCanonical(e.rttMicros);
    TierField(e.tier);
    if e.outcome.Nacked? {
      PrintedIsTidy(e.outcome.reason);
    }
  }

  /**
   * The parser accepts a line the printer would never emit exactly when a number carries a sign or a
   * leading zero, the tier is not one of the three letters alone, or the reason holds a raw line break
   * or an escape the printer does not write.
   */
  lemma StrictExactly(line: string)
    requires FromLine(line).Some?
    ensures |SplitN(line, ' ', 6)| >= 5 && (Emitted(line) <==> PrinterFields(SplitN(line, ' ', 6)))
  {
    hide FromLine, PrinterFields, ToLine, Writable, SplitN;
    EntryFits(line);
    if Emitted(line) {
      var e :| Writable(e) && ToLine(e) == line;
      EmittedFields(e);
    }
    if PrinterFields(SplitN(line, ' ', 6)) {
      FieldsPrint(line);
      LineFields(FromLine(line).value);
      SplitJoins(line, 6);
      SplitJoins(ToLine(FromLine(line).value), 6);
      assert ToLine(FromLine(line).value) == line;
    }
  }

  /** A padded number, a long tier: accepted, and never printed. */
  lemma NotStrict()
    ensures FromLine("07 SX 1 1 ACK") == Some(Entry(7, 'S', Acked, 1, 1)) && !Emitted("07 SX 1 1 ACK")
  {
    var line := LineOf("07", "SX", "1", "1", "ACK", None);
    assert line == "07 SX 1 1 ACK";
    NumbersHere();
    hide ParseU64, SplitN, FromLine;
    RustGrammar("07", "SX", "1", "1", "ACK", None);
    LineSplits("07", "SX", "1", "1", "ACK", None);
    StrictExactly(line);
  }

  lemma NumbersHere()
    ensures ParseU64("07") == Some(7) && ParseU64("1") == Some(1)
  {
    ValueEmpty();
    assert "07"[..1] == "0" && "0"[..0] == "" && "1"[..0] == "";
    assert Value("0") == 0 && Value("07") == 7 && Value("1") == 1;
  }
}
