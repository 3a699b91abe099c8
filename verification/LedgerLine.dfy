/**
 * One line per record: what the load generator writes to the ledger, and the two parsers
 * that read it, Rust's and the Python oracle's.
 */
module LedgerLine {
  import opened Wrappers
  import opened Text
  import Bytes

  datatype Outcome = Acked | Nacked(reason: string) | Unknown

  datatype Entry = Entry(seqNo: nat, tier: char, outcome: Outcome, tMicros: nat, rttMicros: nat)

  datatype Tag = ACK | NACK | UNK

  function TagOf(o: Outcome): Tag {
    match o
    case Acked => ACK
    case Nacked(_) => NACK
    case Unknown => UNK
  }

  function TagText(t: Tag): string {
    match t
    case ACK => "ACK"
    case NACK => "NACK"
    case UNK => "UNK"
  }

  /** What `to_line` asserts of its tier, and the widths of its integer fields. */
  predicate Writable(e: Entry) {
    && e.tier in {'D', 'S', 'U'}
    && e.seqNo < Bytes.TWO_64 && e.tMicros < Bytes.TWO_64 && e.rttMicros < Bytes.TWO_64
  }

  // ---- Escaping a Nack reason

  function EscapeChar(c: char): string {
    if c == '\\' then "\\\\" else if c == '\n' then "\\n" else if c == '\r' then "\\r" else [c]
  }

  function Escaped(s: string): string {
    if s == [] then [] else EscapeChar(s[0]) + Escaped(s[1..])
  }

  /** What a backslash and `c` stand for; an unrecognised escape is kept as it stands. */
  function Meaning(c: char): string {
    if c == '\\' then "\\" else if c == 'n' then "\n" else if c == 'r' then "\r" else ['\\', c]
  }

  function Unescaped(s: string): string {
    if s == [] then []
    else if s[0] != '\\' then [s[0]] + Unescaped(s[1..])
    else if |s| == 1 then "\\"
    else Meaning(s[1]) + Unescaped(s[2..])
  }

  lemma {:induction false} EscapedSnoc(s: string, c: char)
    ensures Escaped(s + [c]) == Escaped(s) + EscapeChar(c)
  {
    if s == [] {
      assert (s + [c])[1..] == [];
    } else {
      EscapedSnoc(s[1..], c);
      assert (s + [c])[1..] == s[1..] + [c];
    }
  }

  method EscapeReason(r: string) returns (out: string)
    ensures out == Escaped(r)
  {
    hide EscapeChar;
    out := [];
    assert r[..0] == [];
    for i := 0 to |r|
      invariant out == Escaped(r[..i])
    {
      EscapedSnoc(r[..i], r[i]);
      assert r[..i + 1] == r[..i] + [r[i]];
      out := out + EscapeChar(r[i]);
    }
    assert r[..|r|] == r;
  }

  method UnescapeReason(s: string) returns (out: string)
    ensures out == Unescaped(s)
  {
    hide Meaning;
    out := [];
    var i := 0;
    assert s[0..] == s;
    while i < |s|
      invariant 0 <= i <= |s|
      invariant out + Unescaped(s[i..]) == Unescaped(s)
    {
      ghost var rest := s[i..];
      var c, piece := s[i], [];
      if c != '\\' {
        piece, i := [c], i + 1;
        assert rest[1..] == s[i..];
      } else if i + 1 == |s| {
        piece, i := "\\", i + 1;
        assert s[i..] == [];
      } else {
        piece, i := Meaning(s[i + 1]), i + 2;
        assert rest[2..] == s[i..];
      }
      assert Unescaped(rest) == piece + Unescaped(s[i..]);
      assert out + (piece + Unescaped(s[i..])) == (out + piece) + Unescaped(s[i..]);
      out := out + piece;
    }
  }

  /** Escaping loses nothing, for any reason text. */
  lemma {:induction false} UnescapeInverts(s: string)
    ensures Unescaped(Escaped(s)) == s
  {
    if s != [] {
      UnescapeInverts(s[1..]);
      var e, rest := EscapeChar(s[0]), Escaped(s[1..]);
      assert s == [s[0]] + s[1..];
      if |e| == 2 {
        assert (e + rest)[2..] == rest;
      } else {
        assert (e + rest)[1..] == rest;
      }
    }
  }

  /** An escaped reason never breaks its line. */
  lemma {:induction false} EscapedIsOneLine(s: string)
    ensures '\n' !in Escaped(s) && '\r' !in Escaped(s)
  {
    if s != [] {
      EscapedIsOneLine(s[1..]);
    }
  }

  // ---- Printing

  function Reason(o: Outcome): string {
    match o
    case Nacked(r) => " " + Escaped(r)
    case _ => ""
  }

  function ToLine(e: Entry): string {
    Decimal(e.seqNo) + " " + ([e.tier] + " " + (Decimal(e.tMicros) + " " + (Decimal(e.rttMicros) + " "
    + (TagText(TagOf(e.outcome)) + Reason(e.outcome)))))
  }

  // ---- The two parsers

  /** Rust's `LedgerEntry::from_line`. */
  function FromLine(line: string): Option<Entry> {
    var p := SplitN(line, ' ', 6);
    if |p| < 5 || p[1] == [] then None
    else
      var s, t, rtt := ParseU64(p[0]), ParseU64(p[2]), ParseU64(p[3]);
      if s.None? || t.None? || rtt.None? then None
      else if p[4] == "ACK" && |p| == 5 then Some(Entry(s.value, p[1][0], Acked, t.value, rtt.value))
      else if p[4] == "UNK" && |p| == 5 then Some(Entry(s.value, p[1][0], Unknown, t.value, rtt.value))
      else if p[4] == "NACK" && |p| == 6 then Some(Entry(s.value, p[1][0], Nacked(Unescaped(p[5])), t.value, rtt.value))
      else None
  }

  function StripNewlines(s: string): string
    decreases |s|
  {
    if s != [] && s[|s| - 1] == '\n' then StripNewlines(s[..|s| - 1]) else s
  }

  /** The oracle's `parse_ledger_line`: sequence number and tag, or nothing. */
  function ParseLedgerLine(line: string): (r: Option<(nat, Tag)>) {
    var p := SplitN(StripNewlines(line), ' ', 6);
    if |p| < 5 then None
    else match PyInt(p[0])
      case None => None
      case Some(n) =>
        if n < 0 then None
        else if p[4] == "NACK" then if |p| == 6 then Some((n, NACK)) else None
        else if p[4] == "ACK" then if |p| == 6 then None else Some((n, ACK))
        else if p[4] == "UNK" then if |p| == 6 then None else Some((n, UNK))
        else None
  }

  // ---- What is written is what is read

  /** The fields of a written line, as either splitter finds them. */
  function FieldsOf(e: Entry): seq<string> {
    [Decimal(e.seqNo), [e.tier], Decimal(e.tMicros), Decimal(e.rttMicros), TagText(TagOf(e.outcome))]
    + match e.outcome case Nacked(r) => [Escaped(r)] case _ => []
  }

  lemma TailFields(o: Outcome)
    ensures SplitN(TagText(TagOf(o)) + Reason(o), ' ', 2)
            == [TagText(TagOf(o))] + match o case Nacked(r) => [Escaped(r)] case _ => []
  {
    hide Escaped, IndexOf;
    var t := TagText(TagOf(o));
    if o.Nacked? {
      assert t + Reason(o) == t + [' '] + Escaped(o.reason);
      SplitNCons(t, ' ', Escaped(o.reason), 2);
    } else {
      assert t + "" == t;
      SplitNWhole(t, ' ', 2);
    }
  }

  lemma LineFields(e: Entry)
    requires Writable(e)
    ensures SplitN(ToLine(e), ' ', 6) == FieldsOf(e)
  {
    hide Decimal, SplitN, Escaped, TagText;
    var d5 := TagText(TagOf(e.outcome)) + Reason(e.outcome);
    var d4 := Decimal(e.rttMicros) + " " + d5;
    var d3 := Decimal(e.tMicros) + " " + d4;
    var d2 := [e.tier] + " " + d3;
    DigitsHaveNo(Decimal(e.seqNo), ' ');
    DigitsHaveNo(Decimal(e.tMicros), ' ');
    DigitsHaveNo(Decimal(e.rttMicros), ' ');
    SplitNCons(Decimal(e.seqNo), ' ', d2, 6);
    SplitNCons([e.tier], ' ', d3, 5);
    SplitNCons(Decimal(e.tMicros), ' ', d4, 4);
    SplitNCons(Decimal(e.rttMicros), ' ', d5, 3);
    TailFields(e.outcome);
  }

  /** Rust reads back every entry it writes, reason and all. */
  lemma FromLineInverts(e: Entry)
    requires Writable(e)
    ensures FromLine(ToLine(e)) == Some(e)
  {
    hide Decimal, SplitN, Escaped, Unescaped, ToLine, ParseU64;
    LineFields(e);
    ParsePrinted(e.seqNo);
    ParsePrinted(e.tMicros);
    ParsePrinted(e.rttMicros);
    if e.outcome.Nacked? {
      UnescapeInverts(e.outcome.reason);
    }
  }

  lemma LineIsOneLine(e: Entry)
    requires Writable(e)
    ensures '\n' !in ToLine(e) && ToLine(e) != []
  {
    hide Decimal, Escaped;
    DigitsHaveNo(Decimal(e.seqNo), '\n');
    DigitsHaveNo(Decimal(e.tMicros), '\n');
    DigitsHaveNo(Decimal(e.rttMicros), '\n');
    if e.outcome.Nacked? {
      EscapedIsOneLine(e.outcome.reason);
    }
  }

  lemma NoNewlineStripsNothing(s: string)
    requires '\n' !in s
    ensures StripNewlines(s) == s
  {
  }

  /** The oracle reads the sequence number and the outcome's tag off every line written. */
  lemma OracleReadsLine(e: Entry)
    requires Writable(e)
    ensures ParseLedgerLine(ToLine(e)) == Some((e.seqNo, TagOf(e.outcome)))
  {
    hide Decimal, SplitN, Escaped, ToLine, PyInt, StripNewlines;
    LineIsOneLine(e);
    NoNewlineStripsNothing(ToLine(e));
    LineFields(e);
    PyIntOfDecimal(e.seqNo);
  }

  // ---- The parsers compared

  predicate EndsInNewline(s: string) {
    s != [] && s[|s| - 1] == '\n'
  }

  /** The same fields, but for what follows the last field's text. */
  ghost predicate SameButLast(p: seq<string>, q: seq<string>) {
    0 < |p| == |q| && forall i :: 0 <= i < |p| - 1 ==> p[i] == q[i]
  }

  lemma IndexWithoutNewline(s: string)
    requires EndsInNewline(s)
    ensures var i := IndexOf(s, ' ');
            IndexOf(s[..|s| - 1], ' ') == if i == |s| then |s| - 1 else i
    ensures IndexOf(s, ' ') < |s| ==> IndexOf(s, ' ') < |s| - 1
  {
    var t := s[..|s| - 1];
    assert forall j :: 0 <= j < |t| ==> t[j] == s[j];
  }

  /** Dropping a final newline shortens the last field and touches no other. */
  lemma {:induction false} SplitWithoutNewline(s: string, n: nat)
    requires n > 0 && EndsInNewline(s)
    ensures SameButLast(SplitN(s, ' ', n), SplitN(s[..|s| - 1], ' ', n))
    ensures EndsInNewline(SplitN(s, ' ', n)[|SplitN(s, ' ', n)| - 1])
    decreases n
  {
    hide IndexOf, SplitN;
    var t, i := s[..|s| - 1], IndexOf(s, ' ');
    IndexWithoutNewline(s);
    SplitNUnfold(s, n);
    SplitNUnfold(t, n);
    if i < |s| && n > 1 {
      var u := s[i + 1..];
      assert u[..|u| - 1] == t[i + 1..] && t[..i] == s[..i];
      SplitWithoutNewline(u, n - 1);
      SameButLastCons(s[..i], SplitN(u, ' ', n - 1), SplitN(t[i + 1..], ' ', n - 1));
    }
  }

  lemma SplitNUnfold(s: string, n: nat)
    requires n > 0
    ensures var i := IndexOf(s, ' ');
            SplitN(s, ' ', n) == if n == 1 || i == |s| then [s] else [s[..i]] + SplitN(s[i + 1..], ' ', n - 1)
  {
  }

  lemma SameButLastCons(a: string, p: seq<string>, q: seq<string>)
    requires SameButLast(p, q)
    ensures SameButLast([a] + p, [a] + q) && ([a] + p)[|p|] == p[|p| - 1]
  {
  }

  lemma {:induction false} SplitStripped(s: string, n: nat)
    requires n > 0
    ensures SameButLast(SplitN(s, ' ', n), SplitN(StripNewlines(s), ' ', n))
    ensures !EndsInNewline(s) ==> StripNewlines(s) == s
    ensures EndsInNewline(s) ==> EndsInNewline(SplitN(s, ' ', n)[|SplitN(s, ' ', n)| - 1])
    decreases |s|
  {
    hide SplitN;
    if EndsInNewline(s) {
      SplitWithoutNewline(s, n);
      SplitStripped(s[..|s| - 1], n);
    }
  }

  /** What Rust checks and the oracle does not: a tier, and three numbers that fit a u64. */
  predicate RustFields(line: string) {
    var p := SplitN(line, ' ', 6);
    |p| >= 5 && p[1] != [] && ParseU64(p[0]).Some? && ParseU64(p[2]).Some? && ParseU64(p[3]).Some?
  }

  lemma RustImpliesOracle(line: string, e: Entry)
    requires FromLine(line) == Some(e)
    ensures ParseLedgerLine(line) == Some((e.seqNo, TagOf(e.outcome)))
    ensures RustFields(line) && (e.outcome.Nacked? || !EndsInNewline(line))
  {
    hide SplitN, ParseU64, PyInt, StripNewlines;
    var p, q := SplitN(line, ' ', 6), SplitN(StripNewlines(line), ' ', 6);
    SplitStripped(line, 6);
    U64IsPyInt(p[0]);
  }

  lemma OracleImpliesRust(line: string)
    requires ParseLedgerLine(line).Some? && RustFields(line)
    requires ParseLedgerLine(line).value.1 == NACK || !EndsInNewline(line)
    ensures FromLine(line).Some?
  {
    hide SplitN, ParseU64, PyInt, StripNewlines;
    var p, q := SplitN(line, ' ', 6), SplitN(StripNewlines(line), ' ', 6);
    SplitStripped(line, 6);
  }

  /**
   * The parsers are documented to accept the same lines. Every line Rust accepts, the oracle accepts
   * with the same number and tag; the converse holds exactly when the fields only Rust checks are
   * good and a line without a reason does not end in a newline.
   */
  lemma ParsersCompared(line: string)
    ensures FromLine(line).Some? <==>
            && ParseLedgerLine(line).Some? && RustFields(line)
            && (ParseLedgerLine(line).value.1 == NACK || !EndsInNewline(line))
    ensures FromLine(line).Some? ==>
            ParseLedgerLine(line) == Some((FromLine(line).value.seqNo, TagOf(FromLine(line).value.outcome)))
  {
    hide FromLine, ParseLedgerLine, RustFields;
    if FromLine(line).Some? {
      RustImpliesOracle(line, FromLine(line).value);
    } else if && ParseLedgerLine(line).Some? && RustFields(line)
              && (ParseLedgerLine(line).value.1 == NACK || !EndsInNewline(line)) {
      OracleImpliesRust(line);
    }
  }

  /** A line with an empty tier field: the oracle trusts it, Rust does not. */
  lemma ParsersDiverge()
    ensures ParseLedgerLine("7  1 1 ACK") == Some((7, ACK)) && FromLine("7  1 1 ACK").None?
  {
    hide SplitN, PyInt, StripNewlines;
    assert "7  1 1 ACK" == "7" + [' '] + ("" + [' '] + ("1" + [' '] + ("1" + [' '] + "ACK")));
    SplitNCons("7", ' ', "" + [' '] + ("1" + [' '] + ("1" + [' '] + "ACK")), 6);
    SplitNCons("", ' ', "1" + [' '] + ("1" + [' '] + "ACK"), 5);
    SplitNCons("1", ' ', "1" + [' '] + "ACK", 4);
    SplitNCons("1", ' ', "ACK", 3);
    SplitNWhole("ACK", ' ', 2);
    NoNewlineStripsNothing("7  1 1 ACK");
    assert Decimal(7) == "7";
    PyIntOfDecimal(7);
  }
}
