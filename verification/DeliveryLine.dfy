/**
 * A record's identity on its way downstream: encoded into its payload by the load generator,
 * recovered and logged by the recording sink, read off the delivery log by the oracle.
 */
module DeliveryLine {
  import opened Wrappers
  import opened Text
  import Utf8
  import Bytes
  import opened Disk

  datatype Record = Record(runId: nat, seqNo: nat)

  // ---- The payload

  function Repeat(c: char, n: nat): (s: string)
    ensures |s| == n && forall i :: 0 <= i < n ==> s[i] == c
  {
    seq(n, _ => c)
  }

  function HeadOf(r: Record): string {
    "{\"run\":" + Decimal(r.runId) + ",\"seq\":" + Decimal(r.seqNo) + ",\"pad\":\""
  }

  /** Newline-free JSON padded to `size`; the identity is never cut to fit. */
  function EncodeRecord(r: Record, size: nat): (s: string)
    ensures |s| == Bytes.Max(size, 24 + |Decimal(r.runId)| + |Decimal(r.seqNo)|)
  {
    var overhead := |HeadOf(r)| + 2;
    HeadOf(r) + Repeat('a', if size > overhead then size - overhead else 0) + "\"}"
  }

  /** `haystack.find(key)` */
  function Find(s: string, key: string): Option<nat> {
    if key <= s then Some(0)
    else if s == [] then None
    else match Find(s[1..], key)
      case None => None
      case Some(i) => Some(i + 1)
  }

  function DigitRun(s: string): (n: nat)
    ensures n <= |s| && AllDigits(s[..n])
  {
    if s == [] || !IsDigit(s[0]) then 0
    else
      var n := DigitRun(s[1..]);
      assert s[..n + 1] == [s[0]] + s[1..][..n];
      n + 1
  }

  /** The digits after the first occurrence of `key`, as a u64. */
  function ExtractU64(s: string, key: string): Option<nat> {
    match Find(s, key)
    case None => None
    case Some(i) => if i + |key| <= |s| then ParseU64(s[i + |key|..][..DigitRun(s[i + |key|..])]) else None
  }

  function DecodeRecord(line: string): Option<Record> {
    var run, seqNo := ExtractU64(line, "\"run\":"), ExtractU64(line, "\"seq\":");
    if run.None? || seqNo.None? then None else Some(Record(run.value, seqNo.value))
  }

  lemma {:induction false} FindFirst(s: string, key: string, i: nat)
    requires i <= |s| && key <= s[i..] && forall j :: 0 <= j < i ==> !(key <= s[j..])
    ensures Find(s, key) == Some(i)
    decreases i
  {
    assert s[0..] == s;
    if i > 0 {
      assert !(key <= s[0..]);
      forall j | 0 <= j < i - 1
        ensures !(key <= s[1..][j..])
      {
        assert s[1..][j..] == s[j + 1..];
      }
      assert s[1..][i - 1..] == s[i..];
      FindFirst(s[1..], key, i - 1);
    }
  }

  /** The search finds the first occurrence there is. */
  lemma {:induction false} FindExactly(s: string, key: string)
    ensures match Find(s, key)
            case Some(i) => i <= |s| && key <= s[i..] && forall j :: 0 <= j < i ==> !(key <= s[j..])
            case None => forall j :: 0 <= j <= |s| ==> !(key <= s[j..])
  {
    assert s[0..] == s;
    if !(key <= s) && s != [] {
      FindExactly(s[1..], key);
      assert forall j :: 0 <= j <= |s| - 1 ==> s[1..][j..] == s[j + 1..];
      forall j | 0 <= j <= |s|
        ensures j > 0 ==> s[j..] == s[1..][j - 1..]
      {
      }
    }
  }

  /** A key's number is the whole run of digits after its first occurrence, if that is a u64. */
  lemma ExtractExactly(s: string, key: string, before: string, digits: string, rest: string)
    requires s == before + key + digits + rest && AllDigits(digits) && (rest == [] || !IsDigit(rest[0]))
    requires forall j :: 0 <= j < |before| ==> !(key <= s[j..])
    ensures ExtractU64(s, key) ==
            if digits != [] && Value(digits) < 0x1_0000_0000_0000_0000 then Some(Value(digits)) else None
  {
    hide Find, DigitRun, Value;
    var i := |before|;
    assert s[i..] == key + (digits + rest);
    FindFirst(s, key, i);
    assert s[i + |key|..] == digits + rest;
    DigitRunOf(digits, rest);
    assert (digits + rest)[..|digits|] == digits;
    assert digits != [] ==> digits[0] != '+';
  }

  lemma {:induction false} DigitRunOf(d: string, rest: string)
    requires AllDigits(d) && (rest == [] || !IsDigit(rest[0]))
    ensures DigitRun(d + rest) == |d|
  {
    if d == [] {
      assert d + rest == rest;
    } else {
      DigitRunOf(d[1..], rest);
      assert (d + rest)[1..] == d[1..] + rest;
    }
  }

  /** A number right after the first occurrence of its key is what the extractor finds. */
  lemma ExtractAt(s: string, key: string, before: string, n: nat, rest: string)
    requires s == before + key + Decimal(n) + rest && n < Bytes.TWO_64 && (rest == [] || !IsDigit(rest[0]))
    requires forall j :: 0 <= j < |before| ==> !(key <= s[j..])
    ensures ExtractU64(s, key) == Some(n)
  {
    hide Find, DigitRun, Decimal, ParseU64;
    var i := |before|;
    assert s[i..] == key + (Decimal(n) + rest);
    FindFirst(s, key, i);
    assert s[i + |key|..] == Decimal(n) + rest;
    DigitRunOf(Decimal(n), rest);
    assert (Decimal(n) + rest)[..|Decimal(n)|] == Decimal(n);
    ParsePrinted(n);
  }

  function PadOf(r: Record, size: nat): string {
    var overhead := |HeadOf(r)| + 2;
    Repeat('a', if size > overhead then size - overhead else 0) + "\"}"
  }

  lemma QuoteFree(s: string, key: string, j: nat)
    requires key != [] && j <= |s| && (j == |s| || s[j] != key[0])
    ensures !(key <= s[j..])
  {
  }

  lemma SecondDiffers(s: string, key: string, j: nat)
    requires |key| > 1 && j + 1 < |s| && s[j + 1] != key[1]
    ensures !(key <= s[j..])
  {
    assert s[j..][1] == s[j + 1];
  }

  /** The recorder recovers exactly the identity that was encoded, whatever the padding. */
  lemma DecodeInverts(r: Record, size: nat)
    requires r.runId < Bytes.TWO_64 && r.seqNo < Bytes.TWO_64
    ensures DecodeRecord(EncodeRecord(r, size)) == Some(r)
  {
    hide Decimal, ExtractU64;
    var s := EncodeRecord(r, size);
    var run, sq := Decimal(r.runId), Decimal(r.seqNo);
    var tail := ",\"pad\":\"" + PadOf(r, size);
    var mid := ",\"seq\":" + sq + tail;
    assert s == "{" + "\"run\":" + run + mid;
    forall j | 0 <= j < 1
      ensures !("\"run\":" <= s[j..])
    {
      QuoteFree(s, "\"run\":", j);
    }
    ExtractAt(s, "\"run\":", "{", r.runId, mid);
    var before := "{\"run\":" + run + ",";
    assert s == before + "\"seq\":" + sq + tail;
    SeqKeyFirst(s, run, sq + tail);
    ExtractAt(s, "\"seq\":", before, r.seqNo, tail);
  }

  lemma SeqKeyFirst(s: string, run: string, rest: string)
    requires AllDigits(run) && s == "{\"run\":" + run + "," + "\"seq\":" + rest
    ensures forall j :: 0 <= j < 8 + |run| ==> !("\"seq\":" <= s[j..])
  {
    forall j | 0 <= j < 8 + |run|
      ensures !("\"seq\":" <= s[j..])
    {
      assert s[1] == '\"' && s[2] == 'r' && s[5] == '\"' && s[6] == ':';
      assert s[7 + |run|] == ',';
      if j == 1 || j == 5 {
        SecondDiffers(s, "\"seq\":", j);
      } else {
        assert 7 <= j < 7 + |run| ==> s[j] == run[j - 7];
        QuoteFree(s, "\"seq\":", j);
      }
    }
  }

  lemma EncodedIsOneLine(r: Record, size: nat)
    ensures '\n' !in EncodeRecord(r, size) && EncodeRecord(r, size) != []
    ensures forall i :: 0 <= i < |EncodeRecord(r, size)| ==> EncodeRecord(r, size)[i] < 128 as char
  {
    hide Decimal;
    DigitsHaveNo(Decimal(r.runId), '\n');
    DigitsHaveNo(Decimal(r.seqNo), '\n');
  }

  // ---- The recorder

  function ToBytes(s: string): seq<Bytes.Byte> {
    seq(|s|, i requires 0 <= i < |s| => s[i] as int % 256)
  }

  /** What one line of a posted body adds to the delivery log: nothing unless it is text that decodes. */
  function Logged(line: string): string {
    if line == [] || !Utf8.WellFormed(ToBytes(line)) then ""
    else match DecodeRecord(line)
      case None => ""
      case Some(r) => LogLine(r)
  }

  function LogLine(r: Record): string {
    Decimal(r.runId) + " " + Decimal(r.seqNo) + "\n"
  }

  function LoggedAll(lines: seq<string>): string {
    if lines == [] then "" else Logged(lines[0]) + LoggedAll(lines[1..])
  }

  function LoggedCount(lines: seq<string>): nat {
    if lines == [] then 0 else (if Logged(lines[0]) == "" then 0 else 1) + LoggedCount(lines[1..])
  }

  lemma LoggedFrom(lines: seq<string>, i: nat)
    requires i < |lines|
    ensures LoggedAll(lines[i..]) == Logged(lines[i]) + LoggedAll(lines[i + 1..])
    ensures LoggedCount(lines[i..]) == (if Logged(lines[i]) == "" then 0 else 1) + LoggedCount(lines[i + 1..])
  {
    hide Logged;
    assert lines[i..][1..] == lines[i + 1..];
  }

  lemma LoggedNothing(io: Io)
    ensures LoggedAll([]) == "" && LoggedCount([]) == 0 && Written("", io) == ""
  {
  }

  /** The append-only delivery log. */
  class DeliveryLog {
    var file: string

    /**
     * Appends every decodable record of a newline-delimited body and syncs; undecodable lines are
     * skipped. With nothing to append the disk is not touched; a failed append or sync is an error.
     */
    method AppendNdjson(body: string, io: Io) returns (r: Result<nat, ()>)
      modifies this
      ensures var out := LoggedAll(SplitAll(body, '\n'));
        && file == old(file) + Written(out, io)
        && r == if out == "" || io.Synced? then Ok(LoggedCount(SplitAll(body, '\n'))) else Err(())
    {
      hide SplitAll, Logged, LogLine, LoggedAll, LoggedCount, Written;
      var lines := SplitAll(body, '\n');
      var out, count := "", 0;
      assert lines[0..] == lines;
      for i := 0 to |lines|
        invariant file == old(file) && out + LoggedAll(lines[i..]) == LoggedAll(lines)
        invariant count + LoggedCount(lines[i..]) == LoggedCount(lines)
      {
        LoggedFrom(lines, i);
        var piece := LogOne(lines[i]);
        assert out + (piece + LoggedAll(lines[i + 1..])) == (out + piece) + LoggedAll(lines[i + 1..]);
        if piece != "" {
          out := out + piece;
          count := count + 1;
        }
      }
      LoggedNothing(io);
      assert lines[|lines|..] == [] && out + "" == out;
      if out == "" {
        assert file + "" == file;
        return Ok(count);
      }
      file := file + Written(out, io);
      return if io.Synced? then Ok(count) else Err(());
    }
  }

  /** The body of the recorder's loop. */
  method LogOne(line: string) returns (piece: string)
    ensures piece == Logged(line)
  {
    hide DecodeRecord, Utf8.WellFormed;
    if line == [] { return ""; }
    var text := Utf8.Utf8Valid(ToBytes(line));
    if !text { return ""; }
    var rec := DecodeRecord(line);
    if rec.None? { return ""; }
    return LogLine(rec.value);
  }

  /** A payload the load generator made is always logged, under its own identity. */
  lemma PayloadLogged(r: Record, size: nat)
    requires r.runId < Bytes.TWO_64 && r.seqNo < Bytes.TWO_64
    ensures Logged(EncodeRecord(r, size)) == LogLine(r)
  {
    hide EncodeRecord, DecodeRecord;
    var s := EncodeRecord(r, size);
    EncodedIsOneLine(r, size);
    Utf8.AsciiWellFormed(ToBytes(s));
    DecodeInverts(r, size);
  }

  // ---- The oracle's side

  /** The end of the run of non-space characters at the front. */
  function WordEnd(s: string): (n: nat)
    ensures n <= |s|
  {
    if s == [] || IsSpace(s[0]) then 0 else 1 + WordEnd(s[1..])
  }

  lemma StripLeftShrinks(s: string)
    ensures |StripLeft(s)| <= |s|
    ensures StripLeft(s) != [] ==> WordEnd(StripLeft(s)) > 0
  {
  }

  /** Python's `line.split()`. */
  function Words(s: string): seq<string>
    decreases |s|
  {
    StripLeftShrinks(s);
    var t := StripLeft(s);
    if t == [] then [] else [t[..WordEnd(t)]] + Words(t[WordEnd(t)..])
  }

  /** Keeps the sequence number of a delivery line that belongs to this run. */
  function ParseDeliveredLine(line: string, runId: int): Option<nat> {
    var p := Words(line);
    if |p| != 2 then None
    else
      var r, s := PyInt(p[0]), PyInt(p[1]);
      if r.None? || s.None? then None
      else if r.value < 0 || s.value < 0 then None
      else if r.value == runId then Some(s.value) else None
  }

  lemma {:induction false} WordEndOf(d: string, rest: string)
    requires AllDigits(d) && (rest == [] || IsSpace(rest[0]))
    ensures WordEnd(d + rest) == |d|
  {
    if d == [] {
      assert d + rest == rest;
    } else {
      WordEndOf(d[1..], rest);
      assert (d + rest)[1..] == d[1..] + rest;
    }
  }

  lemma WordsCons(d: string, rest: string)
    requires d != [] && AllDigits(d) && (rest == [] || IsSpace(rest[0]))
    ensures Words(d + rest) == [d] + Words(rest)
  {
    WordEndOf(d, rest);
    assert (d + rest)[..|d|] == d && (d + rest)[|d|..] == rest;
  }

  /** A logged delivery reads back as its sequence number under its own run, and as nothing under another. */
  lemma OracleReadsDelivery(r: Record, runId: int)
    ensures ParseDeliveredLine(LogLine(r)[..|LogLine(r)| - 1], runId)
            == if r.runId == runId then Some(r.seqNo) else None
  {
    hide Decimal, PyInt, Words, StripLeft;
    var run, sq := Decimal(r.runId), Decimal(r.seqNo);
    assert LogLine(r)[..|LogLine(r)| - 1] == run + (" " + sq);
    WordsCons(run, " " + sq);
    WordsSkipSpace(sq);
    assert sq + [] == sq;
    WordsCons(sq, []);
    WordsEmpty();
    PyIntOfDecimal(r.runId);
    PyIntOfDecimal(r.seqNo);
  }

  lemma WordsEmpty()
    ensures Words([]) == []
  {
  }

  lemma WordsSkipSpace(s: string)
    requires s != [] && !IsSpace(s[0])
    ensures Words(" " + s) == Words(s)
  {
    assert (" " + s)[1..] == s;
    assert StripLeft(" " + s) == StripLeft(s);
  }

  lemma LogLinesDiffer(r: Record, r': Record)
    requires LogLine(r) == LogLine(r')
    ensures r == r'
  {
    hide LogLine, ParseDeliveredLine;
    OracleReadsDelivery(r, r.runId);
    OracleReadsDelivery(r', r.runId);
  }

  /** A line is logged under an identity exactly when it is UTF-8 text that decodes to it; any other leaves no trace. */
  lemma LoggedExactly(line: string, r: Record)
    ensures Logged(line) == LogLine(r) <==> Utf8.WellFormed(ToBytes(line)) && DecodeRecord(line) == Some(r)
    ensures Logged(line) == "" <==> !Utf8.WellFormed(ToBytes(line)) || DecodeRecord(line) == None
  {
    NothingDecodes();
    assert forall q :: LogLine(q) != "";
    hide LogLine, DecodeRecord, Utf8.WellFormed;
    if line != [] && Utf8.WellFormed(ToBytes(line)) && DecodeRecord(line).Some? {
      if LogLine(DecodeRecord(line).value) == LogLine(r) {
        LogLinesDiffer(DecodeRecord(line).value, r);
      }
    }
  }

  lemma NothingDecodes()
    ensures DecodeRecord("") == None
  {
  }
}
