/** The oracle's incremental reader of an append-only log that another process is still writing. */
module Tailer {
  import opened Wrappers
  import opened Text

  /** The length of the part of a chunk that ends with its last newline; 0 when there is none. */
  function CompleteLen(s: string): (n: nat)
    ensures n <= |s|
    ensures n > 0 ==> s[n - 1] == '\n'
    ensures forall i :: n <= i < |s| ==> s[i] != '\n'
    decreases |s|
  {
    if s == [] then 0 else if s[|s| - 1] == '\n' then |s| else CompleteLen(s[..|s| - 1])
  }

  /** The complete lines of a log as it stands; a line still being written is not one of them. */
  function Complete(file: string): string {
    file[..CompleteLen(file)]
  }

  datatype ReadError = Shrank(from: nat, to: nat)

  /** Reads each byte once: remembers how far the complete lines reached. */
  class LogTailer {
    var offset: nat

    constructor ()
      ensures offset == 0
    {
      offset := 0;
    }

    /** `file` is the log as this read finds it, or nothing when it does not exist yet. */
    method ReadNew(file: Option<string>) returns (r: Result<seq<string>, ReadError>)
      modifies this
      ensures match file
              case None => r == Ok([]) && offset == old(offset)
              case Some(f) =>
                if |f| < old(offset) then r == Err(Shrank(old(offset), |f|)) && offset == old(offset)
                else r == Ok(Lines(f[old(offset)..][..CompleteLen(f[old(offset)..])]))
                     && offset == old(offset) + CompleteLen(f[old(offset)..])
    {
      if file.None? { return Ok([]); }
      var size := |file.value|;
      if size < offset { return Err(Shrank(offset, size)); }
      var chunk := file.value[offset..];
      NoLines();
      if chunk == [] { return Ok([]); }
      var cut := CompleteLen(chunk);
      if cut == 0 {
        assert chunk[..0] == [];
        return Ok([]);
      }
      offset := offset + cut;
      return Ok(Lines(chunk[..cut]));
    }
  }

  lemma NoLines()
    ensures Lines([]) == []
  {
    assert SplitAll([], '\n') == [[]];
  }

  // ---- Reading in pieces is reading at once

  predicate WholeLines(s: string) {
    s == [] || s[|s| - 1] == '\n'
  }

  lemma LinesCons(a: string, rest: string)
    requires '\n' !in a
    ensures Lines(a + "\n" + rest) == (if a == [] then [] else [a]) + Lines(rest)
  {
    SplitAllCons(a, '\n', rest);
    assert ([a] + SplitAll(rest, '\n'))[1..] == SplitAll(rest, '\n');
  }

  /** Lines of a text cut at a line boundary are the lines of its two parts. */
  lemma {:induction false} LinesConcat(a: string, b: string)
    requires WholeLines(a)
    ensures Lines(a + b) == Lines(a) + Lines(b)
    decreases |a|
  {
    hide SplitAll, NonEmpty, IndexOf;
    if a == [] {
      NoLines();
      assert a + b == b && [] + Lines(b) == Lines(b);
    } else {
      var i := IndexOf(a, '\n');
      assert a[|a| - 1] == '\n';
      var head, rest := a[..i], a[i + 1..];
      assert a == head + "\n" + rest && a + b == head + "\n" + (rest + b);
      LinesCons(head, rest);
      LinesCons(head, rest + b);
      LinesConcat(rest, b);
    }
  }

  lemma CompleteLenUnique(s: string, n: nat)
    requires n <= |s| && (n > 0 ==> s[n - 1] == '\n') && forall i :: n <= i < |s| ==> s[i] != '\n'
    ensures CompleteLen(s) == n
  {
  }

  lemma CompleteGrows(before: string, after: string)
    requires before <= after
    ensures var o := CompleteLen(before); CompleteLen(after) == o + CompleteLen(after[o..])
  {
    var o := CompleteLen(before);
    var chunk := after[o..];
    var k := CompleteLen(chunk);
    hide CompleteLen;
    forall i | o + k <= i < |after|
      ensures after[i] != '\n'
    {
      assert after[i] == chunk[i - o];
    }
    assert k > 0 ==> after[o + k - 1] == chunk[k - 1];
    assert o > 0 ==> after[o - 1] == before[o - 1];
    CompleteLenUnique(after, o + k);
  }

  /** Cutting a text at two line boundaries. */
  lemma LinesUpTo(text: string, o: nat, n: nat)
    requires o <= n <= |text| && WholeLines(text[..o])
    ensures Lines(text[..n]) == Lines(text[..o]) + Lines(text[o..n])
  {
    hide Lines;
    assert text[..n] == text[..o] + text[o..n];
    LinesConcat(text[..o], text[o..n]);
  }

  lemma CompleteIsWhole(file: string)
    ensures WholeLines(Complete(file))
  {
  }

  /** What a read adds is what the log's complete part gained. */
  lemma ReadExtends(before: string, after: string)
    requires before <= after
    ensures var o := CompleteLen(before); var chunk := after[o..];
            && CompleteLen(after) == o + CompleteLen(chunk)
            && Lines(Complete(after)) == Lines(Complete(before)) + Lines(chunk[..CompleteLen(chunk)])
  {
    hide Lines, CompleteLen, WholeLines;
    var o := CompleteLen(before);
    var k := CompleteLen(after[o..]);
    CompleteGrows(before, after);
    CompleteIsWhole(before);
    Pieces(before, after, o, k);
  }

  /** The same, for any cut at a line boundary. */
  lemma Pieces(before: string, after: string, o: nat, k: nat)
    requires before <= after && o <= |before| && o + k <= |after| && WholeLines(before[..o])
    ensures Lines(after[..o + k]) == Lines(before[..o]) + Lines(after[o..][..k])
  {
    hide Lines, WholeLines;
    assert before[..o] == after[..o] && after[o..][..k] == after[o..o + k];
    LinesUpTo(after, o, o + k);
  }

  /** The log only grows; `sizes[i]` is how much of it read `i` found. */
  predicate Schedule(log: string, sizes: seq<nat>) {
    && (forall i :: 0 <= i < |sizes| ==> sizes[i] <= |log|)
    && (forall i, j :: 0 <= i < j < |sizes| ==> sizes[i] <= sizes[j])
  }

  /** All lines returned by a series of reads by one tailer, torn tails and all. */
  method TailLog(log: string, sizes: seq<nat>) returns (lines: seq<string>)
    requires Schedule(log, sizes)
    ensures lines == if sizes == [] then [] else Lines(Complete(log[..sizes[|sizes| - 1]]))
  {
    hide Lines, CompleteLen;
    var tailer := new LogTailer();
    lines := [];
    ghost var seen: string := [];
    NoLines();
    CompleteOfNothing();
    for i := 0 to |sizes|
      invariant seen == if i == 0 then [] else log[..sizes[i - 1]]
      invariant tailer.offset == CompleteLen(seen) && lines == Lines(Complete(seen))
    {
      var now := log[..sizes[i]];
      ReadExtends(seen, now);
      var r := tailer.ReadNew(Some(now));
      lines := lines + r.value;
      seen := now;
    }
  }

  lemma CompleteOfNothing()
    ensures CompleteLen([]) == 0 && Complete([]) == []
  {
  }
}
