/** What Python's `int` makes of text, stated without its parsing steps. */
module PyNumbers {
  import opened Wrappers
  import opened Text

  /** The characters Python strips: tab to carriage return, the four separators, the space. */
  predicate Blank(s: string) {
    forall i :: 0 <= i < |s| ==> s[i] as int in {9, 10, 11, 12, 13, 28, 29, 30, 31, 32}
  }

  lemma SpaceExactly(c: char)
    ensures IsSpace(c) <==> c as int in {9, 10, 11, 12, 13, 28, 29, 30, 31, 32}
  {
  }

  lemma {:induction false} LeftStripped(pre: string, t: string)
    requires Blank(pre) && (t == [] || !IsSpace(t[0]))
    ensures StripLeft(pre + t) == t
  {
    hide IsSpace;
    if pre == [] {
      assert pre + t == t;
    } else {
      SpaceExactly(pre[0]);
      LeftStripped(pre[1..], t);
      assert (pre + t)[1..] == pre[1..] + t;
    }
  }

  lemma {:induction false} RightStripped(t: string, post: string)
    requires Blank(post) && (t == [] || !IsSpace(t[|t| - 1]))
    ensures StripRight(t + post) == t
    decreases |post|
  {
    hide IsSpace;
    if post == [] {
      assert t + post == t;
    } else {
      var n := |post| - 1;
      SpaceExactly(post[n]);
      RightStripped(t, post[..n]);
      assert (t + post)[..|t + post| - 1] == t + post[..n];
    }
  }

  // ---- Digit groups

  predicate GroupChar(c: char) {
    c == '_' || '0' <= c <= '9'
  }

  /** Digits at both ends, nothing but digits and underscores, no two underscores together. */
  predicate Grouping(s: string) {
    && s != [] && s[0] != '_' && s[|s| - 1] != '_'
    && (forall i :: 0 <= i < |s| ==> GroupChar(s[i]))
    && (forall i :: 0 <= i < |s| - 1 ==> s[i] != '_' || s[i + 1] != '_')
  }

  function Bare(s: string): string {
    if s == [] then [] else (if s[0] == '_' then [] else [s[0]]) + Bare(s[1..])
  }

  lemma GroupingTail(s: string, k: nat)
    requires k < |s| && s[k] != '_' && Grouping(s)
    ensures Grouping(s[k..])
  {
    var t := s[k..];
    assert forall i :: 0 <= i < |t| ==> t[i] == s[i + k];
    forall i | 0 <= i < |t| - 1
      ensures t[i] != '_' || t[i + 1] != '_'
    {
      assert t[i] == s[i + k] && t[i + 1] == s[i + k + 1];
    }
  }

  lemma BareFront(s: string, k: nat)
    requires 1 <= k <= 2 && k <= |s| && s[0] != '_' && (k == 2 ==> s[1] == '_')
    ensures Bare(s) == [s[0]] + Bare(s[k..])
  {
    if k == 2 {
      assert s[1..][1..] == s[2..];
      assert [] + Bare(s[2..]) == Bare(s[2..]);
    }
  }

  lemma GroupingFront(s: string, k: nat)
    requires 1 <= k <= 2 && k < |s| && '0' <= s[0] <= '9' && (k == 2 ==> s[1] == '_') && Grouping(s[k..])
    ensures Grouping(s)
  {
    var t := s[k..];
    assert forall i :: k <= i < |s| ==> s[i] == t[i - k];
    forall i | 0 <= i < |s| - 1
      ensures s[i] != '_' || s[i + 1] != '_'
    {
      if i >= k {
        assert t[i - k] != '_' || t[i - k + 1] != '_';
      }
    }
  }

  /** Exactly the groupings are read, as the digits without their underscores. */
  lemma {:induction false} GroupedExactly(s: string)
    ensures Grouped(s) == if Grouping(s) then Some(Bare(s)) else None
    decreases |s|
  {
    hide Grouping;
    assert |s| == 1 && s[0] != '_' ==> Bare(s) == s by {
      if |s| == 1 && s[0] != '_' {
        assert Bare(s) == [s[0]] + Bare([]);
      }
    }
    hide Bare;
    if s == [] || !IsDigit(s[0]) || |s| == 1 {
      GroupingShort(s);
      assert |s| == 1 ==> s[1..] == [];
    } else {
      var k := if s[1] == '_' then 2 else 1;
      GroupedExactly(s[k..]);
      BareFront(s, k);
      if Grouping(s) {
        GroupingPast(s);
        GroupingTail(s, k);
      } else if k < |s| && Grouping(s[k..]) {
        GroupingFront(s, k);
      } else if k == |s| {
        GroupingShort(s[k..]);
      }
    }
  }

  lemma GroupingShort(s: string)
    ensures s == [] || !IsDigit(s[0]) ==> !Grouping(s)
    ensures |s| == 1 && IsDigit(s[0]) ==> Grouping(s)
  {
  }

  lemma GroupingPast(s: string)
    requires Grouping(s) && |s| > 1
    ensures s[1] != '_' || (|s| > 2 && s[2] != '_')
  {
  }

  lemma {:induction false} BareDigits(s: string)
    requires forall i :: 0 <= i < |s| ==> GroupChar(s[i])
    ensures AllDigits(Bare(s))
  {
    if s != [] {
      BareDigits(s[1..]);
    }
  }

  /** Surrounding blanks, one optional sign, grouped digits: read as that number. Anything else between the blanks is refused. */
  lemma PyIntExactly(pre: string, sign: string, body: string, post: string)
    requires Blank(pre) && Blank(post) && sign in {"", "+", "-"}
    requires body != [] && !IsSpace(body[0]) && !IsSpace(body[|body| - 1]) && body[0] != '+' && body[0] != '-'
    ensures Grouping(body) ==> AllDigits(Bare(body))
    ensures PyInt(pre + (sign + body + post)) ==
            if !Grouping(body) then None
            else Some(if sign == "-" then -(Value(Bare(body)) as int) else Value(Bare(body)))
  {
    hide Value, Grouped, Grouping, Bare, IsSpace;
    var t := sign + body;
    GroupedExactly(body);
    if Grouping(body) {
      GroupingChars(body);
      BareDigits(body);
    }
    SignIsNoSpace();
    assert t[|t| - 1] == body[|body| - 1] && (sign == "" ==> t[0] == body[0]);
    assert sign + body + post == t + post && (t + post)[0] == t[0];
    LeftStripped(pre, t + post);
    RightStripped(t, post);
    assert sign != "" ==> t[1..] == body;
    assert sign == "" ==> t == body;
  }

  lemma SignIsNoSpace()
    ensures !IsSpace('+') && !IsSpace('-')
  {
  }

  lemma GroupingChars(s: string)
    requires Grouping(s)
    ensures forall i :: 0 <= i < |s| ==> GroupChar(s[i])
  {
  }
}
