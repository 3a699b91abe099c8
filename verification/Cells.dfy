/**
 * The dense oracle's storage: one byte per sequence number, two bits of tag and six of delivery
 * count, with counts past the ceiling moved to an overflow dictionary behind a sentinel.
 */
module Cells {
  import opened Bytes
  import opened LedgerLine

  function Code(t: Tag): nat {
    match t case ACK => 1 case NACK => 2 case UNK => 3
  }

  function TagFor(code: nat): Tag {
    if code == 1 then ACK else if code == 2 then NACK else UNK
  }

  /** `cell & 0b11` */
  function TagBits(cell: Byte): nat {
    cell % 4
  }

  /** `cell >> 2` */
  function CountBits(cell: Byte): nat {
    cell / 4
  }

  /** `(count << 2) | tag` */
  function Packed(count: nat, tag: nat): Byte
    requires count < 64 && tag < 4
  {
    count * 4 + tag
  }

  /** `max` is the highest count stored in a cell, `sentinel` the mark of one that is not. */
  datatype Store = Store(cells: seq<Byte>, overflow: map<nat, nat>, max: nat, sentinel: nat)

  ghost predicate Good(st: Store) {
    && st.max < st.sentinel <= 63
    && (forall s :: s in st.overflow ==> s < |st.cells| && CountBits(st.cells[s]) == st.sentinel && st.overflow[s] > st.max)
    && (forall s :: 0 <= s < |st.cells| ==>
          CountBits(st.cells[s]) <= st.max || (CountBits(st.cells[s]) == st.sentinel && s in st.overflow))
  }

  function CountAt(st: Store, s: nat): nat
    requires Good(st)
  {
    if s >= |st.cells| then 0
    else if CountBits(st.cells[s]) == st.sentinel then st.overflow[s]
    else CountBits(st.cells[s])
  }

  /** The ledger the tags spell. */
  ghost function LedgerOf(st: Store): map<nat, Tag> {
    map s | 0 <= s < |st.cells| && TagBits(st.cells[s]) != 0 :: TagFor(TagBits(st.cells[s]))
  }

  /** The delivery counts the cells and the overflow spell. */
  ghost function CountsOf(st: Store): map<nat, nat>
    requires Good(st)
  {
    map s | 0 <= s < |st.cells| && CountAt(st, s) != 0 :: CountAt(st, s)
  }

  lemma CountIsCount(st: Store, s: nat)
    requires Good(st)
    ensures s in CountsOf(st) <==> CountAt(st, s) != 0
    ensures s in CountsOf(st) ==> CountsOf(st)[s] == CountAt(st, s)
  {
  }

  function Zeros(n: nat): seq<Byte> {
    seq(n, _ => 0)
  }

  /** Fresh cells claim nothing. */
  lemma GrowKeeps(st: Store, n: nat)
    requires Good(st)
    ensures var st' := st.(cells := st.cells + Zeros(n));
            Good(st') && LedgerOf(st') == LedgerOf(st) && CountsOf(st') == CountsOf(st)
  {
    var st' := st.(cells := st.cells + Zeros(n));
    forall s | 0 <= s < |st'.cells|
      ensures s >= |st.cells| ==> st'.cells[s] == 0
      ensures s < |st.cells| ==> st'.cells[s] == st.cells[s]
    {
    }
    assert Good(st');
    assert LedgerOf(st') == LedgerOf(st);
    forall s: nat
      ensures CountAt(st', s) == CountAt(st, s)
    {
    }
  }

  /** `cell |= code`, for a cell whose tag bits are clear. */
  function OrTag(cell: Byte, t: Tag): Byte
    requires TagBits(cell) == 0
  {
    cell + Code(t)
  }

  lemma OrTagParts(cell: Byte, t: Tag)
    requires TagBits(cell) == 0
    ensures CountBits(OrTag(cell, t)) == CountBits(cell)
    ensures TagBits(OrTag(cell, t)) == Code(t) != 0 && TagFor(Code(t)) == t
  {
  }

  function Marked(st: Store, s: nat, t: Tag): Store
    requires s < |st.cells| && TagBits(st.cells[s]) == 0
  {
    st.(cells := st.cells[s := OrTag(st.cells[s], t)])
  }

  lemma MarkGood(st: Store, s: nat, t: Tag)
    requires Good(st) && s < |st.cells| && TagBits(st.cells[s]) == 0
    ensures Good(Marked(st, s, t)) && forall i: nat :: CountAt(Marked(st, s, t), i) == CountAt(st, i)
  {
    OrTagParts(st.cells[s], t);
    hide CountBits, TagBits, OrTag;
  }

  /** Writing a tag into a cell that has none records that one ledger row and disturbs no count. */
  lemma MarkTag(st: Store, s: nat, t: Tag)
    requires Good(st) && s < |st.cells| && TagBits(st.cells[s]) == 0
    ensures Good(Marked(st, s, t)) && CountsOf(Marked(st, s, t)) == CountsOf(st)
    ensures LedgerOf(Marked(st, s, t)) == LedgerOf(st)[s := t]
  {
    MarkGood(st, s, t);
    OrTagParts(st.cells[s], t);
    hide CountBits, TagBits, OrTag, Code, TagFor, CountAt, Good;
    assert LedgerOf(Marked(st, s, t)) == LedgerOf(st)[s := t];
    assert CountsOf(Marked(st, s, t)) == CountsOf(st);
  }

  /** One more delivery of `s`, as the accumulator stores it. */
  function Bumped(st: Store, s: nat): Store
    requires Good(st) && s < |st.cells|
  {
    var cell := st.cells[s];
    var packed := CountBits(cell);
    if packed == st.sentinel then st.(overflow := st.overflow[s := st.overflow[s] + 1])
    else if packed == st.max then
      st.(overflow := st.overflow[s := st.max + 1], cells := st.cells[s := Packed(st.sentinel, TagBits(cell))])
    else st.(cells := st.cells[s := Packed(packed + 1, TagBits(cell))])
  }

  lemma PackedParts(count: nat, tag: nat)
    requires count < 64 && tag < 4
    ensures CountBits(Packed(count, tag)) == count && TagBits(Packed(count, tag)) == tag
  {
  }

  lemma BumpGood(st: Store, s: nat)
    requires Good(st) && s < |st.cells|
    ensures Good(Bumped(st, s)) && |Bumped(st, s).cells| == |st.cells|
    ensures forall i :: 0 <= i < |st.cells| ==> TagBits(Bumped(st, s).cells[i]) == TagBits(st.cells[i])
    ensures CountAt(Bumped(st, s), s) == CountAt(st, s) + 1
    ensures forall i: nat :: i != s ==> CountAt(Bumped(st, s), i) == CountAt(st, i)
  {
    var cell := st.cells[s];
    PackedParts(st.sentinel, TagBits(cell));
    if CountBits(cell) < st.max {
      PackedParts(CountBits(cell) + 1, TagBits(cell));
    }
    hide CountBits, TagBits, Packed;
  }

  /** Whatever the ceiling, a bump adds exactly one delivery and disturbs no tag and no other count. */
  lemma BumpCounts(st: Store, s: nat)
    requires Good(st) && s < |st.cells|
    ensures Good(Bumped(st, s)) && LedgerOf(Bumped(st, s)) == LedgerOf(st)
    ensures |Bumped(st, s).cells| == |st.cells|
    ensures CountsOf(Bumped(st, s)) == CountsOf(st)[s := CountAt(st, s) + 1]
  {
    BumpGood(st, s);
    hide Bumped, CountAt, CountBits, TagBits;
    assert LedgerOf(Bumped(st, s)) == LedgerOf(st);
  }

  // ---- How far the cells reach

  const MAX_SEQ: nat := 0x100_0000_0000

  /** The length of the array once it has room for `s`: doubled at least, so it may reach past the ceiling. */
  function Room(len: nat, s: nat): nat {
    if s < len then len else Max(Max(s + 1, len * 2), 1024)
  }

  function Capacity(len: nat, ss: seq<nat>): nat {
    if ss == [] then len else Room(Capacity(len, ss[..|ss| - 1]), ss[|ss| - 1])
  }

  /** Some number lies past the ceiling and past the array as the numbers before it have left it. */
  ghost predicate Overruns(len: nat, ss: seq<nat>) {
    exists i :: 0 <= i < |ss| && Refused(len, ss, i)
  }

  predicate Refused(len: nat, ss: seq<nat>, i: nat)
    requires i < |ss|
  {
    ss[i] > MAX_SEQ && ss[i] >= Capacity(len, ss[..i])
  }

  lemma {:induction false} CapacityAppend(len: nat, a: seq<nat>, b: seq<nat>)
    ensures Capacity(len, a + b) == Capacity(Capacity(len, a), b)
    decreases |b|
  {
    hide Room;
    if b == [] {
      assert a + b == a;
    } else {
      CapacityAppend(len, a, b[..|b| - 1]);
      assert (a + b)[..|a + b| - 1] == a + b[..|b| - 1];
    }
  }

  lemma RefusedInFirst(len: nat, a: seq<nat>, b: seq<nat>, i: nat)
    requires i < |a|
    ensures Refused(len, a + b, i) <==> Refused(len, a, i)
  {
    hide Capacity;
    assert (a + b)[..i] == a[..i];
  }

  lemma RefusedInSecond(len: nat, a: seq<nat>, b: seq<nat>, i: nat)
    requires i < |b|
    ensures Refused(len, a + b, |a| + i) <==> Refused(Capacity(len, a), b, i)
  {
    CapacityAppend(len, a, b[..i]);
    hide Capacity;
    assert (a + b)[..|a| + i] == a + b[..i];
  }

  lemma OverrunsAppend(len: nat, a: seq<nat>, b: seq<nat>)
    ensures Overruns(len, a + b) <==> Overruns(len, a) || Overruns(Capacity(len, a), b)
  {
    hide Refused, Capacity;
    if i :| 0 <= i < |a| && Refused(len, a, i) {
      RefusedInFirst(len, a, b, i);
    }
    if i :| 0 <= i < |b| && Refused(Capacity(len, a), b, i) {
      RefusedInSecond(len, a, b, i);
    }
    if i :| 0 <= i < |a + b| && Refused(len, a + b, i) {
      if i < |a| {
        RefusedInFirst(len, a, b, i);
      } else {
        RefusedInSecond(len, a, b, i - |a|);
      }
    }
  }

  lemma OneNumber(len: nat, s: nat)
    ensures Capacity(len, [s]) == Room(len, s) && (Overruns(len, [s]) <==> s > MAX_SEQ && s >= len)
  {
    assert [s][..0] == [];
    assert Capacity(len, []) == len;
    assert Refused(len, [s], 0) <==> s > MAX_SEQ && s >= len;
  }

  lemma {:induction false} CapacityBound(len: nat, ss: seq<nat>)
    requires len <= 2 * MAX_SEQ && !Overruns(len, ss)
    ensures Capacity(len, ss) <= 2 * MAX_SEQ
    decreases |ss|
  {
    if ss != [] {
      var n := |ss| - 1;
      assert ss == ss[..n] + [ss[n]];
      OverrunsAppend(len, ss[..n], [ss[n]]);
      CapacityBound(len, ss[..n]);
      OneNumber(Capacity(len, ss[..n]), ss[n]);
    }
  }

  /** A refusal takes a number past the ceiling, and a number at twice the ceiling is always refused. */
  lemma CeilingBounds(ss: seq<nat>, i: nat)
    requires i < |ss|
    ensures Overruns(0, ss) ==> exists j :: 0 <= j < |ss| && ss[j] > 0x100_0000_0000
    ensures ss[i] >= 0x200_0000_0000 ==> Overruns(0, ss)
  {
    if j :| 0 <= j < |ss| && Refused(0, ss, j) {
      assert ss[j] > MAX_SEQ;
    }
    if ss[i] >= 2 * MAX_SEQ {
      var before := ss[..i];
      assert ss == before + ss[i..];
      OverrunsAppend(0, before, ss[i..]);
      if !Overruns(0, before) {
        CapacityBound(0, before);
        assert Refused(0, ss, i);
      }
    }
  }

  /** Between the two it depends on the array: here the third number is past the ceiling and accepted. */
  lemma PastCeilingAccepted()
    ensures !Overruns(0, [MAX_SEQ - 1, MAX_SEQ, MAX_SEQ + 1]) && Overruns(0, [MAX_SEQ + 1])
  {
    OneNumber(0, MAX_SEQ + 1);
    OneNumber(0, MAX_SEQ - 1);
    OneNumber(MAX_SEQ, MAX_SEQ);
    OneNumber(2 * MAX_SEQ, MAX_SEQ + 1);
    OverrunsAppend(0, [MAX_SEQ - 1], [MAX_SEQ]);
    CapacityAppend(0, [MAX_SEQ - 1], [MAX_SEQ]);
    OverrunsAppend(0, [MAX_SEQ - 1] + [MAX_SEQ], [MAX_SEQ + 1]);
    assert [MAX_SEQ - 1] + [MAX_SEQ] + [MAX_SEQ + 1] == [MAX_SEQ - 1, MAX_SEQ, MAX_SEQ + 1];
  }
}
