/**
 * The AckBatch payload: a version, the echoed count, and one bit per record, least
 * significant bit first. No checksum would notice bits in another order, so the codec is
 * pinned bit by bit and by its population count.
 */
module AckBatch {
  import opened Bytes
  import opened Wrappers
  import opened Batch

  const ACK_BATCH_VERSION: Byte := 1
  const ACK_HEADER_LEN: nat := 3

  // ---- Bits of a byte

  /** `b & (1 << k) != 0` */
  predicate Bit(b: nat, k: nat)
    decreases k
  {
    if k == 0 then b % 2 == 1 else Bit(b / 2, k - 1)
  }

  /** `b | (1 << k)` */
  function SetBit(b: nat, k: nat): nat
    decreases k
  {
    if k == 0 then b / 2 * 2 + 1 else b % 2 + 2 * SetBit(b / 2, k - 1)
  }

  /** `b >> k`; non-zero exactly when `b & !((1 << k) - 1)` is. */
  function Shr(b: nat, k: nat): nat
    decreases k
  {
    if k == 0 then b else Shr(b / 2, k - 1)
  }

  function PopCount(b: nat): nat {
    if b == 0 then 0 else b % 2 + PopCount(b / 2)
  }

  function Pow2(k: nat): nat {
    if k == 0 then 1 else 2 * Pow2(k - 1)
  }

  lemma {:induction false} SetBitBits(b: nat, k: nat, j: nat)
    ensures Bit(SetBit(b, k), j) == (j == k || Bit(b, j))
    decreases k
  {
    if k == 0 {
      if j > 0 {
        assert (b / 2 * 2 + 1) / 2 == b / 2;
      }
    } else {
      var t := SetBit(b / 2, k - 1);
      assert (b % 2 + 2 * t) % 2 == b % 2 && (b % 2 + 2 * t) / 2 == t;
      if j > 0 {
        SetBitBits(b / 2, k - 1, j - 1);
      }
    }
  }

  lemma {:induction false} SetBitFits(b: nat, k: nat, width: nat)
    requires b < Pow2(width) && k < width
    ensures SetBit(b, k) < Pow2(width)
    decreases k
  {
    var half := Pow2(width - 1);
    assert Pow2(width) == 2 * half;
    if k == 0 {
      assert b / 2 < half;
    } else {
      SetBitFits(b / 2, k - 1, width - 1);
      var t := SetBit(b / 2, k - 1);
      assert t < half && b % 2 <= 1;
      assert SetBit(b, k) == b % 2 + 2 * t;
    }
  }

  lemma {:induction false} BitsDetermine(b: nat, c: nat, width: nat)
    requires b < Pow2(width) && c < Pow2(width)
    requires forall k :: 0 <= k < width ==> Bit(b, k) == Bit(c, k)
    ensures b == c
    decreases width
  {
    if width > 0 {
      assert Bit(b, 0) == Bit(c, 0);
      forall k | 0 <= k < width - 1
        ensures Bit(b / 2, k) == Bit(c / 2, k)
      {
        assert Bit(b, k + 1) == Bit(c, k + 1);
      }
      BitsDetermine(b / 2, c / 2, width - 1);
    }
  }

  lemma {:induction false} HighBitsClear(b: nat, used: nat, k: nat)
    requires Shr(b, used) == 0 && used <= k
    ensures !Bit(b, k)
    decreases used
  {
    if used == 0 {
      ZeroBit(k);
    } else {
      HighBitsClear(b / 2, used - 1, k - 1);
    }
  }

  lemma {:induction false} ZeroBit(k: nat)
    ensures !Bit(0, k)
    decreases k
  {
    if k > 0 {
      ZeroBit(k - 1);
    }
  }

  lemma {:induction false} ShrClear(b: nat, used: nat, width: nat)
    requires used <= width && b < Pow2(width) && forall k :: used <= k < width ==> !Bit(b, k)
    ensures Shr(b, used) == 0
    decreases width
  {
    if used > 0 {
      forall k | used - 1 <= k < width - 1
        ensures !Bit(b / 2, k)
      {
        assert !Bit(b, k + 1);
      }
      ShrClear(b / 2, used - 1, width - 1);
    } else {
      forall k | 0 <= k < width
        ensures Bit(b, k) == Bit(0, k)
      {
        ZeroBit(k);
      }
      BitsDetermine(b, 0, width);
    }
  }

  // ---- The bitmap

  /** Outcome `i`, with every index past the end reading as a clear padding bit. */
  predicate Flag(a: seq<bool>, i: nat) {
    i < |a| && a[i]
  }

  /** The `k` outcomes from `at` on, packed least significant bit first. */
  function Pack(a: seq<bool>, at: nat, k: nat): (b: nat)
    ensures b < Pow2(k)
    decreases k
  {
    if k == 0 then 0 else (if Flag(a, at) then 1 else 0) + 2 * Pack(a, at + 1, k - 1)
  }

  lemma Pow2Eight()
    ensures Pow2(8) == 256
  {
  }

  function BitmapLen(n: nat): nat {
    (n + 7) / 8
  }

  function BitmapByte(a: seq<bool>, j: nat): Byte {
    Pow2Eight();
    Pack(a, 8 * j, 8)
  }

  function Bitmap(a: seq<bool>): (s: seq<Byte>)
    ensures |s| == BitmapLen(|a|)
  {
    seq(BitmapLen(|a|), j requires 0 <= j < BitmapLen(|a|) => BitmapByte(a, j))
  }

  /** The payload that reports exactly these outcomes. */
  function AckPayload(a: seq<bool>): seq<Byte> {
    [ACK_BATCH_VERSION] + Le(|a|, 2) + Bitmap(a)
  }

  lemma {:induction false} PackBits(a: seq<bool>, at: nat, k: nat, i: nat)
    requires i < k
    ensures Bit(Pack(a, at, k), i) == Flag(a, at + i)
    decreases k
  {
    var f, t: nat := if Flag(a, at) then 1 else 0, Pack(a, at + 1, k - 1);
    assert (f + 2 * t) % 2 == f && (f + 2 * t) / 2 == t;
    if i > 0 {
      PackBits(a, at + 1, k - 1, i - 1);
    }
  }

  lemma BitmapBits(a: seq<bool>, i: nat)
    requires i / 8 < BitmapLen(|a|)
    ensures Bit(Bitmap(a)[i / 8], i % 8) == Flag(a, i)
  {
    hide Pack, Bit, Flag;
    PackBits(a, 8 * (i / 8), 8, i % 8);
    assert 8 * (i / 8) + i % 8 == i;
  }

  /** A string of bytes with the right bits is the bitmap. */
  lemma BitmapUnique(a: seq<bool>, s: seq<Byte>)
    requires |s| == BitmapLen(|a|)
    requires forall i :: 0 <= i < 8 * |s| ==> Bit(s[i / 8], i % 8) == Flag(a, i)
    ensures s == Bitmap(a)
  {
    hide Bit, Flag, Bitmap;
    forall j | 0 <= j < |s|
      ensures s[j] == Bitmap(a)[j]
    {
      forall k | 0 <= k < 8
        ensures Bit(s[j], k) == Bit(Bitmap(a)[j], k)
      {
        var i := 8 * j + k;
        assert i / 8 == j && i % 8 == k;
        assert Bit(s[i / 8], i % 8) == Flag(a, i);
        BitmapBits(a, i);
      }
      Pow2Eight();
      BitsDetermine(s[j], Bitmap(a)[j], 8);
    }
  }

  /** `out[byte] |= mask` for bit `i` of the bitmap. */
  function SetIn(s: seq<Byte>, i: nat): (t: seq<Byte>)
    requires i / 8 < |s|
    ensures |t| == |s|
  {
    Pow2Eight();
    SetBitFits(s[i / 8], i % 8, 8);
    s[i / 8 := SetBit(s[i / 8], i % 8)]
  }

  lemma SetInBits(s: seq<Byte>, i: nat, j: nat)
    requires i / 8 < |s| && j / 8 < |s|
    ensures Bit(SetIn(s, i)[j / 8], j % 8) == (j == i || Bit(s[j / 8], j % 8))
  {
    hide Bit, SetBit;
    if j / 8 == i / 8 {
      SetBitBits(s[i / 8], i % 8, j % 8);
      assert j == 8 * (j / 8) + j % 8 && i == 8 * (i / 8) + i % 8;
    }
  }

  /** The encoder: a zeroed bitmap, then one bit set per accepted record. */
  method EncodeAckBatch(accepted: seq<bool>) returns (out: seq<Byte>)
    ensures out == AckPayload(accepted)
  {
    hide Le, Bit, SetIn, Bitmap;
    var n := |accepted|;
    var bits: seq<Byte> := seq(BitmapLen(n), _ => 0);
    forall j: nat | j < 8 * |bits|
      ensures !Bit(bits[j / 8], j % 8)
    {
      ZeroBit(j % 8);
    }
    for i := 0 to n
      invariant |bits| == BitmapLen(n)
      invariant forall j :: 0 <= j < 8 * |bits| ==> Bit(bits[j / 8], j % 8) == (j < i && accepted[j])
    {
      if accepted[i] {
        ghost var before := bits;
        bits := SetIn(bits, i);
        forall j: nat | j < 8 * |bits|
          ensures Bit(bits[j / 8], j % 8) == (j < i + 1 && accepted[j])
        {
          SetInBits(before, i, j);
        }
      }
    }
    BitmapUnique(accepted, bits);
    out := [ACK_BATCH_VERSION] + Le(n, 2) + bits;
  }

  // ---- Decoding

  function DecodeAckBatch(payload: seq<Byte>, expected: nat): Result<seq<bool>, BatchError> {
    if |payload| < ACK_HEADER_LEN then Err(Truncated(|payload|, ACK_HEADER_LEN))
    else if payload[0] != ACK_BATCH_VERSION then Err(UnsupportedVersion(payload[0]))
    else
      var declared := FromLe(payload[1..3]);
      var want := ACK_HEADER_LEN + BitmapLen(declared);
      if declared == 0 then Err(EmptyBatch)
      else if declared != expected then Err(LengthMismatch(declared, expected))
      else if |payload| != want then Err(LengthMismatch(want, |payload|))
      else if declared % 8 != 0 && Shr(payload[|payload| - 1], declared % 8) != 0 then
        Err(PaddingNotZero(payload[|payload| - 1]))
      else Ok(seq(declared, i requires 0 <= i < declared => Bit(payload[3 + i / 8], i % 8)))
  }

  /** The one case in which C stops where the others go on. */
  predicate OutTooSmall(payload: seq<Byte>, expected: nat, room: nat) {
    && |payload| == ACK_HEADER_LEN + BitmapLen(expected) && payload[0] == ACK_BATCH_VERSION
    && FromLe(payload[1..3]) == expected && room < expected
  }

  /** The C decoder fills the caller's array; unless that is too small it gives the same verdict and outcomes. */
  method DecodeAckBatchC(payload: seq<Byte>, expected: nat, out: array<bool>) returns (code: Option<Tag>)
    modifies out
    ensures code == Some(TagBufTooSmall) <==> OutTooSmall(payload, expected, out.Length)
    ensures !OutTooSmall(payload, expected, out.Length) ==>
              match DecodeAckBatch(payload, expected)
              case Err(e) => code == Some(TagOf(e))
              case Ok(a) => code == None && |a| <= out.Length && out[..|a|] == a
  {
    hide FromLe, Bit, Shr;
    if |payload| < ACK_HEADER_LEN { return Some(TagTruncated); }
    if payload[0] != ACK_BATCH_VERSION { return Some(TagBadVersion); }
    var declared := FromLe(payload[1..3]);
    if declared == 0 { return Some(TagEmpty); }
    if declared != expected { return Some(TagLengthMismatch); }
    if |payload| != ACK_HEADER_LEN + (declared + 7) / 8 { return Some(TagLengthMismatch); }
    if declared > out.Length { return Some(TagBufTooSmall); }
    var used := declared % 8;
    if used != 0 && Shr(payload[|payload| - 1], used) != 0 { return Some(TagPaddingNotZero); }
    for i := 0 to declared
      invariant forall k :: 0 <= k < i ==> out[k] == Bit(payload[3 + k / 8], k % 8)
    {
      out[i] := Bit(payload[ACK_HEADER_LEN + i / 8], i % 8);
    }
    return None;
  }

  lemma PayloadParts(a: seq<bool>)
    ensures |AckPayload(a)| == 3 + BitmapLen(|a|) && AckPayload(a)[0] == ACK_BATCH_VERSION
    ensures AckPayload(a)[1..3] == Le(|a|, 2) && AckPayload(a)[3..] == Bitmap(a)
  {
  }

  lemma PaddingClear(a: seq<bool>)
    requires |a| % 8 != 0
    ensures Shr(Bitmap(a)[BitmapLen(|a|) - 1], |a| % 8) == 0
  {
    hide Bit, Shr, Bitmap;
    var last := BitmapLen(|a|) - 1;
    forall k | |a| % 8 <= k < 8
      ensures !Bit(Bitmap(a)[last], k)
    {
      var i := 8 * last + k;
      assert i / 8 == last && i % 8 == k && i >= |a|;
      BitmapBits(a, i);
    }
    Pow2Eight();
    ShrClear(Bitmap(a)[last], |a| % 8, 8);
  }

  lemma DecodeInverts(a: seq<bool>)
    requires 1 <= |a| <= 65535
    ensures DecodeAckBatch(AckPayload(a), |a|) == Ok(a)
  {
    hide Bit, Shr, Bitmap, AckPayload, Le, FromLe;
    var p := AckPayload(a);
    PayloadParts(a);
    assert Span(2) == 65536;
    FromLeInverse(|a|, 2);
    if |a| % 8 != 0 {
      PaddingClear(a);
      assert p[|p| - 1] == p[3..][BitmapLen(|a|) - 1];
    }
    forall i | 0 <= i < |a|
      ensures Bit(p[3 + i / 8], i % 8) == a[i]
    {
      BitmapBits(a, i);
      assert p[3 + i / 8] == p[3..][i / 8];
    }
    assert DecodeAckBatch(p, |a|).value == a;
  }

  lemma AcceptedReencodes(payload: seq<Byte>, expected: nat, a: seq<bool>)
    requires DecodeAckBatch(payload, expected) == Ok(a)
    ensures |a| == expected && 1 <= expected <= 65535 && payload == AckPayload(a)
  {
    hide Bit, Shr, Bitmap, Le, FromLe;
    var n := |a|;
    var bits := payload[3..];
    LeInverse(payload[1..3]);
    assert Span(2) == 65536;
    forall i | 0 <= i < 8 * |bits|
      ensures Bit(bits[i / 8], i % 8) == Flag(a, i)
    {
      if i >= n {
        assert n % 8 != 0 && i / 8 == |bits| - 1;
        HighBitsClear(payload[|payload| - 1], n % 8, i % 8);
      }
    }
    BitmapUnique(a, bits);
    assert payload == [payload[0]] + payload[1..3] + bits;
  }

  /**
   * A payload decodes to outcomes `a` for a batch of `expected` exactly when it is their one
   * encoding and the count matches; both directions, for every count a u16 can echo.
   */
  lemma AckExact(payload: seq<Byte>, expected: nat, a: seq<bool>)
    ensures DecodeAckBatch(payload, expected) == Ok(a)
            <==> payload == AckPayload(a) && |a| == expected && 1 <= expected <= 65535
  {
    hide DecodeAckBatch, AckPayload;
    if payload == AckPayload(a) && |a| == expected && 1 <= expected <= 65535 {
      DecodeInverts(a);
    }
    if DecodeAckBatch(payload, expected) == Ok(a) {
      AcceptedReencodes(payload, expected, a);
    }
  }

  // ---- Population count

  function TotalBits(s: seq<Byte>): nat {
    if s == [] then 0 else PopCount(s[0]) + TotalBits(s[1..])
  }

  function Accepted(a: seq<bool>): nat {
    if a == [] then 0 else (if a[0] then 1 else 0) + Accepted(a[1..])
  }

  /** Set flags among the `k` from `at` on. */
  function Flags(a: seq<bool>, at: nat, k: nat): nat
    decreases k
  {
    if k == 0 then 0 else (if Flag(a, at) then 1 else 0) + Flags(a, at + 1, k - 1)
  }

  lemma {:induction false} PopOfPack(a: seq<bool>, at: nat, k: nat)
    ensures PopCount(Pack(a, at, k)) == Flags(a, at, k)
    decreases k
  {
    if k > 0 {
      var f, t: nat := if Flag(a, at) then 1 else 0, Pack(a, at + 1, k - 1);
      assert (f + 2 * t) % 2 == f && (f + 2 * t) / 2 == t;
      PopOfPack(a, at + 1, k - 1);
    }
  }

  lemma {:induction false} FlagsSplit(a: seq<bool>, at: nat, k: nat, m: nat)
    ensures Flags(a, at, k + m) == Flags(a, at, k) + Flags(a, at + k, m)
    decreases k
  {
    if k > 0 {
      FlagsSplit(a, at + 1, k - 1, m);
    }
  }

  lemma {:induction false} TotalOfBitmap(a: seq<bool>, j: nat)
    requires j <= BitmapLen(|a|)
    ensures TotalBits(Bitmap(a)[j..]) == Flags(a, 8 * j, 8 * (BitmapLen(|a|) - j))
    decreases BitmapLen(|a|) - j
  {
    hide Pack, PopCount, Flags;
    var s := Bitmap(a);
    if j == |s| {
      FlagsBeyond(a, 8 * j, 0);
    } else {
      TotalOfBitmap(a, j + 1);
      PopOfPack(a, 8 * j, 8);
      FlagsSplit(a, 8 * j, 8, 8 * (|s| - j - 1));
      assert s[j..][1..] == s[j + 1..];
    }
  }

  lemma {:induction false} FlagsOfTail(a: seq<bool>, at: nat, k: nat)
    requires at <= |a| <= at + k
    ensures Flags(a, at, k) == Accepted(a[at..])
    decreases k
  {
    if at < |a| {
      FlagsOfTail(a, at + 1, k - 1);
      assert a[at..][1..] == a[at + 1..];
    } else {
      FlagsBeyond(a, at, k);
    }
  }

  lemma {:induction false} FlagsBeyond(a: seq<bool>, at: nat, k: nat)
    requires at >= |a|
    ensures Flags(a, at, k) == 0
    decreases k
  {
    if k > 0 {
      FlagsBeyond(a, at + 1, k - 1);
    }
  }

  lemma {:induction false} AcceptedBounds(a: seq<bool>)
    ensures Accepted(a) <= |a|
    ensures Accepted(a) == |a| <==> forall i :: 0 <= i < |a| ==> a[i]
  {
    if a != [] {
      AcceptedBounds(a[1..]);
      if forall i :: 0 <= i < |a[1..]| ==> a[1..][i] {
        assert forall i :: 1 <= i < |a| ==> a[i] == a[1..][i - 1];
      }
    }
  }

  /**
   * For every accepted payload the set bits of the bitmap are the accepted records, so
   * "popcount == N" means the whole batch and nothing less.
   */
  lemma PopCountIsAccepted(payload: seq<Byte>, expected: nat, a: seq<bool>)
    requires DecodeAckBatch(payload, expected) == Ok(a)
    ensures TotalBits(payload[3..]) == Accepted(a)
    ensures TotalBits(payload[3..]) == expected <==> forall i :: 0 <= i < |a| ==> a[i]
  {
    hide Bitmap, DecodeAckBatch, AckPayload;
    AcceptedReencodes(payload, expected, a);
    PayloadParts(a);
    TotalOfBitmap(a, 0);
    assert Bitmap(a)[0..] == Bitmap(a) && a[0..] == a;
    FlagsOfTail(a, 0, 8 * BitmapLen(|a|));
    AcceptedBounds(a);
  }
}
