/**
 * UTF-8 well-formedness. C has no validator in its standard library, so the C client
 * writes one out; Rust and Go call theirs. The reference here is the grammar of
 * section 4 of RFC 3629, tied in turn to the code points it encodes.
 */
module Utf8 {
  import opened Bytes

  predicate Tail(b: Byte) {
    0x80 <= b <= 0xBF
  }

  predicate Char2(s: seq<Byte>) {
    |s| >= 2 && 0xC2 <= s[0] <= 0xDF && Tail(s[1])
  }

  predicate Char3(s: seq<Byte>) {
    && |s| >= 3 && Tail(s[2])
    && (|| (s[0] == 0xE0 && 0xA0 <= s[1] <= 0xBF)
        || (0xE1 <= s[0] <= 0xEC && Tail(s[1]))
        || (s[0] == 0xED && 0x80 <= s[1] <= 0x9F)
        || (0xEE <= s[0] <= 0xEF && Tail(s[1])))
  }

  predicate Char4(s: seq<Byte>) {
    && |s| >= 4 && Tail(s[2]) && Tail(s[3])
    && (|| (s[0] == 0xF0 && 0x90 <= s[1] <= 0xBF)
        || (0xF1 <= s[0] <= 0xF3 && Tail(s[1]))
        || (s[0] == 0xF4 && 0x80 <= s[1] <= 0x8F))
  }

  /** The length of the UTF8-char that `s` starts with, or 0 when it starts with none. */
  function CharLen(s: seq<Byte>): (n: nat)
    ensures n <= |s|
  {
    if s == [] then 0
    else if s[0] <= 0x7F then 1
    else if Char2(s) then 2
    else if Char3(s) then 3
    else if Char4(s) then 4
    else 0
  }

  /** UTF8-octets = *( UTF8-char ) */
  predicate WellFormed(s: seq<Byte>)
    decreases |s|
  {
    s == [] || (CharLen(s) > 0 && WellFormed(s[CharLen(s)..]))
  }

  // ---- The C validator.

  /** The code point accumulated from a lead byte's payload and its continuation bytes. */
  function Folded(cp: nat, t: seq<Byte>): nat
    decreases |t|
  {
    if t == [] then cp else Folded(cp, t[..|t| - 1]) * 64 + t[|t| - 1] % 64
  }

  /** How many continuation bytes a multi-byte lead announces; 0 for a byte that leads nothing. */
  function Need(c: Byte): nat {
    if c / 32 == 6 then 1 else if c / 16 == 14 then 2 else if c / 8 == 30 then 3 else 0
  }

  function LeadBits(c: Byte): nat {
    if c / 32 == 6 then c % 32 else if c / 16 == 14 then c % 16 else c % 8
  }

  /** The range checks after accumulation: no overlong form, no surrogate, nothing past U+10FFFF. */
  predicate InRange(need: nat, cp: nat) {
    && !(need == 1 && cp < 0x80)
    && !(need == 2 && cp < 0x800)
    && !(need == 3 && cp < 0x10000)
    && !(0xD800 <= cp <= 0xDFFF)
    && cp <= 0x10FFFF
  }

  lemma Folded1(cp: nat, t: seq<Byte>)
    requires |t| == 1
    ensures Folded(cp, t) == cp * 64 + t[0] % 64
  {
    assert t[..0] == [];
  }

  lemma Folded2(cp: nat, t: seq<Byte>)
    requires |t| == 2
    ensures Folded(cp, t) == (cp * 64 + t[0] % 64) * 64 + t[1] % 64
  {
    Folded1(cp, t[..1]);
  }

  lemma Folded3(cp: nat, t: seq<Byte>)
    requires |t| == 3
    ensures Folded(cp, t) == ((cp * 64 + t[0] % 64) * 64 + t[1] % 64) * 64 + t[2] % 64
  {
    Folded2(cp, t[..2]);
  }

  lemma TailBits(b: Byte)
    ensures Tail(b) <==> b / 64 == 2
    ensures Tail(b) ==> b % 64 == b - 0x80
  {
  }

  lemma TwoByteExact(s: seq<Byte>)
    requires |s| >= 2 && Need(s[0]) == 1 && Tail(s[1])
    ensures InRange(1, Folded(LeadBits(s[0]), s[1..2])) <==> CharLen(s) == 2
    ensures CharLen(s) == 2 || CharLen(s) == 0
  {
    TailBits(s[1]);
    Folded1(LeadBits(s[0]), s[1..2]);
  }

  lemma ThreeByteExact(s: seq<Byte>)
    requires |s| >= 3 && Need(s[0]) == 2 && Tail(s[1]) && Tail(s[2])
    ensures InRange(2, Folded(LeadBits(s[0]), s[1..3])) <==> CharLen(s) == 3
    ensures CharLen(s) == 3 || CharLen(s) == 0
  {
    TailBits(s[1]);
    TailBits(s[2]);
    Folded2(LeadBits(s[0]), s[1..3]);
  }

  lemma FourByteExact(s: seq<Byte>)
    requires |s| >= 4 && Need(s[0]) == 3 && Tail(s[1]) && Tail(s[2]) && Tail(s[3])
    ensures InRange(3, Folded(LeadBits(s[0]), s[1..4])) <==> CharLen(s) == 4
    ensures CharLen(s) == 4 || CharLen(s) == 0
  {
    TailBits(s[1]);
    TailBits(s[2]);
    TailBits(s[3]);
    Folded3(LeadBits(s[0]), s[1..4]);
  }

  /** The mask-and-range form of one multi-byte character is the grammar's. */
  lemma MultiByteExact(s: seq<Byte>, need: nat)
    requires |s| > 0 && need == Need(s[0]) && 0 < need < |s| && forall k :: 1 <= k <= need ==> Tail(s[k])
    ensures InRange(need, Folded(LeadBits(s[0]), s[1..need + 1])) <==> CharLen(s) == need + 1
    ensures CharLen(s) == need + 1 || CharLen(s) == 0
  {
    hide Folded, InRange, CharLen, LeadBits;
    if need == 1 {
      TwoByteExact(s);
    } else if need == 2 {
      ThreeByteExact(s);
    } else {
      FourByteExact(s);
    }
  }

  lemma NoCharWithoutTails(s: seq<Byte>)
    requires |s| > 0 && s[0] >= 0x80
    requires Need(s[0]) == 0 || Need(s[0]) >= |s| || exists k :: 1 <= k <= Need(s[0]) && !Tail(s[k])
    ensures CharLen(s) == 0
  {
  }

  /** The hand-written loop accepts exactly the well-formed byte strings. */
  method Utf8Valid(s: seq<Byte>) returns (ok: bool)
    ensures ok <==> WellFormed(s)
  {
    hide Folded, InRange, CharLen, Need, LeadBits, Tail;
    var i, n := 0, |s|;
    while i < n
      invariant 0 <= i <= n
      invariant WellFormed(s) <==> WellFormed(s[i..])
    {
      var c := s[i];
      ghost var rest := s[i..];
      if c < 0x80 {
        AsciiChar(s, i);
        i := i + 1;
        continue;
      }
      var need: nat, cp: nat := Need(c), LeadBits(c);
      if need == 0 || i + need >= n {
        NoCharWithoutTails(rest);
        return false;
      }
      var k := 1;
      assert rest[1..1] == [];
      FoldedEmpty(LeadBits(c));
      while k <= need
        invariant 1 <= k <= need + 1
        invariant cp == Folded(LeadBits(c), rest[1..k])
        invariant forall j :: 1 <= j < k ==> Tail(rest[j])
      {
        var cc := s[i + k];
        TailBits(cc);
        if cc / 64 != 2 {
          assert !Tail(rest[k]);
          NoCharWithoutTails(rest);
          return false;
        }
        FoldedSnoc(LeadBits(c), rest, k);
        cp := cp * 64 + cc % 64;
        k := k + 1;
      }
      MultiByteExact(rest, need);
      if !InRange(need, cp) {
        return false;
      }
      assert rest[need + 1..] == s[i + need + 1..];
      i := i + need + 1;
    }
    return true;
  }

  lemma AsciiChar(s: seq<Byte>, i: nat)
    requires i < |s| && s[i] < 0x80
    ensures WellFormed(s[i..]) <==> WellFormed(s[i + 1..])
  {
    assert s[i..][1..] == s[i + 1..];
  }

  lemma FoldedEmpty(cp: nat)
    ensures Folded(cp, []) == cp
  {
  }

  lemma FoldedSnoc(cp: nat, s: seq<Byte>, k: nat)
    requires 1 <= k < |s|
    ensures Folded(cp, s[1..k + 1]) == Folded(cp, s[1..k]) * 64 + s[k] % 64
  {
    assert s[1..k + 1][..k - 1] == s[1..k];
  }

  // ---- What well-formedness means: the encodings of Unicode scalar values, and nothing else.

  predicate Scalar(v: int) {
    0 <= v <= 0x10FFFF && !(0xD800 <= v <= 0xDFFF)
  }

  /** The byte sequence section 3 of RFC 3629 assigns to a scalar value. */
  function EncodeScalar(v: int): (s: seq<Byte>)
    requires Scalar(v)
    ensures |s| > 0
  {
    if v < 0x80 then [v]
    else if v < 0x800 then [0xC0 + v / 64, 0x80 + v % 64]
    else if v < 0x10000 then [0xE0 + v / 4096, 0x80 + v / 64 % 64, 0x80 + v % 64]
    else [0xF0 + v / 262144, 0x80 + v / 4096 % 64, 0x80 + v / 64 % 64, 0x80 + v % 64]
  }

  function EncodeAll(vs: seq<int>): seq<Byte>
    requires forall v :: v in vs ==> Scalar(v)
  {
    if vs == [] then [] else EncodeScalar(vs[0]) + EncodeAll(vs[1..])
  }

  /** The scalar value of the character `s` starts with. */
  function Leading(s: seq<Byte>): int
    requires CharLen(s) > 0
  {
    var n := CharLen(s);
    if n == 1 then s[0]
    else if n == 2 then From2(s[0], s[1])
    else if n == 3 then From3(s[0], s[1], s[2])
    else From4(s[0], s[1], s[2], s[3])
  }

  function From2(a: int, b: int): int {
    (a - 0xC0) * 64 + (b - 0x80)
  }

  function From3(a: int, b: int, c: int): int {
    (a - 0xE0) * 4096 + (b - 0x80) * 64 + (c - 0x80)
  }

  function From4(a: int, b: int, c: int, d: int): int {
    (a - 0xF0) * 262144 + (b - 0x80) * 4096 + (c - 0x80) * 64 + (d - 0x80)
  }

  lemma Leading2(s: seq<Byte>)
    requires Char2(s)
    ensures Scalar(From2(s[0], s[1])) && EncodeScalar(From2(s[0], s[1])) == s[..2]
  {
  }

  lemma Sextet(q: int, r: int)
    requires 0 <= r < 64
    ensures (q * 64 + r) / 64 == q && (q * 64 + r) % 64 == r
  {
  }

  lemma Nested(v: int)
    ensures v / 4096 == v / 64 / 64 && v / 262144 == v / 64 / 64 / 64
  {
  }

  lemma Sextets3(x: int, y: int, z: int)
    requires 0 <= y < 64 && 0 <= z < 64
    ensures var v := x * 4096 + y * 64 + z; v / 4096 == x && v / 64 % 64 == y && v % 64 == z
  {
    Sextet(x * 64 + y, z);
    Sextet(x, y);
    Nested(x * 4096 + y * 64 + z);
  }

  lemma Sextets4(x: int, y: int, z: int, w: int)
    requires 0 <= y < 64 && 0 <= z < 64 && 0 <= w < 64
    ensures var v := x * 262144 + y * 4096 + z * 64 + w;
      v / 262144 == x && v / 4096 % 64 == y && v / 64 % 64 == z && v % 64 == w
  {
    var v := x * 262144 + y * 4096 + z * 64 + w;
    Sextet(x * 4096 + y * 64 + z, w);
    Sextet(x * 64 + y, z);
    Sextet(x, y);
    Nested(v);
  }

  lemma EncodeOf3(x: int, y: int, z: int)
    requires 0 <= x < 16 && 0 <= y < 64 && 0 <= z < 64 && x * 4096 + y * 64 + z >= 0x800
    requires Scalar(x * 4096 + y * 64 + z)
    ensures EncodeScalar(x * 4096 + y * 64 + z) == [0xE0 + x, 0x80 + y, 0x80 + z]
  {
    Sextets3(x, y, z);
  }

  lemma EncodeOf4(x: int, y: int, z: int, w: int)
    requires 0 <= x < 8 && 0 <= y < 64 && 0 <= z < 64 && 0 <= w < 64
    requires 0x10000 <= x * 262144 + y * 4096 + z * 64 + w <= 0x10FFFF
    ensures EncodeScalar(x * 262144 + y * 4096 + z * 64 + w) == [0xF0 + x, 0x80 + y, 0x80 + z, 0x80 + w]
  {
    Sextets4(x, y, z, w);
  }

  lemma Leading3(s: seq<Byte>)
    requires Char3(s)
    ensures Scalar(From3(s[0], s[1], s[2])) && EncodeScalar(From3(s[0], s[1], s[2])) == s[..3]
  {
    hide EncodeScalar;
    EncodeOf3(s[0] as int - 0xE0, s[1] as int - 0x80, s[2] as int - 0x80);
  }

  lemma Leading4(s: seq<Byte>)
    requires Char4(s)
    ensures Scalar(From4(s[0], s[1], s[2], s[3])) && EncodeScalar(From4(s[0], s[1], s[2], s[3])) == s[..4]
  {
    hide EncodeScalar;
    EncodeOf4(s[0] as int - 0xF0, s[1] as int - 0x80, s[2] as int - 0x80, s[3] as int - 0x80);
  }

  lemma LeadingEncodes(s: seq<Byte>)
    requires CharLen(s) > 0
    ensures Scalar(Leading(s)) && EncodeScalar(Leading(s)) == s[..CharLen(s)]
  {
    hide EncodeScalar, Scalar, From2, From3, From4;
    if CharLen(s) == 1 {
      LeadingAscii(s);
    } else if CharLen(s) == 2 {
      Leading2(s);
    } else if CharLen(s) == 3 {
      Leading3(s);
    } else {
      Leading4(s);
    }
  }

  lemma LeadingAscii(s: seq<Byte>)
    requires |s| > 0 && s[0] < 0x80
    ensures Scalar(s[0]) && EncodeScalar(s[0]) == s[..1]
  {
  }

  lemma EncodedShortIsChar(v: int, rest: seq<Byte>)
    requires Scalar(v) && v < 0x800
    ensures CharLen(EncodeScalar(v) + rest) == |EncodeScalar(v)|
  {
  }

  lemma Encoded3IsChar(v: int, rest: seq<Byte>)
    requires Scalar(v) && 0x800 <= v < 0x10000
    ensures Char3(EncodeScalar(v) + rest)
  {
  }

  lemma Encoded4IsChar(v: int, rest: seq<Byte>)
    requires Scalar(v) && 0x10000 <= v
    ensures Char4(EncodeScalar(v) + rest)
  {
  }

  lemma EncodeScalarIsChar(v: int, rest: seq<Byte>)
    requires Scalar(v)
    ensures CharLen(EncodeScalar(v) + rest) == |EncodeScalar(v)|
  {
    if v < 0x800 {
      EncodedShortIsChar(v, rest);
    } else if v < 0x10000 {
      Encoded3IsChar(v, rest);
    } else {
      Encoded4IsChar(v, rest);
    }
  }

  lemma {:induction false} EncodingsAreWellFormed(vs: seq<int>)
    requires forall v :: v in vs ==> Scalar(v)
    ensures WellFormed(EncodeAll(vs))
  {
    hide EncodeScalar, CharLen, Scalar;
    if vs != [] {
      var e, rest := EncodeScalar(vs[0]), EncodeAll(vs[1..]);
      EncodingsAreWellFormed(vs[1..]);
      EncodeScalarIsChar(vs[0], rest);
      assert (e + rest)[|e|..] == rest;
    }
  }

  lemma {:induction false} WellFormedDecodes(s: seq<Byte>) returns (vs: seq<int>)
    requires WellFormed(s)
    ensures forall v :: v in vs ==> Scalar(v)
    ensures EncodeAll(vs) == s
    decreases |s|
  {
    hide EncodeScalar, Leading, CharLen, Scalar;
    if s == [] {
      vs := [];
    } else {
      var n := CharLen(s);
      var rest := WellFormedDecodes(s[n..]);
      LeadingEncodes(s);
      vs := [Leading(s)] + rest;
      assert vs[1..] == rest;
      assert s == s[..n] + s[n..];
    }
  }

  /** A byte string is well formed exactly when it encodes some sequence of scalar values. */
  lemma WellFormedExact(s: seq<Byte>)
    ensures WellFormed(s) <==> exists vs: seq<int> :: (forall v :: v in vs ==> Scalar(v)) && EncodeAll(vs) == s
  {
    if WellFormed(s) {
      var vs := WellFormedDecodes(s);
    }
    forall vs: seq<int> | (forall v :: v in vs ==> Scalar(v)) && EncodeAll(vs) == s
      ensures WellFormed(s)
    {
      EncodingsAreWellFormed(vs);
    }
  }

  /** ASCII text is well formed as it stands. */
  lemma {:induction false} AsciiWellFormed(s: seq<Byte>)
    requires forall i :: 0 <= i < |s| ==> s[i] < 0x80
    ensures WellFormed(s)
    decreases |s|
  {
    if s != [] {
      AsciiWellFormed(s[1..]);
    }
  }
}
