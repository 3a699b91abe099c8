/** Bytes, the little-endian integers every weir format is built from, and checksum words. */
module Bytes {

  type Byte = x: int | 0 <= x < 256

  /** One past the largest u64. */
  const TWO_64: nat := 0x1_0000_0000_0000_0000

  function Min(a: nat, b: nat): nat {
    if a < b then a else b
  }

  function Max(a: nat, b: nat): nat {
    if a < b then b else a
  }

  /** 256 to the power `k`: the number of values `k` little-endian bytes can hold. */
  function Span(k: nat): (p: nat)
    ensures p > 0
  {
    if k == 0 then 1 else 256 * Span(k - 1)
  }

  /** The low `k` bytes of `n`, least significant first: `(n as uK).to_le_bytes()`, truncation included. */
  function Le(n: nat, k: nat): (s: seq<Byte>)
    ensures |s| == k
    decreases k
  {
    if k == 0 then [] else [n % 256] + Le(n / 256, k - 1)
  }

  function FromLe(s: seq<Byte>): nat
  {
    if s == [] then 0 else s[0] + 256 * FromLe(s[1..])
  }

  /** Decoding undoes encoding for every number that fits. */
  lemma {:induction false} FromLeInverse(n: nat, k: nat)
    requires n < Span(k)
    ensures FromLe(Le(n, k)) == n
    decreases k
  {
    if k > 0 {
      FromLeInverse(n / 256, k - 1);
      assert Le(n, k)[1..] == Le(n / 256, k - 1);
    }
  }

  /** Encoding undoes decoding for every byte string, so the encoding of a number is unique. */
  lemma {:induction false} LeInverse(s: seq<Byte>)
    ensures FromLe(s) < Span(|s|)
    ensures Le(FromLe(s), |s|) == s
  {
    if s != [] {
      LeInverse(s[1..]);
      var d, rest := s[0], FromLe(s[1..]);
      assert (d + 256 * rest) % 256 == d && (d + 256 * rest) / 256 == rest;
      assert s == [s[0]] + s[1..];
    }
  }

  /** Two numbers that fit in `k` bytes and encode alike are equal. */
  lemma LeInjective(m: nat, n: nat, k: nat)
    requires m < Span(k) && n < Span(k)
    requires Le(m, k) == Le(n, k)
    ensures m == n
  {
    FromLeInverse(m, k);
    FromLeInverse(n, k);
  }

  // ---- 32-bit words, for checksums: bytes become bits here and nowhere else.

  /** A byte's bits, a nibble at a time: the solver converts four bits at once, not eight. */
  function Bits(b: Byte): bv8 {
    Pair((b / 16) as bv4, (b % 16) as bv4)
  }

  function Num(x: bv8): Byte {
    16 * (Hi(x) as int) + (Lo(x) as int)
  }

  function Pair(h: bv4, l: bv4): bv8 {
    (h as bv8 << 4) | (l as bv8)
  }

  function Hi(x: bv8): bv4 {
    (x >> 4) as bv4
  }

  function Lo(x: bv8): bv4 {
    (x & 0xF) as bv4
  }

  lemma Nibble(x: int)
    requires 0 <= x < 16
    ensures (x as bv4) as int == x
  {
  }

  lemma NibbleBits(x: bv4)
    ensures (x as int) as bv4 == x
  {
  }

  lemma PairParts(h: bv4, l: bv4)
    ensures Hi(Pair(h, l)) == h && Lo(Pair(h, l)) == l
  {
  }

  lemma PartsPair(x: bv8)
    ensures Pair(Hi(x), Lo(x)) == x
  {
  }

  lemma NumOfBits(b: Byte)
    ensures Num(Bits(b)) == b
  {
    PairParts((b / 16) as bv4, (b % 16) as bv4);
    Nibble(b / 16);
    Nibble(b % 16);
  }

  lemma BitsOfNum(x: bv8)
    ensures Bits(Num(x)) == x
  {
    var h, l := Hi(x) as int, Lo(x) as int;
    assert (16 * h + l) / 16 == h && (16 * h + l) % 16 == l;
    NibbleBits(Hi(x));
    NibbleBits(Lo(x));
    PartsPair(x);
  }

  function Lane(v: bv32, k: nat): bv8
    requires k < 4
  {
    match k
    case 0 => (v & 0xFF) as bv8
    case 1 => ((v >> 8) & 0xFF) as bv8
    case 2 => ((v >> 16) & 0xFF) as bv8
    case 3 => ((v >> 24) & 0xFF) as bv8
  }

  function Join(a: bv8, b: bv8, c: bv8, d: bv8): bv32 {
    (a as bv32) | (b as bv32 << 8) | (c as bv32 << 16) | (d as bv32 << 24)
  }

  lemma JoinLanes(v: bv32)
    ensures Join((v & 0xFF) as bv8, ((v >> 8) & 0xFF) as bv8, ((v >> 16) & 0xFF) as bv8, ((v >> 24) & 0xFF) as bv8) == v
  {
  }

  lemma LanesOfJoin(a: bv8, b: bv8, c: bv8, d: bv8)
    ensures Lane(Join(a, b, c, d), 0) == a && Lane(Join(a, b, c, d), 1) == b
    ensures Lane(Join(a, b, c, d), 2) == c && Lane(Join(a, b, c, d), 3) == d
  {
  }

  /** `v.to_le_bytes()` of a checksum. */
  function WordBytes(v: bv32): (s: seq<Byte>)
    ensures |s| == 4
  {
    [Num(Lane(v, 0)), Num(Lane(v, 1)), Num(Lane(v, 2)), Num(Lane(v, 3))]
  }

  /** `u32::from_le_bytes`. */
  function Word(s: seq<Byte>): bv32
    requires |s| == 4
  {
    Join(Bits(s[0]), Bits(s[1]), Bits(s[2]), Bits(s[3]))
  }

  lemma WordOfBytes(v: bv32)
    ensures Word(WordBytes(v)) == v
  {
    BitsOfNum(Lane(v, 0));
    BitsOfNum(Lane(v, 1));
    BitsOfNum(Lane(v, 2));
    BitsOfNum(Lane(v, 3));
    JoinLanes(v);
  }

  lemma BytesOfWord(s: seq<Byte>)
    requires |s| == 4
    ensures WordBytes(Word(s)) == s
  {
    LanesOfJoin(Bits(s[0]), Bits(s[1]), Bits(s[2]), Bits(s[3]));
    NumOfBits(s[0]);
    NumOfBits(s[1]);
    NumOfBits(s[2]);
    NumOfBits(s[3]);
  }

  lemma WordInjective(s: seq<Byte>, t: seq<Byte>)
    requires |s| == |t| == 4 && Word(s) == Word(t)
    ensures s == t
  {
    BytesOfWord(s);
    BytesOfWord(t);
  }
}
