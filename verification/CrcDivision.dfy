/**
 * CRC-32 by its textbook definition, for comparison with the register algorithm: schoolbook long
 * division of the message, as a polynomial over two elements, by
 * x^32 + x^26 + x^23 + x^22 + x^16 + x^12 + x^11 + x^10 + x^8 + x^7 + x^5 + x^4 + x^2 + x + 1.
 * Nothing here mentions registers, shifts or the reflected constant.
 */
module CrcDivision {
  import opened Bytes
  import opened Crc32

  /** The divisor's 33 coefficients, highest power first: 1 and the bits of 0x04C11DB7. */
  const GENERATOR: seq<bool> :=
    [true, false, false, false, false, false, true, false, false, true, true, false, false, false, false,
     false, true, false, false, false, true, true, true, false, true, true, false, true, true, false,
     true, true, true]

  /** A byte as it goes over the line: least significant bit first. */
  function ByteBits(b: Byte): (s: seq<bool>)
    ensures |s| == 8
  {
    [b % 2 == 1, b / 2 % 2 == 1, b / 4 % 2 == 1, b / 8 % 2 == 1,
     b / 16 % 2 == 1, b / 32 % 2 == 1, b / 64 % 2 == 1, b / 128 % 2 == 1]
  }

  function MessageBits(data: seq<Byte>): seq<bool> {
    if data == [] then [] else ByteBits(data[0]) + MessageBits(data[1..])
  }

  function Same(b: bool, n: nat): (s: seq<bool>)
    ensures |s| == n && forall k :: 0 <= k < n ==> s[k] == b
  {
    seq(n, _ => b)
  }

  /** Adds `front` into the leading coefficients. */
  function Added(s: seq<bool>, front: seq<bool>): (r: seq<bool>)
    ensures |r| == |s|
    ensures forall k :: 0 <= k < |s| ==> r[k] == if k < |front| then s[k] != front[k] else s[k]
  {
    seq(|s|, k requires 0 <= k < |s| => if k < |front| then s[k] != front[k] else s[k])
  }

  /** Long division: while more than 32 coefficients are left, cancel the first one. */
  function Remainder(dividend: seq<bool>): seq<bool>
    decreases |dividend|
  {
    if |dividend| <= 32 then dividend
    else if dividend[0] then Remainder(Added(dividend, GENERATOR)[1..])
    else Remainder(dividend[1..])
  }

  /** The message times x^32 with its first 32 coefficients complemented, divided, and the remainder complemented. */
  function Checksum(data: seq<Byte>): seq<bool> {
    Added(Remainder(Added(MessageBits(data) + Same(false, 32), Same(true, 32))), Same(true, 32))
  }

  predicate Odd(c: bv32) {
    c & 1 == 1
  }

  function Half(c: bv32): bv32 {
    c >> 1
  }

  /** The lowest `n` bits of a word, least significant first. */
  function BitsOf(c: bv32, n: nat): (s: seq<bool>)
    ensures |s| == n
    decreases n
  {
    if n == 0 then [] else [Odd(c)] + BitsOf(Half(c), n - 1)
  }

  // ---- Bits of words

  lemma HalfXor(a: bv32, b: bv32)
    ensures Half(Xor(a, b)) == Xor(Half(a), Half(b))
  {
    RawHalve(a, b);
  }

  lemma OddXor(a: bv32, b: bv32)
    ensures Odd(Xor(a, b)) == (Odd(a) != Odd(b))
  {
  }

  lemma {:induction false} BitsOfXor(a: bv32, b: bv32, n: nat)
    ensures BitsOf(Xor(a, b), n) == Added(BitsOf(a, n), BitsOf(b, n))
    decreases n
  {
    hide Half, Odd, Xor;
    if n > 0 {
      HalfXor(a, b);
      OddXor(a, b);
      BitsOfXor(Half(a), Half(b), n - 1);
    }
  }

  function Halved(c: bv32, n: nat): bv32
    decreases n
  {
    if n == 0 then c else Halved(Half(c), n - 1)
  }

  lemma {:induction false} BitsOfSplit(c: bv32, m: nat, n: nat)
    ensures BitsOf(c, m + n) == BitsOf(c, m) + BitsOf(Halved(c, m), n)
    decreases m
  {
    hide Half, Odd;
    if m > 0 {
      BitsOfSplit(Half(c), m - 1, n);
    }
  }

  lemma {:induction false} HalvedAgain(c: bv32, m: nat, n: nat)
    ensures Halved(c, m + n) == Halved(Halved(c, m), n)
    decreases m
  {
    hide Half;
    if m > 0 {
      HalvedAgain(Half(c), m - 1, n);
    }
  }

  lemma HalfTwice(c: bv32)
    ensures Half(c >> 1) == c >> 2 && Half(c >> 2) == c >> 3 && Half(c >> 3) == c >> 4 && Half(c >> 4) == c >> 5
    ensures Half(c >> 5) == c >> 6 && Half(c >> 6) == c >> 7 && Half(c >> 7) == Down(c) && Half(c) == c >> 1
  {
  }

  lemma HalvedEight(c: bv32)
    ensures Halved(c, 8) == Down(c)
  {
    HalfTwice(c);
    hide Half, Down;
    assert Halved(c, 8) == Halved(c >> 1, 7) == Halved(c >> 2, 6) == Halved(c >> 3, 5) == Halved(c >> 4, 4);
    assert Halved(c >> 4, 4) == Halved(c >> 5, 3) == Halved(c >> 6, 2) == Halved(c >> 7, 1) == Halved(Down(c), 0);
  }

  lemma NoneLeft(c: bv32)
    ensures Down(Down(Down(Down(c)))) == 0
  {
  }

  lemma HalvedAway(c: bv32)
    ensures Halved(c, 32) == 0
  {
    NoneLeft(c);
    hide Halved, Down;
    HalvedEight(c);
    HalvedEight(Down(c));
    HalvedEight(Down(Down(c)));
    HalvedEight(Down(Down(Down(c))));
    HalvedAgain(c, 8, 24);
    HalvedAgain(Down(c), 8, 16);
    HalvedAgain(Down(Down(c)), 8, 8);
  }

  /** Shifting a word right drops its first bit and clears its last. */
  lemma BitsOfHalf(w: bv32)
    ensures BitsOf(w, 32)[0] == Odd(w)
    ensures BitsOf(Half(w), 32) == BitsOf(w, 32)[1..] + [false]
  {
    HalvedAway(w);
    assert Halved(w, 32) == Halved(Half(w), 31);
    BitsOfSplit(Half(w), 31, 1);
    hide Half, Halved;
    assert BitsOf(0, 1) == [false];
  }

  lemma BitsOfNext(c: bv32, n: nat)
    ensures BitsOf(c, n + 1) == [Odd(c)] + BitsOf(Half(c), n)
  {
  }

  lemma BitsOfNone(c: bv32)
    ensures BitsOf(c, 0) == []
  {
  }

  lemma BitsOfFour(a: bv32, b: bv32, c: bv32, d: bv32)
    requires b == Half(a) && c == Half(b) && d == Half(c)
    ensures BitsOf(a, 4) == [Odd(a), Odd(b), Odd(c), Odd(d)] && Halved(a, 4) == Half(d)
  {
    hide Half, Odd, BitsOf;
    BitsOfNone(Half(d));
    BitsOfNext(d, 0);
    BitsOfNext(c, 1);
    BitsOfNext(b, 2);
    BitsOfNext(a, 3);
    assert Halved(a, 4) == Halved(b, 3) == Halved(c, 2) == Halved(d, 1) == Halved(Half(d), 0);
  }

  /** The lowest eight bits, each by its own shift. */
  function EightOf(c: bv32): (s: seq<bool>)
    ensures |s| == 8
  {
    [Odd(c), Odd(c >> 1), Odd(c >> 2), Odd(c >> 3), Odd(c >> 4), Odd(c >> 5), Odd(c >> 6), Odd(c >> 7)]
  }

  lemma BitsOfByteSized(c: bv32)
    ensures BitsOf(c, 8) == EightOf(c)
  {
    HalfTwice(c);
    hide Half, Odd, Down, BitsOf, Halved;
    BitsOfFour(c, c >> 1, c >> 2, c >> 3);
    BitsOfFour(c >> 4, c >> 5, c >> 6, c >> 7);
    BitsOfSplit(c, 4, 4);
  }

  lemma BitsOfEight(c: bv32, n: nat)
    ensures BitsOf(c, n + 8) == EightOf(c) + BitsOf(Down(c), n)
  {
    hide BitsOf, Halved, Odd, Down;
    BitsOfByteSized(c);
    BitsOfSplit(c, 8, n);
    HalvedEight(c);
  }

  lemma {:induction false} BitsOfZero(n: nat)
    ensures BitsOf(0, n) == Same(false, n)
    decreases n
  {
    if n > 0 {
      assert Half(0) == 0;
      BitsOfZero(n - 1);
    }
  }

  /** The register algorithm's constant spells the divisor without its leading coefficient. */
  lemma ConstantIsGenerator()
    ensures BitsOf(POLY, 32) == GENERATOR[1..]
  {
    ConstantBytes();
    hide *;
    BitsOfEight(0xEDB88320, 24);
    BitsOfEight(0x00EDB883, 16);
    BitsOfEight(0x0000EDB8, 8);
    BitsOfEight(0x000000ED, 0);
    BitsOfNone(0);
    GeneratorBytes();
  }

  lemma ConstantBytes()
    ensures POLY == 0xEDB88320
    ensures EightOf(0xEDB88320) == [false, false, false, false, false, true, false, false] && Down(0xEDB88320) == 0x00EDB883
    ensures EightOf(0x00EDB883) == [true, true, false, false, false, false, false, true] && Down(0x00EDB883) == 0x0000EDB8
    ensures EightOf(0x0000EDB8) == [false, false, false, true, true, true, false, true] && Down(0x0000EDB8) == 0x000000ED
    ensures EightOf(0x000000ED) == [true, false, true, true, false, true, true, true] && Down(0x000000ED) == 0
  {
  }

  lemma GeneratorBytes()
    ensures GENERATOR[1..] ==
            [false, false, false, false, false, true, false, false] +
            ([true, true, false, false, false, false, false, true] +
             ([false, false, false, true, true, true, false, true] +
              ([true, false, true, true, false, true, true, true] + [])))
  {
  }

  // ---- Bits of bytes

  function Nibble4(x: bv4): (s: seq<bool>)
    ensures |s| == 4
  {
    [x & 1 == 1, (x >> 1) & 1 == 1, (x >> 2) & 1 == 1, (x >> 3) & 1 == 1]
  }

  function Digits4(x: int): (s: seq<bool>)
    ensures |s| == 4
  {
    [x % 2 == 1, x / 2 % 2 == 1, x / 4 % 2 == 1, x / 8 % 2 == 1]
  }

  lemma NibbleDigits(x: int)
    requires 0 <= x < 16
    ensures Nibble4(x as bv4) == Digits4(x)
  {
    assert x == 0 || x == 1 || x == 2 || x == 3 || x == 4 || x == 5 || x == 6 || x == 7
        || x == 8 || x == 9 || x == 10 || x == 11 || x == 12 || x == 13 || x == 14 || x == 15;
  }

  lemma RawPairLow(h: bv4, l: bv4)
    ensures Odd(Widen(Pair(h, l))) == (l & 1 == 1) && Odd(Widen(Pair(h, l)) >> 1) == ((l >> 1) & 1 == 1)
    ensures Odd(Widen(Pair(h, l)) >> 2) == ((l >> 2) & 1 == 1) && Odd(Widen(Pair(h, l)) >> 3) == ((l >> 3) & 1 == 1)
  {
  }

  lemma RawPairHigh(h: bv4, l: bv4)
    ensures Odd(Widen(Pair(h, l)) >> 4) == (h & 1 == 1) && Odd(Widen(Pair(h, l)) >> 5) == ((h >> 1) & 1 == 1)
    ensures Odd(Widen(Pair(h, l)) >> 6) == ((h >> 2) & 1 == 1) && Odd(Widen(Pair(h, l)) >> 7) == ((h >> 3) & 1 == 1)
    ensures Down(Widen(Pair(h, l))) == 0
  {
  }

  lemma PairDigits(h: bv4, l: bv4)
    ensures EightOf(Widen(Pair(h, l))) == Nibble4(l) + Nibble4(h) && Down(Widen(Pair(h, l))) == 0
  {
    hide Odd, Widen, Pair, Down;
    RawPairLow(h, l);
    RawPairHigh(h, l);
  }

  lemma Halve(q: int, r: int)
    ensures (2 * q + r) / 2 == q + r / 2 && (2 * q + r) % 2 == r % 2
  {
  }

  lemma Halvings(x: int)
    ensures x / 2 / 2 == x / 4 && x / 2 / 2 / 2 == x / 8
    ensures x / 16 / 2 == x / 32 && x / 16 / 4 == x / 64 && x / 16 / 8 == x / 128
  {
  }

  /** Multiples of sixteen do not show in the four lowest digits. */
  lemma LowDigits(q: int, r: int)
    ensures Digits4(2 * (2 * (2 * (2 * q))) + r) == Digits4(r)
  {
    var x := 2 * (2 * (2 * (2 * q))) + r;
    Halve(2 * (2 * (2 * q)), r);
    Halve(2 * (2 * q), r / 2);
    Halve(2 * q, r / 2 / 2);
    Halve(q, r / 2 / 2 / 2);
    Halvings(x);
    Halvings(r);
  }

  lemma ByteHalves(b: Byte)
    ensures ByteBits(b) == Digits4(b) + Digits4(b / 16)
  {
    Halvings(b);
  }

  lemma ByteDigits(b: Byte)
    ensures ByteBits(b) == Digits4(b % 16) + Digits4(b / 16)
  {
    hide Digits4, ByteBits;
    ByteHalves(b);
    LowDigits(b / 16, b % 16);
    assert b == 2 * (2 * (2 * (2 * (b / 16)))) + b % 16;
  }

  /** A byte in a word: its bits in line order, then zeros. */
  lemma BitsOfByte(b: Byte)
    ensures BitsOf(Widen(Bits(b)), 32) == ByteBits(b) + Same(false, 24)
  {
    NibbleDigits(b / 16);
    NibbleDigits(b % 16);
    assert Bits(b) == Pair((b / 16) as bv4, (b % 16) as bv4);
    hide *;
    PairDigits((b / 16) as bv4, (b % 16) as bv4);
    ByteDigits(b);
    BitsOfEight(Widen(Bits(b)), 24);
    BitsOfZero(24);
  }

  // ---- The register is the division under way

  lemma RemainderStep(d: seq<bool>)
    requires |d| > 32
    ensures Remainder(d) == Remainder(if d[0] then Added(d, GENERATOR)[1..] else d[1..])
  {
  }

  lemma Dropped(r: seq<bool>, w: seq<bool>)
    requires |r| >= 32 && |w| == 32
    ensures Added([false] + r, w)[0] == w[0] && Added([false] + r, w)[1..] == Added(r, w[1..] + [false])
  {
    var x, y := Added([false] + r, w)[1..], Added(r, w[1..] + [false]);
    forall k | 0 <= k < |r|
      ensures x[k] == y[k]
    {
      assert x[k] == Added([false] + r, w)[k + 1] && ([false] + r)[k + 1] == r[k];
      assert k < 31 ==> (w[1..] + [false])[k] == w[k + 1];
    }
  }

  lemma ShiftIs(w: bv32)
    ensures Shift(w) == if Odd(w) then Xor(POLY, Half(w)) else Half(w)
  {
  }

  /** Cancelling one coefficient is one step of the register. */
  lemma OneCoefficient(w: bv32, r: seq<bool>)
    requires |r| >= 32
    ensures Remainder(Added([false] + r, BitsOf(w, 32))) == Remainder(Added(r, BitsOf(Shift(w), 32)))
  {
    hide Remainder, BitsOf, Odd, Half, Shift, Xor;
    var d := Added([false] + r, BitsOf(w, 32));
    BitsOfHalf(w);
    Dropped(r, BitsOf(w, 32));
    RemainderStep(d);
    ShiftIs(w);
    if Odd(w) {
      ConstantIsGenerator();
      BitsOfXor(POLY, Half(w), 32);
      WithGenerator(d, r, w);
    }
  }

  lemma WithGenerator(d: seq<bool>, r: seq<bool>, w: bv32)
    requires |r| >= 32 && |d| == |r| + 1 && d[1..] == Added(r, BitsOf(Half(w), 32))
    requires BitsOf(Xor(POLY, Half(w)), 32) == Added(BitsOf(POLY, 32), BitsOf(Half(w), 32)) && BitsOf(POLY, 32) == GENERATOR[1..]
    ensures Added(d, GENERATOR)[1..] == Added(r, BitsOf(Xor(POLY, Half(w)), 32))
  {
    hide BitsOf;
    var x, y := Added(d, GENERATOR)[1..], Added(r, BitsOf(Xor(POLY, Half(w)), 32));
    forall k | 0 <= k < |r|
      ensures x[k] == y[k]
    {
      assert x[k] == Added(d, GENERATOR)[k + 1] && d[k + 1] == d[1..][k];
      assert k < 32 ==> GENERATOR[k + 1] == GENERATOR[1..][k];
    }
  }

  lemma {:induction false} Coefficients(w: bv32, n: nat, r: seq<bool>)
    requires |r| >= 32
    ensures Remainder(Added(Same(false, n) + r, BitsOf(w, 32))) == Remainder(Added(r, BitsOf(Shifts(w, n), 32)))
    decreases n
  {
    hide Remainder, BitsOf, Shift;
    if n == 0 {
      assert Same(false, 0) + r == r;
    } else {
      assert Same(false, n) + r == [false] + (Same(false, n - 1) + r);
      OneCoefficient(w, Same(false, n - 1) + r);
      Coefficients(Shift(w), n - 1, r);
    }
  }

  /** Adding a message byte to the register is meeting its coefficients in the dividend. */
  lemma ByteMeets(c: bv32, b: Byte, r: seq<bool>)
    requires |r| >= 32
    ensures Added(ByteBits(b) + r, BitsOf(c, 32)) == Added(Same(false, 8) + r, BitsOf(Xor(c, Widen(Bits(b))), 32))
  {
    BitsOfXor(c, Widen(Bits(b)), 32);
    BitsOfByte(b);
    Meeting(ByteBits(b), r, BitsOf(c, 32));
    hide BitsOf, ByteBits;
  }

  lemma Meeting(byte: seq<bool>, r: seq<bool>, c: seq<bool>)
    requires |byte| == 8 && |c| == 32 && |r| >= 32
    ensures Added(byte + r, c) == Added(Same(false, 8) + r, Added(c, byte + Same(false, 24)))
  {
    var x, y := Added(byte + r, c), Added(Same(false, 8) + r, Added(c, byte + Same(false, 24)));
    forall k | 0 <= k < |x|
      ensures x[k] == y[k]
    {
      if k < 8 {
        assert (byte + r)[k] == byte[k] && (byte + Same(false, 24))[k] == byte[k] && (Same(false, 8) + r)[k] == false;
      } else {
        assert (byte + r)[k] == r[k - 8] && (Same(false, 8) + r)[k] == r[k - 8];
        assert k < 32 ==> (byte + Same(false, 24))[k] == false;
      }
    }
  }

  lemma RegisterOne(c: bv32, b: Byte)
    ensures Register(c, [b]) == Absorb(c, Bits(b))
  {
    RegisterSnoc(c, [], b);
    assert [] + [b] == [b];
  }

  lemma {:induction false} DivisionUnderWay(c: bv32, data: seq<Byte>)
    ensures Remainder(Added(MessageBits(data) + Same(false, 32), BitsOf(c, 32))) == BitsOf(Register(c, data), 32)
    decreases |data|
  {
    hide Remainder, BitsOf, Register, ByteBits, Shifts, Bits;
    if data == [] {
      DivisionDone(c);
    } else {
      var b, rest := data[0], data[1..];
      var r := MessageBits(rest) + Same(false, 32);
      assert MessageBits(data) + Same(false, 32) == ByteBits(b) + r;
      ByteMeets(c, b, r);
      Coefficients(Xor(c, Widen(Bits(b))), 8, r);
      DivisionUnderWay(Absorb(c, Bits(b)), rest);
      RegisterOne(c, b);
      RegisterAppend(c, [b], rest);
      assert [b] + rest == data;
    }
  }

  lemma DivisionDone(c: bv32)
    ensures Remainder(Added(MessageBits([]) + Same(false, 32), BitsOf(c, 32))) == BitsOf(Register(c, []), 32)
  {
    hide BitsOf;
    assert [] + Same(false, 32) == Same(false, 32);
    assert Added(Same(false, 32), BitsOf(c, 32)) == BitsOf(c, 32);
  }

  lemma BitsOfOnes()
    ensures BitsOf(0xFFFFFFFF, 32) == Same(true, 32)
  {
    hide BitsOf;
    BitsOfEight(0xFFFFFFFF, 24);
    BitsOfEight(0x00FFFFFF, 16);
    BitsOfEight(0x0000FFFF, 8);
    BitsOfEight(0x000000FF, 0);
    BitsOfNone(0);
  }

  /** The checksum the program computes is the textbook one, bit for bit, on every input. */
  lemma CrcIsDivision(data: seq<Byte>)
    ensures BitsOf(Crc(data), 32) == Checksum(data)
  {
    BitsOfOnes();
    DivisionUnderWay(0xFFFFFFFF, data);
    BitsOfXor(Register(0xFFFFFFFF, data), 0xFFFFFFFF, 32);
    hide BitsOf, Remainder, Register, MessageBits;
  }
}
