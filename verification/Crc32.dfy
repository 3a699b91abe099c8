/**
 * CRC-32 as section 8 of RFC 1952 defines it: reflected polynomial 0xEDB88320,
 * register preset to all ones, result complemented. The table-driven loop is the
 * one the C client runs; the other implementations call a library for it.
 */
module Crc32 {
  import opened Bytes

  const POLY: bv32 := 0xEDB88320

  function Xor(a: bv32, b: bv32): bv32 {
    a ^ b
  }

  function Widen(x: bv8): bv32 {
    x as bv32
  }

  /** One step of reflected division: shift the register right, folding the lost bit back in. */
  function Shift(c: bv32): bv32 {
    if c & 1 == 1 then POLY ^ (c >> 1) else c >> 1
  }

  function Shifts(c: bv32, n: nat): bv32
    decreases n
  {
    if n == 0 then c else Shifts(Shift(c), n - 1)
  }

  /** Divides one more byte into the register, a bit at a time. */
  function Absorb(c: bv32, x: bv8): bv32 {
    Shifts(Xor(c, Widen(x)), 8)
  }

  /** The register after all of `data`, starting from `c`: bit-by-bit long division. */
  function Register(c: bv32, data: seq<Byte>): bv32
    decreases |data|
  {
    if data == [] then c else Absorb(Register(c, data[..|data| - 1]), Bits(data[|data| - 1]))
  }

  lemma RegisterSnoc(c: bv32, u: seq<Byte>, b: Byte)
    ensures Register(c, u + [b]) == Absorb(Register(c, u), Bits(b))
  {
    assert (u + [b])[..|u|] == u;
  }

  function Crc(data: seq<Byte>): bv32 {
    Xor(Register(0xFFFFFFFF, data), 0xFFFFFFFF)
  }

  // ---- Exclusive-or algebra, one fact at a time: the solver rewrites these but cannot blast their sum.

  lemma RawLowBit(x: bv32)
    ensures x & 1 == 0 || x & 1 == 1
  {
  }

  lemma RawCommute(a: bv32, b: bv32)
    ensures a ^ b == b ^ a
  {
  }

  lemma RawAssociate(p: bv32, a: bv32, b: bv32)
    ensures (p ^ a) ^ b == p ^ (a ^ b)
  {
  }

  lemma RawCancel(p: bv32, a: bv32, b: bv32)
    ensures (p ^ a) ^ (p ^ b) == a ^ b
  {
  }

  lemma RawHalve(x: bv32, y: bv32)
    ensures (x ^ y) >> 1 == (x >> 1) ^ (y >> 1)
  {
  }

  lemma RawLowBitXor(x: bv32, y: bv32)
    ensures (x ^ y) & 1 == (x & 1) ^ (y & 1)
  {
  }

  lemma RawLinearEven(x: bv32, y: bv32)
    requires x & 1 == 0 && y & 1 == 0
    ensures Shift(x ^ y) == Shift(x) ^ Shift(y)
  {
    RawLowBitXor(x, y);
    assert (x ^ y) & 1 == 0;
  }

  lemma RawLinearMixed(x: bv32, y: bv32)
    requires x & 1 == 1 && y & 1 == 0
    ensures Shift(x ^ y) == Shift(x) ^ Shift(y)
  {
    RawLowBitXor(x, y);
    assert (x ^ y) & 1 == 1;
    RawHalve(x, y);
    RawAssociate(POLY, x >> 1, y >> 1);
  }

  lemma RawLinearOdd(x: bv32, y: bv32)
    requires x & 1 == 1 && y & 1 == 1
    ensures Shift(x ^ y) == Shift(x) ^ Shift(y)
  {
    RawLowBitXor(x, y);
    assert (x ^ y) & 1 == 0;
    RawHalve(x, y);
    RawCancel(POLY, x >> 1, y >> 1);
  }

  lemma RawLinear(x: bv32, y: bv32)
    ensures Shift(x ^ y) == Shift(x) ^ Shift(y)
  {
    RawLowBit(x);
    RawLowBit(y);
    if x & 1 == 1 {
      if y & 1 == 1 { RawLinearOdd(x, y); } else { RawLinearMixed(x, y); }
    } else if y & 1 == 1 {
      RawLinearMixed(y, x);
      RawCommute(x, y);
      RawCommute(Shift(x), Shift(y));
    } else {
      RawLinearEven(x, y);
    }
  }

  /** Division is linear: the step of a difference is the difference of the steps. */
  lemma ShiftLinear(x: bv32, y: bv32)
    ensures Shift(Xor(x, y)) == Xor(Shift(x), Shift(y))
  {
    RawLinear(x, y);
  }

  lemma {:induction false} ShiftsLinear(x: bv32, y: bv32, n: nat)
    ensures Shifts(Xor(x, y), n) == Xor(Shifts(x, n), Shifts(y, n))
    decreases n
  {
    if n > 0 {
      ShiftLinear(x, y);
      ShiftsLinear(Shift(x), Shift(y), n - 1);
    }
  }

  /** The polynomial's top bit is set, so no two registers shift to the same one. */
  lemma ShiftInjective(x: bv32, y: bv32)
    requires Shift(x) == Shift(y)
    ensures x == y
  {
  }

  lemma {:induction false} ShiftsInjective(x: bv32, y: bv32, n: nat)
    requires Shifts(x, n) == Shifts(y, n)
    ensures x == y
    decreases n
  {
    if n > 0 {
      ShiftsInjective(Shift(x), Shift(y), n - 1);
      ShiftInjective(x, y);
    }
  }

  lemma Halve8(z: bv32) requires z < 0x1000000 ensures Shift(z << 8) == z << 7 { }
  lemma Halve7(z: bv32) requires z < 0x1000000 ensures Shift(z << 7) == z << 6 { }
  lemma Halve6(z: bv32) requires z < 0x1000000 ensures Shift(z << 6) == z << 5 { }
  lemma Halve5(z: bv32) requires z < 0x1000000 ensures Shift(z << 5) == z << 4 { }
  lemma Halve4(z: bv32) requires z < 0x1000000 ensures Shift(z << 4) == z << 3 { }
  lemma Halve3(z: bv32) requires z < 0x1000000 ensures Shift(z << 3) == z << 2 { }
  lemma Halve2(z: bv32) requires z < 0x1000000 ensures Shift(z << 2) == z << 1 { }
  lemma Halve1(z: bv32) requires z < 0x1000000 ensures Shift(z << 1) == z { }

  function Up(z: bv32): bv32 {
    z << 8
  }

  function Down(x: bv32): bv32 {
    x >> 8
  }

  function LowByte(x: bv32): bv8 {
    (x & 0xFF) as bv8
  }

  /** Eight steps bring a 24-bit value that sits eight bits up straight down, unmixed. */
  lemma ShiftsBringDown(z: bv32)
    requires z < 0x1000000
    ensures Shifts(Up(z), 8) == z
  {
    calc {
      Shifts(z << 8, 8);
      { Halve8(z); }
      Shifts(z << 7, 7);
      { Halve7(z); }
      Shifts(z << 6, 6);
      { Halve6(z); }
      Shifts(z << 5, 5);
      { Halve5(z); }
      Shifts(z << 4, 4);
      { Halve4(z); }
      Shifts(z << 3, 3);
      { Halve3(z); }
      Shifts(z << 2, 2);
      { Halve2(z); }
      Shifts(z << 1, 1);
      { Halve1(z); }
      Shifts(z, 0);
    }
  }

  lemma RawSplit(x: bv32)
    ensures x == ((x & 0xFF) as bv8) as bv32 ^ ((x >> 8) << 8)
    ensures (x >> 8) < 0x1000000
  {
  }

  lemma SplitLow(x: bv32)
    ensures x == Xor(Widen(LowByte(x)), Up(Down(x)))
    ensures Down(x) < 0x1000000
  {
    RawSplit(x);
  }

  /** Why a 256-entry table is enough: only the low byte of the register feeds back. */
  lemma TableStep(x: bv32)
    ensures Shifts(x, 8) == Xor(Shifts(Widen(LowByte(x)), 8), Down(x))
  {
    SplitLow(x);
    ShiftsLinear(Widen(LowByte(x)), Up(Down(x)), 8);
    ShiftsBringDown(Down(x));
  }

  // ---- The C client's table and loop.

  ghost predicate IsTable(t: seq<bv32>) {
    |t| == 256 && forall x: bv8 :: t[Num(x)] == Shifts(Widen(x), 8)
  }

  /** The inner loop of the table: eight shifts of one byte value. */
  method TableEntry(i: nat) returns (c: bv32)
    requires i < 256
    ensures c == Shifts(Widen(Bits(i)), 8)
  {
    c := Widen(Bits(i));
    for k := 0 to 8
      invariant Shifts(c, 8 - k) == Shifts(Widen(Bits(i)), 8)
    {
      c := Shift(c);
    }
  }

  lemma TableFromEntries(t: seq<bv32>)
    requires |t| == 256 && forall j: nat :: j < 256 ==> t[j] == Shifts(Widen(Bits(j)), 8)
    ensures IsTable(t)
  {
    forall x: bv8
      ensures t[Num(x)] == Shifts(Widen(x), 8)
    {
      BitsOfNum(x);
    }
  }

  method TableInit(table: array<bv32>)
    requires table.Length == 256
    modifies table
    ensures IsTable(table[..])
  {
    hide Shifts, Bits, Widen, IsTable;
    for i := 0 to 256
      invariant forall j: nat :: j < i ==> table[j] == Shifts(Widen(Bits(j)), 8)
    {
      table[i] := TableEntry(i);
    }
    TableFromEntries(table[..]);
  }

  lemma RawDown(crc: bv32, x: bv8)
    ensures (crc ^ (x as bv32)) >> 8 == crc >> 8
  {
  }

  lemma DownIgnoresLowByte(crc: bv32, x: bv8)
    ensures Down(Xor(crc, Widen(x))) == Down(crc)
  {
    RawDown(crc, x);
  }

  /** The table-driven loop computes the bit-by-bit remainder, for every input. */
  method WeirCrc32(table: array<bv32>, data: seq<Byte>) returns (crc: bv32)
    requires IsTable(table[..])
    ensures crc == Crc(data)
  {
    hide Shifts, Xor, Widen, Down, LowByte, Bits, Num;
    crc := 0xFFFFFFFF;
    for i := 0 to |data|
      invariant crc == Register(0xFFFFFFFF, data[..i])
    {
      var mixed := Xor(crc, Widen(Bits(data[i])));
      TableStep(mixed);
      DownIgnoresLowByte(crc, Bits(data[i]));
      RegisterSnoc(0xFFFFFFFF, data[..i], data[i]);
      assert data[..i + 1] == data[..i] + [data[i]];
      assert table[..][Num(LowByte(mixed))] == Shifts(Widen(LowByte(mixed)), 8);
      crc := Xor(table[Num(LowByte(mixed))], Down(crc));
    }
    assert data[..|data|] == data;
    crc := Xor(crc, 0xFFFFFFFF);
  }

  // ---- Error detection: no change confined to four consecutive bytes goes unnoticed.

  lemma {:induction false} RegisterAppend(c: bv32, a: seq<Byte>, b: seq<Byte>)
    ensures Register(c, a + b) == Register(Register(c, a), b)
    decreases |b|
  {
    hide Absorb, Bits;
    if b == [] {
      assert a + b == a;
    } else {
      var n := |b| - 1;
      RegisterAppend(c, a, b[..n]);
      assert (a + b)[..|a| + n] == a + b[..n];
    }
  }

  lemma RawExchange(p: bv32, a: bv32, q: bv32, b: bv32)
    ensures (p ^ a) ^ (q ^ b) == (p ^ q) ^ (a ^ b)
  {
  }

  lemma RawMove(d: bv32, e: bv32, z: bv32)
    requires d ^ e == z
    ensures d == z ^ e
  {
  }

  lemma XorExchange(p: bv32, a: bv32, q: bv32, b: bv32)
    ensures Xor(Xor(p, a), Xor(q, b)) == Xor(Xor(p, q), Xor(a, b))
  {
    calc {
      Xor(Xor(p, a), Xor(q, b));
      Xor(p ^ a, q ^ b);
      (p ^ a) ^ (q ^ b);
      { RawExchange(p, a, q, b); }
      (p ^ q) ^ (a ^ b);
      Xor(p ^ q, a ^ b);
      Xor(Xor(p, q), Xor(a, b));
    }
  }

  lemma XorMove(d: bv32, e: bv32, z: bv32)
    requires Xor(d, e) == z
    ensures d == Xor(z, e)
  {
    RawMove(d, e, z);
  }

  /** If two registers end `z` apart after one byte each, this is how far apart they were before it. */
  lemma AbsorbBackwards(c: bv32, x: bv8, c': bv32, x': bv8, z: bv32)
    requires Xor(Absorb(c, x), Absorb(c', x')) == z && z < 0x1000000
    ensures Xor(c, c') == Xor(Up(z), Xor(Widen(x), Widen(x')))
  {
    var m, m' := Xor(c, Widen(x)), Xor(c', Widen(x'));
    ShiftsLinear(m, m', 8);
    ShiftsBringDown(z);
    ShiftsInjective(Xor(m, m'), Up(z), 8);
    XorExchange(c, Widen(x), c', Widen(x'));
    XorMove(Xor(c, c'), Xor(Widen(x), Widen(x')), Up(z));
  }

  /** The registers agree except in the low `32 - 8n` bits: the difference still has room for `n` bytes. */
  predicate Near(x: bv32, y: bv32, n: nat) {
    match n
    case 0 => true
    case 1 => Xor(x, y) <= 0xFFFFFF
    case 2 => Xor(x, y) <= 0xFFFF
    case 3 => Xor(x, y) <= 0xFF
    case 4 => Xor(x, y) == 0
    case _ => false
  }

  lemma RawRoom3(z: bv32, x: bv8, x': bv8)
    requires z <= 0xFFFF
    ensures (z << 8) ^ ((x as bv32) ^ (x' as bv32)) <= 0xFFFFFF
  {
  }

  lemma RawRoom2(z: bv32, x: bv8, x': bv8)
    requires z <= 0xFF
    ensures (z << 8) ^ ((x as bv32) ^ (x' as bv32)) <= 0xFFFF
  {
  }

  lemma RawRoom1(x: bv8, x': bv8)
    ensures (0 << 8) ^ ((x as bv32) ^ (x' as bv32)) <= 0xFF
  {
  }

  lemma RawSpell(z: bv32, x: bv8, x': bv8)
    requires z < 0x1000000 && (z << 8) ^ ((x as bv32) ^ (x' as bv32)) == 0
    ensures z == 0 && x == x'
  {
  }

  lemma RawSame(x: bv32)
    ensures x ^ x == 0
  {
  }

  lemma RawEqual(x: bv32, y: bv32)
    requires x ^ y == 0
    ensures x == y
  {
  }

  lemma XorZero(x: bv32, y: bv32)
    ensures Xor(x, y) == 0 <==> x == y
  {
    if x == y {
      RawSame(x);
    } else if x ^ y == 0 {
      RawEqual(x, y);
    }
  }

  lemma NearBefore(r: bv32, x: bv8, r': bv32, x': bv8, n: nat)
    requires n > 0 && Near(Absorb(r, x), Absorb(r', x'), n)
    ensures Near(r, r', n - 1)
  {
    var z := Xor(Absorb(r, x), Absorb(r', x'));
    AbsorbBackwards(r, x, r', x', z);
    match n {
      case 1 =>
      case 2 => RawRoom3(z, x, x');
      case 3 => RawRoom2(z, x, x');
      case 4 => RawRoom1(x, x');
    }
  }

  lemma NearBytesEqual(r: bv32, x: bv8, x': bv8, n: nat)
    requires n > 0 && Near(Absorb(r, x), Absorb(r, x'), n)
    ensures x == x'
  {
    var z := Xor(Absorb(r, x), Absorb(r, x'));
    AbsorbBackwards(r, x, r, x', z);
    XorZero(r, r);
    RawSpell(z, x, x');
  }

  lemma NearSnoc(c: bv32, u: seq<Byte>, b: Byte, u': seq<Byte>, b': Byte)
    requires |u| == |u'| && Near(Register(c, u + [b]), Register(c, u' + [b']), |u| + 1)
    ensures Near(Register(c, u), Register(c, u'), |u|)
    ensures u == u' ==> b == b'
  {
    hide Absorb, Bits, Near, Register;
    RegisterSnoc(c, u, b);
    RegisterSnoc(c, u', b');
    NearBefore(Register(c, u), Bits(b), Register(c, u'), Bits(b'), |u| + 1);
    if u == u' {
      NearBytesEqual(Register(c, u), Bits(b), Bits(b'), |u| + 1);
      NumOfBits(b);
      NumOfBits(b');
    }
  }

  /** Up to four bytes can be read back off the difference they make to one register. */
  lemma {:induction false} WindowInjective(c: bv32, w: seq<Byte>, w': seq<Byte>)
    requires |w| == |w'| && Near(Register(c, w), Register(c, w'), |w|)
    ensures w == w'
    decreases |w|
  {
    hide Absorb, Bits, Near, Register;
    if |w| > 0 {
      var n := |w| - 1;
      var u, b, u', b' := w[..n], w[n], w'[..n], w'[n];
      assert w == u + [b] && w' == u' + [b'];
      NearSnoc(c, u, b, u', b');
      WindowInjective(c, u, u');
    }
  }

  lemma AbsorbInjective(c: bv32, c': bv32, x: bv8)
    requires Absorb(c, x) == Absorb(c', x)
    ensures c == c'
  {
    ShiftsInjective(Xor(c, Widen(x)), Xor(c', Widen(x)), 8);
    XorMove(c, Widen(x), Xor(c, Widen(x)));
    XorMove(c', Widen(x), Xor(c, Widen(x)));
  }

  lemma {:induction false} RegisterInjective(c: bv32, c': bv32, data: seq<Byte>)
    requires Register(c, data) == Register(c', data)
    ensures c == c'
    decreases |data|
  {
    if data != [] {
      var n := |data| - 1;
      AbsorbInjective(Register(c, data[..n]), Register(c', data[..n]), Bits(data[n]));
      RegisterInjective(c, c', data[..n]);
    }
  }

  /** Equal-length messages that differ only inside a window of four bytes never share a CRC. */
  lemma BurstDetected(before: seq<Byte>, w: seq<Byte>, w': seq<Byte>, after: seq<Byte>)
    requires |w| == |w'| <= 4 && w != w'
    ensures Crc(before + w + after) != Crc(before + w' + after)
  {
    if Crc(before + w + after) == Crc(before + w' + after) {
      var c := Register(0xFFFFFFFF, before);
      XorMove(Register(0xFFFFFFFF, before + w + after), 0xFFFFFFFF, Crc(before + w + after));
      XorMove(Register(0xFFFFFFFF, before + w' + after), 0xFFFFFFFF, Crc(before + w' + after));
      RegisterAppend(0xFFFFFFFF, before + w, after);
      RegisterAppend(0xFFFFFFFF, before + w', after);
      RegisterAppend(0xFFFFFFFF, before, w);
      RegisterAppend(0xFFFFFFFF, before, w');
      RegisterInjective(Register(c, w), Register(c, w'), after);
      XorZero(Register(c, w), Register(c, w'));
      WindowInjective(c, w, w');
    }
  }

  /** The case the frame and sidecar formats rely on: one altered byte always changes the CRC. */
  lemma AlteredByteDetected(data: seq<Byte>, i: nat, b: Byte)
    requires i < |data| && b != data[i]
    ensures Crc(data[i := b]) != Crc(data)
  {
    assert data == data[..i] + [data[i]] + data[i + 1..];
    assert data[i := b] == data[..i] + [b] + data[i + 1..];
    assert [data[i]][0] != [b][0];
    BurstDetected(data[..i], [data[i]], [b], data[i + 1..]);
  }

  /** `tag` is the stored CRC of `data`, the way every weir format stores one. */
  predicate Sealed(data: seq<Byte>, tag: seq<Byte>)
    requires |tag| == 4
  {
    Crc(data) == Word(tag)
  }

  lemma SealExact(data: seq<Byte>, tag: seq<Byte>)
    requires |tag| == 4
    ensures Sealed(data, tag) <==> tag == WordBytes(Crc(data))
  {
    WordOfBytes(Crc(data));
    if Sealed(data, tag) {
      BytesOfWord(tag);
    }
  }

  lemma SealBrokenByData(data: seq<Byte>, tag: seq<Byte>, i: nat, b: Byte)
    requires |tag| == 4 && Sealed(data, tag) && i < |data| && b != data[i]
    ensures !Sealed(data[i := b], tag)
  {
    AlteredByteDetected(data, i, b);
  }

  lemma SealBrokenByTag(data: seq<Byte>, tag: seq<Byte>, i: nat, b: Byte)
    requires |tag| == 4 && Sealed(data, tag) && i < 4 && b != tag[i]
    ensures !Sealed(data, tag[i := b])
  {
    var tag' := tag[i := b];
    assert tag'[i] != tag[i];
    if Word(tag') == Word(tag) {
      WordInjective(tag', tag);
    }
  }
}
