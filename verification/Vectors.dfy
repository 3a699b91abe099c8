/** Published test vectors, byte for byte: what the wire holds is pinned by values, not only by round trips. */
module Vectors {
  import opened Bytes
  import opened Crc32
  import opened Frame
  import opened Layout
  import opened Protocol
  import AckBatch
  import Batch
  import DeliveryLine
  import LedgerLine
  import Text

  function Eight(c: bv32): bv32 {
    Shift(Shift(Shift(Shift(Shift(Shift(Shift(Shift(c))))))))
  }

  lemma EightShifts(c: bv32)
    ensures Shifts(c, 8) == Eight(c)
  {
    hide Shift;
    var d := Shift(Shift(Shift(Shift(c))));
    assert Shifts(c, 8) == Shifts(d, 4);
    assert Shifts(d, 4) == Shifts(Shift(Shift(Shift(Shift(d)))), 0);
  }

  /** `after` is the register `before` with one byte divided in. */
  predicate Feeds(before: bv32, bits: bv8, after: bv32) {
    Eight(before ^ (bits as bv32)) == after
  }

  lemma Fed0(data: seq<Byte>)
    ensures Register(0xFFFFFFFF, data[..0]) == 0xFFFFFFFF
  {
  }

  lemma Fed(data: seq<Byte>, i: nat, before: bv32, bits: bv8, after: bv32)
    requires i < |data| && Register(0xFFFFFFFF, data[..i]) == before && Bits(data[i]) == bits && Feeds(before, bits, after)
    ensures Register(0xFFFFFFFF, data[..i + 1]) == after
  {
    assert data[..i + 1] == data[..i] + [data[i]];
    RegisterSnoc(0xFFFFFFFF, data[..i], data[i]);
    EightShifts(before ^ (bits as bv32));
    hide Eight, Register, Shifts;
  }

  const CHECK: seq<Byte> := [0x31, 0x32, 0x33, 0x34, 0x35, 0x36, 0x37, 0x38, 0x39]

  lemma CheckA()
    ensures Register(0xFFFFFFFF, CHECK[..4]) == 0x641C1F5C
  {
    hide Register;
    Fed0(CHECK);
    Fed(CHECK, 0, 0xFFFFFFFF, 0x31, 0x7C231048);
    Fed(CHECK, 1, 0x7C231048, 0x32, 0xB0ACBB32);
    Fed(CHECK, 2, 0xB0ACBB32, 0x33, 0x77B79C2D);
    Fed(CHECK, 3, 0x77B79C2D, 0x34, 0x641C1F5C);
  }

  lemma CheckB()
    ensures Register(0xFFFFFFFF, CHECK[..8]) == 0x651F2550
  {
    hide Register;
    CheckA();
    Fed(CHECK, 4, 0x641C1F5C, 0x35, 0x340AC5E3);
    Fed(CHECK, 5, 0x340AC5E3, 0x36, 0xF68D2C9E);
    Fed(CHECK, 6, 0xF68D2C9E, 0x37, 0xAFFC9660);
    Fed(CHECK, 7, 0xAFFC9660, 0x38, 0x651F2550);
  }

  lemma CheckC()
    ensures Register(0xFFFFFFFF, CHECK[..9]) == 0x340BC6D9
  {
    hide Register;
    CheckB();
    Fed(CHECK, 8, 0x651F2550, 0x39, 0x340BC6D9);
  }

  /** The check value every CRC-32 of this kind is known by: that of the digits one to nine. */
  lemma CheckValue()
    ensures Crc([0x31, 0x32, 0x33, 0x34, 0x35, 0x36, 0x37, 0x38, 0x39]) == 0xCBF43926
  {
    hide Register;
    CheckC();
    assert CHECK[..9] == CHECK;
  }

  const HELLO_HEAD: seq<Byte> := [0x57, 0x45, 0x49, 0x52, 0x01, 0x01, 0x01, 0x00, 0x05, 0x00, 0x00, 0x00]

  lemma HelloHeadA()
    ensures Register(0xFFFFFFFF, HELLO_HEAD[..4]) == 0x5AEE9C47
  {
    hide Register;
    Fed0(HELLO_HEAD);
    Fed(HELLO_HEAD, 0, 0xFFFFFFFF, 0x57, 0xD8F2D425);
    Fed(HELLO_HEAD, 1, 0xD8F2D425, 0x45, 0x4D6A938C);
    Fed(HELLO_HEAD, 2, 0x4D6A938C, 0x49, 0xEB435CAC);
    Fed(HELLO_HEAD, 3, 0xEB435CAC, 0x52, 0x5AEE9C47);
  }

  lemma HelloHeadB()
    ensures Register(0xFFFFFFFF, HELLO_HEAD[..8]) == 0x19EC7B8B
  {
    hide Register;
    HelloHeadA();
    Fed(HELLO_HEAD, 4, 0x5AEE9C47, 0x01, 0x9FE50A39);
    Fed(HELLO_HEAD, 5, 0x9FE50A39, 0x01, 0x289D5D94);
    Fed(HELLO_HEAD, 6, 0x289D5D94, 0x01, 0x804DFA96);
    Fed(HELLO_HEAD, 7, 0x804DFA96, 0x00, 0x19EC7B8B);
  }

  lemma HelloHeadC()
    ensures Register(0xFFFFFFFF, HELLO_HEAD[..12]) == 0xC3825299
  {
    hide Register;
    HelloHeadB();
    Fed(HELLO_HEAD, 8, 0x19EC7B8B, 0x05, 0x0A19425C);
    Fed(HELLO_HEAD, 9, 0x0A19425C, 0x00, 0x62D7049D);
    Fed(HELLO_HEAD, 10, 0x62D7049D, 0x00, 0x8EDC38FD);
    Fed(HELLO_HEAD, 11, 0x8EDC38FD, 0x00, 0xC3825299);
  }

  const HELLO: seq<Byte> := [0x68, 0x65, 0x6C, 0x6C, 0x6F]

  lemma HelloA()
    ensures Register(0xFFFFFFFF, HELLO[..3]) == 0x1AF40EE4
  {
    hide Register;
    Fed0(HELLO);
    Fed(HELLO, 0, 0xFFFFFFFF, 0x68, 0x6E94F918);
    Fed(HELLO, 1, 0x6E94F918, 0x65, 0x2EDA9978);
    Fed(HELLO, 2, 0x2EDA9978, 0x6C, 0x1AF40EE4);
  }

  lemma HelloB()
    ensures Register(0xFFFFFFFF, HELLO[..5]) == 0xC9EF5979
  {
    hide Register;
    HelloA();
    Fed(HELLO, 3, 0x1AF40EE4, 0x6C, 0xE379FF1C);
    Fed(HELLO, 4, 0xE379FF1C, 0x6F, 0xC9EF5979);
  }

  lemma HelloCrcs()
    ensures Crc(HELLO_HEAD) == 0x3C7DAD66 && Crc(HELLO) == 0x3610A686
  {
    hide Register;
    HelloHeadC();
    HelloB();
    assert HELLO_HEAD[..12] == HELLO_HEAD && HELLO[..5] == HELLO;
  }

  lemma HelloCrcBytes()
    ensures WordBytes(0x3C7DAD66) == [0x66, 0xAD, 0x7D, 0x3C] && WordBytes(0x3610A686) == [0x86, 0xA6, 0x10, 0x36]
  {
  }

  /** The durable push of "hello", byte for byte. */
  lemma PushHello()
    ensures RequestBytes(Push([0x68, 0x65, 0x6C, 0x6C, 0x6F], 0x01)) ==
            [0x57, 0x45, 0x49, 0x52, 0x01, 0x01, 0x01, 0x00, 0x05, 0x00, 0x00, 0x00, 0x66, 0xAD, 0x7D, 0x3C,
             0x68, 0x65, 0x6C, 0x6C, 0x6F, 0x86, 0xA6, 0x10, 0x36]
  {
    hide Crc, WordBytes, Le;
    HelloCrcs();
    HelloCrcBytes();
    LeWord(5);
    assert MAGIC + [WIRE_VERSION, PUSH, 0x01, 0] + Le(5, 4) == HELLO_HEAD;
  }

  // ---- Batches

  /** Records 0, 2 and 8 of nine accepted: the pattern that shows bit order and byte order. */
  lemma AckOfNine()
    ensures AckBatch.AckPayload([true, false, true, false, false, false, false, false, true]) == [0x01, 0x09, 0x00, 0x05, 0x01]
  {
    var a := [true, false, true, false, false, false, false, false, true];
    LePair(9);
    AckBatch.PayloadParts(a);
    var s: seq<Byte> := [0x05, 0x01];
    forall i | 0 <= i < 16
      ensures AckBatch.Bit(s[i / 8], i % 8) == AckBatch.Flag(a, i)
    {
      FiveAndOne(i);
    }
    AckBatch.BitmapUnique(a, s);
    hide AckBatch.AckPayload, AckBatch.Bitmap, Le;
    assert AckBatch.AckPayload(a) == AckBatch.AckPayload(a)[..1] + AckBatch.AckPayload(a)[1..3] + AckBatch.AckPayload(a)[3..];
  }

  lemma FiveAndOne(i: nat)
    requires i < 16
    ensures AckBatch.Bit(if i < 8 then 5 else 1, i % 8) <==> i == 0 || i == 2 || i == 8
  {
    if i < 8 {
      assert i >= 1 ==> AckBatch.Bit(5, i) == AckBatch.Bit(2, i - 1);
      assert i >= 2 ==> AckBatch.Bit(2, i - 1) == AckBatch.Bit(1, i - 2);
      OneBit(if i < 2 then 0 else i - 2);
    } else {
      OneBit(i - 8);
    }
  }

  lemma OneBit(k: nat)
    ensures AckBatch.Bit(1, k) <==> k == 0
  {
    if k > 0 {
      AckBatch.ZeroBit(k - 1);
      assert AckBatch.Bit(1, k) == AckBatch.Bit(0, k - 1);
    }
  }

  const ALPHA: seq<Byte> := [0x61, 0x6C, 0x70, 0x68, 0x61]
  const BETA: seq<Byte> := [0x62, 0x65, 0x74, 0x61]
  const GAMMA: seq<Byte> := [0x67, 0x61, 0x6D, 0x6D, 0x61]

  lemma FlatGamma()
    ensures Batch.Flat([GAMMA]) == [5, 0, 0, 0] + GAMMA
  {
    LeWord(5);
    Batch.FlatEmpty();
    Batch.FlatCons(GAMMA, []);
    hide Batch.Flat, Le;
    assert [GAMMA] + [] == [GAMMA];
  }

  lemma FlatThree()
    ensures Batch.Flat([ALPHA, BETA, GAMMA]) == [5, 0, 0, 0] + ALPHA + ([4, 0, 0, 0] + BETA + ([5, 0, 0, 0] + GAMMA))
  {
    hide Batch.Flat, Le;
    FlatGamma();
    LeWord(5);
    LeWord(4);
    Batch.FlatCons(BETA, [GAMMA]);
    Batch.FlatCons(ALPHA, [BETA, GAMMA]);
    assert [BETA] + [GAMMA] == [BETA, GAMMA] && [ALPHA] + [BETA, GAMMA] == [ALPHA, BETA, GAMMA];
  }

  /** "alpha", "beta" and "gamma" in one body. */
  lemma BodyOfThree()
    ensures Batch.Body([ALPHA, BETA, GAMMA]) ==
            [1, 3, 0] + ([5, 0, 0, 0] + ALPHA + ([4, 0, 0, 0] + BETA + ([5, 0, 0, 0] + GAMMA)))
  {
    FlatThree();
    BodyAround([ALPHA, BETA, GAMMA]);
    hide *;
  }

  lemma BodyAround(rs: seq<seq<Byte>>)
    requires |rs| == 3
    ensures Batch.Body(rs) == [1, 3, 0] + Batch.Flat(rs)
  {
    hide Batch.Flat, Le;
    LePair(3);
  }

  // ---- Lines

  /** A refusal without a reason keeps its trailing space. */
  lemma NackLine()
    ensures LedgerLine.ToLine(LedgerLine.Entry(1, 'S', LedgerLine.Nacked(""), 2, 3)) == "1 S 2 3 NACK "
  {
  }

  lemma Decimals()
    ensures Text.Decimal(7) == "7" && Text.Decimal(42) == "42"
  {
    assert Text.Decimal(42) == Text.Decimal(4) + "2";
  }

  /** An identity as a payload without padding. */
  lemma IdentityPayload()
    ensures DeliveryLine.EncodeRecord(DeliveryLine.Record(7, 42), 0) == "{\"run\":7,\"seq\":42,\"pad\":\"\"}"
  {
    hide Text.Decimal;
    Decimals();
  }

  /** The same identity as a line of the delivery log. */
  lemma IdentityLogged()
    ensures DeliveryLine.LogLine(DeliveryLine.Record(7, 42)) == "7 42\n"
  {
    hide Text.Decimal;
    Decimals();
  }

  /** The three escapes, and what happens to text that only looks like one. */
  lemma EscapesHere()
    ensures LedgerLine.Escaped("a\n") == "a\\n" && LedgerLine.Escaped("\r") == "\\r" && LedgerLine.Escaped("\\") == "\\\\"
    ensures LedgerLine.Unescaped("\\x") == "\\x" && LedgerLine.Unescaped("x\\") == "x\\"
  {
    assert "a\n"[1..] == "\n" && "\n"[1..] == "" && "\r"[1..] == "" && "\\"[1..] == "";
    assert "\\x"[2..] == "" && "x\\"[1..] == "\\";
  }
}
