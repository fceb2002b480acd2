/** os/alpha/fsbl/AtmelAtsha204a.c: the CRC-16 of the ATSHA204A driver, the packets it closes and
    the responses it guards. */
module Crc {
  import opened Bytes
  import opened BinaryDigits

  // ---------------------------------------------------------------- the register, bit by bit

  function Falses(n: nat): (r: seq<bool>)
    ensures |r| == n
  {
    seq(n, _ => false)
  }

  /** x16 + x15 + x2 + 1 without its top term, lowest coefficient first. */
  const POLYNOMIAL := [true, false, true, false, false, false, false, false,
                       false, false, false, false, false, false, false, true]

  function Times(c: bool): (r: seq<bool>)
    ensures |r| == 16
  {
    if c then POLYNOMIAL else Falses(16)
  }

  /** One step of the feedback shift register. */
  function Shift(reg: seq<bool>, bit: bool): (r: seq<bool>)
    requires |reg| == 16
    ensures |r| == 16
  {
    XorBits([false] + reg[..15], Times(bit != reg[15]))
  }

  function Feed(reg: seq<bool>, bits: seq<bool>): (r: seq<bool>)
    requires |reg| == 16
    ensures |r| == 16
    decreases |bits|
  {
    if bits == [] then reg else Feed(Shift(reg, bits[0]), bits[1..])
  }

  /** The data bits in the order in which they are fed: bytes in order, lowest bit first. */
  function AllBits(data: seq<uint8>): (r: seq<bool>)
    ensures |r| == 8 * |data|
  {
    if data == [] then [] else AllBits(data[..|data| - 1]) + ToBits(data[|data| - 1], 8)
  }

  function Crc16(data: seq<uint8>): (r: seq<bool>)
    ensures |r| == 16
  {
    Feed(Falses(16), AllBits(data))
  }

  lemma {:induction false} FeedAppend(reg: seq<bool>, x: seq<bool>, y: seq<bool>)
    requires |reg| == 16
    ensures Feed(reg, x + y) == Feed(Feed(reg, x), y)
    decreases |x|
  {
    hide Shift;
    if x == [] {
      assert x + y == y;
    } else {
      assert (x + y)[1..] == x[1..] + y;
      FeedAppend(Shift(reg, x[0]), x[1..], y);
    }
  }

  lemma {:induction false} AllBitsAppend(x: seq<uint8>, y: seq<uint8>)
    ensures AllBits(x + y) == AllBits(x) + AllBits(y)
    decreases |y|
  {
    hide ToBits;
    if y == [] {
      assert x + y == x;
    } else {
      assert (x + y)[..|x + y| - 1] == x + y[..|y| - 1];
      AllBitsAppend(x, y[..|y| - 1]);
    }
  }

  // ---------------------------------------------------------------- AtmelAtsha204a_CalculateCrc

  lemma RegisterOfShift(reg: nat, bit: bool)
    requires reg < 0x1_0000
    ensures (reg / 0x8000 == 1) == ToBits(reg, 16)[15] && reg / 0x8000 <= 1
    ensures Shift(ToBits(reg, 16), bit) ==
            ToBits(if bit != (reg / 0x8000 == 1) then Xor(reg * 2 % 0x1_0000, 0x8005, 16) else reg * 2 % 0x1_0000, 16)
  {
    hide ToBits, Xor;
    PowersOf2();
    TopBit(reg, 15);
    BitsOfDouble(reg, 15);
    BitsPrefix(reg, 15);
    BitsOfXor(reg * 2 % 0x1_0000, 0x8005, 16);
    PolynomialBits();
    XorFalses([false] + ToBits(reg, 16)[..15]);
  }

  lemma PowersOf2()
    ensures Pow2(8) == 0x100 && Pow2(12) == 0x1000 && Pow2(15) == 0x8000 && Pow2(16) == 0x1_0000
  {
    assert Pow2(4) == 16;
    assert Pow2(12) == 0x1000;
  }

  lemma PolynomialBits()
    ensures ToBits(0x8005, 16) == POLYNOMIAL
  {
    hide ToBits, Pow2;
    PowersOf2();
    BitsStep(0x8005, 16);
    BitsStep(0x4002, 15);
    BitsStep(0x2001, 14);
    PowerBits(12);
    assert POLYNOMIAL == [true] + ([false] + ([true] + (Falses(12) + [true])));
  }

  lemma BitsStep(v: nat, n: nat)
    requires n > 0
    ensures ToBits(v, n) == [v % 2 == 1] + ToBits(v / 2, n - 1)
  {
  }

  lemma {:induction false} PowerBits(n: nat)
    ensures ToBits(Pow2(n), n + 1) == Falses(n) + [true]
  {
    if n > 0 {
      PowerBits(n - 1);
      assert Falses(n) == [false] + Falses(n - 1);
    }
  }

  lemma {:induction false} BitsPrefix(v: nat, n: nat)
    ensures ToBits(v, n + 1)[..n] == ToBits(v, n)
  {
    if n > 0 {
      BitsPrefix(v / 2, n - 1);
      assert ToBits(v, n + 1) == [v % 2 == 1] + ToBits(v / 2, n);
    }
  }

  lemma XorFalses(x: seq<bool>)
    ensures XorBits(x, Falses(|x|)) == x
  {
  }

  lemma {:induction false} ZeroBits(n: nat)
    ensures ToBits(0, n) == Falses(n)
  {
    if n > 0 {
      ZeroBits(n - 1);
      assert Falses(n) == [false] + Falses(n - 1);
    }
  }

  /** AtmelAtsha204a_CalculateCrc: the register ends as the fold of all the data bits. */
  method CalculateCrc(pData: seq<uint8>, dataLengthBytes: uint8) returns (crcRegister: nat)
    requires dataLengthBytes <= |pData|
    ensures crcRegister < 0x1_0000 && ToBits(crcRegister, 16) == Crc16(pData[..dataLengthBytes])
  {
    hide Feed, ToBits, AllBits, Shift;
    crcRegister := 0;
    var counter := 0;
    ZeroBits(16);
    NoBits();
    while counter < dataLengthBytes
      invariant counter <= dataLengthBytes && crcRegister < 0x1_0000
      invariant ToBits(crcRegister, 16) == Feed(Falses(16), AllBits(pData[..counter]))
    {
      ghost var done, bits := AllBits(pData[..counter]), ToBits(pData[counter], 8);
      var shiftRegister: nat := 0x01;
      ghost var k := 0;
      assert done + bits[..0] == done;
      while shiftRegister > 0
        invariant k <= 8 && shiftRegister == (if k < 8 then Pow2(k) else 0) && crcRegister < 0x1_0000
        invariant ToBits(crcRegister, 16) == Feed(Falses(16), done + bits[..k])
        decreases 8 - k
      {
        // pData[counter] & shiftRegister, a mask with one bit
        var dataBit := if pData[counter] / shiftRegister % 2 == 1 then 1 else 0;
        var crcBit := crcRegister / 0x8000;
        BitAt(pData[counter], 8, k);
        RegisterOfShift(crcRegister, bits[k]);
        FeedOne(done, bits, k);
        PowersOf2();
        crcRegister := crcRegister * 2 % 0x1_0000;
        if dataBit != crcBit {
          crcRegister := Xor(crcRegister, 0x8005, 16);
        }
        MaskMoves(k);
        shiftRegister := shiftRegister * 2 % 0x100;
        k := k + 1;
      }
      LastMask(k);
      assert bits[..8] == bits;
      MoreBits(pData, counter);
      counter := counter + 1;
    }
  }

  lemma NoBits()
    ensures Feed(Falses(16), AllBits([])) == Falses(16)
  {
  }

  lemma FeedOne(done: seq<bool>, bits: seq<bool>, k: nat)
    requires k < |bits|
    ensures Feed(Falses(16), done + bits[..k + 1]) == Shift(Feed(Falses(16), done + bits[..k]), bits[k])
  {
    hide Shift;
    assert done + bits[..k + 1] == done + bits[..k] + [bits[k]];
    FeedAppend(Falses(16), done + bits[..k], [bits[k]]);
  }

  lemma MaskMoves(k: nat)
    requires k < 8
    ensures Pow2(k) * 2 % 0x100 == if k + 1 < 8 then Pow2(k + 1) else 0
  {
    PowersOf2();
    assert Pow2(7) == 0x80;
    if k < 7 {
      PowerGrows(k + 1, 7);
    }
  }

  lemma {:induction false} PowerGrows(j: nat, k: nat)
    requires j <= k
    ensures Pow2(j) <= Pow2(k)
    decreases k
  {
    if j < k {
      PowerGrows(j, k - 1);
    }
  }

  lemma LastMask(k: nat)
    requires k <= 8 && (if k < 8 then Pow2(k) else 0) <= 0
    ensures k == 8
  {
  }

  lemma MoreBits(data: seq<uint8>, i: nat)
    requires i < |data|
    ensures AllBits(data[..i + 1]) == AllBits(data[..i]) + ToBits(data[i], 8)
  {
    hide ToBits;
    assert data[..i + 1][..i] == data[..i];
  }

  // ---------------------------------------------------------------- linearity

  lemma ShiftLinear(a: seq<bool>, b: seq<bool>, p: bool, q: bool)
    requires |a| == |b| == 16
    ensures Shift(XorBits(a, b), p != q) == XorBits(Shift(a, p), Shift(b, q))
  {
    var c := XorBits(a, b);
    assert [false] + c[..15] == XorBits([false] + a[..15], [false] + b[..15]);
    assert Times((p != q) != c[15]) == XorBits(Times(p != a[15]), Times(q != b[15]));
  }

  /** The register is linear in the register and the message together. */
  lemma {:induction false} FeedLinear(a: seq<bool>, b: seq<bool>, x: seq<bool>, y: seq<bool>)
    requires |a| == |b| == 16 && |x| == |y|
    ensures Feed(XorBits(a, b), XorBits(x, y)) == XorBits(Feed(a, x), Feed(b, y))
    decreases |x|
  {
    if x != [] {
      hide Shift;
      ShiftLinear(a, b, x[0], y[0]);
      assert XorBits(x, y)[1..] == XorBits(x[1..], y[1..]);
      FeedLinear(Shift(a, x[0]), Shift(b, y[0]), x[1..], y[1..]);
    }
  }

  // ---------------------------------------------------------------- parity

  /** Whether an odd number of bits are set. */
  function Odd(bits: seq<bool>): bool {
    if bits == [] then false else bits[0] != Odd(bits[1..])
  }

  lemma {:induction false} OddAppend(x: seq<bool>, y: seq<bool>)
    ensures Odd(x + y) == (Odd(x) != Odd(y))
  {
    if x == [] {
      assert x + y == y;
    } else {
      assert (x + y)[1..] == x[1..] + y;
      OddAppend(x[1..], y);
    }
  }

  lemma {:induction false} OddXor(x: seq<bool>, y: seq<bool>)
    requires |x| == |y|
    ensures Odd(XorBits(x, y)) == (Odd(x) != Odd(y))
  {
    if x != [] {
      assert XorBits(x, y)[1..] == XorBits(x[1..], y[1..]);
      OddXor(x[1..], y[1..]);
    }
  }

  lemma {:induction false} OddFalses(n: nat)
    ensures !Odd(Falses(n))
  {
    if n > 0 {
      assert Falses(n)[1..] == Falses(n - 1);
      OddFalses(n - 1);
    }
  }

  lemma TimesParity(c: bool)
    ensures Odd(Times(c)) == c
  {
    if c {
      assert POLYNOMIAL == [true, false, true] + (Falses(12) + [true]);
      OddAppend([true, false, true], Falses(12) + [true]);
      OddAppend(Falses(12), [true]);
      OddFalses(12);
      assert Odd([true]) && !Odd([true, false, true]);
    } else {
      OddFalses(16);
    }
  }

  lemma ShiftParity(reg: seq<bool>, bit: bool)
    requires |reg| == 16
    ensures Odd(Shift(reg, bit)) == (Odd(reg) != bit)
  {
    hide *;
    var c := bit != reg[15];
    ShiftIs(reg, bit);
    OddXor([false] + reg[..15], Times(c));
    TimesParity(c);
    OddAppend([false], reg[..15]);
    OddAppend(reg[..15], [reg[15]]);
    assert reg == reg[..15] + [reg[15]];
    OddOne(false);
    OddOne(reg[15]);
  }

  lemma OddOne(b: bool)
    ensures Odd([b]) == b
  {
  }

  lemma ShiftIs(reg: seq<bool>, bit: bool)
    requires |reg| == 16
    ensures |[false] + reg[..15]| == |Times(bit != reg[15])| == 16
    ensures Shift(reg, bit) == XorBits([false] + reg[..15], Times(bit != reg[15]))
  {
    hide XorBits;
  }

  lemma {:induction false} FeedParity(reg: seq<bool>, bits: seq<bool>)
    requires |reg| == 16
    ensures Odd(Feed(reg, bits)) == (Odd(reg) != Odd(bits))
    decreases |bits|
  {
    if bits != [] {
      hide Shift;
      ShiftParity(reg, bits[0]);
      FeedParity(Shift(reg, bits[0]), bits[1..]);
    }
  }

  /** The parity of the CRC is the parity of all the message bits. */
  lemma CrcParity(data: seq<uint8>)
    ensures Odd(Crc16(data)) == Odd(AllBits(data))
  {
    FeedParity(Falses(16), AllBits(data));
    OddFalses(16);
  }

  // ---------------------------------------------------------------- bursts

  /** Up to sixteen bits at the top of a register, the first one highest. */
  function Aligned(bits: seq<bool>): (r: seq<bool>)
    requires |bits| <= 16
    ensures |r| == 16
  {
    seq(16, i requires 0 <= i < 16 => if i < 16 - |bits| then false else bits[15 - i])
  }

  /** The only register that up to sixteen data bits turn into zero is the one that holds them. */
  lemma {:induction false} FeedBack(reg: seq<bool>, bits: seq<bool>)
    requires |reg| == 16 && |bits| <= 16 && Feed(reg, bits) == Falses(16)
    ensures reg == Aligned(bits)
    decreases |bits|
  {
    if bits == [] {
      NothingAligned();
    } else {
      var after := Shift(reg, bits[0]);
      FeedBack(after, bits[1..]);
      hide Shift, Feed, Aligned;
      AlignedStep(bits);
      ShiftBack(reg, bits[0], after);
      assert reg == reg[..15] + [reg[15]];
      assert after[1..] == reg[..15];
    }
  }

  lemma NothingAligned()
    ensures Aligned([]) == Falses(16)
  {
  }

  /** One bit less moves all the others up. */
  lemma AlignedStep(bits: seq<bool>)
    requires 0 < |bits| <= 16
    ensures Aligned(bits) == Aligned(bits[1..])[1..] + [bits[0]] && !Aligned(bits[1..])[0]
  {
    forall i | 0 <= i < 15
      ensures Aligned(bits)[i] == Aligned(bits[1..])[1..][i]
    {
    }
  }

  /** A step that leaves the lowest bit clear did not add the polynomial. */
  lemma ShiftBack(reg: seq<bool>, bit: bool, after: seq<bool>)
    requires |reg| == 16 && Shift(reg, bit) == after && !after[0]
    ensures bit == reg[15] && forall i :: 0 <= i < 15 ==> reg[i] == after[i + 1]
  {
    assert after[0] == Times(bit != reg[15])[0];
  }

  lemma {:induction false} FeedFalses(n: nat)
    ensures Feed(Falses(16), Falses(n)) == Falses(16)
  {
    if n > 0 {
      assert Shift(Falses(16), false) == Falses(16);
      assert Falses(n)[1..] == Falses(n - 1);
      FeedFalses(n - 1);
    }
  }

  /** Feeding zeros never brings a register back to zero. */
  lemma {:induction false} FeedKeepsNonZero(reg: seq<bool>, n: nat)
    requires |reg| == 16 && Feed(reg, Falses(n)) == Falses(16)
    ensures reg == Falses(16)
    decreases n
  {
    if n > 0 {
      assert Falses(n)[1..] == Falses(n - 1);
      var after := Shift(reg, false);
      FeedKeepsNonZero(after, n - 1);
      ShiftBack(reg, false, after);
      assert forall i :: 0 <= i < 15 ==> reg[i] == after[i + 1];
    }
  }

  /** A difference confined to at most sixteen consecutive bits changes the CRC. */
  lemma BurstIsSeen(a: nat, burst: seq<bool>, b: nat)
    requires |burst| <= 16 && burst != Falses(|burst|)
    ensures Feed(Falses(16), Falses(a) + burst + Falses(b)) != Falses(16)
  {
    hide Shift, Feed, Aligned;
    FeedAppend(Falses(16), Falses(a) + burst, Falses(b));
    FeedAppend(Falses(16), Falses(a), burst);
    FeedFalses(a);
    var reg := Feed(Falses(16), burst);
    if Feed(reg, Falses(b)) == Falses(16) {
      FeedKeepsNonZero(reg, b);
      FeedBack(Falses(16), burst);
      AlignedFalses(burst);
    }
  }

  lemma AlignedFalses(bits: seq<bool>)
    requires |bits| <= 16 && Aligned(bits) == Falses(16)
    ensures bits == Falses(|bits|)
  {
    forall j | 0 <= j < |bits|
      ensures !bits[j]
    {
      assert bits[j] == Aligned(bits)[15 - j];
    }
  }

  // ---------------------------------------------------------------- packets and responses

  function LowerByte(v: nat): uint8 { v % 0x100 }

  function UpperByte(v: nat): uint8 { v / 0x100 % 0x100 }

  /** Where a response's checksum is, as a uint8_t. */
  function CrcPosition(response: seq<uint8>): nat
    requires |response| > 0
  {
    var size: nat := response[0];
    (size + 0xFE) % 0x100
  }

  /** The checksum of a response, low byte first, is the CRC of what precedes it. */
  ghost predicate Intact(response: seq<uint8>) {
    && |response| > 0 && CrcPosition(response) + 2 <= |response|
    && var n := CrcPosition(response);
       ToBits(response[n], 8) + ToBits(response[n + 1], 8) == Crc16(response[..n])
  }

  /** v << n */
  function Shifted(v: nat, n: nat): nat {
    if n == 0 then v else 2 * Shifted(v, n - 1)
  }

  lemma BitsOfTwoBytes(lo: uint8, hi: uint8)
    ensures ToBits(lo + 0x100 * hi, 16) == ToBits(lo, 8) + ToBits(hi, 8)
    ensures lo + 0x100 * hi < 0x1_0000
  {
    hide ToBits, Pow2;
    PowersOf2();
    TwoParts(lo, hi, 8);
    ShiftedByEight(hi);
  }

  lemma ShiftedByEight(v: nat)
    ensures Shifted(v, 8) == 0x100 * v
  {
    assert Shifted(v, 1) == 2 * v;
    assert Shifted(v, 2) == 4 * v;
    assert Shifted(v, 3) == 8 * v;
    assert Shifted(v, 4) == 16 * v;
    assert Shifted(v, 5) == 32 * v;
    assert Shifted(v, 6) == 64 * v;
    assert Shifted(v, 7) == 128 * v;
  }

  lemma NoBitsOf(v: nat)
    ensures ToBits(v, 0) == []
  {
  }

  lemma ShiftedStep(lo: nat, hi: nat, n: nat)
    requires lo < Pow2(n)
    ensures n == 0 ==> lo == 0 && Shifted(hi, n) == hi
    ensures n > 0 ==> lo / 2 < Pow2(n - 1)
    ensures n > 0 ==> (lo + Shifted(hi, n)) % 2 == lo % 2 && (lo + Shifted(hi, n)) / 2 == lo / 2 + Shifted(hi, n - 1)
  {
    hide *;
    ShiftedUnfold(hi, n);
    if n > 0 {
      Halves(lo, Shifted(hi, n - 1));
      HalfBelow(lo, Pow2(n - 1));
    }
  }

  lemma ShiftedUnfold(v: nat, n: nat)
    ensures Shifted(v, n) == (if n == 0 then v else 2 * Shifted(v, n - 1))
    ensures Pow2(n) == (if n == 0 then 1 else 2 * Pow2(n - 1))
  {
  }

  lemma Halves(v: nat, x: nat)
    ensures (v + 2 * x) % 2 == v % 2 && (v + 2 * x) / 2 == v / 2 + x
  {
  }

  lemma HalfBelow(v: nat, p: nat)
    requires v < 2 * p
    ensures v / 2 < p
  {
  }

  lemma {:induction false} TwoParts(lo: nat, hi: nat, n: nat)
    requires lo < Pow2(n)
    ensures ToBits(lo + Shifted(hi, n), n + 8) == ToBits(lo, n) + ToBits(hi, 8)
  {
    hide *;
    ShiftedStep(lo, hi, n);
    if n == 0 {
      NoBitsOf(lo);
      assert [] + ToBits(hi, 8) == ToBits(hi, 8);
    } else {
      TwoParts(lo / 2, hi, n - 1);
      BitsStep(lo + Shifted(hi, n), n + 8);
      BitsStep(lo, n);
      var first, others := [lo % 2 == 1], ToBits(lo / 2, n - 1);
      assert first + (others + ToBits(hi, 8)) == first + others + ToBits(hi, 8);
    }
  }

  /** AtmelAtsha20a4_CheckResponseCrc */
  method CheckResponseCrc(pResponse: seq<uint8>) returns (success: bool)
    requires |pResponse| > 0 && CrcPosition(pResponse) + 2 <= |pResponse|
    ensures success <==> Intact(pResponse)
  {
    hide ToBits, Crc16, Pow2;
    var responseSize: int := pResponse[0];
    var crcPosition := (responseSize - 2) % 0x100;
    var low: nat, high: nat := pResponse[crcPosition], pResponse[crcPosition + 1];
    var receivedCrc := low + high * 0x100;
    var expectedCrc := CalculateCrc(pResponse, (responseSize - 2) % 0x100);
    BitsOfTwoBytes(pResponse[crcPosition], pResponse[crcPosition + 1]);
    PowersOf2();
    if ToBits(receivedCrc, 16) == ToBits(expectedCrc, 16) {
      SameBits(receivedCrc, expectedCrc, 16);
    }
    success := receivedCrc == expectedCrc;
  }

  /** The fields of a packet before the checksum. */
  function Fields(count: uint8, command: uint8, parameter1: uint8, parameter2: nat, additional: seq<uint8>)
    : (r: seq<uint8>)
    ensures |r| == 5 + |additional| && r[0] == count
  {
    [count, command, parameter1, UpperByte(parameter2), LowerByte(parameter2)] + additional
  }

  /** Memory with some bytes placed at base. */
  function Placed(was: seq<uint8>, base: nat, bytes: seq<uint8>): (r: seq<uint8>)
    requires base + |bytes| <= |was|
    ensures |r| == |was|
  {
    was[..base] + bytes + was[base + |bytes|..]
  }

  /** AtmelAtsha204a_GetCommandPacketSize, a uint8_t. */
  function PacketSize(additional: nat): uint8 {
    (1 + 1 + 1 + 2 + additional + 2) % 0x100
  }

  /** How many bytes the checksum covers, as a uint8_t. */
  function ChecksumSpan(additional: nat): (r: uint8)
    requires additional <= 255
    ensures r <= 5 + additional && (additional <= 248 ==> r == 5 + additional)
  {
    (PacketSize(additional) + 0xFE) % 0x100
  }

  /** Where the checksum of a packet starts, counted from the start of the packet. */
  function ChecksumPlace(additional: nat): (r: int)
    requires additional <= 255
    ensures r <= 5 + additional && (additional <= 248 ==> r == 5 + additional)
  {
    PacketSize(additional) - 2
  }

  /** The checksum lies in the packet, and behind the fields and the data, for up to 248 additional
      bytes; for 251 to 255 it lies in the first bytes, and for the other two lengths it does not
      lie in the packet. */
  lemma ChecksumInside(additional: nat)
    requires additional <= 255
    ensures var place := ChecksumPlace(additional);
            && (0 <= place <= 5 + additional <==> additional != 249 && additional != 250)
            && (place == 5 + additional <==> additional <= 248)
            && (0 <= place < 5 <==> additional >= 251)
  {
  }

  /** AtmelAtsha204a_ConstructCommandPacket; the packet starts at base in the memory. Up to 248
      additional bytes the fields are at their documented indices, and the packet passes the
      response check. From 249 on the count byte wraps, and the checksum of some first bytes
      overwrites two others. */
  method ConstructCommandPacket(command: uint8, parameter1: uint8, parameter2: nat, additional: seq<uint8>,
                                memory: array<uint8>, base: nat)
    requires parameter2 < 0x1_0000 && |additional| <= 255 && base + ChecksumPlace(|additional|) >= 0
    requires memory.Length >= base + if |additional| <= 248 then 7 + |additional| else 5 + |additional|
    modifies memory
    ensures base + ChecksumPlace(|additional|) + 2 <= memory.Length
    ensures var count, was := PacketSize(|additional|), old(memory[..]);
            var before := Placed(was, base, Fields(count, command, parameter1, parameter2, additional));
            var place := base + ChecksumPlace(|additional|);
            && |before| == |was| && memory[..][..place] == before[..place]
            && memory[..][place + 2..] == before[place + 2..]
            && ToBits(memory[place], 8) + ToBits(memory[place + 1], 8)
               == Crc16(before[base..base + ChecksumSpan(|additional|)])
    ensures |additional| <= 248 ==>
              var n, was := 5 + |additional|, old(memory[..]);
              && memory[..][base..base + n] == Fields(n + 2, command, parameter1, parameter2, additional)
              && memory[..][..base] == was[..base] && memory[..][base + n + 2..] == was[base + n + 2..]
              && Intact(memory[..][base..base + n + 2])
    ensures |additional| <= 248 ==>
              && memory[base] == 7 + |additional| && memory[base + 1] == command && memory[base + 2] == parameter1
              && 0x100 * (memory[base + 3] as int) + memory[base + 4] == parameter2
              && memory[..][base + 5..base + 5 + |additional|] == additional
  {
    hide ToBits, Crc16, Fields, Intact, Placed, PacketSize, ChecksumSpan, ChecksumPlace;
    SizesOfPacket(|additional|);
    var commandPacketLength := PacketSize(|additional|);
    StoreFields(commandPacketLength, command, parameter1, parameter2, additional, memory, base);
    StoreChecksum(memory, base, ChecksumSpan(|additional|), base + commandPacketLength - 2);
    if |additional| <= 248 {
      ghost var fields := Fields(commandPacketLength, command, parameter1, parameter2, additional);
      CompletePacket(old(memory[..]), fields, memory[..], base);
      FieldsAre(commandPacketLength, command, parameter1, parameter2, additional);
      FieldsAt(memory[..], base, fields);
    }
  }

  /** Count, opcode, the two parameters with the second one high byte first, and the data. */
  lemma FieldsAre(count: uint8, command: uint8, parameter1: uint8, parameter2: nat, additional: seq<uint8>)
    requires parameter2 < 0x1_0000
    ensures var f := Fields(count, command, parameter1, parameter2, additional);
            && f[0] == count && f[1] == command && f[2] == parameter1
            && 0x100 * (f[3] as int) + f[4] == parameter2 && f[5..] == additional
  {
  }

  lemma FieldsAt(m: seq<uint8>, base: nat, f: seq<uint8>)
    requires 5 <= |f| && base + |f| <= |m| && m[base..base + |f|] == f
    ensures m[base] == f[0] && m[base + 1] == f[1] && m[base + 2] == f[2] && m[base + 3] == f[3] && m[base + 4] == f[4]
    ensures m[base + 5..base + |f|] == f[5..]
  {
    assert m[base..base + |f|][5..] == m[base + 5..base + |f|];
  }

  lemma SizesOfPacket(additional: nat)
    requires additional <= 255
    ensures ChecksumPlace(additional) == PacketSize(additional) - 2
    ensures ChecksumPlace(additional) + 2 <= if additional <= 248 then 7 + additional else 5 + additional
    ensures additional <= 248 ==> PacketSize(additional) == 7 + additional
  {
  }

  /** The checksum of n bytes from base on, in place of two bytes. */
  method StoreChecksum(memory: array<uint8>, base: nat, n: uint8, place: nat)
    requires base + n <= memory.Length && place + 2 <= memory.Length
    modifies memory
    ensures memory[..][..place] == old(memory[..])[..place] && memory[..][place + 2..] == old(memory[..])[place + 2..]
    ensures ToBits(memory[place], 8) + ToBits(memory[place + 1], 8) == Crc16(old(memory[..])[base..base + n])
  {
    hide ToBits, Crc16, UpperByte, LowerByte;
    ghost var data := memory[base..base + n];
    assert data == memory[..][base..base + n];
    var checksum := CalculateCrc(memory[base..base + n], n);
    memory[place] := LowerByte(checksum);
    memory[place + 1] := UpperByte(checksum);
    ChecksumBytes(checksum);
    assert data[..n] == data;
  }

  method StoreFields(count: uint8, command: uint8, parameter1: uint8, parameter2: nat, additional: seq<uint8>,
                     memory: array<uint8>, base: nat)
    requires base + 5 + |additional| <= memory.Length
    modifies memory
    ensures memory[..] == Placed(old(memory[..]), base, Fields(count, command, parameter1, parameter2, additional))
    ensures memory[base] == count
  {
    hide UpperByte, LowerByte;
    memory[base] := count;
    memory[base + 1] := command;
    memory[base + 2] := parameter1;
    memory[base + 3] := UpperByte(parameter2);
    memory[base + 4] := LowerByte(parameter2);
    ghost var five := [count, command, parameter1, UpperByte(parameter2), LowerByte(parameter2)];
    assert memory[..] == Placed(old(memory[..]), base, five);
    hide Placed;
    AppendData(memory, base + 5, additional);
    PlacedOnward(old(memory[..]), base, five, additional);
  }

  /** The loop over the additional data. */
  method AppendData(memory: array<uint8>, start: nat, additional: seq<uint8>)
    requires start + |additional| <= memory.Length
    modifies memory
    ensures memory[..] == Placed(old(memory[..]), start, additional)
  {
    var byteIndex := 0;
    while byteIndex < |additional|
      invariant byteIndex <= |additional|
      invariant memory[..start] == old(memory[..])[..start]
      invariant memory[start..start + byteIndex] == additional[..byteIndex]
      invariant memory[start + byteIndex..] == old(memory[..])[start + byteIndex..]
    {
      ghost var before := memory[..];
      memory[start + byteIndex] := additional[byteIndex];
      OneMorePlaced(before, memory[..], start, byteIndex, additional[byteIndex]);
      assert additional[..byteIndex] + [additional[byteIndex]] == additional[..byteIndex + 1];
      byteIndex := byteIndex + 1;
    }
    assert memory[..] == memory[..start] + memory[start..start + |additional|] + memory[start + |additional|..];
  }

  lemma OneMorePlaced(before: seq<uint8>, after: seq<uint8>, start: nat, k: nat, b: uint8)
    requires start + k < |before| && after == before[start + k := b]
    ensures after[..start] == before[..start] && after[start..start + k + 1] == before[start..start + k] + [b]
    ensures after[start + k + 1..] == before[start + k..][1..]
  {
  }

  /** Bytes placed behind others. */
  lemma PlacedOnward(was: seq<uint8>, base: nat, x: seq<uint8>, y: seq<uint8>)
    requires base + |x| + |y| <= |was|
    ensures Placed(Placed(was, base, x), base + |x|, y) == Placed(was, base, x + y)
  {
  }

  /** Fields with their checksum behind them. */
  lemma CompletePacket(was: seq<uint8>, fields: seq<uint8>, after: seq<uint8>, base: nat)
    requires |fields| > 0 && fields[0] == |fields| + 2 && base + |fields| + 2 <= |was| == |after|
    requires var before, place := Placed(was, base, fields), base + |fields|;
             && after[..place] == before[..place] && after[place + 2..] == before[place + 2..]
             && ToBits(after[place], 8) + ToBits(after[place + 1], 8) == Crc16(before[base..place])
    ensures after[base..base + |fields|] == fields && after[..base] == was[..base]
    ensures after[base + |fields| + 2..] == was[base + |fields| + 2..]
    ensures Intact(after[base..base + |fields| + 2])
  {
    hide ToBits, Crc16, Intact;
    var before, place, packet := Placed(was, base, fields), base + |fields|, after[base..base + |fields| + 2];
    assert before[base..place] == fields == before[..place][base..];
    assert after[..place][base..] == after[base..place] && after[..place][..base] == after[..base];
    assert before[..place][..base] == was[..base];
    assert before[place + 2..] == was[place + 2..];
    assert packet[..|fields|] == after[base..place] == fields;
    IntactIs(packet, fields);
  }

  lemma IntactIs(packet: seq<uint8>, fields: seq<uint8>)
    requires |fields| > 0 && |packet| == |fields| + 2 == fields[0] && packet[..|fields|] == fields
    requires ToBits(packet[|fields|], 8) + ToBits(packet[|fields| + 1], 8) == Crc16(fields)
    ensures Intact(packet)
  {
    hide ToBits, Crc16;
    assert packet[0] == packet[..|fields|][0];
  }

  lemma ChecksumBytes(c: nat)
    requires c < 0x1_0000
    ensures ToBits(LowerByte(c), 8) + ToBits(UpperByte(c), 8) == ToBits(c, 16)
  {
    hide ToBits;
    BitsOfTwoBytes(LowerByte(c), UpperByte(c));
  }

  // ---------------------------------------------------------------- the after-wake block

  /** One step on numbers: a shift, and the three low terms of the polynomial when the bit that
      falls out differs from the data bit. */
  function NextRegister(reg: nat, bit: bool): nat {
    var v: nat := if reg >= 0x8000 then 2 * (reg - 0x8000) else 2 * reg;
    if bit == (reg >= 0x8000) then v
    else if v / 4 % 2 == 0 then Flipped(v + 5) else Flipped(v - 3)
  }

  /** The highest of sixteen bits inverted. */
  function Flipped(v: int): nat {
    if v < 0 then 0 else if v < 0x8000 then v + 0x8000 else v - 0x8000
  }

  lemma StepIs(reg: nat, bit: bool)
    requires reg < 0x1_0000
    ensures Shift(ToBits(reg, 16), bit) == ToBits(NextRegister(reg, bit), 16)
  {
    hide ToBits, Shift, Xor, Flipped;
    RegisterOfShift(reg, bit);
    var v := DoubledIn16(reg);
    XorPolynomial(v);
  }

  lemma DoubledIn16(reg: nat) returns (v: nat)
    requires reg < 0x1_0000
    ensures reg / 0x8000 == 1 <==> reg >= 0x8000
    ensures v == if reg >= 0x8000 then 2 * (reg - 0x8000) else 2 * reg
    ensures reg * 2 % 0x1_0000 == v && v % 2 == 0 && v < 0x1_0000
  {
    v := if reg >= 0x8000 then 2 * (reg - 0x8000) else 2 * reg;
  }

  lemma XorPolynomial(v: nat)
    requires v < 0x1_0000 && v % 2 == 0
    ensures Xor(v, 0x8005, 16) == if v / 4 % 2 == 0 then Flipped(v + 5) else Flipped(v - 3)
  {
    hide *;
    XorLowBits(v, v / 2, v / 4);
    Quarters(v);
    XorTop(v / 8);
    Assemble(v / 8, v / 4 % 2, v / 2 % 2);
  }

  lemma XorLowBits(v: nat, h: nat, q: nat)
    ensures Xor(v, 0x8005, 16) == 2 * Xor(v / 2, 0x4002, 15) + 1 - v % 2
    ensures Xor(h, 0x4002, 15) == 2 * Xor(h / 2, 0x2001, 14) + h % 2
    ensures Xor(q, 0x2001, 14) == 2 * Xor(q / 2, 0x1000, 13) + 1 - q % 2
  {
    hide *;
    XorOdd(v, 0x4002, 15);
    XorEven(h, 0x2001, 14);
    XorOdd(q, 0x1000, 13);
  }

  lemma XorOdd(a: nat, c: nat, n: nat)
    ensures Xor(a, 2 * c + 1, n + 1) == 2 * Xor(a / 2, c, n) + 1 - a % 2
  {
    hide Xor;
    XorUnfold(a, 2 * c + 1, n + 1);
    assert (2 * c + 1) / 2 == c;
  }

  lemma XorEven(a: nat, c: nat, n: nat)
    ensures Xor(a, 2 * c, n + 1) == 2 * Xor(a / 2, c, n) + a % 2
  {
    hide Xor;
    XorUnfold(a, 2 * c, n + 1);
    assert 2 * c / 2 == c;
  }

  lemma Assemble(u: nat, c: nat, b: nat)
    requires u < 0x2000 && c <= 1 && b <= 1
    ensures var v, t := 8 * u + 4 * c + 2 * b, if u < 0x1000 then u + 0x1000 else u - 0x1000;
            2 * (2 * (2 * t + 1 - c) + b) + 1 == if c == 0 then Flipped(v + 5) else Flipped(v - 3)
  {
  }

  lemma XorTop(u: nat)
    requires u < 0x2000
    ensures Xor(u, 0x1000, 13) == if u < 0x1000 then u + 0x1000 else u - 0x1000
  {
    PowersOf2();
    assert Pow2(13) == 2 * Pow2(12);
    hide Xor, Pow2;
    XorPower(u, 12);
  }

  lemma Quarters(v: nat)
    requires v < 0x1_0000 && v % 2 == 0
    ensures v / 2 / 2 == v / 4 && v / 4 / 2 == v / 8 && v / 8 < 0x2000
    ensures v == 2 * (v / 2) && v / 2 == 2 * (v / 4) + v / 2 % 2 && v / 4 == 2 * (v / 8) + v / 4 % 2
  {
  }

  /** Exclusive or with one power of two. */
  lemma {:induction false} XorPower(u: nat, n: nat)
    requires u < Pow2(n + 1)
    ensures Xor(u, Pow2(n), n + 1) == if u < Pow2(n) then u + Pow2(n) else u - Pow2(n)
  {
    if n > 0 {
      var p := Pow2(n - 1);
      assert Pow2(n) == 2 * p && Pow2(n + 1) == 4 * p;
      hide Pow2, Xor;
      XorPower(u / 2, n - 1);
      XorUnfold(u, 2 * p, n + 1);
      HalfOf(u, p);
    }
  }

  lemma HalfOf(u: nat, p: nat)
    requires p > 0
    ensures u == 2 * (u / 2) + u % 2 && (u / 2 < p <==> u < 2 * p) && 2 * p / 2 == p && 2 * p % 2 == 0
  {
  }

  lemma FeedBit(reg: nat, bits: seq<bool>)
    requires reg < 0x1_0000 && bits != []
    ensures NextRegister(reg, bits[0]) < 0x1_0000
    ensures Feed(ToBits(reg, 16), bits) == Feed(ToBits(NextRegister(reg, bits[0]), 16), bits[1..])
  {
    NextFits(reg, bits[0]);
    hide ToBits, Shift, NextRegister;
    StepIs(reg, bits[0]);
  }

  lemma NextFits(reg: nat, bit: bool)
    requires reg < 0x1_0000
    ensures NextRegister(reg, bit) < 0x1_0000
  {
  }

  /** Eight steps. */
  lemma FeedEight(a: nat, x: seq<bool>)
    requires a < 0x1_0000 && |x| == 8
    ensures var e := NextRegister(NextRegister(NextRegister(NextRegister(a, x[0]), x[1]), x[2]), x[3]);
            Feed(ToBits(a, 16), x) ==
            ToBits(NextRegister(NextRegister(NextRegister(NextRegister(e, x[4]), x[5]), x[6]), x[7]), 16)
  {
    hide *;
    var e := FeedFour(a, x);
    var i := FeedFour(e, x[4..]);
    NothingFed(ToBits(i, 16), x[4..][4..]);
  }

  lemma FeedFour(a: nat, x: seq<bool>) returns (e: nat)
    requires a < 0x1_0000 && |x| >= 4
    ensures e == NextRegister(NextRegister(NextRegister(NextRegister(a, x[0]), x[1]), x[2]), x[3]) && e < 0x1_0000
    ensures Feed(ToBits(a, 16), x) == Feed(ToBits(e, 16), x[4..])
  {
    hide *;
    var b := NextRegister(a, x[0]);
    var c := NextRegister(b, x[1]);
    var d := NextRegister(c, x[2]);
    e := NextRegister(d, x[3]);
    FeedBit(a, x);
    FeedBit(b, x[1..]);
    FeedBit(c, x[2..]);
    FeedBit(d, x[3..]);
    assert x[1..][1..] == x[2..] && x[2..][1..] == x[3..] && x[3..][1..] == x[4..];
  }

  lemma NothingFed(reg: seq<bool>, x: seq<bool>)
    requires |reg| == 16 && x == []
    ensures Feed(reg, x) == reg
  {
  }

  lemma FirstByte()
    ensures Feed(ToBits(0x0, 16), ToBits(0x04, 8)) == ToBits(0x80c3, 16)
  {
    hide Feed, ToBits;
    FeedEight(0x0, ToBits(0x04, 8));
    BlockBits();
    FirstByteRegisters();
    hide NextRegister;
  }

  lemma FirstByteRegisters()
    ensures NextRegister(0x0, false) == 0x0
    ensures NextRegister(0x0, false) == 0x0
    ensures NextRegister(0x0, true) == 0x8005
    ensures NextRegister(0x8005, false) == 0x800f
    ensures NextRegister(0x800f, false) == 0x801b
    ensures NextRegister(0x801b, false) == 0x8033
    ensures NextRegister(0x8033, false) == 0x8063
    ensures NextRegister(0x8063, false) == 0x80c3
  {
  }

  lemma SecondByte()
    ensures Feed(ToBits(0x80c3, 16), ToBits(0x11, 8)) == ToBits(0x4333, 16)
  {
    hide Feed, ToBits;
    FeedEight(0x80c3, ToBits(0x11, 8));
    BlockBits();
    SecondByteRegisters();
    hide NextRegister;
  }

  lemma SecondByteRegisters()
    ensures NextRegister(0x80c3, true) == 0x186
    ensures NextRegister(0x186, false) == 0x30c
    ensures NextRegister(0x30c, false) == 0x618
    ensures NextRegister(0x618, false) == 0xc30
    ensures NextRegister(0xc30, true) == 0x9865
    ensures NextRegister(0x9865, false) == 0xb0cf
    ensures NextRegister(0xb0cf, false) == 0xe19b
    ensures NextRegister(0xe19b, false) == 0x4333
  {
  }

  /** The bits of a byte, lowest first. */
  lemma BitsOfByte(v: uint8)
    ensures ToBits(v, 8) == [v % 2 == 1, v / 2 % 2 == 1, v / 4 % 2 == 1, v / 8 % 2 == 1,
                             v / 16 % 2 == 1, v / 32 % 2 == 1, v / 64 % 2 == 1, v / 128 % 2 == 1]
  {
    hide ToBits, Pow2;
    SmallPowers();
    forall k | 0 <= k < 8
      ensures ToBits(v, 8)[k] == (v / Pow2(k) % 2 == 1)
    {
      BitAt(v, 8, k);
    }
  }

  lemma SmallPowers()
    ensures Pow2(0) == 1 && Pow2(1) == 2 && Pow2(2) == 4 && Pow2(3) == 8
    ensures Pow2(4) == 16 && Pow2(5) == 32 && Pow2(6) == 64 && Pow2(7) == 128
  {
    assert Pow2(4) == 16;
  }

  lemma BlockBits()
    ensures ToBits(0x04, 8) == [false, false, true, false, false, false, false, false]
    ensures ToBits(0x11, 8) == [true, false, false, false, true, false, false, false]
  {
    hide ToBits;
    BitsOfByte(0x04);
    BitsOfByte(0x11);
  }

  lemma TwoBytes(x: uint8, y: uint8)
    ensures AllBits([x, y]) == ToBits(x, 8) + ToBits(y, 8)
  {
    hide ToBits;
    assert [x, y][..1] == [x] && [x][..0] == [];
  }

  /** The block that the device sends after waking, as the driver expects it: count, status 0x11, and
      the CRC of the two. */
  lemma AfterWake()
    ensures Crc16([0x04, 0x11]) == ToBits(0x33, 8) + ToBits(0x43, 8)
    ensures Intact([0x04, 0x11, 0x33, 0x43])
  {
    BlockCrc();
    hide Crc16, ToBits;
    assert [0x04, 0x11, 0x33, 0x43][..2] == [0x04, 0x11];
    IntactIs([0x04, 0x11, 0x33, 0x43], [0x04, 0x11]);
  }

  lemma BlockCrc()
    ensures Crc16([0x04, 0x11]) == ToBits(0x33, 8) + ToBits(0x43, 8)
  {
    hide Feed, ToBits, AllBits, Falses;
    ZeroBits(16);
    TwoBytes(0x04, 0x11);
    FirstByte();
    SecondByte();
    FeedAppend(Falses(16), ToBits(0x04, 8), ToBits(0x11, 8));
    BitsOfTwoBytes(0x33, 0x43);
  }

  // ---------------------------------------------------------------- error detection

  /** The bits of a response up to and including its checksum. */
  function Covered(response: seq<uint8>): seq<bool>
    requires |response| > 0 && CrcPosition(response) + 2 <= |response|
  {
    AllBits(response[..CrcPosition(response) + 2])
  }

  lemma CoveredParts(response: seq<uint8>)
    requires |response| > 0 && CrcPosition(response) + 2 <= |response|
    ensures var n := CrcPosition(response);
            Covered(response) == AllBits(response[..n]) + (ToBits(response[n], 8) + ToBits(response[n + 1], 8))
  {
    hide ToBits;
    var n := CrcPosition(response);
    MoreBits(response, n);
    MoreBits(response, n + 1);
  }

  /** An intact response has an even number of set bits. */
  lemma IntactIsEven(response: seq<uint8>)
    requires Intact(response)
    ensures !Odd(Covered(response))
  {
    hide ToBits, Crc16, Odd;
    var n := CrcPosition(response);
    CoveredParts(response);
    OddAppend(AllBits(response[..n]), ToBits(response[n], 8) + ToBits(response[n + 1], 8));
    CrcParity(response[..n]);
  }

  /** No corruption of an odd number of bits outside the count byte goes unnoticed. */
  lemma OddCorruptionIsRejected(sent: seq<uint8>, received: seq<uint8>)
    requires Intact(sent) && |received| == |sent| && received[0] == sent[0]
    requires Odd(XorBits(Covered(sent), Covered(received)))
    ensures !Intact(received)
  {
    hide ToBits, AllBits, Crc16, Odd;
    IntactIsEven(sent);
    OddXor(Covered(sent), Covered(received));
    if Intact(received) {
      IntactIsEven(received);
    }
  }

  /** No corruption confined to at most sixteen consecutive data bits goes unnoticed. */
  lemma BurstIsRejected(sent: seq<uint8>, received: seq<uint8>, a: nat, burst: seq<bool>, b: nat)
    requires Intact(sent) && |received| == |sent| && received[0] == sent[0]
    requires var n := CrcPosition(sent);
             && received[n..] == sent[n..]
             && XorBits(AllBits(sent[..n]), AllBits(received[..n])) == Falses(a) + burst + Falses(b)
    requires |burst| <= 16 && burst != Falses(|burst|)
    ensures !Intact(received)
  {
    hide ToBits, AllBits, Feed, Shift;
    var n := CrcPosition(sent);
    var x, y := AllBits(sent[..n]), AllBits(received[..n]);
    BurstIsSeen(a, burst, b);
    FeedLinear(Falses(16), Falses(16), x, y);
    assert XorBits(Falses(16), Falses(16)) == Falses(16);
    assert received[n] == received[n..][0] && received[n + 1] == received[n..][1];
    DifferentRegisters(Feed(Falses(16), x), Feed(Falses(16), y));
  }

  lemma DifferentRegisters(x: seq<bool>, y: seq<bool>)
    requires |x| == |y| == 16
    ensures XorBits(x, y) == Falses(16) <==> x == y
  {
    if XorBits(x, y) == Falses(16) {
      forall i | 0 <= i < 16
        ensures x[i] == y[i]
      {
        assert !XorBits(x, y)[i];
      }
    }
  }
}
