/** RFC 6455, section 5: the framing of the WebSocket protocol, as a reader of the standard would
    parse it. */
module Rfc6455 {
  import opened Bytes
  import BinaryDigits

  /** Exclusive or of two bytes. */
  function Xor(a: uint8, b: uint8): uint8 {
    EightBits();
    BinaryDigits.Xor(a, b, 8)
  }

  lemma EightBits()
    ensures BinaryDigits.Pow2(8) == 0x100
  {
    assert BinaryDigits.Pow2(4) == 16;
  }

  lemma XorTwice(a: uint8, b: uint8)
    ensures Xor(Xor(a, b), b) == a
  {
    EightBits();
    BinaryDigits.XorTwice(a, b, 8);
  }

  /** Section 5.3: octet i of the data is combined with octet i mod 4 of the key; the same
      function masks and unmasks. */
  function Mask(key: seq<uint8>, data: seq<uint8>): (r: seq<uint8>)
    requires |key| == 4
    ensures |r| == |data|
  {
    seq(|data|, i requires 0 <= i < |data| => Xor(data[i], key[i % 4]))
  }

  lemma MaskTwice(key: seq<uint8>, data: seq<uint8>)
    requires |key| == 4
    ensures Mask(key, Mask(key, data)) == data
  {
    hide Xor;
    forall i | 0 <= i < |data|
      ensures Mask(key, Mask(key, data))[i] == data[i]
    {
      XorTwice(data[i], key[i % 4]);
    }
  }

  /** A frame; payload is the application data after unmasking. */
  datatype Frame = Frame(fin: bool, opcode: nat, masked: bool, payload: seq<uint8>)

  datatype Parsed = Parsed(frame: Frame, headerSize: nat, rest: seq<uint8>) | Incomplete

  /** The two length forms that follow the values 126 and 127 of the 7-bit length. */
  function LengthSize(len7: nat): nat {
    if len7 == 126 then 2 else if len7 == 127 then 8 else 0
  }

  function PayloadLength(len7: nat, s: seq<uint8>): nat
    requires LengthSize(len7) <= |s|
  {
    if len7 <= 125 then len7 else Value(s[..LengthSize(len7)])
  }

  /** Section 5.2: the frame at the start of a byte stream. */
  function ParseFrame(s: seq<uint8>): Parsed {
    if |s| < 2 then Incomplete
    else
      var len7, masked := s[1] % 0x80, s[1] >= 0x80;
      var n := LengthSize(len7);
      var h := 2 + n + if masked then 4 else 0;
      if |s| < h then Incomplete
      else
        var length := PayloadLength(len7, s[2..]);
        if |s| < h + length then Incomplete
        else
          var data := s[h..h + length];
          Parsed(Frame(s[0] >= 0x80, s[0] % 0x10, masked, if masked then Mask(s[h - 4..h], data) else data),
                 h, s[h + length..])
  }

  /** Section 5.3, bit by bit: octet i of a masked payload is octet i of what was sent, with the bits
      inverted where octet i mod 4 of the key has ones. */
  lemma PayloadBits(s: seq<uint8>, i: nat)
    requires var p := ParseFrame(s); p.Parsed? && p.frame.masked && i < |p.frame.payload|
    ensures var p := ParseFrame(s); var h := p.headerSize;
            && 4 <= h && h + i < |s|
            && BinaryDigits.ToBits(p.frame.payload[i], 8) ==
               BinaryDigits.XorBits(BinaryDigits.ToBits(s[h + i], 8), BinaryDigits.ToBits(s[h - 4 + i % 4], 8))
  {
    hide BinaryDigits.ToBits, BinaryDigits.XorBits, Xor;
    var h := ParseFrame(s).headerSize;
    BitsOfXor(s[h + i], s[h - 4 + i % 4]);
  }

  lemma BitsOfXor(a: uint8, b: uint8)
    ensures BinaryDigits.ToBits(Xor(a, b), 8) ==
            BinaryDigits.XorBits(BinaryDigits.ToBits(a, 8), BinaryDigits.ToBits(b, 8))
  {
    BinaryDigits.BitsOfXor(a, b, 8);
    hide BinaryDigits.ToBits, BinaryDigits.XorBits;
  }

  /** Section 5.2: the minimal number of bytes must be used for the length. */
  function LengthField(n: nat): seq<uint8> {
    if n <= 125 then [n]
    else if n <= 0xFFFF then [126] + BigEndian(n, 2)
    else [127] + BigEndian(n, 8)
  }

  /** An unmasked frame, as a server sends it. */
  function ServerFrame(opcode: nat, payload: seq<uint8>): seq<uint8>
    requires opcode < 0x10
  {
    [0x80 + opcode] + LengthField(|payload|) + payload
  }

  /** A masked frame, as a client sends it. */
  function ClientFrame(opcode: nat, key: seq<uint8>, payload: seq<uint8>): seq<uint8>
    requires opcode < 0x10 && |key| == 4
  {
    var length := LengthField(|payload|);
    [0x80 + opcode] + [0x80 + length[0]] + length[1..] + key + Mask(key, payload)
  }

  lemma LengthFieldParses(n: nat, rest: seq<uint8>)
    requires n < Pow256(8)
    ensures var f := LengthField(n);
            && |f| >= 1 && f[0] < 0x80 && |f| == 1 + LengthSize(f[0])
            && PayloadLength(f[0], f[1..] + rest) == n
  {
    var f := LengthField(n);
    if n > 125 {
      var w := if n <= 0xFFFF then 2 else 8;
      assert n < Pow256(w) by { assert Pow256(1) == 0x100; }
      ValueOfBigEndian(n, w);
      assert f[1..] == BigEndian(n, w);
      assert (f[1..] + rest)[..w] == BigEndian(n, w);
    }
  }

  lemma ServerFrameParses(opcode: nat, payload: seq<uint8>, rest: seq<uint8>)
    requires opcode < 0x10 && |payload| < Pow256(8)
    ensures var r := ParseFrame(ServerFrame(opcode, payload) + rest);
            r.Parsed? && r.frame == Frame(true, opcode, false, payload) && r.rest == rest
  {
    hide *;
    var f := LengthField(|payload|);
    LengthFieldParses(|payload|, payload + rest);
    var s := ServerFrame(opcode, payload) + rest;
    ServerFrameIs(opcode, payload);
    FrameSlices(0x80 + opcode, f, [], payload, rest);
    assert [] + payload + rest == payload + rest;
    ParseStep(s, LengthSize(f[0]), |payload|);
  }

  lemma ServerFrameIs(opcode: nat, payload: seq<uint8>)
    requires opcode < 0x10
    ensures var f := LengthField(|payload|);
            |f| > 0 && ServerFrame(opcode, payload) == [0x80 + opcode, f[0]] + f[1..] + [] + payload
  {
    hide BigEndian;
  }

  lemma ClientFrameIs(opcode: nat, key: seq<uint8>, payload: seq<uint8>)
    requires opcode < 0x10 && |key| == 4
    ensures var f := LengthField(|payload|);
            |f| > 0 && f[0] < 0x80
            && ClientFrame(opcode, key, payload) == [0x80 + opcode, 0x80 + f[0]] + f[1..] + key + Mask(key, payload)
  {
    hide BigEndian, Mask;
  }

  /** The parts of a frame with length field f. */
  lemma FrameSlices(first: uint8, f: seq<uint8>, key: seq<uint8>, data: seq<uint8>, rest: seq<uint8>)
    requires |f| > 0
    ensures var h := |f| + 1 + |key|;
            forall second: uint8 :: var s := [first, second] + f[1..] + key + data + rest;
              && |s| == h + |data| + |rest| && s[0] == first && s[1] == second
              && s[2..] == f[1..] + (key + data + rest) && s[h - |key|..h] == key
              && s[h..h + |data|] == data && s[h + |data|..] == rest
  {
  }

  /** Reading a complete frame. */
  lemma ParseStep(s: seq<uint8>, n: nat, length: nat)
    requires |s| >= 2 && n == LengthSize(s[1] % 0x80)
    requires var h := 2 + n + if s[1] >= 0x80 then 4 else 0;
             |s| >= h + length && length == PayloadLength(s[1] % 0x80, s[2..])
    ensures var h := 2 + n + if s[1] >= 0x80 then 4 else 0;
            var data := s[h..h + length];
            ParseFrame(s) == Parsed(Frame(s[0] >= 0x80, s[0] % 0x10, s[1] >= 0x80,
                                          if s[1] >= 0x80 then Mask(s[h - 4..h], data) else data),
                                    h, s[h + length..])
  {
    hide PayloadLength, LengthSize, Mask;
  }

  lemma ClientFrameParses(opcode: nat, key: seq<uint8>, payload: seq<uint8>, rest: seq<uint8>)
    requires opcode < 0x10 && |key| == 4 && |payload| < Pow256(8)
    ensures var r := ParseFrame(ClientFrame(opcode, key, payload) + rest);
            && r.Parsed? && r.frame == Frame(true, opcode, true, payload) && r.rest == rest
            && r.headerSize == 5 + |LengthField(|payload|)|
  {
    hide *;
    var f := LengthField(|payload|);
    var data := Mask(key, payload);
    LengthFieldParses(|payload|, key + data + rest);
    MaskTwice(key, payload);
    ClientFrameIs(opcode, key, payload);
    var s := ClientFrame(opcode, key, payload) + rest;
    FrameSlices(0x80 + opcode, f, key, data, rest);
    ParseStep(s, LengthSize(f[0]), |payload|);
  }

  // ---------------------------------------------------------------- section 5.7

  const HELLO: seq<uint8> := [0x48, 0x65, 0x6c, 0x6c, 0x6f]

  lemma UnmaskedExample()
    ensures ParseFrame([0x81, 0x05, 0x48, 0x65, 0x6c, 0x6c, 0x6f]) == Parsed(Frame(true, 1, false, HELLO), 2, [])
  {
    hide ParseFrame, Mask;
    var s: seq<uint8> := [0x81, 0x05, 0x48, 0x65, 0x6c, 0x6c, 0x6f];
    ParseStep(s, 0, 5);
    assert s[2..2 + 5] == HELLO && s[2 + 5..] == [];
  }

  lemma MaskedExample()
    ensures ParseFrame([0x81, 0x85, 0x37, 0xfa, 0x21, 0x3d, 0x7f, 0x9f, 0x4d, 0x51, 0x58]) ==
            Parsed(Frame(true, 1, true, HELLO), 6, [])
  {
    hide ParseFrame, Mask;
    var s: seq<uint8> := [0x81, 0x85, 0x37, 0xfa, 0x21, 0x3d, 0x7f, 0x9f, 0x4d, 0x51, 0x58];
    ParseStep(s, 0, 5);
    assert s[2..6] == [0x37, 0xfa, 0x21, 0x3d] && s[6..11] == [0x7f, 0x9f, 0x4d, 0x51, 0x58] && s[11..] == [];
    HelloUnmasked();
  }

  lemma HelloUnmasked()
    ensures Mask([0x37, 0xfa, 0x21, 0x3d], [0x7f, 0x9f, 0x4d, 0x51, 0x58]) == HELLO
  {
    hide Xor;
    HelloOctets();
  }

  lemma HelloOctets()
    ensures Xor(0x7f, 0x37) == 0x48 && Xor(0x9f, 0xfa) == 0x65 && Xor(0x4d, 0x21) == 0x6c
    ensures Xor(0x51, 0x3d) == 0x6c && Xor(0x58, 0x37) == 0x6f
  {
  }

  /** A first fragment with "Hel", and the final one with "lo". */
  lemma FragmentExamples()
    ensures ParseFrame([0x01, 0x03, 0x48, 0x65, 0x6c]) == Parsed(Frame(false, 1, false, [0x48, 0x65, 0x6c]), 2, [])
    ensures ParseFrame([0x80, 0x02, 0x6c, 0x6f]) == Parsed(Frame(true, 0, false, [0x6c, 0x6f]), 2, [])
  {
    hide ParseFrame, Mask;
    var s: seq<uint8>, t: seq<uint8> := [0x01, 0x03, 0x48, 0x65, 0x6c], [0x80, 0x02, 0x6c, 0x6f];
    ParseStep(s, 0, 3);
    ParseStep(t, 0, 2);
    assert s[2..2 + 3] == [0x48, 0x65, 0x6c] && s[2 + 3..] == [];
    assert t[2..2 + 2] == [0x6c, 0x6f] && t[2 + 2..] == [];
  }

  /** 256 and 65536 bytes of binary data in one unmasked frame. */
  lemma LongExamples(payload: seq<uint8>)
    ensures |payload| == 256 ==> ServerFrame(2, payload) == [0x82, 0x7E, 0x01, 0x00] + payload
    ensures |payload| == 65536 ==>
              ServerFrame(2, payload) == [0x82, 0x7F, 0x00, 0x00, 0x00, 0x00, 0x00, 0x01, 0x00, 0x00] + payload
  {
    hide BigEndian;
    LongLengths();
  }

  lemma LongLengths()
    ensures BigEndian(256, 2) == [1, 0] && BigEndian(65536, 8) == [0, 0, 0, 0, 0, 1, 0, 0]
  {
    assert BigEndian(1, 1) == [1] && BigEndian(1, 6) == [0, 0, 0, 0, 0, 1];
    assert BigEndian(256, 7) == [0, 0, 0, 0, 0, 1, 0];
  }
}
