/** The example of section 1.3 of RFC 6455: the accept key of one request, worked out round by
    round over the two blocks that are hashed. */
module HandshakeExample {
  import opened Fips180
  import opened MessageSchedule
  import opened Bytes
  import opened Handshake
  import opened JsonText
  import Base64

  /** The words of the first block. */
  function FirstWord(t: nat): bv32 {
    if t < 8 then
      Entry(t, 0x6447686c, 0x49484e68, 0x62584273, 0x5a534275, 0x6232356a, 0x5a513d3d, 0x32353845, 0x41464135)
    else if t < 16 then
      Entry(t - 8, 0x2d453931, 0x342d3437, 0x44412d39, 0x3543412d, 0x43354142, 0x30444338, 0x35423131, 0x80000000)
    else if t < 24 then
      Entry(t - 16, 0x363ca02c, 0x24e81236, 0x8856b441, 0x06fb3c92, 0x6fb4bcb6, 0x460b16e3, 0x599219ae, 0x35bf9369)
    else if t < 32 then
      Entry(t - 24, 0x3267458e, 0xf828fd04, 0x753a96a7, 0x6336f612, 0xc3d66383, 0x06eb86f9, 0x73b4fd42, 0xa503c5b8)
    else if t < 40 then
      Entry(t - 32, 0x15cdae35, 0x531e5dc5, 0x6fb6b7d0, 0x6c16e4ac, 0x4ddd36bd, 0x35d36946, 0xe8ae8b9c, 0x4a933ad0)
    else if t < 48 then
      Entry(t - 40, 0xce8628b4, 0x415dba9e, 0x2792f049, 0x8e9b79e7, 0x79c425c5, 0x6353b49d, 0x00994218, 0x8a950ed1)
    else if t < 56 then
      Entry(t - 48, 0xaf5d0b99, 0xfd9883de, 0x1ed8ffeb, 0xf007ff28, 0x425e3674, 0x059631c0, 0xad6c3c31, 0x860b71d7)
    else if t < 64 then
      Entry(t - 56, 0x87bfc548, 0x3e64f92d, 0x8d0ab761, 0x34e1ee35, 0x0acf5108, 0xc2b479da, 0x6c93370a, 0xf7935ba1)
    else if t < 72 then
      Entry(t - 64, 0xe91c91c1, 0xbed165a2, 0x4c3e4abe, 0x50d96238, 0xb6587dde, 0x1a2ee6e6, 0x2d335896, 0xf3495d0b)
    else
      Entry(t - 72, 0xf30e0a1d, 0x32ce5459, 0x7165e3b8, 0xab05ff94, 0xc5949f0b, 0xbcd84e4a, 0x07720392, 0xff3ff806)
  }

  /** A before round t - 4 of the first block; the first entries come from the initial B to E. */
  function FirstA(t: nat): bv32 {
    if t < 8 then
      Entry(t, 0x0f4b87c3, 0x40c951d8, 0x62eb73fa, 0xefcdab89, 0x67452301, 0x03fc011f, 0x2f793f55, 0xbe90ee8f)
    else if t < 16 then
      Entry(t - 8, 0x53e039ac, 0xdd8c7c12, 0x7320b969, 0x73553e84, 0x2e0ce601, 0x32beb05a, 0xfaad2675, 0x5ff4238c)
    else if t < 24 then
      Entry(t - 16, 0x34ceb986, 0x61bdb2bf, 0xae1a096e, 0xe922cc9d, 0xa004c468, 0xd7daf575, 0x7ebb296b, 0x8dc510b6)
    else if t < 32 then
      Entry(t - 24, 0x091ab97c, 0x518470a3, 0xd12f0b56, 0xbeafd554, 0x250e26ef, 0x23d1c91b, 0x748b39a0, 0xef012f20)
    else if t < 40 then
      Entry(t - 32, 0x571f7d82, 0x1abb1c37, 0x081b63e5, 0xb7dabc8b, 0xa6680a1f, 0x1ae360a9, 0xeeaba35a, 0x149bb4d3)
    else if t < 48 then
      Entry(t - 40, 0x9de793c8, 0x4ccd2227, 0x68760824, 0xd0869081, 0x2ba2c83e, 0xcb8c52d0, 0x4f589a44, 0x868829b7)
    else if t < 56 then
      Entry(t - 48, 0x6dc6a3d7, 0x5f5f3452, 0x72ff334d, 0xdee4b7a8, 0xabe1748a, 0x7510d04f, 0x065f8486, 0x0e5d77c4)
    else if t < 64 then
      Entry(t - 56, 0x10e7f671, 0x26c69395, 0x4c608ac4, 0x50c9104c, 0x7e1242f2, 0x6ef6fef4, 0x0c247c2e, 0xd284f163)
    else if t < 72 then
      Entry(t - 64, 0x4872d85a, 0xcd4200b8, 0x90f00d8f, 0x840054d3, 0x685e2ff6, 0xa4cee018, 0xc3c2e45b, 0x53131a40)
    else if t < 80 then
      Entry(t - 72, 0xcf8658ec, 0x966e049a, 0x07381b7e, 0x80d59773, 0x7e65e044, 0x628e7b47, 0x143a8388, 0xe20983f9)
    else
      Entry(t - 80, 0x69cf0bca, 0x29171009, 0x97047bec, 0x835995e1, 0xf48a5426, 0x00000000, 0x00000000, 0x00000000)
  }

  predicate FirstWordStep(t: nat) {
    Mixed(FirstWord(t + 16), FirstWord(t + 13), FirstWord(t + 8), FirstWord(t + 2), FirstWord(t))
  }

  predicate FirstRoundStep(t: nat) {
    Turned(t, FirstWord(t), FirstA(t + 5), FirstA(t + 4), FirstA(t + 3), FirstA(t + 2), FirstA(t + 1), FirstA(t))
  }

  lemma FirstWords0()
    ensures Eight(FirstWordStep, 0)
  {
  }

  lemma FirstWords8()
    ensures Eight(FirstWordStep, 8)
  {
  }

  lemma FirstWords16()
    ensures Eight(FirstWordStep, 16)
  {
  }

  lemma FirstWords24()
    ensures Eight(FirstWordStep, 24)
  {
  }

  lemma FirstWords32()
    ensures Eight(FirstWordStep, 32)
  {
  }

  lemma FirstWords40()
    ensures Eight(FirstWordStep, 40)
  {
  }

  lemma FirstWords48()
    ensures Eight(FirstWordStep, 48)
  {
  }

  lemma FirstWords56()
    ensures Eight(FirstWordStep, 56)
  {
  }

  lemma FirstRounds0()
    ensures Eight(FirstRoundStep, 0)
  {
  }

  lemma FirstRounds8()
    ensures Eight(FirstRoundStep, 8)
  {
  }

  lemma FirstRounds16()
    ensures Eight(FirstRoundStep, 16)
  {
  }

  lemma FirstRounds24()
    ensures Eight(FirstRoundStep, 24)
  {
  }

  lemma FirstRounds32()
    ensures Eight(FirstRoundStep, 32)
  {
  }

  lemma FirstRounds40()
    ensures Eight(FirstRoundStep, 40)
  {
  }

  lemma FirstRounds48()
    ensures Eight(FirstRoundStep, 48)
  {
  }

  lemma FirstRounds56()
    ensures Eight(FirstRoundStep, 56)
  {
  }

  lemma FirstRounds64()
    ensures Eight(FirstRoundStep, 64)
  {
  }

  lemma FirstRounds72()
    ensures Eight(FirstRoundStep, 72)
  {
  }

  lemma FirstAllWords(t: nat)
    requires t < 64
    ensures FirstWordStep(t)
  {
    hide *;
    FirstWords0(); FirstWords8(); FirstWords16(); FirstWords24();
    FirstWords32(); FirstWords40(); FirstWords48(); FirstWords56();
    InEight(FirstWordStep, t / 8, t);
  }

  lemma FirstAllRounds(t: nat)
    requires t < 80
    ensures FirstRoundStep(t)
  {
    hide *;
    FirstRounds0(); FirstRounds8(); FirstRounds16(); FirstRounds24();
    FirstRounds32(); FirstRounds40(); FirstRounds48(); FirstRounds56();
    FirstRounds64(); FirstRounds72();
    InEight(FirstRoundStep, t / 8, t);
  }

  lemma FirstFollows()
    ensures Follows(FirstWord, FirstA)
  {
    hide WordAt, RoundAt, FirstWordStep, FirstRoundStep;
    forall t: nat | t < 80
      ensures (t < 64 ==> WordAt(FirstWord, t)) && RoundAt(FirstWord, FirstA, t)
    {
      if t < 64 {
        FirstAllWords(t);
      }
      FirstAllRounds(t);
      FirstStep(t);
    }
  }

  lemma FirstStep(t: nat)
    ensures FirstWordStep(t) == WordAt(FirstWord, t) && FirstRoundStep(t) == RoundAt(FirstWord, FirstA, t)
  {
    hide FirstWord, FirstA, Mixed, Turned;
  }

  /** The words of the second block. */
  function SecondWord(t: nat): bv32 {
    if t < 8 then
      Entry(t, 0x00000000, 0x00000000, 0x00000000, 0x00000000, 0x00000000, 0x00000000, 0x00000000, 0x00000000)
    else if t < 16 then
      Entry(t - 8, 0x00000000, 0x00000000, 0x00000000, 0x00000000, 0x00000000, 0x00000000, 0x00000000, 0x000001e0)
    else if t < 24 then
      Entry(t - 16, 0x00000000, 0x00000000, 0x000003c0, 0x00000000, 0x00000000, 0x00000780, 0x00000000, 0x000003c0)
    else if t < 32 then
      Entry(t - 24, 0x00000f00, 0x00000000, 0x00000000, 0x00001e00, 0x00000000, 0x00000cc0, 0x00003c00, 0x00000440)
    else if t < 40 then
      Entry(t - 32, 0x00000000, 0x00007800, 0x00000f00, 0x00003300, 0x0000f000, 0x00000f00, 0x00000000, 0x0001ef00)
    else if t < 48 then
      Entry(t - 40, 0x00000000, 0x0000cc00, 0x0003c000, 0x00004380, 0x00000000, 0x00078f00, 0x0000ff00, 0x00032680)
    else if t < 56 then
      Entry(t - 48, 0x000f0000, 0x0000f000, 0x00003300, 0x001eff00, 0x00000000, 0x000cb800, 0x003c0000, 0x00040b00)
    else if t < 64 then
      Entry(t - 56, 0x0000f000, 0x0078ff00, 0x000ff000, 0x00338700, 0x00f00000, 0x000fc300, 0x0000f000, 0x01efbb00)
    else if t < 72 then
      Entry(t - 64, 0x00000000, 0x00cc0000, 0x03c0f000, 0x00438000, 0x00000000, 0x078f0000, 0x00ff0000, 0x03269e00)
    else
      Entry(t - 72, 0x0f000000, 0x00f0f000, 0x00333c00, 0x1eff8800, 0x00000000, 0x0cb88800, 0x3c00f000, 0x040a4a00)
  }

  /** A before round t - 4 of the second block. */
  function SecondA(t: nat): bv32 {
    if t < 8 then
      Entry(t, 0x791a9389, 0x69e061e1, 0xf9efefe6, 0x7327416a, 0x5bcf7727, 0x6d335cde, 0x186006b8, 0xf9fb295d)
    else if t < 16 then
      Entry(t - 8, 0x15855523, 0xe43dd2f2, 0x93a5efbb, 0xb3bbcafe, 0x25c018be, 0x80946593, 0x0b0814c3, 0x4ce92417)
    else if t < 24 then
      Entry(t - 16, 0x250601ad, 0x6576d2dc, 0xad43f39e, 0x990b7be7, 0x986df268, 0x3ad7440e, 0x72198f06, 0x2f193a09)
    else if t < 32 then
      Entry(t - 24, 0x2a008b51, 0x12315b2b, 0x40fbcf98, 0x3e5179e7, 0x53c73650, 0x1d24c44a, 0x646c677d, 0xd2e726da)
    else if t < 40 then
      Entry(t - 32, 0x9327df6f, 0xf57cb53e, 0x243ee057, 0xf4ddd7b7, 0x3cf6eb58, 0x730e9170, 0x96d9e59e, 0x942ac4d3)
    else if t < 48 then
      Entry(t - 40, 0x76922a14, 0x7dbcf2ed, 0x796adef3, 0xc6ff0cd3, 0x6f698f1a, 0x78716769, 0xfc343a02, 0xedfcd85b)
    else if t < 56 then
      Entry(t - 48, 0x1e934acf, 0xfc7bd35f, 0x3bd9203b, 0xc8cda3da, 0xa3ef857e, 0xa39f2041, 0xa516f265, 0xa3abe4f5)
    else if t < 64 then
      Entry(t - 56, 0x5fe2a3db, 0x9e540637, 0x2c73bd78, 0x660dd0b1, 0xa1b68141, 0x05033fa3, 0x21289715, 0x085eb2fe)
    else if t < 72 then
      Entry(t - 64, 0x56119f19, 0x77489e23, 0x11132f8f, 0xd5ef1ed7, 0xa5937450, 0x9ecfa66c, 0x17a22ef7, 0xc97f1968)
    else if t < 80 then
      Entry(t - 72, 0x097a511c, 0x4e363db9, 0xbf3a7f95, 0xf6d1afee, 0xc90888ca, 0xc7652edb, 0x26f99990, 0xe22b36d1)
    else
      Entry(t - 80, 0x51e08021, 0xd3010335, 0x49e92837, 0x4d3b0dac, 0x57aad805, 0x00000000, 0x00000000, 0x00000000)
  }

  predicate SecondWordStep(t: nat) {
    Mixed(SecondWord(t + 16), SecondWord(t + 13), SecondWord(t + 8), SecondWord(t + 2), SecondWord(t))
  }

  predicate SecondRoundStep(t: nat) {
    Turned(t, SecondWord(t), SecondA(t + 5), SecondA(t + 4), SecondA(t + 3), SecondA(t + 2), SecondA(t + 1), SecondA(t))
  }

  lemma SecondWords0()
    ensures Eight(SecondWordStep, 0)
  {
  }

  lemma SecondWords8()
    ensures Eight(SecondWordStep, 8)
  {
  }

  lemma SecondWords16()
    ensures Eight(SecondWordStep, 16)
  {
  }

  lemma SecondWords24()
    ensures Eight(SecondWordStep, 24)
  {
  }

  lemma SecondWords32()
    ensures Eight(SecondWordStep, 32)
  {
  }

  lemma SecondWords40()
    ensures Eight(SecondWordStep, 40)
  {
  }

  lemma SecondWords48()
    ensures Eight(SecondWordStep, 48)
  {
  }

  lemma SecondWords56()
    ensures Eight(SecondWordStep, 56)
  {
  }

  lemma SecondRounds0()
    ensures Eight(SecondRoundStep, 0)
  {
  }

  lemma SecondRounds8()
    ensures Eight(SecondRoundStep, 8)
  {
  }

  lemma SecondRounds16()
    ensures Eight(SecondRoundStep, 16)
  {
  }

  lemma SecondRounds24()
    ensures Eight(SecondRoundStep, 24)
  {
  }

  lemma SecondRounds32()
    ensures Eight(SecondRoundStep, 32)
  {
  }

  lemma SecondRounds40()
    ensures Eight(SecondRoundStep, 40)
  {
  }

  lemma SecondRounds48()
    ensures Eight(SecondRoundStep, 48)
  {
  }

  lemma SecondRounds56()
    ensures Eight(SecondRoundStep, 56)
  {
  }

  lemma SecondRounds64()
    ensures Eight(SecondRoundStep, 64)
  {
  }

  lemma SecondRounds72()
    ensures Eight(SecondRoundStep, 72)
  {
  }

  lemma SecondAllWords(t: nat)
    requires t < 64
    ensures SecondWordStep(t)
  {
    hide *;
    SecondWords0(); SecondWords8(); SecondWords16(); SecondWords24();
    SecondWords32(); SecondWords40(); SecondWords48(); SecondWords56();
    InEight(SecondWordStep, t / 8, t);
  }

  lemma SecondAllRounds(t: nat)
    requires t < 80
    ensures SecondRoundStep(t)
  {
    hide *;
    SecondRounds0(); SecondRounds8(); SecondRounds16(); SecondRounds24();
    SecondRounds32(); SecondRounds40(); SecondRounds48(); SecondRounds56();
    SecondRounds64(); SecondRounds72();
    InEight(SecondRoundStep, t / 8, t);
  }

  lemma SecondFollows()
    ensures Follows(SecondWord, SecondA)
  {
    hide WordAt, RoundAt, SecondWordStep, SecondRoundStep;
    forall t: nat | t < 80
      ensures (t < 64 ==> WordAt(SecondWord, t)) && RoundAt(SecondWord, SecondA, t)
    {
      if t < 64 {
        SecondAllWords(t);
      }
      SecondAllRounds(t);
      SecondStep(t);
    }
  }

  lemma SecondStep(t: nat)
    ensures SecondWordStep(t) == WordAt(SecondWord, t) && SecondRoundStep(t) == RoundAt(SecondWord, SecondA, t)
  {
    hide SecondWord, SecondA, Mixed, Turned;
  }

  // ---------------------------------------------------------------- the two blocks

  const KEY := "dGhlIHNhbXBsZSBub25jZQ=="

  /** The key and the GUID behind it, in pieces. */
  function Piece(j: nat): (r: string)
    ensures |r| == 12
  {
    if j == 0 then "dGhlIHNhbXBs" else if j == 1 then "ZSBub25jZQ==" else if j == 2 then "258EAFA5-E91"
    else if j == 3 then "4-47DA-95CA-" else "C5AB0DC85B11"
  }

  lemma TextIs()
    ensures KEY + GUID == Piece(0) + Piece(1) + Piece(2) + Piece(3) + Piece(4)
  {
    KeyIs();
    GuidIs();
    hide Piece;
    var k, g := Piece(0) + Piece(1), Piece(2) + Piece(3) + Piece(4);
    assert k + g == k + Piece(2) + Piece(3) + Piece(4);
  }

  lemma KeyIs()
    ensures KEY == Piece(0) + Piece(1)
  {
  }

  lemma GuidIs()
    ensures GUID == Piece(2) + Piece(3) + Piece(4)
  {
  }

  function FourOctets(s: string, k: nat): bv32
    requires k + 4 <= |s|
  {
    BeWord(Octet(s[k]), Octet(s[k + 1]), Octet(s[k + 2]), Octet(s[k + 3]))
  }

  /** The fifteen words that the key and the GUID fill. */
  predicate PieceWords(j: nat) {
    && FourOctets(Piece(j), 0) == FirstWord(3 * j) && FourOctets(Piece(j), 4) == FirstWord(3 * j + 1)
    && FourOctets(Piece(j), 8) == FirstWord(3 * j + 2)
  }

  lemma Piece0Words()
    ensures PieceWords(0)
  {
    hide Octet, BeWord, FirstWord;
    Piece0Octets();
    Piece0Numbers();
  }

  lemma Piece0Octets()
    ensures Octet('d') == 0x64 && Octet('G') == 0x47 && Octet('h') == 0x68 && Octet('l') == 0x6c
    ensures Octet('I') == 0x49 && Octet('H') == 0x48 && Octet('N') == 0x4e && Octet('h') == 0x68
    ensures Octet('b') == 0x62 && Octet('X') == 0x58 && Octet('B') == 0x42 && Octet('s') == 0x73
  {
  }

  lemma Piece0Numbers()
    ensures BeWord(0x64, 0x47, 0x68, 0x6c) == FirstWord(0)
    ensures BeWord(0x49, 0x48, 0x4e, 0x68) == FirstWord(1)
    ensures BeWord(0x62, 0x58, 0x42, 0x73) == FirstWord(2)
  {
  }

  lemma Piece1Words()
    ensures PieceWords(1)
  {
    hide Octet, BeWord, FirstWord;
    Piece1Octets();
    Piece1Numbers();
  }

  lemma Piece1Octets()
    ensures Octet('Z') == 0x5a && Octet('S') == 0x53 && Octet('B') == 0x42 && Octet('u') == 0x75
    ensures Octet('b') == 0x62 && Octet('2') == 0x32 && Octet('5') == 0x35 && Octet('j') == 0x6a
    ensures Octet('Z') == 0x5a && Octet('Q') == 0x51 && Octet('=') == 0x3d && Octet('=') == 0x3d
  {
  }

  lemma Piece1Numbers()
    ensures BeWord(0x5a, 0x53, 0x42, 0x75) == FirstWord(3)
    ensures BeWord(0x62, 0x32, 0x35, 0x6a) == FirstWord(4)
    ensures BeWord(0x5a, 0x51, 0x3d, 0x3d) == FirstWord(5)
  {
  }

  lemma Piece2Words()
    ensures PieceWords(2)
  {
    hide Octet, BeWord, FirstWord;
    Piece2Octets();
    Piece2Numbers();
  }

  lemma Piece2Octets()
    ensures Octet('2') == 0x32 && Octet('5') == 0x35 && Octet('8') == 0x38 && Octet('E') == 0x45
    ensures Octet('A') == 0x41 && Octet('F') == 0x46 && Octet('A') == 0x41 && Octet('5') == 0x35
    ensures Octet('-') == 0x2d && Octet('E') == 0x45 && Octet('9') == 0x39 && Octet('1') == 0x31
  {
  }

  lemma Piece2Numbers()
    ensures BeWord(0x32, 0x35, 0x38, 0x45) == FirstWord(6)
    ensures BeWord(0x41, 0x46, 0x41, 0x35) == FirstWord(7)
    ensures BeWord(0x2d, 0x45, 0x39, 0x31) == FirstWord(8)
  {
  }

  lemma Piece3Words()
    ensures PieceWords(3)
  {
    hide Octet, BeWord, FirstWord;
    Piece3Octets();
    Piece3Numbers();
  }

  lemma Piece3Octets()
    ensures Octet('4') == 0x34 && Octet('-') == 0x2d && Octet('4') == 0x34 && Octet('7') == 0x37
    ensures Octet('D') == 0x44 && Octet('A') == 0x41 && Octet('-') == 0x2d && Octet('9') == 0x39
    ensures Octet('5') == 0x35 && Octet('C') == 0x43 && Octet('A') == 0x41 && Octet('-') == 0x2d
  {
  }

  lemma Piece3Numbers()
    ensures BeWord(0x34, 0x2d, 0x34, 0x37) == FirstWord(9)
    ensures BeWord(0x44, 0x41, 0x2d, 0x39) == FirstWord(10)
    ensures BeWord(0x35, 0x43, 0x41, 0x2d) == FirstWord(11)
  {
  }

  lemma Piece4Words()
    ensures PieceWords(4)
  {
    hide Octet, BeWord, FirstWord;
    Piece4Octets();
    Piece4Numbers();
  }

  lemma Piece4Octets()
    ensures Octet('C') == 0x43 && Octet('5') == 0x35 && Octet('A') == 0x41 && Octet('B') == 0x42
    ensures Octet('0') == 0x30 && Octet('D') == 0x44 && Octet('C') == 0x43 && Octet('8') == 0x38
    ensures Octet('5') == 0x35 && Octet('B') == 0x42 && Octet('1') == 0x31 && Octet('1') == 0x31
  {
  }

  lemma Piece4Numbers()
    ensures BeWord(0x43, 0x35, 0x41, 0x42) == FirstWord(12)
    ensures BeWord(0x30, 0x44, 0x43, 0x38) == FirstWord(13)
    ensures BeWord(0x35, 0x42, 0x31, 0x31) == FirstWord(14)
  {
  }

  lemma {:induction false} OctetsAt(s: string, i: nat)
    requires i < |s|
    ensures Octets(s)[i] == Octet(s[i])
  {
    if i < |s| - 1 {
      OctetsAt(s[..|s| - 1], i);
    }
  }

  lemma TextWord(i: nat)
    requires i < 15
    ensures |KEY + GUID| == 60 && FourOctets(KEY + GUID, 4 * i) == FirstWord(i)
  {
    hide *;
    TextIs();
    var j := i / 3;
    var k := i - 3 * j;
    SamePiece(Piece(0), Piece(1), Piece(2), Piece(3), Piece(4), j, 4 * k);
    PieceWord(j, k);
  }

  lemma PieceWord(j: nat, k: nat)
    requires j < 5 && k < 3
    ensures FourOctets(Piece(j), 4 * k) == FirstWord(3 * j + k)
  {
    AllPieces(j);
    hide *;
    InPiece(Piece(j), j, k);
  }

  lemma AllPieces(j: nat)
    requires j < 5
    ensures PieceWords(j)
  {
    hide *;
    if j == 0 {
      Piece0Words();
    } else if j == 1 {
      Piece1Words();
    } else if j == 2 {
      Piece2Words();
    } else if j == 3 {
      Piece3Words();
    } else {
      Piece4Words();
    }
  }

  lemma InPiece(x: string, j: nat, k: nat)
    requires x == Piece(j) && PieceWords(j) && k < 3
    ensures FourOctets(x, 4 * k) == FirstWord(3 * j + k)
  {
    hide Piece, FirstWord, FourOctets;
    assert k == 0 || k == 1 || k == 2;
  }

  lemma SamePiece(a: string, b: string, c: string, d: string, e: string, j: nat, k: nat)
    requires |a| == 12 && |b| == 12 && |c| == 12 && |d| == 12 && |e| == 12 && k + 4 <= 12 && j < 5
    ensures FourOctets(a + b + c + d + e, 12 * j + k) ==
            FourOctets(if j == 0 then a else if j == 1 then b else if j == 2 then c else if j == 3 then d else e, k)
  {
    hide Octet, BeWord;
  }

  /** The padded message: 60 octets of text, 0x80, zeros, and the length of 480 bits. */
  lemma TwoBlocks(m: seq<bv8>)
    requires |m| == 60
    ensures var p := Padded(m);
            && |p| == 128 && (forall i :: 0 <= i < 60 ==> p[i] == m[i]) && p[60] == 0x80
            && (forall i :: 61 <= i < 126 ==> p[i] == 0) && p[126] == 1 && p[127] == 0xe0
  {
    assert ZeroCount(60) == 59;
    ShortLength(480, 1, 0xe0);
    hide LengthField, LengthByte;
  }

  lemma FirstBlock(m: seq<bv8>, i: nat)
    requires m == Octets(KEY + GUID) && i < 16
    ensures |Padded(m)| == 128 && BlockWords(Padded(m)[..64])[i] == FirstWord(i)
  {
    hide Octets, Octet, BeWord, FirstWord, Padded;
    TextWord(0);
    TwoBlocks(m);
    if i < 15 {
      TextWord(i);
      OctetsAt(KEY + GUID, 4 * i);
      OctetsAt(KEY + GUID, 4 * i + 1);
      OctetsAt(KEY + GUID, 4 * i + 2);
      OctetsAt(KEY + GUID, 4 * i + 3);
    } else {
      EdgeWords();
    }
  }

  lemma EdgeWords()
    ensures FirstWord(15) == BeWord(0x80, 0, 0, 0) && SecondWord(15) == BeWord(0, 0, 1, 0xe0)
  {
  }

  lemma SecondBlock(m: seq<bv8>, i: nat)
    requires |m| == 60 && i < 16
    ensures |Padded(m)| == 128 && BlockWords(Padded(m)[64..])[i] == SecondWord(i)
  {
    hide BeWord, SecondWord, Padded;
    TwoBlocks(m);
    EdgeWords();
    ZeroWords(i);
  }

  lemma ZeroWords(i: nat)
    ensures i < 15 ==> SecondWord(i) == BeWord(0, 0, 0, 0)
  {
  }

  // ---------------------------------------------------------------- the digest

  const MIDDLE := Chain(0x5bcf7727, 0x7327416a, 0xbe7bfbf9, 0x5a781878, 0x5e46a4e2)
  const LAST := Chain(0xb37a4f2c, 0xc0624f16, 0x90f64606, 0xcf385945, 0xb2bec4ea)

  lemma FirstChain()
    ensures After(FirstA, 0) == IV && Add(IV, After(FirstA, 80)) == MIDDLE
  {
  }

  lemma SecondChain()
    ensures After(SecondA, 0) == MIDDLE && Add(MIDDLE, After(SecondA, 80)) == LAST
  {
  }

  lemma CompressFirst(m: seq<bv8>)
    requires m == Octets(KEY + GUID)
    ensures |Padded(m)| == 128 && Compress(IV, Padded(m)[..64]) == MIDDLE
  {
    hide Padded, BlockWords, Rounds, After, Add, Follows, FirstWord, FirstA, Octets;
    FirstBlock(m, 0);
    forall i | 0 <= i < 16
      ensures BlockWords(Padded(m)[..64])[i] == FirstWord(i)
    {
      FirstBlock(m, i);
    }
    FirstFollows();
    FirstChain();
    RoundsFollow(BlockWords(Padded(m)[..64]), FirstWord, FirstA, 80);
  }

  lemma CompressSecond(m: seq<bv8>)
    requires |m| == 60
    ensures |Padded(m)| == 128 && Compress(MIDDLE, Padded(m)[64..]) == LAST
  {
    hide Padded, BlockWords, Rounds, After, Add, Follows, SecondWord, SecondA;
    SecondBlock(m, 0);
    forall i | 0 <= i < 16
      ensures BlockWords(Padded(m)[64..])[i] == SecondWord(i)
    {
      SecondBlock(m, i);
    }
    SecondFollows();
    SecondChain();
    RoundsFollow(BlockWords(Padded(m)[64..]), SecondWord, SecondA, 80);
  }

  lemma LastBytes()
    ensures ChainBytes(LAST) == [0xb3, 0x7a, 0x4f, 0x2c, 0xc0, 0x62, 0x4f, 0x16, 0x90, 0xf6,
                                 0x46, 0x06, 0xcf, 0x38, 0x59, 0x45, 0xb2, 0xbe, 0xc4, 0xea]
  {
  }

  lemma DigestOfKey()
    ensures Digest(Octets(KEY + GUID)) == [0xb3, 0x7a, 0x4f, 0x2c, 0xc0, 0x62, 0x4f, 0x16, 0x90, 0xf6,
                                           0x46, 0x06, 0xcf, 0x38, 0x59, 0x45, 0xb2, 0xbe, 0xc4, 0xea]
  {
    hide Padded, Compress, ChainBytes, Hash, Octets;
    var m := Octets(KEY + GUID);
    TextWord(0);
    CompressFirst(m);
    CompressSecond(m);
    LastBytes();
    HashTwoBlocks(IV, Padded(m));
  }

  lemma HashTwoBlocks(s: Chain, p: seq<bv8>)
    requires |p| == 128
    ensures Hash(s, p) == Compress(Compress(s, p[..64]), p[64..])
  {
    hide Compress, Hash;
    HashStep(s, p);
    HashOneBlock(Compress(s, p[..64]), p[64..]);
  }

  // ---------------------------------------------------------------- the accept key

  /** The digest as numbers, in the groups that become four characters each. */
  const NUMBERS: seq<uint8> := [0xb3, 0x7a, 0x4f] + ([0x2c, 0xc0, 0x62] + ([0x4f, 0x16, 0x90] + NUMBERS_END))
  const NUMBERS_END: seq<uint8> := [0xf6, 0x46, 0x06] + ([0xcf, 0x38, 0x59] + ([0x45, 0xb2, 0xbe] + [0xc4, 0xea]))

  lemma {:induction false} NumbersAt(s: seq<bv8>, i: nat)
    requires i < |s|
    ensures Numbers(s)[i] == s[i] as int
  {
    if i < |s| - 1 {
      NumbersAt(s[..|s| - 1], i);
    }
  }

  lemma NumbersOf3(a: bv8, b: bv8, c: bv8, more: seq<bv8>)
    ensures Numbers([a, b, c] + more) == [a as int, b as int, c as int] + Numbers(more)
  {
    hide Numbers;
    var s := [a, b, c] + more;
    forall i | 0 <= i < |s|
      ensures Numbers(s)[i] == ([a as int, b as int, c as int] + Numbers(more))[i]
    {
      NumbersAt(s, i);
      if i >= 3 {
        NumbersAt(more, i - 3);
      }
    }
  }

  lemma NumbersOf2(a: bv8, b: bv8)
    ensures Numbers([a, b]) == [a as int, b as int]
  {
    NumbersAt([a, b], 0);
    NumbersAt([a, b], 1);
    hide Numbers;
  }

  const DIGEST: seq<bv8> :=
    [0xb3, 0x7a, 0x4f] + ([0x2c, 0xc0, 0x62] + ([0x4f, 0x16, 0x90] + DIGEST_END))
  const DIGEST_END: seq<bv8> :=
    [0xf6, 0x46, 0x06] + ([0xcf, 0x38, 0x59] + ([0x45, 0xb2, 0xbe] + [0xc4, 0xea]))

  lemma DigestInGroups()
    ensures [0xb3, 0x7a, 0x4f, 0x2c, 0xc0, 0x62, 0x4f, 0x16, 0x90, 0xf6,
             0x46, 0x06, 0xcf, 0x38, 0x59, 0x45, 0xb2, 0xbe, 0xc4, 0xea] == DIGEST
  {
  }

  lemma FirstNumbers()
    ensures Numbers(DIGEST) == [0xb3, 0x7a, 0x4f] + ([0x2c, 0xc0, 0x62] + ([0x4f, 0x16, 0x90] + Numbers(DIGEST_END)))
  {
    hide Numbers;
    NumbersOf3(0xb3, 0x7a, 0x4f, [0x2c, 0xc0, 0x62] + ([0x4f, 0x16, 0x90] + DIGEST_END));
    NumbersOf3(0x2c, 0xc0, 0x62, [0x4f, 0x16, 0x90] + DIGEST_END);
    NumbersOf3(0x4f, 0x16, 0x90, DIGEST_END);
  }

  lemma LastNumbers()
    ensures Numbers(DIGEST_END) == NUMBERS_END
  {
    hide Numbers;
    NumbersOf3(0xf6, 0x46, 0x06, [0xcf, 0x38, 0x59] + ([0x45, 0xb2, 0xbe] + [0xc4, 0xea]));
    NumbersOf3(0xcf, 0x38, 0x59, [0x45, 0xb2, 0xbe] + [0xc4, 0xea]);
    NumbersOf3(0x45, 0xb2, 0xbe, [0xc4, 0xea]);
    NumbersOf2(0xc4, 0xea);
  }

  lemma DigestNumbers()
    ensures Numbers(Digest(Octets(KEY + GUID))) == NUMBERS
  {
    hide Numbers, Digest, Octets;
    DigestOfKey();
    DigestInGroups();
    FirstNumbers();
    LastNumbers();
  }

  lemma Group0(rest: seq<uint8>)
    ensures Base64.Encode([0xb3, 0x7a, 0x4f] + rest) == "s3pP" + Base64.Encode(rest)
  {
    hide Base64.Encode;
    Base64.FirstCharacters(0xb3, 0x7a, 0x4f, rest);
  }

  lemma Group1(rest: seq<uint8>)
    ensures Base64.Encode([0x2c, 0xc0, 0x62] + rest) == "LMBi" + Base64.Encode(rest)
  {
    hide Base64.Encode;
    Base64.FirstCharacters(0x2c, 0xc0, 0x62, rest);
  }

  lemma Group2(rest: seq<uint8>)
    ensures Base64.Encode([0x4f, 0x16, 0x90] + rest) == "TxaQ" + Base64.Encode(rest)
  {
    hide Base64.Encode;
    Base64.FirstCharacters(0x4f, 0x16, 0x90, rest);
  }

  lemma Group3(rest: seq<uint8>)
    ensures Base64.Encode([0xf6, 0x46, 0x06] + rest) == "9kYG" + Base64.Encode(rest)
  {
    hide Base64.Encode;
    Base64.FirstCharacters(0xf6, 0x46, 0x06, rest);
  }

  lemma Group4(rest: seq<uint8>)
    ensures Base64.Encode([0xcf, 0x38, 0x59] + rest) == "zzhZ" + Base64.Encode(rest)
  {
    hide Base64.Encode;
    Base64.FirstCharacters(0xcf, 0x38, 0x59, rest);
  }

  lemma Group5(rest: seq<uint8>)
    ensures Base64.Encode([0x45, 0xb2, 0xbe] + rest) == "RbK+" + Base64.Encode(rest)
  {
    hide Base64.Encode;
    Base64.FirstCharacters(0x45, 0xb2, 0xbe, rest);
  }

  lemma LastGroup()
    ensures Base64.Encode([0xc4, 0xea]) == "xOo="
  {
    hide Base64.Encode;
    Base64.LastCharacters(0xc4, 0xea);
  }

  /** Section 1.3 of RFC 6455. */
  lemma AcceptKeyOfExample()
    ensures AcceptKey("dGhlIHNhbXBsZSBub25jZQ==") == "s3pPLMBiTxaQ9kYGzzhZRbK+xOo="
  {
    hide Base64.Encode, Numbers, Digest, Octets, AcceptKey;
    AcceptKeyIs(KEY);
    DigestNumbers();
    Group0([0x2c, 0xc0, 0x62] + ([0x4f, 0x16, 0x90] + NUMBERS_END));
    Group1([0x4f, 0x16, 0x90] + NUMBERS_END);
    Group2(NUMBERS_END);
    Group3([0xcf, 0x38, 0x59] + ([0x45, 0xb2, 0xbe] + [0xc4, 0xea]));
    Group4([0x45, 0xb2, 0xbe] + [0xc4, 0xea]);
    Group5([0xc4, 0xea]);
    LastGroup();
    Together();
  }

  lemma Together()
    ensures "s3pP" + ("LMBi" + ("TxaQ" + ("9kYG" + ("zzhZ" + ("RbK+" + "xOo="))))) == "s3pPLMBiTxaQ9kYGzzhZRbK+xOo="
  {
  }

  /** The whole answer to a request that carries this key, with the protocol line exactly when the
      request has one. */
  lemma AnswerOfExample(packet: string)
    requires var p := Find(packet, "Sec-WebSocket-Key: ", 0);
             p != Npos(packet) && MatchAt(packet, "dGhlIHNhbXBsZSBub25jZQ==", p + 19)
    ensures Answer(packet) ==
            "HTTP/1.1 101 Switching Protocols\r\n" + "Upgrade: websocket\r\n" + "Connection: Upgrade\r\n"
            + "Sec-WebSocket-Accept: s3pPLMBiTxaQ9kYGzzhZRbK+xOo=\r\n"
            + (if Find(packet, "Sec-WebSocket-Protocol: ", 0) == Npos(packet) then ""
               else "Sec-WebSocket-Protocol: chat\r\n") + "\r\n"
  {
    hide AcceptKey, Find;
    AcceptKeyOfExample();
    var p := Find(packet, KEY_HEADER, 0);
    assert |KEY_HEADER| == 19 && |KEY| == 24;
    assert packet[p + 19..][..24] == packet[p + 19..p + 19 + 24] == KEY;
    AcceptLine();
  }

  lemma AcceptLine()
    ensures "Sec-WebSocket-Accept: " + "s3pPLMBiTxaQ9kYGzzhZRbK+xOo=" + "\r\n" ==
            "Sec-WebSocket-Accept: s3pPLMBiTxaQ9kYGzzhZRbK+xOo=\r\n"
  {
  }
}
