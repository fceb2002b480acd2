/** The example of appendix A of FIPS PUB 180-1, round by round. */
module Fips180Example {
  import opened MessageSchedule
  import opened Fips180

  /** The words W_t of the padded message. */
  function AbcWord(t: nat): bv32 {
    if t < 8 then
      Entry(t, 0x61626380, 0x00000000, 0x00000000, 0x00000000, 0x00000000, 0x00000000, 0x00000000, 0x00000000)
    else if t < 16 then
      Entry(t - 8, 0x00000000, 0x00000000, 0x00000000, 0x00000000, 0x00000000, 0x00000000, 0x00000000, 0x00000018)
    else if t < 24 then
      Entry(t - 16, 0xc2c4c700, 0x00000000, 0x00000030, 0x85898e01, 0x00000000, 0x00000060, 0x0b131c03, 0x00000030)
    else if t < 32 then
      Entry(t - 24, 0x85898ec1, 0x16263806, 0x00000000, 0x00000180, 0x2c4c700c, 0x000000f0, 0x93afb507, 0x5898e048)
    else if t < 40 then
      Entry(t - 32, 0x8e9a9202, 0x00000600, 0xb131c0f0, 0x16263bc6, 0x4ebed41e, 0x626380a1, 0x16263806, 0x000018c0)
    else if t < 48 then
      Entry(t - 40, 0xd2e138c4, 0x00000f00, 0x3afb5079, 0x898e04e5, 0xe2ba3c2b, 0x000060c0, 0x053a37cd, 0x74458547)
    else if t < 56 then
      Entry(t - 48, 0xda9415ed, 0x26380a16, 0x626383a1, 0x4ebf54de, 0x3835b44b, 0x0000f600, 0x1e84c7a3, 0x98e04d98)
    else if t < 64 then
      Entry(t - 56, 0x651d16a0, 0x62658ca1, 0x458544d6, 0x44584cb7, 0x7ba06619, 0x6380aea2, 0x0ae55269, 0x627b49a1)
    else if t < 72 then
      Entry(t - 64, 0x7cd45c9d, 0x000f0000, 0xfb50753a, 0xec6765e8, 0xba3c2be2, 0x0060c000, 0x3a37cd05, 0x458546f4)
    else
      Entry(t - 72, 0xb8599dd6, 0x380a1a26, 0x01e02203, 0xe7cc3456, 0xe6e60b69, 0x00f60a00, 0x5795ef4f, 0x822e0879)
  }

  /** A before round t - 4; the first entries come from the initial B to E. */
  function AbcA(t: nat): bv32 {
    if t < 8 then
      Entry(t, 0x0f4b87c3, 0x40c951d8, 0x62eb73fa, 0xefcdab89, 0x67452301, 0x0116fc33, 0x8990536d, 0xa1390f08)
    else if t < 16 then
      Entry(t - 8, 0xcdd8e11b, 0xcfd499de, 0x3fc7ca40, 0x993e30c1, 0x9e8c07d4, 0x4b6ae328, 0x8351f929, 0xfbda9e89)
    else if t < 24 then
      Entry(t - 16, 0x63188fe4, 0x4607b664, 0x9128f695, 0x196bee77, 0x20bdd62f, 0x4e925823, 0x82aa6728, 0xdc64901d)
    else if t < 32 then
      Entry(t - 24, 0xfd9e1d7d, 0x1a37b0ca, 0x33a23bfc, 0x21283486, 0xd541f12d, 0xc7567dc6, 0x48413ba4, 0xbe35fbd5)
    else if t < 40 then
      Entry(t - 32, 0x4aa84d97, 0x8370b52e, 0xc5fbaf5d, 0x1267b407, 0x3b845d33, 0x046faa0a, 0x2c0ebc11, 0x21796ad4)
    else if t < 48 then
      Entry(t - 40, 0xdcbbb0cb, 0x0f511fd8, 0xdc63973f, 0x4c986405, 0x32de1cba, 0xfc87dedf, 0x970a0d5c, 0x7f193dc5)
    else if t < 56 then
      Entry(t - 48, 0xee1b1aaf, 0x40f28e09, 0x1c51e1f2, 0xa01b846c, 0xbead02ca, 0xbaf39337, 0x120731c5, 0x641db2ce)
    else if t < 64 then
      Entry(t - 56, 0x3847ad66, 0xe490436d, 0x27e9f1d8, 0x7b71f76d, 0x5e6456af, 0xc846093f, 0xd262ff50, 0x09d785fd)
    else if t < 72 then
      Entry(t - 64, 0x3f52de5a, 0xd756c147, 0x548c9cb2, 0xb66c020b, 0x6b61c9e1, 0x19dfa7ac, 0x101655f9, 0x0c3df2b4)
    else if t < 80 then
      Entry(t - 72, 0x78dd4d2b, 0x497093c0, 0x3f2588c2, 0xc199f8c7, 0x39859de7, 0xedb42de4, 0x11793f6f, 0x5ee76897)
    else
      Entry(t - 80, 0x63f7dab7, 0xa079b7d9, 0x860d21cc, 0x5738d5e1, 0x42541b35, 0x00000000, 0x00000000, 0x00000000)
  }

  predicate AbcWordStep(t: nat) {
    Mixed(AbcWord(t + 16), AbcWord(t + 13), AbcWord(t + 8), AbcWord(t + 2), AbcWord(t))
  }

  predicate AbcRoundStep(t: nat) {
    Turned(t, AbcWord(t), AbcA(t + 5), AbcA(t + 4), AbcA(t + 3), AbcA(t + 2), AbcA(t + 1), AbcA(t))
  }

  lemma AbcWords0()
    ensures Eight(AbcWordStep, 0)
  {
  }

  lemma AbcWords8()
    ensures Eight(AbcWordStep, 8)
  {
  }

  lemma AbcWords16()
    ensures Eight(AbcWordStep, 16)
  {
  }

  lemma AbcWords24()
    ensures Eight(AbcWordStep, 24)
  {
  }

  lemma AbcWords32()
    ensures Eight(AbcWordStep, 32)
  {
  }

  lemma AbcWords40()
    ensures Eight(AbcWordStep, 40)
  {
  }

  lemma AbcWords48()
    ensures Eight(AbcWordStep, 48)
  {
  }

  lemma AbcWords56()
    ensures Eight(AbcWordStep, 56)
  {
  }

  lemma AbcRounds0()
    ensures Eight(AbcRoundStep, 0)
  {
  }

  lemma AbcRounds8()
    ensures Eight(AbcRoundStep, 8)
  {
  }

  lemma AbcRounds16()
    ensures Eight(AbcRoundStep, 16)
  {
  }

  lemma AbcRounds24()
    ensures Eight(AbcRoundStep, 24)
  {
  }

  lemma AbcRounds32()
    ensures Eight(AbcRoundStep, 32)
  {
  }

  lemma AbcRounds40()
    ensures Eight(AbcRoundStep, 40)
  {
  }

  lemma AbcRounds48()
    ensures Eight(AbcRoundStep, 48)
  {
  }

  lemma AbcRounds56()
    ensures Eight(AbcRoundStep, 56)
  {
  }

  lemma AbcRounds64()
    ensures Eight(AbcRoundStep, 64)
  {
  }

  lemma AbcRounds72()
    ensures Eight(AbcRoundStep, 72)
  {
  }

  lemma AbcAllWords(t: nat)
    requires t < 64
    ensures AbcWordStep(t)
  {
    hide *;
    AbcWords0(); AbcWords8(); AbcWords16(); AbcWords24();
    AbcWords32(); AbcWords40(); AbcWords48(); AbcWords56();
    InEight(AbcWordStep, t / 8, t);
  }

  lemma AbcAllRounds(t: nat)
    requires t < 80
    ensures AbcRoundStep(t)
  {
    hide *;
    AbcRounds0(); AbcRounds8(); AbcRounds16(); AbcRounds24();
    AbcRounds32(); AbcRounds40(); AbcRounds48(); AbcRounds56();
    AbcRounds64(); AbcRounds72();
    InEight(AbcRoundStep, t / 8, t);
  }

  lemma AbcFollows()
    ensures Follows(AbcWord, AbcA)
  {
    hide WordAt, RoundAt, AbcWordStep, AbcRoundStep;
    forall t: nat | t < 80
      ensures (t < 64 ==> WordAt(AbcWord, t)) && RoundAt(AbcWord, AbcA, t)
    {
      if t < 64 {
        AbcAllWords(t);
      }
      AbcAllRounds(t);
      AbcStep(t);
    }
  }

  lemma AbcStep(t: nat)
    ensures AbcWordStep(t) == WordAt(AbcWord, t) && AbcRoundStep(t) == RoundAt(AbcWord, AbcA, t)
  {
    hide AbcWord, AbcA, Mixed, Turned;
  }

  // ---------------------------------------------------------------- the digest

  /** The block of three bytes: the bytes, 0x80, zeros, and the length of 24 bits. */
  lemma OneBlock(m: seq<bv8>)
    requires |m| == 3
    ensures var p := Padded(m);
            && |p| == 64 && p[0] == m[0] && p[1] == m[1] && p[2] == m[2] && p[3] == 0x80
            && (forall i :: 4 <= i < 63 ==> p[i] == 0) && p[63] == 24
  {
    assert ZeroCount(3) == 52;
    ShortLength(24, 0, 24);
    hide LengthField, LengthByte;
  }

  lemma AbcBlock(i: nat)
    requires i < 16
    ensures |Padded(ABC)| == 64 && BlockWords(Padded(ABC))[i] == AbcWord(i)
  {
    hide AbcWord, BeWord, Padded;
    OneBlock(ABC);
    AbcFirstWords(i);
  }

  lemma AbcFirstWords(i: nat)
    requires i < 16
    ensures AbcWord(i) == if i == 0 then BeWord(0x61, 0x62, 0x63, 0x80) else if i == 15 then BeWord(0, 0, 0, 24)
                          else BeWord(0, 0, 0, 0)
  {
  }

  const ABC: seq<bv8> := [0x61, 0x62, 0x63]

  lemma AbcChain()
    ensures After(AbcA, 0) == IV
    ensures Add(IV, After(AbcA, 80)) == Chain(0xa9993e36, 0x4706816a, 0xba3e2571, 0x7850c26c, 0x9cd0d89d)
  {
  }

  lemma AbcBytes()
    ensures ChainBytes(Chain(0xa9993e36, 0x4706816a, 0xba3e2571, 0x7850c26c, 0x9cd0d89d)) ==
            [0xa9, 0x99, 0x3e, 0x36, 0x47, 0x06, 0x81, 0x6a, 0xba, 0x3e,
             0x25, 0x71, 0x78, 0x50, 0xc2, 0x6c, 0x9c, 0xd0, 0xd8, 0x9d]
  {
  }

  /** Appendix A: the message "abc". */
  lemma DigestOfAbc()
    ensures Digest([0x61, 0x62, 0x63]) ==
            [0xa9, 0x99, 0x3e, 0x36, 0x47, 0x06, 0x81, 0x6a, 0xba, 0x3e,
             0x25, 0x71, 0x78, 0x50, 0xc2, 0x6c, 0x9c, 0xd0, 0xd8, 0x9d]
  {
    hide Padded, BlockWords, Rounds, After, Add, ChainBytes, Follows, Hash, AbcWord, AbcA;
    AbcBlock(0);
    AbcFollows();
    AbcChain();
    AbcBytes();
    var p := Padded(ABC);
    forall i | 0 <= i < 16
      ensures BlockWords(p)[i] == AbcWord(i)
    {
      AbcBlock(i);
    }
    RoundsFollow(BlockWords(p), AbcWord, AbcA, 80);
    HashOneBlock(IV, p);
  }
}
