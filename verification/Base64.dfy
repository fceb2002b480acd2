/** server/core/base64.cpp: the encoder and decoder with their accumulator arrays, against
    section 4 of RFC 4648. Masks and shifts of bytes are written as remainders and quotients. */
module Base64 {
  import opened Arithmetic
  import opened Bytes

  /** A six-bit group, an index into base64_chars. */
  type sextet = n: int | 0 <= n < 64

  // ---------------------------------------------------------------- the alphabet

  /** base64_chars[n]: the letters, the small letters, the digits, plus and slash. */
  function Code(n: sextet): char {
    if n < 26 then (n + 'A' as int) as char
    else if n < 52 then (n - 26 + 'a' as int) as char
    else if n < 62 then (n - 52 + '0' as int) as char
    else if n == 62 then '+'
    else '/'
  }

  /** is_base64, over ASCII. */
  predicate IsBase64(c: char) {
    'A' <= c <= 'Z' || 'a' <= c <= 'z' || '0' <= c <= '9' || c == '+' || c == '/'
  }

  /** base64_chars.find, stored in an unsigned char: npos becomes 255. */
  function Find(c: char): (r: uint8)
    ensures if IsBase64(c) then r < 64 && Code(r) == c else r == 255
  {
    if 'A' <= c <= 'Z' then c as int - 'A' as int
    else if 'a' <= c <= 'z' then c as int - 'a' as int + 26
    else if '0' <= c <= '9' then c as int - '0' as int + 52
    else if c == '+' then 62
    else if c == '/' then 63
    else 255
  }

  lemma FindCode(n: sextet)
    ensures IsBase64(Code(n)) && Code(n) != '=' && Find(Code(n)) == n
  {
  }

  // ---------------------------------------------------------------- RFC 4648

  type group = n: int | 0 <= n < 0x100_0000

  /** Three bytes, the first one highest, as one 24-bit number. */
  function Group(b0: uint8, b1: uint8, b2: uint8): group {
    0x1_0000 * b0 + 0x100 * b1 + b2
  }

  /** The four six-bit groups of a 24-bit number, from the left. */
  function Split(n: group): (r: seq<sextet>)
    ensures |r| == 4
  {
    [n / 0x4_0000, n / 0x1000 % 64, n / 64 % 64, n % 64]
  }

  /** The six-bit groups of a byte string; a last group of one or two bytes is filled with zero
      bits up to whole six-bit groups. */
  function Sextets(x: seq<uint8>): seq<sextet> {
    if |x| == 0 then []
    else if |x| == 1 then Split(Group(x[0], 0, 0))[..2]
    else if |x| == 2 then Split(Group(x[0], x[1], 0))[..3]
    else Split(Group(x[0], x[1], x[2])) + Sextets(x[3..])
  }

  function Text(d: seq<sextet>): (r: string)
    ensures |r| == |d| && forall i :: 0 <= i < |d| ==> r[i] == Code(d[i])
  {
    seq(|d|, i requires 0 <= i < |d| => Code(d[i]))
  }

  function Padding(k: nat): (r: string)
    ensures |r| == k && forall i :: 0 <= i < k ==> r[i] == '='
  {
    if k == 0 then "" else Padding(k - 1) + ['=']
  }

  /** How much padding n bytes need. */
  function Fill(n: nat): nat {
    if n % 3 == 0 then 0 else 3 - n % 3
  }

  /** Section 4 of RFC 4648. */
  function Encode(x: seq<uint8>): string {
    Text(Sextets(x)) + Padding(Fill(|x|))
  }

  /** The bytes of a sequence of six-bit groups; bits that do not fill a byte are dropped. */
  function Octets(d: seq<sextet>): seq<uint8> {
    if |d| < 2 then []
    else if |d| == 2 then Join(d[0], d[1], 0, 0)[..1]
    else if |d| == 3 then Join(d[0], d[1], d[2], 0)[..2]
    else Join(d[0], d[1], d[2], d[3]) + Octets(d[4..])
  }

  /** The three bytes of four six-bit groups. */
  function Join(d0: sextet, d1: sextet, d2: sextet, d3: sextet): (r: seq<uint8>)
    ensures |r| == 3
  {
    var n: group := 0x4_0000 * d0 + 0x1000 * d1 + 64 * d2 + d3;
    [n / 0x1_0000, n / 0x100 % 0x100, n % 0x100]
  }

  /** The values of the characters before the first one outside the alphabet. */
  function Values(s: string): seq<sextet> {
    if s == [] || !IsBase64(s[0]) then [] else [Find(s[0])] + Values(s[1..])
  }

  function Decode(s: string): seq<uint8> {
    Octets(Values(s))
  }

  // ---------------------------------------------------------------- what they promise

  lemma {:induction false} CountSextets(x: seq<uint8>)
    ensures |Sextets(x)| == (4 * |x| + 2) / 3
  {
    if |x| > 2 {
      CountSextets(x[3..]);
    }
  }

  lemma FillsUp(n: nat)
    ensures (4 * n + 2) / 3 + Fill(n) == 4 * ((n + 2) / 3)
  {
    var q, r := n / 3, n % 3;
    assert n == 3 * q + r;
    assert (4 * n + 2) / 3 == 4 * q + (4 * r + 2) / 3;
    assert (n + 2) / 3 == q + (r + 2) / 3;
  }

  /** Four characters for every three bytes begun; padding at the end and nowhere else. */
  lemma EncodedLength(x: seq<uint8>)
    ensures |Encode(x)| == 4 * ((|x| + 2) / 3)
    ensures forall i :: 0 <= i < |Encode(x)| ==> (Encode(x)[i] == '=' <==> i >= (4 * |x| + 2) / 3)
  {
    hide Sextets;
    CountSextets(x);
    FillsUp(|x|);
    assert |Encode(x)| == |Sextets(x)| + Fill(|x|);
    forall d: sextet
      ensures Code(d) != '='
    {
      FindCode(d);
    }
  }

  lemma SextetsAddUp(n: group)
    ensures 0x4_0000 * (n / 0x4_0000) + 0x1000 * (n / 0x1000 % 64) + 64 * (n / 64 % 64) + n % 64 == n
  {
    var q := n / 64;
    var r := q / 64;
    assert n / 0x1000 == r && n / 0x4_0000 == r / 64;
  }

  lemma BytesOfGroup(b0: uint8, b1: uint8, b2: uint8)
    ensures var n := Group(b0, b1, b2); n / 0x1_0000 == b0 && n / 0x100 % 0x100 == b1 && n % 0x100 == b2
  {
    var n := Group(b0, b1, b2);
    assert n / 0x100 == 0x100 * b0 + b1;
  }

  lemma SplitJoin(b0: uint8, b1: uint8, b2: uint8)
    ensures var d := Split(Group(b0, b1, b2)); Join(d[0], d[1], d[2], d[3]) == [b0, b1, b2]
  {
    hide Group;
    SextetsAddUp(Group(b0, b1, b2));
    BytesOfGroup(b0, b1, b2);
  }

  lemma OctetsOfWholeGroup(d: seq<sextet>, rest: seq<sextet>)
    requires |d| == 4
    ensures Octets(d + rest) == Join(d[0], d[1], d[2], d[3]) + Octets(rest)
  {
    hide Join;
    assert (d + rest)[4..] == rest;
  }

  lemma {:induction false} OctetsOfSextets(x: seq<uint8>)
    ensures Octets(Sextets(x)) == x
  {
    if |x| > 2 {
      hide Split, Join, Group, Octets;
      OctetsOfSextets(x[3..]);
      SplitJoin(x[0], x[1], x[2]);
      OctetsOfWholeGroup(Split(Group(x[0], x[1], x[2])), Sextets(x[3..]));
      assert x == [x[0], x[1], x[2]] + x[3..];
    } else {
      OctetsOfLastGroup(x);
    }
  }

  /** Zero bits fill the last group, so the dropped bits carry nothing. */
  lemma OctetsOfLastGroup(x: seq<uint8>)
    requires |x| <= 2
    ensures Octets(Sextets(x)) == x
  {
    hide Join, Split, Group;
    if |x| == 2 {
      SplitJoin(x[0], x[1], 0);
      LowZeros(x[0], x[1]);
    } else if |x| == 1 {
      SplitJoin(x[0], 0, 0);
      LowZeros(x[0], 0);
      assert x == [x[0]];
    }
  }

  lemma LowBits(n: group)
    ensures n % 0x100 == 0 ==> n % 64 == 0
    ensures n % 0x100 == 0 && n / 0x100 % 0x100 == 0 ==> n / 64 % 64 == 0
  {
    if n % 0x100 == 0 {
      var q := n / 0x100;
      QuotientIsUnique(64, 4 * q, 0, n);
      if q % 0x100 == 0 {
        QuotientIsUnique(64, 16 * (q / 0x100), 0, 4 * q);
      }
    }
  }

  lemma LowZeros(b0: uint8, b1: uint8)
    ensures Split(Group(b0, b1, 0))[3] == 0
    ensures b1 == 0 ==> Split(Group(b0, b1, 0))[2] == 0
  {
    hide Group;
    BytesOfGroup(b0, b1, 0);
    LowBits(Group(b0, b1, 0));
  }

  lemma {:induction false} ValuesOfText(d: seq<sextet>, rest: string)
    requires rest == "" || !IsBase64(rest[0])
    ensures Values(Text(d) + rest) == d
  {
    if d == [] {
      assert Text(d) + rest == rest;
    } else {
      FindCode(d[0]);
      ValuesOfText(d[1..], rest);
      assert (Text(d) + rest)[1..] == Text(d[1..]) + rest;
    }
  }

  /** What was encoded is decoded, for every byte string. */
  lemma RoundTrip(x: seq<uint8>)
    ensures Decode(Encode(x)) == x
  {
    ValuesOfText(Sextets(x), Padding(Fill(|x|)));
    OctetsOfSextets(x);
  }

  // ---------------------------------------------------------------- the characters themselves

  const UPPER := "ABCDEFGHIJKLMNOPQRSTUVWXYZ"
  const SIGNS := "0123456789+/"
  const LOWER := "abcdefghijklmnopqrstuvwxyz"

  /** Table 1 of RFC 4648. */
  const ALPHABET := UPPER + LOWER + SIGNS

  lemma CodeIsAlphabet(n: sextet)
    ensures |ALPHABET| == 64 && Code(n) == ALPHABET[n]
  {
    hide Code;
    if n < 26 {
      Letters(n);
    } else if n < 52 {
      Letters(n - 26);
    } else {
      Signs(n - 52);
    }
    CodeIs(n);
    InParts(UPPER, LOWER, SIGNS, n);
  }

  lemma InParts(a: string, b: string, c: string, n: nat)
    requires n < |a + b + c|
    ensures (a + b + c)[n] == if n < |a| then a[n] else if n < |a| + |b| then b[n - |a|] else c[n - |a| - |b|]
  {
  }

  lemma CodeIs(n: sextet)
    ensures n < 26 ==> Code(n) == (n + 'A' as int) as char
    ensures 26 <= n < 52 ==> Code(n) == (n - 26 + 'a' as int) as char
    ensures 52 <= n < 62 ==> Code(n) == (n - 52 + '0' as int) as char
    ensures Code(62) == '+' && Code(63) == '/'
  {
  }

  lemma Signs(n: nat)
    requires n < 12
    ensures SIGNS[n] == if n < 10 then (n + '0' as int) as char else if n == 10 then '+' else '/'
  {
  }

  lemma Letters(n: nat)
    requires n < 26
    ensures UPPER[n] == (n + 'A' as int) as char && LOWER[n] == (n + 'a' as int) as char
  {
  }

  /** Three bytes become four characters, whose places in the alphabet are the digits in base 64 of
      the number that the bytes are in base 256. */
  lemma ThreeBytes(b0: uint8, b1: uint8, b2: uint8, rest: seq<uint8>)
    ensures var d := Sextets([b0, b1, b2]);
            && |d| == 4
            && 0x4_0000 * d[0] as int + 0x1000 * d[1] as int + 64 * d[2] as int + d[3] ==
               0x1_0000 * b0 + 0x100 * b1 + b2
            && Encode([b0, b1, b2] + rest) == Text(d) + Encode(rest)
  {
    hide Split, Group, Text, Padding, Fill;
    var x := [b0, b1, b2];
    GroupDigits(b0, b1, b2);
    assert (x + rest)[3..] == rest && x[3..] == [];
    SameFill(|rest|);
    var d := Split(Group(b0, b1, b2));
    assert Sextets(x) == d;
    assert Sextets(x + rest) == d + Sextets(rest);
    TextOfConcat(d, Sextets(rest));
  }

  lemma GroupDigits(b0: uint8, b1: uint8, b2: uint8)
    ensures var d := Split(Group(b0, b1, b2));
            0x4_0000 * d[0] as int + 0x1000 * d[1] as int + 64 * d[2] as int + d[3] == 0x1_0000 * b0 + 0x100 * b1 + b2
  {
    SextetsAddUp(Group(b0, b1, b2));
  }

  lemma SameFill(n: nat)
    ensures Fill(3 + n) == Fill(n)
  {
  }

  /** The characters of the first three bytes, and of one or two bytes at the end. */
  lemma FirstCharacters(b0: uint8, b1: uint8, b2: uint8, rest: seq<uint8>)
    ensures Encode([b0, b1, b2] + rest) ==
            [Code(b0 / 4), Code(b0 % 4 * 16 + b1 / 16), Code(b1 % 16 * 4 + b2 / 64), Code(b2 % 64)] + Encode(rest)
  {
    ThreeBytes(b0, b1, b2, rest);
    hide Split, Group, Code, Encode;
    MasksSplit(b0, b1, b2);
    assert Sextets([b0, b1, b2]) == Split(Group(b0, b1, b2)) + Sextets([]);
  }

  lemma LastCharacter(b0: uint8)
    ensures Encode([b0]) == [Code(b0 / 4), Code(b0 % 4 * 16)] + "=="
  {
    hide Split, Group, Code;
    MasksSplit(b0, 0, 0);
    assert Padding(2) == "==";
  }

  lemma LastCharacters(b0: uint8, b1: uint8)
    ensures Encode([b0, b1]) == [Code(b0 / 4), Code(b0 % 4 * 16 + b1 / 16), Code(b1 % 16 * 4)] + "="
  {
    hide Split, Group, Code;
    MasksSplit(b0, b1, 0);
    assert Padding(1) == "=";
  }

  lemma Foo(rest: seq<uint8>)
    ensures Encode([0x66, 0x6f, 0x6f] + rest) == "Zm9v" + Encode(rest)
  {
    hide Encode;
    FirstCharacters(0x66, 0x6f, 0x6f, rest);
  }

  lemma Bar()
    ensures Encode([0x62, 0x61, 0x72] + []) == "YmFy" + Encode([])
  {
    hide Encode;
    FirstCharacters(0x62, 0x61, 0x72, []);
  }

  lemma PlusAndSlash()
    ensures Encode([0xfb, 0xff, 0xbf] + []) == "+/+/" + Encode([])
  {
    hide Encode;
    FirstCharacters(0xfb, 0xff, 0xbf, []);
  }

  lemma ShortTexts()
    ensures Encode([]) == "" && Encode([0x66]) == "Zg==" && Encode([0x66, 0x6f]) == "Zm8="
    ensures Encode([0x62]) == "Yg==" && Encode([0x62, 0x61]) == "YmE="
  {
    NothingEncoded();
    hide Encode;
    LastCharacter(0x66);
    LastCharacter(0x62);
    LastCharacters(0x66, 0x6f);
    LastCharacters(0x62, 0x61);
  }

  lemma NothingEncoded()
    ensures Encode([]) == ""
  {
  }

  /** The test vectors of section 10 of RFC 4648, for the beginnings of "foobar", and one text with
      the last two characters of the alphabet. */
  lemma TestVectors()
    ensures Encode([]) == "" && Encode([0x66]) == "Zg==" && Encode([0x66, 0x6f]) == "Zm8="
    ensures Encode([0x66, 0x6f, 0x6f]) == "Zm9v" && Encode([0x66, 0x6f, 0x6f, 0x62]) == "Zm9vYg=="
    ensures Encode([0x66, 0x6f, 0x6f, 0x62, 0x61]) == "Zm9vYmE="
    ensures Encode([0x66, 0x6f, 0x6f, 0x62, 0x61, 0x72]) == "Zm9vYmFy"
    ensures Encode([0xfb, 0xff, 0xbf]) == "+/+/"
  {
    hide Encode;
    ShortTexts();
    Foo([]);
    Foo([0x62]);
    Foo([0x62, 0x61]);
    Foo([0x62, 0x61, 0x72]);
    Bar();
    PlusAndSlash();
    Appended();
  }

  lemma Appended()
    ensures [0x66, 0x6f, 0x6f] + [] == [0x66, 0x6f, 0x6f] && [0xfb, 0xff, 0xbf] + [] == [0xfb, 0xff, 0xbf]
    ensures [0x66, 0x6f, 0x6f] + [0x62] == [0x66, 0x6f, 0x6f, 0x62]
    ensures [0x66, 0x6f, 0x6f] + [0x62, 0x61] == [0x66, 0x6f, 0x6f, 0x62, 0x61]
    ensures [0x62, 0x61, 0x72] + [] == [0x62, 0x61, 0x72]
    ensures [0x66, 0x6f, 0x6f] + [0x62, 0x61, 0x72] == [0x66, 0x6f, 0x6f, 0x62, 0x61, 0x72]
    ensures "Zm9v" + "" == "Zm9v" && "Zm9v" + "Yg==" == "Zm9vYg==" && "Zm9v" + "YmE=" == "Zm9vYmE="
    ensures "YmFy" + "" == "YmFy" && "Zm9v" + "YmFy" == "Zm9vYmFy" && "+/+/" + "" == "+/+/"
  {
  }

  // ---------------------------------------------------------------- the loops

  /** The masks and shifts of the encoder take the 24-bit group apart. */
  lemma MasksSplit(c0: uint8, c1: uint8, c2: uint8)
    ensures Split(Group(c0, c1, c2)) ==
      [c0 / 4, c0 % 4 * 16 + c1 / 16, c1 % 16 * 4 + c2 / 64, c2 % 64]
  {
    hide *;
    GroupQuotients(c0, c1, c2);
    LowSextet(c0, c1 / 16);
    ThirdSextet(c0, c1, c2);
    SplitIs(Group(c0, c1, c2));
  }

  lemma SplitIs(n: group)
    ensures Split(n) == [n / 0x4_0000, n / 0x1000 % 64, n / 64 % 64, n % 64]
  {
  }

  lemma GroupQuotients(c0: uint8, c1: uint8, c2: uint8)
    ensures var n := Group(c0, c1, c2);
      n / 0x4_0000 == c0 / 4 && n / 0x1000 == 16 * c0 + c1 / 16
      && n / 64 == 4 * (0x100 * c0 + c1) + c2 / 64 && n % 64 == c2 % 64
  {
  }

  lemma ThirdSextet(c0: uint8, c1: uint8, c2: uint8)
    ensures (4 * (0x100 * c0 + c1) + c2 / 64) % 64 == c1 % 16 * 4 + c2 / 64
  {
    var x := 0x100 * c0 + c1;
    QuotientIsUnique(16, 16 * c0 + c1 / 16, c1 % 16, x);
    LowSextet(x, c2 / 64);
  }

  lemma LowSextet(x: nat, y: int)
    requires 0 <= y < 16
    ensures (16 * x + y) % 64 == x % 4 * 16 + y
    ensures 0 <= y < 4 ==> (4 * x + y) % 64 == x % 16 * 4 + y
  {
    QuotientIsUnique(64, x / 4, x % 4 * 16 + y, 64 * (x / 4) + x % 4 * 16 + y);
    if y < 4 {
      QuotientIsUnique(64, x / 16, x % 16 * 4 + y, 64 * (x / 16) + x % 16 * 4 + y);
    }
  }

  /** The masks and shifts of the decoder put the bytes together. */
  lemma MasksJoin(d0: sextet, d1: sextet, d2: sextet, d3: sextet)
    ensures Join(d0, d1, d2, d3) == [d0 * 4 + d1 / 16, d1 % 16 * 16 + d2 / 4, d2 % 4 * 64 + d3]
  {
    var b0, b1, b2 := d0 * 4 + d1 / 16, d1 % 16 * 16 + d2 / 4, d2 % 4 * 64 + d3;
    assert 0x4_0000 * d0 + 0x1000 * d1 + 64 * d2 + d3 == 0x1_0000 * b0 + 0x100 * b1 + b2;
    QuotientIsUnique(0x1_0000, b0, 0x100 * b1 + b2, 0x1_0000 * b0 + 0x100 * b1 + b2);
    QuotientIsUnique(0x100, 0x100 * b0 + b1, b2, 0x100 * (0x100 * b0 + b1) + b2);
    QuotientIsUnique(0x100, b0, b1, 0x100 * b0 + b1);
  }

  lemma {:induction false} SextetsOfWholeGroups(a: seq<uint8>, b: seq<uint8>)
    requires |a| % 3 == 0
    ensures Sextets(a + b) == Sextets(a) + Sextets(b)
  {
    if a == [] {
      assert a + b == b;
    } else {
      hide Split, Group;
      assert (a + b)[3..] == a[3..] + b;
      SextetsOfWholeGroups(a[3..], b);
    }
  }

  lemma {:induction false} OctetsOfWholeGroups(a: seq<sextet>, b: seq<sextet>)
    requires |a| % 4 == 0
    ensures Octets(a + b) == Octets(a) + Octets(b)
  {
    if a == [] {
      assert a + b == b;
    } else {
      hide Join;
      assert (a + b)[4..] == a[4..] + b;
      OctetsOfWholeGroups(a[4..], b);
    }
  }

  lemma TextOfConcat(a: seq<sextet>, b: seq<sextet>)
    ensures Text(a + b) == Text(a) + Text(b)
  {
  }

  lemma TextOfNothing(x: seq<uint8>)
    ensures Text(Sextets(x[..0])) == ""
  {
  }

  lemma OneGroupMore(x: seq<uint8>, p: nat)
    requires p % 3 == 0 && p + 3 <= |x|
    ensures Sextets(x[..p + 3]) == Sextets(x[..p]) + Split(Group(x[p], x[p + 1], x[p + 2]))
  {
    hide Split, Group;
    assert x[..p + 3] == x[..p] + x[p..p + 3];
    SextetsOfWholeGroups(x[..p], x[p..p + 3]);
  }

  lemma LastGroup(x: seq<uint8>, p: nat)
    requires p % 3 == 0 && p < |x| < p + 3
    ensures Sextets(x) ==
      Sextets(x[..p]) + Split(Group(x[p], if |x| == p + 1 then 0 else x[p + 1], 0))[..|x| - p + 1]
  {
    hide Sextets, Split, Group;
    assert x == x[..p] + x[p..];
    SextetsOfWholeGroups(x[..p], x[p..]);
    ShortGroup(x[p..]);
  }

  lemma ShortGroup(x: seq<uint8>)
    requires 0 < |x| < 3
    ensures Sextets(x) == Split(Group(x[0], if |x| == 1 then 0 else x[1], 0))[..|x| + 1]
  {
    hide Split, Group;
  }

  /** char_array_4 from char_array_3. */
  method Expand(three: array<uint8>, four: array<sextet>)
    requires three.Length == 3 && four.Length == 4
    modifies four
    ensures four[..] == Split(Group(three[0], three[1], three[2]))
    ensures three[..] == old(three[..])
  {
    hide *;
    MasksSplit(three[0], three[1], three[2]);
    four[0] := three[0] / 4;
    four[1] := three[0] % 4 * 16 + three[1] / 16;
    four[2] := three[1] % 16 * 4 + three[2] / 64;
    four[3] := three[2] % 64;
  }

  method AppendChars(text: string, four: array<sextet>, k: nat) returns (ret: string)
    requires k <= four.Length
    ensures ret == text + Text(four[..k])
  {
    ret := text;
    for j := 0 to k
      invariant ret == text + Text(four[..j])
    {
      ret := ret + [Code(four[j])];
    }
  }

  /** base64_encode */
  method Base64Encode(bytes: seq<uint8>) returns (ret: string)
    ensures ret == Encode(bytes)
  {
    hide Split, Group, Sextets, Text, Code, Fill, Padding;
    var three, four := new uint8[3], new sextet[4];
    ret := "";
    TextOfNothing(bytes);
    var i, pos := 0, 0;
    ghost var p := 0;   // where the group begins
    while pos < |bytes|
      invariant 0 <= i < 3 && pos == p + i <= |bytes| && p % 3 == 0
      invariant ret == Text(Sextets(bytes[..p]))
      invariant forall k :: 0 <= k < i ==> three[k] == bytes[p + k]
    {
      three[i] := bytes[pos];
      i, pos := i + 1, pos + 1;
      if i == 3 {
        ret := EncodeGroup(ret, three, four, bytes, p);
        i, p := 0, p + 3;
      }
    }
    PaddingIs(p, i);
    if i > 0 {
      ret := EncodeTail(ret, three, four, i, bytes);
    } else {
      assert bytes[..p] == bytes && ret + "" == ret;
    }
  }

  lemma PaddingIs(p: nat, i: nat)
    requires p % 3 == 0 && i < 3
    ensures Padding(Fill(p + i)) == if i > 0 then Padding(3 - i) else ""
  {
  }

  /** Three bytes of base64_encode. */
  method EncodeGroup(text: string, three: array<uint8>, four: array<sextet>, ghost bytes: seq<uint8>, ghost p: nat)
    returns (ret: string)
    requires three.Length == 3 && four.Length == 4 && p + 3 <= |bytes| && p % 3 == 0
    requires text == Text(Sextets(bytes[..p])) && forall k :: 0 <= k < 3 ==> three[k] == bytes[p + k]
    modifies four
    ensures ret == Text(Sextets(bytes[..p + 3]))
  {
    hide Split, Group, Sextets, Text, Code;
    Expand(three, four);
    ret := AppendChars(text, four, 4);
    OneGroupMore(bytes, p);
    TextOfConcat(Sextets(bytes[..p]), four[..]);
  }

  /** The end of base64_encode: the last one or two bytes, with zero bits behind them, then the
      padding. */
  method EncodeTail(text: string, three: array<uint8>, four: array<sextet>, i0: nat, ghost bytes: seq<uint8>)
    returns (ret: string)
    requires three.Length == 3 && four.Length == 4 && 0 < i0 < 3 && i0 <= |bytes| && (|bytes| - i0) % 3 == 0
    requires text == Text(Sextets(bytes[..|bytes| - i0]))
    requires forall k :: 0 <= k < i0 ==> three[k] == bytes[|bytes| - i0 + k]
    modifies three, four
    ensures ret == Text(Sextets(bytes)) + Padding(3 - i0)
  {
    hide Split, Group, Sextets, Text, Code;
    var i := i0;
    ghost var pos := |bytes|;
    for j := i to 3
      invariant forall k :: 0 <= k < i ==> three[k] == bytes[pos - i + k]
      invariant forall k :: i <= k < j ==> three[k] == 0
    {
      three[j] := 0;
    }
    Expand(three, four);
    ret := AppendChars(text, four, i + 1);
    LastGroup(bytes, pos - i);
    TextOfConcat(Sextets(bytes[..pos - i]), four[..i + 1]);
    while i < 3
      invariant i0 <= i <= 3
      invariant ret == Text(Sextets(bytes)) + Padding(i - i0)
    {
      ret := ret + ['='];
      i := i + 1;
    }
  }

  /** What an unsigned char keeps of v. */
  function LowByte(v: nat): uint8 {
    v % 0x100
  }

  /** The bytes char_array_3 gets from char_array_4, each stored in an unsigned char. */
  function Combined(f: seq<uint8>): (r: seq<uint8>)
    requires |f| == 4
    ensures |r| == 3
  {
    [LowByte(f[0] as int * 4 + f[1] / 16 % 4), f[1] % 16 * 16 + f[2] / 4 % 16, LowByte(f[2] as int % 4 * 64 + f[3])]
  }

  lemma CombinedIsJoin(d: seq<sextet>)
    requires |d| == 4
    ensures Combined(d) == Join(d[0], d[1], d[2], d[3])
  {
    hide Join, LowByte;
    MasksJoin(d[0], d[1], d[2], d[3]);
    SextetQuotients(d[1], d[2]);
    LowByteOf(d[0] as int * 4 + d[1] / 16);
    LowByteOf(d[2] as int % 4 * 64 + d[3]);
  }

  /** The fillers, 255 where find failed, reach only bytes that are not returned. */
  lemma CombinedLast(d: seq<sextet>, f: seq<uint8>)
    requires 0 < |d| < 4 && |f| == 4
    requires forall k :: 0 <= k < |d| ==> f[k] == d[k]
    ensures Combined(f)[..|d| - 1] == Octets(d)
  {
    hide Join, Combined, Octets;
    var d1, d2 := if |d| > 1 then d[1] else 0, if |d| > 2 then d[2] else 0;
    LastOctets(d, d1, d2);
    FirstBytes(d[0], d1, d2, f);
  }

  lemma LastOctets(d: seq<sextet>, d1: sextet, d2: sextet)
    requires 0 < |d| < 4 && d1 == (if |d| > 1 then d[1] else 0) && d2 == if |d| > 2 then d[2] else 0
    ensures Octets(d) == [d[0] * 4 + d1 / 16, d1 % 16 * 16 + d2 / 4][..|d| - 1]
  {
    hide Join;
    MasksJoin(d[0], d1, d2, 0);
  }

  lemma FirstBytes(d0: sextet, d1: sextet, d2: sextet, f: seq<uint8>)
    requires |f| == 4 && f[0] == d0
    ensures f[1] == d1 ==> Combined(f)[0] == d0 * 4 + d1 / 16
    ensures f[1] == d1 && f[2] == d2 ==> Combined(f)[1] == d1 % 16 * 16 + d2 / 4
  {
    hide LowByte;
    SextetQuotients(d1, d2);
    LowByteOf(d0 * 4 + d1 / 16);
  }

  lemma SextetQuotients(d1: sextet, d2: sextet)
    ensures d1 / 16 % 4 == d1 / 16 && d2 / 4 % 16 == d2 / 4
  {
  }

  lemma LowByteOf(v: nat)
    ensures v < 0x100 ==> LowByte(v) == v
  {
  }

  predicate AllBase64(s: string) {
    forall k :: 0 <= k < |s| ==> IsBase64(s[k])
  }

  lemma {:induction false} ValuesOfCode(s: string)
    requires AllBase64(s)
    ensures |Values(s)| == |s| && forall k :: 0 <= k < |s| ==> Values(s)[k] == Find(s[k])
  {
    if s != [] {
      ValuesOfCode(s[1..]);
    }
  }

  lemma {:induction false} ValuesStop(s: string, n: nat)
    requires n <= |s| && AllBase64(s[..n]) && (n < |s| ==> !IsBase64(s[n]))
    ensures Values(s) == Values(s[..n])
  {
    if n > 0 {
      assert s[..n][0] == s[0];
      assert s[1..][..n - 1] == s[..n][1..];
      ValuesStop(s[1..], n - 1);
    }
  }

  lemma MoreValues(s: string, p: nat, q: nat)
    requires p <= q <= |s| && AllBase64(s[..q])
    ensures |Values(s[..p])| == p && |Values(s[p..q])| == q - p
    ensures forall k :: 0 <= k < q - p ==> Values(s[p..q])[k] == Find(s[p + k])
    ensures Values(s[..q]) == Values(s[..p]) + Values(s[p..q])
  {
    hide Values, Find;
    ValuesOfCode(s[..p]);
    ValuesOfCode(s[..q]);
    ValuesOfCode(s[p..q]);
  }

  lemma WholeGroup(d: seq<sextet>)
    requires |d| == 4
    ensures Combined(d) == Octets(d)
  {
    CombinedIsJoin(d);
    hide Join, Combined;
    assert d[4..] == [];
  }

  lemma GroupRead(s: string, p: nat, f: seq<uint8>)
    requires p % 4 == 0 && p + 4 <= |s| && AllBase64(s[..p + 4]) && |f| == 4
    requires forall k :: 0 <= k < 4 ==> f[k] == Find(s[p + k])
    ensures Octets(Values(s[..p + 4])) == Octets(Values(s[..p])) + Combined(f)
  {
    hide *;
    MoreValues(s, p, p + 4);
    var d := Values(s[p..p + 4]);
    assert f == d;
    WholeGroup(d);
    OctetsOfWholeGroups(Values(s[..p]), d);
  }

  lemma LastRead(s: string, p: nat, q: nat, f: seq<uint8>)
    requires p % 4 == 0 && p < q < p + 4 && q <= |s| && AllBase64(s[..q]) && |f| == 4
    requires forall k :: 0 <= k < q - p ==> f[k] == Find(s[p + k])
    ensures Octets(Values(s[..q])) == Octets(Values(s[..p])) + Combined(f)[..q - p - 1]
  {
    hide *;
    MoreValues(s, p, q);
    CombinedLast(Values(s[p..q]), f);
    OctetsOfWholeGroups(Values(s[..p]), Values(s[p..q]));
  }

  /** char_array_4 looked up in base64_chars. */
  method LookUp(four: array<uint8>)
    requires four.Length == 4
    modifies four
    ensures forall k :: 0 <= k < 4 ==> four[k] == Find(old(four[k]) as char)
  {
    for i := 0 to 4
      invariant forall k :: 0 <= k < i ==> four[k] == Find(old(four[k]) as char)
      invariant forall k :: i <= k < 4 ==> four[k] == old(four[k])
    {
      four[i] := Find(four[i] as char);
    }
  }

  /** char_array_3 from char_array_4. */
  method Combine(four: array<uint8>, three: array<uint8>)
    requires three.Length == 3 && four.Length == 4 && four != three
    modifies three
    ensures three[..] == Combined(four[..])
  {
    three[0] := LowByte(four[0] as int * 4 + four[1] / 16 % 4);
    three[1] := four[1] % 16 * 16 + four[2] / 4 % 16;
    three[2] := LowByte(four[2] as int % 4 * 64 + four[3]);
  }

  /** base64_decode */
  method Base64Decode(s: string) returns (ret: seq<uint8>)
    ensures ret == Decode(s)
  {
    hide Octets, Values, Combined, Join, Find;
    var three, four := new uint8[3], new uint8[4];
    ret := [];
    NoOctets(s);
    var i, pos := 0, 0;
    ghost var p := 0;   // where the group begins
    while pos < |s| && s[pos] != '=' && IsBase64(s[pos])
      invariant 0 <= i < 4 && pos == p + i <= |s| && p % 4 == 0
      invariant AllBase64(s[..pos])
      invariant ret == Octets(Values(s[..p]))
      invariant forall k :: 0 <= k < i ==> four[k] == s[p + k] as int
    {
      four[i] := s[pos] as int;
      i, pos := i + 1, pos + 1;
      if i == 4 {
        DecodeGroup(four, three);
        GroupRead(s, p, four[..]);
        ret := ret + three[..];
        i, p := 0, p + 4;
      }
    }
    ValuesStop(s, pos);
    if i > 0 {
      for j := i to 4
        invariant forall k :: 0 <= k < i ==> four[k] == s[p + k] as int
      {
        four[j] := 0;
      }
      DecodeGroup(four, three);
      LastRead(s, p, pos, four[..]);
      ret := ret + three[..i - 1];
    }
  }

  /** Four characters of base64_decode. */
  method DecodeGroup(four: array<uint8>, three: array<uint8>)
    requires three.Length == 3 && four.Length == 4 && four != three
    modifies four, three
    ensures forall k :: 0 <= k < 4 ==> four[k] == Find(old(four[k]) as char)
    ensures three[..] == Combined(four[..])
  {
    hide Combined, Find;
    LookUp(four);
    Combine(four, three);
  }

  lemma NoOctets(s: string)
    ensures Octets(Values(s[..0])) == []
  {
  }
}
