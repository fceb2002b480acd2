/** server/core/sha1.cpp on a little-endian machine: the streaming hash over a context that is
    updated in place. */
module Sha1 {
  import opened Arithmetic
  import opened MessageSchedule
  import opened Fips180

  // ---------------------------------------------------------------- the b8/b32 unions

  /** The b32 view of four bytes of a union: the machine is little-endian. */
  function LeWord(s: seq<bv8>, n: nat): bv32
    requires 4 * n + 4 <= |s|
  {
    BeWord(s[4 * n + 3], s[4 * n + 2], s[4 * n + 1], s[4 * n])
  }

  /** The b32 view of a whole union. */
  function Words(s: seq<bv8>): (r: seq<bv32>)
    requires |s| % 4 == 0
    ensures |r| == |s| / 4
  {
    seq(|s| / 4, n requires 0 <= n < |s| / 4 => LeWord(s, n))
  }

  lemma WordBytesInvert(w: bv32)
    ensures var b := WordBytes(w); BeWord(b[0], b[1], b[2], b[3]) == w
  {
  }

  lemma BeWordInverts(b0: bv8, b1: bv8, b2: bv8, b3: bv8)
    ensures WordBytes(BeWord(b0, b1, b2, b3)) == [b0, b1, b2, b3]
  {
  }

  /** Assignment to one b32 element. */
  method SetWord(a: array<bv8>, n: nat, w: bv32)
    requires a.Length % 4 == 0 && 4 * n + 4 <= a.Length
    modifies a
    ensures Words(a[..]) == Words(old(a[..]))[n := w]
  {
    hide BeWord, WordBytes;
    var b := WordBytes(w);
    WordBytesInvert(w);
    a[4 * n], a[4 * n + 1], a[4 * n + 2], a[4 * n + 3] := b[3], b[2], b[1], b[0];
    assert LeWord(a[..], n) == w;
    forall k | 0 <= k < a.Length / 4 && k != n
      ensures LeWord(a[..], k) == LeWord(old(a[..]), k)
    {
    }
  }

  /** The chaining words in the h union. */
  function ChainOf(h: seq<bv8>): Chain
    requires |h| == 20
  {
    var w := Words(h);
    Chain(w[0], w[1], w[2], w[3], w[4])
  }

  method SetChain(h: array<bv8>, s: Chain)
    requires h.Length == 20
    modifies h
    ensures ChainOf(h[..]) == s
  {
    hide Words;
    SetWord(h, 0, s.a);
    SetWord(h, 1, s.b);
    SetWord(h, 2, s.c);
    SetWord(h, 3, s.d);
    SetWord(h, 4, s.e);
  }

  lemma LeWordDetermines(s: seq<bv8>, s': seq<bv8>, n: nat)
    requires 4 * n + 4 <= |s| && |s'| == |s| && LeWord(s, n) == LeWord(s', n)
    ensures s[4 * n..4 * n + 4] == s'[4 * n..4 * n + 4]
  {
    BeWordInverts(s[4 * n + 3], s[4 * n + 2], s[4 * n + 1], s[4 * n]);
    BeWordInverts(s'[4 * n + 3], s'[4 * n + 2], s'[4 * n + 1], s'[4 * n]);
    var b := WordBytes(LeWord(s, n));
    assert s[4 * n..4 * n + 4] == [b[3], b[2], b[1], b[0]] == s'[4 * n..4 * n + 4];
  }

  lemma ChainOfDetermines(h: seq<bv8>, h': seq<bv8>)
    requires |h| == 20 && |h'| == 20 && ChainOf(h) == ChainOf(h')
    ensures h == h'
  {
    LeWordDetermines(h, h', 0);
    LeWordDetermines(h, h', 1);
    LeWordDetermines(h, h', 2);
    LeWordDetermines(h, h', 3);
    LeWordDetermines(h, h', 4);
    assert h == h[0..4] + h[4..8] + h[8..12] + h[12..16] + h[16..20];
    assert h' == h'[0..4] + h'[4..8] + h'[8..12] + h'[12..16] + h'[16..20];
  }

  /** The index whose byte the swap puts at index i. */
  function Mirror(i: nat): (r: nat)
    ensures i < 64 ==> r < 64
    ensures i < 20 ==> r < 20
  {
    i / 4 * 4 + (3 - i % 4)
  }

  lemma MirrorAt(n: nat)
    ensures Mirror(4 * n) == 4 * n + 3 && Mirror(4 * n + 1) == 4 * n + 2
    ensures Mirror(4 * n + 2) == 4 * n + 1 && Mirror(4 * n + 3) == 4 * n
  {
  }

  lemma SwappedWords(m: seq<bv8>, copy: seq<bv8>)
    requires |m| == 64 && |copy| == 64
    requires forall i: nat :: i < 64 ==> Mirror(i) < 64 && m[i] == copy[Mirror(i)]
    ensures Words(m) == BlockWords(copy)
  {
    hide BeWord, Mirror;
    forall n | 0 <= n < 16
      ensures LeWord(m, n) == BlockWords(copy)[n]
    {
      MirrorAt(n);
    }
  }

  /** The value of c after n bytes. */
  function BitCount(n: nat): nat {
    8 * n % 0x1_0000_0000_0000_0000
  }

  // ---------------------------------------------------------------- the context

  class Context {
    const h: array<bv8>    // union h: five words
    const m: array<bv8>    // union m: the block being filled
    var c: nat             // union c: the message length in bits, modulo 2^64
    var count: nat         // bytes in m, as a u_int8_t

    /** The storage is that of struct sha1_ctxt. */
    ghost predicate Shape()
      reads this`count
    {
      h.Length == 20 && m.Length == 64 && h != m && count < 64
    }

    /** The bytes absorbed so far, message or padding: the chaining words are the fold over the
        complete blocks, m starts with the unprocessed tail, and the rest of m is zero. */
    ghost predicate Absorbed(bytes: seq<bv8>)
      reads this`count, h, m
    {
      && Shape()
      && count == |bytes| % 64
      && ChainOf(h[..]) == Hash(IV, bytes[..|bytes| - count])
      && m[..] == bytes[|bytes| - count..] + Zeros(64 - count)
    }

    /** The streaming invariant between calls of sha1_loop. */
    ghost predicate Streaming(msg: seq<bv8>)
      reads this, h, m
    {
      Absorbed(msg) && c == BitCount(|msg|)
    }

    /** sha1_init */
    constructor ()
      ensures fresh(h) && fresh(m)
      ensures Streaming([])
    {
      h := new bv8[20](_ => 0);
      m := new bv8[64](_ => 0);
      c, count := 0, 0;
      new;
      hide *;
      SetChain(h, IV);
      NothingAbsorbed();
    }

    lemma NothingAbsorbed()
      requires h.Length == 20 && m.Length == 64 && h != m && c == 0 && count == 0
      requires ChainOf(h[..]) == IV && forall i :: 0 <= i < 64 ==> m[i] == 0
      ensures Streaming([])
    {
      hide ChainOf, Compress;
      assert m[..] == Zeros(64) == [][0..] + Zeros(64);
    }

    /** The schedule statement of a round: overwrite slot s from round 16 on. */
    method NextWord(t: nat) returns (w: bv32)
      requires Shape()
      modifies m
      ensures Words(m[..]) == NextQueue(SHA, t, Words(old(m[..])))
      ensures w == Words(m[..])[t % 16]
    {
      hide Mix, LeWord;
      var s := t % 16;
      assert forall n | 0 <= n < 16 :: LeWord(m[..], n) == Words(m[..])[n];
      if t >= 16 {
        SetWord(m, s, Mix(LeWord(m[..], (s + 13) % 16), LeWord(m[..], (s + 8) % 16),
                          LeWord(m[..], (s + 2) % 16), LeWord(m[..], s)));
      }
      w := LeWord(m[..], s);
      assert w == Words(m[..])[s];
    }

    /** The body of a round loop, whose f and k are given. */
    method DoRound(t: nat, f: bv32, k: bv32, ws: Chain) returns (r: Chain)
      requires Shape() && t < 80
      requires f == F(t, ws.b, ws.c, ws.d) && k == K(t)
      modifies m
      ensures Machine(Words(m[..]), r) == CircularRound(SHA, t, Machine(Words(old(m[..])), ws))
    {
      hide F, K, S5, S30, Sum, Mix, NextQueue, Words, LeWord;
      var w := NextWord(t);
      var tmp := Sum(S5(ws.a), f, ws.e, w, k);
      r := Chain(tmp, ws.a, S30(ws.b), ws.c, ws.d);
    }

    /** The byte swap of a little-endian machine, through a copy. */
    method SwapBytes()
      requires Shape()
      modifies m
      ensures Words(m[..]) == BlockWords(old(m[..]))
    {
      hide Words, BlockWords, LeWord, Mirror;
      var copy := m[..];
      forall i | 0 <= i < 64 {
        m[i] := copy[Mirror(i)];
      }
      SwappedWords(m[..], copy);
    }

    /** H(n) = H(n) + w */
    method AddWord(n: nat, w: bv32)
      requires Shape() && n < 5
      modifies h
      ensures Words(h[..]) == Words(old(h[..]))[n := Plus(Words(old(h[..]))[n], w)]
    {
      hide LeWord, Plus;
      assert LeWord(h[..], n) == Words(h[..])[n];
      SetWord(h, n, Plus(LeWord(h[..], n), w));
    }

    method AddToChain(ws: Chain)
      requires Shape()
      modifies h
      ensures ChainOf(h[..]) == Add(old(ChainOf(h[..])), ws)
    {
      hide Words, Plus;
      AddWord(0, ws.a);
      AddWord(1, ws.b);
      AddWord(2, ws.c);
      AddWord(3, ws.d);
      AddWord(4, ws.e);
    }

    /** sha1_step */
    method Step()
      requires Shape()
      modifies h, m
      ensures ChainOf(h[..]) == Compress(old(ChainOf(h[..])), old(m[..]))
      ensures m[..] == Zeros(64)
    {
      hide BeWord, Round, Mix, CircularRound, BlockWords, Words, Rounds, Add, ChainOf;
      SwapBytes();
      var s := ChainOf(h[..]);
      ghost var start := Machine(BlockWords(old(m[..])), s);
      var ws := s;
      var t := 0;
      while t < 20
        invariant t <= 20 && h[..] == old(h[..])
        invariant Machine(Words(m[..]), ws) == CircularRounds(SHA, t, start)
      {
        ws := DoRound(t, (ws.b & ws.c) | (!ws.b & ws.d), 0x5a827999, ws);
        t := t + 1;
      }
      while t < 40
        invariant 20 <= t <= 40 && h[..] == old(h[..])
        invariant Machine(Words(m[..]), ws) == CircularRounds(SHA, t, start)
      {
        ws := DoRound(t, ws.b ^ ws.c ^ ws.d, 0x6ed9eba1, ws);
        t := t + 1;
      }
      while t < 60
        invariant 40 <= t <= 60 && h[..] == old(h[..])
        invariant Machine(Words(m[..]), ws) == CircularRounds(SHA, t, start)
      {
        ws := DoRound(t, (ws.b & ws.c) | (ws.b & ws.d) | (ws.c & ws.d), 0x8f1bbcdc, ws);
        t := t + 1;
      }
      while t < 80
        invariant 60 <= t <= 80 && h[..] == old(h[..])
        invariant Machine(Words(m[..]), ws) == CircularRounds(SHA, t, start)
      {
        ws := DoRound(t, ws.b ^ ws.c ^ ws.d, 0xca62c1d6, ws);
        t := t + 1;
      }
      CircularQueueHoldsSchedule(SHA, 80, start.queue, s);
      AddToChain(ws);
      ghost var chain := h[..];
      forall i | 0 <= i < 64 {
        m[i] := 0;
      }
      assert h[..] == chain;
    }

    /** Store bytes at the fill position, advance it, and process the block once it is full:
        the body shared by sha1_loop and the PUTPAD macro. */
    method Feed(chunk: seq<bv8>, ghost bytes: seq<bv8>)
      requires Absorbed(bytes) && 0 < |chunk| <= 64 - count
      modifies this`count, h, m
      ensures Absorbed(bytes + chunk)
      ensures count == |bytes + chunk| % 64 == (old(count) + |chunk|) % 64
    {
      hide Absorbed, ChainOf, Hash, Compress, Zeros;
      Store(chunk, bytes);
      TailGrows(bytes, chunk);
      count := count + |chunk|;
      count := count % 64;
      if count % 64 == 0 {
        HashGrows(bytes, chunk);
        assert m[..] == bytes[|bytes| - |bytes| % 64..] + chunk;
        Step();
        BlockBoundary(bytes + chunk);
      } else {
        InsideBlock(bytes, chunk);
      }
    }

    /** memcpy to the fill position. */
    method Store(chunk: seq<bv8>, ghost bytes: seq<bv8>)
      requires Absorbed(bytes) && |chunk| <= 64 - count
      modifies m
      ensures Shape() && count == |bytes| % 64
      ensures ChainOf(h[..]) == Hash(IV, bytes[..|bytes| - count])
      ensures m[..] == bytes[|bytes| - count..] + chunk + Zeros(64 - count - |chunk|)
    {
      hide ChainOf, Hash;
      forall i | 0 <= i < |chunk| {
        m[count + i] := chunk[i];
      }
      assert h[..] == old(h[..]);
      assert m[..] == bytes[|bytes| - count..] + chunk + Zeros(64 - count - |chunk|);
    }

    lemma InsideBlock(bytes: seq<bv8>, chunk: seq<bv8>)
      requires Shape() && count == |bytes| % 64 + |chunk|
      requires ChainOf(h[..]) == Hash(IV, bytes[..|bytes| - |bytes| % 64])
      requires m[..] == bytes[|bytes| - |bytes| % 64..] + chunk + Zeros(64 - count)
      ensures Absorbed(bytes + chunk)
    {
      hide ChainOf, Hash;
      TailGrows(bytes, chunk);
    }

    /** The fields right after a block has been processed. */
    lemma BlockBoundary(bytes: seq<bv8>)
      requires Shape() && count == 0 && |bytes| % 64 == 0
      requires ChainOf(h[..]) == Hash(IV, bytes) && m[..] == Zeros(64)
      ensures Absorbed(bytes)
    {
      hide Hash, ChainOf;
      assert bytes[..|bytes|] == bytes;
      assert m[..] == bytes[|bytes|..] + Zeros(64);
    }

    /** sha1_loop; the caller's buffer is only read, so it is a value here. */
    method Loop(input: seq<bv8>, len: nat, ghost msg: seq<bv8>)
      requires Streaming(msg) && len <= |input|
      modifies this`c, this`count, h, m
      ensures Streaming(msg + input[..len])
    {
      hide *;
      var off := 0;
      ghost var fed := msg;
      Separate(msg);
      assert msg + input[..0] == msg;
      while off < len
        invariant off <= len && fed == msg + input[..off]
        invariant count < 64 && Absorbed(fed) && c == BitCount(|fed|)
      {
        var gapstart := count % 64;
        var gaplen := 64 - gapstart;
        var copysiz := if gaplen < len - off then gaplen else len - off;
        Feed(input[off..off + copysiz], fed);
        NextPiece(msg, input, off, copysiz);
        BitCountWraps(|fed|, copysiz);
        fed := fed + input[off..off + copysiz];
        c := (c + copysiz * 8) % 0x1_0000_0000_0000_0000;
        off := off + copysiz;
      }
      Combine(fed);
    }

    lemma Separate(msg: seq<bv8>)
      requires Streaming(msg)
      ensures Absorbed(msg) && count < 64 && c == BitCount(|msg|)
    {
    }

    lemma Combine(msg: seq<bv8>)
      requires Absorbed(msg) && c == BitCount(|msg|)
      ensures Streaming(msg)
    {
    }

    /** The PUTPAD macro. */
    method PutPad(x: bv8, ghost bytes: seq<bv8>)
      requires Absorbed(bytes) && count < 64
      modifies this`count, h, m
      ensures Absorbed(bytes + [x]) && count < 64 && count == |bytes + [x]| % 64
    {
      Feed([x], bytes);
    }

    /** bzero at the fill position, then COUNT += k, when the block does not fill up. */
    method ZeroFill(k: nat, ghost bytes: seq<bv8>)
      requires Absorbed(bytes) && count + k < 64
      modifies this`count, m
      ensures Absorbed(bytes + Zeros(k)) && count == old(count) + k < 64
    {
      hide Absorbed, ChainOf, Hash, Zeros;
      Store(Zeros(k), bytes);
      count := count + k;
      count := count % 64;
      InsideBlock(bytes, Zeros(k));
    }

    /** sha1_pad */
    method Pad(ghost msg: seq<bv8>)
      requires Streaming(msg)
      modifies this`count, h, m
      ensures Absorbed(Padded(msg))
    {
      hide *;
      Separate(msg);
      PutPad(0x80, msg);
      PadZeros(|msg|, msg + [0x80]);
      PutLength(msg + [0x80] + Zeros(ZeroCount(|msg|)));
      PaddedParts(msg);
    }

    /** The zero bytes of sha1_pad: up to the length field, in the next block if this one has no
        room for it. */
    method PadZeros(ghost n: nat, ghost bytes: seq<bv8>)
      requires Absorbed(bytes) && |bytes| == n + 1 && count == |bytes| % 64
      modifies this`count, h, m
      ensures Absorbed(bytes + Zeros(ZeroCount(n))) && count < 64
    {
      hide *;
      PadLength(n, count);
      var padstart := count % 64;
      var padlen := 64 - padstart;
      ghost var done := 0;
      if padlen < 8 {
        Feed(Zeros(padlen), bytes);
        done := padlen;
        padstart := count % 64;
        padlen := 64 - padstart;
      }
      JoinZeros(bytes, done, padlen - 8);
      ZeroFill(padlen - 8, bytes + Zeros(done));
    }

    /** The eight PUTPADs of the length, most significant byte first. */
    method PutLength(ghost bytes: seq<bv8>)
      requires Absorbed(bytes) && count < 64
      modifies this`count, h, m
      ensures Absorbed(bytes + LengthField(c))
    {
      hide *;
      ghost var f := LengthField(c);
      LengthFieldIs(c);
      PutFour(LengthByte(c, 7), LengthByte(c, 6), LengthByte(c, 5), LengthByte(c, 4), bytes);
      PutFour(LengthByte(c, 3), LengthByte(c, 2), LengthByte(c, 1), LengthByte(c, 0), bytes + f[..4]);
      assert bytes + f[..4] + f[4..] == bytes + f;
    }

    method PutFour(x: bv8, y: bv8, z: bv8, w: bv8, ghost bytes: seq<bv8>)
      requires Absorbed(bytes) && count < 64
      modifies this`count, h, m
      ensures Absorbed(bytes + [x, y, z, w]) && count < 64
    {
      hide *;
      PutPad(x, bytes);
      PutPad(y, bytes + [x]);
      assert bytes + [x] + [y] == bytes + [x, y];
      PutPad(z, bytes + [x, y]);
      assert bytes + [x, y] + [z] == bytes + [x, y, z];
      PutPad(w, bytes + [x, y, z]);
      assert bytes + [x, y, z] + [w] == bytes + [x, y, z, w];
    }

    /** sha1_result */
    method Result(digest: array<bv8>, ghost msg: seq<bv8>)
      requires Streaming(msg) && 20 <= digest.Length && digest != h && digest != m
      modifies this`count, h, m, digest
      ensures digest[..20] == Digest(msg) && digest[20..] == old(digest[20..])
    {
      hide *;
      Pad(msg);
      ChainOfPadded(msg);
      ghost var chain := h[..];
      forall i | 0 <= i < 20 {
        digest[i] := h[Mirror(i)];
      }
      assert h[..] == chain;
      MirroredBytes(h[..], digest[..20]);
      assert digest[20..] == old(digest[20..]);
    }

    lemma ChainOfPadded(msg: seq<bv8>)
      requires Absorbed(Padded(msg))
      ensures h.Length == 20 && Digest(msg) == ChainBytes(ChainOf(h[..]))
    {
      hide ChainBytes, ChainOf, Hash;
      assert Padded(msg)[..|Padded(msg)|] == Padded(msg);
    }
  }

  /** The function SHA1: the digest is written to the first twenty bytes of md. */
  method Sha1(d: seq<bv8>, n: nat, md: array<bv8>)
    requires n <= |d| && 20 <= md.Length
    modifies md
    ensures md[..20] == Digest(d[..n]) && md[20..] == old(md[20..])
  {
    hide *;
    var ctx := new Context();
    ctx.Loop(d, n, []);
    assert [] + d[..n] == d[..n];
    ctx.Result(md, d[..n]);
  }

  // ---------------------------------------------------------------- lemmas about Absorbed

  lemma BitCountWraps(n: nat, k: nat)
    ensures (BitCount(n) + k * 8) % 0x1_0000_0000_0000_0000 == BitCount(n + k)
  {
    var p := 0x1_0000_0000_0000_0000;
    RemainderOfSum(p, 8 * n / p, BitCount(n) + k * 8);
    assert p * (8 * n / p) + (BitCount(n) + k * 8) == 8 * (n + k);
  }

  /** The fields after a message depend on the message alone, so any two ways of cutting it into
      calls of sha1_loop leave the same context. */
  lemma SameMessageSameContext(x: Context, y: Context, msg: seq<bv8>)
    requires x.Streaming(msg) && y.Streaming(msg)
    ensures x.h[..] == y.h[..] && x.m[..] == y.m[..] && x.c == y.c && x.count == y.count
  {
    hide ChainOf, Hash;
    ChainOfDetermines(x.h[..], y.h[..]);
  }

  /** The two outcomes of the branch in sha1_pad. */
  lemma ZeroRun(n: nat)
    ensures var padlen := 64 - (n + 1) % 64;
            ZeroCount(n) == if padlen < 8 then padlen + 56 else padlen - 8
  {
    var r := n % 64;
    NextRemainder(n);
    if r <= 55 {
      QuotientIsUnique(64, 1, 55 - r, 119 - r);
    }
  }

  lemma NextRemainder(n: nat)
    ensures (n + 1) % 64 == if n % 64 == 63 then 0 else n % 64 + 1
  {
    var q, r := n / 64, n % 64;
    if r == 63 {
      QuotientIsUnique(64, q + 1, 0, n + 1);
    } else {
      QuotientIsUnique(64, q, r + 1, n + 1);
    }
  }

  lemma PadLength(n: nat, count: nat)
    requires count == (n + 1) % 64
    ensures count % 64 == count < 64 && (count + (64 - count)) % 64 == 0 && 0 % 64 == 0
    ensures ZeroCount(n) == if 64 - count < 8 then 64 - count + 56 else 64 - count - 8
  {
    ZeroRun(n);
  }

  lemma JoinZeros(bytes: seq<bv8>, a: nat, b: nat)
    ensures bytes + Zeros(a) + Zeros(b) == bytes + Zeros(a + b)
    ensures bytes + Zeros(0) == bytes
  {
  }

  lemma PaddedParts(msg: seq<bv8>)
    ensures msg + [0x80] + Zeros(ZeroCount(|msg|)) + LengthField(BitCount(|msg|)) == Padded(msg)
  {
    hide LengthField, ZeroCount;
    LengthFieldWraps(8 * |msg|);
  }

  lemma LengthFieldIs(c: nat)
    ensures LengthField(c) == [LengthByte(c, 7), LengthByte(c, 6), LengthByte(c, 5), LengthByte(c, 4),
                               LengthByte(c, 3), LengthByte(c, 2), LengthByte(c, 1), LengthByte(c, 0)]
    ensures LengthField(c)[..4] == [LengthByte(c, 7), LengthByte(c, 6), LengthByte(c, 5), LengthByte(c, 4)]
    ensures LengthField(c)[4..] == [LengthByte(c, 3), LengthByte(c, 2), LengthByte(c, 1), LengthByte(c, 0)]
  {
    hide LengthByte;
  }

  /** The byte swap of sha1_result turns the h union into the big-endian chaining words. */
  lemma MirroredBytes(h: seq<bv8>, digest: seq<bv8>)
    requires |h| == 20 && |digest| == 20
    requires forall i: nat :: i < 20 ==> Mirror(i) < 20 && digest[i] == h[Mirror(i)]
    ensures digest == ChainBytes(ChainOf(h))
  {
    hide WordBytes, BeWord, Mirror;
    forall n: nat | n < 5
      ensures digest[4 * n..4 * n + 4] == WordBytes(LeWord(h, n))
    {
      MirrorAt(n);
      BeWordInverts(h[4 * n + 3], h[4 * n + 2], h[4 * n + 1], h[4 * n]);
    }
    assert digest == digest[0..4] + digest[4..8] + digest[8..12] + digest[12..16] + digest[16..20];
  }

  lemma NextPiece(msg: seq<bv8>, input: seq<bv8>, off: nat, k: nat)
    requires off + k <= |input|
    ensures msg + input[..off] + input[off..off + k] == msg + input[..off + k]
  {
  }

  /** Where a chunk that fits in the block puts the fill position and the tail. */
  lemma TailGrows(bytes: seq<bv8>, chunk: seq<bv8>)
    requires |chunk| <= 64 - |bytes| % 64
    ensures |bytes + chunk| % 64 == (|bytes| % 64 + |chunk|) % 64
    ensures |bytes| % 64 + |chunk| < 64 ==>
              var r := |bytes| % 64 + |chunk|;
              && (bytes + chunk)[..|bytes + chunk| - r] == bytes[..|bytes| - |bytes| % 64]
              && (bytes + chunk)[|bytes + chunk| - r..] == bytes[|bytes| - |bytes| % 64..] + chunk
  {
    assert |bytes| == 64 * (|bytes| / 64) + |bytes| % 64;
  }

  /** A chunk that completes the block is one more compression. */
  lemma HashGrows(bytes: seq<bv8>, chunk: seq<bv8>)
    requires |bytes| % 64 + |chunk| == 64
    ensures |bytes + chunk| % 64 == 0
    ensures var k := |bytes| - |bytes| % 64;
            k % 64 == 0 && Hash(IV, bytes + chunk) == Compress(Hash(IV, bytes[..k]), bytes[k..] + chunk)
  {
    hide Compress;
    var k := |bytes| - |bytes| % 64;
    assert |bytes| == 64 * (|bytes| / 64) + |bytes| % 64;
    assert bytes + chunk == bytes[..k] + (bytes[k..] + chunk);
    HashAppend(IV, bytes[..k], bytes[k..] + chunk);
    HashOneBlock(Hash(IV, bytes[..k]), bytes[k..] + chunk);
  }
}
