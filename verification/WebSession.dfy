/** Session<WEBSOCK>: a command is the payload of one frame, and its arguments are read from a
    buffer with a cursor. */
module WebSession {
  import opened Bytes
  import opened Wire
  import opened Serializer
  import opened ArgPacks
  import opened Sockets
  import opened Rfc6455
  import opened WebSockets
  import DriverStartup
  import opened Drivers
  import TcpSession

  // ---------------------------------------------------------------- reading from the payload

  /** The count of a vector or string is larger than the whole payload buffer. */
  predicate TooLong(t: ArgType, s: seq<uint8>) {
    (t.VectorT? || t.StringT?) && |s| >= 4 && Extract(s, 4) > CMD_PAYLOAD_BUFFER_LEN
  }

  /** Reading arguments of these types meets such a count. */
  predicate Oversized(ts: seq<ArgType>, s: seq<uint8>) {
    ts != [] && (TooLong(ts[0], s) || (Decode(ts[0], s).Got? && Oversized(ts[1..], Decode(ts[0], s).rest)))
  }

  /** The cursor stays in the bytes s. The code has no other check than the one for a count above
      the size of the buffer, which ends the reading. */
  predicate Inside(ts: seq<ArgType>, s: seq<uint8>) {
    Oversized(ts, s) || DecodeAll(ts, s).Got?
  }

  lemma {:induction false} OversizedSplit(x: seq<ArgType>, y: seq<ArgType>, s: seq<uint8>)
    ensures Oversized(x + y, s) <==>
              Oversized(x, s) || (DecodeAll(x, s).Got? && Oversized(y, DecodeAll(x, s).rest))
  {
    hide Decode, TooLong;
    if x == [] {
      assert x + y == y;
    } else {
      assert (x + y)[1..] == x[1..] + y;
      var d := Decode(x[0], s);
      if d.Got? {
        OversizedSplit(x[1..], y, d.rest);
      }
    }
  }

  lemma {:induction false} ScalarsAreNotOversized(ts: seq<ScalarType>, s: seq<uint8>)
    ensures !Oversized(ScalarTypes(ts), s)
  {
    if ts != [] {
      hide Decode;
      assert ScalarTypes(ts)[1..] == ScalarTypes(ts[1..]);
      var d := Decode(ScalarT(ts[0]), s);
      if d.Got? {
        ScalarsAreNotOversized(ts[1..], d.rest);
      }
    }
  }

  /** length / sizeof(T) elements of sizeof(T) bytes */
  function WholeElements(length: nat, size: nat): (n: nat)
    requires size > 0
    ensures n == size * (length / size)
  {
    length - length % size
  }

  /** How many bytes the extraction of one argument touches, when s lies at the cursor. */
  function Needed(t: ArgType, s: seq<uint8>): nat {
    match t
    case ScalarT(x) => x.Size()
    case ArrayT(size, n) => size * n
    case VectorT(size) =>
      if |s| < 4 || TooLong(t, s) || size == 0 then 4 else 4 + WholeElements(Extract(s, 4), size)
    case StringT =>
      if |s| < 4 || TooLong(t, s) then 4 else 4 + Extract(s, 4)
  }

  /** How many bytes the extractions of several arguments touch, up to the first one that leaves
      the bytes s, or to a count above the size of the buffer. */
  function Touched(ts: seq<ArgType>, s: seq<uint8>): nat {
    if ts == [] then 0
    else
      var n := Needed(ts[0], s);
      if n > |s| || TooLong(ts[0], s) then n else n + Touched(ts[1..], s[n..])
  }

  /** The cursor stays in the bytes if and only if the extractions touch no more than there are. */
  lemma {:induction false} InsideIsTouched(ts: seq<ArgType>, s: seq<uint8>)
    requires TcpSession.ValidTypes(ts) && |s| <= CMD_PAYLOAD_BUFFER_LEN
    ensures Inside(ts, s) <==> Touched(ts, s) <= |s|
  {
    if ts != [] {
      hide Decode, TooLong, Needed;
      assert ts[0] in ts && TcpSession.ValidTypes(ts[1..]);
      FirstNeeds(ts[0], s);
      var d := Decode(ts[0], s);
      if !TooLong(ts[0], s) && d.Got? {
        InsideIsTouched(ts[1..], d.rest);
      }
    }
  }

  lemma FirstNeeds(t: ArgType, s: seq<uint8>)
    requires t.Valid() && |s| <= CMD_PAYLOAD_BUFFER_LEN
    ensures var n := Needed(t, s);
            if TooLong(t, s) then n <= |s|
            else if n <= |s| then Decode(t, s).Got? && Decode(t, s).rest == s[n..]
            else !Decode(t, s).Got?
  {
    match t {
      case ScalarT(x) => ReadScalar(x, s);
      case ArrayT(size, n) => ReadArray(size, n, s);
      case VectorT(size) => VectorNeeds(size, s);
      case StringT => StringNeeds(s);
    }
  }

  lemma VectorNeeds(size: nat, s: seq<uint8>)
    requires size > 0 && |s| <= CMD_PAYLOAD_BUFFER_LEN
    ensures var t := VectorT(size); var n := Needed(t, s);
            if TooLong(t, s) then n <= |s|
            else if n <= |s| then Decode(t, s).Got? && Decode(t, s).rest == s[n..]
            else !Decode(t, s).Got?
  {
    hide *;
    var k := VectorParts(size, s);
    if 4 + k <= |s| {
      assert s[4..][k..] == s[4 + k..];
    }
  }

  /** The count, and what is read behind it. */
  lemma VectorParts(size: nat, s: seq<uint8>) returns (k: nat)
    requires size > 0 && |s| <= CMD_PAYLOAD_BUFFER_LEN
    ensures Needed(VectorT(size), s) == if |s| < 4 || TooLong(VectorT(size), s) then 4 else 4 + k
    ensures TooLong(VectorT(size), s) ==> |s| >= 4
    ensures var d := Decode(VectorT(size), s);
            if |s| >= 4 && k <= |s[4..]| then d.Got? && d.rest == s[4..][k..] else !d.Got?
  {
    hide Extract, Elements, ToInt, Decode;
    TcpSession.ReadVector(size, s);
    k := 0;
    if |s| >= 4 {
      QuotientBound(Extract(s, 4), size);
      k := size * (Extract(s, 4) / size);
      FitsAnInt(s[4..], k);
    }
  }

  lemma StringNeeds(s: seq<uint8>)
    requires |s| <= CMD_PAYLOAD_BUFFER_LEN
    ensures var n := Needed(StringT, s);
            if TooLong(StringT, s) then n <= |s|
            else if n <= |s| then Decode(StringT, s).Got? && Decode(StringT, s).rest == s[n..]
            else !Decode(StringT, s).Got?
  {
    hide Extract, ToInt, Decode;
    if |s| >= 4 {
      var k := Extract(s, 4);
      ReadString(s);
      FitsAnInt(s[4..], k);
      assert 4 + k <= |s| ==> s[4..][k..] == s[4 + k..];
    } else {
      ReadNothing(s);
    }
  }

  lemma FitsAnInt(s: seq<uint8>, n: nat)
    requires |s| <= CMD_PAYLOAD_BUFFER_LEN
    ensures n <= |s| ==> ToInt(n) == n
  {
    hide ToInt;
    if n <= |s| {
      SmallCount(n);
    }
  }

  lemma ReadScalar(t: ScalarType, s: seq<uint8>)
    ensures Decode(ScalarT(t), s) ==
            if |s| < t.Size() then Short else Got(ScalarA(ExtractScalar(t, s)), s[t.Size()..])
  {
    hide ExtractScalar;
  }

  lemma ReadArray(size: nat, n: nat, s: seq<uint8>)
    requires |s| <= CMD_PAYLOAD_BUFFER_LEN
    ensures Decode(ArrayT(size, n), s) ==
            if |s| < size * n then Short else Got(ArrayA(size, Elements(s, size, n)), s[size * n..])
  {
    hide Elements, ToInt;
    FitsAnInt(s, size * n);
  }

  /** Reading a string, step by step. */
  lemma ReadString(s: seq<uint8>)
    requires |s| >= 4
    ensures Decode(StringT, s) ==
            var n := Extract(s, 4);
            if |s[4..]| < n then Short else if ToInt(n) < 0 then Rejected else Got(StringA(s[4..][..n]), s[4..][n..])
  {
    hide Extract, ToInt;
  }

  lemma ReadNothing(s: seq<uint8>)
    requires |s| < 4
    ensures Decode(StringT, s) == Short
  {
  }

  lemma SmallCount(n: nat)
    requires n <= CMD_PAYLOAD_BUFFER_LEN
    ensures ToInt(n) == n
  {
  }

  /** A string with its count in the payload: the count is rejected, or the string lies in the
      payload. */
  lemma StringInside(p: seq<uint8>)
    requires 4 <= |p| <= CMD_PAYLOAD_BUFFER_LEN
    ensures Inside([StringT], p) <==> Extract(p, 4) > 262144 || 4 + Extract(p, 4) <= |p|
    ensures CMD_PAYLOAD_BUFFER_LEN == 262144
  {
    hide Extract, Inside;
    InsideIsTouched([StringT], p);
    var end := 4 + Extract(p, 4);
    assert |p| >= end ==> Touched([StringT][1..], p[end..]) == 0;
  }

  /** A count that is larger than what follows it. */
  lemma FiveAnnounced(rest: seq<uint8>)
    requires |rest| < 5
    ensures !Inside([StringT], Append(5, 4) + rest)
  {
    hide Extract, Append, Inside;
    ExtractAppend4(5, rest);
    StringInside(Append(5, 4) + rest);
  }

  /** The payload buffer of a command: its payload, and what the memory m held behind. */
  function Filled(p: seq<uint8>, m: seq<uint8>): seq<uint8> {
    if |p| <= |m| then p + m[|p|..] else p
  }

  /** A string whose count is larger than the rest of the payload, and not rejected: if it ends in
      the buffer it is completed with what the buffer holds there. */
  lemma CompletedString(p: seq<uint8>, m: seq<uint8>)
    requires 4 <= |p| < 4 + Extract(p, 4) <= CMD_PAYLOAD_BUFFER_LEN == |m|
    ensures !Inside([StringT], p)
    ensures var end := 4 + Extract(p, 4);
            && Inside([StringT], Filled(p, m)) && !Oversized([StringT], Filled(p, m))
            && DecodeAll([StringT], Filled(p, m)) == Got([StringA(p[4..] + m[|p|..end])], m[end..])
  {
    hide *;
    var b, n := Filled(p, m), Extract(p, 4);
    FilledParts(p, m, n);
    StringInside(p);
    TcpSession.ExtractIsLocal(p, m[|p|..], 4);
    ReadString(b);
    SmallCount(n);
    TcpSession.DecodeOne(StringT, b);
    StringInside(b);
    ShortIsNotTooLong(b);
    OversizedOne(StringT, b);
  }

  lemma FilledParts(p: seq<uint8>, m: seq<uint8>, n: nat)
    requires 4 <= |p| < 4 + n <= |m|
    ensures var b := Filled(p, m);
            && b == p + m[|p|..] && |b| == |m| && |b[4..]| == |m| - 4
            && b[4..][..n] == p[4..] + m[|p|..4 + n] && b[4..][n..] == m[4 + n..]
  {
  }

  lemma ShortIsNotTooLong(s: seq<uint8>)
    requires |s| >= 4 && Extract(s, 4) <= CMD_PAYLOAD_BUFFER_LEN
    ensures !TooLong(StringT, s)
  {
    hide Extract;
  }

  /** Two buffers give the same string only if they hold the same where it goes on. */
  lemma StringDependsOnMemory(p: seq<uint8>, m: seq<uint8>, m': seq<uint8>)
    requires 4 <= |p| < 4 + Extract(p, 4) <= CMD_PAYLOAD_BUFFER_LEN == |m| == |m'|
    ensures Args(DecodeAll([StringT], Filled(p, m))) == Args(DecodeAll([StringT], Filled(p, m'))) <==>
            m[|p|..4 + Extract(p, 4)] == m'[|p|..4 + Extract(p, 4)]
  {
    hide Inside, DecodeAll, Oversized, Extract, Filled;
    CompletedString(p, m);
    CompletedString(p, m');
    var x, y := m[|p|..4 + Extract(p, 4)], m'[|p|..4 + Extract(p, 4)];
    assert (p[4..] + x)[|p| - 4..] == x && (p[4..] + y)[|p| - 4..] == y;
    assert [StringA(p[4..] + x)][0] == StringA(p[4..] + x);
  }

  /** The arguments that were read, if they were. */
  function Args(d: Read<seq<Arg>>): seq<Arg> {
    if d.Got? then d.got else []
  }

  /** The next group of a list of arguments that stays inside. */
  lemma NextGroup(x: seq<ArgType>, y: seq<ArgType>, z: seq<ArgType>, s: seq<uint8>)
    requires Inside(x + y + z, s) && !Oversized(x, s) && DecodeAll(x, s).Got?
    ensures Inside(y, DecodeAll(x, s).rest)
    ensures Oversized(y, DecodeAll(x, s).rest) ==> Oversized(x + y + z, s)
    ensures Oversized(x + y, s) <==> Oversized(y, DecodeAll(x, s).rest)
  {
    hide DecodeAll, Oversized;
    OversizedSplit(x, y, s);
    OversizedSplit(x + y, z, s);
    TcpSession.DecodeSplit(x, y, s);
    TcpSession.DecodeSplit(x + y, z, s);
  }

  /** Bytes that follow do not change what is read. */
  lemma {:induction false} OversizedExtends(ts: seq<ArgType>, s: seq<uint8>, more: seq<uint8>)
    requires Inside(ts, s)
    ensures Oversized(ts, s + more) <==> Oversized(ts, s)
    ensures !Oversized(ts, s) ==> DecodeAll(ts, s + more) == Got(DecodeAll(ts, s).got, DecodeAll(ts, s).rest + more)
  {
    hide Decode, TooLong;
    if ts != [] {
      TooLongExtends(ts[0], s, more);
      var d := Decode(ts[0], s);
      if d.Got? {
        DecodeExtends(ts[0], s, more);
        if !TooLong(ts[0], s) {
          OversizedExtends(ts[1..], d.rest, more);
        }
      }
    }
  }

  lemma TooLongExtends(t: ArgType, s: seq<uint8>, more: seq<uint8>)
    ensures TooLong(t, s) ==> TooLong(t, s + more)
    ensures Decode(t, s).Got? ==> (TooLong(t, s + more) <==> TooLong(t, s))
  {
    hide Extract, ExtractScalar, Elements, ToInt;
    if |s| >= 4 {
      TcpSession.ExtractIsLocal(s, more, 4);
    }
  }

  lemma DecodeExtends(t: ArgType, s: seq<uint8>, more: seq<uint8>)
    requires Decode(t, s).Got?
    ensures Decode(t, s + more) == Got(Decode(t, s).got, Decode(t, s).rest + more)
  {
    hide Extract, ExtractScalar, Elements, ToInt;
    match t {
      case ScalarT(x) =>
        TcpSession.ExtractPrefix(x, s, more);
        Behind(s, more, x.Size());
      case ArrayT(size, n) =>
        ElementsExtend(s, more, size, n);
        Behind(s, more, size * n);
      case VectorT(size) =>
        TcpSession.ExtractIsLocal(s, more, 4);
        Behind(s, more, 4);
        ElementsExtend(s[4..], more, size, Extract(s, 4) / size);
        Behind(s[4..], more, size * (Extract(s, 4) / size));
      case StringT =>
        TcpSession.ExtractIsLocal(s, more, 4);
        Behind(s, more, 4);
        Behind(s[4..], more, Extract(s, 4));
    }
  }

  lemma Behind(s: seq<uint8>, more: seq<uint8>, k: nat)
    requires k <= |s|
    ensures (s + more)[k..] == s[k..] + more && (s + more)[..k] == s[..k]
  {
  }

  lemma ElementsExtend(s: seq<uint8>, more: seq<uint8>, size: nat, n: nat)
    requires size * n <= |s|
    ensures Elements(s + more, size, n) == Elements(s, size, n)
  {
    hide Elements;
    TcpSession.ElementsAreLocal(s, size, n);
    TcpSession.ElementsAreLocal(s + more, size, n);
    Behind(s, more, size * n);
  }

  /** struct Buffer of commands.hpp. */
  class Buffer {
    const data: array<uint8>
    var position: nat

    constructor (data: array<uint8>, position: nat)
      ensures this.data == data && this.position == position
    {
      this.data := data;
      this.position := position;
    }

    /** The bytes from the cursor to the end of the buffer. */
    ghost function Left(): seq<uint8>
      requires position <= data.Length
      reads this, data
    {
      data[position..]
    }

    /** extract_array, to_vector and to_string take their bytes at the cursor. */
    method Take(n: nat) returns (b: seq<uint8>)
      requires position + n <= data.Length
      modifies this`position
      ensures position <= data.Length && b == old(Left())[..n] && Left() == old(Left())[n..]
    {
      b := data[position..position + n];
      position := position + n;
    }

    /** deserialize<Tp...> */
    method DeserializePack(ts: seq<ScalarType>) returns (vals: seq<Arg>)
      requires position + TcpSession.PackSize(ts) <= data.Length
      modifies this`position
      ensures position <= data.Length && DecodeAll(ScalarTypes(ts), old(Left())) == Got(vals, Left())
    {
      hide DecodeAll, ScalarTypes, TcpSession.Deserialize, TcpSession.PackSize;
      ghost var s, n := Left(), TcpSession.PackSize(ts);
      var b := Take(TcpSession.PackSize(ts));
      vals := TcpSession.Deserialize(0, ts, b);
      TcpSession.PackDecodes(0, ts, b, s[n..]);
      assert b[0..] + s[n..] == s;
    }

    /** recv of an array, a vector or a string. */
    method Recv(t: ArgType) returns (err: int, got: Arg)
      requires t.Valid() && !t.ScalarT? && position <= data.Length == CMD_PAYLOAD_BUFFER_LEN
      requires TooLong(t, Left()) || Decode(t, Left()).Got?
      modifies this`position
      ensures position <= data.Length
      ensures if TooLong(t, old(Left())) then err < 0
              else err == 0 && Decode(t, old(Left())) == Got(got, Left())
    {
      hide Extract, Elements, ToInt, Decode;
      match t {
        case ArrayT(size, n) => err, got := RecvArray(size, n);
        case VectorT(size) => err, got := RecvVector(size);
        case StringT => err, got := RecvString();
      }
    }

    method RecvArray(size: nat, n: nat) returns (err: int, got: Arg)
      requires position <= data.Length && Decode(ArrayT(size, n), Left()).Got?
      modifies this`position
      ensures position <= data.Length && err == 0 && !TooLong(ArrayT(size, n), old(Left()))
      ensures Decode(ArrayT(size, n), old(Left())) == Got(got, Left())
    {
      hide Elements, ToInt;
      TcpSession.ElementsAreLocal(Left(), size, n);
      var b := Take(size * n);
      got := ArrayA(size, Elements(b, size, n));
      err := 0;
    }

    /** deserialize<uint32_t> */
    method TakeLength() returns (length: nat)
      requires position + 4 <= data.Length
      modifies this`position
      ensures position <= data.Length && length == Extract(old(Left()), 4) && Left() == old(Left())[4..]
    {
      hide Extract;
      ghost var s := Left();
      var c := Take(4);
      TcpSession.ExtractAt(c, s);
      length := Extract(c, 4);
    }

    method RecvVector(size: nat) returns (err: int, got: Arg)
      requires size > 0 && position <= data.Length == CMD_PAYLOAD_BUFFER_LEN
      requires TooLong(VectorT(size), Left()) || Decode(VectorT(size), Left()).Got?
      modifies this`position
      ensures position <= data.Length
      ensures if TooLong(VectorT(size), old(Left())) then err < 0
              else err == 0 && Decode(VectorT(size), old(Left())) == Got(got, Left())
    {
      hide Extract, Elements, ToInt;
      ghost var s := Left();
      var length := TakeLength();
      if length > CMD_PAYLOAD_BUFFER_LEN {
        return -1, StringA([]);
      }
      var n := length / size;
      TcpSession.ElementsAreLocal(s[4..], size, n);
      var b := Take(n * size);
      got := VectorA(size, Elements(b, size, n));
      err := 0;
    }

    method RecvString() returns (err: int, got: Arg)
      requires position <= data.Length == CMD_PAYLOAD_BUFFER_LEN
      requires TooLong(StringT, Left()) || Decode(StringT, Left()).Got?
      modifies this`position
      ensures position <= data.Length
      ensures if TooLong(StringT, old(Left())) then err < 0
              else err == 0 && Decode(StringT, old(Left())) == Got(got, Left())
    {
      hide Extract, ToInt;
      var length := TakeLength();
      if length > CMD_PAYLOAD_BUFFER_LEN {
        return -1, StringA([]);
      }
      var b := Take(length);
      got := StringA(b);
      err := 0;
    }

    /** One group of the generated parser. */
    method ReadPack(p: Pack) returns (err: int, vals: seq<Arg>)
      requires TcpSession.ValidTypes(PackTypes(p)) && (p.ContainerPack? ==> !p.t.ScalarT?)
      requires position <= data.Length == CMD_PAYLOAD_BUFFER_LEN && Inside(PackTypes(p), Left())
      modifies this`position
      ensures position <= data.Length
      ensures if Oversized(PackTypes(p), old(Left())) then err < 0
              else err >= 0 && DecodeAll(PackTypes(p), old(Left())) == Got(vals, Left())
    {
      hide Decode, DecodeAll, ScalarTypes, TooLong;
      match p {
        case ScalarPack(ts) =>
          ScalarsAreNotOversized(ts, Left());
          if |Left()| < TcpSession.PackSize(ts) {
            TcpSession.PackTooShort(ts, Left());
          }
          err := 0;
          vals := DeserializePack(ts);
        case ContainerPack(t) =>
          TcpSession.DecodeOne(t, Left());
          OversizedOne(t, Left());
          assert t in PackTypes(p);
          var a;
          err, a := Recv(t);
          vals := [a];
      }
    }

    /** The generated parser, on the cursor: the arguments that the format gives, or a negative
        result at the first count above the size of the buffer. */
    method ParseArgs(packs: seq<Pack>) returns (err: int, args: seq<Arg>)
      requires Grouped(packs) && TcpSession.ValidTypes(AllTypes(packs))
      requires position <= data.Length == CMD_PAYLOAD_BUFFER_LEN && Inside(AllTypes(packs), Left())
      modifies this`position
      ensures position <= data.Length
      ensures if Oversized(AllTypes(packs), old(Left())) then err < 0
              else err >= 0 && DecodeAll(AllTypes(packs), old(Left())) == Got(args, Left())
    {
      hide DecodeAll, AllTypes, Oversized, Inside, PackTypes;
      args := [];
      err := 0;
      ghost var s := Left();
      NoTypes(s);
      for i := 0 to |packs|
        invariant position <= data.Length && err >= 0
        invariant !Oversized(AllTypes(packs[..i]), s) && DecodeAll(AllTypes(packs[..i]), s) == Got(args, Left())
      {
        ghost var x, y := AllTypes(packs[..i]), PackTypes(packs[i]);
        TcpSession.PackOfTypes(packs, i);
        TcpSession.TypesOfPrefix(packs, i + 1);
        ghost var z := AllTypes(packs)[|x + y|..];
        assert AllTypes(packs) == x + y + z;
        NextGroup(x, y, z, s);
        TcpSession.DecodeSplit(x, y, s);
        var vals;
        err, vals := ReadPack(packs[i]);
        if err < 0 {
          return;
        }
        args := args + vals;
      }
      assert packs[..|packs|] == packs;
    }
  }

  lemma OversizedOne(t: ArgType, s: seq<uint8>)
    ensures Oversized([t], s) <==> TooLong(t, s)
  {
    hide Decode, TooLong;
  }

  lemma NoTypes(s: seq<uint8>)
    ensures AllTypes([]) == [] && !Oversized([], s) && DecodeAll([], s) == Got([], s)
    ensures forall packs: seq<Pack> :: AllTypes(packs[..0]) == []
  {
  }

  // ---------------------------------------------------------------- the session

  /** The operation that the payload of a frame names. */
  function Operation(d: seq<uint8>): (nat, nat)
    requires |d| >= 8
  {
    (Extract(d[4..], 2), Extract(d[6..], 2))
  }

  /** The stream starts with a frame that is a command. */
  predicate IsCommand(s: seq<uint8>) {
    Deliverable(s) && |Data(s)| >= 8
  }

  /** The stream behind the first command. */
  function Next(s: seq<uint8>): seq<uint8>
    requires IsCommand(s)
  {
    s[FrameEnd(s)..]
  }

  /** What the memory held where the payload buffers of the commands are placed. */
  type Memory = nat -> seq<uint8>

  ghost predicate OfBuffers(unset: Memory) {
    forall k :: |unset(k)| == CMD_PAYLOAD_BUFFER_LEN
  }

  /** What becomes of a command whose payload buffer is b: its arguments leave the buffer; it fails,
      because its operation is unknown or a count is above the size of the buffer; or it is
      executed. */
  datatype Outcome = Leaves | Fails | Does(args: seq<Arg>)

  function OutcomeOf(table: TcpSession.Table, op: (nat, nat), b: seq<uint8>): Outcome {
    if op !in table then Fails
    else if !Inside(table[op], b) then Leaves
    else if Oversized(table[op], b) then Fails
    else Does(DecodeAll(table[op], b).got)
  }

  /** What a stream of frames asks of a server with driver numbers below deviceNum, up to the first
      frame that is no command. Commands of unknown operations, and those with a count above the
      size of the payload buffer, fail without ending the session; one for a driver that does not
      exist, or whose arguments leave the buffer, ends it. The k-th buffer is filled with
      unset(k). */
  function Serve(table: TcpSession.Table, deviceNum: nat, s: seq<uint8>, unset: Memory, k: nat): TcpSession.Service
    decreases |s|
  {
    if !IsCommand(s) then TcpSession.Service([], [], TcpSession.Finished)
    else
      var op := Operation(Data(s));
      if op.0 >= deviceNum then TcpSession.Service([], [], TcpSession.NoSuchDriver)
      else
        var b, others := Filled(Data(s)[8..], unset(k)), Serve(table, deviceNum, Next(s), unset, k + 1);
        var driver := TcpSession.DriverOf(op.0);
        match OutcomeOf(table, op, b)
        case Leaves => TcpSession.Service([], driver, TcpSession.Unreadable)
        case Fails => others.Behind([], driver)
        case Does(args) => others.Behind([TcpSession.Command(op.0, op.1, args)], driver)
  }

  /** Every command names a driver that exists, and its arguments lie within its frame. */
  predicate Sound(table: TcpSession.Table, deviceNum: nat, s: seq<uint8>)
    decreases |s|
  {
    IsCommand(s) ==>
      && Operation(Data(s)).0 < deviceNum
      && (Operation(Data(s)) in table ==> Inside(table[Operation(Data(s))], Data(s)[8..]))
      && Sound(table, deviceNum, Next(s))
  }

  class Session {
    const websock: WebSocket
    const manager: DriverManager

    constructor (websock: WebSocket, manager: DriverManager)
      ensures this.websock == websock && this.manager == manager
    {
      this.websock := websock;
      this.manager := manager;
    }

    ghost function Parts(): set<object> {
      {websock, websock.readStr, websock.sendBuf, websock.sock}
    }

    ghost function Incoming(): seq<uint8>
      reads Parts()
    {
      websock.sock.incoming
    }

    ghost function Faults(): nat
      reads Parts()
    {
      websock.sock.faults
    }

    /** The socket is open, and a header that is cut short does no harm. */
    ghost predicate Listening()
      reads Parts()
    {
      websock.Ready() && !websock.connectionClosed && websock.CutIsHarmless(Incoming())
    }

    /** read_command */
    method ReadCommand(cmd: Command) returns (r: int, classId: nat, funcId: nat)
      requires Listening() && cmd.Shape() && cmd.header != websock.readStr && cmd.payload != websock.readStr
      modifies websock, websock.readStr, websock.sock`incoming, websock.sock`faults, cmd.header, cmd.payload
      ensures websock.Shape() && websock.sock.faults <= old(websock.sock.faults) && (r == 8 || r == 0 || r == -1)
      ensures r > 0 ==>
                var s := old(websock.sock.incoming);
                && IsCommand(s) && (classId, funcId) == Operation(Data(s)) && Listening() && websock.headerKnown
                && websock.sock.incoming == Next(s)
                && cmd.payload[..] == Filled(Data(s)[8..], old(cmd.payload[..]))
      ensures r == 0 ==> websock.connectionClosed
      ensures IsCommand(old(websock.sock.incoming)) && websock.sock.faults == old(websock.sock.faults) ==> r > 0
      ensures ParseFrame(old(websock.sock.incoming)).Incomplete? ==> r <= 0
    {
      hide Data, ParseFrame, HeaderCut, DataHeader, Announced, HeaderEnd, Filled, ToInt;
      ghost var s := websock.sock.incoming;
      ViewOfFrame(s);
      HeaderIsThere(s);
      classId, funcId := 0, 0;
      ghost var m := cmd.payload[..];
      var received := websock.ReceiveCmd(cmd);
      if received < 0 {
        return -1, classId, funcId;
      }
      if websock.connectionClosed {
        return 0, classId, funcId;
      }
      DataLength(s);
      if websock.payloadSize < 8 {
        return -1, classId, funcId;
      }
      HeldCommand(cmd, Data(s), m);
      websock.KnownIsHarmless(websock.sock.incoming);
      classId := Extract(cmd.header[4..], 2);
      funcId := Extract(cmd.header[6..], 2);
      return 8, classId, funcId;
    }

    /** A command object, filled by read_command. */
    method NextCommand(unset: seq<uint8>, ghost asked: seq<nat>, ghost d: DriverStartup.State)
      returns (r: int, classId: nat, funcId: nat, cmd: Command)
      requires Listening() && |unset| == CMD_PAYLOAD_BUFFER_LEN
      requires Parts() !! manager.Repr() && TcpSession.After(manager, asked, d)
      modifies Parts()
      ensures TcpSession.After(manager, asked, d)
      ensures Faults() <= old(Faults()) && cmd.Shape() && fresh(cmd.payload)
      ensures r > 0 ==>
                var s := old(Incoming());
                && IsCommand(s) && (classId, funcId) == Operation(Data(s)) && Listening()
                && Incoming() == Next(s) && |Next(s)| < |s|
                && cmd.payload[..] == Filled(Data(s)[8..], unset)
      ensures r <= 0 && Faults() == old(Faults()) ==> !IsCommand(old(Incoming()))
    {
      hide Data, ParseFrame, HeaderCut, DataHeader, Announced, HeaderEnd, Filled, Next, Operation, Deliverable,
           TcpSession.After;
      NextIsShorter(Incoming());
      cmd := new Command(unset);
      r, classId, funcId := ReadCommand(cmd);
    }

    /** run, for a server that knows the operations of the table: the operations it executes, the
        drivers it asks the manager for, and how it ends. It is followed up to a command for a
        driver that does not exist, where execute stops on an assertion or reads behind its
        arrays, and to one whose arguments leave the payload buffer. The reply of the closing-th
        executed operation is the first that finds the connection closed, which ends the session. */
    method Run(table: TcpSession.Table, unset: Memory, closing: nat)
      returns (executed: seq<TcpSession.Command>, asked: seq<nat>, ending: TcpSession.Ending)
      requires manager.Valid() && manager.Abs().starting == {} && Parts() !! manager.Repr() && Listening()
      requires TcpSession.ValidTable(table, |manager.deps| + 2) && OfBuffers(unset) && closing > 0
      modifies Parts(), manager.Repr()
      ensures TcpSession.After(manager, asked, old(manager.Abs()))
      ensures Faults() <= old(Faults())
      ensures Follows(Serve(table, |manager.deps| + 2, old(Incoming()), unset, 0), closing,
                      executed, asked, ending, Faults() == old(Faults()))
    {
      hide Extract, Serve, Data, Filled, Reached, Follows, OutcomeOf, TcpSession.After, TcpSession.ValidTable,
           TcpSession.DriverOf, Next, Operation, Deliverable, Incoming, Faults, Listening;
      executed, asked, ending := [], [], TcpSession.Finished;
      var deviceNum := |manager.deps| + 2;
      var k := 0;
      ghost var s := Incoming();
      NothingYet(table, deviceNum, s, unset);
      TcpSession.NothingAsked(manager);
      while true
        invariant Listening() && |executed| < closing && ending.Finished?
        invariant TcpSession.After(manager, asked, old(manager.Abs()))
        invariant Reached(table, deviceNum, s, Incoming(), unset, k, executed, asked)
        invariant Faults() <= old(Faults())
        decreases |Incoming()|
      {
        ghost var here := Incoming();
        var r, classId, funcId, cmd := NextCommand(unset(k), asked, old(manager.Abs()));
        if r <= 0 {
          NoFurther(table, deviceNum, s, here, unset, k, executed, asked, closing, Faults() == old(Faults()));
          return;
        }
        if classId >= deviceNum {
          ending := TcpSession.NoSuchDriver;
          Refused(table, deviceNum, s, here, unset, k, executed, asked, closing, Faults() == old(Faults()));
          return;
        }
        ghost var before := asked;
        var outcome;
        asked, outcome := Obey(table, (classId, funcId), cmd, asked, old(manager.Abs()));
        Performed(table, deviceNum, s, here, unset, k, executed, before, outcome, closing, Faults() == old(Faults()));
        match outcome {
          case Leaves =>
            ending := TcpSession.Unreadable;
            return;
          case Fails =>
          case Does(args) =>
            executed := executed + [TcpSession.Command(classId, funcId, args)];
            if |executed| == closing {
              Enough(table, deviceNum, s, Next(here), unset, k + 1, executed, asked);
              Leave(asked, old(manager.Abs()));
              return;
            }
        }
        k := k + 1;
      }
    }

    /** execute of the driver manager, and of the driver */
    method Obey(table: TcpSession.Table, op: (nat, nat), cmd: Command, asked0: seq<nat>, ghost s: DriverStartup.State)
      returns (asked: seq<nat>, outcome: Outcome)
      requires TcpSession.ValidTable(table, |manager.deps| + 2) && cmd.Shape() && cmd.payload !in manager.Repr()
      requires op.0 < |manager.deps| + 2 && TcpSession.After(manager, asked0, s)
      modifies manager.Repr()
      ensures asked == asked0 + TcpSession.DriverOf(op.0) && TcpSession.After(manager, asked, s)
      ensures outcome == OutcomeOf(table, op, old(cmd.payload[..]))
    {
      hide TcpSession.After, TcpSession.ValidTable, OutcomeOf;
      asked := TcpSession.HandOver(manager, op.0, asked0, s);
      outcome := Perform(table, op, cmd);
    }

    /** exit_session */
    method Leave(ghost asked: seq<nat>, ghost d: DriverStartup.State)
      requires Listening() && Parts() !! manager.Repr() && TcpSession.After(manager, asked, d)
      modifies Parts()
      ensures Faults() <= old(Faults()) && TcpSession.After(manager, asked, d)
    {
      hide TcpSession.After;
      var sent := websock.Exit();
    }

    /** What the driver does with a command of a known operation first, and what it answers to an
        unknown one. */
    method Perform(table: TcpSession.Table, op: (nat, nat), cmd: Command) returns (outcome: Outcome)
      requires TcpSession.ValidTable(table, |manager.deps| + 2) && cmd.Shape()
      ensures outcome == OutcomeOf(table, op, cmd.payload[..])
    {
      hide DecodeAll, Oversized, Inside, TcpSession.ValidTypes;
      if op !in table {
        return Fails;
      }
      if !Inside(table[op], cmd.payload[..]) {
        return Leaves;
      }
      var err, args := Execute(table[op], cmd);
      return if err >= 0 then Does(args) else Fails;
    }

    /** What the generated code for one operation does first: its arguments from the payload. */
    method Execute(ts: seq<ArgType>, cmd: Command) returns (err: int, args: seq<Arg>)
      requires TcpSession.ValidTypes(ts) && cmd.Shape() && Inside(ts, cmd.payload[..])
      ensures if Oversized(ts, cmd.payload[..]) then err < 0
              else err >= 0 && DecodeAll(ts, cmd.payload[..]).Got? && args == DecodeAll(ts, cmd.payload[..]).got
    {
      hide DecodeAll, Oversized, Inside;
      var packs, hasVector := BuildArgsPacks(ts);
      var payload := new Buffer(cmd.payload, 0);
      assert payload.Left() == cmd.payload[..];
      err, args := payload.ParseArgs(packs);
    }
  }

  /** A run that executes at most closing operations does what serving the stream is, or, when a
      read fails, the beginning of it. */
  ghost predicate Follows(v: TcpSession.Service, closing: nat, executed: seq<TcpSession.Command>, asked: seq<nat>,
                          ending: TcpSession.Ending, calm: bool)
  {
    && executed <= v.executed && asked <= v.drivers && |executed| <= closing
    && (calm && |executed| < closing ==> v == TcpSession.Service(executed, asked, ending))
  }

  /** A session that was given the stream s has reached the rest of it, after k commands. */
  ghost predicate Reached(table: TcpSession.Table, deviceNum: nat, s: seq<uint8>, rest: seq<uint8>, unset: Memory,
                          k: nat, executed: seq<TcpSession.Command>, asked: seq<nat>)
  {
    Serve(table, deviceNum, s, unset, 0) == Serve(table, deviceNum, rest, unset, k).Behind(executed, asked)
  }

  lemma NothingYet(table: TcpSession.Table, deviceNum: nat, s: seq<uint8>, unset: Memory)
    ensures Reached(table, deviceNum, s, s, unset, 0, [], [])
  {
    hide Serve;
    TcpSession.NothingBehind(Serve(table, deviceNum, s, unset, 0));
  }

  lemma NextIsShorter(s: seq<uint8>)
    ensures IsCommand(s) ==> |Next(s)| < |s|
  {
    hide Announced;
  }

  lemma NoFurther(table: TcpSession.Table, deviceNum: nat, s: seq<uint8>, rest: seq<uint8>, unset: Memory, k: nat,
                  executed: seq<TcpSession.Command>, asked: seq<nat>, closing: nat, calm: bool)
    requires Reached(table, deviceNum, s, rest, unset, k, executed, asked)
    requires |executed| < closing && (calm ==> !IsCommand(rest))
    ensures Follows(Serve(table, deviceNum, s, unset, 0), closing, executed, asked, TcpSession.Finished, calm)
  {
    hide Serve;
    ServeStep(table, deviceNum, rest, unset, k);
  }

  lemma Refused(table: TcpSession.Table, deviceNum: nat, s: seq<uint8>, rest: seq<uint8>, unset: Memory, k: nat,
                executed: seq<TcpSession.Command>, asked: seq<nat>, closing: nat, calm: bool)
    requires Reached(table, deviceNum, s, rest, unset, k, executed, asked)
    requires |executed| < closing && IsCommand(rest) && Operation(Data(rest)).0 >= deviceNum
    ensures Follows(Serve(table, deviceNum, s, unset, 0), closing, executed, asked, TcpSession.NoSuchDriver, calm)
  {
    hide Serve, Operation, Data, Deliverable;
    ServeStep(table, deviceNum, rest, unset, k);
  }

  lemma Performed(table: TcpSession.Table, deviceNum: nat, s: seq<uint8>, rest: seq<uint8>, unset: Memory, k: nat,
                  executed: seq<TcpSession.Command>, asked: seq<nat>, outcome: Outcome, closing: nat, calm: bool)
    requires Reached(table, deviceNum, s, rest, unset, k, executed, asked) && |executed| < closing
    requires IsCommand(rest) && Operation(Data(rest)).0 < deviceNum
    requires outcome == OutcomeOf(table, Operation(Data(rest)), Filled(Data(rest)[8..], unset(k)))
    ensures var op := Operation(Data(rest));
            var driver := asked + TcpSession.DriverOf(op.0);
            match outcome
            case Leaves => Follows(Serve(table, deviceNum, s, unset, 0), closing, executed, driver,
                                   TcpSession.Unreadable, calm)
            case Fails => Reached(table, deviceNum, s, Next(rest), unset, k + 1, executed, driver)
            case Does(args) => Reached(table, deviceNum, s, Next(rest), unset, k + 1,
                                       executed + [TcpSession.Command(op.0, op.1, args)], driver)
  {
    hide Serve, Operation, Data, Deliverable, TcpSession.DriverOf, OutcomeOf, Filled, Next;
    ServeStep(table, deviceNum, rest, unset, k);
    var op := Operation(Data(rest));
    var c := if outcome.Does? then [TcpSession.Command(op.0, op.1, outcome.args)] else [];
    assert executed + [] == executed;
    TcpSession.OneBehind(Serve(table, deviceNum, Next(rest), unset, k + 1), executed, c, asked,
                         TcpSession.DriverOf(op.0));
  }

  lemma Enough(table: TcpSession.Table, deviceNum: nat, s: seq<uint8>, rest: seq<uint8>, unset: Memory, k: nat,
               executed: seq<TcpSession.Command>, asked: seq<nat>)
    requires Reached(table, deviceNum, s, rest, unset, k, executed, asked)
    ensures forall calm ::
              Follows(Serve(table, deviceNum, s, unset, 0), |executed|, executed, asked, TcpSession.Finished, calm)
  {
    hide Serve;
  }

  lemma HeldCommand(cmd: Command, d: seq<uint8>, m: seq<uint8>)
    requires cmd.Shape() && 8 <= |d| <= MAX_PAYLOAD && Holds(cmd, d) && |m| == CMD_PAYLOAD_BUFFER_LEN
    requires forall i :: |d| - 8 <= i < |m| ==> cmd.payload[i] == m[i]
    ensures Operation(d) == (Extract(cmd.header[4..], 2), Extract(cmd.header[6..], 2))
    ensures cmd.payload[..] == Filled(d[8..], m)
  {
    forall i | 0 <= i < |d| - 8
      ensures cmd.payload[i] == d[8 + i]
    {
      assert cmd.payload[i + 8 - 8] == d[i + 8];
    }
  }

  lemma ServeStep(table: TcpSession.Table, deviceNum: nat, s: seq<uint8>, unset: Memory, k: nat)
    ensures !IsCommand(s) ==>
              Serve(table, deviceNum, s, unset, k) == TcpSession.Service([], [], TcpSession.Finished)
    ensures IsCommand(s) ==>
              var d, rest := Data(s), Next(s);
              var op := Operation(d);
              && |rest| < |s| && 8 <= |d| <= MAX_PAYLOAD
              && (op.0 >= deviceNum ==>
                    Serve(table, deviceNum, s, unset, k) == TcpSession.Service([], [], TcpSession.NoSuchDriver))
              && (op.0 < deviceNum ==>
                    var b, others := Filled(d[8..], unset(k)), Serve(table, deviceNum, rest, unset, k + 1);
                    var driver := TcpSession.DriverOf(op.0);
                    Serve(table, deviceNum, s, unset, k) ==
                      match OutcomeOf(table, op, b)
                      case Leaves => TcpSession.Service([], driver, TcpSession.Unreadable)
                      case Fails => others.Behind([], driver)
                      case Does(args) => others.Behind([TcpSession.Command(op.0, op.1, args)], driver))
  {
    hide Extract, Data, Announced, Filled, OutcomeOf;
    if IsCommand(s) {
      DataLength(s);
    }
  }

  /** When every command names a driver that exists and stays within its frame, what the buffers
      held does not matter, and the session is served to its end. */
  lemma {:induction false} SoundIsSteady(table: TcpSession.Table, deviceNum: nat, s: seq<uint8>,
                                         unset: Memory, k: nat, unset': Memory, k': nat)
    requires Sound(table, deviceNum, s)
    ensures Serve(table, deviceNum, s, unset, k) == Serve(table, deviceNum, s, unset', k')
    ensures Serve(table, deviceNum, s, unset, k).ending.Finished?
    decreases |s|
  {
    hide Extract, DecodeAll, Oversized, Data, Announced, Filled, Inside, Serve, OutcomeOf;
    ServeStep(table, deviceNum, s, unset, k);
    ServeStep(table, deviceNum, s, unset', k');
    if IsCommand(s) {
      var p, op := Data(s)[8..], Operation(Data(s));
      SoundIsSteady(table, deviceNum, Next(s), unset, k + 1, unset', k' + 1);
      SteadyOutcome(table, op, p, unset(k));
      SteadyOutcome(table, op, p, unset'(k'));
    }
  }

  lemma SteadyOutcome(table: TcpSession.Table, op: (nat, nat), p: seq<uint8>, m: seq<uint8>)
    requires op in table ==> Inside(table[op], p)
    ensures !OutcomeOf(table, op, p).Leaves? && OutcomeOf(table, op, Filled(p, m)) == OutcomeOf(table, op, p)
  {
    hide DecodeAll, Oversized, Inside, Filled;
    if op in table {
      InsideFilled(table[op], p, m);
    }
  }

  lemma InsideFilled(ts: seq<ArgType>, p: seq<uint8>, m: seq<uint8>)
    requires Inside(ts, p)
    ensures Inside(ts, Filled(p, m)) && (Oversized(ts, Filled(p, m)) <==> Oversized(ts, p))
    ensures !Oversized(ts, p) ==> DecodeAll(ts, p).Got? && DecodeAll(ts, Filled(p, m)).Got?
    ensures !Oversized(ts, p) ==> DecodeAll(ts, Filled(p, m)).got == DecodeAll(ts, p).got
  {
    hide DecodeAll, Oversized;
    if |p| <= |m| {
      OversizedExtends(ts, p, m[|p|..]);
    }
  }

  // ---------------------------------------------------------------- the whole trip

  /** The frame in which a client sends a call. */
  function Frame(c: TcpSession.Command, key: seq<uint8>): seq<uint8>
    requires |key| == 4
  {
    ClientFrame(BINARY_FRAME, key, Message(c.classId, c.funcId, c.args))
  }

  /** The frames in which a client sends calls, each masked with its own key. */
  function Frames(cmds: seq<TcpSession.Command>, keys: seq<seq<uint8>>): seq<uint8>
    requires |keys| == |cmds| && forall k :: k in keys ==> |k| == 4
  {
    if cmds == [] then []
    else
      Frame(cmds[0], keys[0]) + Frames(cmds[1..], keys[1..])
  }

  /** The message passes the size check, and its frame is not exactly 16384 bytes long. */
  predicate Passes(c: TcpSession.Command) {
    var n := |Message(c.classId, c.funcId, c.args)|;
    n <= MAX_PAYLOAD && 5 + |LengthField(n)| + n != KOHERON_READ_STR_LEN
  }

  /** In numbers: with eight bytes of frame header for such a message, 16376 bytes are the message
      that does not pass. */
  lemma PassesAre(c: TcpSession.Command)
    ensures Passes(c) <==> |EncodeAll(c.args)| <= 262080 && |EncodeAll(c.args)| != 16368
  {
    hide EncodeAll;
    MessageSize(c.classId, c.funcId, c.args);
    LengthFieldSize(|Message(c.classId, c.funcId, c.args)|);
    hide Message;
  }

  lemma LengthFieldSize(n: nat)
    ensures |LengthField(n)| == if n <= 125 then 1 else if n <= 0xFFFF then 3 else 9
  {
    hide BigEndian;
  }

  /** The calls before the first one that does not pass or names no driver. */
  function Heard(deviceNum: nat, cmds: seq<TcpSession.Command>): seq<TcpSession.Command> {
    if cmds == [] || !Passes(cmds[0]) || cmds[0].classId >= deviceNum then []
    else [cmds[0]] + Heard(deviceNum, cmds[1..])
  }

  /** The calls of known operations. */
  function Known(table: TcpSession.Table, cmds: seq<TcpSession.Command>): seq<TcpSession.Command> {
    if cmds == [] then []
    else (if IsKnown(table, cmds[0]) then [cmds[0]] else []) + Known(table, cmds[1..])
  }

  predicate IsKnown(table: TcpSession.Table, c: TcpSession.Command) {
    (c.classId, c.funcId) in table
  }

  /** The session ends because of a missing driver exactly when the first call that is not heard
      passes. */
  function EndingOf(deviceNum: nat, cmds: seq<TcpSession.Command>): TcpSession.Ending {
    var n := |Heard(deviceNum, cmds)|;
    if n < |cmds| && Passes(cmds[n]) then TcpSession.NoSuchDriver else TcpSession.Finished
  }

  predicate AllPass(cmds: seq<TcpSession.Command>) {
    forall c :: c in cmds ==> Passes(c)
  }

  predicate AllKnown(table: TcpSession.Table, cmds: seq<TcpSession.Command>) {
    forall c :: c in cmds ==> IsKnown(table, c)
  }

  /** The arguments of known operations fit. */
  ghost predicate KnownFit(table: TcpSession.Table, cmds: seq<TcpSession.Command>) {
    forall c :: c in cmds && IsKnown(table, c) ==> AllFit(c.args)
  }

  lemma {:induction false} HeardIsAll(deviceNum: nat, cmds: seq<TcpSession.Command>)
    ensures Heard(deviceNum, cmds) <= cmds
    ensures Heard(deviceNum, cmds) == cmds <==> AllPass(cmds) && forall c :: c in cmds ==> c.classId < deviceNum
  {
    hide Passes, AllPass;
    AllOrFirst(deviceNum, cmds);
    if cmds != [] {
      HeardIsAll(deviceNum, cmds[1..]);
      SameFirst(cmds[0], Heard(deviceNum, cmds[1..]), cmds[1..]);
      assert cmds == [cmds[0]] + cmds[1..];
    }
  }

  lemma AllOrFirst(deviceNum: nat, cmds: seq<TcpSession.Command>)
    ensures AllPass(cmds) <==> cmds == [] || (Passes(cmds[0]) && AllPass(cmds[1..]))
    ensures (forall c :: c in cmds ==> c.classId < deviceNum) <==>
            cmds == [] || (cmds[0].classId < deviceNum && forall c :: c in cmds[1..] ==> c.classId < deviceNum)
  {
    hide Passes;
    assert cmds != [] ==> forall c :: c in cmds <==> c == cmds[0] || c in cmds[1..];
  }

  lemma SameFirst<T>(c: T, x: seq<T>, y: seq<T>)
    requires x <= y
    ensures [c] + x <= [c] + y && ([c] + x == [c] + y <==> x == y)
  {
    assert ([c] + x)[1..] == x && ([c] + y)[1..] == y;
  }

  /** A call of an operation that is unknown, or called with the arguments it has; its message is
      shorter than 2^63 bytes. */
  ghost predicate Sendable(table: TcpSession.Table, c: TcpSession.Command) {
    && c.classId < 0x1_0000 && c.funcId < 0x1_0000 && ValidArgs(c.args)
    && (IsKnown(table, c) ==> Types(c.args) == table[(c.classId, c.funcId)])
    && |Message(c.classId, c.funcId, c.args)| < 0x8000_0000_0000_0000
  }

  /** What a stream of calls asks for, when the arguments of known operations fit: the known ones
      among those that are heard. The session ends before the stream does if and only if a call
      names a driver that does not exist and all before it pass. */
  lemma {:induction false} ServedFrames(table: TcpSession.Table, deviceNum: nat, cmds: seq<TcpSession.Command>,
                                        keys: seq<seq<uint8>>, unset: Memory, k: nat)
    requires |keys| == |cmds| && (forall x :: x in keys ==> |x| == 4) && OfBuffers(unset)
    requires (forall c :: c in cmds ==> Sendable(table, c)) && KnownFit(table, cmds)
    ensures Serve(table, deviceNum, Frames(cmds, keys), unset, k) ==
              TcpSession.Service(Known(table, Heard(deviceNum, cmds)),
                                 TcpSession.Addressed(Heard(deviceNum, cmds)), EndingOf(deviceNum, cmds))
  {
    hide *;
    if cmds == [] {
      NothingServed(table, deviceNum, keys, unset, k);
    } else {
      var c, more := cmds[0], Frames(cmds[1..], keys[1..]);
      FirstSendable(table, cmds, keys);
      FramesFirst(cmds, keys);
      FirstKnownFits(table, cmds);
      FirstFrame(table, deviceNum, c, keys[0], more, unset, k);
      ServedFrames(table, deviceNum, cmds[1..], keys[1..], unset, k + 1);
      HeardFirst(table, deviceNum, cmds, Serve(table, deviceNum, more, unset, k + 1));
    }
  }

  lemma FirstSendable(table: TcpSession.Table, cmds: seq<TcpSession.Command>, keys: seq<seq<uint8>>)
    requires cmds != [] && |keys| == |cmds| && (forall x :: x in keys ==> |x| == 4)
    requires forall c :: c in cmds ==> Sendable(table, c)
    ensures |keys[0]| == 4 && |keys[1..]| == |cmds[1..]| && (forall x :: x in keys[1..] ==> |x| == 4)
    ensures Sendable(table, cmds[0]) && forall c :: c in cmds[1..] ==> Sendable(table, c)
  {
    hide Sendable;
  }

  lemma FramesFirst(cmds: seq<TcpSession.Command>, keys: seq<seq<uint8>>)
    requires cmds != [] && |keys| == |cmds| && (forall x :: x in keys ==> |x| == 4)
    ensures Frames(cmds, keys) == Frame(cmds[0], keys[0]) + Frames(cmds[1..], keys[1..])
  {
    hide ClientFrame, Message;
  }

  lemma FirstKnownFits(table: TcpSession.Table, cmds: seq<TcpSession.Command>)
    requires cmds != []
    ensures KnownFit(table, cmds) <==> (IsKnown(table, cmds[0]) ==> AllFit(cmds[0].args)) && KnownFit(table, cmds[1..])
  {
    hide AllFit, IsKnown;
    assert forall c :: c in cmds <==> c == cmds[0] || c in cmds[1..];
  }

  lemma NothingServed(table: TcpSession.Table, deviceNum: nat, keys: seq<seq<uint8>>, unset: Memory, k: nat)
    requires keys == []
    ensures Frames([], keys) == []
    ensures Serve(table, deviceNum, [], unset, k) == TcpSession.Service([], [], TcpSession.Finished)
    ensures Known(table, Heard(deviceNum, [])) == [] && TcpSession.Addressed(Heard(deviceNum, [])) == []
    ensures EndingOf(deviceNum, []) == TcpSession.Finished
  {
  }

  /** The outcome for the first call and those behind it. */
  lemma HeardFirst(table: TcpSession.Table, deviceNum: nat, cmds: seq<TcpSession.Command>, w: TcpSession.Service)
    requires cmds != []
    requires w == TcpSession.Service(Known(table, Heard(deviceNum, cmds[1..])),
                                     TcpSession.Addressed(Heard(deviceNum, cmds[1..])), EndingOf(deviceNum, cmds[1..]))
    ensures TcpSession.Service(Known(table, Heard(deviceNum, cmds)),
                               TcpSession.Addressed(Heard(deviceNum, cmds)), EndingOf(deviceNum, cmds)) ==
            if !Passes(cmds[0]) then TcpSession.Service([], [], TcpSession.Finished)
            else if cmds[0].classId >= deviceNum then TcpSession.Service([], [], TcpSession.NoSuchDriver)
            else w.Behind(if IsKnown(table, cmds[0]) then [cmds[0]] else [], TcpSession.DriverOf(cmds[0].classId))
  {
    hide Passes, IsKnown;
    var h := Heard(deviceNum, cmds);
    if Passes(cmds[0]) && cmds[0].classId < deviceNum {
      assert h[0] == cmds[0] && h[1..] == Heard(deviceNum, cmds[1..]);
      assert |h| < |cmds| ==> cmds[|h|] == cmds[1..][|h| - 1];
    }
  }

  /** What is read for a call in a frame: the call, if and only if its arguments fit. */
  lemma FirstFrame(table: TcpSession.Table, deviceNum: nat, c: TcpSession.Command, key: seq<uint8>, rest: seq<uint8>,
                   unset: Memory, k: nat)
    requires |key| == 4 && Sendable(table, c) && OfBuffers(unset)
    ensures var s := Frame(c, key) + rest;
            var v, others := Serve(table, deviceNum, s, unset, k), Serve(table, deviceNum, rest, unset, k + 1);
            var driver := TcpSession.DriverOf(c.classId);
            && !HeaderCut(s)
            && if !Passes(c) then v == TcpSession.Service([], [], TcpSession.Finished)
               else if c.classId >= deviceNum then v == TcpSession.Service([], [], TcpSession.NoSuchDriver)
               else if !IsKnown(table, c) then v == others.Behind([], driver)
               else if AllFit(c.args) then v == others.Behind([c], driver)
               else
                 && |v.executed| <= 1 + |others.executed|
                 && (|v.executed| == 1 + |others.executed| ==> v.executed[0] != c)
  {
    hide Serve, Frame, Message, Oversized, Inside, DecodeAll, Types, AllFit, ValidArgs, Filled, Data, HeaderCut, Next,
         Passes, Operation, IsCommand, TcpSession.DriverOf;
    var s, others := Frame(c, key) + rest, Serve(table, deviceNum, rest, unset, k + 1);
    FrameServed(c, key, rest);
    ServeStep(table, deviceNum, s, unset, k);
    if Passes(c) {
      CallReads(c, unset(k));
      if IsKnown(table, c) && c.classId < deviceNum {
        var b := Filled(Message(c.classId, c.funcId, c.args)[8..], unset(k));
        InsideIsGot(Types(c.args), b);
      }
    }
  }

  lemma InsideIsGot(ts: seq<ArgType>, b: seq<uint8>)
    ensures Inside(ts, b) && !Oversized(ts, b) ==> DecodeAll(ts, b).Got?
  {
    hide Oversized, DecodeAll;
  }

  /** The frame of a call that passes is a command, which holds the message. */
  lemma FrameServed(c: TcpSession.Command, key: seq<uint8>, rest: seq<uint8>)
    requires |key| == 4 && |Message(c.classId, c.funcId, c.args)| < 0x8000_0000_0000_0000
    ensures var s := Frame(c, key) + rest;
            && !HeaderCut(s) && (IsCommand(s) <==> Passes(c))
            && (Passes(c) ==> Data(s) == Message(c.classId, c.funcId, c.args) && Next(s) == rest)
  {
    hide Message, ClientFrame, LengthField, Data, Deliverable, DataHeader, Announced, HeaderEnd, HeaderCut, FrameEnd;
    var m := Message(c.classId, c.funcId, c.args);
    MessageSize(c.classId, c.funcId, c.args);
    FrameArrives(key, m, rest);
    HeaderIsThere(Frame(c, key) + rest);
  }

  lemma MessageSize(classId: nat, funcId: nat, args: seq<Arg>)
    ensures |Message(classId, funcId, args)| == 8 + |EncodeAll(args)|
  {
    hide EncodeAll;
  }

  lemma HeaderIsThere(s: seq<uint8>)
    ensures DataHeader(s) ==> !HeaderCut(s)
  {
  }

  /** A client's frame is delivered exactly when it passes. */
  lemma FrameArrives(key: seq<uint8>, m: seq<uint8>, rest: seq<uint8>)
    requires |key| == 4 && 8 <= |m| < 0x8000_0000_0000_0000
    ensures var s := ClientFrame(BINARY_FRAME, key, m) + rest;
            && DataHeader(s) && 0 <= FrameEnd(s) <= |s| && s[FrameEnd(s)..] == rest
            && (Deliverable(s) <==> |m| <= MAX_PAYLOAD && 5 + |LengthField(|m|)| + |m| != KOHERON_READ_STR_LEN)
            && (Deliverable(s) ==> Data(s) == m)
  {
    hide ParseFrame, ClientFrame, LengthField, Data, Deliverable, DataHeader, Announced, HeaderEnd;
    PowersOf256();
    ClientFrameParses(BINARY_FRAME, key, m, rest);
    ViewOfFrame(ClientFrame(BINARY_FRAME, key, m) + rest);
  }

  /** A call's message names its operation, and in a payload buffer its arguments are read back if
      and only if they fit, whatever the buffer held. */
  lemma CallReads(c: TcpSession.Command, m: seq<uint8>)
    requires c.classId < 0x1_0000 && c.funcId < 0x1_0000 && ValidArgs(c.args) && |m| == CMD_PAYLOAD_BUFFER_LEN
    ensures var message := Message(c.classId, c.funcId, c.args);
            && |message| >= 8 && Operation(message) == (c.classId, c.funcId)
            && (|message| <= MAX_PAYLOAD ==>
                  var ts, b := Types(c.args), Filled(message[8..], m);
                  if AllFit(c.args) then Inside(ts, b) && !Oversized(ts, b) && DecodeAll(ts, b).got == c.args
                  else Inside(ts, b) && !Oversized(ts, b) ==> DecodeAll(ts, b).got != c.args)
  {
    hide EncodeAll, Types, AllFit, ValidArgs, Header, Extract, Oversized, DecodeAll;
    var e := EncodeAll(c.args);
    HeaderRoundTrip(c.classId, c.funcId, e);
    if |e| <= MAX_PAYLOAD {
      RoundTrip(c.args, m[|e|..]);
      if AllFit(c.args) {
        EncodedIsNotOversized(c.args, m[|e|..]);
      }
    }
  }

  lemma {:induction false} EncodedIsNotOversized(args: seq<Arg>, rest: seq<uint8>)
    requires ValidArgs(args) && AllFit(args) && |EncodeAll(args)| <= MAX_PAYLOAD
    ensures !Oversized(Types(args), EncodeAll(args) + rest)
  {
    if args != [] {
      hide Encode, Decode, TooLong, AllFit, ValidArgs, Types;
      var others := EncodeAll(args[1..]) + rest;
      FirstArg(args, rest);
      assert args[0].Valid() && Fits(args[0]) by { FirstIsFit(args); }
      DecodeEncode(args[0], others);
      OneIsNotTooLong(args[0], others);
      EncodedIsNotOversized(args[1..], rest);
    } else {
      assert Types(args) == [];
    }
  }

  lemma FirstIsFit(args: seq<Arg>)
    requires args != [] && ValidArgs(args) && AllFit(args)
    ensures args[0].Valid() && Fits(args[0])
  {
  }

  lemma OneIsNotTooLong(a: Arg, rest: seq<uint8>)
    requires a.Valid() && Fits(a) && |Encode(a)| <= MAX_PAYLOAD
    ensures !TooLong(a.Type(), Encode(a) + rest)
  {
    hide Extract, Append, Concat;
    if a.VectorA? || a.StringA? {
      CountAndImage(a, rest);
      CountAndImage(a, []);
    }
  }

  /** A client's calls, each as one masked binary frame. */
  method SendFrames(serializer: DynamicSerializer, cmds: seq<TcpSession.Command>, keys: seq<seq<uint8>>)
    returns (sent: seq<uint8>)
    requires serializer.scalData.Length == SCALAR_PACK_LEN
    requires |keys| == |cmds| && forall k :: k in keys ==> |k| == 4
    requires forall c :: c in cmds ==> RunsFit(0, c.args) && ValidArgs(c.args)
    modifies serializer, serializer.scalData
    ensures sent == Frames(cmds, keys)
  {
    hide RunsFit, ValidArgs, Message, ClientFrame, Frames, Frame;
    sent := [];
    var sendBuffer := [];
    for i := 0 to |cmds|
      invariant sent + Frames(cmds[i..], keys[i..]) == Frames(cmds, keys)
    {
      var c := cmds[i];
      sendBuffer := serializer.BuildCommand(sendBuffer, c.classId, c.funcId, c.args);
      var frame := ClientFrame(BINARY_FRAME, keys[i], sendBuffer);
      FrameIs(c, keys[i]);
      NextFrame(cmds, keys, i, sent);
      sent := sent + frame;
    }
    NoFrames(sent);
  }

  lemma FrameIs(c: TcpSession.Command, key: seq<uint8>)
    requires |key| == 4
    ensures Frame(c, key) == ClientFrame(BINARY_FRAME, key, Message(c.classId, c.funcId, c.args))
  {
  }

  lemma NoFrames(sent: seq<uint8>)
    ensures sent + Frames([], []) == sent
  {
  }

  lemma NextFrame(cmds: seq<TcpSession.Command>, keys: seq<seq<uint8>>, i: nat, sent: seq<uint8>)
    requires i < |cmds| == |keys| && forall k :: k in keys ==> |k| == 4
    ensures sent + Frames(cmds[i..], keys[i..]) ==
            sent + Frame(cmds[i], keys[i]) + Frames(cmds[i + 1..], keys[i + 1..])
  {
    hide Frame, Frames;
    FramesFirst(cmds[i..], keys[i..]);
    assert cmds[i..][1..] == cmds[i + 1..] && keys[i..][1..] == keys[i + 1..];
  }

  /** The executed operations are the calls if and only if all calls pass, are known, and fit. */
  lemma {:induction false} ServedAreCalls(table: TcpSession.Table, deviceNum: nat, cmds: seq<TcpSession.Command>,
                                          keys: seq<seq<uint8>>, unset: Memory, k: nat)
    requires |keys| == |cmds| && (forall x :: x in keys ==> |x| == 4) && OfBuffers(unset)
    requires TcpSession.ValidTable(table, deviceNum) && forall c :: c in cmds ==> Sendable(table, c)
    ensures var executed := Serve(table, deviceNum, Frames(cmds, keys), unset, k).executed;
            && |executed| <= |cmds|
            && (executed == cmds <==> AllPass(cmds) && AllKnown(table, cmds) && TcpSession.CommandsFit(cmds))
  {
    hide *;
    if cmds == [] {
      NothingServed(table, deviceNum, keys, unset, k);
      TcpSession.NoCommands(table);
      NoneFails(table);
    } else {
      var c, more := cmds[0], Frames(cmds[1..], keys[1..]);
      FirstSendable(table, cmds, keys);
      FramesFirst(cmds, keys);
      AllOfThem(table, cmds);
      TcpSession.FirstFits(cmds);
      KnownHasDriver(table, deviceNum, c);
      FirstFrame(table, deviceNum, c, keys[0], more, unset, k);
      ServedAreCalls(table, deviceNum, cmds[1..], keys[1..], unset, k + 1);
      var w := Serve(table, deviceNum, more, unset, k + 1);
      OneMoreExecuted(w, [], TcpSession.DriverOf(c.classId));
      OneMoreExecuted(w, [c], TcpSession.DriverOf(c.classId));
      SameBehind(c, w.executed, cmds[1..]);
      assert cmds == [c] + cmds[1..];
    }
  }

  lemma NoneFails(table: TcpSession.Table)
    ensures AllPass([]) && AllKnown(table, [])
  {
  }

  lemma AllOfThem(table: TcpSession.Table, cmds: seq<TcpSession.Command>)
    requires cmds != []
    ensures AllPass(cmds) <==> Passes(cmds[0]) && AllPass(cmds[1..])
    ensures AllKnown(table, cmds) <==> IsKnown(table, cmds[0]) && AllKnown(table, cmds[1..])
  {
    hide Passes, IsKnown;
    assert forall c :: c in cmds <==> c == cmds[0] || c in cmds[1..];
  }

  lemma KnownHasDriver(table: TcpSession.Table, deviceNum: nat, c: TcpSession.Command)
    requires TcpSession.ValidTable(table, deviceNum)
    ensures IsKnown(table, c) ==> c.classId < deviceNum
  {
  }

  lemma OneMoreExecuted(w: TcpSession.Service, c: seq<TcpSession.Command>, d: seq<nat>)
    ensures w.Behind(c, d).executed == c + w.executed
  {
  }

  lemma SameBehind<T>(c: T, x: seq<T>, y: seq<T>)
    ensures [c] + x == [c] + y <==> x == y
  {
    assert ([c] + x)[1..] == x && ([c] + y)[1..] == y;
  }

  /** From the client's calls to the operations that the server executes, through any
      fragmentation and whatever the memory held: they are the calls if and only if all calls
      pass, are known, and fit; and if those of known operations fit, they are the known ones
      before the first that does not pass or names no driver, in which latter case the session
      ends there. The three numbers are what the unset sizes happen to be. */
  method EndToEnd(table: TcpSession.Table, cmds: seq<TcpSession.Command>, keys: seq<seq<uint8>>, manager: DriverManager,
                  headerSize: nat, maskOffset: int, payloadSize: int, unset: Memory)
    returns (executed: seq<TcpSession.Command>, asked: seq<nat>, ending: TcpSession.Ending)
    requires manager.Valid() && manager.Abs().starting == {}
    requires TcpSession.ValidTable(table, |manager.deps| + 2) && OfBuffers(unset)
    requires cmds != [] || headerSize < 0xFFFF_FFFF
    requires |keys| == |cmds| && forall k :: k in keys ==> |k| == 4
    requires forall c :: c in cmds ==> Sendable(table, c) && RunsFit(0, c.args)
    modifies manager.Repr()
    ensures TcpSession.After(manager, asked, old(manager.Abs()))
    ensures executed == cmds <==> AllPass(cmds) && AllKnown(table, cmds) && TcpSession.CommandsFit(cmds)
    ensures KnownFit(table, cmds) ==>
              var heard := Heard(|manager.deps| + 2, cmds);
              && executed == Known(table, heard) && asked == TcpSession.Addressed(heard)
              && ending == EndingOf(|manager.deps| + 2, cmds)
  {
    hide AllPass, AllKnown, KnownFit, Heard, Known, EndingOf, Serve, Follows, RunsFit, Message, HeaderCut, Frames,
         Frame, Types, Sendable, OfBuffers, TcpSession.ValidTable, TcpSession.CommandsFit, TcpSession.Addressed,
         TcpSession.After, ValidArgs;
    var serializer := new DynamicSerializer();
    AllArgsValid(table, cmds);
    var sent := SendFrames(serializer, cmds, keys);
    FirstHeader(table, cmds, keys);
    ServedAreCalls(table, |manager.deps| + 2, cmds, keys, unset, 0);
    executed, asked, ending := Connect(table, sent, manager, headerSize, maskOffset, payloadSize, unset, |cmds| + 1);
    FollowsToTheEnd(Serve(table, |manager.deps| + 2, sent, unset, 0), |cmds| + 1, executed, asked, ending);
    if KnownFit(table, cmds) {
      ServedFrames(table, |manager.deps| + 2, cmds, keys, unset, 0);
    }
  }

  /** A connection on which the stream s arrives, with no failing reads. */
  method Connect(table: TcpSession.Table, s: seq<uint8>, manager: DriverManager, headerSize: nat, maskOffset: int,
                 payloadSize: int, unset: Memory, closing: nat)
    returns (executed: seq<TcpSession.Command>, asked: seq<nat>, ending: TcpSession.Ending)
    requires manager.Valid() && manager.Abs().starting == {}
    requires TcpSession.ValidTable(table, |manager.deps| + 2) && OfBuffers(unset) && closing > 0
    requires HeaderCut(s) ==> s == [] && headerSize < 0xFFFF_FFFF
    modifies manager.Repr()
    ensures TcpSession.After(manager, asked, old(manager.Abs()))
    ensures Follows(Serve(table, |manager.deps| + 2, s, unset, 0), closing, executed, asked, ending, true)
  {
    hide HeaderCut, Serve, Follows, OfBuffers, TcpSession.After, TcpSession.ValidTable, WebSocket.CutIsHarmless;
    var sock := new Socket(s, 0);
    var websock := new WebSocket(sock, headerSize, maskOffset, payloadSize);
    websock.WholeIsHarmless(s);
    var session := new Session(websock, manager);
    executed, asked, ending := session.Run(table, unset, closing);
  }

  lemma FollowsToTheEnd(v: TcpSession.Service, closing: nat, executed: seq<TcpSession.Command>, asked: seq<nat>,
                        ending: TcpSession.Ending)
    requires Follows(v, closing, executed, asked, ending, true) && |v.executed| < closing
    ensures v == TcpSession.Service(executed, asked, ending)
  {
  }

  lemma AllArgsValid(table: TcpSession.Table, cmds: seq<TcpSession.Command>)
    requires forall c :: c in cmds ==> Sendable(table, c)
    ensures forall c :: c in cmds ==> ValidArgs(c.args)
  {
    hide ValidArgs, Types, Message;
  }

  lemma FirstHeader(table: TcpSession.Table, cmds: seq<TcpSession.Command>, keys: seq<seq<uint8>>)
    requires |keys| == |cmds| && (forall k :: k in keys ==> |k| == 4) && forall c :: c in cmds ==> Sendable(table, c)
    ensures if cmds == [] then Frames(cmds, keys) == [] else !HeaderCut(Frames(cmds, keys))
  {
    if cmds != [] {
      hide HeaderCut, Frame, Frames, Sendable;
      FramesFirst(cmds, keys);
      assert Sendable(table, cmds[0]);
      MessageIsShort(table, cmds[0]);
      FrameServed(cmds[0], keys[0], Frames(cmds[1..], keys[1..]));
    }
  }

  lemma MessageIsShort(table: TcpSession.Table, c: TcpSession.Command)
    requires Sendable(table, c)
    ensures |Message(c.classId, c.funcId, c.args)| < 0x8000_0000_0000_0000
  {
  }

  // ---------------------------------------------------------------- two frames that go wrong

  /** A frame for an operation that is not known: the session goes on with the next frame if and
      only if there is a driver with its number. */
  lemma UnknownFrame(table: TcpSession.Table, deviceNum: nat, c: TcpSession.Command, key: seq<uint8>, rest: seq<uint8>,
                     unset: Memory, k: nat)
    requires |key| == 4 && Sendable(table, c) && Passes(c) && !IsKnown(table, c) && OfBuffers(unset)
    ensures var v, others := Serve(table, deviceNum, Frame(c, key) + rest, unset, k),
                             Serve(table, deviceNum, rest, unset, k + 1);
            if c.classId < deviceNum then v == others.Behind([], TcpSession.DriverOf(c.classId))
            else v == TcpSession.Service([], [], TcpSession.NoSuchDriver)
  {
    hide *;
    FirstFrame(table, deviceNum, c, key, rest, unset, k);
  }

  /** The header alone, for the last number there is, ends the session of a server that has fewer
      drivers. */
  lemma NoDriver65535(table: TcpSession.Table, deviceNum: nat, funcId: nat, key: seq<uint8>, rest: seq<uint8>,
                      unset: Memory, k: nat)
    requires TcpSession.ValidTable(table, deviceNum) && deviceNum <= 0xFFFF && funcId < 0x1_0000
    requires |key| == 4 && OfBuffers(unset)
    ensures Serve(table, deviceNum, Frame(TcpSession.Command(0xFFFF, funcId, []), key) + rest, unset, k) ==
            TcpSession.Service([], [], TcpSession.NoSuchDriver)
  {
    hide Serve, ClientFrame;
    var c := TcpSession.Command(0xFFFF, funcId, []);
    MessageSize(0xFFFF, funcId, []);
    assert LengthField(8) == [] || |LengthField(8)| <= 9;
    UnknownFrame(table, deviceNum, c, key, rest, unset, k);
  }

  /** A string of five bytes is announced, and none follows: what is executed depends on what the
      memory held. */
  lemma StrayFrame(key: seq<uint8>, unset: Memory, k: nat)
    requires |key| == 4 && OfBuffers(unset)
    ensures Serve(map[(2, 0) := [StringT]], 3, ClientFrame(BINARY_FRAME, key, Header(2, 0) + Append(5, 4)), unset, k) ==
            TcpSession.Service([TcpSession.Command(2, 0, [StringA(unset(k)[4..9])])], [0], TcpSession.Finished)
  {
    hide Serve, ClientFrame, Header, Append, Extract, Filled, OutcomeOf, Deliverable, Data, HeaderCut, DataHeader,
         Announced, HeaderEnd, FrameEnd;
    var m, table := Header(2, 0) + Append(5, 4), map[(2, 0) := [StringT]];
    var s := ClientFrame(BINARY_FRAME, key, m) + [];
    assert s == ClientFrame(BINARY_FRAME, key, m);
    ExtractAppend4(5, []);
    HeaderRoundTrip(2, 0, Append(5, 4));
    FrameArrives(key, m, []);
    StrayOutcome(unset(k));
    ServeStep(table, 3, s, unset, k);
    ServeStep(table, 3, [], unset, k + 1);
    TcpSession.Finally([], [], TcpSession.Finished, [TcpSession.Command(2, 0, [StringA(unset(k)[4..9])])], [0]);
  }

  lemma StrayOutcome(m: seq<uint8>)
    requires |m| == CMD_PAYLOAD_BUFFER_LEN
    ensures OutcomeOf(map[(2, 0) := [StringT]], (2, 0), Filled(Append(5, 4), m)) == Does([StringA(m[4..9])])
  {
    hide Append, Extract, Filled, Inside, Oversized, DecodeAll;
    var p := Append(5, 4);
    ExtractAppend4(5, []);
    assert p + [] == p;
    CompletedString(p, m);
    assert p[4..] + m[4..9] == m[4..9];
  }
}
