/** DynamicSerializer, which the client and the server share: scalars are batched in a side
    buffer and flushed before each container and at the end. */
module Serializer {
  import opened Bytes
  import opened Wire

  const SCALAR_PACK_LEN := 1024

  /** The reserved word, then the driver and the operation. */
  function Header(classId: nat, funcId: nat): (r: seq<uint8>)
    ensures |r| == 8
  {
    Append(0, 4) + Append(classId, 2) + Append(funcId, 2)
  }

  function Message(classId: nat, funcId: nat, args: seq<Arg>): seq<uint8> {
    Header(classId, funcId) + EncodeAll(args)
  }

  /** Four zero bytes, the driver and the operation in network byte order. */
  lemma HeaderBytes(classId: nat, funcId: nat)
    ensures Header(classId, funcId) == [0, 0, 0, 0] + BigEndian(classId, 2) + BigEndian(funcId, 2)
  {
    AppendIsBigEndian(classId, 2);
    AppendIsBigEndian(funcId, 2);
    hide BigEndian;
  }

  /** Operation 3 of driver 2, called with an int32_t of 5 and one of -2, the string "hi", and a bool
      and a uint16_t. */
  lemma ExampleMessage()
    ensures Message(2, 3, [ScalarA(VInt(4, 5)), ScalarA(VInt(4, -2)), StringA([0x68, 0x69]), ScalarA(VBool(true)),
                           ScalarA(VUint(2, 0x1234))]) ==
            [0, 0, 0, 0, 0, 2, 0, 3] + [0, 0, 0, 5] + [0xff, 0xff, 0xff, 0xfe] + [0, 0, 0, 2, 0x68, 0x69] + [1]
            + [0x12, 0x34]
  {
    hide EncodeAll, Encode;
    ExampleBytes();
    ExampleHeader();
    var a, b, c, d, e := ScalarA(VInt(4, 5)), ScalarA(VInt(4, -2)), StringA([0x68, 0x69]), ScalarA(VBool(true)),
                         ScalarA(VUint(2, 0x1234));
    FiveArguments(a, b, c, d, e);
  }

  lemma ExampleHeader()
    ensures Header(2, 3) == [0, 0, 0, 0, 0, 2, 0, 3]
  {
  }

  lemma ExampleBytes()
    ensures Encode(ScalarA(VInt(4, 5))) == [0, 0, 0, 5] && Encode(ScalarA(VBool(true))) == [1]
    ensures Encode(ScalarA(VInt(4, -2))) == [0xff, 0xff, 0xff, 0xfe]
    ensures Encode(ScalarA(VUint(2, 0x1234))) == [0x12, 0x34]
    ensures Encode(StringA([0x68, 0x69])) == [0, 0, 0, 2, 0x68, 0x69]
  {
    PowersOf256();
    hide Pow256;
  }

  lemma FiveArguments(a: Arg, b: Arg, c: Arg, d: Arg, e: Arg)
    ensures EncodeAll([a, b, c, d, e]) == Encode(a) + Encode(b) + Encode(c) + Encode(d) + Encode(e)
  {
    hide Encode, EncodeAll;
    OneEncoded(a, [b, c, d, e]);
    OneEncoded(b, [c, d, e]);
    OneEncoded(c, [d, e]);
    OneEncoded(d, [e]);
    OneEncoded(e, []);
    NothingEncoded([]);
    assert [a] + [b, c, d, e] == [a, b, c, d, e] && [b] + [c, d, e] == [b, c, d, e];
    assert [c] + [d, e] == [c, d, e] && [d] + [e] == [d, e] && [e] + [] == [e];
  }

  lemma OneEncoded(a: Arg, others: seq<Arg>)
    ensures EncodeAll([a] + others) == Encode(a) + EncodeAll(others)
  {
    hide Encode;
    assert ([a] + others)[1..] == others;
  }

  /** The scalars that follow size pending bytes, up to the next container, fit in the side
      buffer; so does every later run of scalars. */
  ghost predicate RunsFit(size: nat, args: seq<Arg>)
    decreases |args|
  {
    if args == [] then size <= SCALAR_PACK_LEN
    else if args[0].ScalarA? then RunsFit(size + args[0].x.Type().Size(), args[1..])
    else size <= SCALAR_PACK_LEN && RunsFit(0, args[1..])
  }

  lemma {:induction false} RunsFitBound(size: nat, args: seq<Arg>)
    requires RunsFit(size, args)
    ensures size <= SCALAR_PACK_LEN
    decreases |args|
  {
    if args != [] && args[0].ScalarA? {
      RunsFitBound(size + args[0].x.Type().Size(), args[1..]);
    }
  }

  class DynamicSerializer {
    const scalData: array<uint8>
    var scalSize: nat

    constructor ()
      ensures scalData.Length == SCALAR_PACK_LEN && scalSize == 0 && fresh(scalData)
    {
      scalData := new uint8[SCALAR_PACK_LEN](_ => 0);
      scalSize := 0;
    }

    /** The bytes waiting in the side buffer. */
    ghost function Pending(): seq<uint8>
      requires scalSize <= scalData.Length
      reads this, scalData
    {
      scalData[..scalSize]
    }

    /** append of one scalar to the side buffer */
    method AppendScalar(x: Scalar)
      requires x.Valid() && scalSize + x.Type().Size() <= scalData.Length
      modifies this, scalData
      ensures scalSize == old(scalSize) + x.Type().Size() <= scalData.Length
      ensures Pending() == old(Pending()) + Encode(ScalarA(x))
    {
      var bytes := Append(x.Bits(), x.Type().Size());
      ScalarRoundTrip(x, []);
      forall i | 0 <= i < |bytes| {
        scalData[scalSize + i] := bytes[i];
      }
      scalSize := scalSize + |bytes|;
    }

    method DumpScalarPack(buffer: seq<uint8>) returns (r: seq<uint8>)
      requires scalSize <= scalData.Length
      modifies this`scalSize
      ensures scalSize == 0 && r == buffer + old(Pending())
    {
      r := buffer;
      if scalSize > 0 {
        r := r + scalData[..scalSize];
        scalSize := 0;
      }
    }

    /** dump_container_to_buffer and dump_array_to_buffer */
    static method DumpContainer(buffer: seq<uint8>, a: Arg) returns (r: seq<uint8>)
      requires !a.ScalarA?
      ensures r == buffer + Encode(a)
    {
      var image := a.Image();
      if a.ArrayA? {
        r := buffer;
        if |image| > 0 {
          r := r + image;
        }
      } else {
        var n := |image| % 0x1_0000_0000;
        r := buffer + Append(n, 4);
        if n > 0 {
          r := r + image[..n];
        }
      }
    }

    /** command_serializer, by recursion over the argument list: what is in the buffer and in the
        side buffer together grows by the plain encodings. */
    method CommandSerializer(buffer: seq<uint8>, args: seq<Arg>) returns (r: seq<uint8>)
      requires scalSize <= scalData.Length == SCALAR_PACK_LEN
      requires RunsFit(scalSize, args) && ValidArgs(args)
      modifies this, scalData
      ensures scalSize <= scalData.Length && r + Pending() == buffer + old(Pending()) + EncodeAll(args)
      decreases |args|
    {
      hide Encode, EncodeAll, ValidArgs, RunsFit;
      RunsFitBound(scalSize, args);
      r := buffer;
      if args == [] {
        NothingEncoded(r + Pending());
      } else {
        var a := args[0];
        FirstToSend(scalSize, args);
        ghost var before := buffer + Pending();
        if a.ScalarA? {
          RunsFitBound(scalSize + a.x.Type().Size(), args[1..]);
          AppendScalar(a.x);
        } else {
          r := DumpScalarPack(r);
          r := DumpContainer(r, a);
        }
        assert r + Pending() == before + Encode(a);
        ghost var mid := r + Pending();
        r := CommandSerializer(r, args[1..]);
        assert r + Pending() == before + (Encode(a) + EncodeAll(args[1..]));
      }
    }

    /** build_command: the old contents of the buffer and of the side buffer do not matter, and
        nothing is left in the side buffer for the next command. */
    method BuildCommand(buffer: seq<uint8>, classId: nat, funcId: nat, args: seq<Arg>) returns (r: seq<uint8>)
      requires scalData.Length == SCALAR_PACK_LEN && RunsFit(0, args) && ValidArgs(args)
      modifies this, scalData
      ensures r == Message(classId, funcId, args)
      ensures args != [] ==> scalSize == 0
    {
      hide Encode, Append, Header, EncodeAll;
      r := Header(classId, funcId);
      if args != [] {
        scalSize := 0;
        ghost var header := r;
        r := CommandSerializer(r, args);
        r := DumpScalarPack(r);
        assert r == header + [] + EncodeAll(args);
      } else {
        NothingEncoded(r);
      }
    }
  }

  lemma FirstToSend(size: nat, args: seq<Arg>)
    requires args != [] && RunsFit(size, args) && ValidArgs(args)
    ensures var a := args[0];
            && a.Valid() && (a.ScalarA? ==> a.x.Valid()) && ValidArgs(args[1..])
            && RunsFit(if a.ScalarA? then size + a.x.Type().Size() else 0, args[1..])
            && EncodeAll(args) == Encode(a) + EncodeAll(args[1..])
  {
    hide Encode;
    assert args[0] in args;
  }

  lemma NothingEncoded(s: seq<uint8>)
    ensures s + EncodeAll([]) == s
  {
  }

  /** Reading back a header at the offset that skips the reserved word. */
  lemma HeaderRoundTrip(classId: nat, funcId: nat, rest: seq<uint8>)
    requires classId < 0x1_0000 && funcId < 0x1_0000
    ensures var s := Header(classId, funcId) + rest;
            && Extract(s, 4) == 0 && Extract(s[4..], 2) == classId && Extract(s[6..], 2) == funcId
            && s[8..] == rest
  {
    PowersOf256();
    ExtractAppend(0, 4, Append(classId, 2) + Append(funcId, 2) + rest);
    ExtractAppend(classId, 2, Append(funcId, 2) + rest);
    ExtractAppend(funcId, 2, rest);
    var s := Header(classId, funcId) + rest;
    assert s == Append(0, 4) + (Append(classId, 2) + Append(funcId, 2) + rest);
    assert s[4..] == Append(classId, 2) + (Append(funcId, 2) + rest);
    assert s[6..] == Append(funcId, 2) + rest;
  }
}
