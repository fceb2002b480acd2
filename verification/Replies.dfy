/** The reply direction: Session::send on the server, recv on the client. */
module Replies {
  import opened Arithmetic
  import opened Bytes
  import opened Wire
  import opened Serializer
  import opened ArgPacks
  import opened Sockets
  import TcpSession

  /** What an operation returns: one value, or a tuple of scalars. */
  datatype ReplyType = One(t: ArgType) | TupleOf(ts: seq<ScalarType>)
  {
    function Types(): seq<ArgType> {
      if One? then [t] else ScalarTypes(ts)
    }

    /** Sizes known at compile time are far below the range of int. */
    ghost predicate Valid() {
      match this
      case One(ScalarT(x)) => x.Valid()
      case One(ArrayT(size, n)) => size > 0 && 8 + size * n < 0x8000_0000
      case One(VectorT(size)) => size > 0
      case One(StringT) => true
      case TupleOf(ts) => 8 + TcpSession.PackSize(ts) < 0x8000_0000
    }
  }

  class Client {
    const sock: Socket
    var lastClassId: nat
    var lastFuncId: nat
    var rcvBuffer: array<uint8>

    constructor (sock: Socket, classId: nat, funcId: nat)
      ensures this.sock == sock && lastClassId == classId && lastFuncId == funcId
    {
      this.sock := sock;
      lastClassId, lastFuncId := classId, funcId;
      rcvBuffer := new uint8[0];
    }

    /** recv_all; false stands for the exceptions: a size that is negative as an int, or a
        connection that closes or fails. */
    method RecvAll(nBytes: int) returns (ok: bool)
      modifies this`rcvBuffer, sock`incoming, sock`faults
      ensures nBytes < 0 ==> !ok
      ensures ok ==> rcvBuffer.Length == nBytes <= |old(sock.incoming)|
      ensures ok ==> rcvBuffer[..] == old(sock.incoming)[..nBytes] && sock.incoming == old(sock.incoming)[nBytes..]
      ensures sock.faults <= old(sock.faults)
      ensures ok <==> sock.faults == old(sock.faults) && 0 <= nBytes <= |old(sock.incoming)|
    {
      if nBytes < 0 {
        return false;
      }
      rcvBuffer := new uint8[nBytes];
      var bytesRead := 0;
      while bytesRead < nBytes
        invariant bytesRead <= nBytes == rcvBuffer.Length && bytesRead <= |old(sock.incoming)|
        invariant fresh(rcvBuffer)
        invariant sock.incoming == old(sock.incoming)[bytesRead..]
        invariant rcvBuffer[..bytesRead] == old(sock.incoming)[..bytesRead]
        invariant sock.faults == old(sock.faults)
      {
        var bytesRcv := sock.Read(rcvBuffer, bytesRead, nBytes - bytesRead);
        if bytesRcv == 0 {
          return false;
        }
        if bytesRcv < 0 {
          return false;
        }
        TcpSession.NextPiece(old(sock.incoming), bytesRead, bytesRcv);
        bytesRead := bytesRead + bytesRcv;
      }
      assert rcvBuffer[..] == rcvBuffer[..bytesRead];
      return true;
    }

    /** These bytes come next, and then the tail, or the connection ends inside them. */
    ghost predicate Arrives(whole: seq<uint8>, tail: seq<uint8>)
      reads sock
    {
      sock.incoming == whole + tail || (tail == [] && sock.incoming <= whole)
    }

    /** check_returned_header: the assertions hold for a reply to the last call. */
    method CheckReturnedHeader(ghost rest: seq<uint8>)
      requires lastClassId < 0x1_0000 && lastFuncId < 0x1_0000
      requires rcvBuffer[..] == Header(lastClassId, lastFuncId) + rest
    {
      hide Extract;
      HeaderRoundTrip(lastClassId, lastFuncId, rest);
      var b := rcvBuffer[..];
      assert Extract(b, 4) == 0;
      assert Extract(b[4..], 2) == lastClassId;
      assert Extract(b[6..], 2) == lastFuncId;
    }

    /** command_deserializer of scalars, tuples and arrays: header and value in one go. */
    method RecvFixed(size: nat, ghost value: seq<uint8>, ghost tail: seq<uint8>)
      returns (ok: bool, body: seq<uint8>)
      requires lastClassId < 0x1_0000 && lastFuncId < 0x1_0000
      requires 8 + size < 0x8000_0000 && |value| == size
      requires Arrives(Header(lastClassId, lastFuncId) + value, tail)
      modifies this`rcvBuffer, sock`incoming, sock`faults
      ensures sock.faults <= old(sock.faults)
      ensures ok <==> sock.faults == old(sock.faults) && 8 + size <= |old(sock.incoming)|
      ensures ok ==> body == value && sock.incoming == tail
    {
      hide Header;
      ghost var h := Header(lastClassId, lastFuncId);
      assert (h + value + tail)[..8 + size] == h + value && (h + value + tail)[8 + size..] == tail;
      ok := RecvAll(8 + size);
      if !ok {
        return ok, [];
      }
      CheckReturnedHeader(value);
      body := rcvBuffer[8..];
    }

    /** get_payload_dynamic: header and byte count, then the payload. */
    method GetPayloadDynamic(ghost value: seq<uint8>, ghost n: nat, ghost tail: seq<uint8>)
      returns (ok: bool)
      requires lastClassId < 0x1_0000 && lastFuncId < 0x1_0000
      requires n < 0x1_0000_0000 && |value| == n
      requires Arrives(Header(lastClassId, lastFuncId) + (Append(n, 4) + value), tail)
      modifies this`rcvBuffer, sock`incoming, sock`faults
      ensures sock.faults <= old(sock.faults)
      ensures ok <==> sock.faults == old(sock.faults) && n < 0x8000_0000 && 12 + n <= |old(sock.incoming)|
      ensures ok ==> rcvBuffer[..] == value && sock.incoming == tail
    {
      hide Header, Append, Extract;
      ExtractAppend4(n, []);
      ghost var h := Header(lastClassId, lastFuncId);
      ghost var s := sock.incoming;
      ok := RecvAll(12);
      if !ok {
        return;
      }
      CountAhead(h, Append(n, 4), value, tail, s);
      CheckReturnedHeader(Append(n, 4));
      assert rcvBuffer[8..] == Append(n, 4) + [];
      ok := RecvAll(ToInt(Extract(rcvBuffer[8..], 4)));
      ToIntIs(n);
    }

    /** recv: unless a read fails or the connection ends inside it, the reply to the last call, and
        nothing behind it, is read back as sent; a vector or string whose byte count is negative
        as an int, or has been cut to 32 bits, is not. */
    method Recv(rt: ReplyType, ghost args: seq<Arg>, ghost tail: seq<uint8>) returns (ok: bool, vals: seq<Arg>)
      requires rt.Valid() && Awaits(rt.Types(), args, tail)
      modifies this`rcvBuffer, sock`incoming, sock`faults
      ensures sock.faults <= old(sock.faults)
      ensures ok ==> sock.faults == old(sock.faults) && 8 + |EncodeAll(args)| <= |old(sock.incoming)|
      ensures if AllFit(args) && sock.faults == old(sock.faults) && 8 + |EncodeAll(args)| <= |old(sock.incoming)|
              then ok && vals == args && sock.incoming == tail
              else !ok || vals != args
    {
      hide Header, EncodeAll, AllFit, ScalarTypes, Awaits;
      match rt {
        case TupleOf(ts) => ok, vals := RecvTuple(ts, args, tail);
        case One(ScalarT(x)) => ok, vals := RecvScalar(x, args, tail);
        case One(ArrayT(size, n)) => ok, vals := RecvArray(size, n, args, tail);
        case One(VectorT(size)) => ok, vals := RecvVector(size, args, tail);
        case One(StringT) => ok, vals := RecvString(args, tail);
      }
    }

    method RecvTuple(ts: seq<ScalarType>, ghost args: seq<Arg>, ghost tail: seq<uint8>)
      returns (ok: bool, vals: seq<Arg>)
      requires Awaits(ScalarTypes(ts), args, tail) && 8 + TcpSession.PackSize(ts) < 0x8000_0000
      modifies this`rcvBuffer, sock`incoming, sock`faults
      ensures AllFit(args) && sock.faults <= old(sock.faults)
      ensures ok <==> sock.faults == old(sock.faults) && 8 + |EncodeAll(args)| <= |old(sock.incoming)|
      ensures ok ==> vals == args && sock.incoming == tail
    {
      hide Header, EncodeAll, AllFit, ScalarTypes;
      TupleReply(ts, args);
      var body;
      ok, body := RecvFixed(TcpSession.PackSize(ts), EncodeAll(args), tail);
      if !ok {
        return ok, [];
      }
      vals := TcpSession.Deserialize(0, ts, body);
    }

    method RecvScalar(t: ScalarType, ghost args: seq<Arg>, ghost tail: seq<uint8>) returns (ok: bool, vals: seq<Arg>)
      requires Awaits([ScalarT(t)], args, tail) && t.Valid()
      modifies this`rcvBuffer, sock`incoming, sock`faults
      ensures AllFit(args) && sock.faults <= old(sock.faults)
      ensures ok <==> sock.faults == old(sock.faults) && 8 + |EncodeAll(args)| <= |old(sock.incoming)|
      ensures ok ==> vals == args && sock.incoming == tail
    {
      hide Header, EncodeAll, Encode, AllFit, ExtractScalar, Fits;
      ScalarReply(t, args);
      var body;
      ok, body := RecvFixed(t.Size(), EncodeAll(args), tail);
      if !ok {
        return ok, [];
      }
      vals := [ScalarA(ExtractScalar(t, body))];
    }

    method RecvArray(size: nat, n: nat, ghost args: seq<Arg>, ghost tail: seq<uint8>) returns (ok: bool, vals: seq<Arg>)
      requires Awaits([ArrayT(size, n)], args, tail) && size > 0 && 8 + size * n < 0x8000_0000
      modifies this`rcvBuffer, sock`incoming, sock`faults
      ensures AllFit(args) && sock.faults <= old(sock.faults)
      ensures ok <==> sock.faults == old(sock.faults) && 8 + |EncodeAll(args)| <= |old(sock.incoming)|
      ensures ok ==> vals == args && sock.incoming == tail
    {
      hide Header, EncodeAll, Encode, AllFit, Elements, Fits;
      ArrayReply(size, n, args);
      var body;
      ok, body := RecvFixed(size * n, EncodeAll(args), tail);
      if !ok {
        return ok, [];
      }
      vals := [ArrayA(size, Elements(body, size, n))];
    }

    method RecvVector(size: nat, ghost args: seq<Arg>, ghost tail: seq<uint8>) returns (ok: bool, vals: seq<Arg>)
      requires Awaits([VectorT(size)], args, tail) && size > 0
      modifies this`rcvBuffer, sock`incoming, sock`faults
      ensures sock.faults <= old(sock.faults)
      ensures ok ==> sock.faults == old(sock.faults) && 8 + |EncodeAll(args)| <= |old(sock.incoming)|
      ensures if AllFit(args) && sock.faults == old(sock.faults) && 8 + |EncodeAll(args)| <= |old(sock.incoming)|
              then ok && vals == args && sock.incoming == tail
              else !ok || vals != args
    {
      hide Header, EncodeAll, Encode, AllFit, Whole, Fits, Append;
      ghost var a := SingleReply(VectorT(size), args);
      DynamicReply(a);
      VectorReply(a);
      ghost var n := |a.Image()| % 0x1_0000_0000;
      ok := GetPayloadDynamic(a.Image()[..n], n, tail);
      if !ok {
        return ok, [];
      }
      vals := [VectorA(size, Whole(rcvBuffer[..], size))];
    }

    method RecvString(ghost args: seq<Arg>, ghost tail: seq<uint8>) returns (ok: bool, vals: seq<Arg>)
      requires Awaits([StringT], args, tail)
      modifies this`rcvBuffer, sock`incoming, sock`faults
      ensures sock.faults <= old(sock.faults)
      ensures ok ==> sock.faults == old(sock.faults) && 8 + |EncodeAll(args)| <= |old(sock.incoming)|
      ensures if AllFit(args) && sock.faults == old(sock.faults) && 8 + |EncodeAll(args)| <= |old(sock.incoming)|
              then ok && vals == args && sock.incoming == tail
              else !ok || vals != args
    {
      hide Header, EncodeAll, Encode, AllFit, Fits, Append;
      ghost var a := SingleReply(StringT, args);
      DynamicReply(a);
      StringReply(a);
      ghost var n := |a.Image()| % 0x1_0000_0000;
      ok := GetPayloadDynamic(a.Image()[..n], n, tail);
      if !ok {
        return ok, [];
      }
      vals := [StringA(rcvBuffer[..])];
    }

    /** The reply to the last call is next on the connection, which may end inside it. */
    ghost predicate Awaits(ts: seq<ArgType>, args: seq<Arg>, tail: seq<uint8>)
      reads this, sock
    {
      && lastClassId < 0x1_0000 && lastFuncId < 0x1_0000
      && Types(args) == ts && ValidArgs(args)
      && Arrives(Header(lastClassId, lastFuncId) + EncodeAll(args), tail)
    }
  }

  /** Twelve bytes of a reply with a count have arrived: what they are, and what follows. */
  lemma CountAhead(h: seq<uint8>, count: seq<uint8>, value: seq<uint8>, tail: seq<uint8>, s: seq<uint8>)
    requires |h| == 8 && |count| == 4 && |s| >= 12
    requires s == h + (count + value) + tail || (tail == [] && s <= h + (count + value))
    ensures s[..12] == h + count
    ensures |value| <= |s[12..]| ==> s[12..][..|value|] == value && s[12..][|value|..] == tail
    ensures |s[12..]| >= |value| <==> |s| >= 12 + |value|
  {
    var w := h + (count + value) + tail;
    assert w[..12] == h + count && w[12..] == value + tail;
    if tail == [] && s <= h + (count + value) {
      assert s == w[..|s|];
      assert s[..12] == w[..12] && (|s| >= 12 + |value| ==> s == w);
    }
  }

  /** The elements of a whole received buffer. */
  function Whole(s: seq<uint8>, size: nat): seq<seq<uint8>>
    requires size > 0
  {
    QuotientBound(|s|, size);
    Elements(s, size, |s| / size)
  }

  lemma SingleReply(t: ArgType, args: seq<Arg>) returns (a: Arg)
    requires Types(args) == [t] && ValidArgs(args)
    ensures args == [a] && a.Type() == t && a.Valid()
    ensures EncodeAll(args) == Encode(a) && (AllFit(args) <==> Fits(a))
  {
    hide Encode, Fits;
    a := args[0];
    assert a in args && a.Type() == Types(args)[0] && |args| == |Types(args)|;
    assert EncodeAll(args[1..]) == [] && Encode(a) + [] == Encode(a);
  }

  lemma ScalarReply(t: ScalarType, args: seq<Arg>)
    requires Types(args) == [ScalarT(t)] && ValidArgs(args)
    ensures |EncodeAll(args)| == t.Size() && args == [ScalarA(ExtractScalar(t, EncodeAll(args)))] && AllFit(args)
  {
    hide EncodeAll, AllFit, ExtractScalar, Append;
    var a := SingleReply(ScalarT(t), args);
    ScalarRoundTrip(a.x, []);
    assert Encode(a) + [] == Encode(a);
  }

  lemma ArrayReply(size: nat, n: nat, args: seq<Arg>)
    requires Types(args) == [ArrayT(size, n)] && ValidArgs(args) && size * n < 0x8000_0000
    ensures |EncodeAll(args)| == size * n && args == [ArrayA(size, Elements(EncodeAll(args), size, n))] && AllFit(args)
  {
    hide EncodeAll, AllFit, Elements, Concat;
    var a := SingleReply(ArrayT(size, n), args);
    ElementsOfConcat(a.elems, a.size, []);
    assert Encode(a) + [] == Encode(a) == Concat(a.elems);
  }

  lemma DynamicReply(a: Arg)
    requires a.VectorA? || a.StringA?
    ensures var n := |a.Image()| % 0x1_0000_0000; Encode(a) == Append(n, 4) + a.Image()[..n] && |Encode(a)| == 4 + n
  {
    hide Append, Concat;
    LowBits(|a.Image()|);
    ExtractAppend4(|a.Image()| % 0x1_0000_0000, []);
  }

  lemma TupleReply(ts: seq<ScalarType>, args: seq<Arg>)
    requires Types(args) == ScalarTypes(ts) && ValidArgs(args)
    ensures |EncodeAll(args)| == TcpSession.PackSize(ts)
    ensures TcpSession.Deserialize(0, ts, EncodeAll(args)) == args && AllFit(args)
  {
    TupleSize(ts, args);
    var s := EncodeAll(args);
    assert s[0..] + [] == s + [] == s;
    TcpSession.PackDecodes(0, ts, s, []);
    RoundTrip(args, []);
  }

  lemma {:induction false} TupleSize(ts: seq<ScalarType>, args: seq<Arg>)
    requires Types(args) == ScalarTypes(ts) && ValidArgs(args)
    ensures |EncodeAll(args)| == TcpSession.PackSize(ts) && AllFit(args)
  {
    if args != [] {
      assert args[0] in args && args[0].Type() == Types(args)[0] == ScalarT(ts[0]);
      ScalarRoundTrip(args[0].x, []);
      assert Types(args[1..]) == Types(args)[1..] == ScalarTypes(ts[1..]);
      TupleSize(ts[1..], args[1..]);
    }
  }

  lemma VectorReply(a: Arg)
    requires a.Valid() && a.VectorA?
    ensures var n := |a.Image()| % 0x1_0000_0000;
            if Fits(a) then n < 0x8000_0000 && VectorA(a.size, Whole(a.Image()[..n], a.size)) == a
            else n >= 0x8000_0000 || VectorA(a.size, Whole(a.Image()[..n], a.size)) != a
  {
    hide *;
    var m := |a.Image()|;
    var n := m % 0x1_0000_0000;
    VectorImage(a);
    FitsIs(a);
    LowBits(m);
    if Fits(a) {
      assert a.Image()[..m] == a.Image();
      WholeImage(a);
    } else if m >= 0x1_0000_0000 {
      FewerElements(a.Image()[..n], a.size, |a.elems|);
    }
  }

  lemma FitsIs(a: Arg)
    requires a.VectorA?
    ensures Fits(a) <==> |a.Image()| < 0x8000_0000
    ensures forall x :: |x| != |a.elems| ==> VectorA(a.size, x) != a
    ensures VectorA(a.size, a.elems) == a
  {
    hide Concat;
  }

  lemma LowBits(m: nat)
    ensures m < 0x1_0000_0000 ==> m % 0x1_0000_0000 == m
    ensures 0 <= m % 0x1_0000_0000 <= m
  {
  }

  lemma WholeImage(a: Arg)
    requires a.Valid() && a.VectorA?
    ensures Whole(a.Image(), a.size) == a.elems
  {
    hide Elements, Concat;
    MultipleDivides(a.size, |a.elems|);
    ElementsOfConcat(a.elems, a.size, []);
    assert a.Image() == a.Image() + [];
  }

  lemma FewerElements(s: seq<uint8>, size: nat, m: nat)
    requires size > 0 && |s| < size * m
    ensures |Whole(s, size)| < m
  {
    hide Elements;
    QuotientBound(|s|, size);
    ProductOrder(size, |s| / size, m);
  }

  lemma StringReply(a: Arg)
    requires a.StringA?
    ensures var n := |a.Image()| % 0x1_0000_0000;
            if Fits(a) then n < 0x8000_0000 && a.Image()[..n] == a.chars
            else n >= 0x8000_0000 || a.Image()[..n] != a.chars
  {
  }

  /** The sending side of a session. */
  class Replier {
    const sock: Socket
    const serializer: DynamicSerializer
    var sendBuffer: seq<uint8>
    var closed: bool

    constructor (sock: Socket)
      ensures this.sock == sock && fresh(serializer) && fresh(serializer.scalData)
      ensures serializer.scalData.Length == SCALAR_PACK_LEN && !closed
    {
      this.sock := sock;
      serializer := new DynamicSerializer();
      sendBuffer, closed := [], false;
    }

    /** Session<TCP>::write, a single write: len is an unsigned int, and the results are ints. A
        positive result means that the first len bytes, and nothing else, are on the wire. */
    method Write(data: seq<uint8>, len: nat) returns (r: int)
      requires len == |data| % 0x1_0000_0000
      modifies sock`outgoing, sock`faults
      ensures r > 0 <==> 0 < len < 0x8000_0000 && sock.outgoing == old(sock.outgoing) + data[..len]
      ensures r > 0 ==> r == len
      ensures exists k :: 0 <= k <= len && sock.outgoing == old(sock.outgoing) + data[..k]
    {
      var n := sock.Write(data[..len]);
      assert data[..len][..if n < 0 then 0 else n] == data[..if n < 0 then 0 else n];
      if ToInt(n) == 0 {
        return 0;
      }
      if ToInt(n) < 0 {
        return -1;
      }
      if ToInt(n) != ToInt(len) {
        return -1;
      }
      return ToInt(len);
    }

    /** Session<TCP>::send. For a message below 2^31 bytes a positive result means that it is on
        the wire completely; in general only the part that the low 32 bits of its length count. */
    method Send(classId: nat, funcId: nat, args: seq<Arg>) returns (r: int)
      requires serializer.scalData.Length == SCALAR_PACK_LEN && RunsFit(0, args) && ValidArgs(args)
      modifies this`sendBuffer, this`closed, serializer, serializer.scalData, sock`outgoing, sock`faults
      ensures var message := Message(classId, funcId, args);
              var len := |message| % 0x1_0000_0000;
              && (r > 0 <==> 0 < len < 0x8000_0000 && sock.outgoing == old(sock.outgoing) + message[..len])
              && (|message| < 0x8000_0000 ==> (r > 0 <==> sock.outgoing == old(sock.outgoing) + message))
              && (r > 0 ==> (|message| < 0x1_0000_0000 <==> sock.outgoing == old(sock.outgoing) + message))
      ensures exists k :: 0 <= k <= |Message(classId, funcId, args)|
                          && sock.outgoing == old(sock.outgoing) + Message(classId, funcId, args)[..k]
      ensures closed == (old(closed) || r == 0)
    {
      hide Message, RunsFit, ValidArgs;
      sendBuffer := serializer.BuildCommand(sendBuffer, classId, funcId, args);
      MessageNotEmpty(classId, funcId, args);
      r := Write(sendBuffer, |sendBuffer| % 0x1_0000_0000);
      assert |sendBuffer| < 0x1_0000_0000 ==> sendBuffer[..|sendBuffer|] == sendBuffer;
      if r == 0 {
        closed := true;
      }
    }
  }

  /** A reply on its way from the server, whose writes may fail, to the client, whose reads may
      fail, through any fragmentation. */
  method SendAndReceive(rt: ReplyType, classId: nat, funcId: nat, args: seq<Arg>, writeFaults: nat, readFaults: nat)
    returns (r: int, ok: bool, vals: seq<Arg>)
    requires rt.Valid() && Types(args) == rt.Types() && ValidArgs(args) && RunsFit(0, args)
    requires classId < 0x1_0000 && funcId < 0x1_0000
    ensures r > 0 && |Message(classId, funcId, args)| < 0x1_0000_0000 && AllFit(args) && readFaults == 0 ==> ok
    ensures ok && AllFit(args) ==> vals == args
    ensures !AllFit(args) ==> !ok || vals != args
    ensures ok && |Message(classId, funcId, args)| < 0x8000_0000 ==> r > 0
  {
    hide RunsFit, ValidArgs, AllFit, EncodeAll, Header, Types;
    var out := new Socket([], writeFaults);
    var replier := new Replier(out);
    r := replier.Send(classId, funcId, args);
    ghost var message := Message(classId, funcId, args);
    assert out.outgoing <= message;
    var sock := new Socket(out.outgoing, readFaults);
    var client := new Client(sock, classId, funcId);
    ok, vals := client.Recv(rt, args, []);
    assert ok ==> out.outgoing == [] + message;
  }

  lemma MessageNotEmpty(classId: nat, funcId: nat, args: seq<Arg>)
    ensures |Message(classId, funcId, args)| >= 8
  {
  }

  lemma ToIntIs(n: nat)
    requires n < 0x1_0000_0000
    ensures ToInt(n) == if n < 0x8000_0000 then n else n - 0x1_0000_0000
  {
  }
}
