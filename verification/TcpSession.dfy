/** Session<TCP>: reading commands from a stream that arrives in arbitrary pieces. */
module TcpSession {
  import opened Arithmetic
  import opened Bytes
  import opened Wire
  import opened Serializer
  import opened ArgPacks
  import opened Sockets
  import opened DriverStartup
  import opened Drivers

  /** An executed operation. */
  datatype Command = Command(classId: nat, funcId: nat, args: seq<Arg>)

  /** The operations the server knows, with their argument types. */
  type Table = map<(nat, nat), seq<ArgType>>

  ghost predicate ValidTypes(ts: seq<ArgType>) {
    forall t :: t in ts ==> t.Valid()
  }

  /** The operations belong to the server, whose number is 1, or to one of its drivers. */
  ghost predicate ValidTable(table: Table, deviceNum: nat) {
    forall op :: op in table ==> 1 <= op.0 < deviceNum && ValidTypes(table[op])
  }

  /** How serving a stream ends: no further command comes; a command names a driver that does not
      exist; or the arguments of a command cannot be read. */
  datatype Ending = Finished | NoSuchDriver | Unreadable

  /** What a stream asks for: the operations, and the drivers whose numbers the commands carry. */
  datatype Service = Service(executed: seq<Command>, drivers: seq<nat>, ending: Ending)
  {
    /** The same, behind others. */
    function Behind(executed: seq<Command>, drivers: seq<nat>): Service {
      Service(executed + this.executed, drivers + this.drivers, ending)
    }
  }

  /** The driver with the number; 0 is no driver and 1 is the server. */
  function DriverOf(number: nat): seq<nat> {
    if number >= 2 then [number - 2] else []
  }

  /** The commands in a byte stream, by the format alone. */
  function Commands(table: Table, s: seq<uint8>): Read<seq<Command>>
    decreases |s|
  {
    if s == [] then Got([], [])
    else if |s| < 8 then Short
    else
      var op: (nat, nat) := (Extract(s[4..], 2), Extract(s[6..], 2));
      if op !in table then Rejected
      else
        match DecodeAll(table[op], s[8..])
        case Short => Short
        case Rejected => Rejected
        case Got(args, rest) =>
          match Commands(table, rest)
          case Short => Short
          case Rejected => Rejected
          case Got(others, last) => Got([Command(op.0, op.1, args)] + others, last)
  }

  /** The bytes a client sends for a sequence of commands. */
  function Stream(cmds: seq<Command>): seq<uint8> {
    if cmds == [] then []
    else Message(cmds[0].classId, cmds[0].funcId, cmds[0].args) + Stream(cmds[1..])
  }

  /** An operation of the table, with arguments of the declared types. */
  predicate Declared(table: Table, c: Command) {
    (c.classId, c.funcId) in table && Types(c.args) == table[(c.classId, c.funcId)]
  }

  ghost predicate WellTyped(table: Table, c: Command) {
    c.classId < 0x1_0000 && c.funcId < 0x1_0000 && Declared(table, c) && ValidArgs(c.args)
  }

  // ---------------------------------------------------------------- packs of scalars

  /** required_buffer_size */
  function PackSize(ts: seq<ScalarType>): nat {
    if ts == [] then 0 else ts[0].Size() + PackSize(ts[1..])
  }

  /** deserialize<position, Tp...> */
  function Deserialize(position: nat, ts: seq<ScalarType>, buff: seq<uint8>): (r: seq<Arg>)
    requires position + PackSize(ts) <= |buff|
    decreases |ts|
  {
    if ts == [] then []
    else [ScalarA(ExtractScalar(ts[0], buff[position..]))] + Deserialize(position + ts[0].Size(), ts[1..], buff)
  }

  /** Extracting a pack at once is decoding its scalars one after the other. */
  lemma {:induction false} PackDecodes(position: nat, ts: seq<ScalarType>, buff: seq<uint8>, rest: seq<uint8>)
    requires position + PackSize(ts) == |buff|
    ensures DecodeAll(ScalarTypes(ts), buff[position..] + rest) == Got(Deserialize(position, ts, buff), rest)
    decreases |ts|
  {
    hide *;
    var s := buff[position..] + rest;
    PackStep(position, ts, buff);
    if ts == [] {
      NoScalars(s);
      assert s == rest;
    } else {
      var w := ts[0].Size();
      PackDecodes(position + w, ts[1..], buff, rest);
      assert s[w..] == buff[position + w..] + rest;
      ExtractPrefix(ts[0], buff[position..], rest);
      DecodeFirstScalar(ts, s);
    }
  }

  lemma PackStep(position: nat, ts: seq<ScalarType>, buff: seq<uint8>)
    requires position + PackSize(ts) == |buff|
    ensures if ts == [] then PackSize(ts) == 0 && Deserialize(position, ts, buff) == []
            else
              var w := ts[0].Size();
              && PackSize(ts) == w + PackSize(ts[1..])
              && Deserialize(position, ts, buff)
                 == [ScalarA(ExtractScalar(ts[0], buff[position..]))] + Deserialize(position + w, ts[1..], buff)
  {
    hide ExtractScalar;
  }

  lemma {:induction false} TypesOfPack(position: nat, ts: seq<ScalarType>, buff: seq<uint8>)
    requires position + PackSize(ts) <= |buff|
    ensures Types(Deserialize(position, ts, buff)) == ScalarTypes(ts)
    decreases |ts|
  {
    if ts != [] {
      var w := ts[0].Size();
      TypesOfPack(position + w, ts[1..], buff);
      hide Types, Deserialize, ExtractScalar;
      var first := ScalarA(ExtractScalar(ts[0], buff[position..]));
      TypeOfExtracted(ts[0], buff[position..]);
      FirstOfPack(position, ts, buff);
      TypesOfFirst(first, Deserialize(position + w, ts[1..], buff));
      assert ScalarTypes(ts) == [ScalarT(ts[0])] + ScalarTypes(ts[1..]);
    }
  }

  lemma FirstOfPack(position: nat, ts: seq<ScalarType>, buff: seq<uint8>)
    requires ts != [] && position + PackSize(ts) <= |buff|
    ensures Deserialize(position, ts, buff)
            == [ScalarA(ExtractScalar(ts[0], buff[position..]))] + Deserialize(position + ts[0].Size(), ts[1..], buff)
  {
    hide ExtractScalar;
  }

  lemma TypeOfExtracted(t: ScalarType, s: seq<uint8>)
    requires t.Size() <= |s|
    ensures ExtractScalar(t, s).Type() == t
  {
    hide Extract;
  }

  lemma TypesOfFirst(a: Arg, more: seq<Arg>)
    ensures Types([a] + more) == [a.Type()] + Types(more)
  {
    assert ([a] + more)[1..] == more;
  }

  lemma TypesOfNone()
    ensures Types([]) == []
  {
  }

  lemma TypesOfOne(a: Arg)
    ensures Types([a]) == [a.Type()]
  {
    TypesOfNone();
    TypesOfFirst(a, []);
    assert [a] + [] == [a];
  }

  lemma {:induction false} TypesOfBoth(x: seq<Arg>, y: seq<Arg>)
    ensures Types(x + y) == Types(x) + Types(y)
  {
    hide *;
    if x == [] {
      TypesOfNone();
      assert x + y == y;
    } else {
      TypesOfBoth(x[1..], y);
      TypesOfFirst(x[0], x[1..]);
      TypesOfFirst(x[0], x[1..] + y);
      assert x == [x[0]] + x[1..] && x + y == [x[0]] + (x[1..] + y);
    }
  }

  lemma NoScalars(s: seq<uint8>)
    ensures DecodeAll(ScalarTypes([]), s) == Got([], s)
  {
  }

  lemma DecodeFirstScalar(ts: seq<ScalarType>, s: seq<uint8>)
    requires ts != [] && ts[0].Size() <= |s|
    ensures var d := DecodeAll(ScalarTypes(ts[1..]), s[ts[0].Size()..]);
            d.Got? ==>
              DecodeAll(ScalarTypes(ts), s) == Got([ScalarA(ExtractScalar(ts[0], s))] + d.got, d.rest)
  {
    hide ExtractScalar, Decode;
    assert ScalarTypes(ts)[1..] == ScalarTypes(ts[1..]) && ScalarTypes(ts)[0] == ScalarT(ts[0]);
    DecodeScalar(ts[0], s);
  }

  lemma DecodeScalar(t: ScalarType, s: seq<uint8>)
    requires t.Size() <= |s|
    ensures Decode(ScalarT(t), s) == Got(ScalarA(ExtractScalar(t, s)), s[t.Size()..])
  {
    hide ExtractScalar;
  }

  lemma ExtractPrefix(t: ScalarType, s: seq<uint8>, rest: seq<uint8>)
    requires t.Size() <= |s|
    ensures ExtractScalar(t, s + rest) == ExtractScalar(t, s)
  {
    hide Extract;
    ExtractIsLocal(s, rest, t.Size());
  }

  lemma ExtractIsLocal(s: seq<uint8>, rest: seq<uint8>, w: nat)
    requires w <= |s|
    ensures Extract(s + rest, w) == Extract(s, w)
  {
    if w == 8 {
      assert (s + rest)[4..] == s[4..] + rest;
    }
  }

  lemma {:induction false} PackTooShort(ts: seq<ScalarType>, s: seq<uint8>)
    requires |s| < PackSize(ts)
    ensures DecodeAll(ScalarTypes(ts), s).Short?
  {
    if |s| >= ts[0].Size() {
      PackTooShort(ts[1..], s[ts[0].Size()..]);
      assert ScalarTypes(ts)[1..] == ScalarTypes(ts[1..]);
    }
  }

  lemma {:induction false} DecodeSplit(x: seq<ArgType>, y: seq<ArgType>, s: seq<uint8>)
    ensures DecodeAll(x + y, s) ==
            match DecodeAll(x, s)
            case Short => Short
            case Rejected => Rejected
            case Got(a, r) =>
              match DecodeAll(y, r)
              case Short => Short
              case Rejected => Rejected
              case Got(b, r') => Got(a + b, r')
  {
    hide Decode;
    if x == [] {
      assert x + y == y;
      var c := DecodeAll(y, s);
      assert c.Got? ==> [] + c.got == c.got;
    } else {
      assert (x + y)[1..] == x[1..] + y;
      var d := Decode(x[0], s);
      if d.Got? {
        DecodeSplit(x[1..], y, d.rest);
        var a, b := DecodeAll(x[1..], d.rest), DecodeAll(x, s);
        if a.Got? {
          var c := DecodeAll(y, a.rest);
          if c.Got? {
            assert [d.got] + (a.got + c.got) == [d.got] + a.got + c.got;
          }
        }
      }
    }
  }

  lemma DecodeOne(t: ArgType, s: seq<uint8>)
    ensures DecodeAll([t], s) ==
            match Decode(t, s)
            case Short => Short
            case Rejected => Rejected
            case Got(a, r) => Got([a], r)
  {
    hide Decode;
    var d := Decode(t, s);
    if d.Got? {
      assert DecodeAll([t][1..], d.rest) == Got([], d.rest);
      assert [d.got] + [] == [d.got];
    }
  }

  // ---------------------------------------------------------------- the session

  class Session {
    const sock: Socket
    const manager: DriverManager
    const wide: bool    // size_t has 64 bits
    var thrown: bool    // an exception has left run

    constructor (sock: Socket, manager: DriverManager, wide: bool)
      ensures this.sock == sock && this.manager == manager && this.wide == wide && !thrown
    {
      this.sock := sock;
      this.manager := manager;
      this.wide := wide;
      thrown := false;
    }

    /** rcv_n_bytes: the return value is n, 0 at the end of the stream, or -1 exactly when a read
        fails. */
    method RcvNBytes(buffer: array<uint8>, n: nat) returns (r: int)
      requires n <= buffer.Length
      modifies sock`incoming, sock`faults, buffer
      ensures sock.faults <= old(sock.faults) && |sock.incoming| <= |old(sock.incoming)|
      ensures if sock.faults < old(sock.faults) then r == -1
              else if n <= |old(sock.incoming)| then r == n else r == 0
      ensures n == 0 ==> sock.faults == old(sock.faults)
      ensures r == n ==> buffer[..n] == old(sock.incoming)[..n] && sock.incoming == old(sock.incoming)[n..]
    {
      var bytesRead := 0;
      while bytesRead < n
        invariant bytesRead <= n && bytesRead <= |old(sock.incoming)|
        invariant sock.incoming == old(sock.incoming)[bytesRead..]
        invariant buffer[..bytesRead] == old(sock.incoming)[..bytesRead]
        invariant sock.faults == old(sock.faults)
      {
        var bytesRcv := sock.Read(buffer, bytesRead, n - bytesRead);
        if bytesRcv == 0 {
          return 0;
        }
        if bytesRcv < 0 {
          return -1;
        }
        NextPiece(old(sock.incoming), bytesRead, bytesRcv);
        bytesRead := bytesRead + bytesRcv;
      }
      return bytesRead;
    }

    /** get_pack_length: -1 when a read fails; at the end of the stream any number. */
    method GetPackLength() returns (r: int)
      modifies sock
      ensures sock.faults <= old(sock.faults) && |sock.incoming| <= |old(sock.incoming)|
      ensures if sock.faults < old(sock.faults) then r == -1 else 0 <= r < 0x1_0000_0000
      ensures sock.faults == old(sock.faults) && 4 <= |old(sock.incoming)| ==>
                r == Extract(old(sock.incoming), 4) && sock.incoming == old(sock.incoming)[4..]
    {
      hide Extract;
      var buff := new uint8[8];
      var err := RcvNBytes(buff, 4);
      if err < 0 {
        return -1;
      }
      ExtractBound(buff[..]);
      if 4 <= |old(sock.incoming)| {
        ExtractAt(buff[..], old(sock.incoming));
      }
      return Extract(buff[..], 4);
    }

    /** What a reading method did: with no failing read, what the format says; otherwise, with
        64-bit sizes, the result is negative. */
    twostate predicate Agrees<T>(d: Read<T>, err: int, a: T)
      reads this, sock
    {
      && sock.faults <= old(sock.faults) && |sock.incoming| <= |old(sock.incoming)|
      && (thrown && !old(thrown) ==> sock.faults < old(sock.faults))
      && if sock.faults < old(sock.faults) then err < 0 || !wide else Answers(d, err, a, sock.incoming)
    }

    /** recv of an array; the int64 byte count comes back as an int. */
    method RecvArray(size: nat, n: nat) returns (err: int, a: Arg)
      modifies sock, this`thrown
      ensures Agrees(Decode(ArrayT(size, n), old(sock.incoming)), err, a) && a.Type() == ArrayT(size, n)
    {
      hide Elements, ToInt;
      var buffer := new uint8[size * n];
      var r := RcvNBytes(buffer, size * n);
      err := ToInt(r);
      ToIntOfSmall();
      a := ArrayA(size, Elements(buffer[..], size, n));
      if sock.faults == old(sock.faults) && size * n <= |old(sock.incoming)| {
        assert buffer[..] == buffer[..size * n];
        ElementsAreLocal(old(sock.incoming), size, n);
      }
    }

    /** The part of recv of a vector behind the count. */
    method RecvElements(size: nat, length: nat) returns (err: int, a: Arg)
      requires size > 0
      modifies sock
      ensures sock.faults <= old(sock.faults) && |sock.incoming| <= |old(sock.incoming)|
      ensures sock.faults < old(sock.faults) ==> err < 0
      ensures sock.faults == old(sock.faults) && size * length <= |old(sock.incoming)| ==>
                && err == ToInt(size * length)
                && a == VectorA(size, Elements(old(sock.incoming), size, length))
                && sock.incoming == old(sock.incoming)[size * length..]
      ensures length == 0 ==> err == 0 && a == VectorA(size, []) && sock.faults == old(sock.faults)
      ensures a.Type() == VectorT(size)
    {
      hide Elements, ToInt;
      var n := size * length;
      var buffer := new uint8[n];
      var r := RcvNBytes(buffer, n);
      err := ToInt(r);
      ToIntOfSmall();
      a := VectorA(size, Elements(buffer[..], size, length));
      if sock.faults == old(sock.faults) && n <= |old(sock.incoming)| {
        assert buffer[..] == buffer[..n];
        ElementsAreLocal(old(sock.incoming), size, length);
      }
    }

    /** recv of a vector. When the count cannot be read, the quotient of 64-bit sizes is one that
        resize refuses with an exception, and that of 32-bit sizes is 0 unless an element is one
        byte: an empty vector, and no error. */
    method RecvVector(size: nat) returns (err: int, a: Arg)
      requires VectorT(size).Valid()
      modifies sock, this`thrown
      ensures Agrees(Decode(VectorT(size), old(sock.incoming)), err, a) && a.Type() == VectorT(size)
      ensures sock.faults < old(sock.faults) ==> err < 0 || (err == 0 && size > 1 && a == VectorA(size, []))
    {
      hide Elements, ToInt, Extract, Decode, Quotient;
      ghost var s := sock.incoming;
      var packLength := GetPackLength();
      var length := Quotient(wide, packLength, size);
      QuotientIs(wide, packLength, size);
      if length < 0 {
        return -1, VectorA(size, []);
      }
      if length > 0x7FFF_FFFF_FFFF_FFFF / size {
        thrown := true;
        return -1, VectorA(size, []);
      }
      err, a := RecvElements(size, length);
      ReadVector(size, s);
    }

    /** recv of a string */
    method RecvString() returns (err: int, a: Arg)
      modifies sock, this`thrown
      ensures Agrees(Decode(StringT, old(sock.incoming)), err, a) && a.StringA?
    {
      hide ToInt, Extract;
      var length := GetPackLength();
      if length < 0 {
        return -1, StringA([]);
      }
      var buffer := new uint8[length];
      var r := RcvNBytes(buffer, length);
      err := ToInt(r);
      ToIntOfSmall();
      a := StringA(buffer[..]);
      assert buffer[..] == buffer[..length];
    }

    /** deserialize of a group of scalars */
    method DeserializePack(ts: seq<ScalarType>) returns (err: int, vals: seq<Arg>)
      modifies sock, this`thrown
      ensures Agrees(DecodeAll(ScalarTypes(ts), old(sock.incoming)), err, vals) && Types(vals) == ScalarTypes(ts)
    {
      hide DecodeAll, ScalarTypes, PackSize, Types;
      var packLen := PackSize(ts);
      var buff := new uint8[packLen];
      err := RcvNBytes(buff, packLen);
      vals := Deserialize(0, ts, buff[..]);
      TypesOfPack(0, ts, buff[..]);
      ghost var s := old(sock.incoming);
      if packLen > |s| {
        PackTooShort(ts, s);
      } else if err >= 0 {
        assert buff[..] == buff[..packLen];
        PackDecodes(0, ts, buff[..], s[packLen..]);
        assert buff[..][0..] + s[packLen..] == s;
      }
    }

    /** One group of the generated parser. */
    method ReadPack(p: Pack) returns (err: int, vals: seq<Arg>)
      requires ValidTypes(PackTypes(p)) && (p.ContainerPack? ==> !p.t.ScalarT?)
      modifies sock, this`thrown
      ensures Agrees(DecodeAll(PackTypes(p), old(sock.incoming)), err, vals) && Types(vals) == PackTypes(p)
    {
      hide Decode, DecodeAll, ScalarTypes, Types;
      match p {
        case ScalarPack(ts) => err, vals := DeserializePack(ts);
        case ContainerPack(t) =>
          DecodeOne(t, sock.incoming);
          assert t in PackTypes(p);
          var a;
          match t {
            case ArrayT(size, n) => err, a := RecvArray(size, n);
            case VectorT(size) => err, a := RecvVector(size);
            case StringT => err, a := RecvString();
          }
          vals := [a];
          TypesOfOne(a);
      }
    }

    /** The generated parser: the groups in order, giving up at the first negative result. */
    method ParseArgs(packs: seq<Pack>) returns (err: int, args: seq<Arg>)
      requires Grouped(packs) && ValidTypes(AllTypes(packs))
      modifies sock, this`thrown
      ensures Agrees(DecodeAll(AllTypes(packs), old(sock.incoming)), err, args)
      ensures err >= 0 ==> Types(args) == AllTypes(packs)
    {
      hide DecodeAll, AllTypes, Types;
      args := [];
      err := 0;
      ghost var s := sock.incoming;
      NoTypes(s);
      TypesOfNone();
      for i := 0 to |packs|
        invariant Types(args) == AllTypes(packs[..i])
        invariant sock.faults <= old(sock.faults) && |sock.incoming| <= |s| && err >= 0
        invariant thrown && !old(thrown) ==> sock.faults < old(sock.faults)
        invariant if sock.faults < old(sock.faults) then !wide
                  else Answers(DecodeAll(AllTypes(packs[..i]), s), err, args, sock.incoming)
      {
        PackOfTypes(packs, i);
        DecodeSplit(AllTypes(packs[..i]), PackTypes(packs[i]), s);
        DecodePrefix(packs, i + 1, s);
        ghost var faults := sock.faults;
        var vals;
        err, vals := ReadPack(packs[i]);
        if err < 0 {
          return;
        }
        TypesOfBoth(args, vals);
        args := args + vals;
      }
      assert packs[..|packs|] == packs;
    }

    /** read_command: 0 at the end of the stream, -1 when a read fails. */
    method ReadCommand() returns (r: int, classId: nat, funcId: nat)
      modifies sock
      ensures sock.faults <= old(sock.faults) && |sock.incoming| <= |old(sock.incoming)|
      ensures if sock.faults < old(sock.faults) then r == -1
              else if |old(sock.incoming)| < 8 then r == 0 else r == 8
      ensures r == 8 ==>
                && sock.incoming == old(sock.incoming)[8..]
                && classId == Extract(old(sock.incoming)[4..], 2) && funcId == Extract(old(sock.incoming)[6..], 2)
    {
      var header := new uint8[8];
      r := RcvNBytes(header, 8);
      classId, funcId := 0, 0;
      if r <= 0 {
        return;
      }
      var b := header[..];
      assert b == header[..8] == old(sock.incoming)[..8];
      classId := Extract(b[4..], 2);
      funcId := Extract(b[6..], 2);
    }

    /** run, for a server that knows the operations of the table: the operations it executes, the
        drivers it asks the manager for, and whether it meets the number of a driver that does
        not exist, where execute stops on an assertion or reads behind its arrays. A command of
        an unknown operation fails without reading its arguments. Whatever reads fail, only known
        operations are executed, with arguments of their types. The reply of the closing-th
        executed operation is the first one that finds the connection closed, which ends the
        session. */
    method Run(table: Table, closing: nat) returns (executed: seq<Command>, asked: seq<nat>, refused: bool)
      requires manager.Valid() && manager.Abs().starting == {} && ValidTable(table, |manager.deps| + 2)
      requires closing > 0 && !thrown
      modifies sock, this`thrown, manager.Repr()
      ensures After(manager, asked, old(manager.Abs()))
      ensures |executed| <= closing && sock.faults <= old(sock.faults)
      ensures forall c :: c in executed ==> Declared(table, c)
      ensures sock.faults == old(sock.faults) ==>
                var v := Serve(table, |manager.deps| + 2, old(sock.incoming));
                && Follows(v, closing, executed, asked, refused)
                && (Commands(table, old(sock.incoming)).Got? && |v.executed| < closing ==> sock.incoming == [])
    {
      hide Extract, DecodeAll, Commands, Serve, Tracks, Follows, After, Types;
      executed, asked, refused := [], [], false;
      var deviceNum := |manager.deps| + 2;
      ghost var s := sock.incoming;
      ghost var reading := true;   // no command has failed
      NothingYet(table, deviceNum, s, closing);
      NothingAsked(manager);
      while true
        invariant |executed| < closing && !refused && !thrown
        invariant forall c :: c in executed ==> Declared(table, c)
        invariant After(manager, asked, old(manager.Abs()))
        invariant sock.faults <= old(sock.faults)
        invariant sock.faults == old(sock.faults) ==>
                    Tracks(table, deviceNum, s, sock.incoming, closing, executed, asked, reading)
        decreases |sock.incoming|
      {
        ghost var here := sock.incoming;
        var r, classId, funcId := ReadCommand();
        if r <= 0 {
          if sock.faults == old(sock.faults) {
            NoFurther(table, deviceNum, s, here, closing, executed, asked, reading);
          }
          return;
        }
        if classId >= deviceNum {
          refused := true;
          if sock.faults == old(sock.faults) {
            Refused(table, deviceNum, s, here, closing, executed, asked, reading);
          }
          return;
        }
        ghost var askedBefore, executedBefore := asked, executed;
        var err, args;
        asked, err, args := Obey(table, classId, funcId, asked, old(manager.Abs()));
        if thrown {
          return;
        }
        if (classId, funcId) in table {
          if err >= 0 {
            executed := executed + [Command(classId, funcId, args)];
          }
          if sock.faults == old(sock.faults) {
            Performed(table, deviceNum, s, here, closing, executedBefore, askedBefore, reading, err, args,
                      sock.incoming);
            reading := reading && DecodeAll(table[(classId, funcId)], here[8..]).Got?;
            if |executed| == closing {
              Closing(table, deviceNum, s, sock.incoming, closing, executed, asked, reading);
            }
          }
          if |executed| == closing {
            return;
          }
        } else if sock.faults == old(sock.faults) {
          PassedOver(table, deviceNum, s, here, closing, executed, asked, askedBefore, reading);
        }
      }
    }

    /** execute of the driver manager, and of the driver: an unknown operation fails at once. */
    method Obey(table: Table, classId: nat, funcId: nat, asked0: seq<nat>, ghost s: State)
      returns (asked: seq<nat>, err: int, args: seq<Arg>)
      requires classId < |manager.deps| + 2 && ValidTable(table, |manager.deps| + 2) && After(manager, asked0, s)
      modifies sock, this`thrown, manager.Repr()
      ensures asked == asked0 + DriverOf(classId) && After(manager, asked, s)
      ensures (classId, funcId) in table ==>
                && Agrees(DecodeAll(table[(classId, funcId)], old(sock.incoming)), err, args)
                && (err >= 0 ==> Types(args) == table[(classId, funcId)])
      ensures (classId, funcId) !in table ==>
                err < 0 && unchanged(sock) && unchanged(this`thrown)
    {
      hide After, DecodeAll, Types;
      asked := HandOver(manager, classId, asked0, s);
      if (classId, funcId) !in table {
        return asked, -1, [];
      }
      err, args := Perform(table[(classId, funcId)]);
    }

    /** What the generated code for one operation does first: its arguments from the stream. */
    method Perform(ts: seq<ArgType>) returns (err: int, args: seq<Arg>)
      requires ValidTypes(ts)
      modifies sock, this`thrown
      ensures Agrees(DecodeAll(ts, old(sock.incoming)), err, args) && (err >= 0 ==> Types(args) == ts)
    {
      hide DecodeAll, Types;
      var packs, hasVector := BuildArgsPacks(ts);
      err, args := ParseArgs(packs);
    }
  }

  /** A run that executes at most closing operations does what serving the stream is. Behind a
      command that cannot be read the stream has lost its command boundaries. */
  ghost predicate Follows(v: Service, closing: nat, executed: seq<Command>, asked: seq<nat>, refused: bool) {
    if |v.executed| >= closing then executed == v.executed[..closing] && asked <= v.drivers && !refused
    else if v.ending.Unreadable? then v.executed <= executed && v.drivers <= asked
    else executed == v.executed && asked == v.drivers && (refused <==> v.ending.NoSuchDriver?)
  }

  /** A session that was given the stream s has reached the rest of it; reading says that no
      command could not be read. */
  ghost predicate Tracks(table: Table, deviceNum: nat, s: seq<uint8>, rest: seq<uint8>,
                         closing: nat, executed: seq<Command>, asked: seq<nat>, reading: bool)
  {
    var v := Serve(table, deviceNum, s);
    && (if reading then v == Serve(table, deviceNum, rest).Behind(executed, asked)
        else v.ending.Unreadable? && |v.executed| < closing && v.executed <= executed && v.drivers <= asked)
    && (Commands(table, s).Got? ==> reading && Commands(table, rest).Got?)
  }

  lemma NothingYet(table: Table, deviceNum: nat, s: seq<uint8>, closing: nat)
    ensures Tracks(table, deviceNum, s, s, closing, [], [], true)
  {
    hide Serve, Commands;
    NothingBehind(Serve(table, deviceNum, s));
  }

  lemma NoFurther(table: Table, deviceNum: nat, s: seq<uint8>, rest: seq<uint8>,
                  closing: nat, executed: seq<Command>, asked: seq<nat>, reading: bool)
    requires Tracks(table, deviceNum, s, rest, closing, executed, asked, reading) && |rest| < 8 && |executed| < closing
    ensures Follows(Serve(table, deviceNum, s), closing, executed, asked, false)
    ensures Commands(table, s).Got? ==> rest == []
  {
    hide Serve, Commands;
    ServeStep(table, deviceNum, rest);
    CommandsStep(table, rest);
  }

  lemma Refused(table: Table, deviceNum: nat, s: seq<uint8>, rest: seq<uint8>,
                closing: nat, executed: seq<Command>, asked: seq<nat>, reading: bool)
    requires Tracks(table, deviceNum, s, rest, closing, executed, asked, reading) && |executed| < closing
    requires |rest| >= 8 && Extract(rest[4..], 2) >= deviceNum && ValidTable(table, deviceNum)
    ensures Follows(Serve(table, deviceNum, s), closing, executed, asked, true)
    ensures !Commands(table, s).Got?
  {
    hide Serve, Commands, Extract;
    ServeStep(table, deviceNum, rest);
    CommandsStep(table, rest);
  }

  lemma PassedOver(table: Table, deviceNum: nat, s: seq<uint8>, rest: seq<uint8>,
                   closing: nat, executed: seq<Command>, asked: seq<nat>, askedBefore: seq<nat>, reading: bool)
    requires Tracks(table, deviceNum, s, rest, closing, executed, askedBefore, reading)
    requires |rest| >= 8 && Extract(rest[4..], 2) < deviceNum
    requires (Extract(rest[4..], 2), Extract(rest[6..], 2)) !in table
    requires asked == askedBefore + DriverOf(Extract(rest[4..], 2))
    ensures Tracks(table, deviceNum, s, rest[8..], closing, executed, asked, reading)
  {
    hide Serve, Commands, Extract, DriverOf;
    ServeStep(table, deviceNum, rest);
    CommandsStep(table, rest);
    OneBehind(Serve(table, deviceNum, rest[8..]), executed, [], askedBefore, DriverOf(Extract(rest[4..], 2)));
  }

  lemma Performed(table: Table, deviceNum: nat, s: seq<uint8>, here: seq<uint8>, closing: nat, executed: seq<Command>,
                  asked: seq<nat>, reading: bool, err: int, args: seq<Arg>, rest: seq<uint8>)
    requires |executed| < closing
    requires Tracks(table, deviceNum, s, here, closing, executed, asked, reading)
    requires |here| >= 8 && Extract(here[4..], 2) < deviceNum
    requires var op: (nat, nat) := (Extract(here[4..], 2), Extract(here[6..], 2));
             op in table && Answers(DecodeAll(table[op], here[8..]), err, args, rest)
    ensures var op: (nat, nat) := (Extract(here[4..], 2), Extract(here[6..], 2));
            Tracks(table, deviceNum, s, rest, closing,
                   if err >= 0 then executed + [Command(op.0, op.1, args)] else executed,
                   asked + DriverOf(op.0), reading && DecodeAll(table[op], here[8..]).Got?)
  {
    hide Serve, Commands, Extract, DecodeAll, DriverOf;
    ServeStep(table, deviceNum, here);
    CommandsStep(table, here);
    var op: (nat, nat) := (Extract(here[4..], 2), Extract(here[6..], 2));
    var c := [Command(op.0, op.1, args)];
    if reading {
      if DecodeAll(table[op], here[8..]).Got? {
        OneBehind(Serve(table, deviceNum, rest), executed, c, asked, DriverOf(op.0));
      } else {
        assert executed + [] == executed;
      }
    }
  }

  lemma Closing(table: Table, deviceNum: nat, s: seq<uint8>, rest: seq<uint8>,
                closing: nat, executed: seq<Command>, asked: seq<nat>, reading: bool)
    requires Tracks(table, deviceNum, s, rest, closing, executed, asked, reading) && |executed| == closing
    ensures Follows(Serve(table, deviceNum, s), closing, executed, asked, false)
    ensures Commands(table, s).Got? ==> |Serve(table, deviceNum, s).executed| >= closing
  {
    hide Serve, Commands;
    var w := Serve(table, deviceNum, rest);
    assert (executed + w.executed)[..closing] == executed && asked <= asked + w.drivers;
  }

  lemma NothingBehind(v: Service)
    ensures v.Behind([], []) == v
  {
    assert [] + v.executed == v.executed && [] + v.drivers == v.drivers;
  }

  lemma OneBehind(w: Service, executed: seq<Command>, c: seq<Command>, asked: seq<nat>, d: seq<nat>)
    ensures w.Behind(c, d).Behind(executed, asked) == w.Behind(executed + c, asked + d)
  {
    assert executed + (c + w.executed) == executed + c + w.executed;
    assert asked + (d + w.drivers) == asked + d + w.drivers;
  }

  ghost predicate Exist(asked: seq<nat>, n: nat) {
    forall i :: 0 <= i < |asked| ==> asked[i] < n
  }

  /** The manager is ready for commands, and all that has happened since it was in the state s
      are requests for the drivers asked. */
  ghost predicate After(manager: DriverManager, asked: seq<nat>, s: State)
    reads manager.Repr()
  {
    && manager.Valid() && manager.Abs().starting == {} && Exist(asked, |manager.deps|)
    && manager.Abs() == RequestAll(manager.deps, asked, s)
  }

  lemma NothingAsked(manager: DriverManager)
    requires manager.Valid() && manager.Abs().starting == {}
    ensures After(manager, [], manager.Abs())
  {
  }

  /** execute of the driver manager, which gives the command to the driver with its number. */
  method HandOver(manager: DriverManager, number: nat, asked0: seq<nat>, ghost s: State) returns (asked: seq<nat>)
    requires number < |manager.deps| + 2 && After(manager, asked0, s)
    modifies manager.Repr()
    ensures asked == asked0 + DriverOf(number) && After(manager, asked, s)
  {
    hide RequestAll, Request;
    asked := asked0 + DriverOf(number);
    Ask(manager.deps, asked0, number, s);
    var handler := manager.Execute(number);
    assert handler == if number == 0 then NoDriver else if number == 1 then TheServer else TheDriver(number - 2);
  }

  /** One more driver number behind the earlier requests. */
  lemma Ask(g: Graph, asked: seq<nat>, number: nat, s: State)
    requires WellFormed(g) && number < |g| + 2 && Exist(asked, |g|)
    ensures Exist(asked + DriverOf(number), |g|)
    ensures RequestAll(g, asked + DriverOf(number), s) ==
            if number >= 2 then Request(g, number - 2, RequestAll(g, asked, s)) else RequestAll(g, asked, s)
  {
    hide RequestAll, Request;
    if number >= 2 {
      RequestOneMore(g, asked, number - 2, s);
    } else {
      assert asked + DriverOf(number) == asked;
    }
  }

  lemma NextPiece(s: seq<uint8>, k: nat, n: nat)
    requires k + n <= |s|
    ensures s[..k] + s[k..][..n] == s[..k + n] && s[k..][n..] == s[k + n..]
  {
  }

  lemma ToIntOfSmall()
    ensures ToInt(-1) == -1 && ToInt(0) == 0
  {
  }

  /** get_pack_length() / sizeof(T): an unsigned division where size_t has 64 bits, and a signed
      one where it has 32, of a number that is -1 after a failed read. */
  function Quotient(wide: bool, length: int, size: nat): int
    requires size > 0
  {
    if length >= 0 then length / size
    else if wide then (length + 0x1_0000_0000_0000_0000) / size
    else -(-length / size)
  }

  lemma QuotientIs(wide: bool, length: int, size: nat)
    requires 0 < size < 0x8000_0000_0000_0000 && -1 <= length < 0x1_0000_0000
    ensures var q := Quotient(wide, length, size); var most := 0x7FFF_FFFF_FFFF_FFFF / size;
            if length >= 0 then q == length / size && 0 <= q <= most
            else if wide then q > most
            else q == if size == 1 then -1 else 0
  {
    hide *;
    if length >= 0 {
      QuotientOfCount(wide, length, size);
    } else {
      QuotientOfMinusOne(wide, size);
    }
  }

  lemma QuotientOfCount(wide: bool, length: nat, size: nat)
    requires size > 0 && length < 0x1_0000_0000
    ensures Quotient(wide, length, size) == length / size
    ensures 0 <= length / size <= 0x7FFF_FFFF_FFFF_FFFF / size
  {
    DivideOrdered(0, length, size);
    DivideOrdered(length, 0x7FFF_FFFF_FFFF_FFFF, size);
  }

  lemma QuotientOfMinusOne(wide: bool, size: nat)
    requires 0 < size < 0x8000_0000_0000_0000
    ensures var q := Quotient(wide, -1, size);
            if wide then q > 0x7FFF_FFFF_FFFF_FFFF / size else q == if size == 1 then -1 else 0
  {
    if wide {
      DivideMultiple(size, 1, 0x7FFF_FFFF_FFFF_FFFF);
      DivideOrdered(size * 1 + 0x7FFF_FFFF_FFFF_FFFF, 0xFFFF_FFFF_FFFF_FFFF, size);
    } else if size > 1 {
      QuotientIsUnique(size, 0, 1, 1);
    }
  }

  /** Reading a vector, step by step. */
  lemma ReadVector(size: nat, s: seq<uint8>)
    requires size > 0
    ensures Decode(VectorT(size), s) ==
            if |s| < 4 then Short
            else
              var n := Extract(s, 4) / size;
              if |s[4..]| < size * n then Short
              else if ToInt(size * n) < 0 then Rejected
              else Got(VectorA(size, Elements(s[4..], size, n)), s[4..][size * n..])
  {
    hide Elements, ToInt, Extract;
  }

  /** What a stream asks of a server with driver numbers below deviceNum: a command of an unknown
      operation leaves its payload, the number of a driver that does not exist ends the session,
      and behind a command that is cut short or rejected the boundaries are lost. */
  function Serve(table: Table, deviceNum: nat, s: seq<uint8>): Service
    decreases |s|
  {
    if |s| < 8 then Service([], [], Finished)
    else
      var op: (nat, nat) := (Extract(s[4..], 2), Extract(s[6..], 2));
      if op.0 >= deviceNum then Service([], [], NoSuchDriver)
      else if op !in table then Serve(table, deviceNum, s[8..]).Behind([], DriverOf(op.0))
      else
        match DecodeAll(table[op], s[8..])
        case Got(args, rest) =>
          Serve(table, deviceNum, rest).Behind([Command(op.0, op.1, args)], DriverOf(op.0))
        case _ => Service([], DriverOf(op.0), Unreadable)
  }

  lemma ServeStep(table: Table, deviceNum: nat, s: seq<uint8>)
    ensures Serve(table, deviceNum, s) ==
      if |s| < 8 then Service([], [], Finished)
      else
        var op: (nat, nat) := (Extract(s[4..], 2), Extract(s[6..], 2));
        if op.0 >= deviceNum then Service([], [], NoSuchDriver)
        else if op !in table then Serve(table, deviceNum, s[8..]).Behind([], DriverOf(op.0))
        else if !DecodeAll(table[op], s[8..]).Got? then Service([], DriverOf(op.0), Unreadable)
        else
          Serve(table, deviceNum, DecodeAll(table[op], s[8..]).rest)
            .Behind([Command(op.0, op.1, DecodeAll(table[op], s[8..]).got)], DriverOf(op.0))
  {
    hide Extract, DecodeAll;
  }

  /** The drivers that commands address. */
  function Addressed(cmds: seq<Command>): seq<nat> {
    if cmds == [] then [] else DriverOf(cmds[0].classId) + Addressed(cmds[1..])
  }

  /** When the whole stream parses, exactly its commands are served. */
  lemma {:induction false} ServedIsAll(table: Table, deviceNum: nat, s: seq<uint8>)
    requires ValidTable(table, deviceNum) && Commands(table, s).Got?
    ensures var cmds := Commands(table, s).got;
            Serve(table, deviceNum, s) == Service(cmds, Addressed(cmds), Finished)
    decreases |s|
  {
    hide Extract, DecodeAll, ValidTypes;
    if s != [] {
      var op: (nat, nat) := (Extract(s[4..], 2), Extract(s[6..], 2));
      var cmds := Commands(table, s).got;
      ServedIsAll(table, deviceNum, DecodeAll(table[op], s[8..]).rest);
      assert cmds[1..] == Commands(table, DecodeAll(table[op], s[8..]).rest).got;
    }
  }

  lemma CommandsStep(table: Table, s: seq<uint8>)
    ensures Commands(table, s).Got? && s != [] ==>
              && |s| >= 8
              && var op: (nat, nat) := (Extract(s[4..], 2), Extract(s[6..], 2));
                 && op in table && DecodeAll(table[op], s[8..]).Got?
                 && Commands(table, DecodeAll(table[op], s[8..]).rest).Got?
    ensures Commands(table, s).Got? && |s| < 8 ==> s == []
  {
    hide Extract, DecodeAll;
  }

  lemma NoTypes(s: seq<uint8>)
    ensures DecodeAll(AllTypes([]), s) == Got([], s)
  {
  }

  lemma PackOfTypes(packs: seq<Pack>, i: nat)
    requires i < |packs|
    ensures AllTypes(packs[..i + 1]) == AllTypes(packs[..i]) + PackTypes(packs[i])
    ensures ValidTypes(AllTypes(packs)) ==> ValidTypes(PackTypes(packs[i]))
  {
    hide PackTypes, ValidTypes;
    assert packs[..i + 1][..i] == packs[..i];
    TypesOfPrefix(packs, i + 1);
    ValidPart(AllTypes(packs[..i]), PackTypes(packs[i]), AllTypes(packs));
  }

  lemma ValidPart(x: seq<ArgType>, y: seq<ArgType>, all: seq<ArgType>)
    requires x + y <= all
    ensures ValidTypes(all) ==> ValidTypes(y)
  {
    assert forall i :: 0 <= i < |y| ==> y[i] == all[|x| + i];
  }

  lemma {:induction false} TypesOfPrefix(packs: seq<Pack>, i: nat)
    requires i <= |packs|
    ensures AllTypes(packs[..i]) <= AllTypes(packs)
    decreases |packs| - i
  {
    if i == |packs| {
      assert packs[..i] == packs;
    } else {
      assert packs[..i + 1][..i] == packs[..i];
      TypesOfPrefix(packs, i + 1);
    }
  }

  /** A prefix that is rejected or runs short decides the whole list. */
  lemma DecodePrefix(packs: seq<Pack>, i: nat, s: seq<uint8>)
    requires i <= |packs|
    ensures DecodeAll(AllTypes(packs[..i]), s).Rejected? ==> DecodeAll(AllTypes(packs), s).Rejected?
    ensures DecodeAll(AllTypes(packs[..i]), s).Short? ==> DecodeAll(AllTypes(packs), s).Short?
  {
    TypesOfPrefix(packs, i);
    var x, all := AllTypes(packs[..i]), AllTypes(packs);
    assert all == x + all[|x|..];
    DecodeSplit(x, all[|x|..], s);
  }

  /** An int result and a value agree with what the format says about the stream. */
  ghost predicate Answers<T>(d: Read<T>, err: int, a: T, incoming: seq<uint8>) {
    match d
    case Got(x, rest) => err >= 0 && a == x && incoming == rest
    case Rejected => err < 0
    case Short => true
  }

  lemma {:induction false} ElementsAreLocal(s: seq<uint8>, size: nat, n: nat)
    requires size * n <= |s|
    ensures Elements(s[..size * n], size, n) == Elements(s, size, n)
  {
    if n > 0 {
      hide Elements;
      var m := size * n;
      FirstElement(s, size, n);
      FirstElement(s[..m], size, n);
      assert size <= m by { OneMore(size, n); }
      PrefixSplits(s, size, m);
      assert m - size == size * (n - 1);
      ElementsAreLocal(s[size..], size, n - 1);
    }
  }

  lemma PrefixSplits(s: seq<uint8>, k: nat, m: nat)
    requires k <= m <= |s|
    ensures s[..m][..k] == s[..k] && s[..m][k..] == s[k..][..m - k]
  {
  }

  lemma ExtractBound(s: seq<uint8>)
    requires 4 <= |s|
    ensures Extract(s, 4) < 0x1_0000_0000
  {
  }

  lemma ExtractAt(x: seq<uint8>, y: seq<uint8>)
    requires 4 <= |x| && 4 <= |y| && x[..4] == y[..4]
    ensures Extract(x, 4) == Extract(y, 4)
  {
    assert forall i :: 0 <= i < 4 ==> x[i] == x[..4][i] && y[i] == y[..4][i];
  }

  // ---------------------------------------------------------------- the whole trip

  ghost predicate CommandsFit(cmds: seq<Command>) {
    forall c :: c in cmds ==> AllFit(c.args)
  }

  /** The format reads a stream of well-typed commands as exactly those commands, and to the last
      byte, if and only if all their arguments fit. */
  lemma {:induction false} StreamRoundTrip(table: Table, cmds: seq<Command>)
    requires forall c :: c in cmds ==> WellTyped(table, c)
    ensures Commands(table, Stream(cmds)) == Got(cmds, []) <==> CommandsFit(cmds)
  {
    hide *;
    if cmds == [] {
      NoCommands(table);
    } else {
      var c, rest := cmds[0], Stream(cmds[1..]);
      FirstMessage(cmds, []);
      FirstFits(cmds);
      ArgsAreValid(table, c);
      RoundTrip(c.args, rest);
      StreamRoundTrip(table, cmds[1..]);
      FirstCommand(table, c, EncodeAll(c.args) + rest);
      assert cmds == [c] + cmds[1..];
    }
  }

  lemma NoCommands(table: Table)
    ensures Commands(table, Stream([])) == Got([], []) && CommandsFit([])
  {
  }

  /** A stream starts with the first message. */
  lemma FirstMessage(cmds: seq<Command>, more: seq<uint8>)
    requires cmds != []
    ensures Stream(cmds) == Header(cmds[0].classId, cmds[0].funcId) + (EncodeAll(cmds[0].args) + Stream(cmds[1..]))
    ensures Stream(cmds) + more ==
              Header(cmds[0].classId, cmds[0].funcId) + (EncodeAll(cmds[0].args) + (Stream(cmds[1..]) + more))
  {
    hide Header, EncodeAll;
  }

  lemma FirstFits(cmds: seq<Command>)
    requires cmds != []
    ensures CommandsFit(cmds) <==> AllFit(cmds[0].args) && CommandsFit(cmds[1..])
  {
    hide AllFit;
    assert forall c :: c in cmds <==> c == cmds[0] || c in cmds[1..];
  }

  lemma ArgsAreValid(table: Table, c: Command)
    requires WellTyped(table, c)
    ensures ValidArgs(c.args)
  {
  }

  /** A stream behind the header of a known operation. */
  lemma FirstCommand(table: Table, c: Command, payload: seq<uint8>)
    requires WellTyped(table, c)
    ensures var r := Commands(table, Header(c.classId, c.funcId) + payload);
            var d := DecodeAll(Types(c.args), payload);
            if d.Got? && Commands(table, d.rest).Got?
            then r == Got([Command(c.classId, c.funcId, d.got)] + Commands(table, d.rest).got,
                          Commands(table, d.rest).rest)
            else !r.Got?
  {
    hide Extract, DecodeAll, Header, Types;
    HeaderRoundTrip(c.classId, c.funcId, payload);
    var s := Header(c.classId, c.funcId) + payload;
    assert |s| >= 8 && s != [];
  }

  /** Calls from one client, one build_command and one complete send after the other. */
  method SendAll(serializer: DynamicSerializer, cmds: seq<Command>) returns (sent: seq<uint8>)
    requires serializer.scalData.Length == SCALAR_PACK_LEN
    requires forall c :: c in cmds ==> RunsFit(0, c.args) && ValidArgs(c.args)
    modifies serializer, serializer.scalData
    ensures sent == Stream(cmds)
  {
    hide RunsFit, ValidArgs, Message;
    sent := [];
    var sendBuffer := [];
    for i := 0 to |cmds|
      invariant sent + Stream(cmds[i..]) == Stream(cmds)
    {
      var c := cmds[i];
      sendBuffer := serializer.BuildCommand(sendBuffer, c.classId, c.funcId, c.args);
      assert Stream(cmds[i..]) == Message(c.classId, c.funcId, c.args) + Stream(cmds[i + 1..]) by {
        assert cmds[i..][0] == c && cmds[i..][1..] == cmds[i + 1..];
      }
      assert sent + (Message(c.classId, c.funcId, c.args) + Stream(cmds[i + 1..])) == Stream(cmds);
      sent := sent + sendBuffer;
    }
    assert sent + Stream([]) == sent;
  }

  /** Behind calls that fit, a command whose operation is not known: the session goes on with the
      bytes behind its header if and only if there is a driver with its number. */
  lemma {:induction false} UnknownOperation(table: Table, deviceNum: nat, cmds: seq<Command>,
                                            classId: nat, funcId: nat, more: seq<uint8>)
    requires ValidTable(table, deviceNum) && CommandsFit(cmds) && forall c :: c in cmds ==> WellTyped(table, c)
    requires classId < 0x1_0000 && funcId < 0x1_0000 && (classId, funcId) !in table
    ensures Serve(table, deviceNum, Stream(cmds) + (Header(classId, funcId) + more)) ==
            if classId < deviceNum then
              Serve(table, deviceNum, more).Behind(cmds, Addressed(cmds) + DriverOf(classId))
            else Service(cmds, Addressed(cmds), NoSuchDriver)
  {
    hide *;
    if cmds == [] {
      UnknownFirst(table, deviceNum, classId, funcId, more);
    } else {
      var c, last := cmds[0], Header(classId, funcId) + more;
      FirstMessage(cmds, last);
      FirstFits(cmds);
      ArgsAreValid(table, c);
      RoundTrip(c.args, Stream(cmds[1..]) + last);
      UnknownOperation(table, deviceNum, cmds[1..], classId, funcId, more);
      KnownFirst(table, deviceNum, c, EncodeAll(c.args) + (Stream(cmds[1..]) + last));
      AddressedFirst(cmds, DriverOf(classId));
      assert cmds == [c] + cmds[1..];
      if classId < deviceNum {
        OneBehind(Serve(table, deviceNum, more), [c], cmds[1..], DriverOf(c.classId),
                  Addressed(cmds[1..]) + DriverOf(classId));
      } else {
        Finally(cmds[1..], Addressed(cmds[1..]), NoSuchDriver, [c], DriverOf(c.classId));
      }
    }
  }

  lemma Finally(cmds: seq<Command>, drivers: seq<nat>, ending: Ending, c: seq<Command>, d: seq<nat>)
    ensures Service(cmds, drivers, ending).Behind(c, d) == Service(c + cmds, d + drivers, ending)
  {
  }

  lemma UnknownFirst(table: Table, deviceNum: nat, classId: nat, funcId: nat, more: seq<uint8>)
    requires classId < 0x1_0000 && funcId < 0x1_0000 && (classId, funcId) !in table
    ensures Serve(table, deviceNum, Stream([]) + (Header(classId, funcId) + more)) ==
            if classId < deviceNum then
              Serve(table, deviceNum, more).Behind([], Addressed([]) + DriverOf(classId))
            else Service([], Addressed([]), NoSuchDriver)
  {
    hide Header, Extract, Serve;
    var s := Header(classId, funcId) + more;
    assert Stream([]) + s == s && Addressed([]) + DriverOf(classId) == DriverOf(classId);
    HeaderRoundTrip(classId, funcId, more);
    ServeStep(table, deviceNum, s);
  }

  lemma KnownFirst(table: Table, deviceNum: nat, c: Command, payload: seq<uint8>)
    requires ValidTable(table, deviceNum) && WellTyped(table, c)
    ensures var d := DecodeAll(Types(c.args), payload);
            d.Got? && d.got == c.args ==>
              Serve(table, deviceNum, Header(c.classId, c.funcId) + payload) ==
                Serve(table, deviceNum, d.rest).Behind([c], DriverOf(c.classId))
  {
    hide Header, Extract, Serve, DecodeAll, Types, ValidTypes;
    HeaderRoundTrip(c.classId, c.funcId, payload);
    ServeStep(table, deviceNum, Header(c.classId, c.funcId) + payload);
  }

  lemma AddressedFirst(cmds: seq<Command>, more: seq<nat>)
    requires cmds != []
    ensures Addressed(cmds) == DriverOf(cmds[0].classId) + Addressed(cmds[1..])
    ensures DriverOf(cmds[0].classId) + (Addressed(cmds[1..]) + more) == Addressed(cmds) + more
  {
  }

  /** Calls that fit are served, all of them and nothing else. */
  lemma ServedStream(table: Table, deviceNum: nat, cmds: seq<Command>)
    requires ValidTable(table, deviceNum) && CommandsFit(cmds) && forall c :: c in cmds ==> WellTyped(table, c)
    ensures Serve(table, deviceNum, Stream(cmds)) == Service(cmds, Addressed(cmds), Finished)
  {
    hide *;
    StreamRoundTrip(table, cmds);
    ServedIsAll(table, deviceNum, Stream(cmds));
  }

  lemma FollowsToTheEnd(cmds: seq<Command>, drivers: seq<nat>, executed: seq<Command>, asked: seq<nat>, refused: bool)
    requires Follows(Service(cmds, drivers, Finished), |cmds| + 1, executed, asked, refused)
    ensures executed == cmds && asked == drivers && !refused
  {
  }

  lemma AllArgsValid(table: Table, cmds: seq<Command>)
    requires forall c :: c in cmds ==> WellTyped(table, c)
    ensures forall c :: c in cmds ==> ValidArgs(c.args)
  {
    hide ValidArgs, Types;
  }

  /** A connection on which the stream s arrives, with no failing reads. */
  method Connect(table: Table, s: seq<uint8>, manager: DriverManager, wide: bool, closing: nat)
    returns (executed: seq<Command>, asked: seq<nat>, refused: bool)
    requires manager.Valid() && manager.Abs().starting == {} && ValidTable(table, |manager.deps| + 2) && closing > 0
    modifies manager.Repr()
    ensures After(manager, asked, old(manager.Abs()))
    ensures Follows(Serve(table, |manager.deps| + 2, s), closing, executed, asked, refused)
  {
    hide After, Serve, Commands, Follows, ValidTable;
    var sock := new Socket(s, 0);
    var session := new Session(sock, manager, wide);
    executed, asked, refused := session.Run(table, closing);
  }

  /** From the client's calls to the operations that the server executes, over a connection that
      cuts the bytes at will; the drivers started are those that the calls need. */
  method EndToEnd(table: Table, cmds: seq<Command>, manager: DriverManager, wide: bool)
    returns (executed: seq<Command>, asked: seq<nat>)
    requires manager.Valid() && manager.Abs().starting == {} && ValidTable(table, |manager.deps| + 2)
    requires forall c :: c in cmds ==> WellTyped(table, c) && RunsFit(0, c.args)
    modifies manager.Repr()
    ensures After(manager, asked, old(manager.Abs()))
    ensures CommandsFit(cmds) ==> executed == cmds && asked == Addressed(cmds)
  {
    hide After, Serve, Commands, CommandsFit, RunsFit, Stream, Follows, WellTyped, Addressed, ValidArgs, ValidTable;
    var serializer := new DynamicSerializer();
    AllArgsValid(table, cmds);
    var sent := SendAll(serializer, cmds);
    var refused;
    executed, asked, refused := Connect(table, sent, manager, wide, |cmds| + 1);
    if CommandsFit(cmds) {
      ServedStream(table, |manager.deps| + 2, cmds);
      FollowsToTheEnd(cmds, Addressed(cmds), executed, asked, refused);
    }
  }
}
