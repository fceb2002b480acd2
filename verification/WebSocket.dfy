/** server/core/websocket.hpp and websocket.cpp: the server's side of RFC 6455, section 5. */
module WebSockets {
  import opened Bytes
  import opened Rfc6455
  import opened Sockets
  import BinaryDigits
  import Wire

  const READ_STR_LEN := 262144          // WEBSOCK_READ_STR_LEN
  const SEND_BUF_LEN := 262144          // WEBSOCK_SEND_BUF_LEN
  const CMD_PAYLOAD_BUFFER_LEN := 262144
  const KOHERON_READ_STR_LEN := 16384

  const TEXT_FRAME := 1
  const BINARY_FRAME := 2
  const CONNECTION_CLOSE := 8

  /** The raw parts of a command. */
  class Command {
    const header: array<uint8>
    const payload: array<uint8>

    /** The source does not set the payload buffer; unset is what the memory happens to hold. */
    constructor (unset: seq<uint8>)
      requires |unset| == CMD_PAYLOAD_BUFFER_LEN
      ensures Shape() && fresh(header) && fresh(payload) && payload[..] == unset
    {
      header := new uint8[8];
      payload := new uint8[CMD_PAYLOAD_BUFFER_LEN](i requires 0 <= i < |unset| => unset[i]);
    }

    ghost predicate Shape() {
      header.Length == 8 && payload.Length == CMD_PAYLOAD_BUFFER_LEN && header != payload
    }
  }

  /** The longest payload that the header check lets through. */
  const MAX_PAYLOAD := READ_STR_LEN - 56

  /** A complete masked text or binary frame; section 5.2 forbids the lengths that are negative as
      signed 64-bit numbers. */
  ghost predicate MaskedData(p: Parsed) {
    p.Parsed? && p.frame.masked && (p.frame.opcode == TEXT_FRAME || p.frame.opcode == BINARY_FRAME)
    && |p.frame.payload| < 0x8000_0000_0000_0000
  }

  /** The data frames that the server accepts: those that pass the size check, are not empty, and
      not exactly 16384 bytes in all. */
  ghost predicate Accepted(p: Parsed) {
    && MaskedData(p) && 0 < |p.frame.payload| <= MAX_PAYLOAD
    && p.headerSize + |p.frame.payload| != KOHERON_READ_STR_LEN
  }

  // ---------------------------------------------------------------- what a stream starts with

  /** Where the data start, for a header that carries a key. */
  function HeaderEnd(s: seq<uint8>): nat
    requires |s| >= 2
  {
    6 + LengthSize(s[1] % 0x80)
  }

  /** The header of a text or binary frame is there. The code takes every frame for a masked one. */
  predicate DataHeader(s: seq<uint8>) {
    |s| >= 6 && CheckOpcode(s[0] % 0x10) == 0 && HeaderEnd(s) <= |s|
  }

  /** The stream ends inside a header. */
  predicate HeaderCut(s: seq<uint8>) {
    |s| < 6 || (CheckOpcode(s[0] % 0x10) == 0 && |s| < HeaderEnd(s))
  }

  /** The size that the header announces, as the signed field holds it. */
  function Announced(s: seq<uint8>): int
    requires DataHeader(s)
  {
    var len7 := s[1] % 0x80;
    if len7 <= 125 then len7 else if len7 == 126 then Value(s[2..4]) else ToInt64(Value(s[2..10]))
  }

  /** Where the next frame starts. */
  function FrameEnd(s: seq<uint8>): int
    requires DataHeader(s)
  {
    HeaderEnd(s) + Announced(s)
  }

  /** A header and as many bytes as it announces; not empty, and not exactly 16384 bytes in all. */
  predicate Deliverable(s: seq<uint8>) {
    && DataHeader(s) && 0 < Announced(s) <= MAX_PAYLOAD && FrameEnd(s) <= |s|
    && FrameEnd(s) != KOHERON_READ_STR_LEN
  }

  /** The bytes of a deliverable frame, unmasked. */
  function Data(s: seq<uint8>): seq<uint8>
    requires Deliverable(s)
  {
    var h := HeaderEnd(s);
    Mask(s[h - 4..h], s[h..FrameEnd(s)])
  }

  /** What is delivered, bit by bit: the octets behind the header, inverted where the octets of the
      key in front of them have ones. */
  lemma DataBits(s: seq<uint8>, i: nat)
    requires Deliverable(s) && i < |Data(s)|
    ensures var h := HeaderEnd(s);
            && h + i < |s|
            && BinaryDigits.ToBits(Data(s)[i], 8) ==
               BinaryDigits.XorBits(BinaryDigits.ToBits(s[h + i], 8), BinaryDigits.ToBits(s[h - 4 + i % 4], 8))
  {
    hide BinaryDigits.ToBits, BinaryDigits.XorBits, Xor, Announced;
    var h := HeaderEnd(s);
    BitsOfXor(s[h + i], s[h - 4 + i % 4]);
  }

  /** The first bytes of what goes out, for data frames of up to 125 bytes and close frames. */
  lemma SentBytes(data: seq<uint8>)
    requires |data| <= 125
    ensures ServerFrame(BINARY_FRAME, data) == [0x82, |data|] + data
    ensures ServerFrame(CONNECTION_CLOSE, []) == [0x88, 0]
  {
  }

  /** The frames that are accepted, in numbers. */
  lemma AcceptedAre(p: Parsed)
    ensures Accepted(p) <==>
            && p.Parsed? && p.frame.masked && (p.frame.opcode == 1 || p.frame.opcode == 2)
            && 1 <= |p.frame.payload| <= 262088 && p.headerSize + |p.frame.payload| != 16384
  {
  }

  lemma DataLength(s: seq<uint8>)
    requires Deliverable(s)
    ensures |Data(s)| == Announced(s) <= MAX_PAYLOAD
  {
  }

  /** check_opcode */
  function CheckOpcode(opcode: nat): int {
    if opcode == TEXT_FRAME || opcode == BINARY_FRAME then 0
    else if opcode == CONNECTION_CLOSE then 1
    else -1
  }

  /** static_cast<int64_t> of an unsigned 64-bit value */
  function ToInt64(v: nat): int {
    if v < 0x8000_0000_0000_0000 then v else v - 0x1_0000_0000_0000_0000
  }

  /** How the reader's view of a stream meets section 5.2: from a masked data frame it takes the
      sizes that the standard gives; the accepted ones are delivered, with their payload; a frame
      that is cut short never is. */
  lemma ViewOfFrame(s: seq<uint8>)
    ensures var p := ParseFrame(s);
            && (MaskedData(p) ==>
                  && DataHeader(s) && HeaderEnd(s) == p.headerSize && Announced(s) == |p.frame.payload|
                  && FrameEnd(s) <= |s| && p.rest == s[FrameEnd(s)..]
                  && (Accepted(p) <==> Deliverable(s))
                  && (Accepted(p) ==> Data(s) == p.frame.payload))
            && (p.Incomplete? ==> !Deliverable(s))
            && (p.Parsed? && p.frame.masked && p.frame.opcode == CONNECTION_CLOSE ==>
                  |s| >= 6 && s[0] % 0x10 == CONNECTION_CLOSE)
  {
    hide Mask, Value, ParseFrame;
    var p := ParseFrame(s);
    if p.Parsed? && p.frame.masked {
      HeaderFits(s);
    } else if p.Incomplete? {
      CutFrame(s);
    }
  }

  lemma CutFrame(s: seq<uint8>)
    requires ParseFrame(s).Incomplete?
    ensures !Deliverable(s)
  {
    hide Mask, Value;
    if DataHeader(s) {
      var len7 := s[1] % 0x80;
      var n := LengthSize(len7);
      assert s[2..][..n] == s[2..2 + n];
      if len7 == 127 {
        BigEndianOfValue(s[2..10]);
        Wire.PowersOf256();
      }
    }
  }

  class WebSocket {
    const sock: Socket
    const readStr: array<uint8>
    const sendBuf: array<uint8>
    var readStrLen: nat
    var connectionClosed: bool
    // the fields of the header structure
    var headerSize: nat
    var maskOffset: int
    var payloadSize: int
    var fin: bool
    var masked: bool
    var opcode: nat
    /** The three sizes come from a header, and not from what the memory held before. */
    ghost var headerKnown: bool

    /** The source does not set the sizes; the parameters are what the memory happens to hold. */
    constructor (sock: Socket, headerSize: nat, maskOffset: int, payloadSize: int)
      ensures this.sock == sock && Ready() && !connectionClosed && fresh(readStr) && fresh(sendBuf)
      ensures !headerKnown && Unset(headerSize, maskOffset, payloadSize)
    {
      this.sock := sock;
      readStr := new uint8[READ_STR_LEN](_ => 0);
      sendBuf := new uint8[SEND_BUF_LEN];
      readStrLen, connectionClosed := 0, false;
      this.headerSize, this.maskOffset, this.payloadSize := headerSize, maskOffset, payloadSize;
      headerKnown := false;
    }

    ghost predicate Unset(headerSize: nat, maskOffset: int, payloadSize: int)
      reads this`headerSize, this`maskOffset, this`payloadSize
    {
      this.headerSize == headerSize && this.maskOffset == maskOffset && this.payloadSize == payloadSize
    }

    ghost predicate Shape()
      reads this`readStrLen
    {
      readStr.Length == READ_STR_LEN && sendBuf.Length == SEND_BUF_LEN && readStr != sendBuf
      && readStrLen <= READ_STR_LEN
    }

    /** Before each command: a header that has been read passed the size check. */
    ghost predicate Ready()
      reads this`readStrLen, this`payloadSize, this`headerSize, this`maskOffset, this`headerKnown
    {
      Shape() && (headerKnown ==> SizesInRange())
    }

    ghost predicate SizesInRange()
      reads this`payloadSize, this`headerSize, this`maskOffset
    {
      && payloadSize <= MAX_PAYLOAD && 6 <= headerSize <= 14 && maskOffset == headerSize - 4
      && (payloadSize < 0 ==> headerSize == 14)
    }

    /** reset_read_buff */
    method ResetReadBuff()
      requires Shape()
      modifies this`readStrLen, readStr
      ensures readStrLen == 0 && Shape()
    {
      forall i | 0 <= i < readStrLen {
        readStr[i] := 0;
      }
      readStrLen := 0;
    }

    /** k bytes of the stream s have been appended to the start bytes of the read buffer. */
    ghost predicate Progress(start: seq<uint8>, s: seq<uint8>, k: int)
      reads this`readStrLen, readStr, sock`incoming
    {
      && Shape() && 0 <= k <= |s| && sock.incoming == s[k..]
      && readStrLen == |start| + k && readStr[..readStrLen] == start + s[..k]
    }

    /** Bytes asked for behind the first k have room, or nothing is left that could need it. */
    ghost predicate Room(start: seq<uint8>, s: seq<uint8>, k: int, n: int) {
      |start| + k + n <= READ_STR_LEN || |start| + |s| <= READ_STR_LEN
    }

    /** One read into the buffer, with the update of read_str_len. */
    method ReadMore(remaining: nat, ghost start: seq<uint8>, ghost s: seq<uint8>, ghost k: int) returns (bytesRead: int)
      requires Progress(start, s, k) && remaining > 0 && Room(start, s, k, remaining)
      modifies this`readStrLen, readStr, sock`incoming, sock`faults
      ensures bytesRead <= remaining
      ensures Progress(start, s, if bytesRead > 0 then k + bytesRead else k)
      ensures if bytesRead < 0 then sock.faults < old(sock.faults) else sock.faults == old(sock.faults)
      ensures bytesRead == 0 <==> bytesRead >= 0 && k == |s|
    {
      ghost var had := readStr[..readStrLen];
      bytesRead := sock.Read(readStr, readStrLen, remaining);
      if bytesRead > 0 {
        Further(start, s, k, bytesRead);
        readStrLen := readStrLen + bytesRead;
      } else {
        assert readStr[..readStrLen] == had;
      }
    }

    lemma Further(start: seq<uint8>, s: seq<uint8>, k: int, n: nat)
      requires 0 <= k && k + n <= |s|
      ensures start + s[..k] + s[k..][..n] == start + s[..k + n] && s[k..][n..] == s[k + n..]
    {
    }

    /** The inner loop of read_n_bytes: on to the last byte wanted, or to a read that brings
        nothing. */
    method ReadPieces(remaining0: nat, expected0: nat, ghost start: seq<uint8>, ghost s: seq<uint8>, ghost k: nat)
      returns (remaining: nat, expected: nat, bytesRead: int)
      requires Progress(start, s, k) && remaining0 > 0 && expected0 == remaining0 && Room(start, s, k, remaining0)
      modifies this`readStrLen, readStr, sock`incoming, sock`faults
      ensures remaining == expected <= remaining0 && Progress(start, s, k + (remaining0 - remaining))
      ensures sock.faults <= old(sock.faults)
      ensures if remaining == 0 then bytesRead > 0
              else if bytesRead < 0 then sock.faults < old(sock.faults)
              else bytesRead == 0 && k + (remaining0 - remaining) == |s|
    {
      hide Progress;
      remaining, expected := remaining0, expected0;
      bytesRead := 1;
      while remaining > 0
        invariant remaining == expected <= remaining0 && bytesRead > 0
        invariant Progress(start, s, k + (remaining0 - remaining)) && sock.faults <= old(sock.faults)
      {
        bytesRead := ReadMore(remaining, start, s, k + (remaining0 - remaining));
        if bytesRead <= 0 {
          return;
        }
        remaining := remaining - bytesRead;
        expected := expected - bytesRead;
      }
    }

    /** read_n_bytes: a failing read is tried again, unless the buffer then holds exactly 16384
        bytes, which is also an error after a complete read. */
    method ReadNBytes(bytes: int, expected0: int) returns (r: int)
      requires Shape() && bytes == expected0 && Room(readStr[..readStrLen], sock.incoming, 0, bytes)
      modifies this`readStrLen, this`connectionClosed, readStr, sock`incoming, sock`faults
      ensures Shape() && -1 <= r <= 1 && sock.faults <= old(sock.faults)
      ensures connectionClosed == (old(connectionClosed) || r == 1)
      ensures r == 0 ==> Progress(old(readStr[..readStrLen]), old(sock.incoming), if bytes > 0 then bytes else 0)
      ensures r == 0 && bytes > 0 ==> old(readStrLen) + bytes != KOHERON_READ_STR_LEN
      ensures r == 1 ==> bytes > |old(sock.incoming)|
      ensures r == 1 ==> Progress(old(readStr[..readStrLen]), old(sock.incoming), |old(sock.incoming)|)
      ensures r == -1 ==> bytes > 0 && old(readStrLen) <= KOHERON_READ_STR_LEN <= old(readStrLen) + bytes
      ensures r == -1 ==> KOHERON_READ_STR_LEN <= old(readStrLen) + |old(sock.incoming)|
      ensures r == -1 ==> sock.faults < old(sock.faults) || old(readStrLen) + bytes == KOHERON_READ_STR_LEN
      ensures r == -1 && sock.faults == old(sock.faults) ==> bytes <= |old(sock.incoming)|
    {
      var remaining, expected, bytesRead := bytes, expected0, -1;
      ghost var start, s := readStr[..readStrLen], sock.incoming;
      assert Progress(start, s, 0) && |start| == readStrLen;
      hide Progress;
      while expected > 0
        invariant remaining == expected <= bytes && (expected >= 0 || expected == bytes)
        invariant Progress(start, s, bytes - remaining)
        invariant connectionClosed == old(connectionClosed) && sock.faults <= old(sock.faults)
        invariant expected != bytes ==> |start| + (bytes - remaining) != KOHERON_READ_STR_LEN
        invariant 0 < expected < bytes ==> sock.faults < old(sock.faults)
        decreases expected + sock.faults
      {
        ghost var k := bytes - remaining;
        remaining, expected, bytesRead := ReadPieces(remaining, expected, start, s, k);
        LengthIs(start, s, bytes - remaining);
        if bytesRead == 0 {
          connectionClosed := true;
          return 1;
        }
        if readStrLen == KOHERON_READ_STR_LEN {
          return -1;
        }
      }
      LengthIs(start, s, if bytes > 0 then bytes else 0);
      return 0;
    }

    lemma LengthIs(start: seq<uint8>, s: seq<uint8>, k: int)
      requires Progress(start, s, k)
      ensures Shape() && readStrLen == |start| + k && k <= |s|
    {
    }

    /** The sizes are those of the header that s starts with. */
    ghost predicate SizesOf(s: seq<uint8>)
      requires DataHeader(s)
      reads this
    {
      headerKnown && headerSize == HeaderEnd(s) && maskOffset == HeaderEnd(s) - 4 && payloadSize == Announced(s)
    }

    twostate predicate SizesKept()
      reads this
    {
      Unset(old(headerSize), old(maskOffset), old(payloadSize)) && headerKnown == old(headerKnown)
    }

    /** The part of read_header behind the first six bytes: the longer forms of the length, and
        the size check. */
    method ReadLength(streamSize: nat, ghost s: seq<uint8>) returns (r: int)
      requires Shape() && Progress([], s, 6) && |s| >= 6 && CheckOpcode(s[0] % 0x10) == 0
      requires streamSize == s[1] % 0x80 && !connectionClosed
      modifies this`readStrLen, this`connectionClosed, this`headerSize, this`maskOffset, this`payloadSize
      modifies this`headerKnown, readStr, sock`incoming, sock`faults
      ensures Shape() && sock.faults <= old(sock.faults)
      ensures HeaderCut(s) ==> r == 0 && connectionClosed && SizesKept() && Progress([], s, |s|)
      ensures DataHeader(s) ==>
                && !connectionClosed && SizesOf(s) && Progress([], s, HeaderEnd(s))
                && r == if Announced(s) > MAX_PAYLOAD then -1 else 0
    {
      hide Value, Progress, ToInt64;
      FirstBytes(s, 6);
      var err;
      if streamSize <= 125 {
        headerSize, payloadSize, maskOffset := 6, streamSize, 2;
      } else if streamSize == 126 {
        err := ReadOn(2, s);
        if err < 0 {
          return -1;
        }
        if connectionClosed {
          return 0;
        }
        BytesBetween(s, 8, 4);
        headerSize, payloadSize, maskOffset := 8, Value(readStr[2..4]), 4;
      } else if streamSize == 127 {
        err := ReadOn(8, s);
        if err < 0 {
          return -1;
        }
        if connectionClosed {
          return 0;
        }
        BytesBetween(s, 14, 10);
        headerSize, payloadSize, maskOffset := 14, ToInt64(Value(readStr[2..10])), 10;
      } else {
        return -1;
      }
      headerKnown := true;
      if payloadSize > READ_STR_LEN - 56 {
        return -1;
      }
      return 0;
    }

    /** The read of the two or eight bytes of a longer length. */
    method ReadOn(n: nat, ghost s: seq<uint8>) returns (err: int)
      requires Shape() && Progress([], s, 6) && |s| >= 6 && !connectionClosed && n <= 8
      modifies this`readStrLen, this`connectionClosed, readStr, sock`incoming, sock`faults
      ensures Shape() && sock.faults <= old(sock.faults) && err >= 0
      ensures connectionClosed == (|s| < 6 + n)
      ensures Progress([], s, if |s| < 6 + n then |s| else 6 + n)
    {
      hide Progress;
      FirstBytes(s, 6);
      AtByte6(s);
      err := ReadNBytes(n, n);
      ProgressOn(s, 6, if err == 1 then |s| - 6 else n);
    }

    /** read_header: a header that is cut short gives 0 like a complete one, and leaves the sizes
        as they were. */
    method ReadHeader() returns (r: int)
      requires Shape() && readStrLen == 0 && !connectionClosed
      modifies this, readStr, sock`incoming, sock`faults
      ensures Shape() && sock.faults <= old(sock.faults)
      ensures var s := old(sock.incoming);
              if HeaderCut(s) then r == 0 && connectionClosed && SizesKept() && Progress([], s, |s|)
              else if DataHeader(s) then
                && !connectionClosed && SizesOf(s) && Progress([], s, HeaderEnd(s))
                && r == if Announced(s) > MAX_PAYLOAD then -1 else 0
              else if s[0] % 0x10 == CONNECTION_CLOSE then r == 1 && connectionClosed && SizesKept()
              else r == -1 && !connectionClosed && SizesKept()
    {
      hide Value, Progress, ToInt64;
      ghost var s := sock.incoming;
      assert readStr[..readStrLen] == [];
      var err := ReadNBytes(6, 6);
      if err < 0 {
        return -1;
      }
      if connectionClosed {
        return 0;
      }
      FirstBytes(s, 6);
      fin := readStr[0] >= 0x80;
      masked := readStr[1] >= 0x80;
      var streamSize := readStr[1] % 0x80;
      opcode := readStr[0] % 0x10;
      var opcodeErr := CheckOpcode(opcode);
      if opcodeErr < 0 {
        return -1;
      } else if opcodeErr == 1 {
        connectionClosed := true;
        return opcodeErr;
      }
      r := ReadLength(streamSize, s);
    }

    lemma BytesBetween(s: seq<uint8>, k: nat, m: nat)
      requires Progress([], s, k) && 2 <= m <= k
      ensures k <= |s| && readStrLen == k && readStr[2..m] == s[2..m]
    {
      FirstBytes(s, k);
      hide Progress;
      assert readStr[2..m] == s[2..m];
    }

    lemma AtByte6(s: seq<uint8>)
      requires Progress([], s, 6)
      ensures |s| >= 6 && readStr[..readStrLen] == s[..6] && sock.incoming == s[6..]
    {
    }

    lemma ProgressOn(s: seq<uint8>, j: nat, k: nat)
      requires j <= |s| && Progress(s[..j], s[j..], k)
      ensures Progress([], s, j + k)
    {
      assert s[..j] + s[j..][..k] == s[..j + k] && s[j..][k..] == s[j + k..];
    }

    lemma FirstBytes(s: seq<uint8>, k: nat)
      requires Progress([], s, k)
      ensures k <= |s| && readStrLen == k <= READ_STR_LEN && readStr[..k] == s[..k]
      ensures forall i :: 0 <= i < k ==> readStr[i] == s[i]
    {
      assert forall i :: 0 <= i < k ==> readStr[i] == readStr[..k][i];
    }

    /** read_stream; after a header that is cut short, one more read is asked for by the sizes that
        are there, and finds the end of the stream again unless it asks for nothing. */
    method ReadStream() returns (r: int)
      requires Ready() && !connectionClosed
      modifies this, readStr, sock`incoming, sock`faults
      ensures Shape() && sock.faults <= old(sock.faults) && -1 <= r <= 1
      ensures r >= 0 ==> Ready()
      ensures var s := old(sock.incoming);
              if HeaderCut(s) then
                && connectionClosed && SizesKept() && sock.incoming == [] && readStrLen == |s|
                && r == if payloadSize > 0 then 1 else 0
              else if DataHeader(s) then
                && SizesOf(s) && (Announced(s) > MAX_PAYLOAD ==> r == -1) && connectionClosed == (r == 1)
                && (r == 0 ==> FrameRead(s))
                && (r == 1 ==> FrameEnd(s) > |s|)
                && (r == -1 ==> || Announced(s) > MAX_PAYLOAD || sock.faults < old(sock.faults)
                                || (FrameEnd(s) == KOHERON_READ_STR_LEN
                                    && FrameEnd(s) <= |s|))
              else if s[0] % 0x10 == CONNECTION_CLOSE then r == 1 && connectionClosed && SizesKept()
              else r == -1 && SizesKept()
    {
      hide Value, Progress, ToInt64;
      ResetReadBuff();
      ghost var s := sock.incoming;
      var readHeadErr := ReadHeader();
      if readHeadErr < 0 {
        return -1;
      }
      if readHeadErr == 1 {
        return readHeadErr;
      }
      ghost var k := if HeaderCut(s) then |s| else HeaderEnd(s);
      if !HeaderCut(s) {
        AnnouncedNegative(s);
      }
      r := ReadPayload(s, k);
      if r >= 0 {
        LeftOver(s, if r == 1 then |s| else if payloadSize > 0 then k + payloadSize else k);
      }
    }

    /** The last part of read_stream: the payload, behind the first k bytes of the stream s. */
    method ReadPayload(ghost s: seq<uint8>, ghost k: nat) returns (r: int)
      requires Shape() && Progress([], s, k) && k <= 14 && (payloadSize <= MAX_PAYLOAD || k == |s|)
      modifies this`readStrLen, this`connectionClosed, readStr, sock`incoming, sock`faults
      ensures Shape() && -1 <= r <= 1 && sock.faults <= old(sock.faults)
      ensures connectionClosed == (old(connectionClosed) || r == 1)
      ensures r == 0 && payloadSize <= 0 ==> Progress([], s, k)
      ensures r == 0 && payloadSize > 0 ==> Progress([], s, k + payloadSize) && k + payloadSize != KOHERON_READ_STR_LEN
      ensures r == 1 ==> k + payloadSize > |s| && payloadSize > 0 && Progress([], s, |s|)
      ensures r == -1 ==> |s| >= KOHERON_READ_STR_LEN
      ensures r == -1 ==> || sock.faults < old(sock.faults)
                          || (k + payloadSize == KOHERON_READ_STR_LEN && k + payloadSize <= |s|)
    {
      hide Progress;
      FirstBytes(s, k);
      LeftOver(s, k);
      r := ReadNBytes(payloadSize, payloadSize);
      if r < 0 {
        return -1;
      }
      ProgressOn(s, k, if r == 1 then |s| - k else if payloadSize > 0 then payloadSize else 0);
    }

    /** The whole frame is in the buffer, and is not 16384 bytes long. */
    ghost predicate FrameRead(s: seq<uint8>)
      requires DataHeader(s)
      reads this, readStr, sock`incoming
    {
      var n := if Announced(s) > 0 then Announced(s) else 0;
      && Progress([], s, HeaderEnd(s) + n) && (n > 0 ==> HeaderEnd(s) + n != KOHERON_READ_STR_LEN)
    }

    lemma LeftOver(s: seq<uint8>, k: nat)
      requires Progress([], s, k)
      ensures k <= |s| && sock.incoming == s[k..] && readStrLen == k && readStr[..readStrLen] == s[..k]
    {
    }

    /** payload_ptr[i] ^ mask[i % 4] */
    function Unmasked(i: nat): uint8
      requires Shape() && 0 <= maskOffset && maskOffset + 4 + i < READ_STR_LEN
      reads this`readStrLen, this`maskOffset, readStr
    {
      Xor(readStr[maskOffset + 4 + i], readStr[maskOffset + i % 4])
    }

    /** Bit by bit, octet i is inverted where octet i mod 4 of the four at the mask offset has
        ones. */
    lemma UnmaskedBits(i: nat)
      requires Shape() && 0 <= maskOffset && maskOffset + 4 + i < READ_STR_LEN
      ensures BinaryDigits.ToBits(Unmasked(i), 8) ==
              BinaryDigits.XorBits(BinaryDigits.ToBits(readStr[maskOffset + 4 + i], 8),
                                   BinaryDigits.ToBits(readStr[maskOffset + i % 4], 8))
    {
      hide BinaryDigits.ToBits, BinaryDigits.XorBits, Xor;
      BitsOfXor(readStr[maskOffset + 4 + i], readStr[maskOffset + i % 4]);
    }

    /** read_str_len < header.header_size + 1, on unsigned ints */
    predicate Empty()
      reads this`readStrLen, this`headerSize
    {
      readStrLen < (headerSize + 1) % 0x1_0000_0000
    }

    /** The bytes that unmasking touches lie in the read buffer, and go to places in the payload
        buffer. */
    ghost predicate Unmaskable(maskOffset: int, payloadSize: int) {
      && 0 <= maskOffset && maskOffset + 12 <= READ_STR_LEN && maskOffset + 4 + payloadSize <= READ_STR_LEN
      && payloadSize <= 8 + CMD_PAYLOAD_BUFFER_LEN
    }

    /** decode_raw_stream_cmd: unmask into the command's header and payload. */
    method DecodeRawStreamCmd(cmd: Command) returns (r: int)
      requires Shape() && (Empty() || Unmaskable(maskOffset, payloadSize))
      requires cmd.Shape() && cmd.header != readStr && cmd.payload != readStr
      modifies cmd.header, cmd.payload
      ensures r == if Empty() then -1 else 0
      ensures r == 0 ==> forall i :: 0 <= i < 8 ==> cmd.header[i] == Unmasked(i)
      ensures r == 0 ==> forall i :: 8 <= i < payloadSize ==> cmd.payload[i - 8] == Unmasked(i)
      ensures forall i :: 0 <= i < CMD_PAYLOAD_BUFFER_LEN && payloadSize - 8 <= i ==>
                cmd.payload[i] == old(cmd.payload[i])
    {
      hide Xor;
      if Empty() {
        return -1;
      }
      var i := 0;
      while i < 8
        invariant i <= 8
        invariant forall j :: 0 <= j < i ==> cmd.header[j] == Unmasked(j)
        invariant forall j :: 0 <= j < CMD_PAYLOAD_BUFFER_LEN ==> cmd.payload[j] == old(cmd.payload[j])
      {
        cmd.header[i] := Xor(readStr[maskOffset + 4 + i], readStr[maskOffset + i % 4]);
        i := i + 1;
      }
      while i < payloadSize
        invariant 8 <= i && (i == 8 || i <= payloadSize)
        invariant forall j :: 0 <= j < 8 ==> cmd.header[j] == Unmasked(j)
        invariant forall j :: 8 <= j < i ==> cmd.payload[j - 8] == Unmasked(j)
        invariant forall j :: 0 <= j < CMD_PAYLOAD_BUFFER_LEN && i - 8 <= j ==> cmd.payload[j] == old(cmd.payload[j])
      {
        cmd.payload[i - 8] := Xor(readStr[maskOffset + 4 + i], readStr[maskOffset + i % 4]);
        i := i + 1;
      }
      return 0;
    }

    /** When the stream ends inside a header, the sizes that are there either close the
        connection, or find the buffer empty, or place the mask inside it. After a header that
        has been read they do. */
    ghost predicate CutIsHarmless(s: seq<uint8>)
      reads this`payloadSize, this`headerSize, this`maskOffset
    {
      HeaderCut(s) ==>
        payloadSize > 0 || |s| < (headerSize + 1) % 0x1_0000_0000 || Unmaskable(maskOffset, payloadSize)
    }

    lemma WholeIsHarmless(s: seq<uint8>)
      requires !HeaderCut(s) || (s == [] && headerSize < 0xFFFF_FFFF)
      ensures CutIsHarmless(s)
    {
      hide HeaderCut;
    }

    lemma KnownIsHarmless(s: seq<uint8>)
      requires Ready() && headerKnown
      ensures CutIsHarmless(s)
    {
    }

    /** receive_cmd: exactly the deliverable frames are delivered, unmasked, and the payload buffer
        keeps what it held behind them. After a header that is cut short the result is computed
        from the sizes that are there; it is no delivery, because the connection is closed. */
    method ReceiveCmd(cmd: Command) returns (r: int)
      requires Ready() && cmd.Shape() && cmd.header != readStr && cmd.payload != readStr
      requires connectionClosed || CutIsHarmless(sock.incoming)
      modifies this, readStr, sock`incoming, sock`faults, cmd.header, cmd.payload
      ensures Shape() && sock.faults <= old(sock.faults)
      ensures r >= 0 ==> Ready()
      ensures r == 0 ==> connectionClosed
      ensures old(connectionClosed) ==> r == 0 && connectionClosed && sock.incoming == old(sock.incoming)
      ensures r > 0 && !connectionClosed ==>
                var s := old(sock.incoming);
                && !old(connectionClosed) && Deliverable(s) && r == payloadSize == Announced(s)
                && headerKnown && sock.incoming == s[FrameEnd(s)..]
                && Holds(cmd, Data(s))
                && forall i :: 0 <= i < CMD_PAYLOAD_BUFFER_LEN && |Data(s)| - 8 <= i ==>
                     cmd.payload[i] == old(cmd.payload[i])
      ensures var s := old(sock.incoming);
              if old(connectionClosed) then true
              else if HeaderCut(s) then
                && connectionClosed
                && r == if old(payloadSize) > 0 then 0
                        else if |s| < (old(headerSize) + 1) % 0x1_0000_0000 then -1
                        else Wire.ToInt(old(payloadSize))
              else if !DataHeader(s) then
                if s[0] % 0x10 == CONNECTION_CLOSE then r == 0 && connectionClosed else r == -1
              else if sock.faults < old(sock.faults) then r >= -1
              else if Deliverable(s) then r > 0 && !connectionClosed
              else if FrameEnd(s) <= |s| || Announced(s) > MAX_PAYLOAD then r == -1 && !connectionClosed
              else r == 0 && connectionClosed
    {
      hide Value, ToInt64, Wire.ToInt, Data;
      if connectionClosed {
        return 0;
      }
      ghost var s := sock.incoming;
      var err := ReadStream();
      if err < 0 {
        return -1;
      } else if err == 1 {
        return 0;
      }
      var decoded := DecodeRawStreamCmd(cmd);
      if DataHeader(s) && decoded == 0 {
        FrameInBuffer(s, cmd);
        DataLength(s);
        SmallIsKept(payloadSize);
      }
      if decoded < 0 {
        return -1;
      }
      return Wire.ToInt(payloadSize);
    }

    lemma FrameInBuffer(s: seq<uint8>, cmd: Command)
      requires DataHeader(s) && FrameRead(s) && SizesOf(s) && Ready() && cmd.Shape() && readStrLen > headerSize
      requires forall i :: 0 <= i < 8 ==> cmd.header[i] == Unmasked(i)
      requires forall i :: 8 <= i < payloadSize ==> cmd.payload[i - 8] == Unmasked(i)
      ensures Deliverable(s) && sock.incoming == s[FrameEnd(s)..] && Holds(cmd, Data(s))
    {
      hide Value, ToInt64, Xor, Data, Unmasked, Progress;
      var n := if Announced(s) > 0 then Announced(s) else 0;
      FirstBytes(s, HeaderEnd(s) + n);
      LeftOver(s, HeaderEnd(s) + n);
      DataLength(s);
      forall i | 0 <= i < payloadSize
        ensures Unmasked(i) == Data(s)[i]
      {
        UnmaskedIs(s, i);
      }
    }

    lemma UnmaskedIs(s: seq<uint8>, i: nat)
      requires Ready() && Deliverable(s) && SizesOf(s) && i < Announced(s)
      requires forall j :: 0 <= j < FrameEnd(s) ==> readStr[j] == s[j]
      ensures i < |Data(s)| && Unmasked(i) == Data(s)[i]
    {
      hide Value, ToInt64, Xor, Announced;
    }

    lemma SmallIsKept(n: int)
      requires 0 <= n <= MAX_PAYLOAD
      ensures Wire.ToInt(n) == n
    {
    }

    // -------------------------------------------------------------- sending

    /** set_send_header; the result is where the data starts. */
    method SetSendHeader(dataLen: nat, format: uint8) returns (offset: nat)
      requires Shape() && 10 + dataLen <= SEND_BUF_LEN
      modifies sendBuf
      ensures offset <= 10 && sendBuf[..offset] == [format] + LengthField(dataLen)
    {
      hide LengthField;
      forall i | 0 <= i < 10 + dataLen {
        sendBuf[i] := 0;
      }
      sendBuf[0] := format;
      LengthFieldIs(dataLen);
      if dataLen <= 125 {
        sendBuf[1] := dataLen;
        offset := 2;
      } else if dataLen > 125 && dataLen <= 0xFFFF {
        sendBuf[1] := 126;
        sendBuf[2] := dataLen / 0x100 % 0x100;
        sendBuf[3] := dataLen % 0x100;
        offset := 4;
      } else {
        sendBuf[1] := 127;
        sendBuf[2] := dataLen / 0x100_0000_0000_0000 % 0x100;
        sendBuf[3] := dataLen / 0x1_0000_0000_0000 % 0x100;
        sendBuf[4] := dataLen / 0x100_0000_0000 % 0x100;
        sendBuf[5] := dataLen / 0x1_0000_0000 % 0x100;
        sendBuf[6] := dataLen / 0x100_0000 % 0x100;
        sendBuf[7] := dataLen / 0x1_0000 % 0x100;
        sendBuf[8] := dataLen / 0x100 % 0x100;
        sendBuf[9] := dataLen % 0x100;
        offset := 10;
      }
    }

    /** One write of send_request. */
    method SendPiece(offset: nat, len: nat, ghost sent: seq<uint8>) returns (bytesSend: int)
      requires Shape() && offset < len <= SEND_BUF_LEN && sock.outgoing == sent + sendBuf[..offset]
      modifies sock`outgoing, sock`faults
      ensures bytesSend <= len - offset
      ensures sock.outgoing == sent + sendBuf[..if bytesSend > 0 then offset + bytesSend else offset]
      ensures if bytesSend > 0 then sock.faults == old(sock.faults) else sock.faults < old(sock.faults)
    {
      bytesSend := sock.Write(sendBuf[offset..len]);
      if bytesSend > 0 {
        assert sendBuf[..offset] + sendBuf[offset..len][..bytesSend] == sendBuf[..offset + bytesSend];
      }
    }

    /** send_request: the bytes go out in order; a positive result, or none to send, means that
        all of them did. */
    method SendRequest(len: nat) returns (r: int)
      requires Shape() && len <= SEND_BUF_LEN
      modifies this`connectionClosed, sock`outgoing, sock`faults
      ensures old(connectionClosed) ==> r == 0 && sock.outgoing == old(sock.outgoing) && connectionClosed
      ensures !old(connectionClosed) ==> connectionClosed == (r < 0)
      ensures sock.faults <= old(sock.faults)
      ensures old(sock.outgoing) <= sock.outgoing <= old(sock.outgoing) + sendBuf[..len]
      ensures !old(connectionClosed) && (r > 0 || len == 0) ==> sock.outgoing == old(sock.outgoing) + sendBuf[..len]
      ensures sock.faults == old(sock.faults) && !old(connectionClosed) && len > 0 ==> r > 0
    {
      if connectionClosed {
        return 0;
      }
      var bytesSend, remaining, offset := 0, len, 0;
      var writing := true;
      while writing && remaining > 0
        invariant 0 <= offset <= len && remaining == len - offset && !connectionClosed
        invariant sock.outgoing == old(sock.outgoing) + sendBuf[..offset]
        invariant if writing then bytesSend > 0 || remaining == len else bytesSend <= 0 && remaining > 0
        invariant len == 0 ==> bytesSend == 0
        invariant if writing then sock.faults == old(sock.faults) else sock.faults < old(sock.faults)
        decreases remaining, writing
      {
        bytesSend := SendPiece(offset, len, old(sock.outgoing));
        if bytesSend > 0 {
          offset := offset + bytesSend;
          remaining := remaining - bytesSend;
        } else {
          writing := false;
        }
      }
      SentSoFar(old(sock.outgoing), sendBuf[..], offset, len);
      assert sendBuf[..][..offset] == sendBuf[..offset] && sendBuf[..][..len] == sendBuf[..len];
      if bytesSend < 0 {
        connectionClosed := true;
        return -1;
      }
      return bytesSend;
    }

    /** send: one unmasked, final binary frame with the minimal length form. */
    method Send(data: seq<uint8>) returns (r: int)
      requires Shape()
      modifies this`connectionClosed, sendBuf, sock`outgoing, sock`faults
      ensures old(connectionClosed) || |data| + 10 > SEND_BUF_LEN ==> r <= 0 && sock.outgoing == old(sock.outgoing)
      ensures r > 0 ==> sock.outgoing == old(sock.outgoing) + ServerFrame(BINARY_FRAME, data)
      ensures sock.faults == old(sock.faults) && !old(connectionClosed) && |data| + 10 <= SEND_BUF_LEN ==> r > 0
    {
      hide LengthField;
      if connectionClosed {
        return 0;
      }
      if |data| + 10 > SEND_BUF_LEN {
        return -1;
      }
      var offset := SetSendHeader(|data|, 0x80 + BINARY_FRAME);
      ghost var head := sendBuf[..offset];
      forall i | 0 <= i < |data| {
        sendBuf[offset + i] := data[i];
      }
      assert sendBuf[..offset] == head;
      assert sendBuf[..offset + |data|] == head + data;
      r := SendRequest(offset + |data|);
    }

    /** exit: a close frame without data. */
    method Exit() returns (r: int)
      requires Shape()
      modifies this`connectionClosed, sendBuf, sock`outgoing, sock`faults
      ensures r > 0 ==> sock.outgoing == old(sock.outgoing) + ServerFrame(CONNECTION_CLOSE, [])
      ensures sock.faults <= old(sock.faults)
    {
      var offset := SetSendHeader(0, 0x80 + CONNECTION_CLOSE);
      assert sendBuf[..offset] == ServerFrame(CONNECTION_CLOSE, []);
      r := SendRequest(offset);
    }
  }

  /** The command's two buffers hold the bytes. */
  ghost predicate Holds(cmd: Command, data: seq<uint8>)
    requires cmd.Shape() && |data| <= MAX_PAYLOAD
    reads cmd.header, cmd.payload
  {
    && (forall i :: 0 <= i < 8 && i < |data| ==> cmd.header[i] == data[i])
    && (forall i :: 8 <= i < |data| ==> cmd.payload[i - 8] == data[i])
  }

  /** A negative size comes from the eight-byte form only. */
  lemma AnnouncedNegative(s: seq<uint8>)
    requires DataHeader(s)
    ensures Announced(s) < 0 ==> HeaderEnd(s) == 14
  {
    hide Value;
  }

  /** On a new connection whose first header is cut short, what read_stream returns is decided by
      a size that nothing has set. */
  method CutFirstHeader(s: seq<uint8>, headerSize: nat, maskOffset: int, payloadSize: int) returns (r: int)
    requires HeaderCut(s)
    ensures r == if payloadSize > 0 then 1 else 0
  {
    var sock := new Socket(s, 0);
    var websock := new WebSocket(sock, headerSize, maskOffset, payloadSize);
    r := websock.ReadStream();
  }

  lemma SentSoFar(sent: seq<uint8>, s: seq<uint8>, offset: nat, len: nat)
    requires offset <= len <= |s|
    ensures sent <= sent + s[..offset] <= sent + s[..len]
  {
  }

  /** The bytes that set_send_header stores are the minimal length form. */
  lemma LengthFieldIs(n: nat)
    ensures n <= 125 ==> LengthField(n) == [n]
    ensures 125 < n <= 0xFFFF ==> LengthField(n) == [126, n / 0x100 % 0x100, n % 0x100]
    ensures 0xFFFF < n ==>
              LengthField(n) == [127, n / 0x100_0000_0000_0000 % 0x100, n / 0x1_0000_0000_0000 % 0x100,
                                 n / 0x100_0000_0000 % 0x100, n / 0x1_0000_0000 % 0x100, n / 0x100_0000 % 0x100,
                                 n / 0x1_0000 % 0x100, n / 0x100 % 0x100, n % 0x100]
  {
    hide BigEndian;
    if 125 < n <= 0xFFFF {
      Wire.BigEndian2(n);
    } else if 0xFFFF < n {
      Wire.BigEndian4Prefix(n, 4);
      var u := n / 0x1_0000_0000;
      Wire.BigEndian4(u);
      HighBytes(n);
    }
  }

  lemma HighBytes(n: nat)
    ensures var u := n / 0x1_0000_0000;
            && u / 0x100 == n / 0x100_0000_0000 && u / 0x1_0000 == n / 0x1_0000_0000_0000
            && u / 0x100_0000 == n / 0x100_0000_0000_0000
  {
  }

  /** Where the parts of a masked frame lie. */
  lemma HeaderFits(s: seq<uint8>)
    requires ParseFrame(s).Parsed? && ParseFrame(s).frame.masked
    ensures var p := ParseFrame(s); var len7 := s[1] % 0x80;
            && |s| >= p.headerSize + |p.frame.payload| && p.headerSize == 6 + LengthSize(len7)
            && p.frame.opcode == s[0] % 0x10
            && |p.frame.payload| == (if len7 <= 125 then len7 else Value(s[2..p.headerSize - 4]))
            && p.frame.payload == Mask(s[p.headerSize - 4..p.headerSize],
                                       s[p.headerSize..p.headerSize + |p.frame.payload|])
            && p.rest == s[p.headerSize + |p.frame.payload|..]
  {
    hide Mask, Value;
    var n := LengthSize(s[1] % 0x80);
    assert s[2..][..n] == s[2..2 + n];
  }
}
