/** The two directions of a connected stream socket, as read(2) and write(2) see them. */
module Sockets {
  import opened Bytes

  class Socket {
    /** What the peer sends before it closes, and has not been read yet. */
    var incoming: seq<uint8>
    /** What has been written. */
    var outgoing: seq<uint8>
    /** How many more calls may fail. */
    var faults: nat

    constructor (incoming: seq<uint8>, faults: nat)
      ensures this.incoming == incoming && this.faults == faults && outgoing == []
    {
      this.incoming := incoming;
      this.faults := faults;
      outgoing := [];
    }

    /** read(fd, buf + off, n) delivers any non-empty part of what is left, up to n bytes; 0 is
        the end of the stream. The buffer must have room for what can be delivered. */
    method Read(buf: array<uint8>, off: nat, n: nat) returns (r: int)
      requires off <= buf.Length && (off + n <= buf.Length || off + |incoming| <= buf.Length)
      modifies this`incoming, this`faults, buf
      ensures r <= n && r <= |old(incoming)|
      ensures r < 0 ==> faults < old(faults) && incoming == old(incoming) && buf[..] == old(buf[..])
      ensures r >= 0 ==> faults == old(faults)
      ensures r >= 0 ==> incoming == old(incoming)[r..]
      ensures r >= 0 ==> buf[..] == old(buf[..off]) + old(incoming)[..r] + old(buf[off + r..])
      ensures r >= 0 ==> buf[..off + r] == old(buf[..off]) + old(incoming)[..r]
      ensures r == 0 ==> n == 0 || old(incoming) == []
    {
      if faults > 0 {
        if * {
          faults := faults - 1;
          return -1;
        }
      }
      var most := if n < |incoming| then n else |incoming|;
      var k: nat :| k <= most && (k == 0 ==> most == 0);
      Deliver(buf, off, k);
      incoming := incoming[k..];
      r := k;
    }

    method Deliver(buf: array<uint8>, off: nat, k: nat)
      requires off + k <= buf.Length && k <= |incoming|
      modifies buf
      ensures buf[..off + k] == old(buf[..off]) + incoming[..k]
      ensures buf[..] == old(buf[..off]) + incoming[..k] + old(buf[off + k..])
    {
      forall i | 0 <= i < k {
        buf[off + i] := incoming[i];
      }
      assert buf[..off] == old(buf[..off]) && buf[off + k..] == old(buf[off + k..]);
      assert buf[off..off + k] == incoming[..k];
      assert buf[..off + k] == buf[..off] + buf[off..off + k];
      assert buf[..] == buf[..off + k] + buf[off + k..];
    }

    /** write(fd, bytes) takes any non-empty part of the bytes; a failing call returns 0 or
        -1. */
    method Write(bytes: seq<uint8>) returns (r: int)
      modifies this`outgoing, this`faults
      ensures -1 <= r <= |bytes| && outgoing == old(outgoing) + bytes[..if r < 0 then 0 else r]
      ensures if r > 0 || bytes == [] then r >= 0 && faults == old(faults) else faults < old(faults)
    {
      if faults > 0 && bytes != [] {
        if * {
          faults := faults - 1;
          if * {
            return -1;
          }
          return 0;
        }
      }
      var k: nat :| k <= |bytes| && (k == 0 ==> bytes == []);
      outgoing := outgoing + bytes[..k];
      r := k;
    }
  }
}
