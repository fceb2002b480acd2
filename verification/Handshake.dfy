/** server/core/websocket.cpp: the answer to the opening handshake, against section 4.2.2 of
    RFC 6455. Reading the request and writing the answer are not part of this file. */
module Handshake {
  import Base64
  import Fips180
  import Sha1
  import opened Bytes
  import opened JsonText

  const GUID := "258EAFA5-E914-47DA-95CA-C5AB0DC85B11"
  const KEY_HEADER := "Sec-WebSocket-Key: "
  const PROTOCOL_HEADER := "Sec-WebSocket-Protocol: "

  function Octet(c: char): bv8 {
    if c as int < 0x100 then (c as int) as bv8 else 0
  }

  function Octets(s: string): (r: seq<bv8>)
    ensures |r| == |s|
  {
    if s == "" then [] else Octets(s[..|s| - 1]) + [Octet(s[|s| - 1])]
  }

  function Numbers(s: seq<bv8>): (r: seq<uint8>)
    ensures |r| == |s|
  {
    if s == [] then [] else Numbers(s[..|s| - 1]) + [s[|s| - 1] as int]
  }

  /** Section 4.2.2 of RFC 6455: the base64 text of the SHA-1 digest of the key and the GUID. */
  function AcceptKey(key: string): string {
    Base64.Encode(Numbers(Fips180.Digest(Octets(key + GUID))))
  }

  /** What a client that knows its key checks: 28 characters, of which the last one is padding, that
      decode to the digest. */
  lemma AcceptKeyShape(key: string)
    ensures |AcceptKey(key)| == 28
    ensures forall i :: 0 <= i < 28 ==> (AcceptKey(key)[i] == '=' <==> i == 27)
    ensures Base64.Decode(AcceptKey(key)) == Numbers(Fips180.Digest(Octets(key + GUID)))
  {
    var digest := Numbers(Fips180.Digest(Octets(key + GUID)));
    hide *;
    AcceptKeyIs(key);
    Base64.EncodedLength(digest);
    Base64.RoundTrip(digest);
  }

  lemma AcceptKeyIs(key: string)
    ensures AcceptKey(key) == Base64.Encode(Numbers(Fips180.Digest(Octets(key + GUID))))
  {
    hide Base64.Encode, Numbers, Fips180.Digest, Octets;
  }

  /** The key that the request names: the 24 characters behind the header, or fewer at the end of
      the packet. */
  function KeyOf(packet: string): string
    requires Find(packet, KEY_HEADER, 0) != Npos(packet)
  {
    var rest := packet[Find(packet, KEY_HEADER, 0) + |KEY_HEADER|..];
    if |rest| < 24 then rest else rest[..24]
  }

  function Answer(packet: string): string
    requires Find(packet, KEY_HEADER, 0) != Npos(packet)
  {
    var lines := "HTTP/1.1 101 Switching Protocols\r\n" + "Upgrade: websocket\r\n" + "Connection: Upgrade\r\n"
                 + ("Sec-WebSocket-Accept: " + AcceptKey(KeyOf(packet)) + "\r\n");
    if Find(packet, PROTOCOL_HEADER, 0) == Npos(packet) then lines + "\r\n"
    else lines + "Sec-WebSocket-Protocol: chat\r\n" + "\r\n"
  }

  /** authenticate, from the request to the answer; without a key there is none. */
  method Authenticate(packet: string) returns (ok: bool, answer: string)
    ensures ok <==> Find(packet, KEY_HEADER, 0) != Npos(packet)
    ensures ok ==> answer == Answer(packet)
  {
    hide Find, Base64.Encode, Fips180.Digest, Octets, Numbers;
    var isProtocol := Find(packet, PROTOCOL_HEADER, 0) != Npos(packet);
    var pos := Find(packet, KEY_HEADER, 0);
    if pos == Npos(packet) {
      return false, "";
    }
    var key := packet[pos + |KEY_HEADER|..];
    if |key| > 24 {
      key := key[..24];
    }
    assert key == KeyOf(packet);
    key := key + GUID;
    var shaStr := new bv8[21];
    Sha1.Sha1(Octets(key), |key|, shaStr);
    assert Octets(key)[..|key|] == Octets(key);
    assert shaStr[..20] == Fips180.Digest(Octets(key));
    var final := Base64.Base64Encode(Numbers(shaStr[..20]));
    assert final == AcceptKey(KeyOf(packet));
    answer := "HTTP/1.1 101 Switching Protocols\r\n";
    answer := answer + "Upgrade: websocket\r\n";
    answer := answer + "Connection: Upgrade\r\n";
    answer := answer + ("Sec-WebSocket-Accept: " + final + "\r\n");
    if isProtocol {
      answer := answer + "Sec-WebSocket-Protocol: chat\r\n";
    }
    answer := answer + "\r\n";
    ok := true;
  }
}
