# Koheron instrument server: a verified model

Koheron's server runs on the processor of an FPGA instrument. Clients call the operations of its
drivers over TCP or WebSocket, in a binary format; the client learns which operations exist from a
JSON context that the server's code generator prints. The server builds its drivers on demand, each
one asking for the drivers it depends on. Around this there are a SHA-1, a base64 codec, a pool of
session identifiers, and the CRC of a crypto chip on the board.

This project models those algorithms in Dafny and proves what they are for:

- **SHA-1** (`MessageSchedule`, `Fips180`, `Fips180Example`, `Sha1`). The streaming context with
  its in-place sixteen-word queue, block buffer, padding branch and byte swaps writes the digest
  that sections 4 to 7 of FIPS 180-1 define, for every input and every way of cutting it into
  calls. The definition gives the digest of the standard's own example.
- **Binary calls** (`Bytes`, `Wire`, `Serializer`, `ArgPacks`, `Sockets`, `TcpSession`,
  `WebSession`, `Replies`). Calls batched by the client, regrouped by the generated parser and
  read from a stream that arrives in arbitrary pieces are executed as sent, over TCP and in
  WebSocket frames; the exact conditions on the sizes are part of the theorems, and malformed
  streams and failing reads are covered. The drivers that the calls need are started on the way.
  Replies come back unchanged.
- **WebSocket frames** (`BinaryDigits`, `Rfc6455`, `WebSockets`, `Handshake`, `HandshakeExample`).
  The frame reader and writer against sections 5.2 and 5.3 of RFC 6455 with the frames of section
  5.7, the accept key against section 4.2.2 with the example of section 1.3.
- **Driver start-up** (`DriverStartup`, `Drivers`). The recursive construction terminates, starts
  exactly what is reachable, each driver once, raises `exit_all` exactly when it meets a cycle, and
  starts every driver after its dependencies exactly when it meets none.
- **Context JSON** (`JsonText`, `JsonPrinter`, `ContextJson`, `ContextText`, `ContextParser`). The
  search-based parser of the client inverts the printer of the generator, whose text is given
  character by character.
- **Type names** (`CanonicalType`, `TypeWords`, `TypeSpellings`). `canonical_type` sends a spelling
  to the canonical form of the type it means in C++ exactly when its words are among those the
  table understands; gcc's and the driver's spellings are. Different types have different forms.
- **CRC-16** (`Crc`), **session identifiers** (`SessionPool`), **base64** (`Base64`).

`Arithmetic` holds facts about division. Each source method that changes state is a method here,
proved against a function of its input or old state; the lemmas are about those functions. What
the basic functions are (bytes on the wire, alphabets, tables, masks, rotations, polynomials) is
stated once more without them, in literal bytes and texts or in the test vectors of the standards.

## Conventions

A socket is a stream of bytes to come, a stream of bytes sent, and a number of calls that will
fail (`faults`); every successful read delivers an arbitrary non-empty part of what is left, and
every successful write takes an arbitrary non-empty part. Bytes are integers below 256 in the
protocols and 8-bit vectors in SHA-1; masks and shifts of byte values are written as remainders and
quotients where the model uses integers. A position above the text stands for `npos`. Template
parameter lists are sequences of types. `static_assert`ed sizes are `requires` clauses. What memory
holds before the program sets it is a parameter (`unset`, `headerSize`, `maskOffset`,
`payloadSize`), and allocation is assumed to succeed. A run of a session is told which reply is the
first to find the connection closed (`closing`).

## What was found

- A vector or string of 2^31 bytes or more does not survive the wire: the 64-bit byte count comes
  back from `rcv_n_bytes` through an `int`, and counts are cut to 32 bits when sent.
  `TcpSession.StreamRoundTrip` is an if-and-only-if with that bound.
- When the read of a vector's count fails, -1 is divided by the size of an element
  (session.hpp:194). The quotient of 64-bit sizes makes `resize` throw; that of 32-bit sizes, as
  arm-linux-gnueabihf has them, is 0 unless an element is one byte, so an empty vector is passed on
  without an error (`TcpSession.Session.RecvVector`).
- The number of the driver in a command is checked by an assertion alone (drivers_manager.cpp:146);
  without assertions `is_started` and `device_list` are read behind their ends. Any client can send
  such a number. A command of an unknown operation leaves the session alive if and only if its
  driver exists (`WebSession.UnknownFrame`, `TcpSession.UnknownOperation`); a frame with the header
  alone, for driver 0xFFFF, is enough (`WebSession.NoDriver65535`).
- `write` takes the length of a reply as an `unsigned int`: of 2^32 bytes or a few more only the
  remainder goes out, and the result is positive. `Replies.Replier.Send` says what is on the wire
  for every length; a positive result means the whole reply if and only if it is below 2^32 bytes.
- A WebSocket frame whose header and payload are exactly 16384 bytes is rejected although it was
  read completely, which ends the session. `WebSession.EndToEnd`: of calls that are known and fit,
  all are executed if and only if no message is too long and no frame has that size, otherwise those
  before the first such call. In numbers, the arguments have at most 262080 bytes, and not 16368
  (`WebSession.PassesAre`).
- When a connection closes inside a frame header, `read_header` returns 0 and `read_stream` goes on
  with the sizes that are there. They come from the header before, or, if this is the first one of
  the connection, from nowhere: the fields of `header` (websocket.hpp:53-61) have no initial value.
  A client that disconnects right after the handshake is enough. The result is decided by the unset
  size (`WebSockets.CutFirstHeader`), and so is the place of the bytes that are then unmasked.
  `WebSockets.WebSocket.ReceiveCmd` asks for exactly the sizes with which they lie in the buffer
  (`CutIsHarmless`); once a header has been read they do. What is cut short is never delivered
  (`WebSession.Session.ReadCommand`).
- Counts in a WebSocket payload are compared with the size of the whole buffer, not with what is
  left of it (session.hpp:304, :319): a count in between makes `to_vector` or `to_string` read
  beyond the payload. The cursor stays in the payload if and only if the extractions touch no more
  bytes than it has (`WebSession.InsideIsTouched`), for a string if and only if its count is
  rejected or the string ends in the payload (`WebSession.StringInside`); a count of five before
  fewer bytes fails (`WebSession.FiveAnnounced`). The string that is read is then completed with
  what the buffer held behind the payload (`WebSession.StringDependsOnMemory`), and the operation is
  executed with it (`WebSession.StrayFrame`). When all arguments lie within their frames the memory
  does not matter (`WebSession.SoundIsSteady`).
- On a dependency cycle `exit_all` is raised, but all its drivers are still constructed and marked
  started; the innermost one first, with a reference to a driver that does not exist yet
  (`Drivers.DriverManager.Get`). `DriverStartup.OrderedWithoutCycles`: dependencies are started
  first if and only if no request can reach a cycle. `DriverStartup.TwoDriverCycle` is the smallest
  example.
- `canonical_type` sends "signed int" and "signed" to `int8_t` although "int" has thirty-two bits,
  and does not know the words of a type in any order but one (`TypeSpellings.NotUnderstood`). The
  comparison with a return type (koheron-client.hpp:2155-2167) accepts the type that is meant and
  no other if and only if the words are understood (`TypeSpellings.CheckIsRight`), which the
  spelling shows: no "signed" except before "char", "unsigned" only first, "int" only last. The
  check of the generator (`FORBIDDEN_INTS`, server/__init__.py:175-179) does not list "signed int".
- From 249 additional bytes on the count byte of a command packet wraps, and the checksum of some
  first bytes overwrites two others (`Crc.ConstructCommandPacket`). It lies inside the packet if and
  only if there are neither 249 nor 250 of them; for those it is written in front of the packet or
  across its start, and behind the data if and only if there are at most 248
  (`Crc.ChecksumInside`).
- The comment of `create_session` says that a new identifier equals the number of sessions; that it
  is also unused rests on an invariant that no assertion states (`SessionPool.RunKeepsPartition`).

## Model

| member | source | states |
|---|---|---|
| MessageSchedule.CircularQueueHoldsSchedule | server/core/sha1.cpp:174-205 | after any number of rounds the sixteen-slot queue holds the newest words of the 80-word schedule and the working variables are those of the expanded form: section 8 of FIPS 180-1 computes section 7 |
| Sha1.Context.NextWord | server/core/sha1.cpp:177-180 | the schedule statement overwrites slot t mod 16 with the next word and leaves the other slots, so one statement is one step of the queue |
| Fips180.MixIsRotated | server/core/sha1.cpp:177-180 | a word of the schedule is the exclusive or of four earlier ones, rotated left by one bit |
| Fips180.Rotations | server/core/sha1.cpp:174-205 | the shifts of one, five and thirty places are circular |
| Sha1.Context.DoRound | server/core/sha1.cpp:182-183 | one round of the loop is one round of the circular form, for each of the four functions and constants |
| Sha1.Context.SwapBytes | server/core/sha1.cpp:136-172 | the copy with swapped bytes leaves the big-endian words of the block in the m union |
| Sha1.Context.Step | server/core/sha1.cpp:129-214 | one block is absorbed by the compression of section 7 over the 80-word schedule, and the buffer ends zeroed |
| Sha1.Context.constructor | server/core/sha1.cpp:218-227 | the initial context stands for the empty message |
| Sha1.Context.PutPad | server/core/sha1.cpp:119-125 | one padding byte extends the absorbed bytes by one, with a compression exactly on a block boundary |
| Sha1.Context.Pad | server/core/sha1.cpp:229-261 | from any fill level the padding completes the message to the padded message of section 4, whichever branch is taken |
| Sha1.ZeroRun | server/core/sha1.cpp:237-248 | the two branches of the padding write the same number of zeros as the specification asks for |
| Fips180.ZeroCountIsLeast | server/core/sha1.cpp:237-248 | that number of zeros is the least one that ends on a block boundary |
| Sha1.Context.PutLength | server/core/sha1.cpp:250-260 | the eight length bytes go out most significant first |
| Fips180.LengthFieldWraps | server/core/sha1.cpp:281-281 | keeping the bit count modulo 2^64 does not change the length field |
| Fips180.LengthInOrder | server/core/sha1.cpp:250-260 | the length field is the number of bits in network byte order |
| Sha1.Context.Loop | server/core/sha1.cpp:263-286 | streaming invariant: chaining words are the fold over the complete blocks, the buffer is the unprocessed tail followed by zeros, the counter is eight times the length modulo 2^64; feeding extends the message |
| Sha1.SameMessageSameContext | server/core/sha1.cpp:263-286 | the whole context is determined by the message, so any two ways of cutting it into calls end in the same context |
| Sha1.MirroredBytes | server/core/sha1.cpp:297-308 | the twenty byte moves write the chaining words in big-endian order |
| Sha1.Context.Result | server/core/sha1.cpp:288-309 | the digest of the message fed so far, in the first twenty bytes of the output and nowhere else |
| Sha1.Sha1 | server/core/sha1.cpp:315-325 | for every input the result is the FIPS 180-1 digest, the fold of the compression over the padded blocks in big-endian order |
| Fips180Example.DigestOfAbc | server/core/sha1.cpp:315-325 | the digest of "abc" is a9993e36 4706816a ba3e2571 7850c26c 9cd0d89d, as in appendix A of FIPS 180-1; every word of the schedule and every value of A is a number |
| HandshakeExample.DigestOfKey | server/core/sha1.cpp:315-325 | the digest of a message of two blocks, as section 1.3 of RFC 6455 gives it |
| Wire.AppendIsBigEndian | server/core/serializer_deserializer.hpp:43-162 | the four integer writers produce network byte order |
| Wire.ScalarRoundTrip | server/core/serializer_deserializer.hpp:37-252 | every scalar of every width, signed, floating (as its bits) or boolean, is read back as written; which bytes are written and how any bytes are read is ScalarBytes and ScalarOfBytes |
| Wire.ScalarBytes | server/core/serializer_deserializer.hpp:37-252 | the bytes of every scalar: network byte order, two's complement for negative integers, the bit pattern of floating-point values, 1 or 0 for bool |
| Wire.ScalarOfBytes | server/core/serializer_deserializer.hpp:37-252 | what is read from any bytes: their value in network byte order, less the range when the highest bit is set and the type is signed; a bool is true exactly for the byte 1 |
| Wire.ContainerBytes | server/core/serializer_deserializer.hpp:465-555 | an array is its elements alone; a vector or string comes behind its byte count in 32 bits, network byte order |
| Wire.ElementAt | server/core/serializer_deserializer.hpp:465-555 | element i of a container lies i sizes behind its start |
| Wire.Survives | server/core/session.hpp:183-228 | an argument is read back if and only if it has fewer than 2147483648 bytes, for an array in the low 32 bits of its size |
| Wire.RoundTrip | server/client/koheron-client.hpp:505-682 | an argument list read back by its types is the same list with exactly its own bytes consumed if every argument fits, and is never the same list if one does not |
| Wire.DecodeMisfit | server/core/session.hpp:183-228 | an argument of 2^31 bytes or more is rejected or comes back shortened |
| Serializer.DynamicSerializer.AppendScalar | server/core/serializer_deserializer.hpp:451-455 | the side buffer grows by exactly the encoding of the scalar, whose bytes are those of Wire.ScalarBytes |
| Serializer.DynamicSerializer.CommandSerializer | server/core/serializer_deserializer.hpp:465-555 | at every step buffer followed by side buffer is what was there plus the plain encodings of the arguments, in order |
| Serializer.DynamicSerializer.BuildCommand | server/core/serializer_deserializer.hpp:568-589 | the message is header plus plain concatenation whatever the two buffers held before, and the side buffer is empty at the end |
| Serializer.HeaderBytes | server/core/serializer_deserializer.hpp:568-589 | the header is four zero bytes, the driver and the operation, both in network byte order |
| Serializer.ExampleMessage | server/core/serializer_deserializer.hpp:568-589 | one message with integers of both signs, a string and a bool, byte by byte |
| Serializer.HeaderRoundTrip | server/core/session.cpp:17-35 | the driver and operation numbers are read back at the offset behind the reserved word |
| ArgPacks.BuildArgsPacks | server/__init__.py:301-328 | the groups list the argument types in order, scalars are grouped maximally, and has_vector is set exactly when a vector or string occurs |
| Sockets.Socket.Read | server/core/session.cpp:51-51 | what the operating system's read may do: any non-empty part of the bytes, end of stream, or a failure |
| TcpSession.Session.RcvNBytes | server/core/session.cpp:44-69 | exactly the next n bytes, however they are cut, if the stream has them; otherwise 0, or -1 exactly when a read fails |
| TcpSession.Session.RecvArray | server/core/session.hpp:183-188 | reads an array as the format says, rejecting it when the count is negative as an int; a negative result when a read fails |
| TcpSession.Session.RecvVector | server/core/session.hpp:190-208 | the same for a vector behind its byte count; when the read of the count fails, an exception with 64-bit sizes, and with 32-bit sizes an empty vector without an error unless an element is one byte |
| TcpSession.Session.RecvString | server/core/session.hpp:210-228 | the same for a string |
| TcpSession.PackDecodes | server/core/serializer_deserializer.hpp:258-306 | extracting a group of scalars at computed offsets is reading them one after the other |
| TcpSession.Session.DeserializePack | server/core/session.hpp:237-245 | a group of scalars takes exactly its size from the stream |
| TcpSession.Session.ParseArgs | server/__init__.py:236-266 | the generated parser reads the argument list of the declared types, and gives up at the first negative result; what it returns without an error has the declared types, even when reads fail |
| TcpSession.Session.ReadCommand | server/core/session.cpp:14-41 | driver and operation of the next command, and 0 at the end of the stream |
| TcpSession.Session.Run | server/core/session.hpp:143-174 | over any stream the executed operations, the drivers asked for and the end at a driver that does not exist are those of the commands before the first one that cannot be read; exactly those when there is none, and all bytes are consumed when the whole stream parses; whatever reads fail, only operations of the table are executed, with arguments of the declared types; a reply that finds the connection closed ends the session |
| TcpSession.ServedIsAll | server/core/session.hpp:143-245 | when a stream parses to its end, exactly its commands are served, in order, and their drivers asked for |
| TcpSession.UnknownOperation | server/core/drivers_manager.cpp:144-162 | behind any calls that fit, a command of an unknown operation leaves the session alive if and only if its driver exists; the bytes behind its header are then read as commands |
| TcpSession.HandOver | server/core/drivers_manager.cpp:144-162 | handing a command to the manager is the request of its driver, so a run of commands is a sequence of requests as in DriverStartup.EveryRun |
| TcpSession.StreamRoundTrip | server/core/session.hpp:143-245 | a stream of well-typed commands is read as exactly those commands, to the last byte, if and only if all arguments fit |
| TcpSession.SendAll | server/client/koheron-client.hpp:626-640 | successive calls through one serializer do not contaminate each other |
| TcpSession.EndToEnd | server/client/koheron-client.hpp:626-640 | from the client's calls to the operations executed, through arbitrary fragmentation, nothing is changed, lost or added when the arguments fit, and the drivers asked for are those of the calls |
| WebSession.Buffer.Take | server/core/commands.hpp:32-72 | each extraction returns the bytes at the cursor and moves it behind them |
| WebSession.Buffer.DeserializePack | server/core/commands.hpp:36-43 | a group of scalars at the cursor is read as the format says |
| WebSession.Buffer.Recv | server/core/session.hpp:290-326 | on any buffer that the cursor stays in, an array, vector or string is read as the format says; a count above the size of the buffer is rejected |
| WebSession.Buffer.ParseArgs | server/__init__.py:236-266 | on any buffer that the cursor stays in, the generated parser reads the arguments of the declared types, or gives up at the first count above the size of the buffer |
| WebSession.OversizedExtends | server/core/commands.hpp:32-72 | what the buffer holds behind the payload does not change what is read |
| WebSession.InsideIsTouched | server/core/session.hpp:290-326 | the cursor stays in the payload if and only if the bytes that the extractions touch, up to a rejected count, are no more than it has |
| WebSession.StringInside | server/core/session.hpp:312-326 | for a string: if and only if its count is above the size of the buffer or it ends in the payload |
| WebSession.FiveAnnounced | server/core/session.hpp:312-326 | a count of five before fewer than five bytes takes the cursor out of the payload |
| WebSession.StringDependsOnMemory | server/core/session.hpp:312-326 | the string that is then read is the same in two buffers if and only if they hold the same where it goes on behind the payload |
| WebSession.Session.ReadCommand | server/core/session.cpp:93-121 | a frame is a command exactly when it is deliverable and has at least the eight header bytes; the rest is in the payload buffer, which keeps what it held behind it, the stream is at the next frame and the session can go on; a frame that is cut short is never a command |
| WebSession.Session.Run | server/core/session.hpp:143-174 | over any stream of frames and any memory the operations executed and the drivers asked for are those before the first frame that is no command, names a driver that does not exist, or has arguments that leave the buffer, with that end; a command of an unknown operation of a driver, or with a rejected count, is passed over; with failing reads a beginning of this |
| WebSession.SoundIsSteady | server/core/session.hpp:143-174 | when every command names a driver that exists and its arguments lie in its frame, what is executed does not depend on the memory, and the session is served to its end |
| WebSession.ServedFrames | server/core/session.hpp:143-174 | a stream of calls, each in a masked frame, asks for the calls of known operations before the first one that is too long, has a frame of 16384 bytes or names no driver, when the arguments of known operations fit |
| WebSession.ServedAreCalls | server/core/session.hpp:143-174 | the executed operations are the calls if and only if every call passes, is known and fits, for calls of any size below 2^63 bytes |
| WebSession.HeardIsAll | server/core/websocket.cpp:367-370 | the calls before that one are all of them if and only if there is none such |
| WebSession.PassesAre | server/core/websocket.cpp:322-370 | a call passes if and only if its arguments have at most 262080 bytes and not exactly 16368 |
| WebSession.UnknownFrame | server/core/drivers_manager.cpp:144-162 | a frame of an unknown operation leaves the session alive if and only if its driver exists |
| WebSession.NoDriver65535 | server/core/drivers_manager.cpp:146-160 | a header alone, for driver 0xFFFF, ends the session of any server with fewer drivers |
| WebSession.StrayFrame | server/core/session.hpp:312-326 | a frame that announces a string of five bytes and ends: the operation is executed with five bytes of the memory |
| WebSession.SendFrames | server/client/koheron-client.hpp:626-640 | the same successive calls through one serializer, each in its own frame; that a browser client frames the same message is an assumption, as this client has no WebSocket transport |
| WebSession.EndToEnd | server/core/session.hpp:143-174 | from the client's calls to the operations executed, through arbitrary fragmentation and any initial memory: all calls if and only if every one passes, is known and fits; when those of known operations fit, the known ones before the first that does not pass or names no driver, with the drivers asked for and the end |
| Replies.Replier.Send | server/core/session.hpp:64-74 | what the result says for every length of the reply: positive exactly when the bytes counted by the low 32 bits of the length are on the wire and number less than 2^31; the session is closed exactly on a zero write |
| Replies.Replier.Write | server/core/session.hpp:247-269 | the single write with its unsigned length and int results |
| Replies.Client.RecvAll | server/client/koheron-client.hpp:1867-1886 | exactly the next n bytes, or an exception exactly when they are not there or a read fails |
| Replies.Client.RecvFixed | server/client/koheron-client.hpp:1903-1924 | header and value of fixed size are read, the ids match, and the value comes back unless a read fails |
| Replies.Client.GetPayloadDynamic | server/client/koheron-client.hpp:1955-1959 | a counted payload is read if and only if its count is not negative as an int and no read fails |
| Replies.Client.Recv | server/client/koheron-client.hpp:1903-1959 | unless a read fails every reply that fits is read back as sent under any chunking, leaving what follows it; one that does not fit never is |
| Replies.SendAndReceive | server/client/koheron-client.hpp:1903-1959 | from the values that an operation sends to the ones the client receives, over any fragmentation and with failing writes and reads: they come back unchanged if they fit, arrive for certain when the send succeeds below 2^32 bytes and no read fails, and never come back unchanged if they do not fit |
| Rfc6455.MaskTwice | server/core/websocket.cpp:190-196 | unmasking inverts masking |
| Rfc6455.PayloadBits | server/core/websocket.cpp:190-196 | section 5.3 bit by bit, for every masked frame: octet i of the payload is octet i behind the header, inverted where octet i mod 4 of the key has ones |
| Rfc6455.MaskedExample | server/core/websocket.cpp:190-196 | the masked "Hello" of section 5.7 parses to "Hello" |
| Rfc6455.UnmaskedExample | server/core/websocket.cpp:270-334 | the unmasked "Hello" of section 5.7 |
| Rfc6455.FragmentExamples | server/core/websocket.cpp:270-334 | the two fragments of section 5.7, with their fin bits and opcodes |
| Rfc6455.LongExamples | server/core/websocket.cpp:122-154 | the headers of section 5.7 for 256 and 65536 bytes of binary data |
| Rfc6455.ServerFrameParses | server/core/websocket.cpp:122-154 | what the server sends parses, by section 5.2, to one final unmasked frame with the same payload and nothing left over |
| Rfc6455.ClientFrameParses | server/core/websocket.cpp:270-334 | a masked client frame parses to its payload, with the header size the reader computes |
| WebSockets.LengthFieldIs | server/core/websocket.cpp:130-151 | the three length forms are the minimal ones, byte by byte |
| WebSockets.SentBytes | server/core/websocket.cpp:122-159 | a short data frame starts with 82 and its length; a close frame is 88 00 |
| WebSockets.WebSocket.SetSendHeader | server/core/websocket.cpp:122-154 | the header bytes are format and minimal length, and the result is where the data starts |
| WebSockets.ViewOfFrame | server/core/websocket.cpp:270-334 | the sizes that the reader takes from a masked data frame are those of section 5.2, the accepted frames are the ones delivered, with their payload, and an incomplete frame never is |
| WebSockets.AcceptedAre | server/core/websocket.cpp:270-370 | which frames are accepted, in numbers: masked, opcode 1 or 2, 1 to 262088 bytes of payload, not 16384 bytes in all |
| WebSockets.DataBits | server/core/websocket.cpp:182-199 | what is delivered of any stream, bit by bit: the octets behind the header, inverted where the octets of the key, taken in turn, have ones |
| WebSockets.WebSocket.UnmaskedBits | server/core/websocket.cpp:190-196 | one unmasked octet, bit by bit, by the octet i mod 4 at the mask offset |
| WebSockets.WebSocket.SendRequest | server/core/websocket.cpp:381-412 | partial writes put a prefix of the message on the wire in order; a positive result means all of it |
| WebSockets.WebSocket.Send | server/core/websocket.hpp:107-121 | one final binary frame with the data, or nothing when it is too long or the connection is closed |
| WebSockets.WebSocket.Exit | server/core/websocket.cpp:156-159 | a close frame without data |
| WebSockets.WebSocket.ReadNBytes | server/core/websocket.cpp:336-374 | exactly the next bytes in the buffer; the result is 1 only at the end of the stream, -1 only when the buffer holds 16384 bytes after the last byte or a failing read, 0 otherwise; failing reads are retried |
| WebSockets.WebSocket.ReadLength | server/core/websocket.cpp:293-333 | for any stream: the sizes announced by the three length forms and the verdict of the size check, or the sizes as they were when the stream ends before |
| WebSockets.WebSocket.ReadHeader | server/core/websocket.cpp:270-334 | for any stream, and whatever reads fail: a data header sets the sizes, a close frame closes, any other opcode is an error, and a header that is cut short gives 0 with the sizes as they were |
| WebSockets.WebSocket.ReadStream | server/core/websocket.cpp:216-241 | for any stream: a whole frame is in the buffer, except that exactly 16384 bytes are an error; after a header that is cut short the result depends on the size that was there |
| WebSockets.CutFirstHeader | server/core/websocket.cpp:216-241 | on a new connection that size is one that nothing has set |
| WebSockets.WebSocket.DecodeRawStreamCmd | server/core/websocket.cpp:182-199 | whenever the sizes place the mask in the buffer, the unmasked bytes, which are those of UnmaskedBits, are in header and payload, the payload buffer keeps what it held behind them, and all accesses stay inside the buffers |
| WebSockets.WebSocket.ReceiveCmd | server/core/websocket.cpp:161-180 | for any stream: exactly the deliverable frames are delivered, completely and unmasked as DataBits says, and the stream is at the next frame; after a header that is cut short, which result the sizes that are there give, provided they place the mask in the buffer |
| Handshake.Authenticate | server/core/websocket.cpp:42-86 | a request with a key is answered with the accept key of section 4.2.2 of RFC 6455 and the protocol line exactly when asked for; one without a key is refused |
| Handshake.AcceptKeyShape | server/core/websocket.cpp:60-72 | the accept key has 28 characters of which the last is padding, and decodes to the digest of key and GUID |
| HandshakeExample.AcceptKeyOfExample | server/core/websocket.cpp:60-72 | the accept key of the example in section 1.3 of RFC 6455 is the one given there |
| HandshakeExample.AnswerOfExample | server/core/websocket.cpp:42-86 | the whole answer to any request with that key, line by line |
| Drivers.DriverContainer.Alloc | server/core/drivers_manager.cpp:17-37 | constructing a driver is the specified request; it fails exactly for a driver that is being constructed |
| Drivers.DriverManager.Construct | server/core/drivers_manager.cpp:32-32 | a constructor's requests for its dependencies, in order |
| Drivers.DriverManager.Get | server/core/drivers_manager.hpp:61-67 | get is the specified request, and returns a driver unless it is being constructed |
| Drivers.DriverManager.AllocDriver | server/core/drivers_manager.cpp:52-77 | alloc_driver is the specified request and terminates through all re-entrant calls |
| Drivers.DriverManager.Start | server/core/drivers_manager.cpp:79-97 | the walk over the driver numbers requests exactly the driver asked for |
| Drivers.DriverManager.Dispatch | server/core/drivers_manager.cpp:116-134 | a command is given to the driver whose number its device carries |
| Drivers.DriverManager.Execute | server/core/drivers_manager.cpp:144-162 | a command starts its driver if needed and is dispatched to it; number 0 does nothing and number 1 is for the server, both without a change |
| DriverStartup.StartsTheReachable | server/core/drivers_manager.cpp:17-77 | a run of requests starts exactly the drivers reachable through ones not yet started or starting |
| DriverStartup.RequestAllIsOrderly | server/core/drivers_manager.cpp:31-34 | the newly started drivers are exactly the newly constructed ones, each constructed and started once, cycle or not; while nothing was raised each is started after all its dependencies, and everything requested is started |
| DriverStartup.RaisesOnCycles | server/core/drivers_manager.cpp:23-29 | exit_all is raised if and only if a request can reach a cycle of drivers not yet started |
| DriverStartup.NoWayBack | server/core/drivers_manager.cpp:31-34 | drivers started in dependency order have no dependency that leads back |
| DriverStartup.OrderedWithoutCycles | server/core/drivers_manager.cpp:17-37 | from any state with nothing starting, the new drivers are marked started after all their dependencies if and only if no request can reach a cycle of drivers not yet started |
| DriverStartup.TwoDriverCycle | server/core/drivers_manager.cpp:23-34 | two drivers that ask for each other: both constructed, exit_all raised, the inner one marked started before the one it depends on |
| DriverStartup.AskedInOrder | server/core/drivers_manager.cpp:31-34 | a driver that needs two others is constructed first and started last, the two in the order in which it asks for them |
| DriverStartup.EveryRun | server/core/drivers_manager.cpp:52-77 | after any sequence of requests to a new manager nothing is left starting, the started drivers are the reachable ones and were each constructed once, exit_all is up if and only if a cycle is reachable, and the order of starting respects all dependencies if and only if none is |
| JsonPrinter.SkipObjectSkipsValue | server/client/koheron-client.hpp:1212-1233 | skip_object jumps over exactly one printed array or object, at any nesting and with any brackets in its strings |
| JsonText.FindMatch | server/client/koheron-client.hpp:1356-1362 | a search for a quoted name with its colon goes past every string, number, delimiter and other key, and stops at the next such key |
| JsonText.FindNothing | server/client/koheron-client.hpp:1368-1369 | it fails when no such key is left |
| JsonText.ParseStr | server/client/koheron-client.hpp:1193-1203 | parse_string inverts the printing of a string |
| JsonText.ReadEscaped | server/client/koheron-client.hpp:1193-1203 | a string with any quotes and backslashes escaped is read back |
| JsonText.ScanEscaped | server/client/koheron-client.hpp:1212-1233 | skip_object goes past such a string |
| JsonText.ParseNum | server/client/koheron-client.hpp:1141-1148 | parse_uint inverts the printing of a number as far as 64 and then 32 bits hold it |
| JsonText.ParseSigned | server/client/koheron-client.hpp:1141-1148 | spaces and a sign in front: a minus negates modulo 2^64 before 32 bits are kept |
| ContextJson.ArgTypesAt | server/client/koheron-client.hpp:1337-1350 | the argument objects give back the type names, in order |
| ContextJson.FunctionsAt | server/client/koheron-client.hpp:1379-1407 | the function objects of a class, with their fields in either order, give back the operations |
| ContextJson.ClassesAt | server/client/koheron-client.hpp:1356-1410 | from any class on the parser returns the operations of it and of all that follow |
| ContextJson.ParseOpsInvertsGetJson | server/__init__.py:62-82 | for every list of drivers whose names and types need no escape, parse_ops of the printed context is exactly the flattened list of operations with their identifiers, return types and argument types |
| ContextText.GetJsonText | server/__init__.py:62-82 | the printed text of any drivers, with every key, quote and bracket |
| ContextText.FirstEntries | server/__init__.py:62-72 | the entries start with get_version, 65536, and get_cmds, 65537, of KServer, and go on with the drivers |
| ContextText.EntryIs | server/client/koheron-client.hpp:1395-1407 | the entry of an operation of a driver below 65536, field by field |
| ContextParser.ReadText | server/client/koheron-client.hpp:1193-1203 | the loop of parse_string, escapes included, on any text |
| ContextParser.SkipNested | server/client/koheron-client.hpp:1212-1233 | the loop of skip_object on any text |
| ContextParser.FillOpExtras | server/client/koheron-client.hpp:1329-1351 | return type and argument types of one function object, on any text |
| ContextParser.AddFunctions | server/client/koheron-client.hpp:1378-1407 | the loop over one class, on any text, including every early exit |
| ContextParser.ParseOps | server/client/koheron-client.hpp:1356-1410 | the loop over the classes, on any text, including every early exit |
| ContextParser.OpIdIs | server/client/koheron-client.hpp:1397-1399 | the identifier is 65536 times the class plus the function when both are 16 bits wide |
| ContextParser.OpTable.constructor | server/client/koheron-client.hpp:1418-1427 | the index holds the first position of every identifier and of nothing else |
| ContextParser.OpTable.Find | server/client/koheron-client.hpp:1429-1432 | the first operation with the identifier, or nothing when there is none |
| ContextParser.OpTable.ByName | server/client/koheron-client.hpp:1449-1460 | the first operation of that name, qualified or not, or nothing when there is none |
| ContextParser.NamedIs | server/client/koheron-client.hpp:1449-1460 | "Class::operation" is the operation of that class, and a name without colons any operation of that name |
| ContextParser.IdsAreDistinct | server/client/koheron-client.hpp:1397-1397 | no two operations of a context with distinct 16-bit driver and operation numbers share an identifier |
| ContextParser.TableFindsEach | server/client/koheron-client.hpp:1414-1432 | in the table of a printed context every operation is found under its identifier |
| CanonicalType.ReplaceAll | server/client/koheron-client.hpp:1235-1244 | every occurrence is replaced from left to right |
| CanonicalType.SplitAtCommas | server/client/koheron-client.hpp:1252-1270 | the loop of split_top on any text |
| CanonicalType.CanonicalName | server/client/koheron-client.hpp:1276-1309 | the recursion terminates on every string and computes the canonical form, whose names are those of TypeSpellings.CanonicalTable |
| TypeSpellings.FirstPart | server/client/koheron-client.hpp:1252-1270 | split_top cuts only at commas outside brackets: text that closes what it opens and has no comma outside stays whole |
| TypeSpellings.TwoParts | server/client/koheron-client.hpp:1252-1270 | two such texts with a comma between them are the two parts |
| TypeSpellings.ReplacedConcat | server/client/koheron-client.hpp:1235-1244 | replacing works part by part where the pattern cannot lie across the border |
| TypeWords.FixedNameIs | server/client/koheron-client.hpp:1283-1292 | the rows of the table are read word by word: which words in which order have which name |
| TypeWords.WordFormIsRight | server/client/koheron-client.hpp:1283-1292 | words that mean a scalar in C++, in any order, get its name if and only if they are understood: no "signed" except before "char", "unsigned" only first, "int" only last |
| TypeSpellings.CanonicalOfWritten | server/client/koheron-client.hpp:1276-1309 | every spelling of a type built from the scalars, strings, vectors and arrays, with its spaces, references, allocators, namespaces and suffixes, is sent to the one form of that type with its scalars as the table has them |
| TypeSpellings.CanonicalIsRight | server/client/koheron-client.hpp:1276-1309 | that is the canonical spelling of the type meant in C++ if and only if all its words are understood |
| TypeSpellings.SpellingsAgree | server/client/koheron-client.hpp:1271-1275 | gcc's spelling and the driver's spelling are sent to the same string |
| TypeSpellings.CanonDiffers | server/client/koheron-client.hpp:1271-1275 | different types have different canonical spellings |
| TypeSpellings.CanonicalDecides | server/client/koheron-client.hpp:1271-1275 | two understood spellings have the same canonical form if and only if they mean the same type |
| TypeSpellings.CheckIsRight | server/client/koheron-client.hpp:2155-2167 | the comparison of a client's type with an instrument's spelling accepts the type that is meant and no other if and only if the spelling is understood |
| TypeSpellings.NotUnderstood | server/client/koheron-client.hpp:1284-1284 | "signed int" and "signed" become int8_t while "int" becomes int32_t; "short unsigned" stays |
| TypeSpellings.CanonicalTable | server/client/koheron-client.hpp:1283-1292 | the result for each of the 23 names in the table, as text |
| TypeSpellings.VectorExample | server/client/koheron-client.hpp:1293-1307 | the gcc spelling of a vector of arrays of unsigned short, with its allocator, and its canonical text |
| TypeSpellings.StringExample | server/client/koheron-client.hpp:1279-1293 | the gcc spelling of std::string |
| Crc.CalculateCrc | os/alpha/fsbl/AtmelAtsha204a.c:128-156 | the register is the fold of all data bits, lowest bit of each byte first, through the feedback register of polynomial 0x8005 |
| Crc.StepIs | os/alpha/fsbl/AtmelAtsha204a.c:141-153 | one step of the register in numbers: doubled in sixteen bits, and the bits 0, 2 and 15 inverted when the bit that falls out differs from the data bit |
| Crc.AfterWake | os/alpha/fsbl/AtmelAtsha204a.c:186-190 | the block 04 11 33 43 that the driver expects after waking the device is intact: the CRC of 04 11 is 33 43 |
| Crc.FeedLinear | os/alpha/fsbl/AtmelAtsha204a.c:141-153 | the register is linear in itself and the message together |
| Crc.CrcParity | os/alpha/fsbl/AtmelAtsha204a.c:141-153 | the parity of the CRC is the parity of all message bits |
| Crc.BurstIsSeen | os/alpha/fsbl/AtmelAtsha204a.c:141-153 | a non-zero difference of at most sixteen consecutive bits changes the CRC, wherever it lies |
| Crc.FeedBack | os/alpha/fsbl/AtmelAtsha204a.c:141-153 | the only register that up to sixteen bits turn into zero is the one that holds them |
| Crc.CheckResponseCrc | os/alpha/fsbl/AtmelAtsha204a.c:373-394 | accepts exactly the responses whose last two bytes are the CRC of the bytes before them |
| Crc.ConstructCommandPacket | os/alpha/fsbl/AtmelAtsha204a.c:325-364 | up to 248 additional bytes the count is at index 0, the opcode at 1, parameter 1 at 2, parameter 2 at 3 with its high byte first, and the data from 5 on; nothing around the packet changes, and it passes the response check; from 249 on, which two bytes the checksum of which first bytes overwrites |
| Crc.ChecksumInside | os/alpha/fsbl/AtmelAtsha204a.c:325-364 | the checksum lies inside the packet if and only if there are neither 249 nor 250 additional bytes, and behind the data if and only if there are at most 248 |
| Crc.OddCorruptionIsRejected | os/alpha/fsbl/AtmelAtsha204a.c:373-394 | every corruption of an odd number of bits outside the count byte is rejected |
| Crc.BurstIsRejected | os/alpha/fsbl/AtmelAtsha204a.c:373-394 | every corruption confined to at most sixteen consecutive data bits is rejected |
| SessionPool.SessionManager.CreateSession | server/core/session_manager.hpp:62-84 | the new identifier was not in use and is now mapped to the connection; pool, reusable identifiers and counter change as the atomic step says |
| SessionPool.SessionManager.GetSessionIds | server/core/session_manager.cpp:47-57 | exactly the open identifiers, in ascending order, and the assertion that none of them is reusable holds |
| SessionPool.SessionManager.IsIdInSessionIds | server/core/session_manager.cpp:36-45 | true exactly for open identifiers |
| SessionPool.SessionManager.DeleteSession | server/core/session_manager.cpp:59-93 | an open identifier leaves the pool and becomes reusable; any other one is ignored |
| SessionPool.SessionManager.DeleteAll | server/core/session_manager.cpp:95-110 | with nothing in between, both assertions hold, the pool ends empty, and the identifiers ever used are the reusable ones |
| SessionPool.RunKeepsPartition | server/core/session_manager.cpp:59-93 | over every interleaving of creations and deletions, open and reusable identifiers are apart, without repetition, and together the numbers below the most sessions ever open at once; the counter is the pool size |
| SessionPool.NextIdIsFresh | server/core/session_manager.hpp:69-76 | after every interleaving the next identifier is not in use and at most the peak |
| SessionPool.ReopenRestores | server/core/session_manager.hpp:69-76 | the identifier closed last is reused first, which restores the pool |
| Base64.Base64Encode | server/core/base64.cpp:41-82 | the accumulator loop and its tail compute the encoding of section 4 of RFC 4648 |
| Base64.EncodedLength | server/core/base64.cpp:62-78 | four characters for every three bytes begun, with padding at the end and nowhere else |
| Base64.CodeIsAlphabet | server/core/base64.cpp:31-34 | the 64 characters, in order |
| Base64.ThreeBytes | server/core/base64.cpp:41-60 | three bytes become the four characters whose places are the base-64 digits of the number that the bytes are in base 256 |
| Base64.TestVectors | server/core/base64.cpp:41-82 | the test vectors of section 10 of RFC 4648, and the bytes fb ff bf |
| Base64.Base64Decode | server/core/base64.cpp:84-123 | the loop decodes the characters up to the first one outside the alphabet; the fillers, 255 after the failed search, reach no returned byte |
| Base64.CombinedLast | server/core/base64.cpp:108-120 | in a last group the fillers do not influence the bytes that are returned |
| Base64.RoundTrip | server/core/base64.cpp:41-123 | decoding inverts encoding for every byte string |

## Left out

- Real sockets, files, memory maps, FPGA loading, notification, signals and logging: replaced by the socket model or dropped.
- Floating-point meaning: floats and doubles travel as their bit patterns.
- Complex scalars and C strings in the serializer: they are pairs of scalars and strings, easy additions.
- Vector and array elements are sequences of bytes: the memory layout of element types is not modelled, as both ends copy it verbatim.
- TcpSession.Session.Run: the results of operations and the contents of replies are not part of it. Behind a command that cannot be read the stream has lost its command boundaries, and behind a failing read likewise; of what is executed from there it is stated only that the operations are known and their arguments have the declared types. A run ends at an exception and at a driver that does not exist.
- WebSession.Session.Run: is followed up to a command whose arguments leave the payload buffer, not merely the payload, and to one for a driver that does not exist; what the code reads from there on is not part of this model.
- WebSession.Buffer.Recv: asks, like WebSession.Buffer.ParseArgs, that the cursor stays in the buffer, as the code has no other check; WebSession.InsideIsTouched says when it does.
- WebSockets.WebSocket.ReceiveCmd: asks that sizes which are unset, and used after a first header that is cut short, place the mask in the buffer. The code does not look at the fin and mask bits, and the model takes every frame for a final, masked one as it does.
- Serializer.DynamicSerializer.BuildCommand: asks that every run of scalars fits the 1024 bytes of the side buffer, as the code does without a check.
- WebSockets.WebSocket.ReadNBytes: a read that keeps failing would be retried forever; the model lets a finite number of calls fail.
- Handshake.Authenticate: starts from the request text and ends with the answer text; read_http_packet is not part of it.
- Sha1.Context.SwapBytes: the 64 single-byte assignments are one parallel assignment.
- ContextJson.ParseOpsInvertsGetJson: strings are printed verbatim; json.dumps escapes control and non-ASCII characters, which names and type names do not contain. Type strings that the server computes at run time (arrays and deduced types) are taken as computed.
- find_op_in_json, has_class and class_name_of: the first one can match an argument's name and is superseded by the table, the other two are linear scans.
- CanonicalType.CanonicalName: pointers and other unknown names are returned trimmed; nothing is claimed about them beyond that.
- TypeSpellings.CanonicalIsRight: the words of a scalar are separated by single spaces; with more spaces the table knows none of them.
- Crc.ConstructCommandPacket: asks that the memory in front of the packet exists when the checksum is written there.
- Drivers.DriverManager.Execute: Server::execute, which gets the commands with number 1, is not part of this model.
- Null pointers in the CRC functions: references cannot be null here.
- SessionPool.SessionManager.CreateSession: the session object is its file descriptor; shutting down and closing the socket is left out.
- Concurrency beyond atomic steps: the driver manager's recursive mutex and the session pool's mutex are taken to make their methods atomic.
- Driver constructors beyond the drivers they request.
- The Python and TypeScript clients, HTTP helpers, the instrument upload, web widgets, FIR scripts, clock generators and the example drivers.
