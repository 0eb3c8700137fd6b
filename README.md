# Websocket server core, modelled in Dafny

This project models the core of the seastar websocket server,
`src/websocket/server.cc`. Four parts are modelled, and properties of each
are proved:

- **The frame parser `websocket_parser`** (module `Parser`). It is fed
  chunks of the byte stream, split anywhere, and rebuilds one client frame
  at a time. It has three states: the two fixed header bytes, then the
  extended length and masking key, then the payload.
  - It unmasks the payload as in section 5.3 of RFC 6455.
  - It stops with the bytes that follow the frame.
  - It enters `closed` on end of stream and `error` on a header a server
    must reject.
  - `Step` states one call of `operator()` as a function of the parser's
    fields and the chunk.
  - The class `WebSocketParser` keeps those fields and updates them in
    place: the payload buffer is an `array`, copied into and unmasked in
    place. Its `Feed` method is proved against `Step`.
  - `Consume` states what `input_stream::consume` does with the parser:
    feed chunks until it stops, and put back what it did not read.
- **Frame proofs** (module `ParserProofs`). However a well-formed client
  frame is split into chunks, the parser decodes its payload and header
  and hands back exactly the bytes after it. A frame built from the
  server's own header (`send_data`), masked the way a client masks it,
  decodes to the original opcode and payload.
- **Wire formats** (module `Wire`):
  - the two fixed header bytes, with opcodes from section 5.2 of RFC 6455;
  - big-endian length and key fields, and the masking transform;
  - the header that `send_data` fills into its 10-byte array.
- **The server and a connection** (module `WebSocketServer`):
  - the registry of subprotocol handlers;
  - the upgrade handshake's checks and the reply it writes;
  - the dispatch of a read frame in `read_one`;
  - `close`, which always marks the connection done.

`read_one` is modelled twice:
- `ParserAfterReadAsWritten` is the function that takes the payload buffer
  only for data frames, as the source does;
- `Connection.ReadOne` is the method that takes it after every completed
  frame.

The difference is the finding below.

## Model

| member | source | states |
|---|---|---|
| Wire.ParseHeader | src/websocket/server.cc:213 | The fields read from the two fixed header bytes: the opcode is a 4-bit value and the length code a 7-bit value. |
| Wire.ParseHeaderLossless | src/websocket/server.cc:213 | Reading FIN, RSV1-3, the opcode, MASK and the length code out of the two header bytes loses nothing: packing the fields as section 5.2 of RFC 6455 lays them out rebuilds both bytes. |
| Wire.RestOfHeaderLength | src/websocket/server.cc:233 | After the two fixed bytes, a frame carries 4, 6 or 12 more header bytes: the 4-byte key after 0, 2 or 8 extended length bytes. |
| Wire.BeUintBound | src/websocket/server.cc:243-248 | A big-endian field of w bytes holds a value below 256^w. |
| Wire.BeRoundTrip | src/websocket/server.cc:380-387 | Writing a value that fits in w big-endian bytes and reading them back gives the value (`write_be` then `consume_be`). |
| Wire.BeBytesOfBeUint | src/websocket/server.cc:242-248 | Reading a big-endian field and writing the value back in as many bytes gives the field. |
| Wire.XorInvolution | src/websocket/server.cc:285 | XOR of an octet with the same key byte twice gives back the octet. |
| Wire.MaskInvolution | src/websocket/server.cc:285 | Masking a payload as in section 5.3 of RFC 6455 and masking it again with the same key gives back the payload. |
| Wire.KeyByteOfBeUint | src/websocket/server.cc:248 | Reading the four key bytes as a big-endian 32-bit value and shifting byte j back out, as `remove_mask` does, gives key byte j as it was on the wire. |
| Wire.FillHeader | src/websocket/server.cc:375-390 | The 10-byte header array that `send_data` fills in place: its first headerSize bytes are the encoded header. |
| Wire.LengthForms | src/websocket/server.cc:380-390 | The length part of a server header: inline up to 125, `0x7E` and a 16-bit big-endian length up to 65535, and `0x7F` and a 64-bit big-endian length beyond that. Header sizes are 2, 4 and 10. |
| Wire.FirstHeaderByte | src/websocket/server.cc:375-378 | Byte 0 of a server header, `0x80 + opcode`, has FIN set, the reserved bits clear and the opcode in the low nibble. |
| Wire.EncodeHeaderForms | src/websocket/server.cc:375-390 | A server header announces FIN, the opcode, no mask, and the payload size in the length form for that size. |
| Wire.MaskedServerHeader | src/websocket/server.cc:375-390 | A server header with the MASK bit set decodes to the original opcode and a payload length equal to the size. |
| Wire.EncodeHeaderRoundTrip | src/websocket/server.cc:374-394 | A server header and payload, masked by a client with any key, form a well-formed client frame. It carries FIN, the original opcode and the original payload. |
| Parser.Step | src/websocket/server.cc:195-293 | One call keeps the parser's invariant: fewer than 2 buffered header bytes in the header state, fewer than the rest of the header in the length state, and a header the server accepts plus a count below the payload length in the payload state. |
| Parser.ParseFlags | src/websocket/server.cc:202-231 | The header-state block keeps the invariant. |
| Parser.ParseLengthAndMask | src/websocket/server.cc:232-255 | The length-state block keeps the invariant, the connection state and the header. |
| Parser.ParsePayload | src/websocket/server.cc:256-290 | The payload block keeps the invariant, the connection state, the header, the payload length and the key. |
| Parser.Consume | src/websocket/server.cc:307 | Feeding a stream chunk by chunk until the parser stops keeps the invariant. |
| Parser.WebSocketParser.Opcode | src/websocket/server.cc:45-51 | `opcode()` reads the parser's state as `OpcodeOf`, so what `FrameAnyChunking` proves about `OpcodeOf` (the decoded frame's own opcode) holds for it. |
| Parser.WebSocketParser.Result | src/websocket/server.cc:53-55 | `result()` hands over the payload buffer with its contents and leaves an empty one; no other field changes. |
| Parser.WebSocketParser.RemoveMask | src/websocket/server.cc:285 | The in-place loop XORs the first n bytes of the buffer with key bytes taken in turn from the most significant, and leaves the rest. |
| Parser.WebSocketParser.CopyIn | src/websocket/server.cc:263 | `std::copy` into the payload buffer writes the chunk at the offset and leaves the other bytes. |
| Parser.WebSocketParser.Feed | src/websocket/server.cc:195-201 | One call of `operator()` changes the fields exactly as `Step` says. An empty chunk closes the connection state and stops. |
| Parser.WebSocketParser.FeedFlags | src/websocket/server.cc:202-231 | The header block, proved against `ParseFlags`. |
| Parser.WebSocketParser.FeedLengthAndMask | src/websocket/server.cc:232-255 | The length and key block, proved against `ParseLengthAndMask`. |
| Parser.WebSocketParser.FeedPayload | src/websocket/server.cc:256-290 | The payload block, proved against `ParsePayload`, on both the copy path and the path that takes the chunk's bytes. |
| ParserProofs.MaskPrefixIsRfcMask | src/websocket/server.cc:285 | Unmasking with the key held as a 32-bit number is the masking of section 5.3 of RFC 6455 with the key's four wire bytes. |
| ParserProofs.HeaderCheck | src/websocket/server.cc:213-225 | Once two header bytes are in, the parser enters `error` exactly when the header is unmasked, has a reserved bit set or has an unknown opcode. It then stops with the bytes after the two, and no payload is produced. |
| ParserProofs.ShortHeaderChunk | src/websocket/server.cc:227-254 | A chunk that does not complete the fixed header, or the length and key, is only appended to the scratch buffer. The state stays the same and the parser asks for more. |
| ParserProofs.LengthAndKey | src/websocket/server.cc:240-248 | The payload length is the 7-bit code, or the next 2 or 8 bytes big-endian. Each of the key's four bytes is the matching byte that follows. |
| ParserProofs.PayloadChunk | src/websocket/server.cc:256-288 | For any payload buffer at least as long as the payload, including a stale one left by an earlier PING or PONG: a short payload chunk is copied in at the received count, which grows by its size and stays below the length. A long enough chunk takes exactly the remaining bytes, unmasks, hands the rest back unchanged, and resets the count and the state. |
| ParserProofs.StepOutcomes | src/websocket/server.cc:195-293 | A call either asks for more with the buffer still sized to the frame, or stops for one of three reasons: end of stream, a rejected header, or a frame whose whole payload is in the buffer. |
| ParserProofs.ConsumeOutcomes | src/websocket/server.cc:307 | Feeding a stream ends closed, in error, or valid between frames with the whole payload and a known opcode. |
| ParserProofs.StepInFrame | src/websocket/server.cc:195-293 | A chunk of a well-formed frame moves the parser from "n bytes read" to "n + size read", or completes the frame and stops with the bytes after it. |
| ParserProofs.ConsumeRest | src/websocket/server.cc:307 | Feeding the rest of a frame in any chunks completes it. The bytes after it are put back in front of the unread chunks. |
| ParserProofs.FrameAnyChunking | src/websocket/server.cc:195-293 | However a well-formed client frame and the bytes after it are split into chunks, the parser ends between frames with the unmasked payload and the frame's opcode, and the bytes after the frame are put back. |
| ParserProofs.ServerFrameRoundTrip | src/websocket/server.cc:374-394 | A frame made from the server's header and masked by a client decodes, under any chunking, to the original opcode and payload with nothing left over. |
| WebSocketServer.NegotiateAccepts | src/websocket/server.cc:148-172 | The upgrade is accepted exactly when the request parsed, `Upgrade` is `websocket` and the asked-for subprotocol is registered; the empty name stands for no subprotocol. The connection then serves that subprotocol with its handler. The handshake finishes early exactly at end of stream. |
| WebSocketServer.ReplyLayout | src/websocket/server.cc:185-191 | The reply is the template, then the accept value, then the 26-byte protocol line and the subprotocol only when one was chosen, then CRLFCRLF. |
| WebSocketServer.KeyHeaderSpelling | src/websocket/server.cc:175 | Reading `Sec-Websocket-Key` finds the `Sec-WebSocket-Key` header of RFC 6455, since header names ignore case. |
| WebSocketServer.ReplyBytes | src/websocket/server.cc:185-191 | The bytes of the reply are the bytes of the pieces, written in turn. |
| WebSocketServer.DispatchCases | src/websocket/server.cc:306-337 | The decision of `read_one`, both ways: data frames of the three kinds are delivered; PING and PONG go to their handlers; end of stream closes without a CLOSE frame; CLOSE, a parse error or an opcode outside the switch closes with one. |
| WebSocketServer.AcceptedFrameIsKnown | src/websocket/server.cc:328-336 | From any valid parser, whatever its payload buffer holds, a frame the parser accepted never reaches the switch's default branch. |
| WebSocketServer.ReadOneFrame | src/websocket/server.cc:306-315 | Reading one well-formed frame between frames acts on its opcode. A data frame's unmasked payload is delivered, the bytes after the frame stay in the stream, and the parser is again between frames. |
| WebSocketServer.SingleChunkFrame | src/websocket/server.cc:272-274 | A frame that arrives as its own chunk is read whole with nothing left over. |
| WebSocketServer.EmptyFrameKeepsBuffer | src/websocket/server.cc:269-285 | An empty TEXT frame read while the payload buffer still holds bytes copies nothing and leaves those bytes in the buffer. |
| WebSocketServer.PingRead | src/websocket/server.cc:322-324 | A PING with a one-byte payload goes to the ping handler and leaves its byte in the parser's payload buffer. |
| WebSocketServer.StaleResultAsWritten | src/websocket/server.cc:310-327 | As written, that PING followed by an empty TEXT frame delivers the PING's byte as the TEXT payload. |
| WebSocketServer.EmptyTextDeliversBuffer | src/websocket/server.cc:315 | Reading the empty TEXT frame delivers whatever the payload buffer holds. |
| WebSocketServer.StaleResultCorrected | src/websocket/server.cc:306-337 | When every completed frame's payload is taken, the same two frames deliver the TEXT frame's empty payload. |
| WebSocketServer.Server.IsHandlerRegistered | src/websocket/server.cc:412-414 | True exactly when the name is a key of the handler table; `RegisterHandler` makes it true for the new name, and `NegotiateAccepts` refuses exactly the unregistered subprotocols. |
| WebSocketServer.Server.RegisterHandler | src/websocket/server.cc:416-418 | The name now maps to the handler, replacing any earlier one; every other entry is unchanged. |
| WebSocketServer.Connection.WriteUpgradeReply | src/websocket/server.cc:185-191 | The piecewise writes append exactly the bytes of the reply. |
| WebSocketServer.Connection.ReadHttpUpgradeRequest | src/websocket/server.cc:148-193 | The outcome is the handshake decision. End of stream marks the connection done and changes nothing else. A refused request writes nothing and binds no handler or subprotocol. An accepted one binds the registered handler and subprotocol and writes the reply. |
| WebSocketServer.Connection.SendData | src/websocket/server.cc:374-397 | Appends the encoded header and then the payload. |
| WebSocketServer.Connection.Close | src/websocket/server.cc:359-371 | Sends an empty CLOSE frame only when asked to, then always marks the connection done and closes both streams and the socket's output. |
| WebSocketServer.Connection.ConsumeStream | src/websocket/server.cc:307 | Feeds chunks to the parser until it stops, exactly as `Consume` says. |
| WebSocketServer.Connection.ReadOne | src/websocket/server.cc:306-338 | One `read_one`. Let o be `ReadOneSpec`. The rest of the stream is o's rest. Only o's delivered payload is appended to the input. A CLOSE frame is written exactly when o closes with one. `done`, both stream-closed flags and the output shutdown are set exactly when o closes. The parser is left between frames whenever it stays valid. |

## Left out

- `sha1_base64` calls gnutls. It is a function parameter, and the accept value is that function applied to the key and the magic suffix.
- The HTTP request parser is not part of this model. A request is given as end of stream, as malformed, or as a header map with lower-cased names. A parse failure is `Malformed`, as the `failed()` check reports it.
- `listen`, `accept`, `accept_one`, `stop`, `process`, `read_loop`, `response_loop`, `shutdown_input`, and the connection list kept by the constructor and destructor are not modelled. They are task orchestration, gates, futures and socket lifetime.
- Buffered output, `scattered_message`, `flush` and logging are not modelled. Writes are appended to the connection's `written` bytes.
- The exceptions thrown by the handshake become `Rejected(reason)`, with the source's messages.
- `_input_buffer.push_eventually` has backpressure. It is modelled as appending the payload to `input`.
- `handle_ping` and `handle_pong` do nothing in the source. Their actions change no state here.
- Closing `_input` and `_output` and `shutdown_output` are modelled as flags.
- The header that declares `frame_header`, `is_opcode_known`, `get_rest_of_header_length`, `remove_mask`, `consume_be` and `write_be` is not part of this model. These follow sections 5.2 and 5.3 of RFC 6455:
  - the known opcodes are 0, 1, 2, 8, 9 and 10;
  - INVALID is 0xFF;
  - the rest of the header is 4 key bytes after 0, 2 or 8 length bytes;
  - the key is applied from its most significant byte down.
- `temporary_buffer` sharing (`share`, `trim`, moving the chunk into `_result`) is modelled as a fresh array holding the same bytes. Aliasing between the payload and the stream's buffers is not captured.
- A freshly allocated `temporary_buffer` has unspecified contents; it is modelled filled with zeros. Every byte is overwritten before a frame completes.
- Parser.WebSocketParser.Feed: requires `Collected`, that the last completed payload has been taken with `result()`. The source does not demand this, and `read_one` as written breaks it after PING and PONG. The as-written behaviour is stated by `Step`, which has no such requirement. When the stale buffer is shorter than the next payload, the source copies past the buffer's end; `WriteAt` in `Step` drops those bytes instead, so that undefined behaviour is not modelled.
- WebSocketServer.Connection.ReadOne: models `read_one` with the correction below: the payload is taken after every valid frame. The as-written effect on the parser is `ParserAfterReadAsWritten`.
- Integer widths: lengths and counts are unbounded naturals. Payload sizes in `send_data` are assumed to fit in 64 bits (`FitsSize`), as `size_t` does. `header[0] += opcode` is modelled with the wrap of a `char` (`Lo`).

## Findings

| source | as written | input that shows it | evidently intended | confidence | as-written member | corrected member |
|---|---|---|---|---|---|---|
| src/websocket/server.cc:310-327 | `read_one` calls `result()` only for CONTINUATION, TEXT and BINARY frames. After a PING or PONG with a payload, `_result` keeps that payload. The next frame's payload block sees a non-empty buffer: it does not allocate, and it copies into the stale one. | a PING frame `89 81 00 00 00 00 2A`, then an empty TEXT frame `81 80 00 00 00 00` | each frame starts from an empty payload buffer, so the TEXT frame delivers an empty payload | not executed | WebSocketServer.StaleResultAsWritten | WebSocketServer.StaleResultCorrected |

Two things follow from this finding:
- The stale byte `2A` is delivered as the TEXT frame's payload. If the next payload is longer than the stale buffer, the copy writes past the buffer's end.
- The rest of the model uses the corrected `read_one`: `Connection.ReadOne` and `ParserAfterRead` take the payload after every completed frame, and `ReadOneFrame` proves that the parser is then between frames again.

For a frame with an unknown opcode, `read_one`'s switch falls through its `default:` branch to the failure log and `close(true)`. `Dispatch` closes with a CLOSE frame there. `AcceptedFrameIsKnown` shows that a frame the parser accepted never reaches that branch, whatever the payload buffer still holds, so this holds for `read_one` as written too.
