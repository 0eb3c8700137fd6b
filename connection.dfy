/**
 * The websocket server's registry of subprotocol handlers and one
 * connection: the opening handshake, the dispatch of each received frame,
 * framing of outgoing data and the close sequence.
 */
module WebSocketServer {
  import opened Wire
  import opened Parser
  import opened ParserProofs

  // ---------------------------------------------------------------------
  // The opening handshake (section 4.2 of RFC 6455)
  // ---------------------------------------------------------------------

  /** Appended to the client's key before hashing (section 1.3 of RFC 6455). */
  const MagicKeySuffix := "258EAFA5-E914-47DA-95CA-C5AB0DC85B11"

  const UpgradeReplyTemplate :=
    "HTTP/1.1 101 Switching Protocols\r\nUpgrade: websocket\r\nConnection: Upgrade\r\n"
    + "Sec-WebSocket-Version: 13\r\nSec-WebSocket-Accept: "

  /** The 26 bytes written before a chosen subprotocol. */
  const ProtocolLine := "\r\nSec-WebSocket-Protocol: "

  const EndOfReply := "\r\n\r\n"

  /** What reading the upgrade request gives: the stream ended first, the
      request could not be parsed, or its headers, keyed by lower-cased name. */
  datatype HttpRequest = EndOfStream | Malformed | Request(headers: map<string, string>)

  function LowerChar(c: char): char
  {
    if 'A' <= c <= 'Z' then (c as int + 32) as char else c
  }

  function Lower(s: string): (r: string)
    ensures |r| == |s|
  {
    seq(|s|, i requires 0 <= i < |s| => LowerChar(s[i]))
  }

  /** `request::get_header`: names compare without regard to case, and a
      missing header reads as the empty string. */
  function GetHeader(headers: map<string, string>, name: string): string
  {
    if Lower(name) in headers then headers[Lower(name)] else ""
  }

  /** The `Sec-WebSocket-Accept` value: base64 of the SHA-1 of the key and the suffix. */
  function AcceptKey(key: string, sha1Base64: string -> string): string
  {
    sha1Base64(key + MagicKeySuffix)
  }

  /** The reply that switches the connection to websocket. */
  function UpgradeReply(accept: string, subprotocol: string): string
  {
    UpgradeReplyTemplate + accept + (if subprotocol == "" then "" else ProtocolLine + subprotocol) + EndOfReply
  }

  /** How the handshake ends: the stream ended (the connection is done), the
      request is refused with a reason, or it is accepted with a subprotocol,
      its handler and the reply. */
  datatype Handshake<H> = Finished | Rejected(reason: string) | Accepted(subprotocol: string, handler: H, reply: string)

  /** The decisions of `read_http_upgrade_request`, in the order it makes them. */
  function Negotiate<H>(req: HttpRequest, handlers: map<string, H>, sha1Base64: string -> string): Handshake<H>
  {
    match req
    case EndOfStream => Finished
    case Malformed => Rejected("Incorrect upgrade request")
    case Request(headers) =>
      if GetHeader(headers, "Upgrade") != "websocket" then Rejected("Upgrade header missing")
      else
        var sub := GetHeader(headers, "Sec-WebSocket-Protocol");
        if sub !in handlers then Rejected("Subprotocol not supported.")
        else Accepted(sub, handlers[sub], UpgradeReply(AcceptKey(GetHeader(headers, "Sec-Websocket-Key"), sha1Base64), sub))
  }

  /** A request is accepted exactly when it parsed, asks for the websocket
      upgrade, and names a registered subprotocol (a request without one names
      the empty subprotocol); the connection then serves that subprotocol with
      its registered handler. */
  lemma NegotiateAccepts<H>(req: HttpRequest, handlers: map<string, H>, sha1Base64: string -> string)
    ensures var o := Negotiate(req, handlers, sha1Base64);
      && (o.Accepted? <==>
            && req.Request?
            && GetHeader(req.headers, "Upgrade") == "websocket"
            && GetHeader(req.headers, "Sec-WebSocket-Protocol") in handlers)
      && (o.Accepted? ==>
            && o.subprotocol == GetHeader(req.headers, "Sec-WebSocket-Protocol")
            && o.handler == handlers[o.subprotocol])
      && (o.Finished? <==> req.EndOfStream?)
  {
  }

  /** The reply is the status line and fixed headers, the accept value, the
      subprotocol line only when a subprotocol was asked for, and the blank
      line that ends the headers. */
  lemma ReplyLayout(accept: string, subprotocol: string)
    ensures var r := UpgradeReply(accept, subprotocol);
      var t := |UpgradeReplyTemplate| + |accept|;
      && r[..|UpgradeReplyTemplate|] == UpgradeReplyTemplate
      && r[|UpgradeReplyTemplate|..t] == accept
      && (subprotocol == "" ==> |r| == t + 4)
      && (subprotocol != "" ==> |r| == t + 26 + |subprotocol| + 4 && r[t..t + 26] == ProtocolLine
                                && r[t + 26..t + 26 + |subprotocol|] == subprotocol)
      && r[|r| - 4..] == EndOfReply
  {
    if subprotocol == "" {
      Layout(UpgradeReplyTemplate, accept, "", EndOfReply);
    } else {
      ProtocolReplyLayout(UpgradeReplyTemplate + accept, subprotocol);
      Layout(UpgradeReplyTemplate, accept, ProtocolLine + subprotocol, EndOfReply);
    }
  }

  lemma ProtocolReplyLayout(head: string, subprotocol: string)
    ensures var r := head + (ProtocolLine + subprotocol) + EndOfReply;
      var t := |head|;
      && |r| == t + 26 + |subprotocol| + 4
      && r[t..t + 26] == ProtocolLine && r[t + 26..t + 26 + |subprotocol|] == subprotocol
  {
    assert head + (ProtocolLine + subprotocol) + EndOfReply == head + ProtocolLine + subprotocol + EndOfReply;
    Layout(head, ProtocolLine, subprotocol, EndOfReply);
  }

  /** Where each of four concatenated pieces lies. */
  lemma Layout<T>(a: seq<T>, b: seq<T>, c: seq<T>, d: seq<T>)
    ensures var r := a + b + c + d;
      && |r| == |a| + |b| + |c| + |d|
      && r[..|a|] == a && r[|a|..|a| + |b|] == b
      && r[|a| + |b|..|a| + |b| + |c|] == c && r[|r| - |d|..] == d
  {
  }

  /** The key header is read under the spelling `Sec-Websocket-Key`; since
      header names ignore case, that is the header RFC 6455 calls
      `Sec-WebSocket-Key`. */
  lemma KeyHeaderSpelling(headers: map<string, string>)
    ensures GetHeader(headers, "Sec-Websocket-Key") == GetHeader(headers, "Sec-WebSocket-Key")
  {
    assert Lower("Sec-Websocket-Key") == Lower("Sec-WebSocket-Key");
  }

  /** Bytes of an ASCII string as they go on the wire. */
  function Ascii(s: string): (b: seq<Byte>)
    ensures |b| == |s|
  {
    seq(|s|, i requires 0 <= i < |s| => Lo(s[i] as nat))
  }

  /** The reply's bytes are the bytes of its pieces, written in turn. */
  lemma ReplyBytes(start: seq<Byte>, accept: string, subprotocol: string)
    ensures start + Ascii(UpgradeReply(accept, subprotocol)) ==
      if subprotocol == "" then start + Ascii(UpgradeReplyTemplate) + Ascii(accept) + Ascii(EndOfReply)
      else start + Ascii(UpgradeReplyTemplate) + Ascii(accept) + Ascii(ProtocolLine) + Ascii(subprotocol) + Ascii(EndOfReply)
  {
    var line := if subprotocol == "" then "" else ProtocolLine + subprotocol;
    assert UpgradeReply(accept, subprotocol) == UpgradeReplyTemplate + accept + line + EndOfReply;
    AsciiPieces(UpgradeReplyTemplate, accept, line, EndOfReply);
    if subprotocol != "" {
      AsciiConcat(ProtocolLine, subprotocol);
    }
  }

  lemma AsciiPieces(a: string, b: string, c: string, d: string)
    ensures Ascii(a + b + c + d) == Ascii(a) + Ascii(b) + Ascii(c) + Ascii(d)
  {
    AsciiConcat(a, b);
    AsciiConcat(a + b, c);
    AsciiConcat(a + b + c, d);
  }

  lemma AsciiConcat(a: string, b: string)
    ensures Ascii(a + b) == Ascii(a) + Ascii(b)
  {
  }

  // ---------------------------------------------------------------------
  // Dispatch of a received frame (`connection::read_one`)
  // ---------------------------------------------------------------------

  /** What the connection does once the parser stops: hand the payload to the
      handler, answer a ping or a pong, or close, sending a CLOSE frame or not. */
  datatype Action = Deliver | HandlePing | HandlePong | CloseConnection(sendClose: bool)

  function Dispatch(cstate: ConnectionState, opcode: nat): Action
  {
    if cstate == ConnectionState.Valid then
      if opcode == CONTINUATION || opcode == TEXT || opcode == BINARY then Deliver
      else if opcode == CLOSE then CloseConnection(true)
      else if opcode == PING then HandlePing
      else if opcode == PONG then HandlePong
      else CloseConnection(true)
    else if cstate == Closed then CloseConnection(false)
    else CloseConnection(true)
  }

  /** Data frames of the three kinds are delivered alike; a CLOSE frame, a
      parse error or an unknown opcode closes with a CLOSE frame; the end of
      the stream closes without one. */
  lemma DispatchCases(cstate: ConnectionState, opcode: nat)
    ensures var a := Dispatch(cstate, opcode);
      && (a == Deliver <==> cstate == ConnectionState.Valid && opcode in {CONTINUATION, TEXT, BINARY})
      && (a == HandlePing <==> cstate == ConnectionState.Valid && opcode == PING)
      && (a == HandlePong <==> cstate == ConnectionState.Valid && opcode == PONG)
      && (a == CloseConnection(false) <==> cstate == Closed)
      && (a == CloseConnection(true) <==>
            cstate == Error || (cstate == ConnectionState.Valid && (opcode == CLOSE || !IsOpcodeKnown(opcode))))
  {
  }

  /** One `read_one` on values: the parser's fields after feeding the stream,
      what is left of the stream, and what the connection does. */
  datatype ReadOutcome = ReadOutcome(parser: ParserView, rest: seq<seq<Byte>>, action: Action)

  function ReadOneSpec(v: ParserView, stream: seq<seq<Byte>>): ReadOutcome
    requires Inv(v)
  {
    var (v', rest) := Consume(v, stream);
    ReadOutcome(v', rest, Dispatch(v'.cstate, OpcodeOf(v')))
  }

  /** The payloads handed to the handler by one `read_one`. */
  function Delivered(o: ReadOutcome): seq<seq<Byte>>
  {
    if o.action.Deliver? then [o.parser.result] else []
  }

  /** The parser after `read_one` as the source writes it: the payload is
      taken with `result()` only for the frames it delivers. */
  function ParserAfterReadAsWritten(o: ReadOutcome): ParserView
  {
    if o.action.Deliver? then o.parser.(result := []) else o.parser
  }

  /** The parser after `read_one` when the payload of every completed frame is
      taken, delivered or not. */
  function ParserAfterRead(o: ReadOutcome): ParserView
  {
    if o.parser.cstate == ConnectionState.Valid then o.parser.(result := []) else o.parser
  }

  /** A frame the parser accepted never reaches the default branch of the
      dispatch: it is delivered, answered, or closes the connection because
      it is a CLOSE frame. */
  lemma AcceptedFrameIsKnown(v: ParserView, stream: seq<seq<Byte>>)
    requires Inv(v) && v.cstate == ConnectionState.Valid
    ensures var o := ReadOneSpec(v, stream);
      o.parser.cstate == ConnectionState.Valid ==>
        o.action in {Deliver, HandlePing, HandlePong} || (o.action == CloseConnection(true) && OpcodeOf(o.parser) == CLOSE)
  {
    ConsumeChecksHeader(v, stream);
  }

  /** Reading one well-formed frame from a connection between frames: its
      payload is delivered exactly when it is a data frame, the bytes after it
      are left in the stream, and the parser is again between frames, so the
      next frame is read the same way. */
  lemma ReadOneFrame(v: ParserView, f: ClientFrame, t: seq<Byte>, chunks: seq<seq<Byte>>, rest: seq<seq<Byte>>)
    requires AtBoundary(v) && v.cstate == ConnectionState.Valid && f.WellFormed()
    requires chunks != [] && forall i | 0 <= i < |chunks| :: chunks[i] != []
    requires Flatten(chunks) == f.Bytes() + t && |t| < |chunks[|chunks| - 1]|
    ensures var o := ReadOneSpec(v, chunks + rest);
      && o.rest == Pushback(t) + rest
      && o.action == Dispatch(ConnectionState.Valid, f.Header().opcode)
      && (o.action.Deliver? ==> Delivered(o) == [f.Payload()])
      && AtBoundary(ParserAfterRead(o)) && ParserAfterRead(o).cstate == ConnectionState.Valid
  {
    FrameAnyChunking(v, f, t, chunks, rest);
  }

  lemma PingHeader()
    ensures ParseHeader(0x89, 0x81) == FrameHeader(true, false, false, false, PING, true, 1)
  {
    assert Val(0x89) == 0x89 && Val(0x81) == 0x81;
  }

  lemma TextHeader()
    ensures ParseHeader(0x81, 0x80) == FrameHeader(true, false, false, false, TEXT, true, 0)
  {
    assert Val(0x81) == 0x81 && Val(0x80) == 0x80;
  }

  /** An empty TEXT frame read while the payload buffer still holds stale
      bytes p leaves p in the buffer: nothing is copied and nothing is
      allocated, since the buffer is not empty. */
  lemma EmptyFrameKeepsBuffer(w: ParserView, key: seq<Byte>)
    requires Inv(w) && w.state == FlagsAndPayloadData && w.buffer == [] && w.cstate == ConnectionState.Valid
    requires |key| == 4
    ensures var r := Step(w, [0x81, 0x80] + key);
      && r.1 == Stop([]) && r.0.cstate == ConnectionState.Valid
      && OpcodeOf(r.0) == TEXT && r.0.payloadLength == 0 && r.0.result == w.result
  {
    TextHeader();
    var text := [0x81, 0x80] + key;
    assert text[..2] == [0x81, 0x80] && text[2..] == key;
    var h := ParseHeader(0x81, 0x80);
    var w1 := w.(buffer := [], header := Some(h), state := PayloadLengthAndMask);
    assert Step(w, text) == ParseLengthAndMask(w1, key);
    assert RestOfHeaderLength(h) == 4 && ExtLengthSize(h.length) == 0;
    assert key[..4] == key && key[4..] == [] && key[0..4] == key;
    assert w1.buffer + key[..4] == key;
    var w2 := w1.(state := Payload, buffer := [], payloadLength := 0, maskingKey := BeUint(key));
    assert ParseLengthAndMask(w1, key) == ParsePayload(w2, []);
    assert WriteAt(w.result, 0, []) == w.result;
    assert MaskPrefix(w.result, 0, BeUint(key)) == w.result;
  }

  /** A frame that arrives as one chunk of its own is read whole: the parser
      stops between frames with the frame's payload and opcode, and nothing
      is left of the stream. */
  lemma SingleChunkFrame(v: ParserView, f: ClientFrame)
    requires AtBoundary(v) && f.WellFormed()
    ensures var o := ReadOneSpec(v, [f.Bytes()]);
      && o.rest == [] && o.action == Dispatch(v.cstate, f.Header().opcode)
      && o.parser.result == f.Payload() && o.parser.cstate == v.cstate
      && AtBoundary(o.parser.(result := []))
  {
    var bytes := f.Bytes();
    assert Flatten([bytes]) == bytes + [];
    FrameAnyChunking(v, f, [], [bytes], []);
    assert [bytes] + [] == [bytes];
  }

  /** The client's PING frame with the one-byte payload 0x2A, masked with the
      zero key. */
  lemma PingFrame()
    ensures var f := ClientFrame(0x89, 0x81, [], [0, 0, 0, 0], [0x2A]);
      && f.WellFormed() && f.Bytes() == [0x89, 0x81, 0, 0, 0, 0, 0x2A]
      && f.Header().opcode == PING && f.Payload() == [0x2A]
  {
    PingHeader();
    assert Xor(0x2A, 0) == 0x2A;
  }

  /** The client's empty TEXT frame, masked with the zero key. */
  lemma TextFrame()
    ensures var f := ClientFrame(0x81, 0x80, [], [0, 0, 0, 0], []);
      && f.WellFormed() && f.Bytes() == [0x81, 0x80, 0, 0, 0, 0]
      && f.Header().opcode == TEXT && f.Payload() == []
  {
    TextHeader();
  }

  /** The PING frame read by a fresh connection stops the parser valid with
      the PING's byte in its payload buffer. */
  lemma PingRead()
    ensures var o1 := ReadOneSpec(Initial, [[0x89, 0x81, 0, 0, 0, 0, 0x2A]]);
      && o1.action == HandlePing && o1.parser.result == [0x2A]
      && o1.parser.state == FlagsAndPayloadData && o1.parser.buffer == []
      && o1.parser.cstate == ConnectionState.Valid
  {
    PingFrame();
    SingleChunkFrame(Initial, ClientFrame(0x89, 0x81, [], [0, 0, 0, 0], [0x2A]));
  }

  /** As written, a PING with a one-byte payload followed by an empty TEXT
      frame delivers the PING's byte as the TEXT frame's payload: the PING's
      payload buffer was never taken. */
  lemma StaleResultAsWritten()
    ensures var ping := [0x89, 0x81, 0, 0, 0, 0, 0x2A];
      var text := [0x81, 0x80, 0, 0, 0, 0];
      var o1 := ReadOneSpec(Initial, [ping]);
      var o2 := ReadOneSpec(ParserAfterReadAsWritten(o1), [text]);
      && o1.action == HandlePing
      && ClientFrame(0x81, 0x80, [], [0, 0, 0, 0], []).Payload() == []
      && o2.action == Deliver && Delivered(o2) == [[0x2A]]
  {
    PingRead();
    TextFrame();
    var o1 := ReadOneSpec(Initial, [[0x89, 0x81, 0, 0, 0, 0, 0x2A]]);
    assert ParserAfterReadAsWritten(o1) == o1.parser;
    EmptyTextDeliversBuffer(o1.parser);
  }

  /** Reading the empty TEXT frame while the payload buffer holds stale
      bytes delivers those bytes. */
  lemma EmptyTextDeliversBuffer(w: ParserView)
    requires Inv(w) && w.state == FlagsAndPayloadData && w.buffer == [] && w.cstate == ConnectionState.Valid
    ensures var o := ReadOneSpec(w, [[0x81, 0x80, 0, 0, 0, 0]]);
      o.action == Deliver && Delivered(o) == [w.result]
  {
    var text: seq<Byte> := [0x81, 0x80, 0, 0, 0, 0];
    assert text == [0x81, 0x80] + [0, 0, 0, 0];
    EmptyFrameKeepsBuffer(w, [0, 0, 0, 0]);
    ConsumeHead(w, text, []);
    assert [text] + [] == [text];
  }

  /** With the payload of every frame taken, the same two frames deliver the
      empty payload of the TEXT frame. */
  lemma StaleResultCorrected()
    ensures var ping := [0x89, 0x81, 0, 0, 0, 0, 0x2A];
      var text := [0x81, 0x80, 0, 0, 0, 0];
      var o1 := ReadOneSpec(Initial, [ping]);
      var o2 := ReadOneSpec(ParserAfterRead(o1), [text]);
      o2.action == Deliver && Delivered(o2) == [[]]
  {
    PingFrame();
    var pf := ClientFrame(0x89, 0x81, [], [0, 0, 0, 0], [0x2A]);
    SingleChunkFrame(Initial, pf);
    var o1 := ReadOneSpec(Initial, [pf.Bytes()]);
    TextFrame();
    var tf := ClientFrame(0x81, 0x80, [], [0, 0, 0, 0], []);
    SingleChunkFrame(ParserAfterRead(o1), tf);
  }

  // ---------------------------------------------------------------------
  // The server and a connection
  // ---------------------------------------------------------------------

  /** The server's table of handlers, one per subprotocol name. */
  class Server<H> {
    var handlers: map<string, H>

    constructor ()
      ensures handlers == map[]
    {
      handlers := map[];
    }

    function IsHandlerRegistered(name: string): (b: bool)
      reads this
      ensures b <==> name in handlers
    {
      name in handlers
    }

    /** Registers or replaces the handler for a subprotocol. */
    method RegisterHandler(name: string, handler: H)
      modifies this
      ensures handlers == old(handlers)[name := handler]
      ensures IsHandlerRegistered(name) && handlers[name] == handler
      ensures forall other :: other != name ==> (other in handlers <==> other in old(handlers))
    {
      handlers := handlers[name := handler];
    }
  }

  class Connection<H> {
    const server: Server<H>
    const parser: WebSocketParser
    /** Set once the connection stops reading frames. */
    var done: bool
    var subprotocol: string
    var handler: Option<H>
    /** Everything written to the socket so far. */
    var written: seq<Byte>
    /** The payloads handed to the handler, in order. */
    var input: seq<seq<Byte>>
    var inputClosed: bool
    var outputClosed: bool
    var outputShutdown: bool

    constructor (server: Server<H>)
      ensures this.server == server && fresh(parser) && fresh(parser.result)
      ensures parser.Valid() && parser.View() == Initial && Collected(parser.View())
      ensures !done && subprotocol == "" && handler == None && written == [] && input == []
      ensures !inputClosed && !outputClosed && !outputShutdown
    {
      this.server := server;
      parser := new WebSocketParser();
      done := false;
      subprotocol := "";
      handler := None;
      written := [];
      input := [];
      inputClosed := false;
      outputClosed := false;
      outputShutdown := false;
    }

    /** Appends a write to the socket's output. */
    method Write(s: seq<Byte>)
      modifies this
      ensures written == old(written) + s
      ensures done == old(done) && subprotocol == old(subprotocol) && handler == old(handler)
      ensures input == old(input) && inputClosed == old(inputClosed)
      ensures outputClosed == old(outputClosed) && outputShutdown == old(outputShutdown)
    {
      written := written + s;
    }

    /** Writes the reply that accepts the upgrade, piece by piece. */
    method WriteUpgradeReply(accept: string)
      modifies this
      ensures written == old(written) + Ascii(UpgradeReply(accept, subprotocol))
      ensures done == old(done) && subprotocol == old(subprotocol) && handler == old(handler)
      ensures input == old(input) && inputClosed == old(inputClosed)
      ensures outputClosed == old(outputClosed) && outputShutdown == old(outputShutdown)
    {
      ghost var start := written;
      Write(Ascii(UpgradeReplyTemplate));
      Write(Ascii(accept));
      if subprotocol != "" {
        Write(Ascii(ProtocolLine));
        Write(Ascii(subprotocol));
      }
      Write(Ascii(EndOfReply));
      ReplyBytes(start, accept, subprotocol);
    }

    /** Reads the upgrade request and, when it is accepted, selects the handler
      and writes the reply. A refused request changes nothing. */
    method ReadHttpUpgradeRequest(req: HttpRequest, sha1Base64: string -> string) returns (outcome: Handshake<H>)
      modifies this
      ensures outcome == Negotiate(req, server.handlers, sha1Base64)
      ensures outcome.Finished? ==>
        done && written == old(written) && handler == old(handler) && subprotocol == old(subprotocol)
      ensures outcome.Rejected? ==>
        done == old(done) && written == old(written) && handler == old(handler) && subprotocol == old(subprotocol)
      ensures outcome.Accepted? ==>
        && done == old(done) && handler == Some(outcome.handler) && subprotocol == outcome.subprotocol
        && written == old(written) + Ascii(outcome.reply)
      ensures input == old(input) && inputClosed == old(inputClosed)
      ensures outputClosed == old(outputClosed) && outputShutdown == old(outputShutdown)
    {
      match req
      case EndOfStream =>
        done := true;
        return Finished;
      case Malformed =>
        return Rejected("Incorrect upgrade request");
      case Request(headers) =>
        var upgrade := GetHeader(headers, "Upgrade");
        if upgrade != "websocket" {
          return Rejected("Upgrade header missing");
        }
        var sub := GetHeader(headers, "Sec-WebSocket-Protocol");
        if !server.IsHandlerRegistered(sub) {
          return Rejected("Subprotocol not supported.");
        }
        handler := Some(server.handlers[sub]);
        subprotocol := sub;
        var key := GetHeader(headers, "Sec-Websocket-Key");
        var accept := AcceptKey(key, sha1Base64);
        WriteUpgradeReply(accept);
        outcome := Accepted(sub, handler.value, UpgradeReply(accept, sub));
    }

    /** Frames a payload with a header and writes both (`send_data`). */
    method SendData(opcode: nat, payload: seq<Byte>)
      modifies this
      ensures written == old(written) + EncodeHeader(opcode, |payload|) + payload
      ensures done == old(done) && subprotocol == old(subprotocol) && handler == old(handler)
      ensures input == old(input) && inputClosed == old(inputClosed)
      ensures outputClosed == old(outputClosed) && outputShutdown == old(outputShutdown)
    {
      var header, headerSize := FillHeader(opcode, |payload|);
      Write(header[..headerSize] + payload);
    }

    /** Sends a CLOSE frame if asked to, then marks the connection done and
      closes the handler's streams and the socket's output. */
    method Close(sendClose: bool)
      modifies this
      ensures written == old(written) + (if sendClose then EncodeHeader(CLOSE, 0) else [])
      ensures done && inputClosed && outputClosed && outputShutdown
      ensures subprotocol == old(subprotocol) && handler == old(handler) && input == old(input)
    {
      if sendClose {
        SendData(CLOSE, []);
      }
      done := true;
      inputClosed := true;
      outputClosed := true;
      outputShutdown := true;
    }

    /** Feeds the stream's chunks to the parser until it stops, and puts
      back in front of the unread chunks what it left of the last one
      (`input_stream::consume`); an exhausted stream is fed as end of stream. */
    method ConsumeStream(stream: seq<seq<Byte>>) returns (rest: seq<seq<Byte>>)
      requires parser.Valid() && Collected(parser.View()) && parser.cstate == ConnectionState.Valid
      modifies parser, parser.result
      ensures (parser.View(), rest) == Consume(old(parser.View()), stream)
      ensures parser.Valid() && (parser.result == old(parser.result) || fresh(parser.result))
    {
      ghost var v0 := parser.View();
      var chunks := stream;
      var stop := false;
      rest := [];
      while !stop
        invariant parser.Valid() && (parser.result == old(parser.result) || fresh(parser.result))
        invariant !stop ==> Collected(parser.View()) && parser.cstate == ConnectionState.Valid
        invariant !stop ==> Consume(parser.View(), chunks) == Consume(v0, stream)
        invariant stop ==> (parser.View(), rest) == Consume(v0, stream)
        decreases |chunks|, if stop then 0 else 1
      {
        var chunk := if chunks == [] then [] else chunks[0];
        ghost var before := parser.View();
        StepOutcomes(before, chunk);
        var r := parser.Feed(chunk);
        if r.Stop? {
          stop := true;
          rest := if chunks == [] then [] else Pushback(r.leftover) + chunks[1..];
        } else {
          chunks := chunks[1..];
        }
      }
    }

    /** Reads one frame from the stream and acts on it. Every completed
      frame's payload is taken from the parser, so the next frame starts from
      an empty payload buffer. */
    method ReadOne(stream: seq<seq<Byte>>) returns (rest: seq<seq<Byte>>)
      requires parser.Valid() && Collected(parser.View()) && parser.cstate == ConnectionState.Valid
      modifies this, parser, parser.result
      ensures var o := ReadOneSpec(old(parser.View()), stream);
        && rest == o.rest
        && parser.View() == ParserAfterRead(o)
        && input == old(input) + Delivered(o)
        && written == old(written) + (if o.action == CloseConnection(true) then EncodeHeader(CLOSE, 0) else [])
        && done == (old(done) || o.action.CloseConnection?)
        && inputClosed == (old(inputClosed) || o.action.CloseConnection?)
        && outputClosed == (old(outputClosed) || o.action.CloseConnection?)
        && outputShutdown == (old(outputShutdown) || o.action.CloseConnection?)
        && subprotocol == old(subprotocol) && handler == old(handler)
      ensures parser.Valid() && (parser.cstate == ConnectionState.Valid ==> Collected(parser.View()))
    {
      ghost var v0 := parser.View();
      rest := ConsumeStream(stream);
      ConsumeOutcomes(v0, stream);
      var action := Dispatch(parser.cstate, parser.Opcode());
      if parser.IsValid() {
        var payload := parser.Result();
        if action.Deliver? {
          input := input + [payload[..]];
        }
      }
      if action.CloseConnection? {
        Close(action.sendClose);
      }
    }
  }
}
