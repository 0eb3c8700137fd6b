/**
 * The incremental frame decoder `websocket_parser`. It is fed chunks of the
 * byte stream, split at arbitrary places, and rebuilds one frame at a time
 * in three states: the two fixed header bytes, then the extended length and
 * masking key, then the payload. A chunk that completes a frame stops the
 * feeding and hands back the bytes after the frame.
 *
 * `Step` is the specification of one call: a function of the parser's
 * fields and the chunk. The class `WebSocketParser` keeps the fields and
 * updates them in place; its method `Feed` is proved against `Step`.
 */
module Parser {
  import opened Wire

  datatype ParsingState = FlagsAndPayloadData | PayloadLengthAndMask | Payload

  datatype ConnectionState = Valid | Closed | Error

  /** What one call tells the stream: keep feeding, or stop and take back the
      bytes after the frame. */
  datatype Consumption = DontStop | Stop(leftover: seq<Byte>)

  /** The parser's fields as values. */
  datatype ParserView = ParserView(
    state: ParsingState, cstate: ConnectionState, buffer: seq<Byte>,
    header: Option<FrameHeader>, payloadLength: nat, maskingKey: nat,
    result: seq<Byte>, consumed: nat)

  const Initial := ParserView(FlagsAndPayloadData, Valid, [], None, 0, 0, [], 0)

  /** What holds of the fields between two calls. In the header state the
      scratch buffer holds fewer than 2 bytes (the source asserts this);
      past it, the header read is one the server accepts. */
  predicate Inv(v: ParserView)
  {
    && (v.state == FlagsAndPayloadData ==> |v.buffer| < 2 && v.consumed == 0)
    && (v.state == PayloadLengthAndMask ==>
          && v.header.Some? && !IsViolation(v.header.value)
          && |v.buffer| < RestOfHeaderLength(v.header.value) && v.consumed == 0)
    && (v.state == Payload ==>
          v.header.Some? && !IsViolation(v.header.value) && v.buffer == [] && v.consumed < v.payloadLength)
  }

  /** The caller has taken the last completed frame's payload with `result()`,
      so the payload buffer is either empty or the one being filled for the
      current frame. */
  predicate Collected(v: ParserView)
  {
    if v.state == Payload then |v.result| == v.payloadLength else v.result == []
  }

  /** Contents of a freshly allocated payload buffer. The source leaves them
      unspecified; every byte is overwritten before the frame completes. */
  function Zeros(n: nat): (z: seq<Byte>)
    ensures |z| == n
  {
    seq(n, _ => 0)
  }

  /** `std::copy` of d into buf starting at offset off. */
  function WriteAt(buf: seq<Byte>, off: nat, d: seq<Byte>): (r: seq<Byte>)
    ensures |r| == |buf|
  {
    seq(|buf|, i requires 0 <= i < |buf| => if off <= i < off + |d| then d[i - off] else buf[i])
  }

  /** `remove_mask(p, n)`: the first n bytes of p XOR the masking key bytes in turn. */
  function MaskPrefix(p: seq<Byte>, n: nat, key: nat): (r: seq<Byte>)
    ensures |r| == |p|
  {
    seq(|p|, i requires 0 <= i < |p| => if i < n then Xor(p[i], KeyByte(key, i % 4)) else p[i])
  }

  /** One call of the parser on a chunk (`websocket_parser::operator()`). An
      empty chunk is end of stream. */
  function Step(v: ParserView, data: seq<Byte>): (r: (ParserView, Consumption))
    requires Inv(v)
    ensures Inv(r.0)
  {
    if |data| == 0 then (v.(cstate := Closed), Stop(data))
    else if v.state == FlagsAndPayloadData then ParseFlags(v, data)
    else if v.state == PayloadLengthAndMask then ParseLengthAndMask(v, data)
    else ParsePayload(v, data)
  }

  /** Header state: collect the two fixed bytes, then reject a frame the server
      must not accept, or go on to the length state with the rest of the chunk. */
  function ParseFlags(v: ParserView, data: seq<Byte>): (r: (ParserView, Consumption))
    requires Inv(v) && v.state == FlagsAndPayloadData
    ensures Inv(r.0)
  {
    if |v.buffer| + |data| >= 2 then
      var need := 2 - |v.buffer|;
      var bytes := v.buffer + data[..need];
      var h := ParseHeader(bytes[0], bytes[1]);
      var v' := v.(buffer := [], header := Some(h));
      if IsViolation(h) then (v'.(cstate := Error), Stop(data[need..]))
      else ParseLengthAndMask(v'.(state := PayloadLengthAndMask), data[need..])
    else
      (v.(buffer := v.buffer + data), DontStop)
  }

  /** Length state: collect the extended length and the masking key, decode
      both big-endian, then go on to the payload state with the rest. */
  function ParseLengthAndMask(v: ParserView, data: seq<Byte>): (r: (ParserView, Consumption))
    requires Inv(v) && v.state == PayloadLengthAndMask
    ensures Inv(r.0) && r.0.cstate == v.cstate && r.0.header == v.header
  {
    var required := RestOfHeaderLength(v.header.value);
    if |v.buffer| + |data| >= required then
      var need := required - |v.buffer|;
      var bytes := v.buffer + data[..need];
      var code := v.header.value.length;
      var ext := ExtLengthSize(code);
      var len := if code == 126 then BeUint(bytes[..2])
                 else if code == 127 then BeUint(bytes[..8])
                 else code;
      var key := BeUint(bytes[ext..ext + 4]);
      ParsePayload(v.(state := Payload, buffer := [], payloadLength := len, maskingKey := key), data[need..])
    else
      (v.(buffer := v.buffer + data), DontStop)
  }

  /** Payload state: copy what the chunk holds of the payload into the payload
      buffer; once all of it is there, unmask it, go back to the header state
      and stop with the bytes after the frame. A chunk that holds the whole
      payload while nothing was copied yet becomes the payload directly. */
  function ParsePayload(v: ParserView, data: seq<Byte>): (r: (ParserView, Consumption))
    requires v.state == Payload && v.header.Some? && !IsViolation(v.header.value)
    requires v.buffer == [] && v.consumed <= v.payloadLength
    ensures Inv(r.0) && r.0.cstate == v.cstate && r.0.header == v.header
    ensures r.0.payloadLength == v.payloadLength && r.0.maskingKey == v.maskingKey
  {
    var remaining := v.payloadLength - v.consumed;
    if |data| < remaining then
      var v' := if v.result == [] then v.(result := Zeros(remaining), consumed := 0) else v;
      (v'.(result := WriteAt(v'.result, v'.consumed, data), consumed := v'.consumed + |data|), DontStop)
    else
      var filled := if v.result == [] then data[..remaining]
                    else WriteAt(v.result, v.consumed, data[..remaining]);
      (v.(state := FlagsAndPayloadData, result := MaskPrefix(filled, v.payloadLength, v.maskingKey), consumed := 0),
       Stop(data[remaining..]))
  }

  /** The opcode of the last header read, or INVALID before the first (`opcode()`). */
  function OpcodeOf(v: ParserView): nat
  {
    if v.header.Some? then v.header.value.opcode else INVALID
  }

  /** What `input_stream::consume` puts back in front of the stream when the
      parser stops: the bytes after the frame, if any. */
  function Pushback(leftover: seq<Byte>): seq<seq<Byte>>
  {
    if leftover == [] then [] else [leftover]
  }

  /** `input_stream::consume` with the parser: the chunks of the stream are fed
      in order until the parser stops; a stream that runs out ends with an
      empty chunk (end of stream). Gives the parser's fields and the stream
      that is left, starting with the bytes after the frame. */
  function Consume(v: ParserView, stream: seq<seq<Byte>>): (r: (ParserView, seq<seq<Byte>>))
    requires Inv(v)
    ensures Inv(r.0)
    decreases |stream|
  {
    if stream == [] then (Step(v, []).0, [])
    else
      var (v', c) := Step(v, stream[0]);
      if c.Stop? then (v', Pushback(c.leftover) + stream[1..])
      else Consume(v', stream[1..])
  }

  class WebSocketParser {
    var state: ParsingState
    var cstate: ConnectionState
    var buffer: seq<Byte>
    var header: Option<FrameHeader>
    var payloadLength: nat
    var maskingKey: nat
    var result: array<Byte>
    var consumedPayloadLength: nat

    ghost function View(): ParserView
      reads this, result
    {
      ParserView(state, cstate, buffer, header, payloadLength, maskingKey, result[..], consumedPayloadLength)
    }

    ghost predicate Valid()
      reads this, result
    {
      Inv(View())
    }

    constructor ()
      ensures Valid() && Collected(View()) && View() == Initial && fresh(result)
    {
      state := FlagsAndPayloadData;
      cstate := ConnectionState.Valid;
      buffer := [];
      header := None;
      payloadLength := 0;
      maskingKey := 0;
      result := new Byte[0];
      consumedPayloadLength := 0;
    }

    predicate IsValid()
      reads this
    {
      cstate == ConnectionState.Valid
    }

    function Opcode(): (op: nat)
      reads this, result
      ensures op == OpcodeOf(View())
    {
      if header.Some? then header.value.opcode else INVALID
    }

    /** Hands the payload buffer to the caller and leaves an empty one (`result()`). */
    method Result() returns (p: array<Byte>)
      modifies this
      ensures p == old(result) && p[..] == old(View()).result
      ensures fresh(result) && View() == old(View()).(result := [])
    {
      p := result;
      result := new Byte[0];
    }

    /** `remove_mask`: XORs the first n bytes of p, in place, with the bytes
        of the masking key taken in turn from the most significant. */
    method RemoveMask(p: array<Byte>, n: nat)
      requires n <= p.Length
      modifies p
      ensures p[..] == MaskPrefix(old(p[..]), n, maskingKey)
    {
      ghost var masked := MaskPrefix(old(p[..]), n, maskingKey);
      for i := 0 to n
        invariant forall k :: 0 <= k < i ==> p[k] == masked[k]
        invariant forall k :: i <= k < p.Length ==> p[k] == old(p[k])
      {
        p[i] := Xor(p[i], KeyByte(maskingKey, i % 4));
      }
    }

    /** Copies d into the payload buffer at offset off (`std::copy`). */
    method CopyIn(d: seq<Byte>, off: nat)
      requires off + |d| <= result.Length
      modifies result
      ensures result[..] == WriteAt(old(result[..]), off, d)
    {
      forall i | 0 <= i < |d| {
        result[off + i] := d[i];
      }
    }

    /** Feeds one chunk (`websocket_parser::operator()`). */
    method Feed(chunk: seq<Byte>) returns (r: Consumption)
      requires Valid() && Collected(View())
      modifies this, result
      ensures (View(), r) == Step(old(View()), chunk)
      ensures result == old(result) || fresh(result)
    {
      if |chunk| == 0 {
        // end of stream
        cstate := Closed;
        return Stop(chunk);
      }
      if state == FlagsAndPayloadData {
        r := FeedFlags(chunk);
      } else if state == PayloadLengthAndMask {
        r := FeedLengthAndMask(chunk);
      } else {
        r := FeedPayload(chunk);
      }
    }

    /** The header-state block of `operator()`; falls through to the next state. */
    method FeedFlags(chunk: seq<Byte>) returns (r: Consumption)
      requires Valid() && state == FlagsAndPayloadData && result.Length == 0
      modifies this, result
      ensures (View(), r) == ParseFlags(old(View()), chunk)
      ensures result == old(result) || fresh(result)
    {
      var data := chunk;
      if |buffer| + |data| >= 2 {
        var hlen := |buffer|;
        buffer := buffer + data[..2 - hlen];
        data := data[2 - hlen..];
        header := Some(ParseHeader(buffer[0], buffer[1]));
        buffer := [];
        if IsViolation(header.value) {
          cstate := Error;
          return Stop(data);
        }
        state := PayloadLengthAndMask;
        r := FeedLengthAndMask(data);
      } else {
        buffer := buffer + data;
        return DontStop;
      }
    }

    /** The length-and-mask block of `operator()`; falls through to the payload state. */
    method FeedLengthAndMask(chunk: seq<Byte>) returns (r: Consumption)
      requires Valid() && state == PayloadLengthAndMask && result.Length == 0
      modifies this, result
      ensures (View(), r) == ParseLengthAndMask(old(View()), chunk)
      ensures result == old(result) || fresh(result)
    {
      var data := chunk;
      var required := RestOfHeaderLength(header.value);
      if |buffer| + |data| >= required {
        // always true: the invariant keeps the buffer shorter than required
        if |buffer| < required {
          var hlen := |buffer|;
          buffer := buffer + data[..required - hlen];
          data := data[required - hlen..];
        }
        var code := header.value.length;
        var ext := 0;
        payloadLength := code;
        if code == 126 {
          payloadLength := BeUint(buffer[..2]);
          ext := 2;
        } else if code == 127 {
          payloadLength := BeUint(buffer[..8]);
          ext := 8;
        }
        maskingKey := BeUint(buffer[ext..ext + 4]);
        buffer := [];
        state := Payload;
        r := FeedPayload(data);
      } else {
        buffer := buffer + data;
        return DontStop;
      }
    }

    /** The payload block of `operator()`. */
    method FeedPayload(chunk: seq<Byte>) returns (r: Consumption)
      requires state == Payload && header.Some? && !IsViolation(header.value) && buffer == []
      requires consumedPayloadLength <= payloadLength
      requires (result.Length == 0 && consumedPayloadLength == 0) || result.Length == payloadLength
      modifies this, result
      ensures (View(), r) == ParsePayload(old(View()), chunk)
      ensures result == old(result) || fresh(result)
    {
      var data := chunk;
      if |data| < payloadLength - consumedPayloadLength {
        if result.Length == 0 {
          result := new Byte[payloadLength - consumedPayloadLength](_ => 0);
          assert result[..] == Zeros(payloadLength - consumedPayloadLength);
          consumedPayloadLength := 0;
        }
        CopyIn(data, consumedPayloadLength);
        consumedPayloadLength := consumedPayloadLength + |data|;
        return DontStop;
      } else {
        var consumedBytes := payloadLength - consumedPayloadLength;
        ghost var filled := if result.Length == 0 then data[..consumedBytes]
                            else WriteAt(result[..], consumedPayloadLength, data[..consumedBytes]);
        ghost var rest := data[consumedBytes..];
        if result.Length == 0 {
          // nothing copied yet: the chunk's bytes become the payload buffer
          if consumedBytes == |data| {
            result := new Byte[|data|](i requires 0 <= i < |data| => data[i]);
            data := [];
          } else {
            result := new Byte[consumedBytes](i requires 0 <= i < consumedBytes => data[i]);
            data := data[consumedBytes..];
          }
        } else {
          CopyIn(data[..consumedBytes], consumedPayloadLength);
          data := data[consumedBytes..];
        }
        assert result[..] == filled && data == rest;
        RemoveMask(result, payloadLength);
        consumedPayloadLength := 0;
        state := FlagsAndPayloadData;
        return Stop(data);
      }
    }
  }
}
