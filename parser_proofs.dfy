/**
 * Properties of the frame decoder's specification `Step`: a well-formed
 * client frame is decoded to its payload however the stream is split into
 * chunks, a frame the server must reject stops the parser in the error
 * state, and the extended length and masking key are read big-endian.
 */
module ParserProofs {
  import opened Wire
  import opened Parser

  /** All the chunks of a stream, one after another. */
  function Flatten(chunks: seq<seq<Byte>>): seq<Byte>
  {
    if chunks == [] then [] else chunks[0] + Flatten(chunks[1..])
  }

  /** Between frames: header state, nothing buffered, the last payload taken. */
  predicate AtBoundary(v: ParserView)
  {
    v.state == FlagsAndPayloadData && v.buffer == [] && v.result == [] && v.consumed == 0
  }

  /** The parser, started at boundary v, after the first n bytes of frame f
      have been fed to it. */
  function After(v: ParserView, f: ClientFrame, n: nat): (r: ParserView)
    requires AtBoundary(v) && f.WellFormed() && n < |f.Bytes()|
    ensures Inv(r) && Collected(r)
  {
    var bytes := f.Bytes();
    var hs := f.HeaderSize();
    var len := |f.body|;
    if n < 2 then v.(buffer := bytes[..n])
    else if n < hs then v.(state := PayloadLengthAndMask, header := Some(f.Header()), buffer := bytes[2..n])
    else v.(state := Payload, header := Some(f.Header()), payloadLength := len, maskingKey := BeUint(f.key),
            result := f.body[..n - hs] + Zeros(len - (n - hs)), consumed := n - hs)
  }

  /** The parser, started at boundary v, once frame f is complete. */
  function Decoded(v: ParserView, f: ClientFrame): ParserView
    requires f.WellFormed()
  {
    v.(header := Some(f.Header()), payloadLength := |f.body|, maskingKey := BeUint(f.key), result := f.Payload())
  }

  /** The parser entering the payload state of frame f. */
  function Entry(v: ParserView, f: ClientFrame): ParserView
    requires f.WellFormed()
  {
    v.(state := Payload, header := Some(f.Header()), buffer := [], payloadLength := |f.body|, maskingKey := BeUint(f.key))
  }

  /** Unmasking with the key read as a 32-bit number is the masking of
      section 5.3 of RFC 6455 with the key's four bytes. */
  lemma MaskPrefixIsRfcMask(body: seq<Byte>, key: seq<Byte>)
    requires |key| == 4
    ensures MaskPrefix(body, |body|, BeUint(key)) == MaskBytes(body, key)
  {
    forall i | 0 <= i < |body|
      ensures MaskPrefix(body, |body|, BeUint(key))[i] == MaskBytes(body, key)[i]
    {
      KeyByteOfBeUint(key, i % 4);
    }
  }

  lemma FrameRegions(f: ClientFrame)
    requires f.WellFormed()
    ensures |f.Bytes()| == f.HeaderSize() + |f.body|
    ensures f.Bytes()[..2] == [f.b0, f.b1]
    ensures f.Bytes()[2..f.HeaderSize()] == f.ext + f.key
    ensures f.Bytes()[f.HeaderSize()..] == f.body
  {
    var bytes := f.Bytes();
    assert bytes == [f.b0, f.b1] + (f.ext + f.key) + f.body;
  }

  /** Copying the next bytes of the body into a partly filled payload buffer. */
  lemma WriteFills(body: seq<Byte>, m: nat, c: seq<Byte>)
    requires m + |c| <= |body| && c == body[m..m + |c|]
    ensures WriteAt(body[..m] + Zeros(|body| - m), m, c) == body[..m + |c|] + Zeros(|body| - m - |c|)
  {
  }

  /** The payload state entered with fewer bytes than the payload. */
  lemma EntryPartial(v: ParserView, f: ClientFrame, d: seq<Byte>)
    requires AtBoundary(v) && f.WellFormed()
    requires |d| < |f.body| && d == f.body[..|d|]
    ensures ParsePayload(Entry(v, f), d) == (After(v, f, f.HeaderSize() + |d|), DontStop)
  {
    FrameRegions(f);
    var len := |f.body|;
    var e := Entry(v, f);
    assert f.body[..0] + Zeros(len) == Zeros(len);
    WriteFills(f.body, 0, d);
    var z := e.(result := Zeros(len), consumed := 0);
    assert ParsePayload(e, d) == (z.(result := WriteAt(Zeros(len), 0, d), consumed := |d|), DontStop);
  }

  /** The payload state entered with the whole payload and maybe more. */
  lemma EntryComplete(v: ParserView, f: ClientFrame, d: seq<Byte>)
    requires AtBoundary(v) && f.WellFormed()
    requires |f.body| <= |d| && d[..|f.body|] == f.body
    ensures ParsePayload(Entry(v, f), d) == (Decoded(v, f), Stop(d[|f.body|..]))
  {
    MaskPrefixIsRfcMask(f.body, f.key);
  }

  /** The payload state entered with the bytes d that follow the header. */
  lemma EntryPayload(v: ParserView, f: ClientFrame, t: seq<Byte>, d: seq<Byte>)
    requires AtBoundary(v) && f.WellFormed()
    requires f.HeaderSize() + |d| <= |f.Bytes() + t|
    requires d == (f.Bytes() + t)[f.HeaderSize()..f.HeaderSize() + |d|]
    ensures f.HeaderSize() + |d| < |f.Bytes()| ==>
      ParsePayload(Entry(v, f), d) == (After(v, f, f.HeaderSize() + |d|), DontStop)
    ensures f.HeaderSize() + |d| >= |f.Bytes()| ==>
      ParsePayload(Entry(v, f), d) == (Decoded(v, f), Stop(d[|f.body|..]))
  {
    FrameRegions(f);
    var s := f.Bytes() + t;
    var hs := f.HeaderSize();
    if hs + |d| < |f.Bytes()| {
      assert d == f.body[..|d|] by { assert s[hs..hs + |d|] == f.Bytes()[hs..][..|d|]; }
      EntryPartial(v, f, d);
    } else {
      calc {
        d[..|f.body|];
        s[hs..hs + |d|][..|f.body|];
        s[hs..|f.Bytes()|];
        f.Bytes()[hs..];
      }
      EntryComplete(v, f, d);
    }
  }
  /** A chunk inside the payload that does not complete it. */
  lemma PayloadPartial(v: ParserView, f: ClientFrame, m: nat, c: seq<Byte>)
    requires AtBoundary(v) && f.WellFormed()
    requires m + |c| < |f.body| && c == f.body[m..m + |c|]
    ensures f.HeaderSize() + m < |f.Bytes()| && f.HeaderSize() + m + |c| < |f.Bytes()|
    ensures ParsePayload(After(v, f, f.HeaderSize() + m), c) == (After(v, f, f.HeaderSize() + m + |c|), DontStop)
  {
    FrameRegions(f);
    WriteFills(f.body, m, c);
  }

  /** A chunk inside the payload that completes it. */
  lemma PayloadComplete(v: ParserView, f: ClientFrame, m: nat, c: seq<Byte>)
    requires AtBoundary(v) && f.WellFormed()
    requires m < |f.body| <= m + |c| && c[..|f.body| - m] == f.body[m..]
    ensures f.HeaderSize() + m < |f.Bytes()|
    ensures ParsePayload(After(v, f, f.HeaderSize() + m), c) == (Decoded(v, f), Stop(c[|f.body| - m..]))
  {
    FrameRegions(f);
    var w := After(v, f, f.HeaderSize() + m);
    PayloadFinish(w, f.body, m, c);
    MaskPrefixIsRfcMask(f.body, f.key);
    assert w.(state := FlagsAndPayloadData, result := MaskPrefix(f.body, |f.body|, w.maskingKey), consumed := 0)
      == Decoded(v, f);
  }

  /** A chunk that holds the rest of the payload, fed to a parser that has
      copied the first m bytes of it, unmasks the whole payload. */
  lemma PayloadFinish(w: ParserView, body: seq<Byte>, m: nat, c: seq<Byte>)
    requires w.state == Payload && w.header.Some? && !IsViolation(w.header.value) && w.buffer == []
    requires m < |body| <= m + |c| && c[..|body| - m] == body[m..]
    requires w.payloadLength == |body| && w.consumed == m && w.result == body[..m] + Zeros(|body| - m)
    ensures ParsePayload(w, c)
      == (w.(state := FlagsAndPayloadData, result := MaskPrefix(body, |body|, w.maskingKey), consumed := 0),
          Stop(c[|body| - m..]))
  {
    WriteFills(body, m, c[..|body| - m]);
    assert body[..|body|] + Zeros(0) == body;
    assert |w.result| == |body|;
  }


  /** A chunk fed to the payload state: the next bytes of the stream. */
  lemma PayloadStep(v: ParserView, f: ClientFrame, t: seq<Byte>, n: nat, c: seq<Byte>)
    requires AtBoundary(v) && f.WellFormed()
    requires f.HeaderSize() <= n < |f.Bytes()| && n + |c| <= |f.Bytes() + t|
    requires c == (f.Bytes() + t)[n..n + |c|]
    ensures n + |c| < |f.Bytes()| ==> ParsePayload(After(v, f, n), c) == (After(v, f, n + |c|), DontStop)
    ensures n + |c| >= |f.Bytes()| ==>
      ParsePayload(After(v, f, n), c) == (Decoded(v, f), Stop(c[|f.Bytes()| - n..]))
  {
    FrameRegions(f);
    var m := n - f.HeaderSize();
    BodyChunk(f.Bytes(), t, f.HeaderSize(), f.body, n, c);
    if n + |c| < |f.Bytes()| {
      PayloadPartial(v, f, m, c);
    } else {
      PayloadComplete(v, f, m, c);
    }
  }

  /** A chunk taken from the payload region of a stream is a piece of the
      payload, and one that reaches past it starts with the payload's tail. */
  lemma BodyChunk(bytes: seq<Byte>, t: seq<Byte>, hs: nat, body: seq<Byte>, n: nat, c: seq<Byte>)
    requires hs <= n < |bytes| && bytes[hs..] == body && n + |c| <= |bytes + t|
    requires c == (bytes + t)[n..n + |c|]
    ensures n + |c| < |bytes| ==> c == body[n - hs..n - hs + |c|]
    ensures n + |c| >= |bytes| ==> c[..|bytes| - n] == body[n - hs..]
  {
    var s := bytes + t;
    var e := if n + |c| < |bytes| then |c| else |bytes| - n;
    forall k | 0 <= k < e ensures c[k] == body[n - hs + k] {
      assert c[k] == s[n + k] == bytes[n + k];
    }
    assert c[..e] == body[n - hs..n - hs + e];
  }

  /** The length state given the rest of the header: the extended length and
      the masking key of frame f are decoded and the parser enters the payload. */
  lemma LengthDecoded(v: ParserView, f: ClientFrame, n: nat, d: seq<Byte>)
    requires AtBoundary(v) && f.WellFormed()
    requires 2 <= n < f.HeaderSize() && f.HeaderSize() - n <= |d|
    requires f.Bytes()[2..n] + d[..f.HeaderSize() - n] == f.ext + f.key
    ensures n < |f.Bytes()|
    ensures ParseLengthAndMask(After(v, f, n), d) == ParsePayload(Entry(v, f), d[f.HeaderSize() - n..])
  {
    FrameRegions(f);
    var w := After(v, f, n);
    RestComplete(w, d, f.Header(), f.ext, f.key);
    assert w.(state := Payload, buffer := [], payloadLength := |f.body|, maskingKey := BeUint(f.key)) == Entry(v, f);
  }

  /** The length state, handed the rest of the header (extended length ext
      and key), enters the payload state with the length and key they hold. */
  lemma RestComplete(w: ParserView, d: seq<Byte>, h: FrameHeader, ext: seq<Byte>, key: seq<Byte>)
    requires Inv(w) && w.state == PayloadLengthAndMask && w.header == Some(h)
    requires |ext| == ExtLengthSize(h.length) && |key| == 4
    requires 4 + |ext| <= |w.buffer| + |d| && w.buffer + d[..4 + |ext| - |w.buffer|] == ext + key
    ensures ParseLengthAndMask(w, d)
      == ParsePayload(w.(state := Payload, buffer := [], payloadLength := DecodedLength(h.length, ext), maskingKey := BeUint(key)),
                      d[4 + |ext| - |w.buffer|..])
  {
    var need := 4 + |ext| - |w.buffer|;
    assert RestOfHeaderLength(h) == 4 + |ext|;
    RestFields(h.length, ext, key);
    var w' := w.(state := Payload, buffer := [], payloadLength := DecodedLength(h.length, ext), maskingKey := BeUint(key));
    assert ParseLengthAndMask(w, d) == ParsePayload(w', d[need..]);
  }

  /** A chunk that completes the rest of the header sets the payload length and
      the key from it. */
  lemma StepFields(w: ParserView, d: seq<Byte>, h: FrameHeader)
    requires Inv(w) && w.state == PayloadLengthAndMask && w.header == Some(h)
    requires |w.buffer| + |d| >= RestOfHeaderLength(h)
    ensures var got := w.buffer + d[..RestOfHeaderLength(h) - |w.buffer|];
      var ext := ExtLengthSize(h.length);
      && |got| == ext + 4
      && Step(w, d).0.payloadLength == DecodedLength(h.length, got[..ext])
      && Step(w, d).0.maskingKey == BeUint(got[ext..ext + 4])
  {
    var got := w.buffer + d[..RestOfHeaderLength(h) - |w.buffer|];
    var ext := ExtLengthSize(h.length);
    FieldSplit(got, ext);
    RestComplete(w, d, h, got[..ext], got[ext..ext + 4]);
  }


  /** The extended length and the key, read back from the rest of the header. */
  lemma RestFields(code: nat, ext: seq<Byte>, key: seq<Byte>)
    requires |ext| == ExtLengthSize(code) && |key| == 4
    ensures var got := ext + key;
      && (if code == 126 then BeUint(got[..2]) else if code == 127 then BeUint(got[..8]) else code)
         == DecodedLength(code, ext)
      && got[|ext|..|ext| + 4] == key
  {
    var got := ext + key;
    assert got[..|ext|] == ext;
    assert got[|ext|..|ext| + 4] == key;
  }

  /** A piece of a chunk is the matching piece of the stream. */
  lemma ChunkSlice(s: seq<Byte>, n: nat, d: seq<Byte>, i: nat, j: nat)
    requires n + |d| <= |s| && d == s[n..n + |d|] && i <= j <= |d|
    ensures d[i..j] == s[n + i..n + j]
  {
    forall k | 0 <= k < j - i ensures d[i..j][k] == s[n + i..n + j][k] {
      assert d[i + k] == s[n + i + k];
    }
  }

  /** Where the rest of the header and the payload lie in a chunk fed to the
      length state. */
  lemma LengthChunkRegions(f: ClientFrame, t: seq<Byte>, n: nat, d: seq<Byte>)
    requires f.WellFormed()
    requires 2 <= n < f.HeaderSize() <= n + |d| <= |f.Bytes() + t|
    requires d == (f.Bytes() + t)[n..n + |d|]
    ensures f.Bytes()[2..n] + d[..f.HeaderSize() - n] == f.ext + f.key
    ensures d[f.HeaderSize() - n..] == (f.Bytes() + t)[f.HeaderSize()..n + |d|]
  {
    FrameRegions(f);
    SplitChunk(f.Bytes(), t, n, f.HeaderSize(), d);
  }

  /** A chunk d read from offset n of bytes + t, and reaching past offset m
      within bytes, completes bytes[2..m] and continues with what follows m. */
  lemma SplitChunk(bytes: seq<Byte>, t: seq<Byte>, n: nat, m: nat, d: seq<Byte>)
    requires 2 <= n < m <= |bytes| && m <= n + |d| <= |bytes + t|
    requires d == (bytes + t)[n..n + |d|]
    ensures bytes[2..n] + d[..m - n] == bytes[2..m]
    ensures d[m - n..] == (bytes + t)[m..n + |d|]
  {
    var s := bytes + t;
    ChunkSlice(s, n, d, 0, m - n);
    ChunkSlice(s, n, d, m - n, |d|);
    assert d[..m - n] == d[0..m - n];
    assert d[m - n..] == d[m - n..|d|];
    assert s[n..m] == bytes[n..m] by {
      forall k | 0 <= k < m - n ensures s[n..m][k] == bytes[n..m][k] { }
    }
    assert bytes[2..n] + bytes[n..m] == bytes[2..m];
  }

  /** A chunk fed to the length state that completes the rest of the header. */
  lemma LengthComplete(v: ParserView, f: ClientFrame, t: seq<Byte>, n: nat, d: seq<Byte>)
    requires AtBoundary(v) && f.WellFormed()
    requires 2 <= n < f.HeaderSize() <= n + |d| <= |f.Bytes() + t|
    requires d == (f.Bytes() + t)[n..n + |d|]
    ensures n < |f.Bytes()|
    ensures n + |d| < |f.Bytes()| ==> ParseLengthAndMask(After(v, f, n), d) == (After(v, f, n + |d|), DontStop)
    ensures n + |d| >= |f.Bytes()| ==>
      ParseLengthAndMask(After(v, f, n), d) == (Decoded(v, f), Stop(d[|f.Bytes()| - n..]))
  {
    FrameRegions(f);
    LengthChunkRegions(f, t, n, d);
    LengthDecoded(v, f, n, d);
    var rest := d[f.HeaderSize() - n..];
    EntryPayload(v, f, t, rest);
    if n + |d| >= |f.Bytes()| {
      assert rest[|f.body|..] == d[|f.Bytes()| - n..];
    }
  }

  /** A chunk fed to the length state: the next bytes of the stream. */
  lemma LengthStep(v: ParserView, f: ClientFrame, t: seq<Byte>, n: nat, d: seq<Byte>)
    requires AtBoundary(v) && f.WellFormed()
    requires 2 <= n < f.HeaderSize() && n + |d| <= |f.Bytes() + t|
    requires d == (f.Bytes() + t)[n..n + |d|]
    ensures n < |f.Bytes()|
    ensures n + |d| < |f.Bytes()| ==> ParseLengthAndMask(After(v, f, n), d) == (After(v, f, n + |d|), DontStop)
    ensures n + |d| >= |f.Bytes()| ==>
      ParseLengthAndMask(After(v, f, n), d) == (Decoded(v, f), Stop(d[|f.Bytes()| - n..]))
  {
    FrameRegions(f);
    var bytes := f.Bytes();
    if n + |d| < f.HeaderSize() {
      assert bytes[2..n] + d == bytes[2..n + |d|] by { assert d == bytes[n..n + |d|]; }
    } else {
      LengthComplete(v, f, t, n, d);
    }
  }

  /** Where the fixed header bytes and the rest lie in a chunk fed to the
      header state. */
  lemma FlagsChunkRegions(f: ClientFrame, t: seq<Byte>, n: nat, c: seq<Byte>)
    requires f.WellFormed()
    requires n < 2 <= n + |c| <= |f.Bytes() + t|
    requires c == (f.Bytes() + t)[n..n + |c|]
    ensures f.Bytes()[..n] + c[..2 - n] == [f.b0, f.b1]
    ensures c[2 - n..] == (f.Bytes() + t)[2..n + |c|]
  {
    var s := f.Bytes() + t;
    var bytes := f.Bytes();
    FrameRegions(f);
    ChunkSlice(s, n, c, 0, 2 - n);
    ChunkSlice(s, n, c, 2 - n, |c|);
    assert c[..2 - n] == c[0..2 - n];
    assert c[2 - n..] == c[2 - n..|c|];
    assert s[n..2] == bytes[n..2];
    assert bytes[..n] + bytes[n..2] == bytes[..2];
  }

  /** A chunk fed to the header state that completes the two fixed bytes: the
      header passes the server's checks and the rest goes to the length state. */
  lemma FlagsComplete(v: ParserView, f: ClientFrame, t: seq<Byte>, n: nat, c: seq<Byte>)
    requires AtBoundary(v) && f.WellFormed()
    requires n < 2 <= n + |c| <= |f.Bytes() + t|
    requires c == (f.Bytes() + t)[n..n + |c|]
    ensures n < |f.Bytes()|
    ensures n + |c| < |f.Bytes()| ==> ParseFlags(After(v, f, n), c) == (After(v, f, n + |c|), DontStop)
    ensures n + |c| >= |f.Bytes()| ==>
      ParseFlags(After(v, f, n), c) == (Decoded(v, f), Stop(c[|f.Bytes()| - n..]))
  {
    FrameRegions(f);
    FlagsChunkRegions(f, t, n, c);
    var w := After(v, f, n);
    var w2 := w.(buffer := [], header := Some(f.Header())).(state := PayloadLengthAndMask);
    assert w2 == After(v, f, 2);
    var rest := c[2 - n..];
    assert ParseFlags(w, c) == ParseLengthAndMask(w2, rest);
    LengthStep(v, f, t, 2, rest);
    if n + |c| >= |f.Bytes()| {
      assert rest[|f.Bytes()| - 2..] == c[|f.Bytes()| - n..];
    }
  }

  /** A chunk fed to the header state: the next bytes of the stream. */
  lemma FlagsStep(v: ParserView, f: ClientFrame, t: seq<Byte>, n: nat, c: seq<Byte>)
    requires AtBoundary(v) && f.WellFormed()
    requires n < 2 && 0 < |c| && n + |c| <= |f.Bytes() + t|
    requires c == (f.Bytes() + t)[n..n + |c|]
    ensures n < |f.Bytes()|
    ensures n + |c| < |f.Bytes()| ==> ParseFlags(After(v, f, n), c) == (After(v, f, n + |c|), DontStop)
    ensures n + |c| >= |f.Bytes()| ==>
      ParseFlags(After(v, f, n), c) == (Decoded(v, f), Stop(c[|f.Bytes()| - n..]))
  {
    FrameRegions(f);
    var bytes := f.Bytes();
    if n + |c| < 2 {
      assert bytes[..n] + c == bytes[..n + |c|] by { assert c == bytes[n..n + |c|]; }
    } else {
      FlagsComplete(v, f, t, n, c);
    }
  }

  /** One chunk of the stream fed to a parser that has seen the first n bytes
      of frame f: it either leaves the parser further into the frame or
      completes the frame and hands back the bytes after it. */
  lemma StepInFrame(v: ParserView, f: ClientFrame, t: seq<Byte>, n: nat, c: seq<Byte>)
    requires AtBoundary(v) && f.WellFormed()
    requires n < |f.Bytes()| && 0 < |c| && n + |c| <= |f.Bytes() + t|
    requires c == (f.Bytes() + t)[n..n + |c|]
    ensures n + |c| < |f.Bytes()| ==> Step(After(v, f, n), c) == (After(v, f, n + |c|), DontStop)
    ensures n + |c| >= |f.Bytes()| ==> Step(After(v, f, n), c) == (Decoded(v, f), Stop(c[|f.Bytes()| - n..]))
  {
    if n < 2 {
      FlagsStep(v, f, t, n, c);
    } else if n < f.HeaderSize() {
      LengthStep(v, f, t, n, c);
    } else {
      PayloadStep(v, f, t, n, c);
    }
  }
  lemma {:induction false} FlattenLast(chunks: seq<seq<Byte>>)
    requires chunks != []
    ensures |Flatten(chunks)| >= |chunks[0]| + (if |chunks| > 1 then |chunks[|chunks| - 1]| else 0)
    decreases |chunks|
  {
    if |chunks| > 1 {
      FlattenLast(chunks[1..]);
    }
  }

  /** Feeding the rest of frame f, split into chunks, to a parser that has
      seen its first n bytes. */
  lemma {:induction false} ConsumeRest(v: ParserView, f: ClientFrame, t: seq<Byte>, n: nat,
                                       chunks: seq<seq<Byte>>, rest: seq<seq<Byte>>)
    requires AtBoundary(v) && f.WellFormed() && n < |f.Bytes()|
    requires Spells(chunks, f.Bytes() + t, n, |f.Bytes()|)
    ensures Consume(After(v, f, n), chunks + rest) == (Decoded(v, f), Pushback(t) + rest)
    decreases |chunks|
  {
    var c := chunks[0];
    SpellsNext(chunks, f.Bytes() + t, n, |f.Bytes()|);
    ConsLeft(chunks, rest);
    if |chunks| == 1 {
      LastChunk(v, f, t, n, c, rest);
    } else {
      InnerChunk(v, f, t, n, c, chunks[1..] + rest);
      ConsumeRest(v, f, t, n + |c|, chunks[1..], rest);
    }
  }

  /** The chunks are not empty and spell out s from offset n, and what lies
      past offset m is shorter than the last of them. */
  predicate Spells(chunks: seq<seq<Byte>>, s: seq<Byte>, n: nat, m: nat)
  {
    && chunks != [] && (forall i | 0 <= i < |chunks| :: chunks[i] != [])
    && n <= |s| && m <= |s| && Flatten(chunks) == s[n..]
    && |s| - m < |chunks[|chunks| - 1]|
  }

  /** The first chunk is the next piece of s; a last chunk runs to the end of
      s, and otherwise the chunk ends before m and the others spell out what
      follows it. */
  lemma SpellsNext(chunks: seq<seq<Byte>>, s: seq<Byte>, n: nat, m: nat)
    requires Spells(chunks, s, n, m)
    ensures n + |chunks[0]| <= |s| && chunks[0] == s[n..n + |chunks[0]|]
    ensures |chunks| == 1 ==> chunks[0] == s[n..]
    ensures |chunks| > 1 ==> n + |chunks[0]| < m && Spells(chunks[1..], s, n + |chunks[0]|, m)
  {
    assert Flatten(chunks) == chunks[0] + Flatten(chunks[1..]);
    FlattenLast(chunks);
    if |chunks| > 1 {
      var more := chunks[1..];
      assert more[|more| - 1] == chunks[|chunks| - 1];
      assert forall i | 0 <= i < |more| :: more[i] == chunks[i + 1];
    }
  }

  lemma ConsLeft<T>(chunks: seq<T>, rest: seq<T>)
    requires chunks != []
    ensures chunks + rest == [chunks[0]] + (chunks[1..] + rest)
  {
  }

  /** A chunk that ends with the bytes after the frame completes it. */
  lemma LastChunk(v: ParserView, f: ClientFrame, t: seq<Byte>, n: nat, c: seq<Byte>, more: seq<seq<Byte>>)
    requires AtBoundary(v) && f.WellFormed() && n < |f.Bytes()|
    requires |t| < |c| && c == (f.Bytes() + t)[n..]
    ensures Consume(After(v, f, n), [c] + more) == (Decoded(v, f), Pushback(t) + more)
  {
    StepInFrame(v, f, t, n, c);
    assert c[|f.Bytes()| - n..] == t;
    assert ([c] + more)[0] == c && ([c] + more)[1..] == more;
  }

  /** A chunk inside the frame leaves the parser asking for more. */
  lemma InnerChunk(v: ParserView, f: ClientFrame, t: seq<Byte>, n: nat, c: seq<Byte>, more: seq<seq<Byte>>)
    requires AtBoundary(v) && f.WellFormed() && 0 < |c|
    requires n + |c| < |f.Bytes()| && c == (f.Bytes() + t)[n..n + |c|]
    ensures Consume(After(v, f, n), [c] + more) == Consume(After(v, f, n + |c|), more)
  {
    StepInFrame(v, f, t, n, c);
    assert ([c] + more)[0] == c && ([c] + more)[1..] == more;
  }

  /** `consume` feeds the first chunk and goes on only if the parser asks
      for more. */
  lemma ConsumeHead(w: ParserView, c: seq<Byte>, more: seq<seq<Byte>>)
    requires Inv(w)
    ensures var (w', r) := Step(w, c);
      Consume(w, [c] + more) == if r.Stop? then (w', Pushback(r.leftover) + more) else Consume(w', more)
  {
    assert ([c] + more)[0] == c && ([c] + more)[1..] == more;
  }

  /** However a well-formed client frame followed by other bytes t is split
      into non-empty chunks, the parser stops at the chunk that completes the
      frame with the frame's unmasked payload and header, and hands back t
      ahead of the chunks it did not read. */
  lemma FrameAnyChunking(v: ParserView, f: ClientFrame, t: seq<Byte>, chunks: seq<seq<Byte>>, rest: seq<seq<Byte>>)
    requires AtBoundary(v) && f.WellFormed()
    requires chunks != [] && forall i | 0 <= i < |chunks| :: chunks[i] != []
    requires Flatten(chunks) == f.Bytes() + t && |t| < |chunks[|chunks| - 1]|
    ensures var r := Consume(v, chunks + rest);
      && r == (Decoded(v, f), Pushback(t) + rest)
      && r.0.result == f.Payload() && OpcodeOf(r.0) == f.Header().opcode
      && r.0.cstate == v.cstate && r.0.state == FlagsAndPayloadData
  {
    assert After(v, f, 0) == v;
    assert (f.Bytes() + t)[0..] == f.Bytes() + t;
    ConsumeRest(v, f, t, 0, chunks, rest);
  }

  /** The frame a client builds from a server header (`send_data`) by masking
      it decodes, under any chunking, to the original opcode and payload. */
  lemma ServerFrameRoundTrip(v: ParserView, opcode: nat, payload: seq<Byte>, key: seq<Byte>,
                             chunks: seq<seq<Byte>>, rest: seq<seq<Byte>>)
    requires AtBoundary(v) && IsOpcodeKnown(opcode) && |key| == 4 && FitsSize(|payload|)
    requires chunks != [] && forall i | 0 <= i < |chunks| :: chunks[i] != []
    requires Flatten(chunks) == MaskAsClient(EncodeHeader(opcode, |payload|), payload, key).Bytes()
    ensures var r := Consume(v, chunks + rest);
      r.0.result == payload && OpcodeOf(r.0) == opcode && r.1 == rest && r.0.cstate == v.cstate
  {
    var f := MaskAsClient(EncodeHeader(opcode, |payload|), payload, key);
    EncodeHeaderRoundTrip(opcode, payload, key);
    assert f.Bytes() + [] == f.Bytes();
    FrameAnyChunking(v, f, [], chunks, rest);
  }
  /** Once the two fixed header bytes are in, the parser stops in the error
      state exactly when the header is one a server must reject; it then keeps
      the header, empties the scratch buffer and hands back the bytes after
      the two. */
  lemma HeaderCheck(v: ParserView, data: seq<Byte>)
    requires Inv(v) && v.state == FlagsAndPayloadData && v.cstate == Valid
    requires |v.buffer| + |data| >= 2
    ensures var got := v.buffer + data[..2 - |v.buffer|];
      var h := ParseHeader(got[0], got[1]);
      var r := Step(v, data);
      && r.0.header == Some(h)
      && (r.0.cstate == Error <==> IsViolation(h))
      && (IsViolation(h) ==>
            r == (v.(buffer := [], header := Some(h), cstate := Error), Stop(data[2 - |v.buffer|..])))
  {
  }

  /** A non-empty chunk that does not complete the fixed header bytes, or
      the extended length and key, is only appended to the scratch buffer;
      the parser keeps its state and asks for more. */
  lemma ShortHeaderChunk(v: ParserView, data: seq<Byte>)
    requires Inv(v) && |data| > 0
    requires || (v.state == FlagsAndPayloadData && |v.buffer| + |data| < 2)
             || (v.state == PayloadLengthAndMask && |v.buffer| + |data| < RestOfHeaderLength(v.header.value))
    ensures Step(v, data) == (v.(buffer := v.buffer + data), DontStop)
  {
  }

  /** In the payload state a chunk shorter than what remains of the payload
      is copied in at the count of bytes already received, which grows by
      its size; a longer chunk completes the frame: exactly the remaining
      bytes are taken, the rest is handed back unchanged, and the parser
      returns to the header state with the count reset. */
  lemma PayloadChunk(v: ParserView, data: seq<Byte>)
    requires Inv(v) && v.state == Payload && |v.result| >= v.payloadLength && |data| > 0
    ensures var remaining := v.payloadLength - v.consumed;
      var r := Step(v, data);
      && (|data| < remaining ==>
            && r.1 == DontStop && r.0.state == Payload && r.0.consumed == v.consumed + |data|
            && r.0.consumed < r.0.payloadLength
            && r.0.result == WriteAt(v.result, v.consumed, data))
      && (|data| >= remaining ==>
            && r.1 == Stop(data[remaining..]) && r.0.state == FlagsAndPayloadData && r.0.consumed == 0
            && r.0.result == MaskPrefix(WriteAt(v.result, v.consumed, data[..remaining]), v.payloadLength, v.maskingKey))
  {
  }

  /** Once the rest of the header is in, the payload length is the length code
      or the big-endian extended length, and the masking key's four bytes are
      the four bytes after it, in order. */
  lemma LengthAndKey(v: ParserView, data: seq<Byte>)
    requires Inv(v) && v.state == PayloadLengthAndMask
    requires |v.buffer| + |data| >= RestOfHeaderLength(v.header.value)
    ensures var got := v.buffer + data[..RestOfHeaderLength(v.header.value) - |v.buffer|];
      var ext := ExtLengthSize(v.header.value.length);
      var r := Step(v, data).0;
      && r.payloadLength == DecodedLength(v.header.value.length, got[..ext])
      && forall j | 0 <= j < 4 :: KeyByte(r.maskingKey, j) == got[ext + j]
  {
    var h := v.header.value;
    var got := v.buffer + data[..RestOfHeaderLength(h) - |v.buffer|];
    var ext := ExtLengthSize(h.length);
    var key := got[ext..ext + 4];
    StepFields(v, data, h);
    var r := Step(v, data).0;
    forall j | 0 <= j < 4 ensures KeyByte(r.maskingKey, j) == got[ext + j] {
      KeyByteOfBeUint(key, j);
    }
  }

  /** The rest of the header is the extended length followed by the key. */
  lemma FieldSplit(got: seq<Byte>, ext: nat)
    requires |got| == ext + 4
    ensures got == got[..ext] + got[ext..ext + 4]
  {
  }

  /** What one call can do to a valid parser whose last payload was taken:
      keep the payload buffer sized to the frame and ask for more, or stop for
      one of three reasons (end of stream, a rejected header, a completed
      frame whose payload buffer holds the whole payload). */
  lemma StepOutcomes(v: ParserView, data: seq<Byte>)
    requires Inv(v) && Collected(v) && v.cstate == Valid
    ensures var r := Step(v, data);
      && (r.1.DontStop? ==> Collected(r.0) && r.0.cstate == Valid)
      && (r.1.Stop? ==>
            || (|data| == 0 && r.0 == v.(cstate := Closed) && r.1.leftover == [])
            || (r.0.cstate == Error && r.0.header.Some? && IsViolation(r.0.header.value) && r.0.result == v.result)
            || (&& r.0.cstate == Valid && r.0.state == FlagsAndPayloadData && r.0.buffer == []
                && r.0.consumed == 0 && |r.0.result| == r.0.payloadLength
                && r.0.header.Some? && !IsViolation(r.0.header.value)))
  {
  }

  /** One call on a valid parser, whatever its payload buffer holds: asking
      for more keeps it valid, and a parser still valid after a stop holds a
      header that passed the checks. */
  lemma StepChecksHeader(v: ParserView, data: seq<Byte>)
    requires Inv(v) && v.cstate == Valid
    ensures var r := Step(v, data);
      && (r.1.DontStop? ==> r.0.cstate == Valid)
      && (r.1.Stop? && r.0.cstate == Valid ==> r.0.header.Some? && !IsViolation(r.0.header.value))
  {
  }

  /** Feeding a stream to a valid parser, whatever its payload buffer holds,
      leaves it either no longer valid or holding a header with a known
      opcode. */
  lemma {:induction false} ConsumeChecksHeader(v: ParserView, stream: seq<seq<Byte>>)
    requires Inv(v) && v.cstate == Valid
    ensures var r := Consume(v, stream).0;
      r.cstate == Valid ==> r.header.Some? && IsOpcodeKnown(r.header.value.opcode)
    decreases |stream|
  {
    if stream == [] {
      StepChecksHeader(v, []);
    } else {
      StepChecksHeader(v, stream[0]);
      var (v', c) := Step(v, stream[0]);
      if c.DontStop? {
        ConsumeChecksHeader(v', stream[1..]);
      }
    }
  }

  /** Feeding a stream to a valid parser whose last payload was taken: it ends
      closed, in error, or valid between two frames with a whole payload. */
  lemma {:induction false} ConsumeOutcomes(v: ParserView, stream: seq<seq<Byte>>)
    requires Inv(v) && Collected(v) && v.cstate == Valid
    ensures var r := Consume(v, stream).0;
      r.cstate == Valid ==>
        && r.state == FlagsAndPayloadData && r.buffer == [] && r.consumed == 0 && |r.result| == r.payloadLength
        && r.header.Some? && IsOpcodeKnown(r.header.value.opcode)
    decreases |stream|
  {
    if stream != [] {
      StepOutcomes(v, stream[0]);
      var (v', c) := Step(v, stream[0]);
      if c.DontStop? {
        ConsumeOutcomes(v', stream[1..]);
      }
    }
  }
}
