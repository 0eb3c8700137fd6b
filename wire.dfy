/**
 * Byte-level building blocks of the WebSocket base framing protocol
 * (section 5.2 of RFC 6455) and of its masking transform (section 5.3):
 * big-endian integers, the two fixed header bytes, the masking key, the
 * layout of a frame sent by a client, and the header the server puts in
 * front of every frame it sends (`connection::send_data`).
 */
module Wire {

  /** An octet, as `char` and `uint8_t` hold it. */
  newtype Byte = x: int | 0 <= x < 256

  datatype Option<T> = None | Some(value: T)

  /** Numeric value of a byte. */
  function Val(b: Byte): (n: nat)
    ensures n < 256
  {
    b as nat
  }

  /** The byte that storing n into a `char` or `uint8_t` keeps. */
  function Lo(n: nat): (b: Byte)
    ensures Val(b) == n % 256
  {
    (n % 256) as Byte
  }

  lemma LoVal(b: Byte)
    ensures Lo(Val(b)) == b
  {
  }

  /** 2^i for a bit position i. */
  function Pow2(i: nat): (p: nat)
    ensures p > 0
  {
    if i == 0 then 1 else 2 * Pow2(i - 1)
  }

  // ---------------------------------------------------------------------
  // Bitwise operations on octets
  // ---------------------------------------------------------------------

  /** Exclusive or of the low w bits of a and b. */
  function XorBits(a: nat, b: nat, w: nat): nat
  {
    if w == 0 then 0
    else (if a % 2 == b % 2 then 0 else 1) + 2 * XorBits(a / 2, b / 2, w - 1)
  }

  lemma {:induction false} XorBitsBound(a: nat, b: nat, w: nat)
    ensures XorBits(a, b, w) < Pow2(w)
  {
    if w > 0 {
      XorBitsBound(a / 2, b / 2, w - 1);
    }
  }

  /** Exclusive or with the same bits twice gives back the original bits. */
  lemma {:induction false} XorBitsInvolution(a: nat, k: nat, w: nat)
    requires a < Pow2(w)
    ensures XorBits(XorBits(a, k, w), k, w) == a
  {
    if w > 0 {
      var x := XorBits(a, k, w);
      assert x % 2 == (if a % 2 == k % 2 then 0 else 1) && x / 2 == XorBits(a / 2, k / 2, w - 1);
      XorBitsInvolution(a / 2, k / 2, w - 1);
    }
  }

  /** `a ^ b` on two octets. */
  function Xor(a: Byte, b: Byte): (r: Byte)
  {
    XorBitsBound(Val(a), Val(b), 8);
    XorBits(Val(a), Val(b), 8) as Byte
  }

  lemma XorInvolution(a: Byte, k: Byte)
    ensures Xor(Xor(a, k), k) == a
  {
    XorBitsBound(Val(a), Val(k), 8);
    XorBitsInvolution(Val(a), Val(k), 8);
  }

  function Pow256(w: nat): (p: nat)
    ensures p > 0
  {
    if w == 0 then 1 else 256 * Pow256(w - 1)
  }

  // ---------------------------------------------------------------------
  // Big-endian unsigned integers (`consume_be<T>` / `write_be<T>`)
  // ---------------------------------------------------------------------

  /** The unsigned integer that the bytes of s spell, most significant first. */
  function BeUint(s: seq<Byte>): nat
  {
    if s == [] then 0 else BeUint(s[..|s| - 1]) * 256 + Val(s[|s| - 1])
  }

  /** The w low-order bytes of n, most significant first. */
  function BeBytes(n: nat, w: nat): (s: seq<Byte>)
    ensures |s| == w
  {
    if w == 0 then [] else BeBytes(n / 256, w - 1) + [Lo(n)]
  }

  /** A w-byte big-endian field holds values below 256^w. */
  lemma {:induction false} BeUintBound(s: seq<Byte>)
    ensures BeUint(s) < Pow256(|s|)
  {
    if s != [] {
      BeUintBound(s[..|s| - 1]);
    }
  }

  /** Writing n in w big-endian bytes and reading them back gives n. */
  lemma {:induction false} BeRoundTrip(n: nat, w: nat)
    requires n < Pow256(w)
    ensures |BeBytes(n, w)| == w && BeUint(BeBytes(n, w)) == n
  {
    if w > 0 {
      BeRoundTrip(n / 256, w - 1);
      var s := BeBytes(n, w);
      assert s[..|s| - 1] == BeBytes(n / 256, w - 1);
    }
  }

  /** Reading a big-endian field and writing its value back in as many bytes gives the field. */
  lemma {:induction false} BeBytesOfBeUint(s: seq<Byte>)
    ensures BeBytes(BeUint(s), |s|) == s
  {
    if s != [] {
      var init, last := s[..|s| - 1], s[|s| - 1];
      BeBytesOfBeUint(init);
      assert BeUint(s) / 256 == BeUint(init);
      LoVal(last);
      assert s == init + [last];
    }
  }

  // ---------------------------------------------------------------------
  // Opcodes (section 5.2 of RFC 6455) and the two fixed header bytes
  // ---------------------------------------------------------------------

  const CONTINUATION: nat := 0x0
  const TEXT: nat := 0x1
  const BINARY: nat := 0x2
  const CLOSE: nat := 0x8
  const PING: nat := 0x9
  const PONG: nat := 0xA
  /** What `opcode()` reports before any header was read; no 4-bit opcode has this value. */
  const INVALID: nat := 0xFF

  /** Opcodes defined by section 5.2 of RFC 6455; the rest are reserved. */
  predicate IsOpcodeKnown(opcode: nat)
  {
    opcode == CONTINUATION || opcode == TEXT || opcode == BINARY
    || opcode == CLOSE || opcode == PING || opcode == PONG
  }

  /** The fields of the first two bytes of a frame. */
  datatype FrameHeader = FrameHeader(
    fin: bool, rsv1: bool, rsv2: bool, rsv3: bool, opcode: nat,
    masked: bool, length: nat)

  /** `frame_header(const char*)`: FIN, RSV1-3 and the opcode nibble from byte 0,
      the MASK bit and the 7-bit length code from byte 1. */
  function ParseHeader(b0: Byte, b1: Byte): (h: FrameHeader)
    ensures h.opcode < 16 && h.length < 128
  {
    var (fin, low7) := SplitBit(Val(b0), 0x80);
    var (rsv1, low6) := SplitBit(low7, 0x40);
    var (rsv2, low5) := SplitBit(low6, 0x20);
    var (rsv3, opcode) := SplitBit(low5, 0x10);
    var (masked, length) := SplitBit(Val(b1), 0x80);
    FrameHeader(fin, rsv1, rsv2, rsv3, opcode, masked, length)
  }

  function Flag(b: bool, weight: nat): nat
  {
    if b then weight else 0
  }

  /** The top bit of a value below twice the given power of two, and the
      value of the bits below it (`x & weight` and `x & (weight - 1)`). */
  function SplitBit(x: nat, weight: nat): (r: (bool, nat))
    ensures x == Flag(r.0, weight) + r.1
  {
    if x >= weight then (true, x - weight) else (false, x)
  }

  /** The two bytes whose fields are h, as section 5.2 of RFC 6455 lays them out. */
  function PackHeader(h: FrameHeader): seq<Byte>
  {
    [Lo(Flag(h.fin, 0x80) + Flag(h.rsv1, 0x40) + Flag(h.rsv2, 0x20) + Flag(h.rsv3, 0x10) + h.opcode),
     Lo(Flag(h.masked, 0x80) + h.length)]
  }

  /** Parsing the two header bytes loses nothing: packing the fields rebuilds them. */
  lemma ParseHeaderLossless(b0: Byte, b1: Byte)
    ensures PackHeader(ParseHeader(b0, b1)) == [b0, b1]
  {
    LoVal(b0);
    LoVal(b1);
  }

  /** Header bytes that a server must reject (section 5.1 and 5.2 of RFC 6455):
      an unmasked client frame, a reserved bit set, or an unknown opcode. */
  predicate IsViolation(h: FrameHeader)
  {
    !h.masked || h.rsv1 || h.rsv2 || h.rsv3 || !IsOpcodeKnown(h.opcode)
  }

  /** Number of extended payload length bytes the 7-bit length code announces. */
  function ExtLengthSize(code: nat): nat
  {
    if code == 126 then 2 else if code == 127 then 8 else 0
  }

  /** `get_rest_of_header_length()`: extended length bytes plus the 4 masking key bytes. */
  function RestOfHeaderLength(h: FrameHeader): (n: nat)
    ensures n == 4 || n == 6 || n == 12
  {
    4 + ExtLengthSize(h.length)
  }

  /** The payload length a length code and its extended length bytes announce. */
  function DecodedLength(code: nat, ext: seq<Byte>): nat
  {
    if code == 126 || code == 127 then BeUint(ext) else code
  }

  // ---------------------------------------------------------------------
  // Masking (section 5.3 of RFC 6455)
  // ---------------------------------------------------------------------

  /** Byte i of the result is byte i of p XOR byte (i mod 4) of the masking key. */
  function MaskBytes(p: seq<Byte>, key: seq<Byte>): (r: seq<Byte>)
    requires |key| == 4
    ensures |r| == |p|
  {
    seq(|p|, i requires 0 <= i < |p| => Xor(p[i], key[i % 4]))
  }

  /** Masking and unmasking are the same operation. */
  lemma MaskInvolution(p: seq<Byte>, key: seq<Byte>)
    requires |key| == 4
    ensures MaskBytes(MaskBytes(p, key), key) == p
  {
    var q := MaskBytes(MaskBytes(p, key), key);
    forall i | 0 <= i < |p| ensures q[i] == p[i] {
      XorInvolution(p[i], key[i % 4]);
    }
  }

  /** Byte j (0 = most significant) of a 32-bit masking key, computed as
      `(key << (j * 8)) >> 24` in 32-bit unsigned arithmetic. */
  function KeyByte(key: nat, j: nat): Byte
    requires j < 4
  {
    Lo(((key * Pow256(j)) % 0x1_0000_0000) / 0x100_0000)
  }

  lemma BeUint4(k: seq<Byte>)
    requires |k| == 4
    ensures BeUint(k) == Val(k[0]) * 0x100_0000 + Val(k[1]) * 0x1_0000 + Val(k[2]) * 0x100 + Val(k[3])
  {
    assert k[..1][..0] == [];
    assert BeUint(k[..1]) == Val(k[0]);
    assert k[..2][..1] == k[..1];
    assert BeUint(k[..2]) == Val(k[0]) * 0x100 + Val(k[1]);
    assert k[..3][..2] == k[..2];
    assert BeUint(k[..3]) == Val(k[0]) * 0x1_0000 + Val(k[1]) * 0x100 + Val(k[2]);
    assert k[..3] == k[..|k| - 1];
  }

  lemma SplitWord(q: nat, r: nat)
    requires r < 0x1_0000_0000
    ensures (q * 0x1_0000_0000 + r) % 0x1_0000_0000 == r
  {
  }

  lemma TopByte(x: nat, r: nat)
    requires x < 256 && r < 0x100_0000
    ensures (x * 0x100_0000 + r) / 0x100_0000 == x
  {
  }

  lemma KeyDigits(a: nat, b: nat, c: nat, d: nat, j: nat)
    requires a < 256 && b < 256 && c < 256 && d < 256 && j < 4
    ensures var key := a * 0x100_0000 + b * 0x1_0000 + c * 0x100 + d;
            ((key * Pow256(j)) % 0x1_0000_0000) / 0x100_0000 == [a, b, c, d][j]
  {
    var key := a * 0x100_0000 + b * 0x1_0000 + c * 0x100 + d;
    assert Pow256(1) == 0x100 && Pow256(2) == 0x1_0000 && Pow256(3) == 0x100_0000;
    if j == 0 {
      SplitWord(0, key);
      TopByte(a, b * 0x1_0000 + c * 0x100 + d);
    } else if j == 1 {
      assert key * 0x100 == a * 0x1_0000_0000 + (b * 0x100_0000 + c * 0x1_0000 + d * 0x100);
      SplitWord(a, b * 0x100_0000 + c * 0x1_0000 + d * 0x100);
      TopByte(b, c * 0x1_0000 + d * 0x100);
    } else if j == 2 {
      assert key * 0x1_0000 == (a * 0x100 + b) * 0x1_0000_0000 + (c * 0x100_0000 + d * 0x1_0000);
      SplitWord(a * 0x100 + b, c * 0x100_0000 + d * 0x1_0000);
      TopByte(c, d * 0x1_0000);
    } else {
      assert key * 0x100_0000 == (a * 0x1_0000 + b * 0x100 + c) * 0x1_0000_0000 + d * 0x100_0000;
      SplitWord(a * 0x1_0000 + b * 0x100 + c, d * 0x100_0000);
      TopByte(d, 0);
    }
  }

  /** Reading the 4 key bytes as a big-endian 32-bit value and shifting byte j
      back out returns key byte j as it was on the wire. */
  lemma KeyByteOfBeUint(k: seq<Byte>, j: nat)
    requires |k| == 4 && j < 4
    ensures KeyByte(BeUint(k), j) == k[j]
  {
    BeUint4(k);
    KeyDigits(Val(k[0]), Val(k[1]), Val(k[2]), Val(k[3]), j);
    assert [Val(k[0]), Val(k[1]), Val(k[2]), Val(k[3])][j] == Val(k[j]);
    LoVal(k[j]);
  }

  // ---------------------------------------------------------------------
  // A frame as a client sends it
  // ---------------------------------------------------------------------

  /** The regions of a client frame: two fixed header bytes, the extended
      length, the masking key and the masked payload. */
  datatype ClientFrame = ClientFrame(b0: Byte, b1: Byte, ext: seq<Byte>, key: seq<Byte>, body: seq<Byte>)
  {
    function Header(): FrameHeader
    {
      ParseHeader(b0, b1)
    }

    /** A frame a server accepts whose regions have the sizes its header announces. */
    predicate WellFormed()
    {
      && !IsViolation(Header())
      && |ext| == ExtLengthSize(Header().length)
      && |key| == 4
      && |body| == DecodedLength(Header().length, ext)
    }

    function Bytes(): seq<Byte>
    {
      [b0, b1] + ext + key + body
    }

    /** Size of everything before the payload. */
    function HeaderSize(): nat
    {
      6 + |ext|
    }

    /** The application payload the frame carries. */
    function Payload(): seq<Byte>
      requires |key| == 4
    {
      MaskBytes(body, key)
    }
  }

  // ---------------------------------------------------------------------
  // The header a server puts in front of a frame (`connection::send_data`)
  // ---------------------------------------------------------------------

  /** Header bytes for a frame with the given opcode and payload size. */
  function EncodeHeader(opcode: nat, n: nat): seq<Byte>
  {
    var b0 := Lo(0x80 + opcode);
    if 126 <= n && n <= 0xFFFF then [b0, 0x7E] + BeBytes(n, 2)
    else if 0xFFFF < n then [b0, 0x7F] + BeBytes(n, 8)
    else [b0, Lo(n)]
  }

  /** Fills the 10-byte header array in place and returns it with the number
      of bytes in use. */
  method FillHeader(opcode: nat, n: nat) returns (header: array<Byte>, headerSize: nat)
    ensures header.Length == 10 && headerSize <= 10
    ensures header[..headerSize] == EncodeHeader(opcode, n)
  {
    header := new Byte[10](_ => 0);
    header[0] := 0x80;
    headerSize := 2;
    header[0] := Lo(Val(header[0]) + opcode);
    if 126 <= n && n <= 0xFFFF {
      header[1] := 0x7E;
      var be := BeBytes(n, 2);
      forall i | 0 <= i < 2 {
        header[2 + i] := be[i];
      }
      headerSize := headerSize + 2;
      assert header[..headerSize] == [header[0], header[1]] + be;
    } else if 0xFFFF < n {
      header[1] := 0x7F;
      var be := BeBytes(n, 8);
      forall i | 0 <= i < 8 {
        header[2 + i] := be[i];
      }
      headerSize := headerSize + 8;
      assert header[..headerSize] == [header[0], header[1]] + be;
    } else {
      header[1] := Lo(n);
    }
  }

  /** Payload sizes below 2^64 (`size_t`). */
  predicate FitsSize(n: nat)
  {
    n < 0x1_0000_0000_0000_0000
  }

  lemma SmallByte(b: Byte)
    requires Val(b) < 128
    ensures SplitBit(Val(b), 0x80) == (false, Val(b))
  {
  }

  /** `b | 0x80`: the byte with its top bit set. */
  function WithTopBit(b: Byte): (r: Byte)
  {
    if Val(b) >= 0x80 then b else b + 0x80
  }

  lemma SetMaskBit(b: Byte)
    ensures SplitBit(Val(WithTopBit(b)), 0x80) == (true, SplitBit(Val(b), 0x80).1)
  {
  }

  /** Byte 0 of a server header: FIN set, reserved bits clear, the opcode in the low nibble. */
  lemma FirstHeaderByte(opcode: nat, b1: Byte)
    requires opcode < 16
    ensures var h := ParseHeader(Lo(0x80 + opcode), b1);
      h.fin && !h.rsv1 && !h.rsv2 && !h.rsv3 && h.opcode == opcode
  {
    var b0 := Lo(0x80 + opcode);
    assert Val(b0) == 0x80 + opcode;
  }

  lemma Pow256Values()
    ensures Pow256(2) == 0x1_0000 && Pow256(8) == 0x1_0000_0000_0000_0000
  {
    assert Pow256(4) == 0x1_0000_0000;
  }

  /** The length part of a server header: 7-bit inline up to 125, 16-bit up
      to 65535, 64-bit beyond. */
  lemma LengthForms(opcode: nat, n: nat)
    requires FitsSize(n)
    ensures var h := EncodeHeader(opcode, n);
      && |h| >= 2 && Val(h[1]) < 128
      && (n <= 125 ==> |h| == 2 && Val(h[1]) == n)
      && (126 <= n <= 0xFFFF ==> |h| == 4 && h[1] == 0x7E && BeUint(h[2..]) == n)
      && (0xFFFF < n ==> |h| == 10 && h[1] == 0x7F && BeUint(h[2..]) == n)
  {
    var h := EncodeHeader(opcode, n);
    Pow256Values();
    if 126 <= n <= 0xFFFF {
      BeRoundTrip(n, 2);
      assert h[2..] == BeBytes(n, 2);
    } else if 0xFFFF < n {
      BeRoundTrip(n, 8);
      assert h[2..] == BeBytes(n, 8);
    }
  }

  /** The three length forms of a server header; byte 0 carries FIN and the
      opcode, and the MASK bit is never set. */
  lemma EncodeHeaderForms(opcode: nat, n: nat)
    requires opcode < 16 && FitsSize(n)
    ensures var h := EncodeHeader(opcode, n);
      && |h| >= 2 && ParseHeader(h[0], h[1]) == FrameHeader(true, false, false, false, opcode, false, Val(h[1]))
      && (n <= 125 ==> |h| == 2 && Val(h[1]) == n)
      && (126 <= n <= 0xFFFF ==> |h| == 4 && h[1] == 0x7E && BeUint(h[2..]) == n)
      && (0xFFFF < n ==> |h| == 10 && h[1] == 0x7F && BeUint(h[2..]) == n)
  {
    var h := EncodeHeader(opcode, n);
    LengthForms(opcode, n);
    FirstHeaderByte(opcode, h[1]);
    SmallByte(h[1]);
  }

  /** What a client does to a server-style frame to send it: set the MASK bit,
      insert the masking key after the extended length and mask the payload. */
  function MaskAsClient(header: seq<Byte>, payload: seq<Byte>, key: seq<Byte>): ClientFrame
    requires |header| >= 2 && |key| == 4
  {
    ClientFrame(header[0], WithTopBit(header[1]), header[2..], key, MaskBytes(payload, key))
  }

  /** A server header with the MASK bit set announces the original opcode and size. */
  lemma MaskedServerHeader(opcode: nat, n: nat)
    requires opcode < 16 && FitsSize(n)
    ensures var h := EncodeHeader(opcode, n);
      && |h| >= 2
      && ParseHeader(h[0], WithTopBit(h[1])) == FrameHeader(true, false, false, false, opcode, true, Val(h[1]))
      && |h| - 2 == ExtLengthSize(Val(h[1]))
      && DecodedLength(Val(h[1]), h[2..]) == n
  {
    var h := EncodeHeader(opcode, n);
    EncodeHeaderForms(opcode, n);
    SetMaskBit(h[1]);
  }

  /** Round trip: a frame built with the server's header, masked as a client
      would, is a well-formed client frame carrying the original opcode, FIN,
      and payload. */
  lemma EncodeHeaderRoundTrip(opcode: nat, payload: seq<Byte>, key: seq<Byte>)
    requires IsOpcodeKnown(opcode) && |key| == 4 && FitsSize(|payload|)
    ensures var f := MaskAsClient(EncodeHeader(opcode, |payload|), payload, key);
      && f.WellFormed()
      && f.Header().fin && f.Header().opcode == opcode
      && f.Payload() == payload
  {
    MaskedServerHeader(opcode, |payload|);
    MaskInvolution(payload, key);
  }
}
