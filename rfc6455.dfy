/** The base framing of RFC 6455, section 5.2: a first byte with the FIN,
    RSV1-3 bits and the opcode, a length indicator carrying the MASK bit,
    an optional 16-bit or 64-bit extended length, an optional four-byte
    masking key, and the payload. Also a reader of that layout, used to
    state what a receiver recovers from the encoder's bytes. */
module Rfc6455 {
  import opened Wrappers
  import opened Bytes
  import opened Masking

  /** The fields of the first byte of a frame. The opcode is the caller's
      value, which need not fit in four bits. */
  datatype FirstByte = FirstByte(fin: bool, rsv1: bool, rsv2: bool, rsv3: bool, opcode: int)

  /** The first byte: FIN, RSV1, RSV2, RSV3 from the top bit down, then the
      low four bits of the opcode. The five fields occupy disjoint bits, so
      OR-ing them together is adding them. */
  function HeaderByte(h: FirstByte): (b: byte)
    ensures ReadFirstByte(b) == h.(opcode := h.opcode % 0x10)
  {
    HeaderBits(Bit(h.fin), Bit(h.rsv1), Bit(h.rsv2), Bit(h.rsv3), h.opcode % 0x10);
    (0x80 * Bit(h.fin) + 0x40 * Bit(h.rsv1) + 0x20 * Bit(h.rsv2) + 0x10 * Bit(h.rsv3) + h.opcode % 0x10) as byte
  }

  /** 1 for a set flag, 0 otherwise. */
  function Bit(flag: bool): (d: nat)
    ensures d < 2 && (d == 1 <==> flag)
  {
    if flag then 1 else 0
  }

  /** Four one-bit fields above a four-bit field: each is recovered by
      dividing by its place value and keeping the lowest bit. */
  lemma HeaderBits(f: nat, r1: nat, r2: nat, r3: nat, low: nat)
    requires f < 2 && r1 < 2 && r2 < 2 && r3 < 2 && low < 0x10
    ensures var b := 0x80 * f + 0x40 * r1 + 0x20 * r2 + 0x10 * r3 + low;
      && b < 0x100
      && (b / 0x80) % 2 == f && (b / 0x40) % 2 == r1 && (b / 0x20) % 2 == r2
      && (b / 0x10) % 2 == r3 && b % 0x10 == low
  {
    var b := 0x80 * f + 0x40 * r1 + 0x20 * r2 + 0x10 * r3 + low;
    ModOfDecomposition(b, 0x80, f, 0x40 * r1 + 0x20 * r2 + 0x10 * r3 + low);
    ModOfDecomposition(b, 0x40, 2 * f + r1, 0x20 * r2 + 0x10 * r3 + low);
    ModOfDecomposition(b, 0x20, 4 * f + 2 * r1 + r2, 0x10 * r3 + low);
    ModOfDecomposition(b, 0x10, 8 * f + 4 * r1 + 2 * r2 + r3, low);
  }

  /** The MASK bit of the second byte. */
  function MaskBit(masked: bool): nat {
    if masked then 0x80 else 0x00
  }

  /** How many extended-length bytes follow the second byte. */
  function ExtendedLengthSize(n: nat): nat {
    if n < 126 then 0 else if n < 65536 then 2 else 8
  }

  /** The seven-bit payload length of the second byte: the length itself, or
      126 or 127 announcing a 16-bit or 64-bit extended length. */
  function LengthIndicator(n: nat): (ind: nat)
    ensures ind < 128
  {
    if n < 126 then n else if n < 65536 then 126 else 127
  }

  /** The second byte with the MASK bit and the length indicator, followed
      by the extended length in network byte order. A 64-bit length keeps
      the low 64 bits of `n`. */
  function LengthField(n: nat, masked: bool): (r: seq<byte>)
    ensures |r| == 1 + ExtendedLengthSize(n)
  {
    if n < 126 then [(n + MaskBit(masked)) as byte]
    else if n < 65536 then [(126 + MaskBit(masked)) as byte] + BigEndian(n, 2)
    else [(127 + MaskBit(masked)) as byte] + BigEndian(n, 8)
  }

  /** The top bit of the second byte is set exactly when the frame is
      masked, and the seven bits below it hold the length indicator. */
  lemma SecondByteBits(n: nat, masked: bool)
    ensures var second := LengthField(n, masked)[0];
      && (second >= 0x80 <==> masked)
      && second % 0x80 == LengthIndicator(n) as byte
  {
    var second := LengthField(n, masked)[0];
    assert second as int == MaskBit(masked) + LengthIndicator(n);
    ModOfDecomposition(second as int, 0x80, MaskBit(masked) / 0x80, LengthIndicator(n));
  }

  /** What the second byte and the extended length announce, and how many
      bytes they take. */
  datatype LengthHeader = LengthHeader(masked: bool, length: nat, size: nat)

  /** Reads the MASK bit and the payload length at the start of `b`. */
  function DecodeLength(b: seq<byte>): (r: Option<LengthHeader>)
    ensures r.Some? ==> 1 <= r.value.size <= |b|
  {
    if |b| == 0 then None
    else
      var masked := b[0] / 0x80 == 1;
      var indicator := (b[0] % 0x80) as nat;
      if indicator < 126 then Some(LengthHeader(masked, indicator, 1))
      else if indicator == 126 then
        if |b| < 3 then None else Some(LengthHeader(masked, FromBigEndian(b[1..3]), 3))
      else
        if |b| < 9 then None else Some(LengthHeader(masked, FromBigEndian(b[1..9]), 9))
  }

  /** Every length below 2^64 reads back from its length field, with the
      MASK bit, whatever follows the field. */
  lemma LengthFieldRoundTrip(n: nat, masked: bool, rest: seq<byte>)
    requires n < Pow256(8)
    ensures DecodeLength(LengthField(n, masked) + rest) == Some(LengthHeader(masked, n, 1 + ExtendedLengthSize(n)))
  {
    var field := LengthField(n, masked);
    var b := field + rest;
    assert b[0] == field[0];
    if 126 <= n < 65536 {
      assert b[1..3] == BigEndian(n, 2);
      assert Pow256(2) == 65536;
      BigEndianExact(n, 2);
    } else if n >= 65536 {
      assert b[1..9] == BigEndian(n, 8);
      BigEndianExact(n, 8);
    }
  }

  /** The boundaries between the three length encodings. */
  lemma LengthBoundaries()
    ensures LengthField(125, false) == [125]
    ensures LengthField(126, false) == [126, 0x00, 126]
    ensures LengthField(65535, false) == [126, 0xff, 0xff]
    ensures LengthField(65536, true) == [0xff, 0x00, 0x00, 0x00, 0x00, 0x00, 0x01, 0x00, 0x00]
  {
  }

  /** The payload bytes on the wire: masked with the key when the frame is masked. */
  function Working(payload: seq<byte>, masked: bool, mask: seq<byte>): (r: seq<byte>)
    requires |mask| == 4
    ensures |r| == |payload|
  {
    if masked then ApplyMask(payload, mask) else payload
  }

  /** A frame on the wire: first byte, length field, the masking key when
      masked, and the (masked) payload when `emit` holds. */
  function Wire(h: FirstByte, masked: bool, mask: seq<byte>, payload: seq<byte>, emit: bool): seq<byte>
    requires |mask| == 4
  {
    [HeaderByte(h)] + LengthField(|payload|, masked)
    + (if masked then mask else []) + (if emit then Working(payload, masked, mask) else [])
  }

  /** The size of a frame: two bytes, the extended length, the key and the
      payload that is sent. */
  lemma WireLength(h: FirstByte, masked: bool, mask: seq<byte>, payload: seq<byte>, emit: bool)
    requires |mask| == 4
    ensures |Wire(h, masked, mask, payload, emit)|
         == 2 + ExtendedLengthSize(|payload|) + (if masked then 4 else 0) + (if emit then |payload| else 0)
  {
  }

  /** The fields of a first byte as a receiver reads them. */
  function ReadFirstByte(b: byte): FirstByte {
    FirstByte((b / 0x80) % 2 == 1, (b / 0x40) % 2 == 1, (b / 0x20) % 2 == 1, (b / 0x10) % 2 == 1,
              (b % 0x10) as int)
  }

  /** What follows the first byte, as a receiver reads it: the MASK bit, the
      masking key (empty when unmasked) and the unmasked payload. */
  datatype Body = Body(masked: bool, mask: seq<byte>, payload: seq<byte>)

  /** A frame as a receiver reads it. */
  datatype ReceivedFrame = ReceivedFrame(first: FirstByte, body: Body)

  /** Reads the length field, the key and the payload from `b`, which must
      hold exactly the announced payload; None otherwise. */
  function ParseBody(b: seq<byte>): Option<Body> {
    match DecodeLength(b)
    case None => None
    case Some(header) =>
      var rest := b[header.size..];
      var keySize := if header.masked then 4 else 0;
      if |rest| != keySize + header.length then None
      else
        var key := rest[..keySize];
        var data := rest[keySize..];
        Some(Body(header.masked, key, if header.masked then ApplyMask(data, key) else data))
  }

  /** Reads exactly one frame from `w`, unmasking its payload; None when the
      bytes are not one whole frame. */
  function ParseFrame(w: seq<byte>): Option<ReceivedFrame> {
    if |w| == 0 then None
    else
      match ParseBody(w[1..])
      case None => None
      case Some(body) => Some(ReceivedFrame(ReadFirstByte(w[0]), body))
  }

  /** Everything after the first byte reads back: the MASK bit, the key and
      the unmasked payload. */
  lemma BodyRoundTrip(masked: bool, mask: seq<byte>, payload: seq<byte>)
    requires |mask| == 4 && |payload| < Pow256(8)
    ensures var key := if masked then mask else [];
      ParseBody(LengthField(|payload|, masked) + (key + Working(payload, masked, mask)))
      == Some(Body(masked, key, payload))
  {
    var field := LengthField(|payload|, masked);
    var key := if masked then mask else [];
    var sent := Working(payload, masked, mask);
    LengthFieldRoundTrip(|payload|, masked, key + sent);
    assert (field + (key + sent))[|field|..] == key + sent;
    assert (key + sent)[..|key|] == key;
    assert (key + sent)[|key|..] == sent;
    if masked {
      MaskInvolution(payload, mask);
    }
  }

  /** A receiver recovers every field of a frame that carries its payload:
      the flags, the low four opcode bits, the MASK bit and key, and the
      unmasked payload. */
  lemma FrameRoundTrip(h: FirstByte, masked: bool, mask: seq<byte>, payload: seq<byte>)
    requires |mask| == 4 && |payload| < Pow256(8)
    ensures ParseFrame(Wire(h, masked, mask, payload, true))
         == Some(ReceivedFrame(h.(opcode := h.opcode % 0x10),
                               Body(masked, if masked then mask else [], payload)))
  {
    var field := LengthField(|payload|, masked);
    var key := if masked then mask else [];
    var sent := Working(payload, masked, mask);
    assert Wire(h, masked, mask, payload, true) == [HeaderByte(h)] + (field + (key + sent));
    ParseFrameSplit(HeaderByte(h), field + (key + sent));
    BodyRoundTrip(masked, mask, payload);
  }

  /** A frame is read as its first byte and then its body. */
  lemma ParseFrameSplit(first: byte, rest: seq<byte>)
    ensures ParseFrame([first] + rest)
         == match ParseBody(rest)
            case None => None
            case Some(body) => Some(ReceivedFrame(ReadFirstByte(first), body))
  {
    assert ([first] + rest)[1..] == rest;
  }

  /** A frame whose payload is withheld still announces the payload's
      length, so no receiver can read it as one frame. */
  lemma WithheldPayloadUnreadable(h: FirstByte, masked: bool, mask: seq<byte>, payload: seq<byte>)
    requires |mask| == 4 && 0 < |payload| < Pow256(8)
    ensures ParseFrame(Wire(h, masked, mask, payload, false)) == None
  {
    var field := LengthField(|payload|, masked);
    var key := if masked then mask else [];
    assert Wire(h, masked, mask, payload, false) == [HeaderByte(h)] + (field + key);
    ParseFrameSplit(HeaderByte(h), field + key);
    LengthFieldRoundTrip(|payload|, masked, key);
    assert (field + key)[|field|..] == key;
  }

  /** A close payload that opens with a 16-bit status code: the first two
      bytes on the wire unmask to the code, and the remaining bytes unmask
      with the key rotated by two places to the reason. */
  lemma CloseCodeRecoverable(code: nat, reason: seq<byte>, masked: bool, mask: seq<byte>)
    requires code < 65536 && |mask| == 4
    ensures var sent := Working(BigEndian(code, 2) + reason, masked, mask);
      && FromBigEndian(Working(sent[..2], masked, mask)) == code
      && Working(sent[2..], masked, if masked then Rotate(mask, 2) else mask) == reason
  {
    var payload := BigEndian(code, 2) + reason;
    var sent := Working(payload, masked, mask);
    assert payload[..2] == BigEndian(code, 2);
    assert payload[2..] == reason;
    if masked {
      MaskPrefix(payload, mask, 2);
      MaskInvolution(payload[..2], mask);
      MaskSuffix(payload, mask, 2);
      MaskInvolution(payload[2..], Rotate(mask, 2));
    }
    assert Pow256(2) == 65536;
    BigEndianExact(code, 2);
  }
}
