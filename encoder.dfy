/** The frame assembler: turns a frame description into the ordered list of
    labelled sections whose bytes, one after the other, are the frame. */
module Encoder {
  import opened Wrappers
  import opened Bytes
  import opened Masking
  import opened Compression
  import opened Rfc6455
  import opened Sequences

  /** The largest integer a JavaScript number holds exactly, 2^53 - 1. */
  const MaxSafeInteger: nat := 9007199254740991

  /** A frame description with the assembler's defaults: a final, masked,
      uncompressed text frame without a close code. */
  datatype FrameOptions = FrameOptions(
    payload: Option<seq<byte>>,
    opcode: int := 1,
    fin: bool := true,
    rsv1: bool := false,
    rsv2: bool := false,
    rsv3: bool := false,
    masked: bool := true,
    compressed: bool := false,
    closeCode: Option<int> := None)

  datatype SectionKind =
    | Header | Length | ExtendedLengthInfo | ExtendedLength
    | MaskingKey | Payload | CloseCode | CloseReason

  datatype CompressionInfo = CompressionInfo(originalLength: nat, compressedLength: nat)

  /** What each kind of section reports about itself besides its bytes. */
  datatype Details =
    | HeaderDetails(fin: bool, rsv1: bool, rsv2: bool, rsv3: bool, opcode: int, opcodeName: string)
    | LengthDetails(masked: bool, payloadLength: nat)
    | LengthInfoDetails(masked: bool, firstSevenLenBits: nat)
    | MaskDetails(mask: seq<byte>)
    | CloseCodeDetails(closeCodeValue: int, payloadLength: nat, masked: bool)
    | CloseReasonDetails(payloadLength: nat, originalBytes: seq<byte>, masked: bool)
    | PayloadDetails(payloadLength: nat, originalLength: nat, originalBytes: seq<byte>,
                     masked: bool, compressionInfo: Option<CompressionInfo>)

  datatype Section = Section(kind: SectionKind, bytes: seq<byte>, originalBytes: Option<seq<byte>>, details: Details)

  datatype FrameDetails = FrameDetails(
    fin: bool, rsv1: bool, rsv2: bool, rsv3: bool, opcode: int, masked: bool,
    mask: Option<seq<byte>>, payloadLength: nat, originalPayloadLength: nat)

  datatype EncodedFrame = EncodedFrame(sections: seq<Section>, details: FrameDetails)

  datatype FrameError = PayloadRequired | PayloadTooLarge

  /** The name of an opcode; every value outside the six defined opcodes is
      "Unknown". */
  function OpName(op: int): (name: string)
    ensures name == "Unknown" <==> op !in {0, 1, 2, 8, 9, 10}
  {
    match op
    case 0 => "Continuation"
    case 1 => "Text"
    case 2 => "Binary"
    case 8 => "Close"
    case 9 => "Ping"
    case 10 => "Pong"
    case _ => "Unknown"
  }

  /** The opcode a defined name stands for. */
  function OpcodeNamed(name: string): Option<int> {
    if name == "Continuation" then Some(0)
    else if name == "Text" then Some(1)
    else if name == "Binary" then Some(2)
    else if name == "Close" then Some(8)
    else if name == "Ping" then Some(9)
    else if name == "Pong" then Some(10)
    else None
  }

  /** Distinct defined opcodes have distinct names: each name leads back to
      its opcode, and "Unknown" to none. */
  lemma OpNameInvertible(op: int)
    ensures OpcodeNamed(OpName(op)) == (if op in {0, 1, 2, 8, 9, 10} then Some(op) else None)
  {
  }

  /** Data frames, by the raw opcode: the continuation, text and binary
      frames, and no control frame. */
  predicate IsData(op: int): (data: bool)
    ensures data <==> OpName(op) in {"Continuation", "Text", "Binary"}
    ensures data ==> !IsControl(op)
  {
    op == 0 || op == 1 || op == 2
  }

  /** Control frames, by the raw opcode. For a four-bit opcode these are the
      ones with the top bit set, as section 5.5 of RFC 6455 defines them. */
  predicate IsControl(op: int): (control: bool)
    ensures 0 <= op < 0x10 ==> (control <==> (op / 8) % 2 == 1)
  {
    op >= 8
  }

  /** A close code counts only when it is present and not zero, as
      JavaScript's truthiness treats `null` and `0`. */
  predicate Truthy(closeCode: Option<int>): (truthy: bool)
    ensures truthy <==> closeCode != None && closeCode != Some(0)
  {
    closeCode.Some? && closeCode.value != 0
  }

  /** The payload is written out for non-control frames and close frames,
      and only when it is not empty: never for ping and pong. */
  predicate PayloadEmitted(op: int, n: nat): (emitted: bool)
    ensures emitted <==> op <= 8 && n > 0
    ensures op == 9 || op == 10 ==> !emitted
  {
    (!IsControl(op) || op == 8) && n > 0
  }

  /** A ping that carries a payload: the payload is not sent, but its length
      is still announced, so an unmasked ping with payload 01 02 03 goes on
      the wire as 89 03. */
  lemma PingDropsPayload(mask: seq<byte>)
    requires |mask| == 4
    ensures !PayloadEmitted(9, 3)
    ensures Wire(FirstByte(true, false, false, false, 9), false, mask, [1, 2, 3], PayloadEmitted(9, 3)) == [0x89, 0x03]
  {
    assert HeaderByte(FirstByte(true, false, false, false, 9)) == 0x89;
  }

  /** The payload after compression, which applies only to data frames that
      ask for it. */
  function FinalPayload(o: FrameOptions, codec: Codec): (r: seq<byte>)
    requires o.payload.Some?
    ensures !(o.compressed && IsData(o.opcode)) ==> r == o.payload.value
  {
    if o.compressed && IsData(o.opcode) then Compress(codec, o.payload.value) else o.payload.value
  }

  /** The compression report: present exactly when the payload was
      compressed, and then holding its lengths before and after. */
  function CompressionInfoOf(o: FrameOptions, codec: Codec): (r: Option<CompressionInfo>)
    requires o.payload.Some?
    ensures r.Some? <==> o.compressed && IsData(o.opcode)
    ensures r.Some? ==> r.value == CompressionInfo(|o.payload.value|, |FinalPayload(o, codec)|)
  {
    if o.compressed && IsData(o.opcode)
    then Some(CompressionInfo(|o.payload.value|, |Compress(codec, o.payload.value)|))
    else None
  }

  function FirstByteOf(o: FrameOptions): FirstByte {
    FirstByte(o.fin, o.rsv1, o.rsv2, o.rsv3, o.opcode)
  }

  /** The first `k` bytes, or all of them when there are fewer. */
  function Take(s: seq<byte>, k: nat): (r: seq<byte>)
    ensures |r| == if |s| <= k then |s| else k
  {
    if |s| <= k then s else s[..k]
  }

  /** The bytes after the first `k`, empty when there are no more. */
  function Drop(s: seq<byte>, k: nat): (r: seq<byte>)
    ensures |r| == if |s| <= k then 0 else |s| - k
  {
    if |s| <= k then [] else s[k..]
  }

  /** The close code and reason sections between them hold the whole payload. */
  lemma TakeDropSplit(s: seq<byte>, k: nat)
    ensures Take(s, k) + Drop(s, k) == s
  {
    if k < |s| {
      assert s[..k] + s[k..] == s;
    }
  }

  function Kinds(sections: seq<Section>): (r: seq<SectionKind>)
    ensures |r| == |sections|
  {
    seq(|sections|, i requires 0 <= i < |sections| => sections[i].kind)
  }

  /** The frame's bytes: those of its sections, one after the other. */
  function Concat(sections: seq<Section>): seq<byte> {
    if |sections| == 0 then []
    else Concat(sections[..|sections| - 1]) + sections[|sections| - 1].bytes
  }

  lemma ConcatPush(sections: seq<Section>, s: Section)
    ensures Concat(sections + [s]) == Concat(sections) + s.bytes
  {
    assert (sections + [s])[..|sections|] == sections;
  }

  lemma KindsPush(sections: seq<Section>, s: Section)
    ensures Kinds(sections + [s]) == Kinds(sections) + [s.kind]
  {
  }

  /** The kinds of section a frame has, in order, for a final payload of
      `n` bytes. */
  function SectionKinds(o: FrameOptions, n: nat): seq<SectionKind> {
    [Header] + LengthKinds(n) + (if o.masked then [MaskingKey] else []) + PayloadKinds(o, n)
  }

  function LengthKinds(n: nat): seq<SectionKind> {
    if n < 126 then [Length] else [ExtendedLengthInfo, ExtendedLength]
  }

  function PayloadKinds(o: FrameOptions, n: nat): seq<SectionKind> {
    if !PayloadEmitted(o.opcode, n) then []
    else if o.opcode == 8 && Truthy(o.closeCode) then [CloseCode] + (if n > 2 then [CloseReason] else [])
    else [Payload]
  }

  /** What the assembler derives from the options before it writes any
      section: the payload after compression, the compression report and
      the opcode's name. */
  datatype Derived = Derived(final: seq<byte>, info: Option<CompressionInfo>, opcodeName: string)

  function DerivedOf(o: FrameOptions, codec: Codec): Derived
    requires o.payload.Some?
  {
    Derived(FinalPayload(o, codec), CompressionInfoOf(o, codec), OpName(o.opcode))
  }

  /** What a section of each kind holds for the frame `o` masked with `mask`,
      given what was derived from `o`. */
  ghost predicate SectionAgrees(o: FrameOptions, mask: seq<byte>, d: Derived, s: Section)
    requires o.payload.Some? && |mask| == 4
  {
    var payload := o.payload.value;
    var final := d.final;
    var n := |final|;
    var field := LengthField(n, o.masked);
    var sent := Working(final, o.masked, mask);
    match s.kind
    case Header =>
      s == Section(Header, [HeaderByte(FirstByteOf(o))], None,
                   HeaderDetails(o.fin, o.rsv1, o.rsv2, o.rsv3, o.opcode, d.opcodeName))
    case Length =>
      s == Section(Length, field, None, LengthDetails(o.masked, n))
    case ExtendedLengthInfo =>
      s == Section(ExtendedLengthInfo, field[..1], None, LengthInfoDetails(o.masked, LengthIndicator(n)))
    case ExtendedLength =>
      s == Section(ExtendedLength, field[1..], None, LengthDetails(o.masked, n))
    case MaskingKey =>
      s == Section(MaskingKey, mask, None, MaskDetails(mask))
    case CloseCode =>
      o.closeCode.Some? && s == Section(CloseCode, Take(sent, 2), Some(Take(final, 2)),
                   CloseCodeDetails(o.closeCode.value, |Take(sent, 2)|, o.masked))
    case CloseReason =>
      s == Section(CloseReason, Drop(sent, 2), Some(Drop(final, 2)),
                   CloseReasonDetails(|Drop(sent, 2)|, Drop(payload, 2), o.masked))
    case Payload =>
      s == Section(Payload, sent, Some(final), PayloadDetails(n, |payload|, payload, o.masked, d.info))
  }

  /** A frame has a masking-key section exactly when it is masked, whether
      or not a payload follows. */
  lemma MaskingKeyIffMasked(o: FrameOptions, n: nat)
    ensures MaskingKey in SectionKinds(o, n) <==> o.masked
  {
    var kinds := SectionKinds(o, n);
    if !o.masked {
      assert kinds == [Header] + LengthKinds(n) + PayloadKinds(o, n);
      assert MaskingKey !in LengthKinds(n) && MaskingKey !in PayloadKinds(o, n);
    } else {
      assert kinds[1 + |LengthKinds(n)|] == MaskingKey;
    }
  }

  /** When the caller packs the close code big-endian into the first two
      bytes of the payload, the close-code section's original bytes are
      those two bytes, and its bytes on the wire unmask to the code. */
  lemma CloseCodeSectionReadsBack(o: FrameOptions, mask: seq<byte>, d: Derived, s: Section,
                                  code: nat, reason: seq<byte>)
    requires o.payload.Some? && |mask| == 4 && code < 65536
    requires d.final == BigEndian(code, 2) + reason
    requires s.kind == CloseCode && SectionAgrees(o, mask, d, s)
    ensures s.originalBytes == Some(BigEndian(code, 2))
    ensures FromBigEndian(Working(s.bytes, o.masked, mask)) == code
    ensures s.details.closeCodeValue == o.closeCode.value
  {
    var sent := Working(d.final, o.masked, mask);
    assert Take(d.final, 2) == BigEndian(code, 2) by {
      assert d.final[..2] == BigEndian(code, 2);
    }
    assert Take(sent, 2) == sent[..2];
    CloseCodeRecoverable(code, reason, o.masked, mask);
  }

  /** `n` shifted right by `i` whole bytes. */
  function ShiftBytes(n: nat, i: nat): nat {
    if i == 0 then n else ShiftBytes(n, i - 1) / 256
  }

  /** The 64-bit extended length, most significant byte first, taking
      one byte of the length per round. */
  method Uint64BigEndian(n: nat) returns (lengthBytes: seq<byte>)
    ensures lengthBytes == BigEndian(n, 8)
  {
    lengthBytes := [];
    for i := 8 downto 0
      invariant lengthBytes == BigEndian(ShiftBytes(n, i), 8 - i)
    {
      NextLengthByte(n, i);
      lengthBytes := lengthBytes + [(ShiftBytes(n, i) % 256) as byte];
    }
    assert ShiftBytes(n, 0) == n;
  }

  /** One more round of the loop: the byte of place `i` follows the bytes
      of the higher places. */
  lemma NextLengthByte(n: nat, i: nat)
    requires i < 8
    ensures BigEndian(ShiftBytes(n, i + 1), 7 - i) + [(ShiftBytes(n, i) % 256) as byte]
         == BigEndian(ShiftBytes(n, i), 8 - i)
  {
    var m := ShiftBytes(n, i);
    assert ShiftBytes(n, i + 1) == m / 256;
    assert BigEndian(m, 8 - i) == BigEndian(m / 256, 7 - i) + [(m % 256) as byte];
  }

  /** Every section in `sections` holds what its kind calls for. */
  ghost predicate AllAgree(o: FrameOptions, mask: seq<byte>, d: Derived, sections: seq<Section>)
    requires o.payload.Some? && |mask| == 4
  {
    |sections| == 0
    || (AllAgree(o, mask, d, sections[..|sections| - 1]) && SectionAgrees(o, mask, d, sections[|sections| - 1]))
  }

  /** `AllAgree` speaks of every section. */
  lemma {:induction false} AllAgreeEach(o: FrameOptions, mask: seq<byte>, d: Derived, sections: seq<Section>)
    requires o.payload.Some? && |mask| == 4
    requires AllAgree(o, mask, d, sections)
    ensures forall i :: 0 <= i < |sections| ==> SectionAgrees(o, mask, d, sections[i])
  {
    if |sections| > 0 {
      var front := sections[..|sections| - 1];
      AllAgreeEach(o, mask, d, front);
      forall i | 0 <= i < |sections|
        ensures SectionAgrees(o, mask, d, sections[i])
      {
        if i < |front| {
          assert sections[i] == front[i];
        }
      }
    }
  }

  /** The sections pushed so far agree with the frame and have the given
      kinds and bytes. */
  ghost predicate Built(o: FrameOptions, mask: seq<byte>, d: Derived,
                        sections: seq<Section>, kinds: seq<SectionKind>, wire: seq<byte>)
    requires o.payload.Some? && |mask| == 4
  {
    && AllAgree(o, mask, d, sections)
    && Kinds(sections) == kinds
    && Concat(sections) == wire
  }

  /** Pushing a section that agrees: the bytes and kinds grow by its own. */
  lemma Push(o: FrameOptions, mask: seq<byte>, d: Derived,
             sections: seq<Section>, kinds: seq<SectionKind>, wire: seq<byte>, s: Section)
    requires o.payload.Some? && |mask| == 4
    requires Built(o, mask, d, sections, kinds, wire) && SectionAgrees(o, mask, d, s)
    ensures Built(o, mask, d, sections + [s], kinds + [s.kind], wire + s.bytes)
  {
    ConcatPush(sections, s);
    KindsPush(sections, s);
    assert (sections + [s])[..|sections|] == sections;
  }

  /** Builds the sections of one frame. `mask` is the masking key the frame
      uses when it is masked; it is drawn at random for every frame. */
  method GetWebSocketFrameSections(options: FrameOptions, mask: seq<byte>, codec: Codec)
    returns (r: Result<EncodedFrame, FrameError>)
    requires |mask| == 4
    ensures options.payload.None? <==> r == Failure(PayloadRequired)
    ensures (options.payload.Some? && |options.payload.value| > MaxSafeInteger) <==> r == Failure(PayloadTooLarge)
    ensures r.Success? ==>
      var final := FinalPayload(options, codec);
      && Concat(r.value.sections)
         == Wire(FirstByteOf(options), options.masked, mask, final, PayloadEmitted(options.opcode, |final|))
      && Kinds(r.value.sections) == SectionKinds(options, |final|)
      && (forall i :: 0 <= i < |r.value.sections| ==>
            SectionAgrees(options, mask, DerivedOf(options, codec), r.value.sections[i]))
      && r.value.details
         == FrameDetails(options.fin, options.rsv1, options.rsv2, options.rsv3, options.opcode, options.masked,
                         if options.masked then Some(mask) else None, |final|, |options.payload.value|)
  {
    if options.payload.None? {
      return Failure(PayloadRequired);
    }
    var payload := options.payload.value;
    if |payload| > MaxSafeInteger {
      return Failure(PayloadTooLarge);
    }

    var finalPayload := payload;
    var compressionInfo := None;
    var isData := IsData(options.opcode);
    if options.compressed && isData {
      finalPayload := CompressPayload(codec, payload);
      compressionInfo := Some(CompressionInfo(|payload|, |finalPayload|));
    }
    var opcodeName := OpName(options.opcode);
    ghost var d := Derived(finalPayload, compressionInfo, opcodeName);
    assert d == DerivedOf(options, codec);

    var headerByte := HeaderByte(FirstByteOf(options));
    var header := Section(Header, [headerByte], None,
      HeaderDetails(options.fin, options.rsv1, options.rsv2, options.rsv3, options.opcode, opcodeName));
    Push(options, mask, d, [], [], [], header);
    assert [] + [header] == [header] && [] + [Header] == [Header] && [] + [headerByte] == [headerByte];
    var frameSections := [header];

    frameSections := PushLengthSections(options, mask, d, finalPayload, frameSections, [Header], [headerByte]);
    frameSections := PushMaskingKey(options, mask, d, frameSections,
      [Header] + LengthKinds(|finalPayload|), [headerByte] + LengthField(|finalPayload|, options.masked));
    frameSections := PushPayloadSections(options, mask, d, finalPayload, compressionInfo, frameSections,
      [Header] + LengthKinds(|finalPayload|) + (if options.masked then [MaskingKey] else []),
      [headerByte] + LengthField(|finalPayload|, options.masked) + (if options.masked then mask else []));

    AllAgreeEach(options, mask, d, frameSections);
    r := Success(EncodedFrame(frameSections, FrameDetails(
      options.fin, options.rsv1, options.rsv2, options.rsv3, options.opcode, options.masked,
      if options.masked then Some(mask) else None, |finalPayload|, |payload|)));
  }

  /** Pushes the second byte, with the MASK bit and the seven-bit length, and
      for payloads of 126 bytes or more the 16-bit or 64-bit extended length. */
  method PushLengthSections(options: FrameOptions, mask: seq<byte>, ghost d: Derived, finalPayload: seq<byte>,
                            frameSections: seq<Section>, ghost kinds: seq<SectionKind>, ghost wire: seq<byte>)
    returns (result: seq<Section>)
    requires options.payload.Some? && |mask| == 4 && d.final == finalPayload
    requires Built(options, mask, d, frameSections, kinds, wire)
    ensures Built(options, mask, d, result, kinds + LengthKinds(|finalPayload|),
                  wire + LengthField(|finalPayload|, options.masked))
  {
    var n := |finalPayload|;
    if n < 126 {
      var secondByte := n;
      if options.masked {
        secondByte := secondByte + 0x80;  // sets the MASK bit of a value below 0x80
      }
      var length := Section(Length, [secondByte as byte], None, LengthDetails(options.masked, n));
      Push(options, mask, d, frameSections, kinds, wire, length);
      result := frameSections + [length];
    } else {
      result := PushExtendedLength(options, mask, d, finalPayload, frameSections, kinds, wire);
    }
  }

  /** Pushes the length indicator 126 or 127 and the extended length. */
  method PushExtendedLength(options: FrameOptions, mask: seq<byte>, ghost d: Derived, finalPayload: seq<byte>,
                            frameSections: seq<Section>, ghost kinds: seq<SectionKind>, ghost wire: seq<byte>)
    returns (result: seq<Section>)
    requires options.payload.Some? && |mask| == 4 && d.final == finalPayload && |finalPayload| >= 126
    requires Built(options, mask, d, frameSections, kinds, wire)
    ensures Built(options, mask, d, result, kinds + LengthKinds(|finalPayload|),
                  wire + LengthField(|finalPayload|, options.masked))
  {
    var n := |finalPayload|;
    var secondByte, lengthBytes := ExtendedLengthField(n, options.masked);
    var info := Section(ExtendedLengthInfo, [secondByte], None, LengthInfoDetails(options.masked, LengthIndicator(n)));
    var extended := Section(ExtendedLength, lengthBytes, None, LengthDetails(options.masked, n));
    assert SectionAgrees(options, mask, d, info)
        && SectionAgrees(options, mask, d, extended) by {
      ghost var field := LengthField(n, options.masked);
      assert field[..1] == [secondByte] && field[1..] == lengthBytes;
    }
    Push(options, mask, d, frameSections, kinds, wire, info);
    Push(options, mask, d, frameSections + [info], kinds + [ExtendedLengthInfo],
         wire + [secondByte], extended);
    result := frameSections + [info] + [extended];
    assert kinds + [ExtendedLengthInfo] + [ExtendedLength] == kinds + LengthKinds(n) by {
      ConcatAssoc(kinds, [ExtendedLengthInfo], [ExtendedLength]);
    }
    ConcatAssoc(wire, [secondByte], lengthBytes);
  }

  /** The length indicator 126 or 127 with the MASK bit, and the 16-bit or
      64-bit length that follows it. */
  method ExtendedLengthField(n: nat, masked: bool) returns (secondByte: byte, lengthBytes: seq<byte>)
    requires n >= 126
    ensures [secondByte] + lengthBytes == LengthField(n, masked)
  {
    var indicator := if n < 65536 then 126 else 127;
    if masked {
      indicator := indicator + 0x80;
    }
    secondByte := indicator as byte;
    if n < 65536 {
      lengthBytes := [((n / 256) % 256) as byte, (n % 256) as byte];
      assert lengthBytes == BigEndian(n, 2) by {
        assert BigEndian(n, 2) == BigEndian(n / 256, 1) + [(n % 256) as byte];
        assert BigEndian(n / 256, 1) == BigEndian(n / 256 / 256, 0) + [((n / 256) % 256) as byte];
      }
    } else {
      lengthBytes := Uint64BigEndian(n);
    }
  }

  /** Pushes the four-byte masking key when the frame is masked. */
  method PushMaskingKey(options: FrameOptions, mask: seq<byte>, ghost d: Derived, frameSections: seq<Section>,
                        ghost kinds: seq<SectionKind>, ghost wire: seq<byte>)
    returns (result: seq<Section>)
    requires options.payload.Some? && |mask| == 4
    requires Built(options, mask, d, frameSections, kinds, wire)
    ensures Built(options, mask, d, result,
                  kinds + (if options.masked then [MaskingKey] else []),
                  wire + (if options.masked then mask else []))
  {
    if options.masked {
      var maskingKey := Section(MaskingKey, mask, None, MaskDetails(mask));
      Push(options, mask, d, frameSections, kinds, wire, maskingKey);
      result := frameSections + [maskingKey];
    } else {
      assert kinds + [] == kinds && wire + [] == wire;
      result := frameSections;
    }
  }

  /** Pushes the payload for non-control and close frames that have one:
      masked when the frame is, and split into close code and close reason
      for a close frame with a close code. */
  method PushPayloadSections(options: FrameOptions, mask: seq<byte>, ghost d: Derived, finalPayload: seq<byte>,
                             compressionInfo: Option<CompressionInfo>, frameSections: seq<Section>,
                             ghost kinds: seq<SectionKind>, ghost wire: seq<byte>)
    returns (result: seq<Section>)
    requires options.payload.Some? && |mask| == 4
    requires d.final == finalPayload && d.info == compressionInfo
    requires Built(options, mask, d, frameSections, kinds, wire)
    ensures var emit := PayloadEmitted(options.opcode, |finalPayload|);
      Built(options, mask, d, result, kinds + PayloadKinds(options, |finalPayload|),
            wire + (if emit then Working(finalPayload, options.masked, mask) else []))
  {
    var payload := options.payload.value;
    var n := |finalPayload|;
    var isControl := IsControl(options.opcode);
    var isCloseFrame := options.opcode == 8;
    if (!isControl || isCloseFrame) && n > 0 {
      var finalPayloadBytes := finalPayload;
      if options.masked {
        finalPayloadBytes := ApplyMask(finalPayloadBytes, mask);
      }
      assert finalPayloadBytes == Working(finalPayload, options.masked, mask);
      if isCloseFrame && Truthy(options.closeCode) {
        var closeCodeBytes := Take(finalPayloadBytes, 2);
        var reasonBytes := Drop(finalPayloadBytes, 2);
        var closeCode := Section(CloseCode, closeCodeBytes, Some(Take(finalPayload, 2)),
          CloseCodeDetails(options.closeCode.value, |closeCodeBytes|, options.masked));
        Push(options, mask, d, frameSections, kinds, wire, closeCode);
        result := frameSections + [closeCode];
        TakeDropSplit(finalPayloadBytes, 2);
        if |reasonBytes| > 0 {
          var closeReason := Section(CloseReason, reasonBytes, Some(Drop(finalPayload, 2)),
            CloseReasonDetails(|reasonBytes|, Drop(payload, 2), options.masked));
          Push(options, mask, d, result, kinds + [CloseCode], wire + closeCodeBytes,
               closeReason);
          result := result + [closeReason];
          ConcatAssoc(wire, closeCodeBytes, reasonBytes);
          ConcatAssoc(kinds, [CloseCode], [CloseReason]);
        } else {
          assert closeCodeBytes == finalPayloadBytes;
          assert [CloseCode] + [] == [CloseCode];
        }
      } else {
        var payloadSection := Section(Payload, finalPayloadBytes, Some(finalPayload),
          PayloadDetails(|finalPayloadBytes|, |payload|, payload, options.masked, compressionInfo));
        Push(options, mask, d, frameSections, kinds, wire, payloadSection);
        result := frameSections + [payloadSection];
      }
    } else {
      assert kinds + [] == kinds && wire + [] == wire;
      result := frameSections;
    }
  }
}
