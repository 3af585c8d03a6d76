/** The length-prefixed binary frame: a 4-byte length, a 24-byte big-endian header, a payload. */
module FrameCodec {
  import opened WireTypes
  import opened BigEndian
  import opened Handshake
  import opened ValueCheck
  import S = MsgPackStructure

  const MAGIC := 0x4D555453
  const LENGTH_PREFIX_SIZE := 4
  const HEADER_SIZE := 24

  const FLAG_REQUEST := 0x0001
  const FLAG_RESPONSE := 0x0002
  const FLAG_ERROR := 0x0004
  const FLAG_MANAGEMENT := 0x0008

  const OPCODES: set<nat> := {
    0x0001, 0x1001, 0x1002, 0x1003, 0x2001, 0x2002, 0x2003, 0x3001, 0x3002, 0x3003,
    0x3004, 0x3005, 0x3006, 0x3007, 0x3008, 0x3009, 0x300A, 0x300B}

  const PLUGIN_INITIALIZE: Opcode := 0x0001
  const RUNNER_CANCEL: Opcode := 0x1002
  const RUNNER_DISPOSE: Opcode := 0x1003

  type Opcode = n: nat | n in OPCODES witness 0x0001

  predicate IsManagement(opcode: Opcode) {
    opcode in {PLUGIN_INITIALIZE, RUNNER_CANCEL, RUNNER_DISPOSE}
  }

  datatype Frame = Frame(requestId: int, opcode: Opcode, flags: nat, payload: Bytes)

  predicate HasFlag(flags: nat, flag: nat)
    requires flag > 0
  {
    flags / flag % 2 == 1
  }

  /** A request, or a response that may be an error; either may carry the management flag. */
  predicate LegalFlags(flags: nat) {
    flags in {
      FLAG_REQUEST, FLAG_REQUEST + FLAG_MANAGEMENT,
      FLAG_RESPONSE, FLAG_RESPONSE + FLAG_MANAGEMENT,
      FLAG_RESPONSE + FLAG_ERROR, FLAG_RESPONSE + FLAG_ERROR + FLAG_MANAGEMENT}
  }

  function BodyLengthFault(bodyLen: int, limits: WireLimits): Option<Failure> {
    if bodyLen < HEADER_SIZE then Some(FrameTruncated)
    else if bodyLen > limits.maxFrameBytes then Some(FrameOversized)
    else None
  }

  function Header(minor: nat, opcode: Opcode, flags: nat, requestId: nat, payloadLen: nat): (r: Bytes)
    ensures |r| == HEADER_SIZE
  {
    UintBytes(MAGIC, 4) + UintBytes(CURRENT_MAJOR, 2) + UintBytes(minor, 2) + UintBytes(opcode, 2)
    + UintBytes(flags, 2) + UintBytes(requestId, 8) + UintBytes(payloadLen, 4)
  }

  function Layout(minor: nat, f: Frame): Bytes
    requires f.requestId >= 0
  {
    UintBytes(HEADER_SIZE + |f.payload|, 4)
    + Header(minor, f.opcode, f.flags, f.requestId, |f.payload|)
    + f.payload
  }

  function EncodeFrame(f: Frame, limits: WireLimits): Result<Bytes> {
    if f.requestId <= 0 then Err(RequestIdInvalid)
    else if |f.payload| > limits.maxPayloadBytes then Err(PayloadOversized)
    else
      var fault := BodyLengthFault(HEADER_SIZE + |f.payload|, limits);
      if fault.Some? then Err(fault.value)
      else if || f.flags >= 0x1_0000
              || f.requestId >= 0x1_0000_0000_0000_0000
              || HEADER_SIZE + |f.payload| >= 0x1_0000_0000
      then Err(StructRange)
      else Ok(Layout(CURRENT_MINOR, f))
  }

  function Field(bytes: Bytes, position: nat, width: nat): nat
    requires position + width <= |bytes|
  {
    Uint(bytes[position..position + width])
  }

  function DecodeFrame(encoded: Bytes, limits: WireLimits): Result<Frame> {
    if |encoded| < LENGTH_PREFIX_SIZE then Err(FrameTruncated)
    else
      var bodyLen := Field(encoded, 0, 4);
      var fault := BodyLengthFault(bodyLen, limits);
      if fault.Some? then Err(fault.value)
      else if |encoded| - LENGTH_PREFIX_SIZE != bodyLen then Err(FrameTruncated)
      else DecodeBody(encoded, limits)
  }

  function DecodeBody(encoded: Bytes, limits: WireLimits): Result<Frame>
    requires |encoded| >= LENGTH_PREFIX_SIZE + HEADER_SIZE
  {
    var flags := Field(encoded, 14, 2);
    var requestId := Field(encoded, 16, 8);
    var opcode := Field(encoded, 12, 2);
    var payload := encoded[LENGTH_PREFIX_SIZE + HEADER_SIZE..];
    if Field(encoded, 4, 4) != MAGIC then Err(MagicInvalid)
    else if Field(encoded, 8, 2) != CURRENT_MAJOR then Err(VersionMismatch)
    else if flags >= 0x10 then Err(FlagsInvalid)
    else if HasFlag(flags, FLAG_REQUEST) == HasFlag(flags, FLAG_RESPONSE) then Err(FlagsInvalid)
    else if HasFlag(flags, FLAG_ERROR) && !HasFlag(flags, FLAG_RESPONSE) then Err(FlagsInvalid)
    else if requestId <= 0 then Err(RequestIdInvalid)
    else if opcode !in OPCODES then Err(OpcodeUnknown)
    else if Field(encoded, 24, 4) != |payload| then Err(PayloadLengthMismatch)
    else if |payload| > limits.maxPayloadBytes then Err(PayloadOversized)
    else Ok(Frame(requestId, opcode, flags, payload))
  }

  // --- The frame codec inverts both ways ---

  predicate Encodable(f: Frame, limits: WireLimits) {
    && 0 < f.requestId < 0x1_0000_0000_0000_0000
    && f.flags < 0x1_0000
    && |f.payload| <= limits.maxPayloadBytes
    && HEADER_SIZE + |f.payload| <= limits.maxFrameBytes
    && HEADER_SIZE + |f.payload| < 0x1_0000_0000
  }

  lemma FieldAt(bytes: Bytes, position: nat, n: nat, width: nat)
    requires n < Pow256(width) && At(bytes, position, UintBytes(n, width))
    ensures Field(bytes, position, width) == n
  {
    UintOfUintBytes(n, width);
  }

  lemma HeaderFields(bytes: Bytes, minor: nat, opcode: Opcode, flags: nat, requestId: nat, payloadLen: nat)
    requires At(bytes, 4, Header(minor, opcode, flags, requestId, payloadLen))
    requires minor < 0x1_0000 && flags < 0x1_0000 && payloadLen < 0x1_0000_0000
    requires requestId < 0x1_0000_0000_0000_0000
    ensures Field(bytes, 4, 4) == MAGIC && Field(bytes, 8, 2) == CURRENT_MAJOR
    ensures Field(bytes, 10, 2) == minor && Field(bytes, 12, 2) == opcode && Field(bytes, 14, 2) == flags
    ensures Field(bytes, 16, 8) == requestId && Field(bytes, 24, 4) == payloadLen
  {
    hide UintBytes, Field;
    Pow256Values();
    var p1 := UintBytes(MAGIC, 4);
    var p2 := p1 + UintBytes(CURRENT_MAJOR, 2);
    var p3 := p2 + UintBytes(minor, 2);
    var p4 := p3 + UintBytes(opcode, 2);
    var p5 := p4 + UintBytes(flags, 2);
    var p6 := p5 + UintBytes(requestId, 8);
    AtSplit(bytes, 4, p6, UintBytes(payloadLen, 4));
    FieldAt(bytes, 24, payloadLen, 4);
    AtSplit(bytes, 4, p5, UintBytes(requestId, 8));
    FieldAt(bytes, 16, requestId, 8);
    AtSplit(bytes, 4, p4, UintBytes(flags, 2));
    FieldAt(bytes, 14, flags, 2);
    AtSplit(bytes, 4, p3, UintBytes(opcode, 2));
    FieldAt(bytes, 12, opcode, 2);
    AtSplit(bytes, 4, p2, UintBytes(minor, 2));
    FieldAt(bytes, 10, minor, 2);
    AtSplit(bytes, 4, p1, UintBytes(CURRENT_MAJOR, 2));
    FieldAt(bytes, 8, CURRENT_MAJOR, 2);
    FieldAt(bytes, 4, MAGIC, 4);
  }

  // The fields of a laid-out frame read back as what was written.
  lemma LayoutFields(minor: nat, f: Frame)
    requires minor < 0x1_0000 && f.flags < 0x1_0000
    requires 0 <= f.requestId < 0x1_0000_0000_0000_0000 && HEADER_SIZE + |f.payload| < 0x1_0000_0000
    ensures var bytes := Layout(minor, f);
            && |bytes| == LENGTH_PREFIX_SIZE + HEADER_SIZE + |f.payload|
            && Field(bytes, 0, 4) == HEADER_SIZE + |f.payload|
            && Field(bytes, 4, 4) == MAGIC && Field(bytes, 8, 2) == CURRENT_MAJOR
            && Field(bytes, 10, 2) == minor && Field(bytes, 12, 2) == f.opcode
            && Field(bytes, 14, 2) == f.flags && Field(bytes, 16, 8) == f.requestId
            && Field(bytes, 24, 4) == |f.payload|
            && bytes[LENGTH_PREFIX_SIZE + HEADER_SIZE..] == f.payload
  {
    hide UintBytes, Header, Field;
    Pow256Values();
    var bytes := Layout(minor, f);
    var prefix := UintBytes(HEADER_SIZE + |f.payload|, 4);
    var header := Header(minor, f.opcode, f.flags, f.requestId, |f.payload|);
    assert bytes == prefix + header + f.payload;
    assert bytes[0..|bytes|] == bytes;
    AtSplit(bytes, 0, prefix + header, f.payload);
    AtSplit(bytes, 0, prefix, header);
    FieldAt(bytes, 0, HEADER_SIZE + |f.payload|, 4);
    HeaderFields(bytes, minor, f.opcode, f.flags, f.requestId, |f.payload|);
  }

  lemma FlagChecksAreLegalFlags(flags: nat)
    ensures LegalFlags(flags)
       <==> && flags < 0x10
            && HasFlag(flags, FLAG_REQUEST) != HasFlag(flags, FLAG_RESPONSE)
            && (HasFlag(flags, FLAG_ERROR) ==> HasFlag(flags, FLAG_RESPONSE))
  {
  }

  /** Encoding succeeds exactly on the frames that fit; decoding its result returns the same
      frame, unless the encoder was handed flags no peer may send. */
  lemma DecodeInvertsEncode(f: Frame, limits: WireLimits)
    ensures EncodeFrame(f, limits).Ok? <==> Encodable(f, limits)
    ensures Encodable(f, limits) ==>
              (DecodeFrame(EncodeFrame(f, limits).value, limits)
               == if LegalFlags(f.flags) then Ok(f) else Err(FlagsInvalid))
  {
    if Encodable(f, limits) {
      LayoutFields(CURRENT_MINOR, f);
      FlagChecksAreLegalFlags(f.flags);
      hide Layout, Field, HasFlag, LegalFlags;
    }
  }

  // A stretch of bytes is the big-endian rendering of the number it spells.
  lemma FieldBytes(bytes: Bytes, position: nat, width: nat)
    requires position + width <= |bytes|
    ensures UintBytes(Field(bytes, position, width), width) == bytes[position..position + width]
    ensures Field(bytes, position, width) < Pow256(width)
  {
    UintBytesOfUint(bytes[position..position + width]);
  }

  lemma HeaderFromFields(bytes: Bytes)
    requires |bytes| >= LENGTH_PREFIX_SIZE + HEADER_SIZE
    requires Field(bytes, 4, 4) == MAGIC && Field(bytes, 8, 2) == CURRENT_MAJOR
    requires Field(bytes, 12, 2) in OPCODES
    ensures bytes[4..28]
         == Header(Field(bytes, 10, 2), Field(bytes, 12, 2), Field(bytes, 14, 2),
                   Field(bytes, 16, 8), Field(bytes, 24, 4))
  {
    hide UintBytes, Field;
    FieldBytes(bytes, 4, 4);
    FieldBytes(bytes, 8, 2);
    FieldBytes(bytes, 10, 2);
    FieldBytes(bytes, 12, 2);
    FieldBytes(bytes, 14, 2);
    FieldBytes(bytes, 16, 8);
    FieldBytes(bytes, 24, 4);
    assert bytes[4..28]
        == bytes[4..8] + bytes[8..10] + bytes[10..12] + bytes[12..14]
         + bytes[14..16] + bytes[16..24] + bytes[24..28];
  }

  /** A byte string is accepted as a frame exactly when it is that frame's layout under some minor
      version, and the frame has legal flags and fits. */
  lemma AcceptedIsLayout(bytes: Bytes, f: Frame, limits: WireLimits)
    ensures DecodeFrame(bytes, limits) == Ok(f)
       <==> && Encodable(f, limits) && LegalFlags(f.flags)
            && exists minor | 0 <= minor < 0x1_0000 :: bytes == Layout(minor, f)
  {
    if DecodeFrame(bytes, limits) == Ok(f) {
      AcceptedHasLayout(bytes, limits);
      FieldBytes(bytes, 10, 2);
      Pow256Values();
      hide DecodeFrame, Encodable, LegalFlags, Layout, Field;
      assert bytes == Layout(Field(bytes, 10, 2), f);
    }
    if Encodable(f, limits) && LegalFlags(f.flags) {
      forall minor | 0 <= minor < 0x1_0000 && bytes == Layout(minor, f)
        ensures DecodeFrame(bytes, limits) == Ok(f)
      {
        LayoutIsAccepted(minor, f, limits);
      }
    }
  }

  lemma LayoutIsAccepted(minor: nat, f: Frame, limits: WireLimits)
    requires minor < 0x1_0000 && Encodable(f, limits) && LegalFlags(f.flags)
    ensures DecodeFrame(Layout(minor, f), limits) == Ok(f)
  {
    LayoutFields(minor, f);
    FlagChecksAreLegalFlags(f.flags);
    hide Layout, Field, HasFlag, LegalFlags;
  }

  // An accepted byte string is the layout of its frame under the minor version it carries.
  lemma AcceptedHasLayout(bytes: Bytes, limits: WireLimits)
    requires DecodeFrame(bytes, limits).Ok?
    ensures |bytes| >= LENGTH_PREFIX_SIZE + HEADER_SIZE
    ensures var f := DecodeFrame(bytes, limits).value;
            Encodable(f, limits) && LegalFlags(f.flags) && bytes == Layout(Field(bytes, 10, 2), f)
  {
    hide UintBytes, Header, Uint, HasFlag, LegalFlags;
    var f := DecodeFrame(bytes, limits).value;
    Pow256Values();
    FieldBytes(bytes, 0, 4);
    FieldBytes(bytes, 14, 2);
    FieldBytes(bytes, 16, 8);
    HeaderFromFields(bytes);
    FlagChecksAreLegalFlags(f.flags);
    assert bytes == bytes[0..4] + bytes[4..28] + bytes[28..];
  }

  /** Re-encoding an accepted frame gives back its bytes exactly when they carry the current
      minor version; otherwise the two differ in the minor version field only. */
  lemma EncodeInvertsDecode(bytes: Bytes, limits: WireLimits)
    requires DecodeFrame(bytes, limits).Ok?
    ensures |bytes| >= LENGTH_PREFIX_SIZE + HEADER_SIZE
    ensures EncodeFrame(DecodeFrame(bytes, limits).value, limits).Ok?
    ensures var again := EncodeFrame(DecodeFrame(bytes, limits).value, limits).value;
            && (again == bytes <==> Field(bytes, 10, 2) == CURRENT_MINOR)
            && |again| == |bytes| && again[..10] == bytes[..10] && again[12..] == bytes[12..]
  {
    var f := DecodeFrame(bytes, limits).value;
    AcceptedHasLayout(bytes, limits);
    DecodeInvertsEncode(f, limits);
    LayoutFields(CURRENT_MINOR, f);
    FieldBytes(bytes, 10, 2);
    Pow256Values();
    hide Field, DecodeFrame, UintBytes;
    LayoutsDifferInMinor(CURRENT_MINOR, Field(bytes, 10, 2), f);
  }

  lemma LayoutsDifferInMinor(minor: nat, other: nat, f: Frame)
    requires f.requestId >= 0
    ensures |Layout(minor, f)| == |Layout(other, f)| == LENGTH_PREFIX_SIZE + HEADER_SIZE + |f.payload|
    ensures Layout(minor, f)[..10] == Layout(other, f)[..10]
    ensures Layout(minor, f)[12..] == Layout(other, f)[12..]
  {
    hide UintBytes;
  }

  // --- Requests ---

  // The MessagePack library's unpacker; it sees only payloads that passed the preflight.
  type Unpacker = Bytes -> Option<Value>

  function EncodeRequest(requestId: int, opcode: Opcode, payload: seq<Entry>, limits: WireLimits): Result<Bytes> {
    var value := Mapping(payload);
    var fault := CheckValue(value, limits.maxInlineResourceBytes, 0);
    if fault.Some? then Err(fault.value)
    else if !Packable(value) then Err(PackFailed)
    else
      var flags := FLAG_REQUEST + (if IsManagement(opcode) then FLAG_MANAGEMENT else 0);
      EncodeFrame(Frame(requestId, opcode, flags, EncodeValue(value)), limits)
  }

  datatype Request = Request(requestId: int, opcode: Opcode, payload: seq<Entry>)

  function RequestPayload(encoded: Bytes, limits: WireLimits, unpack: Unpacker): Result<Request> {
    match DecodeFrame(encoded, limits)
    case Err(e) => Err(e)
    case Ok(f) =>
      if !HasFlag(f.flags, FLAG_REQUEST) || HasFlag(f.flags, FLAG_RESPONSE) then Err(FlagsInvalid)
      else
        match S.Validate(f.payload)
        case Err(e) => Err(e)
        case Ok(_) =>
          match unpack(f.payload)
          case None => Err(UnpackFailed)
          case Some(value) =>
            if !value.Mapping? then Err(PayloadNotMapping)
            else
              var fault := CheckValue(value, limits.maxInlineResourceBytes, 0);
              if fault.Some? then Err(fault.value)
              else Ok(Request(f.requestId, f.opcode, value.entries))
  }

  function RequestFrame(r: Request): Frame
    requires Packable(Mapping(r.payload))
  {
    var flags := FLAG_REQUEST + (if IsManagement(r.opcode) then FLAG_MANAGEMENT else 0);
    Frame(r.requestId, r.opcode, flags, EncodeValue(Mapping(r.payload)))
  }

  // What the sender let through passes every check of the receiver's own.
  lemma SentPassesChecks(r: Request, limits: WireLimits)
    requires EncodeRequest(r.requestId, r.opcode, r.payload, limits).Ok?
    ensures Packable(Mapping(r.payload))
    ensures CheckValue(Mapping(r.payload), limits.maxInlineResourceBytes, 0).None?
    ensures S.Validate(EncodeValue(Mapping(r.payload))).Ok?
    ensures EncodeFrame(RequestFrame(r), limits).Ok?
    ensures EncodeRequest(r.requestId, r.opcode, r.payload, limits) == EncodeFrame(RequestFrame(r), limits)
    ensures DecodeFrame(EncodeFrame(RequestFrame(r), limits).value, limits) == Ok(RequestFrame(r))
  {
    hide DecodeFrame, EncodeFrame, Encodable, CheckValue, Packable, EncodeValue, S.Validate, InlineBounded;
    CheckersAgree(Mapping(r.payload), limits.maxInlineResourceBytes);
    DecodeInvertsEncode(RequestFrame(r), limits);
  }

  lemma RequestFlags(r: Request)
    requires Packable(Mapping(r.payload))
    ensures HasFlag(RequestFrame(r).flags, FLAG_REQUEST) && !HasFlag(RequestFrame(r).flags, FLAG_RESPONSE)
    ensures HasFlag(RequestFrame(r).flags, FLAG_MANAGEMENT) <==> IsManagement(r.opcode)
  {
    hide Packable, EncodeValue;
  }

  /** A request that encodes is decoded to itself exactly when the unpacker returns the value that
      was packed; none of the receiver's own checks refuses what the sender let through. The frame
      is marked as management traffic exactly when its opcode is. */
  lemma RequestRoundTrip(r: Request, limits: WireLimits, unpack: Unpacker)
    requires EncodeRequest(r.requestId, r.opcode, r.payload, limits).Ok?
    ensures Packable(Mapping(r.payload))
    ensures var bytes := EncodeRequest(r.requestId, r.opcode, r.payload, limits).value;
            var unpacked := unpack(EncodeValue(Mapping(r.payload)));
            && (RequestPayload(bytes, limits, unpack) == Ok(r) <==> unpacked == Some(Mapping(r.payload)))
            && (unpacked.None? ==> RequestPayload(bytes, limits, unpack) == Err(UnpackFailed))
            && DecodeFrame(bytes, limits).Ok?
            && (HasFlag(DecodeFrame(bytes, limits).value.flags, FLAG_MANAGEMENT) <==> IsManagement(r.opcode))
  {
    hide DecodeFrame, EncodeFrame, EncodeRequest, CheckValue, Packable, EncodeValue, HasFlag, S.Validate;
    SentPassesChecks(r, limits);
    RequestFlags(r);
  }
}
