/** What the frame codec answers to every input: the fault it names, and the exact bytes. */
module FrameAnswers {
  import opened WireTypes
  import opened BigEndian
  import opened Handshake
  import opened ValueCheck
  import opened FrameCodec
  import F = MsgPackFormats
  import G = MsgPackGrammar
  import S = MsgPackStructure

  // A prefix and header with any numbers in them.
  datatype RawHeader = RawHeader(
    bodyLen: nat, magic: nat, major: nat, minor: nat, opcode: nat, flags: nat, requestId: nat, payloadLen: nat)

  predicate FitsFields(h: RawHeader) {
    && h.bodyLen < 0x1_0000_0000 && h.magic < 0x1_0000_0000
    && h.major < 0x1_0000 && h.minor < 0x1_0000 && h.opcode < 0x1_0000 && h.flags < 0x1_0000
    && h.requestId < 0x1_0000_0000_0000_0000 && h.payloadLen < 0x1_0000_0000
  }

  function RawBytes(h: RawHeader, payload: Bytes): Bytes {
    UintBytes(h.bodyLen, 4) + UintBytes(h.magic, 4) + UintBytes(h.major, 2) + UintBytes(h.minor, 2)
    + UintBytes(h.opcode, 2) + UintBytes(h.flags, 2) + UintBytes(h.requestId, 8) + UintBytes(h.payloadLen, 4)
    + payload
  }

  lemma RawFields(h: RawHeader, payload: Bytes)
    requires FitsFields(h)
    ensures var bytes := RawBytes(h, payload);
            && |bytes| == 28 + |payload| && bytes[28..] == payload
            && Field(bytes, 0, 4) == h.bodyLen && Field(bytes, 4, 4) == h.magic
            && Field(bytes, 8, 2) == h.major && Field(bytes, 10, 2) == h.minor
            && Field(bytes, 12, 2) == h.opcode && Field(bytes, 14, 2) == h.flags
            && Field(bytes, 16, 8) == h.requestId && Field(bytes, 24, 4) == h.payloadLen
  {
    hide UintBytes, Field;
    Pow256Values();
    var bytes := RawBytes(h, payload);
    var p1 := UintBytes(h.bodyLen, 4);
    var p2 := p1 + UintBytes(h.magic, 4);
    var p3 := p2 + UintBytes(h.major, 2);
    var p4 := p3 + UintBytes(h.minor, 2);
    var p5 := p4 + UintBytes(h.opcode, 2);
    var p6 := p5 + UintBytes(h.flags, 2);
    var p7 := p6 + UintBytes(h.requestId, 8);
    var p8 := p7 + UintBytes(h.payloadLen, 4);
    assert bytes[0..|bytes|] == bytes;
    AtSplit(bytes, 0, p8, payload);
    AtSplit(bytes, 0, p7, UintBytes(h.payloadLen, 4));
    FieldAt(bytes, 24, h.payloadLen, 4);
    AtSplit(bytes, 0, p6, UintBytes(h.requestId, 8));
    FieldAt(bytes, 16, h.requestId, 8);
    AtSplit(bytes, 0, p5, UintBytes(h.flags, 2));
    FieldAt(bytes, 14, h.flags, 2);
    AtSplit(bytes, 0, p4, UintBytes(h.opcode, 2));
    FieldAt(bytes, 12, h.opcode, 2);
    AtSplit(bytes, 0, p3, UintBytes(h.minor, 2));
    FieldAt(bytes, 10, h.minor, 2);
    AtSplit(bytes, 0, p2, UintBytes(h.major, 2));
    FieldAt(bytes, 8, h.major, 2);
    AtSplit(bytes, 0, p1, UintBytes(h.magic, 4));
    FieldAt(bytes, 4, h.magic, 4);
    FieldAt(bytes, 0, h.bodyLen, 4);
  }

  /** Every byte string long enough for a header is one. */
  lemma EveryFrameIsRaw(bytes: Bytes) returns (h: RawHeader)
    requires |bytes| >= 28
    ensures FitsFields(h) && bytes == RawBytes(h, bytes[28..])
  {
    hide UintBytes, Field;
    Pow256Values();
    FieldBytes(bytes, 0, 4);
    FieldBytes(bytes, 4, 4);
    FieldBytes(bytes, 8, 2);
    FieldBytes(bytes, 10, 2);
    FieldBytes(bytes, 12, 2);
    FieldBytes(bytes, 14, 2);
    FieldBytes(bytes, 16, 8);
    FieldBytes(bytes, 24, 4);
    h := RawHeader(Field(bytes, 0, 4), Field(bytes, 4, 4), Field(bytes, 8, 2), Field(bytes, 10, 2),
                   Field(bytes, 12, 2), Field(bytes, 14, 2), Field(bytes, 16, 8), Field(bytes, 24, 4));
    assert bytes == bytes[0..4] + bytes[4..8] + bytes[8..10] + bytes[10..12] + bytes[12..14] + bytes[14..16]
                    + bytes[16..24] + bytes[24..28] + bytes[28..];
  }

  // The tests a header has to pass, in the order in which they are made.
  datatype Test = Length | Magic | Version | Flags | RequestId | OpcodeKnown | PayloadLength | PayloadSize

  predicate Passes(h: RawHeader, payload: Bytes, limits: WireLimits, t: Test) {
    match t
    case Length => 24 <= h.bodyLen <= limits.maxFrameBytes && h.bodyLen == 24 + |payload|
    case Magic => h.magic == 0x4D55_5453
    case Version => h.major == 1
    case Flags => h.flags in {1, 9, 2, 10, 6, 14}
    case RequestId => h.requestId > 0
    case OpcodeKnown =>
      h.opcode == 0x0001 || 0x1001 <= h.opcode <= 0x1003 || 0x2001 <= h.opcode <= 0x2003
      || 0x3001 <= h.opcode <= 0x300B
    case PayloadLength => h.payloadLen == |payload|
    case PayloadSize => |payload| <= limits.maxPayloadBytes
  }

  function Rank(t: Test): nat {
    match t
    case Length => 0 case Magic => 1 case Version => 2 case Flags => 3
    case RequestId => 4 case OpcodeKnown => 5 case PayloadLength => 6 case PayloadSize => 7
  }

  predicate PassesAll(h: RawHeader, payload: Bytes, limits: WireLimits, before: nat) {
    forall t: Test | Rank(t) < before :: Passes(h, payload, limits, t)
  }

  /** Test `t` is the first to fail. */
  predicate FailsFirst(h: RawHeader, payload: Bytes, limits: WireLimits, t: Test) {
    !Passes(h, payload, limits, t) && PassesAll(h, payload, limits, Rank(t))
  }

  function FaultOf(h: RawHeader, limits: WireLimits, t: Test): Failure {
    match t
    case Length => if h.bodyLen >= 24 && h.bodyLen > limits.maxFrameBytes then FrameOversized else FrameTruncated
    case Magic => MagicInvalid
    case Version => VersionMismatch
    case Flags => FlagsInvalid
    case RequestId => RequestIdInvalid
    case OpcodeKnown => OpcodeUnknown
    case PayloadLength => PayloadLengthMismatch
    case PayloadSize => PayloadOversized
  }

  lemma PassesEach(h: RawHeader, payload: Bytes, limits: WireLimits, before: nat)
    requires PassesAll(h, payload, limits, before)
    ensures before > 0 ==> Passes(h, payload, limits, Length)
    ensures before > 1 ==> Passes(h, payload, limits, Magic)
    ensures before > 2 ==> Passes(h, payload, limits, Version)
    ensures before > 3 ==> Passes(h, payload, limits, Flags)
    ensures before > 4 ==> Passes(h, payload, limits, RequestId)
    ensures before > 5 ==> Passes(h, payload, limits, OpcodeKnown)
    ensures before > 6 ==> Passes(h, payload, limits, PayloadLength)
    ensures before > 7 ==> Passes(h, payload, limits, PayloadSize)
  {
    hide Passes;
  }

  lemma KnownOpcodes(opcode: nat)
    ensures opcode in OPCODES
       <==> || opcode == 0x0001 || 0x1001 <= opcode <= 0x1003 || 0x2001 <= opcode <= 0x2003
            || 0x3001 <= opcode <= 0x300B
  {
  }

  lemma RawAnswer(h: RawHeader, payload: Bytes, limits: WireLimits)
    requires FitsFields(h)
    ensures DecodeFrame(RawBytes(h, payload), limits)
         == if !Passes(h, payload, limits, Length) then Err(FaultOf(h, limits, Length))
            else if h.magic != 0x4D55_5453 then Err(MagicInvalid)
            else if h.major != 1 then Err(VersionMismatch)
            else if h.flags !in {1, 9, 2, 10, 6, 14} then Err(FlagsInvalid)
            else if h.requestId <= 0 then Err(RequestIdInvalid)
            else if h.opcode !in OPCODES then Err(OpcodeUnknown)
            else if h.payloadLen != |payload| then Err(PayloadLengthMismatch)
            else if |payload| > limits.maxPayloadBytes then Err(PayloadOversized)
            else Ok(Frame(h.requestId, h.opcode, h.flags, payload))
  {
    RawFields(h, payload);
    FlagChecksAreLegalFlags(h.flags);
    hide RawBytes, Field, HasFlag, UintBytes;
  }

  /** The decoder's answer to every header: the frame if all tests pass, else the fault of the first
      test that fails. */
  lemma DecodeAnswers(h: RawHeader, payload: Bytes, limits: WireLimits, t: Test)
    requires FitsFields(h)
    ensures var answer := DecodeFrame(RawBytes(h, payload), limits);
            && (answer.Ok? <==> PassesAll(h, payload, limits, 8))
            && (answer.Ok? ==>
                  && answer.value.requestId == h.requestId && answer.value.opcode == h.opcode
                  && answer.value.flags == h.flags && answer.value.payload == payload)
            && (FailsFirst(h, payload, limits, t) ==> answer == Err(FaultOf(h, limits, t)))
  {
    hide DecodeFrame, RawBytes;
    RawAnswer(h, payload, limits);
    KnownOpcodes(h.opcode);
    hide OPCODES;
    if PassesAll(h, payload, limits, 8) {
      PassesEach(h, payload, limits, 8);
    } else {
      var u: Test :| Rank(u) < 8 && !Passes(h, payload, limits, u);
    }
    if FailsFirst(h, payload, limits, t) {
      PassesEach(h, payload, limits, Rank(t));
    }
    hide PassesAll;
  }

  /** Anything too short for a header is refused for its length. */
  lemma ShortFrameAnswers(bytes: Bytes, limits: WireLimits)
    requires |bytes| < 28
    ensures DecodeFrame(bytes, limits)
         == Err(if |bytes| >= 4 && 24 <= Uint(bytes[..4]) && limits.maxFrameBytes < Uint(bytes[..4])
                then FrameOversized else FrameTruncated)
  {
    if |bytes| >= 4 {
      assert bytes[..4] == bytes[0..4];
    }
  }

  /** The encoder's answer to every frame. */
  lemma EncodeAnswers(f: Frame, limits: WireLimits)
    ensures EncodeFrame(f, limits) == Err(RequestIdInvalid) <==> f.requestId <= 0
    ensures EncodeFrame(f, limits) == Err(PayloadOversized)
       <==> f.requestId > 0 && |f.payload| > limits.maxPayloadBytes
    ensures EncodeFrame(f, limits) == Err(FrameOversized)
       <==> f.requestId > 0 && |f.payload| <= limits.maxPayloadBytes && 24 + |f.payload| > limits.maxFrameBytes
    ensures EncodeFrame(f, limits) == Err(StructRange)
       <==> && f.requestId > 0 && |f.payload| <= limits.maxPayloadBytes && 24 + |f.payload| <= limits.maxFrameBytes
            && (f.flags > 0xFFFF || f.requestId > 0xFFFF_FFFF_FFFF_FFFF || 24 + |f.payload| > 0xFFFF_FFFF)
    ensures EncodeFrame(f, limits).Ok? ==>
              EncodeFrame(f, limits).value
              == RawBytes(RawHeader(24 + |f.payload|, 0x4D55_5453, 1, 2, f.opcode, f.flags, f.requestId, |f.payload|),
                          f.payload)
  {
    hide UintBytes;
  }

  // --- Requests ---

  /** The requests that answer a management opcode. */
  predicate IsManaging(opcode: nat) {
    opcode == 0x0001 || opcode == 0x1002 || opcode == 0x1003
  }

  /** The request encoder's answer to every request: the first fault of its payload, then a value the
      library cannot pack, then what the frame encoder says; else the frame's bytes. */
  lemma EncodeRequestAnswers(requestId: int, opcode: Opcode, payload: seq<Entry>, limits: WireLimits)
    ensures var v := Mapping(payload);
            var fault := CheckValue(v, limits.maxInlineResourceBytes, 0);
            var answer := EncodeRequest(requestId, opcode, payload, limits);
            && (fault.Some? ==> answer == Err(fault.value))
            && (fault.None? && !Packable(v) ==> answer == Err(PackFailed))
            && (fault.None? && Packable(v) ==>
                  answer == EncodeFrame(
                    Frame(requestId, opcode, if IsManaging(opcode) then 9 else 1, EncodeValue(v)), limits))
            && (answer.Ok? <==>
                  && fault.None? && Packable(v) && 0 < requestId <= 0xFFFF_FFFF_FFFF_FFFF
                  && |EncodeValue(v)| <= limits.maxPayloadBytes
                  && 24 + |EncodeValue(v)| <= limits.maxFrameBytes && 24 + |EncodeValue(v)| <= 0xFFFF_FFFF)
  {
    hide CheckValue, EncodeValue, Packable, Layout;
  }

  /** The bytes carry request `r`: they are a frame, a request, its payload is one value within the
      structural limits, and that value unpacks to a mapping within the receiver's limits. */
  ghost predicate Carries(encoded: Bytes, r: Request, limits: WireLimits, unpack: Unpacker) {
    && DecodeFrame(encoded, limits).Ok?
    && var f := DecodeFrame(encoded, limits).value;
    && f.flags in {1, 9}
    && G.Derives(f.payload, 0)
    && unpack(f.payload) == Some(Mapping(r.payload))
    && CheckValue(Mapping(r.payload), limits.maxInlineResourceBytes, 0).None?
    && r.requestId == f.requestId && r.opcode == f.opcode
  }

  /** The receiver accepts a request exactly when the bytes carry it. */
  lemma AcceptedIsCarried(encoded: Bytes, r: Request, limits: WireLimits, unpack: Unpacker)
    ensures RequestPayload(encoded, limits, unpack) == Ok(r) <==> Carries(encoded, r, limits, unpack)
  {
    if DecodeFrame(encoded, limits).Ok? {
      var f := DecodeFrame(encoded, limits).value;
      AcceptedHasLayout(encoded, limits);
      RequestFlagWords(f.flags);
      G.PreflightIsGrammar(f.payload);
    }
    hide DecodeFrame, CheckValue, HasFlag, LegalFlags, S.Validate, G.Derives;
  }

  lemma RequestFlagWords(flags: nat)
    requires LegalFlags(flags)
    ensures flags in {1, 9} <==> HasFlag(flags, FLAG_REQUEST) && !HasFlag(flags, FLAG_RESPONSE)
    ensures flags !in {1, 9} ==> !HasFlag(flags, FLAG_REQUEST) || HasFlag(flags, FLAG_RESPONSE)
  {
  }

  /** And otherwise it names the first thing that is missing. */
  lemma RefusalIsFirstMissing(encoded: Bytes, limits: WireLimits, unpack: Unpacker)
    ensures var answer := RequestPayload(encoded, limits, unpack);
            match DecodeFrame(encoded, limits)
            case Err(fault) => answer == Err(fault)
            case Ok(f) =>
              && (f.flags !in {1, 9} ==> answer == Err(FlagsInvalid))
              && (f.flags in {1, 9} && S.Validate(f.payload).Err? ==> answer == Err(S.Validate(f.payload).error))
              && (f.flags in {1, 9} && G.Derives(f.payload, 0) ==>
                    && (unpack(f.payload).None? <==> answer == Err(UnpackFailed))
                    && (unpack(f.payload).Some? && !unpack(f.payload).value.Mapping? <==>
                          answer == Err(PayloadNotMapping)))
  {
    if DecodeFrame(encoded, limits).Ok? {
      var f := DecodeFrame(encoded, limits).value;
      AcceptedHasLayout(encoded, limits);
      RequestFlagWords(f.flags);
      G.PreflightIsGrammar(f.payload);
      if unpack(f.payload).Some? {
        CheckNamesLimits(unpack(f.payload).value, limits.maxInlineResourceBytes, 0);
      }
    }
    hide DecodeFrame, CheckValue, HasFlag, LegalFlags, S.Validate, G.Derives;
  }

  lemma {:induction false} CheckNamesLimits(v: Value, inlineLimit: int, depth: nat)
    ensures CheckValue(v, inlineLimit, depth).Some? ==>
              CheckValue(v, inlineLimit, depth).value
              in {MsgpackDepth, MsgpackContainerLimit, InlineResourceOversized}
    decreases v, 0
  {
    match v
    case List(elements) => ElementsNameLimits(elements, inlineLimit, depth + 1);
    case Mapping(entries) => EntriesNameLimits(entries, inlineLimit, depth + 1);
    case _ =>
  }

  lemma {:induction false} ElementsNameLimits(elements: seq<Value>, inlineLimit: int, depth: nat)
    ensures CheckElements(elements, inlineLimit, depth).Some? ==>
              CheckElements(elements, inlineLimit, depth).value
              in {MsgpackDepth, MsgpackContainerLimit, InlineResourceOversized}
    decreases elements, 1
  {
    if elements != [] {
      CheckNamesLimits(elements[0], inlineLimit, depth);
      ElementsNameLimits(elements[1..], inlineLimit, depth);
    }
  }

  lemma {:induction false} EntriesNameLimits(entries: seq<Entry>, inlineLimit: int, depth: nat)
    ensures CheckEntries(entries, inlineLimit, depth).Some? ==>
              CheckEntries(entries, inlineLimit, depth).value
              in {MsgpackDepth, MsgpackContainerLimit, InlineResourceOversized}
    decreases entries, 1
  {
    if entries != [] {
      CheckNamesLimits(entries[0].value, inlineLimit, depth);
      EntriesNameLimits(entries[1..], inlineLimit, depth);
    }
  }

  // --- A golden frame ---

  const RUNNER_ID: Bytes := [0x72, 0x75, 0x6E, 0x6E, 0x65, 0x72, 0x5F, 0x69, 0x64]

  const FIXTURE_RUNNER: Bytes :=
    [0x66, 0x69, 0x78, 0x74, 0x75, 0x72, 0x65, 0x2E, 0x72, 0x75, 0x6E, 0x6E, 0x65, 0x72]

  const GOLDEN_HEADER: Bytes :=
    [0x00, 0x00, 0x00, 0x32, 0x4D, 0x55, 0x54, 0x53, 0x00, 0x01, 0x00, 0x02, 0x10, 0x03, 0x00, 0x09,
     0x00, 0x00, 0x00, 0x00, 0x00, 0x00, 0x20, 0x03, 0x00, 0x00, 0x00, 0x1A]

  lemma GoldenPayload()
    ensures var v := Mapping([Entry(RUNNER_ID, Text(FIXTURE_RUNNER))]);
            && Packable(v) && CheckValue(v, DEFAULT_WIRE_LIMITS.maxInlineResourceBytes, 0).None?
            && EncodeValue(v) == [0x81, 0xA9] + RUNNER_ID + [0xAE] + FIXTURE_RUNNER
  {
    var entries := [Entry(RUNNER_ID, Text(FIXTURE_RUNNER))];
    assert |RUNNER_ID| == 9 && |FIXTURE_RUNNER| == 14;
    assert entries[1..] == [];
    assert CheckEntries(entries[1..], DEFAULT_WIRE_LIMITS.maxInlineResourceBytes, 1).None?;
    assert CheckEntries(entries, DEFAULT_WIRE_LIMITS.maxInlineResourceBytes, 1).None?;
    var items := PackEntries(entries);
    assert items == [PackText(RUNNER_ID), Pack(Text(FIXTURE_RUNNER))] + PackEntries(entries[1..]);
    assert items == [F.FixStr(RUNNER_ID), F.FixStr(FIXTURE_RUNNER)];
    assert items[1..][1..] == [] && F.Encodings([]) == [];
    assert F.Encodings(items[1..]) == F.Encoding(items[1]) + F.Encodings(items[1..][1..]) == [0xAE] + FIXTURE_RUNNER;
    assert F.Encodings(items)
        == F.Encoding(items[0]) + F.Encodings(items[1..])
        == [0xA9] + RUNNER_ID + ([0xAE] + FIXTURE_RUNNER);
    hide UintBytes;
  }

  lemma GoldenNumbers()
    ensures UintBytes(50, 4) == [0, 0, 0, 0x32] && UintBytes(26, 4) == [0, 0, 0, 0x1A]
    ensures UintBytes(0x4D55_5453, 4) == [0x4D, 0x55, 0x54, 0x53]
    ensures UintBytes(1, 2) == [0, 1] && UintBytes(2, 2) == [0, 2]
    ensures UintBytes(0x1003, 2) == [0x10, 0x03] && UintBytes(9, 2) == [0, 9]
    ensures UintBytes(0x2003, 8) == [0, 0, 0, 0, 0, 0, 0x20, 0x03]
  {
    hide UintBytes;
    FourBytes(50);
    FourBytes(26);
    FourBytes(0x4D55_5453);
    TwoBytes(1);
    TwoBytes(2);
    TwoBytes(0x1003);
    TwoBytes(9);
    SmallInEightBytes(0x2003);
  }

  lemma TwoBytes(n: nat)
    requires n < 0x1_0000
    ensures UintBytes(n, 2) == [n / 256, n % 256]
  {
    assert UintBytes(n / 256, 1) == UintBytes(n / 256 / 256, 0) + [n / 256 % 256];
  }

  lemma FourBytes(n: nat)
    requires n < 0x1_0000_0000
    ensures UintBytes(n, 4) == [n / 0x100_0000, n / 0x1_0000 % 256, n / 256 % 256, n % 256]
  {
    TwoBytes(n / 256 / 256);
    assert UintBytes(n / 256, 3) == UintBytes(n / 256 / 256, 2) + [n / 256 % 256];
    assert n / 256 / 256 == n / 0x1_0000;
  }

  lemma SmallInEightBytes(n: nat)
    requires n < 0x1_0000
    ensures UintBytes(n, 8) == [0, 0, 0, 0, 0, 0, n / 256, n % 256]
  {
    FourBytes(0);
    assert UintBytes(0, 6) == UintBytes(0, 5) + [0] && UintBytes(0, 5) == UintBytes(0, 4) + [0];
    assert UintBytes(n / 256, 7) == UintBytes(0, 6) + [n / 256];
  }

  lemma GoldenHeader(packed: Bytes)
    ensures RawBytes(RawHeader(50, 0x4D55_5453, 1, 2, 0x1003, 9, 0x2003, 26), packed) == GOLDEN_HEADER + packed
  {
    hide UintBytes;
    GoldenNumbers();
    assert GOLDEN_HEADER
        == [0x00, 0x00, 0x00, 0x32] + [0x4D, 0x55, 0x54, 0x53] + [0x00, 0x01] + [0x00, 0x02] + [0x10, 0x03]
           + [0x00, 0x09] + [0x00, 0x00, 0x00, 0x00, 0x00, 0x00, 0x20, 0x03] + [0x00, 0x00, 0x00, 0x1A];
  }

  /** The dispose request of the shared golden vectors encodes to exactly their bytes. */
  lemma GoldenDispose()
    ensures EncodeRequest(0x2003, RUNNER_DISPOSE, [Entry(RUNNER_ID, Text(FIXTURE_RUNNER))], DEFAULT_WIRE_LIMITS)
         == Ok(GOLDEN_HEADER + ([0x81, 0xA9] + RUNNER_ID + [0xAE] + FIXTURE_RUNNER))
  {
    hide EncodeValue, CheckValue, Packable, UintBytes;
    GoldenPayload();
    var payload := [Entry(RUNNER_ID, Text(FIXTURE_RUNNER))];
    EncodeRequestAnswers(0x2003, RUNNER_DISPOSE, payload, DEFAULT_WIRE_LIMITS);
    var packed := [0x81, 0xA9] + RUNNER_ID + [0xAE] + FIXTURE_RUNNER;
    assert |packed| == 26 && EncodeValue(Mapping(payload)) == packed;
    assert EncodeRequest(0x2003, RUNNER_DISPOSE, payload, DEFAULT_WIRE_LIMITS).Ok?;
    GoldenHeader(packed);
    EncodeAnswers(Frame(0x2003, RUNNER_DISPOSE, 9, EncodeValue(Mapping(payload))), DEFAULT_WIRE_LIMITS);
  }
}
