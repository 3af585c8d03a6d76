/** Wire limits and the negotiation of `plugin.initialize`. */
module Handshake {
  import opened WireTypes

  const SCHEMA_REVISION := "mutsuki.runtime.wire/1.3.0"
  const CURRENT_MAJOR := 1
  const CURRENT_MINOR := 2

  const REQUIRED_FEATURES: seq<string> :=
    ["typed_requests", "out_of_order_responses", "resource_ref_required_for_large_bytes"]

  datatype WireLimits = WireLimits(
    maxFrameBytes: int,
    maxPayloadBytes: int,
    maxJsonlLineBytes: int,
    maxInlineResourceBytes: int,
    maxInFlight: int,
    managementReserved: int)
  {
    predicate Valid() {
      && maxFrameBytes > 0 && maxPayloadBytes > 0
      && maxJsonlLineBytes > 0 && maxInlineResourceBytes > 0
      && maxPayloadBytes <= maxFrameBytes
      && maxInlineResourceBytes <= maxPayloadBytes
      && maxInFlight >= 2
      && 0 < managementReserved < maxInFlight
    }

    // What non-management requests may use.
    function WorkCapacity(): int {
      maxInFlight - managementReserved
    }
  }

  const DEFAULT_WIRE_LIMITS := WireLimits(8_388_608, 4_194_304, 8_388_608, 65_536, 64, 8)

  // A hello, and the acknowledgement that answers it.
  datatype Hello = Hello(
    major: int,
    minor: int,
    codecId: string,
    schemaRevision: string,
    maxFrameBytes: int,
    maxPayloadBytes: int,
    maxInFlight: int,
    managementReserved: int,
    managementChannel: bool,
    featureFlags: seq<string>)

  function HelloForCodec(codecId: string, limits: WireLimits): Result<Hello> {
    if !limits.Valid() then Err(LimitMismatch)
    else Ok(Hello(CURRENT_MAJOR, CURRENT_MINOR, codecId, SCHEMA_REVISION, limits.maxFrameBytes,
                  limits.maxPayloadBytes, limits.maxInFlight, limits.managementReserved, true,
                  REQUIRED_FEATURES))
  }

  function Min(a: int, b: int): int {
    if a <= b then a else b
  }

  predicate OfferedLimitsValid(hello: Hello) {
    && hello.maxFrameBytes > 0 && hello.maxPayloadBytes > 0 && hello.maxInFlight > 0
    && 0 < hello.managementReserved < hello.maxInFlight
  }

  // The refusal for a peer that lacks a required feature, if any.
  function MissingFeature(required: Hello, offered: Hello): Option<Failure> {
    if required.managementChannel && !offered.managementChannel then Some(ManagementChannelRequired)
    else if exists flag :: flag in required.featureFlags && flag !in offered.featureFlags then Some(FeatureMissing)
    else None
  }

  function Negotiate(hello: Hello, expectedCodec: string, limits: WireLimits): Result<Hello> {
    if !limits.Valid() then Err(LimitMismatch)
    else if hello.major != CURRENT_MAJOR then Err(VersionMismatch)
    else if hello.codecId != expectedCodec then Err(CodecMismatch)
    else if hello.schemaRevision != SCHEMA_REVISION then Err(SchemaMismatch)
    else if !OfferedLimitsValid(hello) then Err(LimitMismatch)
    else
      match HelloForCodec(expectedCodec, DEFAULT_WIRE_LIMITS)
      case Err(e) => Err(e)
      case Ok(required) =>
        var missing := MissingFeature(required, hello);
        if missing.Some? then Err(missing.value)
        else Ok(Hello(
            CURRENT_MAJOR, CURRENT_MINOR, expectedCodec, SCHEMA_REVISION,
            Min(hello.maxFrameBytes, limits.maxFrameBytes),
            Min(hello.maxPayloadBytes, limits.maxPayloadBytes),
            Min(hello.maxInFlight, limits.maxInFlight),
            Min(Min(hello.managementReserved, limits.managementReserved), hello.maxInFlight - 1),
            hello.managementChannel,
            hello.featureFlags))
  }

  function Negotiated(limits: WireLimits, ack: Hello): Result<WireLimits> {
    var updated := limits.(
      maxFrameBytes := ack.maxFrameBytes, maxPayloadBytes := ack.maxPayloadBytes,
      maxInFlight := ack.maxInFlight, managementReserved := ack.managementReserved);
    if updated.Valid() then Ok(updated) else Err(LimitMismatch)
  }

  /** What a `plugin.initialize` request does to a connection's limits. */
  function Initialize(hello: Hello, codec: string, limits: WireLimits): Result<(Hello, WireLimits)> {
    match Negotiate(hello, codec, limits)
    case Err(e) => Err(e)
    case Ok(ack) =>
      match Negotiated(limits, ack)
      case Err(e) => Err(e)
      case Ok(updated) => Ok((ack, updated))
  }

  /** The peer's check of an acknowledgement against the hello it sent. */
  function ValidateFor(ack: Hello, hello: Hello): Option<Failure> {
    if ack.major != CURRENT_MAJOR then Some(VersionMismatch)
    else if ack.codecId != hello.codecId then Some(CodecMismatch)
    else if ack.schemaRevision != hello.schemaRevision then Some(SchemaMismatch)
    else if || !(0 < ack.maxFrameBytes <= hello.maxFrameBytes)
            || !(0 < ack.maxPayloadBytes <= hello.maxPayloadBytes)
            || !(0 < ack.maxInFlight <= hello.maxInFlight)
            || !(0 < ack.managementReserved <= hello.managementReserved)
            || ack.managementReserved >= ack.maxInFlight
    then Some(LimitMismatch)
    else MissingFeature(hello, ack)
  }

  /** The peer speaks this protocol, codec and schema, offers sane limits and has every
      required feature. */
  predicate Compatible(hello: Hello, codec: string) {
    && hello.major == CURRENT_MAJOR && hello.codecId == codec && hello.schemaRevision == SCHEMA_REVISION
    && OfferedLimitsValid(hello)
    && hello.managementChannel
    && forall flag | flag in REQUIRED_FEATURES :: flag in hello.featureFlags
  }

  /** Initialise succeeds exactly when the peer is compatible and the met payload limit lies
      between the inline limit and the met frame limit. */
  lemma InitializeSucceedsIff(hello: Hello, codec: string, limits: WireLimits)
    requires limits.Valid()
    ensures Initialize(hello, codec, limits).Ok?
       <==> && Compatible(hello, codec)
            && limits.maxInlineResourceBytes
            <= Min(hello.maxPayloadBytes, limits.maxPayloadBytes)
            <= Min(hello.maxFrameBytes, limits.maxFrameBytes)
  {
    assert HelloForCodec(codec, DEFAULT_WIRE_LIMITS).Ok?;
  }

  /** `meet` is the largest number that both sides allow. */
  predicate IsMeet(meet: int, a: int, b: int) {
    meet <= a && meet <= b && (meet == a || meet == b)
  }

  /** A successful initialise yields valid limits inside both offers with room for both kinds
      of request; the peer accepts the acknowledgement; re-offering it changes nothing. */
  lemma InitializeIsSoundMeet(hello: Hello, codec: string, limits: WireLimits)
    requires limits.Valid() && Initialize(hello, codec, limits).Ok?
    ensures var (ack, updated) := Initialize(hello, codec, limits).value;
            && updated.Valid() && updated.WorkCapacity() >= 1 && updated.managementReserved >= 1
            && IsMeet(updated.maxFrameBytes, hello.maxFrameBytes, limits.maxFrameBytes)
            && IsMeet(updated.maxPayloadBytes, hello.maxPayloadBytes, limits.maxPayloadBytes)
            && IsMeet(updated.maxInFlight, hello.maxInFlight, limits.maxInFlight)
            && IsMeet(updated.managementReserved, hello.managementReserved, limits.managementReserved)
            && updated.maxInlineResourceBytes == limits.maxInlineResourceBytes
            && updated.maxJsonlLineBytes == limits.maxJsonlLineBytes
            && ValidateFor(ack, hello).None?
            && Initialize(ack, codec, limits) == Ok((ack, updated))
            && Initialize(ack, codec, updated) == Ok((ack, updated))
  {
    assert hello.managementReserved <= hello.maxInFlight - 1;
  }

  /** An acknowledgement that the peer accepts for its own hello never widens its limits, leaves
      room for both kinds of request and keeps every required feature. */
  lemma AcceptedAckNeverWidens(ack: Hello, codec: string, limits: WireLimits)
    requires limits.Valid() && ValidateFor(ack, HelloForCodec(codec, limits).value).None?
    ensures Compatible(ack, codec)
    ensures ack.maxFrameBytes <= limits.maxFrameBytes && ack.maxPayloadBytes <= limits.maxPayloadBytes
    ensures ack.maxInFlight <= limits.maxInFlight && ack.managementReserved <= limits.managementReserved
  {
  }

  // --- What each side answers ---

  /** Valid limits are a chain of sizes, a line limit, and room for both kinds of request. */
  lemma ValidIsChain(limits: WireLimits)
    ensures limits.Valid()
       <==> && 1 <= limits.maxInlineResourceBytes <= limits.maxPayloadBytes <= limits.maxFrameBytes
            && limits.maxJsonlLineBytes >= 1
            && 1 <= limits.managementReserved <= limits.maxInFlight - 1
  {
  }

  // The tests that an offer has to pass, in the order in which they are made.
  datatype OfferTest = SameVersion | SameCodec | SameSchema | SaneLimits | HasChannel | HasFeatures

  predicate Passes(hello: Hello, codec: string, t: OfferTest) {
    match t
    case SameVersion => hello.major == 1
    case SameCodec => hello.codecId == codec
    case SameSchema => hello.schemaRevision == "mutsuki.runtime.wire/1.3.0"
    case SaneLimits =>
      hello.maxFrameBytes >= 1 && hello.maxPayloadBytes >= 1
      && 1 <= hello.managementReserved < hello.maxInFlight
    case HasChannel => hello.managementChannel
    case HasFeatures =>
      && "typed_requests" in hello.featureFlags && "out_of_order_responses" in hello.featureFlags
      && "resource_ref_required_for_large_bytes" in hello.featureFlags
  }

  function FaultOf(t: OfferTest): Failure {
    match t
    case SameVersion => VersionMismatch
    case SameCodec => CodecMismatch
    case SameSchema => SchemaMismatch
    case SaneLimits => LimitMismatch
    case HasChannel => ManagementChannelRequired
    case HasFeatures => FeatureMissing
  }

  function Rank(t: OfferTest): nat {
    match t
    case SameVersion => 0 case SameCodec => 1 case SameSchema => 2 case SaneLimits => 3 case HasChannel => 4 case HasFeatures => 5
  }

  predicate PassesBefore(hello: Hello, codec: string, rank: nat) {
    forall t: OfferTest | Rank(t) < rank :: Passes(hello, codec, t)
  }

  lemma PassesEach(hello: Hello, codec: string, rank: nat)
    requires PassesBefore(hello, codec, rank)
    ensures rank > 0 ==> Passes(hello, codec, SameVersion)
    ensures rank > 1 ==> Passes(hello, codec, SameCodec)
    ensures rank > 2 ==> Passes(hello, codec, SameSchema)
    ensures rank > 3 ==> Passes(hello, codec, SaneLimits)
    ensures rank > 4 ==> Passes(hello, codec, HasChannel)
    ensures rank > 5 ==> Passes(hello, codec, HasFeatures)
  {
    hide Passes;
  }

  /** The answer to every offer: the fault of the first test that it fails, or an acknowledgement
      that speaks for this side, keeps the offered features and lowers the offered limits. */
  lemma NegotiateAnswers(hello: Hello, codec: string, limits: WireLimits, t: OfferTest)
    requires limits.Valid()
    ensures !Passes(hello, codec, t) && PassesBefore(hello, codec, Rank(t)) ==>
              Negotiate(hello, codec, limits) == Err(FaultOf(t))
    ensures Negotiate(hello, codec, limits).Ok? <==> PassesBefore(hello, codec, 6)
    ensures Negotiate(hello, codec, limits).Ok? ==>
              var ack := Negotiate(hello, codec, limits).value;
              && ack.major == 1 && ack.minor == 2 && ack.codecId == codec
              && ack.schemaRevision == "mutsuki.runtime.wire/1.3.0"
              && ack.managementChannel && ack.featureFlags == hello.featureFlags
              && IsMeet(ack.maxFrameBytes, hello.maxFrameBytes, limits.maxFrameBytes)
              && IsMeet(ack.maxPayloadBytes, hello.maxPayloadBytes, limits.maxPayloadBytes)
              && IsMeet(ack.maxInFlight, hello.maxInFlight, limits.maxInFlight)
              && IsMeet(ack.managementReserved, hello.managementReserved, limits.managementReserved)
  {
    NegotiateInOrder(hello, codec, limits);
    hide Negotiate;
    if PassesBefore(hello, codec, 6) {
      PassesEach(hello, codec, 6);
    } else {
      var u: OfferTest :| Rank(u) < 6 && !Passes(hello, codec, u);
    }
    if PassesBefore(hello, codec, Rank(t)) {
      PassesEach(hello, codec, Rank(t));
    }
    hide PassesBefore;
  }

  lemma NegotiateInOrder(hello: Hello, codec: string, limits: WireLimits)
    requires limits.Valid()
    ensures Negotiate(hello, codec, limits)
         == if !Passes(hello, codec, SameVersion) then Err(VersionMismatch)
            else if !Passes(hello, codec, SameCodec) then Err(CodecMismatch)
            else if !Passes(hello, codec, SameSchema) then Err(SchemaMismatch)
            else if !Passes(hello, codec, SaneLimits) then Err(LimitMismatch)
            else if !Passes(hello, codec, HasChannel) then Err(ManagementChannelRequired)
            else if !Passes(hello, codec, HasFeatures) then Err(FeatureMissing)
            else Ok(Hello(
              1, 2, codec, "mutsuki.runtime.wire/1.3.0",
              Min(hello.maxFrameBytes, limits.maxFrameBytes), Min(hello.maxPayloadBytes, limits.maxPayloadBytes),
              Min(hello.maxInFlight, limits.maxInFlight), Min(hello.managementReserved, limits.managementReserved),
              true, hello.featureFlags))
  {
    assert HelloForCodec(codec, DEFAULT_WIRE_LIMITS).Ok?;
  }

  /** What is left for an initialise to fail on: the met payload limit. */
  lemma InitializeAnswers(hello: Hello, codec: string, limits: WireLimits)
    requires limits.Valid()
    ensures Negotiate(hello, codec, limits).Err? ==>
              Initialize(hello, codec, limits) == Err(Negotiate(hello, codec, limits).error)
    ensures Initialize(hello, codec, limits).Err? && Negotiate(hello, codec, limits).Ok? ==>
              Initialize(hello, codec, limits) == Err(LimitMismatch)
    ensures Initialize(hello, codec, limits).Err? ==>
              Initialize(hello, codec, limits).error
              in {VersionMismatch, CodecMismatch, SchemaMismatch, LimitMismatch, ManagementChannelRequired,
                  FeatureMissing}
    ensures Initialize(hello, codec, limits).Ok? ==>
              var (ack, updated) := Initialize(hello, codec, limits).value;
              && Negotiate(hello, codec, limits) == Ok(ack)
              && updated == limits.(
                   maxFrameBytes := ack.maxFrameBytes, maxPayloadBytes := ack.maxPayloadBytes,
                   maxInFlight := ack.maxInFlight, managementReserved := ack.managementReserved)
  {
  }

  /** The peer accepts exactly the acknowledgements that speak its protocol, widen none of its limits,
      leave room for both kinds of request and keep all its features; else it names the first fault. */
  lemma ValidateForAnswers(ack: Hello, hello: Hello)
    ensures ValidateFor(ack, hello) == Some(VersionMismatch) <==> ack.major != 1
    ensures ValidateFor(ack, hello) == Some(CodecMismatch) <==> ack.major == 1 && ack.codecId != hello.codecId
    ensures ValidateFor(ack, hello) == Some(SchemaMismatch)
       <==> ack.major == 1 && ack.codecId == hello.codecId && ack.schemaRevision != hello.schemaRevision
    ensures ValidateFor(ack, hello) == Some(LimitMismatch)
       <==> && ack.major == 1 && ack.codecId == hello.codecId && ack.schemaRevision == hello.schemaRevision
            && !Narrows(ack, hello)
    ensures ValidateFor(ack, hello) == Some(ManagementChannelRequired)
       <==> && ack.major == 1 && ack.codecId == hello.codecId && ack.schemaRevision == hello.schemaRevision
            && Narrows(ack, hello) && hello.managementChannel && !ack.managementChannel
    ensures ValidateFor(ack, hello).None?
       <==> && ack.major == 1 && ack.codecId == hello.codecId && ack.schemaRevision == hello.schemaRevision
            && Narrows(ack, hello) && (hello.managementChannel ==> ack.managementChannel)
            && forall flag | flag in hello.featureFlags :: flag in ack.featureFlags
    ensures ValidateFor(ack, hello) in {
              None, Some(VersionMismatch), Some(CodecMismatch), Some(SchemaMismatch), Some(LimitMismatch),
              Some(ManagementChannelRequired), Some(FeatureMissing)}
  {
  }

  /** `ack` lies within the offer and can serve work and management. */
  predicate Narrows(ack: Hello, hello: Hello) {
    && 1 <= ack.maxFrameBytes <= hello.maxFrameBytes && 1 <= ack.maxPayloadBytes <= hello.maxPayloadBytes
    && ack.maxInFlight <= hello.maxInFlight
    && 1 <= ack.managementReserved <= hello.managementReserved
    && ack.managementReserved <= ack.maxInFlight - 1
  }

  /** Two endpoints of one codec: each side goes along exactly when its inline limit is at most the
      smaller payload limit; then both work under the same four limits, the smaller of the two each. */
  lemma EndpointsAgree(codec: string, peer: WireLimits, own: WireLimits)
    requires peer.Valid() && own.Valid()
    ensures HelloForCodec(codec, peer).Ok?
    ensures var hello := HelloForCodec(codec, peer).value;
            var (frame, payload) := (Min(peer.maxFrameBytes, own.maxFrameBytes),
                                     Min(peer.maxPayloadBytes, own.maxPayloadBytes));
            var here := Initialize(hello, codec, own);
            && (here.Ok? <==> own.maxInlineResourceBytes <= payload)
            && (here.Ok? ==>
                  var (ack, ours) := here.value;
                  var there := Negotiated(peer, ack);
                  && ValidateFor(ack, hello).None?
                  && (there.Ok? <==> peer.maxInlineResourceBytes <= payload)
                  && ours.maxFrameBytes == frame && ours.maxPayloadBytes == payload
                  && ours.maxInFlight == Min(peer.maxInFlight, own.maxInFlight)
                  && ours.managementReserved == Min(peer.managementReserved, own.managementReserved)
                  && (there.Ok? ==>
                        && there.value.maxFrameBytes == frame && there.value.maxPayloadBytes == payload
                        && there.value.maxInFlight == ours.maxInFlight
                        && there.value.managementReserved == ours.managementReserved))
  {
    var hello := HelloForCodec(codec, peer).value;
    InitializeSucceedsIff(hello, codec, own);
    if Initialize(hello, codec, own).Ok? {
      InitializeIsSoundMeet(hello, codec, own);
    }
  }
}
