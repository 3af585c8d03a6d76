/** Reading request frames off a byte stream that delivers its bytes in arbitrary chunks. */
module FrameStream {
  import opened WireTypes
  import opened BigEndian
  import opened Handshake
  import opened FrameCodec
  import opened ValueCheck

  // The bytes a reader has not consumed yet.
  class InputStream {
    var rest: Bytes

    constructor (data: Bytes)
      ensures rest == data
    {
      rest := data;
    }

    // `read(n)`: some bytes, at most `n`; none only at the end of the stream.
    method Read(n: nat) returns (chunk: Bytes)
      requires n > 0
      modifies this
      ensures chunk + rest == old(rest) && |chunk| <= n
      ensures chunk == [] <==> old(rest) == []
    {
      if rest == [] {
        return [];
      }
      var size: nat :| 1 <= size <= n && size <= |rest|;
      chunk := rest[..size];
      rest := rest[size..];
    }
  }

  /** However the stream cuts its chunks, the next `length` bytes come back in one piece, or
      the stream ends first. */
  method ReadExact(stream: InputStream, length: nat) returns (r: Result<Bytes>)
    modifies stream
    ensures if |old(stream.rest)| >= length
            then r == Ok(old(stream.rest)[..length]) && stream.rest == old(stream.rest)[length..]
            else r == Err(FrameTruncated) && stream.rest == []
  {
    var chunks: Bytes := [];
    while |chunks| < length
      invariant |chunks| <= length && chunks + stream.rest == old(stream.rest)
      decreases length - |chunks|
    {
      var chunk := stream.Read(length - |chunks|);
      if chunk == [] {
        return Err(FrameTruncated);
      }
      chunks := chunks + chunk;
    }
    r := Ok(chunks);
  }

  datatype ReadOutcome = EndOfStream | Received(request: Request) | Failed(error: Failure)

  /** What one read makes of the unread bytes, and what it leaves unread. */
  function NextRequest(rest: Bytes, limits: WireLimits, unpack: Unpacker): (r: (ReadOutcome, Bytes))
    ensures r.0.Received? ==> |r.1| < |rest|
  {
    if rest == [] then (EndOfStream, [])
    else if |rest| < LENGTH_PREFIX_SIZE then (Failed(FrameTruncated), [])
    else
      var bodyLen := Field(rest, 0, 4);
      var fault := BodyLengthFault(bodyLen, limits);
      if fault.Some? then (Failed(fault.value), rest[LENGTH_PREFIX_SIZE..])
      else if |rest| < LENGTH_PREFIX_SIZE + bodyLen then (Failed(FrameTruncated), [])
      else
        var left := rest[LENGTH_PREFIX_SIZE + bodyLen..];
        match RequestPayload(rest[..LENGTH_PREFIX_SIZE + bodyLen], limits, unpack)
        case Err(e) => (Failed(e), left)
        case Ok(request) => (Received(request), left)
  }

  /** `prefix` is what the first read returned. When the length prefix arrives in one piece the
      outcome depends on the unread bytes alone; a prefix cut short is taken for a truncated frame. */
  method ReadRequest(stream: InputStream, limits: WireLimits, unpack: Unpacker)
    returns (r: ReadOutcome, ghost prefix: Bytes)
    modifies stream
    ensures prefix <= old(stream.rest) && |prefix| <= LENGTH_PREFIX_SIZE
    ensures |prefix| == LENGTH_PREFIX_SIZE || prefix == old(stream.rest) ==>
              (r, stream.rest) == NextRequest(old(stream.rest), limits, unpack)
    ensures |prefix| < LENGTH_PREFIX_SIZE && prefix != old(stream.rest) ==>
              r == Failed(FrameTruncated) && prefix + stream.rest == old(stream.rest)
  {
    ghost var before := stream.rest;
    var head := stream.Read(LENGTH_PREFIX_SIZE);
    prefix := head;
    if head == [] {
      return EndOfStream, prefix;
    }
    if |head| != LENGTH_PREFIX_SIZE {
      return Failed(FrameTruncated), prefix;
    }
    assert head == before[..4] == before[0..4];
    var bodyLen := Uint(head);
    var fault := BodyLengthFault(bodyLen, limits);
    if fault.Some? {
      return Failed(fault.value), prefix;
    }
    var body := ReadExact(stream, bodyLen);
    if body.Err? {
      return Failed(body.error), prefix;
    }
    assert head + body.value == before[..LENGTH_PREFIX_SIZE + bodyLen];
    var decoded := RequestPayload(head + body.value, limits, unpack);
    r := if decoded.Err? then Failed(decoded.error) else Received(decoded.value);
  }

  /** What a read makes of a whole body behind its length: that of the codec, consuming exactly the
      frame. A length out of range is refused before anything of the body is consumed. */
  lemma NextOfFrame(body: Bytes, tail: Bytes, limits: WireLimits, unpack: Unpacker)
    requires |body| < 0x1_0000_0000
    ensures var frame := UintBytes(|body|, 4) + body;
            NextRequest(frame + tail, limits, unpack)
            == if |body| < 24 then (Failed(FrameTruncated), body + tail)
               else if |body| > limits.maxFrameBytes then (Failed(FrameOversized), body + tail)
               else match RequestPayload(frame, limits, unpack)
                    case Ok(request) => (Received(request), tail)
                    case Err(fault) => (Failed(fault), tail)
  {
    hide NextRequest, RequestPayload, UintBytes, Uint, Pow256;
    var prefix := UintBytes(|body|, 4);
    Pow256Values();
    UintOfUintBytes(|body|, 4);
    SplitFrame(prefix, body, tail);
    NextOfSplit(prefix + body + tail, prefix + body, body + tail, tail, |body|, limits, unpack);
  }

  /** A stream that ends inside a frame whose length is in range gives up the whole of it. */
  lemma NextOfCut(body: Bytes, kept: nat, limits: WireLimits, unpack: Unpacker)
    requires 24 <= |body| <= limits.maxFrameBytes && |body| < 0x1_0000_0000 && 0 < kept < 4 + |body|
    ensures NextRequest((UintBytes(|body|, 4) + body)[..kept], limits, unpack) == (Failed(FrameTruncated), [])
  {
    hide RequestPayload, UintBytes, Uint, Pow256;
    var cut := (UintBytes(|body|, 4) + body)[..kept];
    Pow256Values();
    UintOfUintBytes(|body|, 4);
    if kept >= 4 {
      assert cut[0..4] == UintBytes(|body|, 4);
    }
  }

  lemma SplitFrame(prefix: Bytes, body: Bytes, tail: Bytes)
    requires |prefix| == 4
    ensures var rest := prefix + body + tail;
            && rest[0..4] == prefix && rest[4..] == body + tail
            && rest[..4 + |body|] == prefix + body && rest[4 + |body|..] == tail
  {
  }

  lemma NextOfSplit(rest: Bytes, frame: Bytes, behind: Bytes, tail: Bytes, length: nat,
                    limits: WireLimits, unpack: Unpacker)
    requires |rest| >= 4 + length && Uint(rest[0..4]) == length
    requires rest[4..] == behind && rest[..4 + length] == frame && rest[4 + length..] == tail
    ensures NextRequest(rest, limits, unpack)
         == if length < 24 then (Failed(FrameTruncated), behind)
            else if length > limits.maxFrameBytes then (Failed(FrameOversized), behind)
            else match RequestPayload(frame, limits, unpack)
                 case Ok(request) => (Received(request), tail)
                 case Err(fault) => (Failed(fault), tail)
  {
    hide RequestPayload, Uint;
  }

  // The limits in force at each read: an initialise among the requests can change them.
  type Schedule = nat -> WireLimits

  /** Reads until the stream ends or a read fails, the first of them under `limits(k)`. */
  function ReadAll(rest: Bytes, limits: Schedule, k: nat, unpack: Unpacker): (seq<Request>, ReadOutcome)
    decreases |rest|
  {
    var (outcome, left) := NextRequest(rest, limits(k), unpack);
    if outcome.Received? then
      var (later, end) := ReadAll(left, limits, k + 1, unpack);
      ([outcome.request] + later, end)
    else ([], outcome)
  }

  lemma NextIsFirst(rest: Bytes, limits: Schedule, k: nat, unpack: Unpacker)
    ensures NextRequest(rest, limits(k), unpack).0.Received? ==>
              var (first, left) := NextRequest(rest, limits(k), unpack);
              var (later, end) := ReadAll(left, limits, k + 1, unpack);
              ReadAll(rest, limits, k, unpack) == ([first.request] + later, end)
    ensures !NextRequest(rest, limits(k), unpack).0.Received? ==>
              ReadAll(rest, limits, k, unpack) == ([], NextRequest(rest, limits(k), unpack).0)
  {
    hide NextRequest;
  }

  /** Reads requests until the stream ends or a read fails. When every prefix arrives in one piece the
      requests and the end are those of the bytes; a prefix cut short only ends them earlier. */
  method ReadRequests(stream: InputStream, limits: Schedule, unpack: Unpacker)
    returns (requests: seq<Request>, end: ReadOutcome, ghost whole: bool)
    modifies stream
    ensures whole ==> (requests, end) == ReadAll(old(stream.rest), limits, 0, unpack)
    ensures !whole ==> end == Failed(FrameTruncated)
    ensures requests <= ReadAll(old(stream.rest), limits, 0, unpack).0
  {
    hide NextRequest, ReadAll;
    requests, whole := [], true;
    ghost var all := ReadAll(stream.rest, limits, 0, unpack);
    while true
      invariant all.0 == requests + ReadAll(stream.rest, limits, |requests|, unpack).0
      invariant all.1 == ReadAll(stream.rest, limits, |requests|, unpack).1
      decreases |stream.rest|
    {
      ghost var before := stream.rest;
      ghost var prefix;
      end, prefix := ReadRequest(stream, limits(|requests|), unpack);
      whole := |prefix| == LENGTH_PREFIX_SIZE || prefix == before;
      NextIsFirst(before, limits, |requests|, unpack);
      if !end.Received? {
        assert requests + [] == requests;
        return;
      }
      requests := requests + [end.request];
    }
  }

  // --- Stream round trip ---

  /** The request encodes, and the library unpacks what it packed. */
  predicate Sendable(r: Request, limits: WireLimits, unpack: Unpacker) {
    && EncodeRequest(r.requestId, r.opcode, r.payload, limits).Ok?
    && unpack(EncodeValue(Mapping(r.payload))) == Some(Mapping(r.payload))
  }

  function Sent(r: Request, limits: WireLimits): Bytes
    requires EncodeRequest(r.requestId, r.opcode, r.payload, limits).Ok?
  {
    EncodeRequest(r.requestId, r.opcode, r.payload, limits).value
  }

  /** Each request is sendable under the limits it will be read under. */
  predicate AllSendable(requests: seq<Request>, limits: Schedule, k: nat, unpack: Unpacker)
    decreases |requests|
  {
    requests != [] ==>
      Sendable(requests[0], limits(k), unpack) && AllSendable(requests[1..], limits, k + 1, unpack)
  }

  function SentAll(requests: seq<Request>, limits: Schedule, k: nat, unpack: Unpacker): Bytes
    requires AllSendable(requests, limits, k, unpack)
  {
    if requests == [] then []
    else Sent(requests[0], limits(k)) + SentAll(requests[1..], limits, k + 1, unpack)
  }

  // A sent request starts with the length of the rest of it.
  lemma SentAnnouncesLength(r: Request, limits: WireLimits)
    requires EncodeRequest(r.requestId, r.opcode, r.payload, limits).Ok?
    ensures |Sent(r, limits)| >= LENGTH_PREFIX_SIZE + HEADER_SIZE
    ensures Field(Sent(r, limits), 0, 4) == |Sent(r, limits)| - LENGTH_PREFIX_SIZE
    ensures BodyLengthFault(|Sent(r, limits)| - LENGTH_PREFIX_SIZE, limits).None?
  {
    hide CheckValue, Packable, EncodeValue, Encodable, Layout, Field;
    var flags := FLAG_REQUEST + (if IsManagement(r.opcode) then FLAG_MANAGEMENT else 0);
    var f := Frame(r.requestId, r.opcode, flags, EncodeValue(Mapping(r.payload)));
    assert EncodeFrame(f, limits) == Ok(Sent(r, limits));
    DecodeInvertsEncode(f, limits);
    LayoutFields(CURRENT_MINOR, f);
  }

  lemma NextOfSent(r: Request, tail: Bytes, limits: WireLimits, unpack: Unpacker)
    requires Sendable(r, limits, unpack)
    ensures NextRequest(Sent(r, limits) + tail, limits, unpack) == (Received(r), tail)
  {
    hide EncodeRequest, RequestPayload, BodyLengthFault, EncodeValue;
    var bytes := Sent(r, limits);
    SentAnnouncesLength(r, limits);
    RequestRoundTrip(r, limits, unpack);
    assert (bytes + tail)[0..4] == bytes[0..4];
    assert (bytes + tail)[..|bytes|] == bytes && (bytes + tail)[|bytes|..] == tail;
  }

  lemma NextOfTruncated(r: Request, kept: nat, limits: WireLimits, unpack: Unpacker)
    requires Sendable(r, limits, unpack) && 0 < kept < |Sent(r, limits)|
    ensures NextRequest(Sent(r, limits)[..kept], limits, unpack) == (Failed(FrameTruncated), [])
  {
    hide EncodeRequest, RequestPayload, BodyLengthFault, EncodeValue;
    SentAnnouncesLength(r, limits);
    if kept >= LENGTH_PREFIX_SIZE {
      assert Sent(r, limits)[..kept][0..4] == Sent(r, limits)[0..4];
    }
  }

  lemma {:induction false} ReadAllOfSent(
      requests: seq<Request>, tail: Bytes, limits: Schedule, k: nat, unpack: Unpacker)
    requires AllSendable(requests, limits, k, unpack)
    ensures var (later, end) := ReadAll(tail, limits, k + |requests|, unpack);
            ReadAll(SentAll(requests, limits, k, unpack) + tail, limits, k, unpack) == (requests + later, end)
  {
    hide NextRequest, ReadAll, EncodeRequest, EncodeValue;
    var (later, end) := ReadAll(tail, limits, k + |requests|, unpack);
    if requests == [] {
      assert SentAll(requests, limits, k, unpack) + tail == tail;
      assert requests + later == later;
    } else {
      var others := SentAll(requests[1..], limits, k + 1, unpack) + tail;
      assert SentAll(requests, limits, k, unpack) + tail == Sent(requests[0], limits(k)) + others;
      NextOfSent(requests[0], others, limits(k), unpack);
      NextIsFirst(Sent(requests[0], limits(k)) + others, limits, k, unpack);
      ReadAllOfSent(requests[1..], tail, limits, k + 1, unpack);
      assert [requests[0]] + (requests[1..] + later) == requests + later;
    }
  }

  /** Frames written back to back are read back in order, and then the stream ends. */
  lemma StreamRoundTrip(requests: seq<Request>, limits: Schedule, unpack: Unpacker)
    requires AllSendable(requests, limits, 0, unpack)
    ensures ReadAll(SentAll(requests, limits, 0, unpack), limits, 0, unpack) == (requests, EndOfStream)
  {
    assert NextRequest([], limits(|requests|), unpack) == (EndOfStream, []);
    hide *;
    ReadAllOfSent(requests, [], limits, 0, unpack);
    NextIsFirst([], limits, |requests|, unpack);
    assert SentAll(requests, limits, 0, unpack) + [] == SentAll(requests, limits, 0, unpack);
    assert requests + [] == requests;
  }

  /** A last frame cut anywhere yields no request: the whole ones come out, then a failure. */
  lemma TruncatedTailYieldsNothing(requests: seq<Request>, last: Request, kept: nat,
                                   limits: Schedule, unpack: Unpacker)
    requires AllSendable(requests, limits, 0, unpack)
    requires Sendable(last, limits(|requests|), unpack) && 0 < kept < |Sent(last, limits(|requests|))|
    ensures ReadAll(SentAll(requests, limits, 0, unpack) + Sent(last, limits(|requests|))[..kept],
                    limits, 0, unpack)
         == (requests, Failed(FrameTruncated))
  {
    hide NextRequest, ReadAll, AllSendable, SentAll, EncodeRequest, EncodeValue;
    var cut := Sent(last, limits(|requests|))[..kept];
    ReadAllOfSent(requests, cut, limits, 0, unpack);
    NextOfTruncated(last, kept, limits(|requests|), unpack);
    NextIsFirst(cut, limits, |requests|, unpack);
    assert requests + [] == requests;
  }
}
