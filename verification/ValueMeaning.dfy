/** What packed bytes denote, read off the MessagePack specification, and that packing a value
    yields bytes that denote that value and no other. */
module ValueMeaning {
  import opened WireTypes
  import opened BigEndian
  import opened Handshake
  import opened ValueCheck
  import opened FrameCodec
  import F = MsgPackFormats
  import G = MsgPackGrammar

  // --- The value of a derivation ---

  // `None` for what the value domain does not have: extensions, single-precision floats, mappings
  // with keys that are not text.
  function ValueOf(t: F.Item): Option<Value>
    decreases t, 0
  {
    match t
    case Nil => Some(NoneValue)
    case Boolean(b) => Some(Bool(b))
    case PositiveFixInt(n) => Some(Int(n))
    case NegativeFixInt(low) => Some(Int(low - 32))
    case Number(format, payload) =>
      if format.Float64? then Some(Float(payload))
      else if IntOf(t).Some? then Some(Int(IntOf(t).value))
      else None
    case FixStr(payload) => Some(Text(payload))
    case Str(_, payload) => Some(Text(payload))
    case Bin(_, payload) => Some(Blob(payload))
    case FixContainer(isMap, items) => ContainerOf(isMap, items)
    case Container(_, isMap, items) => ContainerOf(isMap, items)
    case FixExt(_, _, _) => None
    case Ext(_, _, _) => None
  }

  function ContainerOf(isMap: bool, items: seq<F.Item>): Option<Value>
    decreases items, 2
  {
    if isMap then
      match EntriesOf(items)
      case Some(entries) => Some(Mapping(entries))
      case None => None
    else
      match ElementsOf(items)
      case Some(elements) => Some(List(elements))
      case None => None
  }

  function ElementsOf(items: seq<F.Item>): Option<seq<Value>>
    decreases items, 1
  {
    if items == [] then Some([])
    else
      match (ValueOf(items[0]), ElementsOf(items[1..]))
      case (Some(first), Some(rest)) => Some([first] + rest)
      case _ => None
  }

  // A map lists key, value, key, value, and so on.
  function EntriesOf(items: seq<F.Item>): Option<seq<Entry>>
    decreases items, 1
  {
    if items == [] then Some([])
    else if |items| == 1 then None
    else
      match (ValueOf(items[0]), ValueOf(items[1]), EntriesOf(items[2..]))
      case (Some(Text(key)), Some(value), Some(rest)) => Some([Entry(key, value)] + rest)
      case _ => None
  }

  // --- Packing keeps the value ---

  /** The tree that a value is packed as denotes that value. */
  lemma {:induction false} PackMeans(v: Value)
    requires Packable(v)
    ensures ValueOf(Pack(v)) == Some(v)
    decreases v, 0
  {
    hide IntOf, PackInt;
    match v
    case Int(n) => IntMeans(n);
    case List(elements) => PackElementsMean(elements);
    case Mapping(entries) => PackEntriesMean(entries);
    case _ =>
  }

  lemma IntMeans(n: int)
    requires Packable(Int(n))
    ensures ValueOf(PackInt(n)) == Some(Int(n))
  {
    PackIntMeans(n);
    hide Uint, UintBytes, Pow256;
  }

  lemma {:induction false} PackElementsMean(elements: seq<Value>)
    requires ElementsPackable(elements)
    ensures ElementsOf(PackElements(elements)) == Some(elements)
    decreases elements, 1
  {
    if elements != [] {
      PackMeans(elements[0]);
      PackElementsMean(elements[1..]);
      assert PackElements(elements)[1..] == PackElements(elements[1..]);
      assert elements == [elements[0]] + elements[1..];
    }
  }

  lemma {:induction false} PackEntriesMean(entries: seq<Entry>)
    requires EntriesPackable(entries)
    ensures EntriesOf(PackEntries(entries)) == Some(entries)
    decreases entries, 1
  {
    if entries != [] {
      var items := PackEntries(entries);
      PackMeans(entries[0].value);
      PackEntriesMean(entries[1..]);
      assert items[2..] == PackEntries(entries[1..]);
      assert ValueOf(items[0]) == Some(Text(entries[0].key));
      assert entries == [Entry(entries[0].key, entries[0].value)] + entries[1..];
    }
  }

  // --- On bytes ---

  /** The bytes are the encoding of a derivation that denotes `v`. */
  ghost predicate Denotes(bytes: Bytes, v: Value) {
    exists t :: Derivation(t, bytes) && ValueOf(t) == Some(v)
  }

  ghost predicate Derivation(t: F.Item, bytes: Bytes) {
    F.WellFormed(t) && F.Encoding(t) == bytes
  }

  /** Bytes denote at most one value. */
  lemma DenotationIsUnique(bytes: Bytes, v: Value, w: Value)
    requires Denotes(bytes, v) && Denotes(bytes, w)
    ensures v == w
  {
    hide F.WellFormed, F.Encoding, ValueOf;
    var t :| Derivation(t, bytes) && ValueOf(t) == Some(v);
    var u :| Derivation(u, bytes) && ValueOf(u) == Some(w);
    G.DerivationIsUnique(t, u);
  }

  /** The packed bytes denote the value that was packed, and nothing else. */
  lemma PackedBytesMean(v: Value, w: Value)
    requires Packable(v)
    ensures Denotes(EncodeValue(v), w) <==> v == w
  {
    hide F.WellFormed, F.Encoding, ValueOf, Pack, Packable;
    PackIsWellFormed(v);
    PackMeans(v);
    assert Derivation(Pack(v), EncodeValue(v));
    assert Denotes(EncodeValue(v), v);
    if Denotes(EncodeValue(v), w) {
      DenotationIsUnique(EncodeValue(v), v, w);
    }
  }

  /** The limits a receiver gives its unpacker do not touch the value. */
  predicate IsWithin(v: Value, bytes: Bytes, limits: WireLimits) {
    CheckValue(v, limits.maxInlineResourceBytes, 0).None? && |bytes| <= limits.maxPayloadBytes
  }

  /** An unpacker that keeps to the specification: what it returns is what the bytes denote, and
      within the limits it returns something whenever they denote something. */
  ghost predicate KeepsToSpecification(unpack: Unpacker, limits: WireLimits) {
    forall bytes, v: Value ::
      && (unpack(bytes) == Some(v) ==> Denotes(bytes, v))
      && (Denotes(bytes, v) && IsWithin(v, bytes, limits) ==> unpack(bytes).Some?)
  }

  /** With any such unpacker every request that encodes is decoded to itself. */
  lemma SpecifiedRoundTrip(r: Request, limits: WireLimits, unpack: Unpacker)
    requires EncodeRequest(r.requestId, r.opcode, r.payload, limits).Ok? && KeepsToSpecification(unpack, limits)
    ensures RequestPayload(EncodeRequest(r.requestId, r.opcode, r.payload, limits).value, limits, unpack) == Ok(r)
  {
    hide RequestPayload, EncodeRequest, EncodeValue, Packable, Denotes, CheckValue, EncodeFrame, DecodeFrame;
    RequestRoundTrip(r, limits, unpack);
    SentPassesChecks(r, limits);
    DecodeInvertsEncode(RequestFrame(r), limits);
    var v := Mapping(r.payload);
    PackedBytesMean(v, v);
    assert IsWithin(v, EncodeValue(v), limits);
    if unpack(EncodeValue(v)).Some? {
      PackedBytesMean(v, unpack(EncodeValue(v)).value);
    }
  }

  // --- The specification's bytes ---

  /** The format bytes that the specification gives to the values of each kind. */
  lemma FormatBytes(v: Value)
    requires Packable(v)
    ensures v.NoneValue? ==> EncodeValue(v) == [0xC0]
    ensures v.Bool? ==> EncodeValue(v) == [if v.b then 0xC3 else 0xC2]
    ensures v.Float? ==> EncodeValue(v) == [0xCB] + v.bits
    ensures v.Int? ==> EncodeValue(v)[0] == IntMarker(v.n)
    ensures v.Text? ==>
              EncodeValue(v)[0] == if |v.utf8| < 32 then 0xA0 + |v.utf8| else 0xD9 + LengthStep(|v.utf8|)
    ensures v.Blob? ==> EncodeValue(v)[0] == 0xC4 + LengthStep(|v.data|)
    ensures v.List? ==>
              EncodeValue(v)[0] == if |v.elements| < 16 then 0x90 + |v.elements|
                                   else if |v.elements| < 0x1_0000 then 0xDC else 0xDD
    ensures v.Mapping? ==>
              EncodeValue(v)[0] == if |v.entries| < 16 then 0x80 + |v.entries|
                                   else if |v.entries| < 0x1_0000 then 0xDE else 0xDF
  {
    hide UintBytes, PackElements, PackEntries, F.Encodings, F.Marker, PackInt, IntMarker;
    if v.Int? {
      IntMarkers(v.n);
    } else if !v.List? && !v.Mapping? {
      PlainMarkers(v);
    } else {
      ContainerMarkers(v);
    }
  }

  function IntMarker(n: int): int {
    if 0 <= n < 128 then n
    else if -32 <= n < 0 then n + 256
    else if n >= 0 then
      (if n < 0x100 then 0xCC else if n < 0x1_0000 then 0xCD else if n < 0x1_0000_0000 then 0xCE else 0xCF)
    else
      (if n >= -0x80 then 0xD0 else if n >= -0x8000 then 0xD1 else if n >= -0x8000_0000 then 0xD2 else 0xD3)
  }

  // The 8, 16 and 32-bit lengths of a family follow one another.
  function LengthStep(length: nat): nat {
    if length < 0x100 then 0 else if length < 0x1_0000 then 1 else 2
  }

  lemma IntMarkers(n: int)
    requires Packable(Int(n))
    ensures F.Marker(PackInt(n)) == IntMarker(n)
  {
    hide UintBytes;
  }

  lemma PlainMarkers(v: Value)
    requires Packable(v) && !v.Int? && !v.List? && !v.Mapping?
    ensures v.NoneValue? ==> F.Marker(Pack(v)) == 0xC0
    ensures v.Bool? ==> F.Marker(Pack(v)) == if v.b then 0xC3 else 0xC2
    ensures v.Float? ==> F.Marker(Pack(v)) == 0xCB
    ensures v.Text? ==>
              F.Marker(Pack(v)) == if |v.utf8| < 32 then 0xA0 + |v.utf8| else 0xD9 + LengthStep(|v.utf8|)
    ensures v.Blob? ==> F.Marker(Pack(v)) == 0xC4 + LengthStep(|v.data|)
  {
  }

  lemma ContainerMarkers(v: Value)
    requires Packable(v) && (v.List? || v.Mapping?)
    ensures v.List? ==>
              F.Marker(Pack(v)) == if |v.elements| < 16 then 0x90 + |v.elements|
                                   else if |v.elements| < 0x1_0000 then 0xDC else 0xDD
    ensures v.Mapping? ==>
              F.Marker(Pack(v)) == if |v.entries| < 16 then 0x80 + |v.entries|
                                   else if |v.entries| < 0x1_0000 then 0xDE else 0xDF
  {
    hide PackElements, PackEntries;
  }

  /** The mapping {"a": 1}. */
  lemma SmallMappingBytes()
    ensures Packable(Mapping([Entry([0x61], Int(1))]))
    ensures EncodeValue(Mapping([Entry([0x61], Int(1))])) == [0x81, 0xA1, 0x61, 0x01]
  {
    var entries := [Entry([0x61], Int(1))];
    assert entries[1..] == [];
    var items := PackEntries(entries);
    assert items == [F.FixStr([0x61]), F.PositiveFixInt(1)];
    assert items[1..][1..] == [] && F.Encodings([]) == [];
    assert F.Encodings(items[1..]) == F.Encoding(items[1]) + F.Encodings(items[1..][1..]) == [0x01];
    assert F.Encodings(items) == F.Encoding(items[0]) + F.Encodings(items[1..]) == [0xA1, 0x61, 0x01];
  }
}
