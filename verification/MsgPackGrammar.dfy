/** The recogniser of `MsgPackStructure` is the bounded formats grammar of `MsgPackFormats`. */
module MsgPackGrammar {
  import opened WireTypes
  import opened BigEndian
  import opened MsgPackFormats
  import opened MsgPackStructure

  /** Every object sits at depth 64 or less and no container declares more than 65,536 entries. */
  predicate Fits(t: Item, depth: nat) {
    && depth <= 64
    && (t.FixContainer? || t.Container? ==>
          && Count(t.isMap, t.items) <= 65_536
          && forall i | 0 <= i < |t.items| :: Fits(t.items[i], depth + 1))
  }

  predicate AllFit(items: seq<Item>, depth: nat) {
    forall i | 0 <= i < |items| :: Fits(items[i], depth)
  }

  /** `part` is the encoding of one object that fits at `depth`. */
  ghost predicate Derives(part: Bytes, depth: nat) {
    exists t :: IsEncodingOf(part, t) && Fits(t, depth)
  }

  ghost predicate IsEncodingOf(part: Bytes, t: Item) {
    WellFormed(t) && Encoding(t) == part
  }

  // The first limit a left-to-right walk of the tree runs into.
  function FirstFault(t: Item, depth: nat): Option<Failure>
    decreases t, 0
  {
    if depth > MAX_NESTING_DEPTH then Some(MsgpackDepth)
    else if t.FixContainer? || t.Container? then
      if Count(t.isMap, t.items) > MAX_CONTAINER_ITEMS then Some(MsgpackContainerLimit)
      else FirstFaultAmong(t.items, depth + 1)
    else None
  }

  function FirstFaultAmong(items: seq<Item>, depth: nat): Option<Failure>
    decreases items, 1
  {
    if items == [] then None
    else
      var head := FirstFault(items[0], depth);
      if head.Some? then head else FirstFaultAmong(items[1..], depth)
  }

  lemma {:induction false} FaultFreeIsFits(t: Item, depth: nat)
    ensures FirstFault(t, depth).None? <==> Fits(t, depth)
    decreases t, 0
  {
    if t.FixContainer? || t.Container? {
      AllFaultFreeIsAllFit(t.items, depth + 1);
    }
  }

  lemma {:induction false} AllFaultFreeIsAllFit(items: seq<Item>, depth: nat)
    ensures FirstFaultAmong(items, depth).None? <==> AllFit(items, depth)
    decreases items, 1
  {
    if items != [] {
      FaultFreeIsFits(items[0], depth);
      AllFaultFreeIsAllFit(items[1..], depth);
      assert AllFit(items, depth) <==> Fits(items[0], depth) && AllFit(items[1..], depth) by {
        assert forall i | 0 < i < |items| :: items[i] == items[1..][i - 1];
      }
    }
  }

  // --- Completeness: what the parser does on an encoded tree ---

  lemma LengthFieldRead(data: Bytes, offset: nat, n: nat, width: nat)
    requires n < Pow256(width)
    requires At(data, offset, UintBytes(n, width))
    ensures ReadUint(data, offset, width) == Ok((n, offset + width))
  {
    UintOfUintBytes(n, width);
  }

  // The layout that a tree's format announces with its first byte.
  function LayoutFor(t: Item): Layout {
    match t
    case PositiveFixInt(_) => Complete
    case NegativeFixInt(_) => Complete
    case Nil => Complete
    case Boolean(_) => Complete
    case Number(_, payload) => Body(|payload|)
    case FixExt(_, _, payload) => Body(1 + |payload|)
    case Ext(w, _, _) => SizedBody(WidthBytes(w), 1)
    case FixStr(payload) => Body(|payload|)
    case Str(w, _) => SizedBody(WidthBytes(w), 0)
    case Bin(w, _) => SizedBody(WidthBytes(w), 0)
    case FixContainer(isMap, items) => Members(isMap, Count(isMap, items))
    case Container(wide, isMap, _) => SizedMembers(isMap, ContainerWidth(wide))
  }

  lemma FixMarkers(n: nat)
    ensures LayoutOf(0xC0).Complete? && LayoutOf(0xC2).Complete? && LayoutOf(0xC3).Complete?
    ensures LayoutOf(n % 0x80).Complete? && LayoutOf(0xE0 + n % 0x20).Complete?
    ensures LayoutOf(0xA0 + n % 0x20) == Body(n % 0x20)
    ensures LayoutOf(0x80 + n % 0x10) == Members(true, n % 0x10)
    ensures LayoutOf(0x90 + n % 0x10) == Members(false, n % 0x10)
    ensures LayoutOf(0xD4 + n % 5) == Body(1 + FixExtSize(n % 5))
  {
  }

  lemma NumberMarkers(f: NumberFormat)
    ensures LayoutOf(NumberMarker(f)) == Body(NumberSize(f))
  {
  }

  lemma SizedMarkers(w: LengthWidth)
    ensures LayoutOf(0xC4 + WidthIndex(w)) == LayoutOf(0xD9 + WidthIndex(w)) == SizedBody(WidthBytes(w), 0)
    ensures LayoutOf(0xC7 + WidthIndex(w)) == SizedBody(WidthBytes(w), 1)
  {
  }

  lemma ContainerMarkers(wide: bool, isMap: bool)
    ensures LayoutOf(ContainerMarker(wide, isMap)) == SizedMembers(isMap, ContainerWidth(wide))
  {
  }

  lemma MarkerAnnouncesLayout(t: Item)
    requires WellFormed(t)
    ensures LayoutOf(Marker(t)) == LayoutFor(t)
  {
    hide LayoutOf, Pow256, NumberMarker, NumberSize, WidthIndex, WidthBytes, ContainerMarker, ContainerWidth;
    match t
    case PositiveFixInt(n) => FixMarkers(n);
    case NegativeFixInt(low) => FixMarkers(low);
    case Nil => FixMarkers(0);
    case Boolean(_) => FixMarkers(0);
    case Number(f, _) => NumberMarkers(f);
    case FixExt(sizeLog, _, _) => FixMarkers(sizeLog);
    case Ext(w, _, _) => SizedMarkers(w);
    case FixStr(payload) => FixMarkers(|payload|);
    case Str(w, _) => SizedMarkers(w);
    case Bin(w, _) => SizedMarkers(w);
    case FixContainer(isMap, items) => FixMarkers(Count(isMap, items));
    case Container(wide, isMap, _) => ContainerMarkers(wide, isMap);
  }

  lemma ParsesFixedLeaf(t: Item, data: Bytes, offset: nat, depth: nat)
    requires WellFormed(t) && At(data, offset, Encoding(t)) && depth <= MAX_NESTING_DEPTH
    requires LayoutFor(t).Complete? || LayoutFor(t).Body?
    ensures ValueRun(data, offset, depth) == Run(Ok(offset + |Encoding(t)|), 1)
  {
    MarkerAnnouncesLayout(t);
    assert data[offset] == Marker(t);
    assert |Encoding(t)| == 1 + if LayoutFor(t).Body? then LayoutFor(t).size else 0;
  }

  // The part of a sized value that its length field measures, and what follows the field.
  function SizedTail(t: Item): Bytes
    requires t.Ext? || t.Str? || t.Bin?
  {
    if t.Ext? then [t.tag] + t.payload else t.payload
  }

  lemma SizedLeafParts(t: Item)
    requires WellFormed(t) && (t.Ext? || t.Str? || t.Bin?)
    ensures |t.payload| < Pow256(WidthBytes(t.width))
    ensures Encoding(t)
         == [Marker(t)] + UintBytes(|t.payload|, WidthBytes(t.width)) + SizedTail(t)
  {
  }

  // One step of the parser on a value with a length field.
  lemma SizedBodyStep(data: Bytes, offset: nat, depth: nat, marker: Byte, length: nat, tail: Bytes)
    requires depth <= MAX_NESTING_DEPTH && LayoutOf(marker).SizedBody?
    requires |tail| == length + LayoutOf(marker).extra && length < Pow256(LayoutOf(marker).width)
    requires At(data, offset, [marker] + UintBytes(length, LayoutOf(marker).width) + tail)
    ensures ValueRun(data, offset, depth)
         == Run(Ok(offset + 1 + LayoutOf(marker).width + |tail|), 1)
  {
    var field := UintBytes(length, LayoutOf(marker).width);
    AtSplit(data, offset, [marker] + field, tail);
    AtSplit(data, offset, [marker], field);
    assert data[offset] == data[offset..offset + 1][0];
    LengthFieldRead(data, offset + 1, length, LayoutOf(marker).width);
  }

  lemma ParsesSizedLeaf(t: Item, data: Bytes, offset: nat, depth: nat)
    requires WellFormed(t) && At(data, offset, Encoding(t)) && depth <= MAX_NESTING_DEPTH
    requires t.Ext? || t.Str? || t.Bin?
    ensures ValueRun(data, offset, depth) == Run(Ok(offset + |Encoding(t)|), 1)
  {
    MarkerAnnouncesLayout(t);
    SizedLeafParts(t);
    SizedBodyStep(data, offset, depth, Marker(t), |t.payload|, SizedTail(t));
  }

  function ContainerHead(t: Item): Bytes
    requires t.FixContainer? || t.Container?
  {
    if t.FixContainer? then [Marker(t)]
    else [Marker(t)] + UintBytes(Count(t.isMap, t.items), ContainerWidth(t.wide))
  }

  lemma ContainerParts(t: Item)
    requires WellFormed(t) && (t.FixContainer? || t.Container?)
    ensures AllWellFormed(t.items) && Encoding(t) == ContainerHead(t) + Encodings(t.items)
    ensures |t.items| == Count(t.isMap, t.items) * (if t.isMap then 2 else 1)
  {
  }

  // One step of the parser on a container.
  lemma SizedMembersStep(data: Bytes, offset: nat, depth: nat, marker: Byte, count: nat)
    requires depth <= MAX_NESTING_DEPTH && LayoutOf(marker).SizedMembers?
    requires count < Pow256(LayoutOf(marker).width)
    requires At(data, offset, [marker] + UintBytes(count, LayoutOf(marker).width))
    ensures ValueRun(data, offset, depth)
         == ContainerRun(data, offset + 1 + LayoutOf(marker).width, count, depth, LayoutOf(marker).isMap)
  {
    hide LayoutOf, UintBytes, Pow256, ContainerRun;
    var field := UintBytes(count, LayoutOf(marker).width);
    AtSplit(data, offset, [marker], field);
    assert data[offset] == data[offset..offset + 1][0];
    LengthFieldRead(data, offset + 1, count, LayoutOf(marker).width);
    hide ReadUint;
  }

  lemma ContainerStep(t: Item, data: Bytes, offset: nat, depth: nat)
    requires WellFormed(t) && (t.FixContainer? || t.Container?)
    requires At(data, offset, Encoding(t)) && depth <= MAX_NESTING_DEPTH
    ensures AllWellFormed(t.items) && At(data, offset + |ContainerHead(t)|, Encodings(t.items))
    ensures ValueRun(data, offset, depth)
         == ContainerRun(data, offset + |ContainerHead(t)|, Count(t.isMap, t.items), depth, t.isMap)
  {
    hide LayoutOf, Marker, Encoding, Encodings, UintBytes, Pow256, ContainerRun, Count, ReadUint;
    MarkerAnnouncesLayout(t);
    ContainerParts(t);
    AtSplit(data, offset, ContainerHead(t), Encodings(t.items));
    if t.Container? {
      hide ValueRun;
      SizedMembersStep(data, offset, depth, Marker(t), Count(t.isMap, t.items));
    } else {
      assert data[offset] == data[offset..offset + 1][0];
    }
  }

  // The parser's answer on a tree: where it ends, or its first fault.
  function TreeVerdict(t: Item, start: nat, depth: nat): Result<nat> {
    var fault := FirstFault(t, depth);
    if fault.Some? then Err(fault.value) else Ok(start + |Encoding(t)|)
  }

  function TreesVerdict(items: seq<Item>, start: nat, depth: nat): Result<nat> {
    var fault := FirstFaultAmong(items, depth);
    if fault.Some? then Err(fault.value) else Ok(start + |Encodings(items)|)
  }

  lemma {:induction false} ParsesTree(t: Item, data: Bytes, offset: nat, depth: nat)
    requires WellFormed(t) && At(data, offset, Encoding(t))
    ensures ValueRun(data, offset, depth).outcome == TreeVerdict(t, offset, depth)
    ensures TreeVerdict(t, offset, depth).Ok? ==> ValueRun(data, offset, depth).calls == Nodes(t)
    decreases t, 0
  {
    hide LayoutOf, Marker, Encoding, Uint, UintBytes, Pow256, Skip, ReadUint;
    if depth > MAX_NESTING_DEPTH {
    } else if t.FixContainer? || t.Container? {
      hide ValueRun, ContainerHead, Count;
      ContainerStep(t, data, offset, depth);
      ContainerParts(t);
      ParsesTrees(t.items, data, offset + |ContainerHead(t)|, depth + 1);
      ContainerVerdict(t, data, offset, depth);
    } else if t.Ext? || t.Str? || t.Bin? {
      ParsesSizedLeaf(t, data, offset, depth);
    } else {
      ParsesFixedLeaf(t, data, offset, depth);
    }
  }

  lemma ContainerVerdict(t: Item, data: Bytes, offset: nat, depth: nat)
    requires t.FixContainer? || t.Container?
    requires depth <= MAX_NESTING_DEPTH && Encoding(t) == ContainerHead(t) + Encodings(t.items)
    requires |t.items| == Count(t.isMap, t.items) * (if t.isMap then 2 else 1)
    requires var first := offset + |ContainerHead(t)|;
             && ValueRun(data, offset, depth)
             == ContainerRun(data, first, Count(t.isMap, t.items), depth, t.isMap)
             && var items := ItemsRun(data, first, |t.items|, depth + 1);
             && items.outcome == TreesVerdict(t.items, first, depth + 1)
             && (items.outcome.Ok? ==> items.calls == TotalNodes(t.items))
    ensures ValueRun(data, offset, depth).outcome == TreeVerdict(t, offset, depth)
    ensures TreeVerdict(t, offset, depth).Ok? ==> ValueRun(data, offset, depth).calls == Nodes(t)
  {
    hide ValueRun, ItemsRun, Encoding, Encodings, ContainerHead, Count;
  }

  lemma {:induction false} ParsesTrees(items: seq<Item>, data: Bytes, offset: nat, depth: nat)
    requires AllWellFormed(items) && At(data, offset, Encodings(items))
    ensures ItemsRun(data, offset, |items|, depth).outcome == TreesVerdict(items, offset, depth)
    ensures TreesVerdict(items, offset, depth).Ok? ==>
              ItemsRun(data, offset, |items|, depth).calls == TotalNodes(items)
    decreases items, 1
  {
    hide ValueRun, Encoding, FirstFault, Nodes;
    if items != [] {
      AtSplit(data, offset, Encoding(items[0]), Encodings(items[1..]));
      ParsesTree(items[0], data, offset, depth);
      if FirstFault(items[0], depth).None? {
        ParsesTrees(items[1..], data, offset + |Encoding(items[0])|, depth);
      }
    }
  }

  // --- Soundness: an accepted stretch of bytes has a derivation ---

  ghost predicate Witnesses(t: Item, data: Bytes, offset: nat, end: nat) {
    offset <= end <= |data| && IsEncodingOf(data[offset..end], t)
  }

  // The tree of a value whose size its marker byte alone decides.
  function FixedItem(marker: Byte, body: Bytes): Item
    requires LayoutOf(marker).Complete? || LayoutOf(marker).Body?
    requires |body| == if LayoutOf(marker).Complete? then 0 else LayoutOf(marker).size
  {
    if marker <= 0x7F then PositiveFixInt(marker)
    else if marker >= 0xE0 then NegativeFixInt(marker - 0xE0)
    else if marker == 0xC0 then Nil
    else if marker == 0xC2 then Boolean(false)
    else if marker == 0xC3 then Boolean(true)
    else if marker <= 0xBF then FixStr(body)
    else if marker >= 0xD4 then FixExt(marker - 0xD4, body[0], body[1..])
    else Number(
        if marker == 0xCA then Float32 else if marker == 0xCB then Float64
        else if marker == 0xCC then Uint8 else if marker == 0xCD then Uint16
        else if marker == 0xCE then Uint32 else if marker == 0xCF then Uint64
        else if marker == 0xD0 then Int8 else if marker == 0xD1 then Int16
        else if marker == 0xD2 then Int32 else Int64, body)
  }

  predicate HasFixedShape(t: Item, marker: Byte, body: Bytes) {
    && WellFormed(t) && Marker(t) == marker
    && (LayoutFor(t).Complete? || LayoutFor(t).Body?) && FixedTail(t) == body
  }

  lemma NumberShape(marker: Byte, body: Bytes)
    requires 0xCA <= marker < 0xD4 && |body| == LayoutOf(marker).size
    ensures HasFixedShape(FixedItem(marker, body), marker, body)
  {
    hide Pow256, FixExtSize;
  }

  lemma FixExtShape(marker: Byte, body: Bytes)
    requires 0xD4 <= marker < 0xD9 && |body| == LayoutOf(marker).size
    ensures HasFixedShape(FixedItem(marker, body), marker, body)
  {
    hide Pow256, NumberMarker, NumberSize;
  }

  lemma FixStrShape(marker: Byte, body: Bytes)
    requires 0xA0 <= marker < 0xC0 && |body| == LayoutOf(marker).size
    ensures HasFixedShape(FixedItem(marker, body), marker, body)
  {
    hide Pow256, NumberMarker, NumberSize, FixExtSize;
  }

  lemma OneByteShape(marker: Byte)
    requires LayoutOf(marker).Complete?
    ensures HasFixedShape(FixedItem(marker, []), marker, [])
  {
    hide Pow256, NumberMarker, NumberSize, FixExtSize;
  }

  lemma FixedItemShape(marker: Byte, body: Bytes)
    requires LayoutOf(marker).Complete? || LayoutOf(marker).Body?
    requires |body| == if LayoutOf(marker).Complete? then 0 else LayoutOf(marker).size
    ensures HasFixedShape(FixedItem(marker, body), marker, body)
  {
    hide FixedItem, HasFixedShape;
    if LayoutOf(marker).Complete? {
      OneByteShape(marker);
    } else if marker < 0xC0 {
      FixStrShape(marker, body);
    } else if marker < 0xD4 {
      NumberShape(marker, body);
    } else {
      FixExtShape(marker, body);
    }
  }

  // What follows the marker of a value whose size its marker decides.
  function FixedTail(t: Item): Bytes {
    match t
    case Number(_, payload) => payload
    case FixExt(_, tag, payload) => [tag] + payload
    case FixStr(payload) => payload
    case _ => []
  }

  lemma FixedItemEncodes(marker: Byte, body: Bytes)
    requires LayoutOf(marker).Complete? || LayoutOf(marker).Body?
    requires |body| == if LayoutOf(marker).Complete? then 0 else LayoutOf(marker).size
    ensures IsEncodingOf([marker] + body, FixedItem(marker, body))
    ensures !FixedItem(marker, body).FixContainer? && !FixedItem(marker, body).Container?
  {
    FixedItemShape(marker, body);
    hide LayoutOf, FixedItem, WellFormed, Marker;
  }

  // The tree of a value with a length field of its own.
  function SizedItem(marker: Byte, body: Bytes): Item
    requires LayoutOf(marker).SizedBody? && |body| >= LayoutOf(marker).extra
  {
    if marker == 0xC4 then Bin(W8, body)
    else if marker == 0xC5 then Bin(W16, body)
    else if marker == 0xC6 then Bin(W32, body)
    else if marker == 0xC7 then Ext(W8, body[0], body[1..])
    else if marker == 0xC8 then Ext(W16, body[0], body[1..])
    else if marker == 0xC9 then Ext(W32, body[0], body[1..])
    else if marker == 0xD9 then Str(W8, body)
    else if marker == 0xDA then Str(W16, body)
    else Str(W32, body)
  }

  lemma SizedItemShape(marker: Byte, body: Bytes)
    requires LayoutOf(marker).SizedBody? && |body| >= LayoutOf(marker).extra
    ensures var t := SizedItem(marker, body);
            && (t.Ext? || t.Str? || t.Bin?) && SizedTail(t) == body
            && LayoutFor(t) == LayoutOf(marker) && Marker(t) == marker
            && |t.payload| == |body| - LayoutOf(marker).extra
  {
    hide UintBytes, WellFormed;
  }

  lemma SizedItemEncodes(marker: Byte, field: Bytes, body: Bytes)
    requires LayoutOf(marker).SizedBody? && |body| >= LayoutOf(marker).extra
    requires |field| == LayoutOf(marker).width
    requires Uint(field) == |body| - LayoutOf(marker).extra
    ensures IsEncodingOf([marker] + field + body, SizedItem(marker, body))
    ensures !SizedItem(marker, body).FixContainer? && !SizedItem(marker, body).Container?
  {
    var t := SizedItem(marker, body);
    SizedItemShape(marker, body);
    UintBytesOfUint(field);
    assert WellFormed(t) by {
      hide LayoutOf, SizedItem;
    }
    hide LayoutOf, SizedItem, Encoding, UintBytes;
    SizedLeafParts(t);
  }

  lemma FindSizedLeaf(data: Bytes, offset: nat, depth: nat) returns (t: Item)
    requires ValueRun(data, offset, depth).outcome.Ok? && LayoutOf(data[offset]).SizedBody?
    ensures Witnesses(t, data, offset, ValueRun(data, offset, depth).outcome.value)
    ensures !t.FixContainer? && !t.Container?
  {
    hide LayoutOf, Uint, UintBytes, Encoding, WellFormed, SizedItem;
    var marker := data[offset];
    var end := ValueRun(data, offset, depth).outcome.value;
    var width := LayoutOf(marker).width;
    var field, body := data[offset + 1..offset + 1 + width], data[offset + 1 + width..end];
    SizedItemEncodes(marker, field, body);
    t := SizedItem(marker, body);
    assert data[offset..end] == [marker] + field + body;
  }

  lemma FindLeaf(data: Bytes, offset: nat, depth: nat) returns (t: Item)
    requires ValueRun(data, offset, depth).outcome.Ok?
    requires !LayoutOf(data[offset]).Members? && !LayoutOf(data[offset]).SizedMembers?
    ensures Witnesses(t, data, offset, ValueRun(data, offset, depth).outcome.value)
    ensures Fits(t, depth)
  {
    hide LayoutOf, Uint, UintBytes, Encoding, WellFormed, FixedItem;
    var marker := data[offset];
    var end := ValueRun(data, offset, depth).outcome.value;
    if LayoutOf(marker).SizedBody? {
      t := FindSizedLeaf(data, offset, depth);
    } else {
      var body := data[offset + 1..end];
      FixedItemEncodes(marker, body);
      t := FixedItem(marker, body);
      assert data[offset..end] == [marker] + body;
    }
  }

  // Where the entries of a container start, and how many there are.
  lemma OpenContainer(data: Bytes, offset: nat, depth: nat) returns (isMap: bool, first: nat, count: nat)
    requires ValueRun(data, offset, depth).outcome.Ok?
    requires LayoutOf(data[offset]).Members? || LayoutOf(data[offset]).SizedMembers?
    ensures isMap == LayoutOf(data[offset]).isMap
    ensures offset < first <= ValueRun(data, offset, depth).outcome.value <= |data|
    ensures LayoutOf(data[offset]).Members? ==>
              first == offset + 1 && count == LayoutOf(data[offset]).count
    ensures LayoutOf(data[offset]).SizedMembers? ==>
              && first == offset + 1 + LayoutOf(data[offset]).width
              && count == Uint(data[offset + 1..first])
    ensures depth <= MAX_NESTING_DEPTH && count <= MAX_CONTAINER_ITEMS
    ensures ValueRun(data, offset, depth).outcome
         == ItemsRun(data, first, count * (if isMap then 2 else 1), depth + 1).outcome
  {
    isMap := LayoutOf(data[offset]).isMap;
    if LayoutOf(data[offset]).Members? {
      first, count := offset + 1, LayoutOf(data[offset]).count;
    } else {
      first := offset + 1 + LayoutOf(data[offset]).width;
      count := Uint(data[offset + 1..first]);
    }
  }

  lemma ContainerOfMarker(marker: Byte, items: seq<Item>)
    ensures LayoutOf(marker).Members? && LayoutOf(marker).count == Count(LayoutOf(marker).isMap, items) ==>
              Marker(FixContainer(LayoutOf(marker).isMap, items)) == marker && LayoutOf(marker).count < 0x10
    ensures LayoutOf(marker).SizedMembers? ==>
              && Marker(Container(marker in {0xDD, 0xDF}, LayoutOf(marker).isMap, items)) == marker
              && LayoutOf(marker).width == ContainerWidth(marker in {0xDD, 0xDF})
  {
  }

  // The container with given entries behind a given head.
  lemma CloseContainer(marker: Byte, field: Bytes, items: seq<Item>) returns (t: Item)
    requires LayoutOf(marker).Members? || LayoutOf(marker).SizedMembers?
    requires AllWellFormed(items) && (LayoutOf(marker).isMap ==> |items| % 2 == 0)
    requires LayoutOf(marker).Members? ==>
               field == [] && LayoutOf(marker).count == Count(LayoutOf(marker).isMap, items)
    requires LayoutOf(marker).SizedMembers? ==>
               |field| == LayoutOf(marker).width && Uint(field) == Count(LayoutOf(marker).isMap, items)
    ensures IsEncodingOf([marker] + field + Encodings(items), t)
    ensures (t.FixContainer? || t.Container?) && t.isMap == LayoutOf(marker).isMap && t.items == items
  {
    hide UintBytes, Encodings, Pow256;
    var isMap := LayoutOf(marker).isMap;
    UintBytesOfUint(field);
    t := if LayoutOf(marker).Members? then FixContainer(isMap, items)
         else Container(marker in {0xDD, 0xDF}, isMap, items);
    ContainerOfMarker(marker, items);
    hide LayoutOf, Marker;
    assert WellFormed(t);
  }

  lemma SplitAtHead(data: Bytes, offset: nat, first: nat, end: nat)
    requires offset < first <= end <= |data|
    ensures data[offset..end] == [data[offset]] + data[offset + 1..first] + data[first..end]
  {
  }

  lemma {:induction false} FindTree(data: Bytes, offset: nat, depth: nat) returns (t: Item)
    requires ValueRun(data, offset, depth).outcome.Ok?
    ensures Witnesses(t, data, offset, ValueRun(data, offset, depth).outcome.value)
    ensures Fits(t, depth)
    decreases |data| - offset, 0
  {
    hide LayoutOf, ValueRun, ItemsRun, Uint, Encoding, Encodings, WellFormed;
    if LayoutOf(data[offset]).Members? || LayoutOf(data[offset]).SizedMembers? {
      var isMap, first, count := OpenContainer(data, offset, depth);
      var items := FindTrees(data, first, count * (if isMap then 2 else 1), depth + 1);
      t := CloseContainer(data[offset], data[offset + 1..first], items);
      assert AllFit(items, depth + 1);
      SplitAtHead(data, offset, first, ValueRun(data, offset, depth).outcome.value);
    } else {
      t := FindLeaf(data, offset, depth);
    }
  }

  lemma {:induction false} FindTrees(data: Bytes, offset: nat, n: nat, depth: nat) returns (items: seq<Item>)
    requires offset <= |data| && ItemsRun(data, offset, n, depth).outcome.Ok?
    ensures |items| == n && AllWellFormed(items) && AllFit(items, depth)
    ensures Encodings(items) == data[offset..ItemsRun(data, offset, n, depth).outcome.value]
    decreases |data| - offset, n
  {
    hide ValueRun, Encoding, WellFormed, Fits;
    if n == 0 {
      items := [];
    } else {
      var middle := ValueRun(data, offset, depth).outcome.value;
      var end := ItemsRun(data, offset, n, depth).outcome.value;
      var first := FindTree(data, offset, depth);
      var rest := FindTrees(data, middle, n - 1, depth);
      items := [first] + rest;
      assert items[1..] == rest;
      assert data[offset..end] == data[offset..middle] + data[middle..end];
    }
  }

  // --- Unambiguity: bytes have at most one derivation ---

  lemma FixedLeafFromBytes(t: Item)
    requires WellFormed(t) && (LayoutFor(t).Complete? || LayoutFor(t).Body?)
    ensures LayoutOf(Marker(t)) == LayoutFor(t)
    ensures |Encoding(t)| == 1 + if LayoutFor(t).Complete? then 0 else LayoutFor(t).size
    ensures t == FixedItem(Marker(t), Encoding(t)[1..])
  {
    MarkerAnnouncesLayout(t);
  }

  lemma SizedItemOfMarker(t: Item)
    requires WellFormed(t) && LayoutFor(t).SizedBody?
    ensures LayoutOf(Marker(t)).SizedBody? && |SizedTail(t)| >= LayoutOf(Marker(t)).extra
    ensures t == SizedItem(Marker(t), SizedTail(t))
  {
    hide Encoding, Pow256;
    MarkerAnnouncesLayout(t);
    hide LayoutOf;
  }

  lemma SizedLeafFromBytes(t: Item)
    requires WellFormed(t) && LayoutFor(t).SizedBody?
    ensures LayoutOf(Marker(t)) == LayoutFor(t)
    ensures Encoding(t)
         == [Marker(t)] + UintBytes(|t.payload|, LayoutFor(t).width) + SizedTail(t)
    ensures |t.payload| < Pow256(LayoutFor(t).width) && |SizedTail(t)| == |t.payload| + LayoutFor(t).extra
    ensures t == SizedItem(Marker(t), SizedTail(t))
  {
    hide LayoutOf, Marker, Encoding, UintBytes, Pow256;
    MarkerAnnouncesLayout(t);
    SizedLeafParts(t);
    SizedItemOfMarker(t);
    hide SizedItem;
  }

  lemma {:induction false} SameBytesSameTree(t: Item, u: Item, data: Bytes, offset: nat)
    requires WellFormed(t) && WellFormed(u)
    requires At(data, offset, Encoding(t)) && At(data, offset, Encoding(u))
    ensures t == u
    decreases t, 0
  {
    hide LayoutOf, Marker, FixedItem, Encoding, Encodings, ContainerHead;
    MarkerAnnouncesLayout(t);
    MarkerAnnouncesLayout(u);
    assert data[offset] == Marker(t) == Marker(u);
    if LayoutFor(t).Complete? || LayoutFor(t).Body? {
      FixedLeafFromBytes(t);
      FixedLeafFromBytes(u);
    } else if LayoutFor(t).SizedBody? {
      SameSizedLeaf(t, u, data, offset);
    } else {
      SameContainerHead(t, u, data, offset);
      SameBytesSameTrees(t.items, u.items, data, offset + |ContainerHead(t)|);
    }
  }

  lemma SameLengthField(data: Bytes, offset: nat, marker: Byte, width: nat,
                        n: nat, tailN: Bytes, m: nat, tailM: Bytes)
    requires n < Pow256(width) && m < Pow256(width)
    requires At(data, offset, [marker] + UintBytes(n, width) + tailN)
    requires At(data, offset, [marker] + UintBytes(m, width) + tailM)
    ensures n == m
    ensures At(data, offset + 1 + width, tailN) && At(data, offset + 1 + width, tailM)
    ensures |tailN| == |tailM| ==> tailN == tailM
  {
    hide UintBytes, Uint, Pow256;
    AtSplit(data, offset, [marker] + UintBytes(n, width), tailN);
    AtSplit(data, offset, [marker] + UintBytes(m, width), tailM);
    AtSplit(data, offset, [marker], UintBytes(n, width));
    AtSplit(data, offset, [marker], UintBytes(m, width));
    UintOfUintBytes(n, width);
    UintOfUintBytes(m, width);
  }

  lemma SameSizedLeaf(t: Item, u: Item, data: Bytes, offset: nat)
    requires WellFormed(t) && WellFormed(u) && LayoutFor(t) == LayoutFor(u) && LayoutFor(t).SizedBody?
    requires At(data, offset, Encoding(t)) && At(data, offset, Encoding(u))
    requires Marker(t) == Marker(u)
    ensures t == u
  {
    SizedLeafFromBytes(t);
    SizedLeafFromBytes(u);
    SameLengthField(data, offset, Marker(t), LayoutFor(t).width,
                    |t.payload|, SizedTail(t), |u.payload|, SizedTail(u));
  }

  lemma SameContainerHead(t: Item, u: Item, data: Bytes, offset: nat)
    requires WellFormed(t) && WellFormed(u) && LayoutFor(t) == LayoutFor(u)
    requires LayoutFor(t).Members? || LayoutFor(t).SizedMembers?
    requires At(data, offset, Encoding(t)) && At(data, offset, Encoding(u))
    requires Marker(t) == Marker(u)
    ensures ContainerHead(t) == ContainerHead(u) && |t.items| == |u.items|
    ensures AllWellFormed(t.items) && At(data, offset + |ContainerHead(t)|, Encodings(t.items))
    ensures AllWellFormed(u.items) && At(data, offset + |ContainerHead(t)|, Encodings(u.items))
    ensures t.items == u.items ==> t == u
  {
    hide Encoding, Encodings, UintBytes, Pow256, Marker;
    ContainerParts(t);
    ContainerParts(u);
    if LayoutFor(t).SizedMembers? {
      SameLengthField(data, offset, Marker(t), LayoutFor(t).width,
                      Count(t.isMap, t.items), Encodings(t.items), Count(u.isMap, u.items), Encodings(u.items));
    } else {
      AtSplit(data, offset, ContainerHead(t), Encodings(t.items));
      AtSplit(data, offset, ContainerHead(u), Encodings(u.items));
    }
  }

  lemma {:induction false} SameBytesSameTrees(ts: seq<Item>, us: seq<Item>, data: Bytes, offset: nat)
    requires |ts| == |us| && AllWellFormed(ts) && AllWellFormed(us)
    requires At(data, offset, Encodings(ts)) && At(data, offset, Encodings(us))
    ensures ts == us
    decreases ts, 1
  {
    hide WellFormed, Encoding;
    if ts != [] {
      AtSplit(data, offset, Encoding(ts[0]), Encodings(ts[1..]));
      AtSplit(data, offset, Encoding(us[0]), Encodings(us[1..]));
      SameBytesSameTree(ts[0], us[0], data, offset);
      SameBytesSameTrees(ts[1..], us[1..], data, offset + |Encoding(ts[0])|);
    }
  }

  // --- The main results ---

  /** The parser returns `end` exactly when the bytes up to `end` derive one bounded value. */
  lemma ParserIsGrammar(data: Bytes, offset: nat, depth: nat, end: nat)
    ensures ValueRun(data, offset, depth).outcome == Ok(end)
       <==> offset <= end <= |data| && Derives(data[offset..end], depth)
  {
    hide ValueRun, Encoding, WellFormed, Fits, FirstFault;
    if ValueRun(data, offset, depth).outcome == Ok(end) {
      var t := FindTree(data, offset, depth);
    } else if offset <= end <= |data| && Derives(data[offset..end], depth) {
      var t :| IsEncodingOf(data[offset..end], t) && Fits(t, depth);
      FaultFreeIsFits(t, depth);
      ParsesTree(t, data, offset, depth);
    }
  }

  /** A payload passes the preflight exactly when all of it is one bounded value. */
  lemma PreflightIsGrammar(data: Bytes)
    ensures Validate(data).Ok? <==> Derives(data, 0)
    ensures Validate(data).Ok? ==> Validate(data).value == |data|
  {
    ParserIsGrammar(data, 0, 0, |data|);
    assert data[0..|data|] == data;
  }

  /** The result looks at nothing after the value. */
  lemma ResultIgnoresSuffix(data: Bytes, other: Bytes, offset: nat, depth: nat, end: nat)
    requires ValueRun(data, offset, depth).outcome == Ok(end)
    requires end <= |other| && other[offset..end] == data[offset..end]
    ensures ValueRun(other, offset, depth) == ValueRun(data, offset, depth)
  {
    var t := FindTree(data, offset, depth);
    FaultFreeIsFits(t, depth);
    ParsesTree(t, data, offset, depth);
    ParsesTree(t, other, offset, depth);
  }

  /** No accepted value is a proper prefix of another. */
  lemma AcceptedValuesArePrefixFree(short: Bytes, long: Bytes)
    requires Validate(short).Ok? && Validate(long).Ok? && short <= long
    ensures short == long
  {
    ResultIgnoresSuffix(short, long, 0, 0, |short|);
  }

  /** The formats are unambiguous: a byte string has at most one derivation. */
  lemma DerivationIsUnique(t: Item, u: Item)
    requires WellFormed(t) && WellFormed(u) && Encoding(t) == Encoding(u)
    ensures t == u
  {
    SameBytesSameTree(t, u, Encoding(t), 0);
  }

  /** On acceptance the recogniser makes one call per object of the value. */
  lemma CallsAreNodes(t: Item)
    requires WellFormed(t) && Fits(t, 0)
    ensures ValueRun(Encoding(t), 0, 0) == Run(Ok(|Encoding(t)|), Nodes(t))
    ensures Nodes(t) <= |Encoding(t)|
  {
    FaultFreeIsFits(t, 0);
    ParsesTree(t, Encoding(t), 0, 0);
  }
}
