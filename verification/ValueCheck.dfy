/** The in-memory value checker that runs before packing, the standard encoding of a value,
    and their agreement with the byte recogniser. */
module ValueCheck {
  import opened WireTypes
  import opened BigEndian
  import F = MsgPackFormats
  import S = MsgPackStructure
  import G = MsgPackGrammar

  // A payload value. Mapping keys are strings; text is held as its UTF-8 bytes.
  datatype Value =
    | NoneValue
    | Bool(b: bool)
    | Int(n: int)
    | Float(bits: Bytes)
    | Text(utf8: Bytes)
    | Blob(data: Bytes)
    | List(elements: seq<Value>)
    | Mapping(entries: seq<Entry>)

  datatype Entry = Entry(key: Bytes, value: Value)

  function CheckValue(v: Value, inlineLimit: int, depth: nat): Option<Failure>
    decreases v, 0
  {
    if depth > S.MAX_NESTING_DEPTH then Some(MsgpackDepth)
    else if v.Blob? then
      if |v.data| > inlineLimit then Some(InlineResourceOversized) else None
    else if v.Mapping? then
      if |v.entries| > S.MAX_CONTAINER_ITEMS then Some(MsgpackContainerLimit)
      else CheckEntries(v.entries, inlineLimit, depth + 1)
    else if v.List? then
      if |v.elements| > S.MAX_CONTAINER_ITEMS then Some(MsgpackContainerLimit)
      else CheckElements(v.elements, inlineLimit, depth + 1)
    else None
  }

  // Only the values of a mapping are visited, never its keys.
  function CheckEntries(entries: seq<Entry>, inlineLimit: int, depth: nat): Option<Failure>
    decreases entries, 1
  {
    if entries == [] then None
    else
      var head := CheckValue(entries[0].value, inlineLimit, depth);
      if head.Some? then head else CheckEntries(entries[1..], inlineLimit, depth)
  }

  function CheckElements(elements: seq<Value>, inlineLimit: int, depth: nat): Option<Failure>
    decreases elements, 1
  {
    if elements == [] then None
    else
      var head := CheckValue(elements[0], inlineLimit, depth);
      if head.Some? then head else CheckElements(elements[1..], inlineLimit, depth)
  }

  /** The checker: it fails at the first fault of a depth-first walk. */
  method ValidateValue(v: Value, inlineLimit: int, depth: nat) returns (fault: Option<Failure>)
    ensures fault == CheckValue(v, inlineLimit, depth)
    decreases v
  {
    if depth > S.MAX_NESTING_DEPTH {
      return Some(MsgpackDepth);
    }
    match v {
      case Blob(data) =>
        return if |data| > inlineLimit then Some(InlineResourceOversized) else None;
      case Mapping(entries) =>
        if |entries| > S.MAX_CONTAINER_ITEMS {
          return Some(MsgpackContainerLimit);
        }
        for i := 0 to |entries|
          invariant CheckEntries(entries, inlineLimit, depth + 1) == CheckEntries(entries[i..], inlineLimit, depth + 1)
        {
          fault := ValidateValue(entries[i].value, inlineLimit, depth + 1);
          if fault.Some? {
            return;
          }
          assert entries[i..][1..] == entries[i + 1..];
        }
      case List(elements) =>
        if |elements| > S.MAX_CONTAINER_ITEMS {
          return Some(MsgpackContainerLimit);
        }
        for i := 0 to |elements|
          invariant CheckElements(elements, inlineLimit, depth + 1) == CheckElements(elements[i..], inlineLimit, depth + 1)
        {
          fault := ValidateValue(elements[i], inlineLimit, depth + 1);
          if fault.Some? {
            return;
          }
          assert elements[i..][1..] == elements[i + 1..];
        }
      case _ =>
    }
    fault := None;
  }

  /** No bytes leaf is longer than the inline limit. */
  predicate InlineBounded(v: Value, inlineLimit: int) {
    match v
    case Blob(data) => |data| <= inlineLimit
    case List(elements) => forall i | 0 <= i < |elements| :: InlineBounded(elements[i], inlineLimit)
    case Mapping(entries) => forall i | 0 <= i < |entries| :: InlineBounded(entries[i].value, inlineLimit)
    case _ => true
  }

  predicate EntriesInlineBounded(entries: seq<Entry>, inlineLimit: int) {
    forall i | 0 <= i < |entries| :: InlineBounded(entries[i].value, inlineLimit)
  }

  predicate ElementsInlineBounded(elements: seq<Value>, inlineLimit: int) {
    forall i | 0 <= i < |elements| :: InlineBounded(elements[i], inlineLimit)
  }

  // --- The standard encoding: the shortest format that holds the value ---

  /** MessagePack can express the value: 64-bit integers, 32-bit lengths. */
  predicate Packable(v: Value) {
    match v
    case Int(n) => -0x8000_0000_0000_0000 <= n < 0x1_0000_0000_0000_0000
    case Float(bits) => |bits| == 8
    case Text(utf8) => |utf8| < 0x1_0000_0000
    case Blob(data) => |data| < 0x1_0000_0000
    case List(elements) =>
      |elements| < 0x1_0000_0000 && forall i | 0 <= i < |elements| :: Packable(elements[i])
    case Mapping(entries) =>
      |entries| < 0x1_0000_0000 && forall i | 0 <= i < |entries| ::
        |entries[i].key| < 0x1_0000_0000 && Packable(entries[i].value)
    case _ => true
  }

  predicate EntriesPackable(entries: seq<Entry>) {
    forall i | 0 <= i < |entries| :: |entries[i].key| < 0x1_0000_0000 && Packable(entries[i].value)
  }

  predicate ElementsPackable(elements: seq<Value>) {
    forall i | 0 <= i < |elements| :: Packable(elements[i])
  }

  function PackInt(n: int): F.Item
    requires Packable(Int(n))
  {
    if 0 <= n < 0x80 then F.PositiveFixInt(n)
    else if -0x20 <= n < 0 then F.NegativeFixInt(n + 0x20)
    else if 0 <= n < 0x100 then F.Number(F.Uint8, UintBytes(n, 1))
    else if 0 <= n < 0x1_0000 then F.Number(F.Uint16, UintBytes(n, 2))
    else if 0 <= n < 0x1_0000_0000 then F.Number(F.Uint32, UintBytes(n, 4))
    else if 0 <= n then F.Number(F.Uint64, UintBytes(n, 8))
    else if -0x80 <= n then F.Number(F.Int8, UintBytes(n + 0x100, 1))
    else if -0x8000 <= n then F.Number(F.Int16, UintBytes(n + 0x1_0000, 2))
    else if -0x8000_0000 <= n then F.Number(F.Int32, UintBytes(n + 0x1_0000_0000, 4))
    else F.Number(F.Int64, UintBytes(n + 0x1_0000_0000_0000_0000, 8))
  }

  function ShortestWidth(length: nat): F.LengthWidth {
    if length < 0x100 then F.W8 else if length < 0x1_0000 then F.W16 else F.W32
  }

  function PackText(utf8: Bytes): F.Item {
    if |utf8| < 0x20 then F.FixStr(utf8) else F.Str(ShortestWidth(|utf8|), utf8)
  }

  function PackContainer(isMap: bool, items: seq<F.Item>): F.Item {
    var count := F.Count(isMap, items);
    if count < 0x10 then F.FixContainer(isMap, items)
    else F.Container(count >= 0x1_0000, isMap, items)
  }

  function Pack(v: Value): F.Item
    requires Packable(v)
    decreases v, 0
  {
    match v
    case NoneValue => F.Nil
    case Bool(b) => F.Boolean(b)
    case Int(n) => PackInt(n)
    case Float(bits) => F.Number(F.Float64, bits)
    case Text(utf8) => PackText(utf8)
    case Blob(data) => F.Bin(ShortestWidth(|data|), data)
    case List(elements) => PackContainer(false, PackElements(elements))
    case Mapping(entries) => PackContainer(true, PackEntries(entries))
  }

  function PackElements(elements: seq<Value>): (items: seq<F.Item>)
    requires ElementsPackable(elements)
    ensures |items| == |elements|
    decreases elements, 1
  {
    if elements == [] then [] else [Pack(elements[0])] + PackElements(elements[1..])
  }

  function PackEntries(entries: seq<Entry>): (items: seq<F.Item>)
    requires EntriesPackable(entries)
    ensures |items| == 2 * |entries|
    decreases entries, 1
  {
    if entries == [] then []
    else [PackText(entries[0].key), Pack(entries[0].value)] + PackEntries(entries[1..])
  }

  function EncodeValue(v: Value): Bytes
    requires Packable(v)
  {
    F.Encoding(Pack(v))
  }

  /** The integer that a format denotes: unsigned, or in two's complement. */
  function IntOf(t: F.Item): Option<int> {
    match t
    case PositiveFixInt(n) => Some(n)
    case NegativeFixInt(low) => Some(low - 0x20)
    case Number(format, payload) => (
      match format
      case Uint8 => Some(Uint(payload)) case Uint16 => Some(Uint(payload))
      case Uint32 => Some(Uint(payload)) case Uint64 => Some(Uint(payload))
      case Float32 => None case Float64 => None
      case _ => Some(Signed(Uint(payload), Pow256(|payload|))))
    case _ => None
  }

  function Signed(n: nat, modulus: nat): int {
    if 2 * n < modulus then n else n - modulus
  }

  lemma PackIntMeans(n: int)
    requires Packable(Int(n))
    ensures IntOf(PackInt(n)) == Some(n)
    ensures |F.Encoding(PackInt(n))| == IntSize(n)
  {
    hide Uint, UintBytes, Pow256;
    Pow256Values();
    var p := PackInt(n);
    if p.Number? {
      var width := F.NumberSize(p.format);
      UintOfUintBytes(if n < 0 then n + Pow256(width) else n, width);
    }
  }

  // The size of the packed integer.
  function IntSize(n: int): nat {
    if -0x20 <= n < 0x80 then 1
    else if -0x80 <= n < 0x100 then 2
    else if -0x8000 <= n < 0x1_0000 then 3
    else if -0x8000_0000 <= n < 0x1_0000_0000 then 5
    else 9
  }

  lemma NoFormatIsShorter(t: F.Item)
    requires F.WellFormed(t) && IntOf(t).Some?
    ensures IntSize(IntOf(t).value) <= |F.Encoding(t)|
  {
    hide Uint, UintBytes, Pow256;
    Pow256Values();
    if t.Number? {
      UintBound(t.payload);
      assert |F.Encoding(t)| == 1 + F.NumberSize(t.format);
    }
  }

  /** Integers are packed as themselves, in the shortest format that can denote them. */
  lemma IntIsPackedShortest(n: int, t: F.Item)
    requires Packable(Int(n))
    ensures IntOf(PackInt(n)) == Some(n)
    ensures F.WellFormed(t) && IntOf(t) == Some(n) ==> |F.Encoding(PackInt(n))| <= |F.Encoding(t)|
  {
    PackIntMeans(n);
    if F.WellFormed(t) && IntOf(t) == Some(n) {
      NoFormatIsShorter(t);
    }
    hide F.Encoding, PackInt, IntOf;
  }

  /** Text, bytes and containers too are packed in the shortest format of their family. */
  lemma LengthsArePackedShortest(v: Value, t: F.Item)
    requires Packable(v) && F.WellFormed(t)
    requires || (v.Text? && (t.FixStr? || t.Str?) && t.payload == v.utf8)
             || (v.Blob? && t.Bin? && t.payload == v.data)
             || (v.List? && (t.FixContainer? || t.Container?) && !t.isMap && t.items == PackElements(v.elements))
             || (v.Mapping? && (t.FixContainer? || t.Container?) && t.isMap && t.items == PackEntries(v.entries))
    ensures |EncodeValue(v)| <= |F.Encoding(t)|
  {
    Pow256Values();
    hide UintBytes, Pow256;
  }

  // --- The two checkers agree ---

  lemma {:induction false} PackIsWellFormed(v: Value)
    requires Packable(v)
    ensures F.WellFormed(Pack(v))
    decreases v, 0
  {
    Pow256Values();
    match v
    case List(elements) => PackElementsAreWellFormed(elements);
    case Mapping(entries) => PackEntriesAreWellFormed(entries);
    case _ =>
  }

  lemma {:induction false} PackElementsAreWellFormed(elements: seq<Value>)
    requires ElementsPackable(elements)
    ensures F.AllWellFormed(PackElements(elements))
    decreases elements, 1
  {
    if elements != [] {
      PackIsWellFormed(elements[0]);
      PackElementsAreWellFormed(elements[1..]);
    }
  }

  lemma {:induction false} PackEntriesAreWellFormed(entries: seq<Entry>)
    requires EntriesPackable(entries)
    ensures F.AllWellFormed(PackEntries(entries))
    decreases entries, 1
  {
    if entries != [] {
      Pow256Values();
      PackIsWellFormed(entries[0].value);
      PackEntriesAreWellFormed(entries[1..]);
    }
  }

  /** At any depth: the value checker finds the fault the byte recogniser will find, and
      beyond that only over-long bytes leaves. */
  lemma {:induction false} SameFault(v: Value, inlineLimit: int, depth: nat)
    requires Packable(v)
    ensures InlineBounded(v, inlineLimit) ==> CheckValue(v, inlineLimit, depth) == G.FirstFault(Pack(v), depth)
    ensures CheckValue(v, inlineLimit, depth).None?
       <==> InlineBounded(v, inlineLimit) && G.FirstFault(Pack(v), depth).None?
    decreases v, 0
  {
    match v
    case List(elements) => SameFaultInElements(elements, inlineLimit, depth + 1);
    case Mapping(entries) => SameFaultInEntries(entries, inlineLimit, depth + 1);
    case _ =>
  }

  lemma {:induction false} SameFaultInElements(elements: seq<Value>, inlineLimit: int, depth: nat)
    requires ElementsPackable(elements)
    ensures ElementsInlineBounded(elements, inlineLimit) ==>
              CheckElements(elements, inlineLimit, depth) == G.FirstFaultAmong(PackElements(elements), depth)
    ensures CheckElements(elements, inlineLimit, depth).None?
       <==> && ElementsInlineBounded(elements, inlineLimit)
            && G.FirstFaultAmong(PackElements(elements), depth).None?
    decreases elements, 1
  {
    if elements != [] {
      SameFault(elements[0], inlineLimit, depth);
      SameFaultInElements(elements[1..], inlineLimit, depth);
      assert PackElements(elements)[1..] == PackElements(elements[1..]);
      assert ElementsInlineBounded(elements, inlineLimit)
        <==> InlineBounded(elements[0], inlineLimit) && ElementsInlineBounded(elements[1..], inlineLimit) by {
        assert forall i | 0 < i < |elements| :: elements[i] == elements[1..][i - 1];
      }
    }
  }

  // The recogniser also visits the keys, but a key faults only where its value does.
  lemma {:induction false} SameFaultInEntries(entries: seq<Entry>, inlineLimit: int, depth: nat)
    requires EntriesPackable(entries)
    ensures EntriesInlineBounded(entries, inlineLimit) ==>
              CheckEntries(entries, inlineLimit, depth) == G.FirstFaultAmong(PackEntries(entries), depth)
    ensures CheckEntries(entries, inlineLimit, depth).None?
       <==> && EntriesInlineBounded(entries, inlineLimit)
            && G.FirstFaultAmong(PackEntries(entries), depth).None?
    decreases entries, 1
  {
    if entries != [] {
      var items := PackEntries(entries);
      SameFault(entries[0].value, inlineLimit, depth);
      SameFaultInEntries(entries[1..], inlineLimit, depth);
      assert items[1..][0] == Pack(entries[0].value) && items[1..][1..] == PackEntries(entries[1..]);
      assert EntriesInlineBounded(entries, inlineLimit)
        <==> InlineBounded(entries[0].value, inlineLimit) && EntriesInlineBounded(entries[1..], inlineLimit) by {
        assert forall i | 0 < i < |entries| :: entries[i] == entries[1..][i - 1];
      }
    }
  }

  /** Wherever a packed value stands in a buffer, the recogniser's verdict on it is the value
      checker's, failure code included, as long as no bytes leaf is over the inline limit. */
  lemma CheckersAgreeAnywhere(v: Value, inlineLimit: int, data: Bytes, offset: nat, depth: nat)
    requires Packable(v) && InlineBounded(v, inlineLimit) && At(data, offset, EncodeValue(v))
    ensures S.ValueRun(data, offset, depth).outcome
         == match CheckValue(v, inlineLimit, depth)
            case Some(fault) => Err(fault)
            case None => Ok(offset + |EncodeValue(v)|)
  {
    PackIsWellFormed(v);
    SameFault(v, inlineLimit, depth);
    G.ParsesTree(Pack(v), data, offset, depth);
  }

  /** The value checker passes exactly the inline-bounded values whose encoding the preflight passes. */
  lemma CheckersAgree(v: Value, inlineLimit: int)
    requires Packable(v)
    ensures CheckValue(v, inlineLimit, 0).None?
       <==> InlineBounded(v, inlineLimit) && S.Validate(EncodeValue(v)).Ok?
  {
    PackIsWellFormed(v);
    SameFault(v, inlineLimit, 0);
    G.ParsesTree(Pack(v), EncodeValue(v), 0, 0);
  }

  // --- The encoding determines the value ---

  lemma SameUintBytes(n: nat, m: nat, width: nat)
    requires n < Pow256(width) && m < Pow256(width) && UintBytes(n, width) == UintBytes(m, width)
    ensures n == m
  {
    UintOfUintBytes(n, width);
    UintOfUintBytes(m, width);
  }

  lemma SameIntPack(n: int, m: int)
    requires Packable(Int(n)) && Packable(Int(m)) && PackInt(n) == PackInt(m)
    ensures n == m
  {
    hide UintBytes;
    Pow256Values();
    var p := PackInt(n);
    if p.Number? {
      var width := F.NumberSize(p.format);
      var wrap := if n < 0 then Pow256(width) else 0;
      assert n < 0 <==> m < 0;
      SameUintBytes(n + wrap, m + wrap, width);
    }
  }

  lemma {:induction false} SamePack(v: Value, w: Value)
    requires Packable(v) && Packable(w) && Pack(v) == Pack(w)
    ensures v == w
    decreases v, 0
  {
    match v
    case Int(n) =>
      assert w.Int?;
      SameIntPack(n, w.n);
    case List(elements) => SameElementsPack(elements, w.elements);
    case Mapping(entries) => SameEntriesPack(entries, w.entries);
    case _ =>
  }

  lemma {:induction false} SameElementsPack(vs: seq<Value>, ws: seq<Value>)
    requires ElementsPackable(vs) && ElementsPackable(ws) && PackElements(vs) == PackElements(ws)
    ensures vs == ws
    decreases vs, 1
  {
    if vs != [] {
      assert PackElements(vs)[0] == Pack(vs[0]) && PackElements(ws)[0] == Pack(ws[0]);
      SamePack(vs[0], ws[0]);
      assert PackElements(vs)[1..] == PackElements(vs[1..]);
      assert PackElements(ws)[1..] == PackElements(ws[1..]);
      SameElementsPack(vs[1..], ws[1..]);
    }
  }

  lemma {:induction false} SameEntriesPack(vs: seq<Entry>, ws: seq<Entry>)
    requires EntriesPackable(vs) && EntriesPackable(ws) && PackEntries(vs) == PackEntries(ws)
    ensures vs == ws
    decreases vs, 1
  {
    if vs != [] {
      var packed := PackEntries(vs);
      assert packed[0] == PackText(vs[0].key) == PackText(ws[0].key);
      assert packed[1] == Pack(vs[0].value) == Pack(ws[0].value);
      SamePack(vs[0].value, ws[0].value);
      assert packed[2..] == PackEntries(vs[1..]) == PackEntries(ws[1..]);
      SameEntriesPack(vs[1..], ws[1..]);
    }
  }

  /** Packing loses nothing: equal encodings come from equal values. */
  lemma EncodingDeterminesValue(v: Value, w: Value)
    requires Packable(v) && Packable(w) && EncodeValue(v) == EncodeValue(w)
    ensures v == w
  {
    PackIsWellFormed(v);
    PackIsWellFormed(w);
    G.DerivationIsUnique(Pack(v), Pack(w));
    SamePack(v, w);
  }
}
