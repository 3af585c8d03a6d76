/** The MessagePack specification's "Formats" section as a datatype of derivations:
    an `Item` is one encoded object together with the format that encodes it, and
    `Encoding` is the byte string that format prescribes. */
module MsgPackFormats {
  import opened WireTypes
  import opened BigEndian

  datatype NumberFormat =
    Float32 | Float64 | Uint8 | Uint16 | Uint32 | Uint64 | Int8 | Int16 | Int32 | Int64

  // Length fields of the str, bin and ext families.
  datatype LengthWidth = W8 | W16 | W32

  datatype Item =
    | PositiveFixInt(n: nat)
    | NegativeFixInt(low: nat)
    | Nil
    | Boolean(b: bool)
    | Number(format: NumberFormat, payload: Bytes)
    | FixExt(sizeLog: nat, tag: Byte, payload: Bytes)
    | Ext(width: LengthWidth, tag: Byte, payload: Bytes)
    | FixStr(payload: Bytes)
    | Str(width: LengthWidth, payload: Bytes)
    | Bin(width: LengthWidth, payload: Bytes)
    | FixContainer(isMap: bool, items: seq<Item>)  // a map lists key, value, key, value, ..
    | Container(wide: bool, isMap: bool, items: seq<Item>)

  function NumberMarker(f: NumberFormat): Byte {
    match f
    case Float32 => 0xCA case Float64 => 0xCB
    case Uint8 => 0xCC case Uint16 => 0xCD case Uint32 => 0xCE case Uint64 => 0xCF
    case Int8 => 0xD0 case Int16 => 0xD1 case Int32 => 0xD2 case Int64 => 0xD3
  }

  function NumberSize(f: NumberFormat): nat {
    match f
    case Uint8 => 1 case Int8 => 1
    case Uint16 => 2 case Int16 => 2
    case Float32 => 4 case Uint32 => 4 case Int32 => 4
    case Float64 => 8 case Uint64 => 8 case Int64 => 8
  }

  function WidthBytes(w: LengthWidth): nat {
    match w case W8 => 1 case W16 => 2 case W32 => 4
  }

  // The three widths of a family have consecutive markers.
  function WidthIndex(w: LengthWidth): nat {
    match w case W8 => 0 case W16 => 1 case W32 => 2
  }

  function FixExtSize(sizeLog: nat): nat {
    match sizeLog case 0 => 1 case 1 => 2 case 2 => 4 case 3 => 8 case _ => 16
  }

  function Count(isMap: bool, items: seq<Item>): nat {
    if isMap then |items| / 2 else |items|
  }

  function ContainerMarker(wide: bool, isMap: bool): Byte {
    (if isMap then 0xDE else 0xDC) + (if wide then 1 else 0)
  }

  function ContainerWidth(wide: bool): nat {
    if wide then 4 else 2
  }

  /** The sizes each format allows. */
  predicate WellFormed(t: Item) {
    match t
    case PositiveFixInt(n) => n < 0x80
    case NegativeFixInt(low) => low < 0x20
    case Nil => true
    case Boolean(_) => true
    case Number(f, payload) => |payload| == NumberSize(f)
    case FixExt(sizeLog, _, payload) => sizeLog < 5 && |payload| == FixExtSize(sizeLog)
    case Ext(w, _, payload) => |payload| < Pow256(WidthBytes(w))
    case FixStr(payload) => |payload| < 0x20
    case Str(w, payload) => |payload| < Pow256(WidthBytes(w))
    case Bin(w, payload) => |payload| < Pow256(WidthBytes(w))
    case FixContainer(isMap, items) =>
      && (isMap ==> |items| % 2 == 0) && Count(isMap, items) < 0x10
      && forall i | 0 <= i < |items| :: WellFormed(items[i])
    case Container(wide, isMap, items) =>
      && (isMap ==> |items| % 2 == 0) && Count(isMap, items) < Pow256(ContainerWidth(wide))
      && forall i | 0 <= i < |items| :: WellFormed(items[i])
  }

  predicate AllWellFormed(items: seq<Item>) {
    forall i | 0 <= i < |items| :: WellFormed(items[i])
  }

  /** The byte that announces the format. A size too large for its format wraps;
      `WellFormed` rules that out. */
  function Marker(t: Item): Byte {
    match t
    case PositiveFixInt(n) => n % 0x80
    case NegativeFixInt(low) => 0xE0 + low % 0x20
    case Nil => 0xC0
    case Boolean(b) => if b then 0xC3 else 0xC2
    case Number(f, _) => NumberMarker(f)
    case FixExt(sizeLog, _, _) => 0xD4 + sizeLog % 5
    case Ext(w, _, _) => 0xC7 + WidthIndex(w)
    case FixStr(payload) => 0xA0 + |payload| % 0x20
    case Str(w, _) => 0xD9 + WidthIndex(w)
    case Bin(w, _) => 0xC4 + WidthIndex(w)
    case FixContainer(isMap, items) => (if isMap then 0x80 else 0x90) + Count(isMap, items) % 0x10
    case Container(wide, isMap, _) => ContainerMarker(wide, isMap)
  }

  function Encoding(t: Item): (r: Bytes)
    ensures |r| > 0 && r[0] == Marker(t)
    decreases t, 0
  {
    match t
    case Number(_, payload) => [Marker(t)] + payload
    case FixExt(_, tag, payload) => [Marker(t)] + ([tag] + payload)
    case Ext(w, tag, payload) => [Marker(t)] + UintBytes(|payload|, WidthBytes(w)) + ([tag] + payload)
    case FixStr(payload) => [Marker(t)] + payload
    case Str(w, payload) => [Marker(t)] + UintBytes(|payload|, WidthBytes(w)) + payload
    case Bin(w, payload) => [Marker(t)] + UintBytes(|payload|, WidthBytes(w)) + payload
    case FixContainer(_, items) => [Marker(t)] + Encodings(items)
    case Container(wide, isMap, items) =>
      [Marker(t)] + UintBytes(Count(isMap, items), ContainerWidth(wide)) + Encodings(items)
    case _ => [Marker(t)]
  }

  function Encodings(items: seq<Item>): Bytes
    decreases items, 1
  {
    if items == [] then [] else Encoding(items[0]) + Encodings(items[1..])
  }

  /** The number of objects in the tree, itself included. */
  function Nodes(t: Item): (r: nat)
    ensures r > 0
    decreases t, 0
  {
    if t.FixContainer? || t.Container? then 1 + TotalNodes(t.items) else 1
  }

  function TotalNodes(items: seq<Item>): nat
    decreases items, 1
  {
    if items == [] then 0 else Nodes(items[0]) + TotalNodes(items[1..])
  }
}
