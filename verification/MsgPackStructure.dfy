/** The bounded MessagePack recogniser that runs before a payload is unpacked.

    `ValueRun` and `ItemsRun` say what the recogniser does and how many `_parse_value`
    calls it makes; `ParseValue` and `ParseContainer` are the recogniser itself.
    `MsgPackGrammar` shows that it accepts exactly the bounded derivations of the formats
    grammar. */
module MsgPackStructure {
  import opened WireTypes
  import opened BigEndian
  import opened MsgPackFormats

  const MAX_NESTING_DEPTH := 64
  const MAX_CONTAINER_ITEMS := 65_536

  datatype Run = Run(outcome: Result<nat>, calls: nat)

  // What follows a marker byte.
  datatype Layout =
    | Complete
    | Body(size: nat)
    | SizedBody(width: nat, extra: nat)
    | Members(isMap: bool, count: nat)
    | SizedMembers(isMap: bool, width: nat)
    | Reserved

  function LayoutOf(marker: Byte): Layout {
    if marker <= 0x7F || marker >= 0xE0 || marker in {0xC0, 0xC2, 0xC3} then Complete
    else if 0x80 <= marker <= 0x8F then Members(true, marker % 0x10)
    else if 0x90 <= marker <= 0x9F then Members(false, marker % 0x10)
    else if 0xA0 <= marker <= 0xBF then Body(marker % 0x20)
    else if marker == 0xC1 then Reserved
    else if marker in {0xC4, 0xD9} then SizedBody(1, 0)
    else if marker in {0xC5, 0xDA} then SizedBody(2, 0)
    else if marker in {0xC6, 0xDB} then SizedBody(4, 0)
    else if marker == 0xC7 then SizedBody(1, 1)
    else if marker == 0xC8 then SizedBody(2, 1)
    else if marker == 0xC9 then SizedBody(4, 1)
    else if marker in {0xCC, 0xD0} then Body(1)
    else if marker in {0xCD, 0xD1, 0xD4} then Body(2)
    else if marker == 0xD5 then Body(3)
    else if marker in {0xCA, 0xCE, 0xD2} then Body(4)
    else if marker == 0xD6 then Body(5)
    else if marker in {0xCB, 0xCF, 0xD3} then Body(8)
    else if marker == 0xD7 then Body(9)
    else if marker == 0xD8 then Body(17)
    else if marker in {0xDC, 0xDD} then SizedMembers(false, if marker == 0xDC then 2 else 4)
    else SizedMembers(true, if marker == 0xDE then 2 else 4)
  }

  function ReadUint(data: Bytes, offset: nat, width: nat): Result<(nat, nat)> {
    if offset + width > |data| then Err(MsgpackMalformed)
    else Ok((Uint(data[offset..offset + width]), offset + width))
  }

  function Skip(data: Bytes, offset: nat, length: nat): Result<nat> {
    if offset + length > |data| then Err(MsgpackMalformed) else Ok(offset + length)
  }

  /** Parse one value at `offset`. The contract is the work bound: never more calls than
      bytes consumed, whatever counts the containers declare. */
  function ValueRun(data: Bytes, offset: nat, depth: nat): (r: Run)
    ensures r.outcome.Ok? ==>
              && offset < r.outcome.value <= |data|
              && r.calls <= r.outcome.value - offset
    ensures r.outcome.Err? && offset <= |data| ==> r.calls <= |data| - offset + 1
    ensures r.calls >= 1
    decreases |data| - offset, 0
  {
    if depth > MAX_NESTING_DEPTH then Run(Err(MsgpackDepth), 1)
    else if offset + 1 > |data| then Run(Err(MsgpackMalformed), 1)
    else
      match LayoutOf(data[offset])
      case Complete => Run(Ok(offset + 1), 1)
      case Body(size) => Run(Skip(data, offset + 1, size), 1)
      case SizedBody(width, extra) => (
        match ReadUint(data, offset + 1, width)
        case Err(e) => Run(Err(e), 1)
        case Ok((length, body)) => Run(Skip(data, body, length + extra), 1))
      case Members(isMap, count) => ContainerRun(data, offset + 1, count, depth, isMap)
      case SizedMembers(isMap, width) => (
        match ReadUint(data, offset + 1, width)
        case Err(e) => Run(Err(e), 1)
        case Ok((count, first)) => ContainerRun(data, first, count, depth, isMap))
      case Reserved => Run(Err(MsgpackMalformed), 1)
  }

  // The call count includes the enclosing value's own call.
  function ContainerRun(data: Bytes, offset: nat, count: nat, depth: nat, isMap: bool): (r: Run)
    ensures r.outcome.Ok? && offset <= |data| ==>
              && offset <= r.outcome.value <= |data|
              && r.calls <= 1 + r.outcome.value - offset
    ensures r.outcome.Err? && offset <= |data| ==> r.calls <= |data| - offset + 2
    ensures r.calls >= 1
    decreases |data| - offset, 2 * MAX_CONTAINER_ITEMS + 1
  {
    if count > MAX_CONTAINER_ITEMS then Run(Err(MsgpackContainerLimit), 1)
    else
      var items := ItemsRun(data, offset, count * (if isMap then 2 else 1), depth + 1);
      items.(calls := 1 + items.calls)
  }

  /** Parse `n` values in a row. */
  function ItemsRun(data: Bytes, offset: nat, n: nat, depth: nat): (r: Run)
    ensures r.outcome.Ok? && offset <= |data| ==>
              && offset <= r.outcome.value <= |data|
              && r.calls <= r.outcome.value - offset
    ensures r.outcome.Err? && offset <= |data| ==> r.calls <= |data| - offset + 1
    decreases |data| - offset, n
  {
    if n == 0 then Run(Ok(offset), 0)
    else
      var first := ValueRun(data, offset, depth);
      if first.outcome.Err? then first
      else
        var rest := ItemsRun(data, first.outcome.value, n - 1, depth);
        rest.(calls := first.calls + rest.calls)
  }

  function Validate(data: Bytes): Result<nat> {
    var r := ValueRun(data, 0, 0).outcome;
    if r.Ok? && r.value != |data| then Err(MsgpackTrailing) else r
  }

  // --- The recogniser ---

  method ParseValue(data: Bytes, start: nat, depth: nat) returns (r: Result<nat>, calls: nat)
    ensures Run(r, calls) == ValueRun(data, start, depth)
    decreases |data| - start, 0
  {
    hide Uint, ContainerRun;
    calls := 1;
    if depth > MAX_NESTING_DEPTH {
      return Err(MsgpackDepth), calls;
    }
    var offset := start;
    var head := ReadUint(data, offset, 1);
    if head.Err? {
      return Err(head.error), calls;
    }
    UintOfOneByte(data, offset);
    var marker: Byte := head.value.0;
    offset := head.value.1;
    if marker <= 0x7F || marker >= 0xE0 || marker in {0xC0, 0xC2, 0xC3} {
      return Ok(offset), calls;
    }
    if 0x80 <= marker <= 0x8F {
      r, calls := ParseContainer(data, offset, marker % 0x10, depth, true);
      return r, calls + 1;
    }
    if 0x90 <= marker <= 0x9F {
      r, calls := ParseContainer(data, offset, marker % 0x10, depth, false);
      return r, calls + 1;
    }
    if 0xA0 <= marker <= 0xBF {
      return Skip(data, offset, marker % 0x20), calls;
    }
    if marker == 0xC1 {
      return Err(MsgpackMalformed), calls;
    }
    if marker in {0xC4, 0xC5, 0xC6, 0xD9, 0xDA, 0xDB} {
      var width := if marker in {0xC4, 0xD9} then 1 else if marker in {0xC5, 0xDA} then 2 else 4;
      var length := ReadUint(data, offset, width);
      if length.Err? {
        return Err(length.error), calls;
      }
      offset := length.value.1;
      return Skip(data, offset, length.value.0), calls;
    }
    if marker in {0xC7, 0xC8, 0xC9} {
      var width := map[0xC7 := 1, 0xC8 := 2, 0xC9 := 4][marker];
      var length := ReadUint(data, offset, width);
      if length.Err? {
        return Err(length.error), calls;
      }
      offset := length.value.1;
      return Skip(data, offset, length.value.0 + 1), calls;
    }
    var scalarWidths := map[
      0xCA := 4, 0xCB := 8, 0xCC := 1, 0xCD := 2, 0xCE := 4, 0xCF := 8, 0xD0 := 1, 0xD1 := 2,
      0xD2 := 4, 0xD3 := 8, 0xD4 := 2, 0xD5 := 3, 0xD6 := 5, 0xD7 := 9, 0xD8 := 17];
    if marker in scalarWidths {
      return Skip(data, offset, scalarWidths[marker]), calls;
    }
    var isMap := marker >= 0xDE;
    var count := ReadUint(data, offset, if marker in {0xDC, 0xDE} then 2 else 4);
    if count.Err? {
      return Err(count.error), calls;
    }
    offset := count.value.1;
    r, calls := ParseContainer(data, offset, count.value.0, depth, isMap);
    calls := calls + 1;
  }

  method ParseContainer(data: Bytes, start: nat, count: nat, depth: nat, isMap: bool)
    returns (r: Result<nat>, calls: nat)
    ensures Run(r, calls + 1) == ContainerRun(data, start, count, depth, isMap)
    decreases |data| - start, 1
  {
    hide ValueRun;
    calls := 0;
    if count > MAX_CONTAINER_ITEMS {
      return Err(MsgpackContainerLimit), calls;
    }
    var offset := start;
    var n := count * (if isMap then 2 else 1);
    ghost var all := ItemsRun(data, start, n, depth + 1);
    for i := 0 to n
      invariant offset == start || start <= offset <= |data|
      invariant var rest := ItemsRun(data, offset, n - i, depth + 1);
                all == rest.(calls := calls + rest.calls)
    {
      var item, itemCalls := ParseValue(data, offset, depth + 1);
      calls := calls + itemCalls;
      if item.Err? {
        return item, calls;
      }
      offset := item.value;
    }
    r := Ok(offset);
  }

  lemma UintOfOneByte(data: Bytes, offset: nat)
    requires offset < |data|
    ensures Uint(data[offset..offset + 1]) == data[offset]
  {
    assert data[offset..offset + 1][..0] == [];
  }
}
