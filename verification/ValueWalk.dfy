/** The value checker against a list of the nodes it has to look at. */
module ValueWalk {
  import opened WireTypes
  import opened ValueCheck

  datatype Node = Node(value: Value, depth: nat)

  /** A value and everything in it, mapping keys aside, parents before children and left to right. */
  function Walk(v: Value, depth: nat): seq<Node>
    decreases v, 0
  {
    [Node(v, depth)]
    + (match v
       case List(elements) => WalkElements(elements, depth + 1)
       case Mapping(entries) => WalkEntries(entries, depth + 1)
       case _ => [])
  }

  function WalkElements(elements: seq<Value>, depth: nat): seq<Node>
    decreases elements, 1
  {
    if elements == [] then [] else Walk(elements[0], depth) + WalkElements(elements[1..], depth)
  }

  function WalkEntries(entries: seq<Entry>, depth: nat): seq<Node>
    decreases entries, 1
  {
    if entries == [] then [] else Walk(entries[0].value, depth) + WalkEntries(entries[1..], depth)
  }

  /** What is wrong with a node by itself. */
  function NodeFault(n: Node, inlineLimit: int): Option<Failure> {
    if n.depth > 64 then Some(MsgpackDepth)
    else if n.value.Blob? && |n.value.data| > inlineLimit then Some(InlineResourceOversized)
    else if n.value.Mapping? && |n.value.entries| > 65_536 then Some(MsgpackContainerLimit)
    else if n.value.List? && |n.value.elements| > 65_536 then Some(MsgpackContainerLimit)
    else None
  }

  function FirstFaultOf(nodes: seq<Node>, inlineLimit: int): Option<Failure> {
    if nodes == [] then None
    else if NodeFault(nodes[0], inlineLimit).Some? then NodeFault(nodes[0], inlineLimit)
    else FirstFaultOf(nodes[1..], inlineLimit)
  }

  lemma {:induction false} FirstFaultOfBoth(left: seq<Node>, right: seq<Node>, inlineLimit: int)
    ensures FirstFaultOf(left + right, inlineLimit)
         == if FirstFaultOf(left, inlineLimit).Some? then FirstFaultOf(left, inlineLimit)
            else FirstFaultOf(right, inlineLimit)
  {
    if left == [] {
      assert left + right == right;
    } else {
      FirstFaultOfBoth(left[1..], right, inlineLimit);
      assert (left + right)[1..] == left[1..] + right;
    }
  }

  lemma {:induction false} FaultFreeNodes(nodes: seq<Node>, inlineLimit: int)
    ensures FirstFaultOf(nodes, inlineLimit).None?
       <==> forall i | 0 <= i < |nodes| :: NodeFault(nodes[i], inlineLimit).None?
  {
    if nodes != [] {
      FaultFreeNodes(nodes[1..], inlineLimit);
      assert forall i | 0 < i < |nodes| :: nodes[i] == nodes[1..][i - 1];
    }
  }

  /** The checker answers with the first fault among the nodes of the value, and so passes it exactly
      when no node has one. */
  lemma {:induction false} CheckIsFirstFault(v: Value, inlineLimit: int, depth: nat)
    ensures CheckValue(v, inlineLimit, depth) == FirstFaultOf(Walk(v, depth), inlineLimit)
    ensures CheckValue(v, inlineLimit, depth).None?
       <==> forall i | 0 <= i < |Walk(v, depth)| :: NodeFault(Walk(v, depth)[i], inlineLimit).None?
    decreases v, 0
  {
    FaultFreeNodes(Walk(v, depth), inlineLimit);
    match v
    case List(elements) =>
      FirstFaultOfBoth([Node(v, depth)], WalkElements(elements, depth + 1), inlineLimit);
      ElementsFirstFault(elements, inlineLimit, depth + 1);
    case Mapping(entries) =>
      FirstFaultOfBoth([Node(v, depth)], WalkEntries(entries, depth + 1), inlineLimit);
      EntriesFirstFault(entries, inlineLimit, depth + 1);
    case _ =>
  }

  lemma {:induction false} ElementsFirstFault(elements: seq<Value>, inlineLimit: int, depth: nat)
    ensures CheckElements(elements, inlineLimit, depth) == FirstFaultOf(WalkElements(elements, depth), inlineLimit)
    decreases elements, 1
  {
    if elements != [] {
      CheckIsFirstFault(elements[0], inlineLimit, depth);
      ElementsFirstFault(elements[1..], inlineLimit, depth);
      FirstFaultOfBoth(Walk(elements[0], depth), WalkElements(elements[1..], depth), inlineLimit);
    }
  }

  lemma {:induction false} EntriesFirstFault(entries: seq<Entry>, inlineLimit: int, depth: nat)
    ensures CheckEntries(entries, inlineLimit, depth) == FirstFaultOf(WalkEntries(entries, depth), inlineLimit)
    decreases entries, 1
  {
    if entries != [] {
      CheckIsFirstFault(entries[0].value, inlineLimit, depth);
      EntriesFirstFault(entries[1..], inlineLimit, depth);
      FirstFaultOfBoth(Walk(entries[0].value, depth), WalkEntries(entries[1..], depth), inlineLimit);
    }
  }
}
