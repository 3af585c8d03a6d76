/** Why the recogniser rejects: the fault it names is one it walks into, and the first. */
module MsgPackRejections {
  import opened WireTypes
  import opened BigEndian
  import opened MsgPackFormats
  import opened MsgPackStructure
  import opened MsgPackGrammar

  // A place where a value should start, inside so many containers.
  datatype Site = Site(offset: nat, depth: nat)

  predicate Lacks(data: Bytes, offset: nat, size: nat) {
    offset + size > |data|
  }

  /** What is wrong at a site, whatever comes before or inside. */
  function SiteFault(data: Bytes, s: Site): Option<Failure> {
    if s.depth > 64 then Some(MsgpackDepth)
    else if s.offset >= |data| then Some(MsgpackMalformed)
    else
      match LayoutOf(data[s.offset])
      case Complete => None
      case Reserved => Some(MsgpackMalformed)
      case Body(size) => if Lacks(data, s.offset + 1, size) then Some(MsgpackMalformed) else None
      case SizedBody(width, extra) =>
        if || Lacks(data, s.offset + 1, width)
           || Lacks(data, s.offset + 1 + width, Uint(data[s.offset + 1..s.offset + 1 + width]) + extra)
        then Some(MsgpackMalformed)
        else None
      case Members(_, _) => None
      case SizedMembers(_, width) =>
        if Lacks(data, s.offset + 1, width) then Some(MsgpackMalformed)
        else if Uint(data[s.offset + 1..s.offset + 1 + width]) > 65_536 then Some(MsgpackContainerLimit)
        else None
  }

  predicate IsContainerAt(data: Bytes, s: Site) {
    && s.offset < |data|
    && (LayoutOf(data[s.offset]).Members? || LayoutOf(data[s.offset]).SizedMembers?)
  }

  // Where the members of a container start.
  function FirstMember(data: Bytes, s: Site): nat
    requires IsContainerAt(data, s)
  {
    if LayoutOf(data[s.offset]).Members? then s.offset + 1 else s.offset + 1 + LayoutOf(data[s.offset]).width
  }

  // How many values it announces, keys included.
  function MemberCount(data: Bytes, s: Site): nat
    requires IsContainerAt(data, s) && SiteFault(data, s).None?
  {
    var layout := LayoutOf(data[s.offset]);
    (if layout.Members? then layout.count else Uint(data[s.offset + 1..s.offset + 1 + layout.width]))
    * (if layout.isMap then 2 else 1)
  }

  /** `to` is where a member of the container at `from` should start: all members before it are
      whole values within the limits. */
  ghost predicate Descends(data: Bytes, from: Site, to: Site) {
    && IsContainerAt(data, from) && SiteFault(data, from).None?
    && to.depth == from.depth + 1
    && exists items: seq<Item> :: IsPassed(data, from, to, items)
  }

  ghost predicate IsPassed(data: Bytes, from: Site, to: Site, items: seq<Item>)
    requires IsContainerAt(data, from) && SiteFault(data, from).None?
  {
    && |items| < MemberCount(data, from)
    && AllWellFormed(items) && AllFit(items, to.depth)
    && FirstMember(data, from) <= |data|
    && At(data, FirstMember(data, from), Encodings(items))
    && to.offset == FirstMember(data, from) + |Encodings(items)|
  }

  /** A walk down from a site to one with a fault. */
  ghost predicate LeadsTo(data: Bytes, path: seq<Site>, fault: Failure) {
    && path != []
    && (forall i | 0 < i < |path| :: Descends(data, path[i - 1], path[i]))
    && SiteFault(data, path[|path| - 1]) == Some(fault)
  }

  // A fault-free site that is no container is passed; a container is its members.
  lemma SiteStep(data: Bytes, s: Site)
    ensures var r := ValueRun(data, s.offset, s.depth).outcome;
            && (SiteFault(data, s).Some? ==> r == Err(SiteFault(data, s).value))
            && (SiteFault(data, s).None? && !IsContainerAt(data, s) ==> r.Ok?)
            && (SiteFault(data, s).None? && IsContainerAt(data, s) ==>
                  && FirstMember(data, s) <= |data|
                  && r == ItemsRun(data, FirstMember(data, s), MemberCount(data, s), s.depth + 1).outcome)
  {
    hide Uint, ItemsRun, LayoutOf;
    if s.offset < |data| && LayoutOf(data[s.offset]).Members? {
      FixCountIsSmall(data[s.offset]);
    }
  }

  lemma FixCountIsSmall(marker: Byte)
    requires LayoutOf(marker).Members?
    ensures LayoutOf(marker).count < 16
  {
  }

  lemma {:induction false} ItemsAfterPassed(data: Bytes, offset: nat, n: nat, depth: nat, items: seq<Item>)
    requires |items| <= n && AllWellFormed(items) && AllFit(items, depth) && At(data, offset, Encodings(items))
    ensures ItemsRun(data, offset, n, depth).outcome
         == ItemsRun(data, offset + |Encodings(items)|, n - |items|, depth).outcome
    decreases |items|
  {
    hide ValueRun, Encoding, WellFormed, Fits;
    if items != [] {
      AtSplit(data, offset, Encoding(items[0]), Encodings(items[1..]));
      PassedValue(items[0], data, offset, depth);
      ItemsAfterPassed(data, offset + |Encoding(items[0])|, n - 1, depth, items[1..]);
    }
  }

  lemma PassedValue(t: Item, data: Bytes, offset: nat, depth: nat)
    requires WellFormed(t) && Fits(t, depth) && At(data, offset, Encoding(t))
    ensures ValueRun(data, offset, depth).outcome == Ok(offset + |Encoding(t)|)
  {
    FaultFreeIsFits(t, depth);
    ParsesTree(t, data, offset, depth);
  }

  /** A walk that leads to a fault makes the recogniser answer with it. */
  lemma {:induction false} WalkIsRejected(data: Bytes, path: seq<Site>, fault: Failure)
    requires LeadsTo(data, path, fault)
    ensures ValueRun(data, path[0].offset, path[0].depth).outcome == Err(fault)
    decreases |path|
  {
    hide ValueRun, SiteFault, MemberCount, FirstMember, WellFormed, Encoding, Fits;
    SiteStep(data, path[0]);
    if |path| > 1 {
      assert Descends(data, path[0], path[1]);
      assert forall i | 0 < i < |path[1..]| :: path[1..][i - 1] == path[i] && path[1..][i] == path[i + 1];
      WalkIsRejected(data, path[1..], fault);
      var items :| IsPassed(data, path[0], path[1], items);
      ItemsAfterPassed(data, FirstMember(data, path[0]), MemberCount(data, path[0]), path[1].depth, items);
      FailsAtFirst(data, path[1].offset, MemberCount(data, path[0]) - |items|, path[1].depth);
    }
  }

  lemma FailsAtFirst(data: Bytes, offset: nat, n: nat, depth: nat)
    requires n > 0 && ValueRun(data, offset, depth).outcome.Err?
    ensures ItemsRun(data, offset, n, depth).outcome == ValueRun(data, offset, depth).outcome
  {
    hide ValueRun;
  }

  /** And whatever it answers there is such a walk. */
  lemma {:induction false} RejectionHasWalk(data: Bytes, offset: nat, depth: nat) returns (path: seq<Site>)
    requires ValueRun(data, offset, depth).outcome.Err?
    ensures LeadsTo(data, path, ValueRun(data, offset, depth).outcome.error)
    ensures path[0] == Site(offset, depth)
    decreases |data| - offset, 0
  {
    hide ValueRun, SiteFault, MemberCount, FirstMember, WellFormed, Encoding, Fits;
    var s := Site(offset, depth);
    SiteStep(data, s);
    if SiteFault(data, s).Some? {
      path := [s];
    } else {
      var first := FirstMember(data, s);
      MembersComeLater(data, s);
      var items, rest := ItemsWalk(data, first, MemberCount(data, s), depth + 1);
      path := [s] + rest;
      assert IsPassed(data, s, rest[0], items);
      assert Descends(data, s, rest[0]);
      forall i | 0 < i < |path| ensures Descends(data, path[i - 1], path[i]) {
        if i > 1 {
          assert Descends(data, rest[i - 1 - 1], rest[i - 1]);
        }
      }
    }
  }

  lemma MembersComeLater(data: Bytes, s: Site)
    requires IsContainerAt(data, s)
    ensures FirstMember(data, s) > s.offset
  {
  }

  // The members passed before the one that fails, and the walk from there.
  lemma {:induction false} ItemsWalk(data: Bytes, offset: nat, n: nat, depth: nat)
    returns (items: seq<Item>, path: seq<Site>)
    requires offset <= |data| && ItemsRun(data, offset, n, depth).outcome.Err?
    ensures |items| < n && AllWellFormed(items) && AllFit(items, depth) && At(data, offset, Encodings(items))
    ensures LeadsTo(data, path, ItemsRun(data, offset, n, depth).outcome.error)
    ensures path[0] == Site(offset + |Encodings(items)|, depth)
    decreases |data| - offset, n + 1
  {
    hide SiteFault, WellFormed, Encoding, Fits, LeadsTo, ValueRun;
    if ValueRun(data, offset, depth).outcome.Err? {
      items := [];
      path := RejectionHasWalk(data, offset, depth);
    } else {
      var middle := ValueRun(data, offset, depth).outcome.value;
      var first := FindTree(data, offset, depth);
      var rest;
      rest, path := ItemsWalk(data, middle, n - 1, depth);
      items := [first] + rest;
      assert items[1..] == rest;
      assert |Encoding(first)| == middle - offset;
      assert data[offset..middle + |Encodings(rest)|] == Encoding(first) + Encodings(rest);
    }
  }

  /** The recogniser rejects with a fault exactly when a walk from where it starts, past whole values
      within the limits, leads to a site with that fault. */
  lemma RejectionIsFault(data: Bytes, offset: nat, depth: nat, fault: Failure)
    ensures ValueRun(data, offset, depth).outcome == Err(fault)
       <==> exists path :: LeadsTo(data, path, fault) && path[0] == Site(offset, depth)
  {
    hide ValueRun, Descends, SiteFault;
    if ValueRun(data, offset, depth).outcome == Err(fault) {
      var path := RejectionHasWalk(data, offset, depth);
    } else if path :| LeadsTo(data, path, fault) && path[0] == Site(offset, depth) {
      WalkIsRejected(data, path, fault);
      assert false;
    }
  }

  /** The preflight finds trailing bytes exactly behind a whole bounded value, and otherwise rejects as
      the recogniser does. */
  lemma PreflightAnswers(data: Bytes, fault: Failure)
    ensures Validate(data) == Err(MsgpackTrailing) <==> exists end | 0 <= end < |data| :: Derives(data[0..end], 0)
    ensures fault != MsgpackTrailing ==>
              (Validate(data) == Err(fault) <==> ValueRun(data, 0, 0).outcome == Err(fault))
    ensures Validate(data).Err? ==>
              Validate(data).error in {MsgpackTrailing, MsgpackMalformed, MsgpackDepth, MsgpackContainerLimit}
  {
    hide ValueRun, LeadsTo, Derives;
    var outcome := ValueRun(data, 0, 0).outcome;
    forall end: nat ensures outcome == Ok(end) <==> end <= |data| && Derives(data[0..end], 0) {
      ParserIsGrammar(data, 0, 0, end);
    }
    if outcome.Err? {
      var path := RejectionHasWalk(data, 0, 0);
      FaultsAreNamed(data, path, outcome.error);
    }
  }

  lemma FaultsAreNamed(data: Bytes, path: seq<Site>, fault: Failure)
    requires LeadsTo(data, path, fault)
    ensures fault in {MsgpackMalformed, MsgpackDepth, MsgpackContainerLimit}
  {
    hide Descends, Uint, LayoutOf;
  }
}
