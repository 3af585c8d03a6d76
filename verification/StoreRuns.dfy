/** Whole runs of one resource provider: no lost updates, and every lease accounted for. */
module StoreRuns {
  import opened WireTypes
  import opened Ids
  import opened ResourceStore

  datatype Event =
    | CreateCall(creation: Creation)
    | AcquireCall(refId: string, owner: string, expiresAtStep: Option<int>)
    | WriteCall(token: LeaseToken, data: Bytes, currentStep: int)
    | CommitCall(plan: WritePlan, data: Bytes)
    | TakeId  // packing a large value consumes a counter

  datatype Reply = Issued(ref: Answer<ResourceRef>) | Granted(lease: Answer<LeaseToken>) | Taken

  function Step(s: Store, e: Event): (Store, Reply) {
    match e
    case CreateCall(c) =>
      var (after, ref) := CreateIn(s, c);
      (after, Issued(ref))
    case AcquireCall(refId, owner, expiresAtStep) =>
      var (after, lease) := LeaseIn(s, refId, owner, expiresAtStep);
      (after, Granted(lease))
    case WriteCall(token, data, currentStep) =>
      var (after, ref) := WriteIn(s, token, data, currentStep);
      (after, Issued(ref))
    case CommitCall(plan, data) =>
      var (after, ref) := CommitIn(s, plan, data);
      (after, Issued(ref))
    case TakeId => (s.(next := s.next + 1), Taken)
  }

  function After(events: seq<Event>, n: nat): Store
    requires n <= |events|
  {
    if n == 0 then EMPTY else Step(After(events, n - 1), events[n - 1]).0
  }

  function ReplyTo(events: seq<Event>, i: nat): Reply
    requires i < |events|
  {
    Step(After(events, i), events[i]).1
  }

  // --- The invariant ---

  predicate TakenId(id: string, prefix: string, next: nat) {
    exists k | 1 <= k <= next :: id == CounterId(prefix, k)
  }

  /** One version number everywhere, the file in step with the data, and a lease, if any, of
      this very resource and generation. */
  predicate EntryKept(s: Store, id: string)
    requires id in s.resources
  {
    var (ref, data, lease) := (s.resources[id].ref, s.resources[id].data, s.resources[id].lease);
    && TakenId(id, "resource", s.next)
    && ref.refId == id && ref.resourceId.slotId == id
    && 1 <= ref.version == ref.generation == ref.resourceId.version == ref.resourceId.generation
    && (ref.path.Some? ==>
          ref.path.value == FilePath(id) && FilePath(id) in s.files && s.files[FilePath(id)] == data)
    && (lease.Some? ==>
          && lease.value.refId == id && lease.value.generation == ref.generation
          && TakenId(lease.value.tokenId, "lease", s.next))
  }

  predicate Kept(s: Store) {
    forall id | id in s.resources :: EntryKept(s, id)
  }

  lemma FilePathsDiffer(a: string, b: string)
    requires FilePath(a) == FilePath(b)
    ensures a == b
  {
    var root := "mutsuki-python-resource-manager/";
    assert |a| == |b|;
    assert a == FilePath(a)[|root|..|root| + |a|] && b == FilePath(b)[|root|..|root| + |b|];
  }

  lemma NextIdIsFresh(prefix: string, next: nat)
    ensures !TakenId(CounterId(prefix, next + 1), prefix, next)
    ensures TakenId(CounterId(prefix, next + 1), prefix, next + 1)
  {
    if TakenId(CounterId(prefix, next + 1), prefix, next) {
      var k :| 1 <= k <= next && CounterId(prefix, next + 1) == CounterId(prefix, k);
      CounterIdsNeverCollide(prefix, next + 1, prefix, k);
    }
  }

  lemma TakenStaysTaken(id: string, prefix: string, next: nat, later: nat)
    requires TakenId(id, prefix, next) && next <= later
    ensures TakenId(id, prefix, later)
  {
  }

  /** `e` replaces the bytes of resource `id`. */
  predicate Overwrites(s: Store, e: Event, id: string) {
    || (e.WriteCall? && e.token.refId == id && Step(s, e).1.ref.Good?)
    || (e.CommitCall? && e.plan.resource.refId == id && Step(s, e).1.ref.Good?)
  }

  /** `e` grants a lease on resource `id`; a commit grants itself one. */
  predicate Grants(s: Store, e: Event, id: string) {
    || (e.AcquireCall? && e.refId == id && Step(s, e).1.lease.Good?)
    || (e.CommitCall? && e.plan.resource.refId == id && Step(s, e).1.ref.Good?)
  }

  predicate Creates(s: Store, e: Event, id: string) {
    e.CreateCall? && Step(s, e).1.ref.Good? && Step(s, e).1.ref.value.refId == id
  }

  // --- One step ---

  // The counter moved, nothing else about the entry did.
  lemma CountingKeepsEntry(s: Store, after: Store, id: string)
    requires id in s.resources && EntryKept(s, id)
    requires id in after.resources && after.resources[id] == s.resources[id] && s.next <= after.next
    requires FilePath(id) in s.files ==>
               FilePath(id) in after.files && after.files[FilePath(id)] == s.files[FilePath(id)]
    ensures EntryKept(after, id)
  {
    TakenStaysTaken(id, "resource", s.next, after.next);
    if s.resources[id].lease.Some? {
      TakenStaysTaken(s.resources[id].lease.value.tokenId, "lease", s.next, after.next);
    }
    hide TakenId, FilePath;
  }

  lemma CreateOnEntry(s: Store, c: Creation, id: string)
    requires id in s.resources && EntryKept(s, id)
    ensures var (after, ref) := CreateIn(s, c);
            && id in after.resources && after.resources[id] == s.resources[id] && EntryKept(after, id)
            && (ref.Good? ==> ref.value.refId != id)
  {
    hide FilePath, TakenId;
    var (after, ref) := CreateIn(s, c);
    if ref.Good? {
      var newId := CounterId("resource", s.next + 1);
      NextIdIsFresh("resource", s.next);
      assert newId != id;
      if FilePath(newId) == FilePath(id) {
        FilePathsDiffer(newId, id);
      }
      CountingKeepsEntry(s, after, id);
    }
  }

  lemma LeaseOnEntry(s: Store, refId: string, owner: string, expiresAtStep: Option<int>, id: string)
    requires id in s.resources && EntryKept(s, id)
    ensures var (after, lease) := LeaseIn(s, refId, owner, expiresAtStep);
            && id in after.resources && EntryKept(after, id)
            && after.resources[id].(lease := None) == s.resources[id].(lease := None)
            && (refId != id || lease.Bad? ==> after.resources[id] == s.resources[id])
            && (refId == id ==> (lease.Good? <==> s.resources[id].lease.None?))
            && (lease.Good? ==> lease.value.tokenId == CounterId("lease", s.next + 1))
            && (lease.Good? && refId == id ==> after.resources[id].lease == Some(lease.value))
  {
    hide FilePath;
    var (after, lease) := LeaseIn(s, refId, owner, expiresAtStep);
    if lease.Good? {
      TakenStaysTaken(id, "resource", s.next, after.next);
      NextIdIsFresh("lease", s.next);
      if refId != id {
        CountingKeepsEntry(s, after, id);
      }
    }
    hide TakenId;
  }

  lemma WriteOnEntry(s: Store, token: LeaseToken, data: Bytes, currentStep: int, id: string)
    requires id in s.resources && EntryKept(s, id)
    requires token.refId in s.resources ==> EntryKept(s, token.refId)
    ensures var (after, ref) := WriteIn(s, token, data, currentStep);
            && id in after.resources && EntryKept(after, id)
            && (token.refId != id || ref.Bad? ==> after.resources[id] == s.resources[id])
            && (token.refId == id && ref.Good? ==>
                  && ref.value == Bumped(s.resources[id].ref)
                  && after.resources[id] == Stored(Bumped(s.resources[id].ref), data, None)
                  && s.resources[id].lease == Some(token))
  {
    hide TakenId, FilePath;
    var (after, ref) := WriteIn(s, token, data, currentStep);
    if ref.Good? && token.refId != id {
      if FilePath(token.refId) == FilePath(id) {
        FilePathsDiffer(token.refId, id);
      }
      CountingKeepsEntry(s, after, id);
    }
  }

  // A commit that gets its lease always gets to write.
  lemma CommitOnEntry(s: Store, plan: WritePlan, data: Bytes, id: string)
    requires Kept(s) && id in s.resources
    ensures var (after, ref) := CommitIn(s, plan, data);
            && id in after.resources && EntryKept(after, id)
            && (plan.resource.refId != id || ref.Bad? ==> after.resources[id] == s.resources[id])
            && (plan.resource.refId == id && ref.Good? ==>
                  && ref.value == Bumped(s.resources[id].ref)
                  && after.resources[id] == Stored(Bumped(s.resources[id].ref), data, None)
                  && s.resources[id].lease.None?)
  {
    var refId := plan.resource.refId;
    if CommitIn(s, plan, data).1.Good? {
      var (leased, lease) := LeaseIn(s, refId, "resource-plan", None);
      LeaseOnEntry(s, refId, "resource-plan", None, id);
      LeaseOnEntry(s, refId, "resource-plan", None, refId);
      assert lease.value.refId == refId && refId in leased.resources;
      hide LeaseIn, EntryKept;
      WriteOnEntry(leased, lease.value, data, 0, id);
    } else {
      FailedCommitChangesNothing(s, plan, data);
    }
  }

  lemma FailedCommitChangesNothing(s: Store, plan: WritePlan, data: Bytes)
    requires CommitIn(s, plan, data).1.Bad?
    ensures CommitIn(s, plan, data).0 == s
  {
  }

  // What one step does to an existing entry.
  lemma StepOnEntry(s: Store, e: Event, id: string)
    requires Kept(s) && id in s.resources
    ensures id in Step(s, e).0.resources && EntryKept(Step(s, e).0, id) && !Creates(s, e, id)
    ensures Overwrites(s, e, id) ==>
              && Step(s, e).0.resources[id] == Stored(Bumped(s.resources[id].ref), e.data, None)
              && Step(s, e).1 == Issued(Good(Bumped(s.resources[id].ref)))
    ensures !Overwrites(s, e, id) ==>
              && Step(s, e).0.resources[id].ref == s.resources[id].ref
              && Step(s, e).0.resources[id].data == s.resources[id].data
    ensures !Overwrites(s, e, id) && !Grants(s, e, id) ==>
              Step(s, e).0.resources[id].lease == s.resources[id].lease
    ensures Grants(s, e, id) ==> s.resources[id].lease.None?
    ensures e.WriteCall? && Overwrites(s, e, id) ==> s.resources[id].lease == Some(e.token)
    ensures Grants(s, e, id) && !Overwrites(s, e, id) ==>
              && Step(s, e).0.resources[id].lease.Some?
              && Step(s, e).0.resources[id].lease.value.tokenId == CounterId("lease", s.next + 1)
  {
    match e
    case CreateCall(c) => CreateOnEntry(s, c, id);
    case AcquireCall(refId, owner, expiresAtStep) => LeaseOnEntry(s, refId, owner, expiresAtStep, id);
    case WriteCall(token, data, currentStep) => WriteOnEntry(s, token, data, currentStep, id);
    case CommitCall(plan, data) => CommitOnEntry(s, plan, data, id);
    case TakeId => CountingKeepsEntry(s, Step(s, e).0, id);
    hide CreateIn, LeaseIn, WriteIn, CommitIn, EntryKept;
  }

  // A step adds at most the entry it creates.
  lemma StepOnNewEntry(s: Store, e: Event, id: string)
    requires Kept(s) && id !in s.resources && id in Step(s, e).0.resources
    ensures Creates(s, e, id) && EntryKept(Step(s, e).0, id)
    ensures Step(s, e).0.resources[id].lease.None? && Step(s, e).0.resources[id].ref.generation == 1
    ensures Step(s, e).0.resources[id].data == GivenBytes(e.creation)
  {
    NextIdIsFresh("resource", s.next);
    hide TakenId, FilePath;
  }

  // --- Whole runs ---

  lemma {:induction false} StaysKept(events: seq<Event>, n: nat)
    requires n <= |events|
    ensures Kept(After(events, n))
  {
    hide Step, EntryKept, Overwrites, Grants, Creates;
    if n > 0 {
      StaysKept(events, n - 1);
      var s, e := After(events, n - 1), events[n - 1];
      forall id | id in Step(s, e).0.resources ensures EntryKept(Step(s, e).0, id) {
        if id in s.resources {
          StepOnEntry(s, e, id);
        } else {
          StepOnNewEntry(s, e, id);
        }
      }
    }
  }

  predicate WrittenAt(events: seq<Event>, i: nat, id: string)
    requires i < |events|
  {
    Overwrites(After(events, i), events[i], id)
  }

  /** Successful writes of `id` in events `b` to `n`. */
  function Writes(events: seq<Event>, b: nat, n: nat, id: string): nat
    requires b <= n <= |events|
  {
    if n == b then 0 else Writes(events, b, n - 1, id) + (if WrittenAt(events, n - 1, id) then 1 else 0)
  }

  /** Leases ever granted on `id` in the first `n` events. */
  function LeasesGranted(events: seq<Event>, n: nat, id: string): nat
    requires n <= |events|
  {
    if n == 0 then 0
    else LeasesGranted(events, n - 1, id) + (if Grants(After(events, n - 1), events[n - 1], id) then 1 else 0)
  }

  // What a create is given to store; streams and capabilities store nothing.
  function GivenBytes(c: Creation): Bytes {
    match c
    case Mmap(_, data) => data
    case Blob(_, data) => data
    case CowState(_, _, data) => data
    case Fact(_, _, data) => data
    case Snapshot(_, _, _, data) => data
    case CopyOnWrite(_, data) => data
    case Stream(_, _) => []
    case Capability(_, _) => []
  }

  /** The bytes that the last event to create or write `id` gave it. */
  function LastWritten(events: seq<Event>, n: nat, id: string): Option<Bytes>
    requires n <= |events|
  {
    if n == 0 then None
    else if Creates(After(events, n - 1), events[n - 1], id) then Some(GivenBytes(events[n - 1].creation))
    else if WrittenAt(events, n - 1, id) then Some(events[n - 1].data)
    else LastWritten(events, n - 1, id)
  }

  /** `ref` was handed out by event `i`, by a create, a write or a commit. */
  predicate IssuedAt(events: seq<Event>, i: nat, ref: ResourceRef)
    requires i < |events|
  {
    ReplyTo(events, i) == Issued(Good(ref))
  }

  // Version and generation are one number, in the reference and in its resource id.
  lemma OneNumber(events: seq<Event>, n: nat, id: string)
    requires n <= |events| && id in After(events, n).resources
    ensures var ref := After(events, n).resources[id].ref;
            ref.version == ref.generation == ref.resourceId.version == ref.resourceId.generation
  {
    StaysKept(events, n);
    assert EntryKept(After(events, n), id);
    hide After;
  }

  /** Every successful write moves a resource's version and generation on by exactly one, and
      leaves all else of its reference as it was. */
  lemma {:induction false} VersionsCountWrites(events: seq<Event>, b: nat, n: nat, id: string)
    requires b <= n <= |events| && id in After(events, b).resources
    ensures id in After(events, n).resources
    ensures var (before, after) := (After(events, b).resources[id].ref, After(events, n).resources[id].ref);
            var number := before.version + Writes(events, b, n, id);
            after == ResourceRef(
              before.refId, ResourceId(before.resourceId.kindId, before.resourceId.slotId, number, number),
              before.semantic, before.resourceKind, before.schema, number, number, before.path)
  {
    hide Step, Overwrites, Creates, EntryKept;
    OneNumber(events, b, id);
    if b < n {
      VersionsCountWrites(events, b, n - 1, id);
      StaysKept(events, n - 1);
      StepOnEntry(After(events, n - 1), events[n - 1], id);
    }
  }

  lemma IssuedIsCurrent(events: seq<Event>, i: nat, ref: ResourceRef)
    requires i < |events| && IssuedAt(events, i, ref)
    ensures ref.refId in After(events, i + 1).resources
    ensures After(events, i + 1).resources[ref.refId].ref == ref
  {
    var s, e := After(events, i), events[i];
    StaysKept(events, i);
    match e
    case CreateCall(c) =>
    case WriteCall(token, _, _) => StepOnEntry(s, e, token.refId);
    case CommitCall(plan, _) => StepOnEntry(s, e, plan.resource.refId);
    case _ =>
  }

  lemma {:induction false} DataIsLastWritten(events: seq<Event>, n: nat, id: string)
    requires n <= |events| && id in After(events, n).resources
    ensures LastWritten(events, n, id) == Some(After(events, n).resources[id].data)
  {
    hide Step, Overwrites, Creates, EntryKept;
    var s, e := After(events, n - 1), events[n - 1];
    StaysKept(events, n - 1);
    if id in s.resources {
      DataIsLastWritten(events, n - 1, id);
      StepOnEntry(s, e, id);
    } else {
      StepOnNewEntry(s, e, id);
    }
  }

  lemma ReadOfKept(s: Store, ref: ResourceRef)
    requires Kept(s) && ref.refId in s.resources
    ensures ReadIn(s, ref) == if s.resources[ref.refId].ref.generation == ref.generation
                              then Good(s.resources[ref.refId].data) else Bad(GenerationMismatch)
  {
    assert EntryKept(s, ref.refId);
  }

  /** An issued reference can be read exactly as long as it is the current one, that is until the
      next write; the read returns the bytes last written, file-backed or not. */
  lemma ReadOfIssuedRef(events: seq<Event>, i: nat, n: nat, ref: ResourceRef)
    requires i < n <= |events| && IssuedAt(events, i, ref)
    ensures ref.refId in After(events, n).resources
    ensures ReadIn(After(events, n), ref).Good? <==> After(events, n).resources[ref.refId].ref == ref
    ensures ReadIn(After(events, n), ref).Good? <==> Writes(events, i + 1, n, ref.refId) == 0
    ensures ReadIn(After(events, n), ref).Good? ==>
              Some(ReadIn(After(events, n), ref).value) == LastWritten(events, n, ref.refId)
  {
    hide Step, After, IssuedAt, WrittenAt, EntryKept, Kept, ReadIn, LastWritten, Writes;
    IssuedIsCurrent(events, i, ref);
    VersionsCountWrites(events, i + 1, n, ref.refId);
    OneNumber(events, i + 1, ref.refId);
    StaysKept(events, n);
    ReadOfKept(After(events, n), ref);
    DataIsLastWritten(events, n, ref.refId);
  }

  /** Event `n` commits a plan built from `ref`, successfully. */
  predicate CommitsAt(events: seq<Event>, n: nat, ref: ResourceRef)
    requires n < |events|
  {
    && events[n].CommitCall? && events[n].plan == BuildWritePlan(ref)
    && ReplyTo(events, n).ref.Good?
  }

  // What a successful commit says about the resource it found.
  lemma CommitFacts(events: seq<Event>, n: nat, ref: ResourceRef)
    requires n < |events| && CommitsAt(events, n, ref)
    ensures ReadIn(After(events, n), ref).Good?
    ensures WrittenAt(events, n, ref.refId) && ref.refId in After(events, n).resources
    ensures ReplyTo(events, n) == Issued(Good(Bumped(After(events, n).resources[ref.refId].ref)))
  {
    StaysKept(events, n);
    CommitFindsReadable(After(events, n), events[n].plan, events[n].data);
    CommitOnEntry(After(events, n), events[n].plan, events[n].data, ref.refId);
    hide After, CommitIn, EntryKept, ReadIn;
  }

  lemma CommitFindsReadable(s: Store, plan: WritePlan, data: Bytes)
    requires CommitIn(s, plan, data).1.Good?
    ensures ReadIn(s, plan.resource).Good? && plan.resource.refId in s.resources
  {
  }

  /** A commit of a plan built from an issued reference succeeds only if nobody wrote the
      resource since the reference was issued, so it overwrites no bytes its author had not seen. */
  lemma NoLostUpdate(events: seq<Event>, i: nat, n: nat, ref: ResourceRef)
    requires i < n < |events| && IssuedAt(events, i, ref) && CommitsAt(events, n, ref)
    ensures Writes(events, i + 1, n, ref.refId) == 0
    ensures LastWritten(events, n, ref.refId) == LastWritten(events, i + 1, ref.refId)
    ensures ReplyTo(events, n) == Issued(Good(Bumped(ref)))
  {
    hide Step, After, ReadIn, LastWritten, WrittenAt, ReplyTo, IssuedAt, CommitsAt;
    CommitFacts(events, n, ref);
    ReadOfIssuedRef(events, i, n, ref);
    IssuedIsCurrent(events, i, ref);
    UnwrittenBytesStay(events, i + 1, n, ref.refId);
  }

  lemma {:induction false} UnwrittenBytesStay(events: seq<Event>, b: nat, n: nat, id: string)
    requires b <= n <= |events| && id in After(events, b).resources && Writes(events, b, n, id) == 0
    ensures LastWritten(events, n, id) == LastWritten(events, b, id)
  {
    hide Step, Overwrites, Creates, EntryKept;
    if b < n {
      UnwrittenBytesStay(events, b, n - 1, id);
      VersionsCountWrites(events, b, n - 1, id);
      StaysKept(events, n - 1);
      StepOnEntry(After(events, n - 1), events[n - 1], id);
    }
  }

  lemma {:induction false} WritesSplit(events: seq<Event>, b: nat, m: nat, n: nat, id: string)
    requires b <= m <= n <= |events|
    ensures Writes(events, b, n, id) == Writes(events, b, m, id) + Writes(events, m, n, id)
  {
    hide WrittenAt;
    if m < n {
      WritesSplit(events, b, m, n - 1, id);
    }
  }

  lemma OneWrite(events: seq<Event>, i: nat, id: string)
    requires i < |events| && WrittenAt(events, i, id)
    ensures Writes(events, i, i + 1, id) == 1
  {
    assert Writes(events, i, i, id) == 0;
  }

  /** Of all plans built from one issued reference at most one commits. */
  lemma AtMostOneCommit(events: seq<Event>, i: nat, first: nat, second: nat, ref: ResourceRef)
    requires i < first < second < |events| && IssuedAt(events, i, ref)
    requires CommitsAt(events, first, ref)
    ensures !CommitsAt(events, second, ref)
  {
    hide Step, After, WrittenAt, IssuedAt, CommitsAt, ReplyTo, ReadIn;
    if CommitsAt(events, second, ref) {
      CommitFacts(events, first, ref);
      OneWrite(events, first, ref.refId);
      NoLostUpdate(events, i, second, ref);
      WritesSplit(events, i + 1, first, second, ref.refId);
      WritesSplit(events, first, first + 1, second, ref.refId);
      assert false;
    }
  }

  // --- Leases ---

  lemma NoLeaseWithoutEntry(s: Store, e: Event, id: string)
    requires Kept(s) && id !in Step(s, e).0.resources
    ensures id !in s.resources && !Grants(s, e, id)
  {
    if id in s.resources {
      StepOnEntry(s, e, id);
    }
  }

  lemma {:induction false} NoLeaseBeforeCreation(events: seq<Event>, n: nat, id: string)
    requires n <= |events| && id !in After(events, n).resources
    ensures LeasesGranted(events, n, id) == 0
  {
    hide Step, Grants, Kept;
    if n > 0 {
      var s, e := After(events, n - 1), events[n - 1];
      StaysKept(events, n - 1);
      NoLeaseWithoutEntry(s, e, id);
      NoLeaseBeforeCreation(events, n - 1, id);
    }
  }

  // How a step moves the lease of an existing entry.
  lemma GrantOrWrite(s: Store, e: Event, id: string)
    requires Kept(s) && id in s.resources
    ensures id in Step(s, e).0.resources
    ensures Grants(s, e, id) && Overwrites(s, e, id) ==>
              s.resources[id].lease.None? && Step(s, e).0.resources[id].lease.None?
    ensures Grants(s, e, id) && !Overwrites(s, e, id) ==>
              s.resources[id].lease.None? && Step(s, e).0.resources[id].lease.Some?
    ensures !Grants(s, e, id) && Overwrites(s, e, id) ==>
              s.resources[id].lease.Some? && Step(s, e).0.resources[id].lease.None?
  {
    StepOnEntry(s, e, id);
    hide CreateIn, LeaseIn, WriteIn, CommitIn;
  }

  // Leases granted on an entry, less those its writes used up.
  function LeaseBalance(entry: Stored): int {
    entry.ref.generation - 1 + (if entry.lease.Some? then 1 else 0)
  }

  lemma BalanceStep(s: Store, e: Event, id: string)
    requires Kept(s) && id in s.resources
    ensures id in Step(s, e).0.resources
    ensures LeaseBalance(Step(s, e).0.resources[id])
         == LeaseBalance(s.resources[id]) + (if Grants(s, e, id) then 1 else 0)
  {
    hide Step, Grants, Overwrites, EntryKept, Creates;
    StepOnEntry(s, e, id);
    GrantOrWrite(s, e, id);
  }

  /** Every lease ever granted on a resource either paid for one of its writes or is the one
      still outstanding, expired or not. */
  lemma {:induction false} LeasesAreConserved(events: seq<Event>, n: nat, id: string)
    requires n <= |events| && id in After(events, n).resources
    ensures LeasesGranted(events, n, id) == LeaseBalance(After(events, n).resources[id])
  {
    hide Step, Grants, EntryKept, Creates;
    var s, e := After(events, n - 1), events[n - 1];
    StaysKept(events, n - 1);
    if id in s.resources {
      LeasesAreConserved(events, n - 1, id);
      BalanceStep(s, e, id);
    } else {
      StepOnNewEntry(s, e, id);
      CreationGrantsNothing(s, e, id);
      NoLeaseBeforeCreation(events, n - 1, id);
    }
  }

  lemma CreationGrantsNothing(s: Store, e: Event, id: string)
    requires Creates(s, e, id)
    ensures !Grants(s, e, id)
  {
  }

  lemma StepCounts(s: Store, e: Event)
    ensures s.next <= Step(s, e).0.next
  {
  }

  lemma {:induction false} CounterGrows(events: seq<Event>, b: nat, n: nat)
    requires b <= n <= |events|
    ensures After(events, b).next <= After(events, n).next
  {
    hide Step;
    if b < n {
      CounterGrows(events, b, n - 1);
      StepCounts(After(events, n - 1), events[n - 1]);
    }
  }

  // `token` is out of use: a counter already gave it its id, and it is not its resource's lease.
  ghost predicate OutOfUse(s: Store, token: LeaseToken) {
    && TakenId(token.tokenId, "lease", s.next)
    && token.refId in s.resources && s.resources[token.refId].lease != Some(token)
  }

  lemma OutOfUseStep(s: Store, e: Event, token: LeaseToken)
    requires Kept(s) && OutOfUse(s, token)
    ensures OutOfUse(Step(s, e).0, token)
  {
    hide Step, TakenId, EntryKept, Kept, Overwrites, Grants, Creates;
    StepOnEntry(s, e, token.refId);
    StepCounts(s, e);
    TakenStaysTaken(token.tokenId, "lease", s.next, Step(s, e).0.next);
    NextIdIsFresh("lease", s.next);
  }

  lemma UseRetires(events: seq<Event>, i: nat)
    requires i < |events| && events[i].WriteCall? && ReplyTo(events, i).ref.Good?
    ensures OutOfUse(After(events, i + 1), events[i].token)
  {
    StaysKept(events, i);
    assert EntryKept(After(events, i), events[i].token.refId);
  }

  // Once used, a token is never again the lease of its resource.
  lemma {:induction false} UsedTokenIsGone(events: seq<Event>, i: nat, n: nat)
    requires i < n <= |events| && events[i].WriteCall? && ReplyTo(events, i).ref.Good?
    ensures OutOfUse(After(events, n), events[i].token)
  {
    hide Step, OutOfUse, ReplyTo;
    if n == i + 1 {
      UseRetires(events, i);
    } else {
      UsedTokenIsGone(events, i, n - 1);
      StaysKept(events, n - 1);
      OutOfUseStep(After(events, n - 1), events[n - 1], events[i].token);
    }
  }

  /** Event `k` granted `token`, and its resource has not been written since. */
  ghost predicate GrantedAt(events: seq<Event>, k: nat, n: nat, token: LeaseToken)
    requires k < n <= |events|
  {
    && ReplyTo(events, k) == Granted(Good(token))
    && Writes(events, k + 1, n, token.refId) == 0
  }

  lemma {:induction false} LeaseWasGranted(events: seq<Event>, n: nat, id: string) returns (k: nat)
    requires n <= |events| && id in After(events, n).resources
    requires After(events, n).resources[id].lease.Some?
    ensures k < n && GrantedAt(events, k, n, After(events, n).resources[id].lease.value)
  {
    hide Step, EntryKept, Grants, Overwrites, Creates;
    var s, e := After(events, n - 1), events[n - 1];
    StaysKept(events, n - 1);
    LeaseNamesResource(events, n, id);
    if id !in s.resources {
      StepOnNewEntry(s, e, id);
      assert false;
    } else {
      LeaseComesFrom(s, e, id);
      if Grants(s, e, id) {
        k := n - 1;
        assert Writes(events, n, n, id) == 0;
      } else {
        k := LeaseWasGranted(events, n - 1, id);
      }
    }
  }

  lemma LeaseNamesResource(events: seq<Event>, n: nat, id: string)
    requires n <= |events| && id in After(events, n).resources
    requires After(events, n).resources[id].lease.Some?
    ensures After(events, n).resources[id].lease.value.refId == id
  {
    StaysKept(events, n);
    assert EntryKept(After(events, n), id);
    hide After;
  }

  // A lease present after a step was either granted by it or there before.
  lemma LeaseComesFrom(s: Store, e: Event, id: string)
    requires Kept(s) && id in s.resources && id in Step(s, e).0.resources
    requires Step(s, e).0.resources[id].lease.Some?
    ensures !Overwrites(s, e, id)
    ensures Grants(s, e, id) ==> Step(s, e).1 == Granted(Good(Step(s, e).0.resources[id].lease.value))
    ensures !Grants(s, e, id) ==> Step(s, e).0.resources[id].lease == s.resources[id].lease
  {
    StepOnEntry(s, e, id);
    if Grants(s, e, id) {
      GrantSetsLease(s, e, id);
    }
    hide Step, EntryKept, Grants, Overwrites, Creates;
  }

  lemma GrantSetsLease(s: Store, e: Event, id: string)
    requires id in s.resources && EntryKept(s, id) && Grants(s, e, id)
    requires id in Step(s, e).0.resources && Step(s, e).0.resources[id].lease.Some?
    requires !Overwrites(s, e, id)
    ensures Step(s, e).1 == Granted(Good(Step(s, e).0.resources[id].lease.value))
  {
    LeaseOnEntry(s, e.refId, e.owner, e.expiresAtStep, id);
    hide LeaseIn;
  }

  /** Every successful write is made in time, under a lease this provider granted on the very
      generation that the write replaces. */
  lemma WritesAreLeased(events: seq<Event>, i: nat)
    requires i < |events| && events[i].WriteCall? && ReplyTo(events, i).ref.Good?
    ensures var (token, ref) := (events[i].token, ReplyTo(events, i).ref.value);
            && ref.refId == token.refId && ref.generation == token.generation + 1
            && (token.expiresAtStep.Some? ==> events[i].currentStep <= token.expiresAtStep.value)
            && exists k | 0 <= k < i :: GrantedAt(events, k, i, token)
  {
    var s, e := After(events, i), events[i];
    StaysKept(events, i);
    assert EntryKept(s, e.token.refId);
    var k := LeaseWasGranted(events, i, e.token.refId);
  }

  /** A token supports at most one successful write. */
  lemma TokenWritesOnce(events: seq<Event>, i: nat, n: nat)
    requires i < n < |events| && events[i].WriteCall? && events[n].WriteCall?
    requires events[i].token == events[n].token && ReplyTo(events, i).ref.Good?
    ensures ReplyTo(events, n).ref.Bad?
  {
    UsedTokenIsGone(events, i, n);
  }

  // --- How long a lease is held ---

  /** `e` writes under `token` at a step that the token's expiry allows. */
  predicate UsesInTime(e: Event, token: LeaseToken) {
    && e.WriteCall? && e.token == token
    && (token.expiresAtStep.None? || e.currentStep <= token.expiresAtStep.value)
  }

  predicate HoldsLease(s: Store, token: LeaseToken) {
    token.refId in s.resources && s.resources[token.refId].lease == Some(token)
  }

  lemma InTimeOverwrites(s: Store, e: Event, token: LeaseToken)
    requires HoldsLease(s, token)
    ensures UsesInTime(e, token) ==> Overwrites(s, e, token.refId)
    ensures e.WriteCall? && e.token == token && Overwrites(s, e, token.refId) ==> UsesInTime(e, token)
  {
  }

  // An outstanding lease stops commits: they would have to be granted one.
  lemma CommitGrants(s: Store, e: Event, id: string)
    requires Overwrites(s, e, id) && !e.WriteCall?
    ensures Grants(s, e, id)
  {
  }

  lemma HoldStep(s: Store, e: Event, token: LeaseToken)
    requires Kept(s) && HoldsLease(s, token)
    ensures HoldsLease(Step(s, e).0, token) <==> !UsesInTime(e, token)
  {
    hide Step, Kept, EntryKept, Overwrites, Grants, Creates, UsesInTime;
    StepOnEntry(s, e, token.refId);
    InTimeOverwrites(s, e, token);
    if Overwrites(s, e, token.refId) && !e.WriteCall? {
      CommitGrants(s, e, token.refId);
    }
  }

  // A lease that a store no longer holds cannot come back.
  lemma HeldOrOutOfUse(events: seq<Event>, b: nat, n: nat, token: LeaseToken)
    requires b <= n <= |events| && HoldsLease(After(events, b), token)
    ensures HoldsLease(After(events, n), token) || OutOfUse(After(events, n), token)
  {
    hide Step, Overwrites, Creates;
    StaysKept(events, b);
    assert EntryKept(After(events, b), token.refId);
    CounterGrows(events, b, n);
    TakenStaysTaken(token.tokenId, "lease", After(events, b).next, After(events, n).next);
    VersionsCountWrites(events, b, n, token.refId);
  }

  /** A lease is held until a write under its token comes in time, and no longer. Expiry alone ends
      nothing: a write that comes too late leaves the lease where it was. */
  lemma {:induction false} LeaseIsHeldUntilUsed(events: seq<Event>, b: nat, n: nat, token: LeaseToken)
    requires b <= n <= |events| && HoldsLease(After(events, b), token)
    ensures HoldsLease(After(events, n), token) <==> forall i | b <= i < n :: !UsesInTime(events[i], token)
  {
    hide Step, UsesInTime, HoldsLease, OutOfUse;
    if b < n {
      LeaseIsHeldUntilUsed(events, b, n - 1, token);
      StaysKept(events, n - 1);
      HeldOrOutOfUse(events, b, n - 1, token);
      if HoldsLease(After(events, n - 1), token) {
        HoldStep(After(events, n - 1), events[n - 1], token);
      } else {
        OutOfUseStep(After(events, n - 1), events[n - 1], token);
        OutOfUseIsNotHeld(After(events, n), token);
      }
    }
  }

  lemma OutOfUseIsNotHeld(s: Store, token: LeaseToken)
    requires OutOfUse(s, token)
    ensures !HoldsLease(s, token)
  {
  }

  /** While it is held nobody else gets a lease on its resource, no commit on it succeeds, and its
      bytes, version and lease stay what they are. */
  lemma HeldLeaseExcludes(events: seq<Event>, b: nat, n: nat, token: LeaseToken)
    requires b <= n < |events| && HoldsLease(After(events, b), token)
    requires forall i | b <= i <= n :: !UsesInTime(events[i], token)
    ensures events[n].AcquireCall? && events[n].refId == token.refId ==>
              ReplyTo(events, n) == Granted(Bad(CapabilityExhausted))
    ensures events[n].CommitCall? && events[n].plan.resource.refId == token.refId ==>
              ReplyTo(events, n).ref.Bad?
    ensures token.refId in After(events, n).resources && token.refId in After(events, n + 1).resources
    ensures After(events, n + 1).resources[token.refId] == After(events, n).resources[token.refId]
  {
    LeaseIsHeldUntilUsed(events, b, n, token);
    StaysKept(events, n);
    HeldExcludesStep(After(events, n), events[n], token);
    hide Step, After, HoldsLease, UsesInTime;
  }

  lemma HeldExcludesStep(s: Store, e: Event, token: LeaseToken)
    requires Kept(s) && HoldsLease(s, token) && !UsesInTime(e, token)
    ensures e.AcquireCall? && e.refId == token.refId ==> Step(s, e).1 == Granted(Bad(CapabilityExhausted))
    ensures e.CommitCall? && e.plan.resource.refId == token.refId ==> Step(s, e).1.ref.Bad?
    ensures token.refId in Step(s, e).0.resources
    ensures Step(s, e).0.resources[token.refId] == s.resources[token.refId]
  {
    hide EntryKept, CreateIn, WriteIn;
    StepOnEntry(s, e, token.refId);
    HoldStep(s, e, token);
    if e.CommitCall? {
      CommitIsAllOrNothing(s, e.plan, e.data);
    }
  }

  /** So an expired lease need not last: its holder writes too late, is refused, and writes again at
      an earlier step, for the provider has no clock of its own; then a commit goes through. */
  lemma ExpiredLeaseCanStillBeUsed(kind: string, schema: string, owner: string, data: Bytes)
    returns (events: seq<Event>, token: LeaseToken)
    ensures |events| == 6 && events[1] == AcquireCall(token.refId, owner, Some(5))
    ensures HoldsLease(After(events, 2), token)
    ensures events[2] == WriteCall(token, data, 10) && ReplyTo(events, 2) == Issued(Bad(LeaseExpired))
    ensures events[3].CommitCall? && ReplyTo(events, 3).ref.Bad?
    ensures HoldsLease(After(events, 4), token)
    ensures events[4] == WriteCall(token, data, 3) && ReplyTo(events, 4).ref.Good?
    ensures events[5].CommitCall? && ReplyTo(events, 5).ref.Good?
  {
    var id := CounterId("resource", 1);
    var creation := CowState(kind, schema, data);
    var created := NewRef(creation, id);
    token := LeaseToken(CounterId("lease", 2), id, owner, Some(5), 1);
    events := [
      CreateCall(creation), AcquireCall(id, owner, Some(5)), WriteCall(token, data, 10),
      CommitCall(BuildWritePlan(created), data), WriteCall(token, data, 3),
      CommitCall(BuildWritePlan(Bumped(created)), data)];
    hide Step, After, Kept, Overwrites, Grants, Creates, UsesInTime;
    AfterStep(events, 0);
    FirstStateIsCreated(creation);
    AfterStep(events, 1);
    FirstLeaseIsGranted(After(events, 1), id, owner);
    AfterStep(events, 2);
    LateWriteIsRefused(After(events, 2), token, data, 10);
    AfterStep(events, 3);
    StaysKept(events, 3);
    CommitOutcome(After(events, 3), created, data);
    AfterStep(events, 4);
    TimelyWriteSucceeds(events, token, data);
    AfterStep(events, 5);
    StaysKept(events, 5);
    CommitOutcome(After(events, 5), Bumped(created), data);
  }

  lemma FirstStateIsCreated(c: Creation)
    requires c.CowState?
    ensures var (s, id) := (Step(EMPTY, CreateCall(c)).0, CounterId("resource", 1));
            s.next == 1 && id in s.resources && s.resources[id] == Stored(NewRef(c, id), c.data, None)
  {
    hide CounterId, FilePath;
  }

  lemma FirstLeaseIsGranted(s: Store, id: string, owner: string)
    requires s.next == 1 && id in s.resources && s.resources[id].lease.None? && s.resources[id].ref.generation == 1
    ensures var (after, token) := (Step(s, AcquireCall(id, owner, Some(5))).0,
                                   LeaseToken(CounterId("lease", 2), id, owner, Some(5), 1));
            id in after.resources && after.resources[id] == s.resources[id].(lease := Some(token))
  {
    hide CounterId;
  }

  lemma LateWriteIsRefused(s: Store, token: LeaseToken, data: Bytes, step: int)
    requires token.expiresAtStep.Some? && token.expiresAtStep.value < step
    ensures Step(s, WriteCall(token, data, step)) == (s, Issued(Bad(LeaseExpired)))
  {
  }

  lemma TimelyWriteSucceeds(events: seq<Event>, token: LeaseToken, data: Bytes)
    requires |events| > 4 && events[4] == WriteCall(token, data, 3) && token.expiresAtStep == Some(5)
    requires HoldsLease(After(events, 4), token)
    ensures ReplyTo(events, 4).Issued? && ReplyTo(events, 4).ref.Good?
    ensures token.refId in After(events, 5).resources
    ensures After(events, 5).resources[token.refId]
         == Stored(Bumped(After(events, 4).resources[token.refId].ref), data, None)
  {
    StaysKept(events, 4);
    InTimeOverwrites(After(events, 4), events[4], token);
    StepOnEntry(After(events, 4), events[4], token.refId);
    AfterStep(events, 4);
    hide Step, After, Kept, Overwrites, Grants, Creates;
  }

  // A plan for the current state of an entry commits exactly when no lease is out.
  lemma CommitOutcome(s: Store, ref: ResourceRef, data: Bytes)
    requires Kept(s) && ref.refId in s.resources && s.resources[ref.refId].ref == ref
    requires ref.semantic == CowVersionedState
    ensures Step(s, CommitCall(BuildWritePlan(ref), data)).1.ref.Good? <==> s.resources[ref.refId].lease.None?
    ensures s.resources[ref.refId].lease.Some? ==> Step(s, CommitCall(BuildWritePlan(ref), data)).0 == s
  {
    CommitIsAllOrNothing(s, BuildWritePlan(ref), data);
    hide CommitIn, Kept, ReadIn;
  }

  lemma AfterStep(events: seq<Event>, n: nat)
    requires n < |events|
    ensures After(events, 0) == EMPTY
    ensures (After(events, n + 1), ReplyTo(events, n)) == Step(After(events, n), events[n])
  {
  }

  /** A commit succeeds exactly on an unleased resource whose generation the plan names; then it
      replaces that resource's bytes, moves its version on and leaves no lease behind. Otherwise
      it leaves the whole provider as it was. */
  lemma CommitIsAllOrNothing(s: Store, plan: WritePlan, data: Bytes)
    requires Kept(s)
    ensures CommitIn(s, plan, data).1.Good?
       <==> && plan.resource.semantic == CowVersionedState
            && plan.resource.version == plan.baseVersion
            && plan.resource.refId in s.resources
            && s.resources[plan.resource.refId].ref.generation == plan.resource.generation
            && s.resources[plan.resource.refId].lease.None?
    ensures CommitIn(s, plan, data).1.Bad? ==> CommitIn(s, plan, data).0 == s
    ensures CommitIn(s, plan, data).1.Good? ==>
              var (id, after) := (plan.resource.refId, CommitIn(s, plan, data).0);
              && after.resources == s.resources[id := Stored(Bumped(s.resources[id].ref), data, None)]
              && after.next == s.next + 1
              && after.files == (match s.resources[id].ref.path
                                 case Some(path) => s.files[path := data]
                                 case None => s.files)
              && ReadIn(after, CommitIn(s, plan, data).1.value) == Good(data)
              && CommitIn(s, plan, data).1.value == Bumped(s.resources[id].ref)
  {
    if plan.resource.refId in s.resources {
      ReadOfKept(s, plan.resource);
    }
  }
}
