/** What the resource provider answers to every call, and what it leaves behind. */
module StoreAnswers {
  import opened WireTypes
  import opened Ids
  import opened ResourceStore
  import opened StoreRuns

  // --- Creating ---

  predicate IsBackedByFile(c: Creation) {
    c.Mmap? || c.CowState? || c.Snapshot? || c.CopyOnWrite?
  }

  /** The semantic, kind and schema that each create operation promises. */
  predicate Describes(ref: ResourceRef, c: Creation) {
    match c
    case Mmap(schema, _) => ref.semantic == FrozenValue && ref.resourceKind == "bytes" && ref.schema == schema
    case Blob(schema, _) => ref.semantic == FrozenValue && ref.resourceKind == "blob" && ref.schema == schema
    case CowState(kind, schema, _) =>
      ref.semantic == CowVersionedState && ref.resourceKind == kind && ref.schema == schema
    case Fact(kind, schema, _) => ref.semantic == ReadOnlyFact && ref.resourceKind == kind && ref.schema == schema
    case Stream(kind, schema) => ref.semantic == StreamResource && ref.resourceKind == kind && ref.schema == schema
    case Snapshot(kind, schema, _, _) =>
      ref.semantic == VersionedSnapshot && ref.resourceKind == kind && ref.schema == schema
    case Capability(kind, schema) =>
      ref.semantic == CapabilityResource && ref.resourceKind == kind && ref.schema == schema
    case CopyOnWrite(base, _) =>
      ref.semantic == CowVersionedState && ref.resourceKind == base.resourceKind && ref.schema == base.schema
  }

  /** What a snapshot or a copy has to read first refuses it. */
  predicate SourceFails(s: Store, c: Creation, error: StoreError) {
    || (c.Snapshot? && ReadIn(s, c.source) == Bad(error))
    || (c.CopyOnWrite? && ReadIn(s, c.base) == Bad(error))
  }

  /** A create fails exactly when the read of its source does, and then changes nothing. Otherwise it
      issues a new reference at version 1 that says what was asked for and reads the bytes that were
      given; only a copy-on-write state can then be committed to; nothing else changes. */
  lemma CreateAnswers(s: Store, c: Creation, error: StoreError, data: Bytes)
    requires Kept(s)
    ensures CreateIn(s, c).1 == Bad(error) <==> SourceFails(s, c, error)
    ensures CreateIn(s, c).1.Bad? ==> CreateIn(s, c).0 == s
    ensures CreateIn(s, c).1.Good? ==>
              var (after, ref) := (CreateIn(s, c).0, CreateIn(s, c).1.value);
              && ref.refId !in s.resources && after.resources == s.resources[ref.refId := after.resources[ref.refId]]
              && ref.version == 1 && ref.generation == 1 && ref.resourceId == ResourceId(ref.resourceKind, ref.refId, 1, 1)
              && Describes(ref, c) && (ref.path.Some? <==> IsBackedByFile(c))
              && ReadIn(after, ref) == Good(GivenBytes(c))
              && (CommitIn(after, BuildWritePlan(ref), data).1.Good? <==> c.CowState? || c.CopyOnWrite?)
  {
    hide Kept, CommitIn, FilePath, CounterId, TakenId;
    var (after, answer) := CreateIn(s, c);
    if answer.Good? {
      NewIdIsUnknown(s);
      CreateStaysKept(s, c);
      CommitIsAllOrNothing(after, BuildWritePlan(answer.value), data);
    }
  }

  lemma NewIdIsUnknown(s: Store)
    requires Kept(s)
    ensures CounterId("resource", s.next + 1) !in s.resources
  {
    NextIdIsFresh("resource", s.next);
    hide TakenId, CounterId, FilePath;
  }

  lemma CreateStaysKept(s: Store, c: Creation)
    requires Kept(s)
    ensures Kept(CreateIn(s, c).0)
  {
    hide CreateIn, EntryKept, CounterId;
    var e := CreateCall(c);
    assert Step(s, e).0 == CreateIn(s, c).0;
    forall id | id in CreateIn(s, c).0.resources ensures EntryKept(CreateIn(s, c).0, id) {
      if id in s.resources {
        StepOnEntry(s, e, id);
      } else {
        StepOnNewEntry(s, e, id);
      }
    }
  }

  // --- Reading ---

  /** A read fails exactly on an unknown id or a generation that is not the current one; otherwise it
      returns the entry's bytes, file-backed or not. */
  lemma ReadAnswers(s: Store, ref: ResourceRef)
    requires Kept(s)
    ensures ReadIn(s, ref) == Bad(NotFound) <==> ref.refId !in s.resources
    ensures ReadIn(s, ref) == Bad(GenerationMismatch)
       <==> ref.refId in s.resources && s.resources[ref.refId].ref.generation != ref.generation
    ensures ReadIn(s, ref).Good?
       <==> ref.refId in s.resources && s.resources[ref.refId].ref.generation == ref.generation
    ensures ReadIn(s, ref).Good? ==> ReadIn(s, ref).value == s.resources[ref.refId].data
  {
    if ref.refId in s.resources {
      ReadOfKept(s, ref);
    }
  }

  // --- Leases ---

  /** A lease is granted exactly on a known resource without one. It is the asker's own, under a new
      id, for the current generation and with the expiry asked for; nothing but it changes. */
  lemma LeaseAnswers(s: Store, refId: string, owner: string, expiresAtStep: Option<int>)
    requires Kept(s)
    ensures LeaseIn(s, refId, owner, expiresAtStep).1 == Bad(NotFound) <==> refId !in s.resources
    ensures LeaseIn(s, refId, owner, expiresAtStep).1 == Bad(CapabilityExhausted)
       <==> refId in s.resources && s.resources[refId].lease.Some?
    ensures LeaseIn(s, refId, owner, expiresAtStep).1.Good?
       <==> refId in s.resources && s.resources[refId].lease.None?
    ensures LeaseIn(s, refId, owner, expiresAtStep).1.Bad? ==> LeaseIn(s, refId, owner, expiresAtStep).0 == s
    ensures LeaseIn(s, refId, owner, expiresAtStep).1.Good? ==>
              var (after, token) := (LeaseIn(s, refId, owner, expiresAtStep).0,
                                     LeaseIn(s, refId, owner, expiresAtStep).1.value);
              && token.refId == refId && token.owner == owner && token.expiresAtStep == expiresAtStep
              && token.generation == s.resources[refId].ref.generation
              && !TakenId(token.tokenId, "lease", s.next) && TakenId(token.tokenId, "lease", after.next)
              && HoldsLease(after, token) && after.files == s.files
              && after.resources == s.resources[refId := s.resources[refId].(lease := Some(token))]
  {
    NextIdIsFresh("lease", s.next);
    hide TakenId, CounterId, Kept;
  }

  /** No token is granted twice in a run. */
  lemma TokensAreNew(events: seq<Event>, i: nat, j: nat, token: LeaseToken, other: LeaseToken)
    requires i < j < |events|
    requires ReplyTo(events, i) == Granted(Good(token)) && ReplyTo(events, j) == Granted(Good(other))
    ensures token.tokenId != other.tokenId
  {
    hide TakenId, Step;
    GrantTakesId(events, i, token);
    GrantTakesId(events, j, other);
    CounterGrows(events, i + 1, j);
    TakenStaysTaken(token.tokenId, "lease", After(events, i + 1).next, After(events, j).next);
  }

  lemma GrantTakesId(events: seq<Event>, i: nat, token: LeaseToken)
    requires i < |events| && ReplyTo(events, i) == Granted(Good(token))
    ensures !TakenId(token.tokenId, "lease", After(events, i).next)
    ensures TakenId(token.tokenId, "lease", After(events, i + 1).next)
  {
    AfterStep(events, i);
    StaysKept(events, i);
    var e := events[i];
    LeaseAnswers(After(events, i), e.refId, e.owner, e.expiresAtStep);
    hide After, LeaseIn, TakenId, Kept;
  }

  // --- Writing ---

  /** A write succeeds exactly in time and with the outstanding lease, else it names the first reason
      why not and changes nothing. A success ends the lease; the reference it returns reads the bytes
      written, the one before it no longer reads; nothing else changes. */
  lemma WriteAnswers(s: Store, token: LeaseToken, data: Bytes, currentStep: int)
    requires Kept(s)
    ensures var late := token.expiresAtStep.Some? && token.expiresAtStep.value < currentStep;
            var answer := WriteIn(s, token, data, currentStep).1;
            && (answer == Bad(LeaseExpired) <==> late)
            && (answer == Bad(NotFound) <==> !late && token.refId !in s.resources)
            && (answer == Bad(GenerationMismatch) <==> !late && token.refId in s.resources && !HoldsLease(s, token))
            && (answer.Good? <==> !late && HoldsLease(s, token))
    ensures WriteIn(s, token, data, currentStep).1.Bad? ==> WriteIn(s, token, data, currentStep).0 == s
    ensures WriteIn(s, token, data, currentStep).1.Good? ==>
              var (after, ref) := (WriteIn(s, token, data, currentStep).0, WriteIn(s, token, data, currentStep).1.value);
              && ref.refId == token.refId && token.refId in after.resources
              && ReadIn(after, ref) == Good(data)
              && ReadIn(after, s.resources[token.refId].ref) == Bad(GenerationMismatch)
              && after.resources == s.resources[token.refId := Stored(ref, data, None)]
              && forall path | path in s.files && s.resources[token.refId].ref.path != Some(path) ::
                   path in after.files && after.files[path] == s.files[path]
  {
    if token.refId in s.resources {
      assert EntryKept(s, token.refId);
    }
    hide Kept, TakenId, FilePath;
  }

  // --- Committing ---

  /** Why a commit fails: the first of its checks that does. */
  lemma CommitAnswers(s: Store, plan: WritePlan, data: Bytes)
    requires Kept(s)
    ensures var (ref, answer) := (plan.resource, CommitIn(s, plan, data).1);
            var current := ref.version == plan.baseVersion && ref.refId in s.resources
                          && s.resources[ref.refId].ref.generation == ref.generation;
            && (answer == Bad(SemanticMismatch) <==> ref.semantic != CowVersionedState)
            && (answer == Bad(NotFound) <==>
                  && ref.semantic == CowVersionedState && ref.version == plan.baseVersion
                  && ref.refId !in s.resources)
            && (answer == Bad(GenerationMismatch) <==>
                  && ref.semantic == CowVersionedState
                  && (ref.version != plan.baseVersion || ref.refId in s.resources) && !current)
            && (answer == Bad(CapabilityExhausted) <==>
                  ref.semantic == CowVersionedState && current && s.resources[ref.refId].lease.Some?)
  {
    ReadAnswers(s, plan.resource);
    CommitIsAllOrNothing(s, plan, data);
    hide ReadIn, Kept;
  }

  /** A plan is for the reference it was built from: it commits exactly while that is of the current
      generation, for copy-on-write state without a lease. */
  lemma BuiltPlanAnswers(s: Store, ref: ResourceRef, data: Bytes)
    requires Kept(s)
    ensures CommitIn(s, BuildWritePlan(ref), data).1.Good?
       <==> && ref.semantic == CowVersionedState && ref.refId in s.resources
            && s.resources[ref.refId].ref.generation == ref.generation && s.resources[ref.refId].lease.None?
  {
    CommitIsAllOrNothing(s, BuildWritePlan(ref), data);
    hide CommitIn, Kept;
  }

  /** A plan for the current reference of a copy-on-write resource commits exactly when no lease is
      out, in every run. */
  lemma FreshPlanCommits(events: seq<Event>, n: nat, id: string, data: Bytes)
    requires n <= |events| && id in After(events, n).resources
    requires After(events, n).resources[id].ref.semantic == CowVersionedState
    ensures var s := After(events, n);
            CommitIn(s, BuildWritePlan(s.resources[id].ref), data).1.Good? <==> s.resources[id].lease.None?
  {
    StaysKept(events, n);
    var s := After(events, n);
    assert EntryKept(s, id);
    CommitIsAllOrNothing(s, BuildWritePlan(s.resources[id].ref), data);
    hide CommitIn, Kept, After;
  }
}
