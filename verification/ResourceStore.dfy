/** The versioned resource store: optimistic generations, exclusive write leases, commits. */
module ResourceStore {
  import opened WireTypes
  import opened Ids

  datatype Semantic =
    FrozenValue | CowVersionedState | ReadOnlyFact | StreamResource | VersionedSnapshot | CapabilityResource

  datatype ResourceId = ResourceId(kindId: string, slotId: string, generation: int, version: int)

  // `path` is set for file-backed resources.
  datatype ResourceRef = ResourceRef(
    refId: string,
    resourceId: ResourceId,
    semantic: Semantic,
    resourceKind: string,
    schema: string,
    version: int,
    generation: int,
    path: Option<string>)

  datatype LeaseToken = LeaseToken(
    tokenId: string, refId: string, owner: string, expiresAtStep: Option<int>, generation: int)

  datatype Stored = Stored(ref: ResourceRef, data: Bytes, lease: Option<LeaseToken>)

  datatype Store = Store(next: nat, resources: map<string, Stored>, files: map<string, Bytes>)

  datatype WritePlan = WritePlan(resource: ResourceRef, baseVersion: int)

  datatype StoreError = NotFound | GenerationMismatch | LeaseExpired | CapabilityExhausted | SemanticMismatch

  datatype Answer<+T> = Good(value: T) | Bad(error: StoreError)

  // The `create_*` constructors.
  datatype Creation =
    | Mmap(schema: string, data: Bytes)
    | Blob(schema: string, data: Bytes)
    | CowState(kindId: string, schema: string, data: Bytes)
    | Fact(kindId: string, schema: string, data: Bytes)
    | Stream(kindId: string, schema: string)
    | Snapshot(kindId: string, schema: string, source: ResourceRef, data: Bytes)
    | Capability(kindId: string, schema: string)
    | CopyOnWrite(base: ResourceRef, data: Bytes)

  const EMPTY := Store(0, map[], map[])

  function FilePath(refId: string): string {
    "mutsuki-python-resource-manager/" + refId + ".bin"
  }

  function ReadIn(s: Store, ref: ResourceRef): Answer<Bytes> {
    if ref.refId !in s.resources then Bad(NotFound)
    else
      var stored := s.resources[ref.refId];
      if stored.ref.generation != ref.generation then Bad(GenerationMismatch)
      else if stored.ref.path.Some? then
        // A missing file would be an I/O failure.
        if stored.ref.path.value in s.files then Good(s.files[stored.ref.path.value]) else Bad(NotFound)
      else Good(stored.data)
  }

  function SemanticOf(c: Creation): Semantic {
    match c
    case Mmap(_, _) => FrozenValue
    case Blob(_, _) => FrozenValue
    case CowState(_, _, _) => CowVersionedState
    case Fact(_, _, _) => ReadOnlyFact
    case Stream(_, _) => StreamResource
    case Snapshot(_, _, _, _) => VersionedSnapshot
    case Capability(_, _) => CapabilityResource
    case CopyOnWrite(_, _) => CowVersionedState
  }

  function KindOf(c: Creation): string {
    match c
    case Mmap(_, _) => "bytes"
    case Blob(_, _) => "blob"
    case CopyOnWrite(base, _) => base.resourceKind
    case _ => c.kindId
  }

  function DataOf(c: Creation): Bytes {
    if c.Stream? || c.Capability? then [] else c.data
  }

  predicate IsFileBacked(c: Creation) {
    c.Mmap? || c.CowState? || c.Snapshot? || c.CopyOnWrite?
  }

  // The resource that a snapshot or copy must be able to read first.
  function SourceOf(c: Creation): Option<ResourceRef> {
    if c.Snapshot? then Some(c.source) else if c.CopyOnWrite? then Some(c.base) else None
  }

  function NewRef(c: Creation, refId: string): ResourceRef {
    ResourceRef(refId, ResourceId(KindOf(c), refId, 1, 1), SemanticOf(c), KindOf(c),
                if c.CopyOnWrite? then c.base.schema else c.schema, 1, 1,
                if IsFileBacked(c) then Some(FilePath(refId)) else None)
  }

  function CreateIn(s: Store, c: Creation): (Store, Answer<ResourceRef>) {
    var source := SourceOf(c);
    if source.Some? && ReadIn(s, source.value).Bad? then
      (s, Bad(ReadIn(s, source.value).error))
    else
      var refId := CounterId("resource", s.next + 1);
      var ref := NewRef(c, refId);
      (Store(s.next + 1,
             s.resources[refId := Stored(ref, DataOf(c), None)],
             if IsFileBacked(c) then s.files[FilePath(refId) := DataOf(c)] else s.files),
       Good(ref))
  }

  function LeaseIn(s: Store, refId: string, owner: string, expiresAtStep: Option<int>)
    : (Store, Answer<LeaseToken>)
  {
    if refId !in s.resources then (s, Bad(NotFound))
    else if s.resources[refId].lease.Some? then (s, Bad(CapabilityExhausted))
    else
      var token := LeaseToken(CounterId("lease", s.next + 1), refId, owner, expiresAtStep,
                              s.resources[refId].ref.generation);
      (s.(next := s.next + 1, resources := s.resources[refId := s.resources[refId].(lease := Some(token))]),
       Good(token))
  }

  function Bumped(ref: ResourceRef): ResourceRef {
    ref.(resourceId := ref.resourceId.(generation := ref.generation + 1, version := ref.version + 1),
         version := ref.version + 1, generation := ref.generation + 1)
  }

  function WriteIn(s: Store, token: LeaseToken, data: Bytes, currentStep: int)
    : (Store, Answer<ResourceRef>)
  {
    if token.expiresAtStep.Some? && currentStep > token.expiresAtStep.value then (s, Bad(LeaseExpired))
    else if token.refId !in s.resources then (s, Bad(NotFound))
    else if s.resources[token.refId].lease != Some(token) then (s, Bad(GenerationMismatch))
    else
      var ref := s.resources[token.refId].ref;
      (s.(resources := s.resources[token.refId := Stored(Bumped(ref), data, None)],
          files := if ref.path.Some? then s.files[ref.path.value := data] else s.files),
       Good(Bumped(ref)))
  }

  function BuildWritePlan(ref: ResourceRef): WritePlan {
    WritePlan(ref, ref.version)
  }

  function CommitIn(s: Store, plan: WritePlan, data: Bytes): (Store, Answer<ResourceRef>) {
    if plan.resource.semantic != CowVersionedState then (s, Bad(SemanticMismatch))
    else if plan.resource.version != plan.baseVersion then (s, Bad(GenerationMismatch))
    else
      var read := ReadIn(s, plan.resource);
      if read.Bad? then (s, Bad(read.error))
      else
        var (leased, lease) := LeaseIn(s, plan.resource.refId, "resource-plan", None);
        if lease.Bad? then (leased, Bad(lease.error))
        else WriteIn(leased, lease.value, data, 0)
  }

  class FakeResourceProvider {
    var next: nat
    var resources: map<string, Stored>
    var files: map<string, Bytes>

    function State(): Store
      reads this
    {
      Store(next, resources, files)
    }

    constructor ()
      ensures State() == EMPTY
    {
      next, resources, files := 0, map[], map[];
    }

    method Id(prefix: string) returns (id: string)
      modifies this`next
      ensures next == old(next) + 1 && id == CounterId(prefix, next)
    {
      next := next + 1;
      id := CounterId(prefix, next);
    }

    method ReadResource(ref: ResourceRef) returns (r: Answer<Bytes>)
      ensures r == ReadIn(State(), ref)
    {
      if ref.refId !in resources {
        return Bad(NotFound);
      }
      var stored := resources[ref.refId];
      if stored.ref.generation != ref.generation {
        return Bad(GenerationMismatch);
      }
      if stored.ref.path.Some? {
        var path := stored.ref.path.value;
        return if path in files then Good(files[path]) else Bad(NotFound);
      }
      r := Good(stored.data);
    }

    method Create(c: Creation) returns (r: Answer<ResourceRef>)
      modifies this
      ensures (State(), r) == CreateIn(old(State()), c)
    {
      var source := SourceOf(c);
      if source.Some? {
        var read := ReadResource(source.value);
        if read.Bad? {
          return Bad(read.error);
        }
      }
      var refId := Id("resource");
      if IsFileBacked(c) {
        files := files[FilePath(refId) := DataOf(c)];
      }
      var ref := NewRef(c, refId);
      resources := resources[refId := Stored(ref, DataOf(c), None)];
      r := Good(ref);
    }

    method AcquireWriteLease(refId: string, owner: string, expiresAtStep: Option<int>)
      returns (r: Answer<LeaseToken>)
      modifies this`next, this`resources
      ensures (State(), r) == LeaseIn(old(State()), refId, owner, expiresAtStep)
    {
      if refId !in resources {
        return Bad(NotFound);
      }
      var stored := resources[refId];
      if stored.lease.Some? {
        return Bad(CapabilityExhausted);
      }
      var tokenId := Id("lease");
      var token := LeaseToken(tokenId, refId, owner, expiresAtStep, stored.ref.generation);
      resources := resources[refId := stored.(lease := Some(token))];
      r := Good(token);
    }

    method WriteWithLease(token: LeaseToken, data: Bytes, currentStep: int) returns (r: Answer<ResourceRef>)
      modifies this`resources, this`files
      ensures (State(), r) == WriteIn(old(State()), token, data, currentStep)
    {
      if token.expiresAtStep.Some? && currentStep > token.expiresAtStep.value {
        return Bad(LeaseExpired);
      }
      if token.refId !in resources {
        return Bad(NotFound);
      }
      var stored := resources[token.refId];
      if stored.lease != Some(token) {
        return Bad(GenerationMismatch);
      }
      if stored.ref.path.Some? {
        files := files[stored.ref.path.value := data];
      }
      var updated := Bumped(stored.ref);
      resources := resources[token.refId := Stored(updated, data, None)];
      r := Good(updated);
    }

    method CommitWritePlan(plan: WritePlan, data: Bytes) returns (r: Answer<ResourceRef>)
      modifies this
      ensures (State(), r) == CommitIn(old(State()), plan, data)
    {
      if plan.resource.semantic != CowVersionedState {
        return Bad(SemanticMismatch);
      }
      if plan.resource.version != plan.baseVersion {
        return Bad(GenerationMismatch);
      }
      var read := ReadResource(plan.resource);
      if read.Bad? {
        return Bad(read.error);
      }
      var lease := AcquireWriteLease(plan.resource.refId, "resource-plan", None);
      if lease.Bad? {
        return Bad(lease.error);
      }
      r := WriteWithLease(lease.value, data, 0);
    }
  }
}
