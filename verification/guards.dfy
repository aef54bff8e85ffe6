/** The append-time guards of grd/serializers.py: each event type's
    validator checks its precondition against the current projections,
    and only an accepted event is appended. A rejected request returns an
    error and stores nothing. */
module Guards {
  import opened Wrappers
  import opened Model
  import opened Projections
  import opened Appends
  import opened Registry

  /** Why a request is refused: an unknown device id, an owner list that
      cannot be replayed, or the rule of the event type that failed. */
  datatype Rejection =
    | UnknownDevice
    | OwnersUnavailable(cause: OwnersError)
    | AlreadyAllocated(url: Url)
    | NotAllocated(url: Url)
    | ReceiverNotOwner(url: Url)
    | AlreadyHasParent
    | NotAComponentOfTarget

  /** The event types recorded without a type-specific check. */
  const UncheckedKinds: set<EventKind> := {Recycle, UsageProof, StopUsage}

  /** The event a posted request stores. */
  function Posted(kind: EventKind, d: DeviceId, o: Origin, comps: set<DeviceId>,
                  owner: Option<Url>, to: Option<AgentId>): Event
  {
    Event(kind, d, o.agent, comps, o.date, o.byUser, owner, to)
  }

  /** The target and every listed component are existing devices. */
  predicate Known(s: Store, d: DeviceId, comps: set<DeviceId>)
  {
    d < |s.devices| && forall c | c in comps :: c < |s.devices|
  }

  function Append(s: Store, e: Event): (r: Store)
    ensures r.devices == s.devices && r.log == s.log + [e]
    ensures Valid(s) && Known(s, e.target, e.components) ==> Valid(r)
  {
    var r := Store(s.devices, s.log + [e]);
    assert Valid(s) && Known(s, e.target, e.components) ==> RefersToKnown(r.log, |r.devices|) by {
      if Valid(s) && Known(s, e.target, e.components) {
        forall k | 0 <= k < |r.log|
          ensures r.log[k].target < |r.devices| && forall c :: c in r.log[k].components ==> c < |r.devices|
        {
          if k < |s.log| {
            assert r.log[k] == s.log[k];
          }
        }
      }
    }
    r
  }

  /** `AllocateSerializer.validate_owner`: allocation is refused when the
      url is already an owner. */
  function Allocate(s: Store, d: DeviceId, o: Origin, owner: Url): (r: Result<Store, Rejection>)
    ensures r.Ok? <==> d < |s.devices| && Owners(s.log, d).Ok? && owner !in Owners(s.log, d).value
    ensures r.Ok? ==> r.value == Append(s, Posted(EventKind.Allocate, d, o, {}, Some(owner), None))
    ensures r.Ok? ==> Owners(r.value.log, d) == Ok(Owners(s.log, d).value + [owner])
    ensures r.Ok? && Valid(s) ==> Valid(r.value)
  {
    if d >= |s.devices| then Err(UnknownDevice)
    else
      match Owners(s.log, d)
      case Err(cause) => Err(OwnersUnavailable(cause))
      case Ok(owners) =>
        if owner in owners then Err(AlreadyAllocated(owner))
        else
          var e := Posted(EventKind.Allocate, d, o, {}, Some(owner), None);
          OwnersAppend(s.log, e, d);
          Ok(Append(s, e))
  }

  /** `DeallocateSerializer.validate_owner`: deallocation is refused when
      the url is not an owner. */
  function Deallocate(s: Store, d: DeviceId, o: Origin, owner: Url): (r: Result<Store, Rejection>)
    ensures r.Ok? <==> d < |s.devices| && Owners(s.log, d).Ok? && owner in Owners(s.log, d).value
    ensures r.Ok? ==> r.value == Append(s, Posted(EventKind.Deallocate, d, o, {}, Some(owner), None))
    ensures r.Ok? ==> Owners(r.value.log, d).Ok?
    ensures r.Ok? ==>
      multiset(Owners(r.value.log, d).value) == multiset(Owners(s.log, d).value) - multiset{owner}
    ensures r.Ok? && Valid(s) ==> Valid(r.value)
  {
    if d >= |s.devices| then Err(UnknownDevice)
    else
      match Owners(s.log, d)
      case Err(cause) => Err(OwnersUnavailable(cause))
      case Ok(owners) =>
        if owner !in owners then Err(NotAllocated(owner))
        else
          var e := Posted(EventKind.Deallocate, d, o, {}, Some(owner), None);
          OwnersAppend(s.log, e, d);
          Ok(Append(s, e))
  }

  /** `ReceiveSerializer.validate_byUser`: only a current owner can
      receive the device. */
  function Receive(s: Store, d: DeviceId, o: Origin): (r: Result<Store, Rejection>)
    ensures r.Ok? <==> d < |s.devices| && Owners(s.log, d).Ok? && o.byUser in Owners(s.log, d).value
    ensures r.Ok? ==> r.value == Append(s, Posted(EventKind.Receive, d, o, {}, None, None))
    ensures r.Ok? ==> Owners(r.value.log, d) == Owners(s.log, d)
    ensures r.Ok? && Valid(s) ==> Valid(r.value)
  {
    if d >= |s.devices| then Err(UnknownDevice)
    else
      match Owners(s.log, d)
      case Err(cause) => Err(OwnersUnavailable(cause))
      case Ok(owners) =>
        if o.byUser !in owners then Err(ReceiverNotOwner(o.byUser))
        else
          var e := Posted(EventKind.Receive, d, o, {}, None, None);
          OwnersUnaffected(s.log, e, d);
          Ok(Append(s, e))
  }

  /** `MigrateSerializer.save`: stores the target agent as `to`; the agent
      then holds the device. */
  function Migrate(s: Store, d: DeviceId, o: Origin, comps: set<DeviceId>, to: AgentId): (r: Result<Store, Rejection>)
    ensures r.Ok? <==> Known(s, d, comps)
    ensures r.Ok? ==> r.value == Append(s, Posted(EventKind.Migrate, d, o, comps, None, Some(to)))
    ensures r.Ok? ==> Holder(r.value.log, d) == Ok(to)
    ensures r.Ok? && Valid(s) ==> Valid(r.value)
  {
    if !Known(s, d, comps) then Err(UnknownDevice)
    else
      var e := Posted(EventKind.Migrate, d, o, comps, None, Some(to));
      MigrateSetsHolder(s.log, e);
      Ok(Append(s, e))
  }

  /** `AddSerializer.validate_components`: refused when a proposed
      component already has a parent. */
  function AddComponents(s: Store, d: DeviceId, o: Origin, comps: set<DeviceId>): (r: Result<Store, Rejection>)
    ensures r.Ok? <==> Known(s, d, comps) && forall c :: c in comps ==> Parent(s.log, c).None?
    ensures r.Ok? ==> r.value == Append(s, Posted(Add, d, o, comps, None, None))
    ensures r.Ok? ==> forall c :: c in comps ==>
      Parent(r.value.log, c) == Some(d) && c in Components(r.value.log, d)
    ensures r.Ok? && Valid(s) ==> Valid(r.value)
  {
    if !Known(s, d, comps) then Err(UnknownDevice)
    else if exists c :: c in comps && Parent(s.log, c).Some? then Err(AlreadyHasParent)
    else
      var e := Posted(Add, d, o, comps, None, None);
      assert forall c :: c in comps ==> Parent(s.log + [e], c) == Some(d) && c in Components(s.log + [e], d) by {
        forall c | c in comps
          ensures Parent(s.log + [e], c) == Some(d) && c in Components(s.log + [e], d)
        {
          AddAttaches(s.log, e, c);
        }
      }
      Ok(Append(s, e))
  }

  /** `RemoveSerializer.validate`: refused unless every proposed component
      currently has the target as its parent. */
  function RemoveComponents(s: Store, d: DeviceId, o: Origin, comps: set<DeviceId>): (r: Result<Store, Rejection>)
    ensures r.Ok? <==> Known(s, d, comps) && forall c :: c in comps ==> Parent(s.log, c) == Some(d)
    ensures r.Ok? ==> r.value == Append(s, Posted(Remove, d, o, comps, None, None))
    ensures r.Ok? ==> forall c :: c in comps ==>
      Parent(r.value.log, c).None? && c !in Components(r.value.log, d)
    ensures r.Ok? && Valid(s) ==> Valid(r.value)
  {
    if !Known(s, d, comps) then Err(UnknownDevice)
    else if exists c :: c in comps && Parent(s.log, c) != Some(d) then Err(NotAComponentOfTarget)
    else
      var e := Posted(Remove, d, o, comps, None, None);
      assert forall c :: c in comps ==> Parent(s.log + [e], c).None? && c !in Components(s.log + [e], d) by {
        forall c | c in comps
          ensures Parent(s.log + [e], c).None? && c !in Components(s.log + [e], d)
        {
          RemoveDetaches(s.log, e, c);
        }
      }
      Ok(Append(s, e))
  }

  /** Recycle, UsageProof and StopUsage are stored as posted, with no
      check beyond resolving the devices they name. */
  function Record(s: Store, kind: EventKind, d: DeviceId, o: Origin, comps: set<DeviceId>): (r: Result<Store, Rejection>)
    requires kind in UncheckedKinds
    ensures r.Ok? <==> Known(s, d, comps)
    ensures r.Ok? ==> r.value == Append(s, Posted(kind, d, o, comps, None, None))
    ensures r.Ok? ==> forall c :: Parent(r.value.log, c) == Parent(s.log, c)
    ensures r.Ok? && Valid(s) ==> Valid(r.value)
  {
    if !Known(s, d, comps) then Err(UnknownDevice)
    else
      var e := Posted(kind, d, o, comps, None, None);
      assert forall c :: Parent(s.log + [e], c) == Parent(s.log, c) by {
        forall c
          ensures Parent(s.log + [e], c) == Parent(s.log, c)
        {
          ParentUnaffected(s.log, e, c);
        }
      }
      Ok(Append(s, e))
  }
}
