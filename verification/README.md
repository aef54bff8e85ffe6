# grd device ledger — a Dafny model

The eReuse `grd` service is a traceability ledger for devices. Agents post
typed lifecycle events (Register, Allocate, Deallocate, Receive, Migrate, Add,
Remove, Recycle, UsageProof, StopUsage) about devices. The service
never stores device state. It derives every fact by replaying the
append-only event log in server order (`grdDate`):

- a device's components and parent;
- its holder (the agent that has it) and its owners (the users it is
  allocated to);
- its running time and durability.

Before an event is stored, the serializer of its type checks a
precondition against those derived facts.

This project models that core:

- `Model` holds the entities. A device has an optional hardware id `hid`,
  a unique `sameAs` url, a kind and an optional production date. An event
  has a kind, a target device, a recording agent, a set of component
  devices, an optional business date, the acting user, an optional owner
  url and an optional `to` agent.
- `EventLog` holds the ORM queries over the one global log, whose indices
  are store order. `latest()` is the last match and `earliest()` the first.
  `get()` returns the only match, or `DoesNotExist` /
  `MultipleObjectsReturned`. `related_to_device` is also here.
- `Projections` and `Metrics` hold the `Device` properties, each a fold
  over the log. Component membership, the parent and the running time are
  proved equal to separate reference definitions (`IsComponent`,
  `AttachedBy`, `ClosedSeconds`). How often a component occurs is stated
  by counting Adds. The holder, owners and durability are characterised
  through the `latest()`/`get()` queries and by counting.
- `Calendar` computes the UTC year of an instant. The durability metric
  uses it.
- `Appends` holds what appending one event does to each projection.
- `Registry` covers device resolution by hardware id and the Register
  request. `Guards` holds the per-type guards.
- `Ledger` drives the guards from a sequence of requests. Its main result:
  an owner list built only through the guards has no duplicates and always
  replays.
- `Scenarios` holds concrete histories with the values the ledger's tests
  expect.

The wall clock (`timezone.now()`) is the parameter `now`. Agents are bare
ids. Durations are whole seconds.

## Model

| member | source | states |
|---|---|---|
| EventLog.Latest | grd/models.py:253-258 | `latest()` by `grdDate`: the result is a selected event with no selected event after it, and it is absent exactly when nothing is selected |
| EventLog.Earliest | grd/models.py:170-172 | `earliest()`: a selected event with no selected event before it, absent exactly when nothing is selected |
| EventLog.Get | grd/models.py:152-155 | `get()`: Ok only for the single selected event; `DoesNotExist` exactly when none is selected; `MultipleObjectsReturned` exactly when two are |
| EventLog.RelatedToDevice | grd/models.py:179-181 | every event whose target is the device or whose components contain it, each exactly once, in store order |
| Projections.Components | grd/models.py:52-73 | `x` is a component exactly when the reference rule `IsComponent` holds: an Add of `x` not undone by a later Remove, or `x` in the latest Register and never removed |
| Projections.ReplayCount | grd/models.py:65-71 | over any base list, with no Remove every Add listing `x` adds one copy; after the last Remove, `x` occurs once if it survived that Remove, plus once per later Add listing it |
| Projections.ComponentCount | grd/models.py:52-73 | how often `x` occurs in `components`: with no Remove of the device, once if the latest Register lists it plus once per Add listing it; otherwise once if it survived the last Remove (added and kept, or snapshotted and not removed, up to it) plus once per later Add |
| Projections.ReplayMembership | grd/models.py:65-71 | replaying Add/Remove over a base keeps `x` exactly when the last Add/Remove naming `x` is an Add, or none names it and the base has it |
| Projections.SnapshotMembership | grd/models.py:54-63 | the base list is the component set of the latest Register only, so later snapshots replace earlier ones |
| Projections.NoHistoryNoComponents | grd/models.py:54-61 | a device with no Register, Add or Remove of its own has no components |
| Projections.Parent | grd/models.py:114-126 | the parent is `p` exactly when some Register or Add of `p` lists the device and no later Register, Add or Remove lists it |
| Projections.LatestOwnIsLatest | grd/models.py:78 | the last event of a kind on a device is what `latest()` returns |
| Projections.Holder | grd/models.py:75-97 | the holder comes from the latest Migrate's `to` agent (an error when it has none). Without a Migrate it is the agent of the latest Register. With neither there is a distinct not-implemented error, and only then |
| Projections.RemoveFirst | grd/models.py:110 | `list.remove` removes one occurrence: the length drops by one and the multiset of urls loses exactly one `u` |
| Projections.RemoveFirstKeepsOrder | grd/models.py:110 | the occurrence removed is the first `u`, and the result is the list before it followed by the list after it, in order |
| Projections.Owners | grd/models.py:99-112 | a successful replay holds each url as many times as it was allocated minus as many times as it was deallocated |
| Projections.OwnersErrorPersists | grd/models.py:106-110 | once the owner replay fails on a prefix of the log, the whole replay fails with that same error |
| Projections.AssignationFailure | grd/models.py:108-110 | an Allocate or Deallocate without an owner url fails the replay with `OwnerIsNone`; a Deallocate of a url absent from the list so far fails it with `NotInList` of that url |
| Projections.AssignationSuccess | grd/models.py:106-110 | on a replay that has not failed, an Allocate always appends its url, even one already listed, and a Deallocate of a listed url removes its first occurrence |
| Projections.OwnersOutcome | grd/models.py:99-112 | the owner replay succeeds exactly when no Allocate or Deallocate of the device lacks an owner and no Deallocate names a url the earlier events allocated no more often than they deallocated it |
| Metrics.UsageReplay | grd/models.py:138-146 | the open interval after the replay starts at the date of the latest UsageProof unless a StopUsage followed it, and the counted seconds equal the reference sum `ClosedSeconds` of every StopUsage's date minus its open start; without usage events nothing is open and nothing counted |
| Metrics.UsageReplayOutcome | grd/models.py:140-146 | the usage replay succeeds exactly when no StopUsage fails (none without an open interval or a date); otherwise it fails at the first such StopUsage, with `NoOpenInterval` when nothing was open and `DateIsNone` when the date is missing |
| Metrics.CloseTime | grd/models.py:148-156 | an open interval closes at `now` when there is no Recycle. It closes at the date of the only Recycle when there is one, and fails when there are several or the date is missing |
| Metrics.RunningTime | grd/models.py:129-158 | 0 when the device has no UsageProof. Otherwise an error when some StopUsage fails; else `ClosedSeconds` when nothing is left open, and when an interval is open from `b`, `ClosedSeconds` plus (closing instant − `b`), or the closing error when the instant is unknown |
| Metrics.UsageReplayNonNegative | grd/models.py:138-146 | in a chronological history the closed intervals sum to a non-negative number of seconds |
| Metrics.RunningTimeNonNegative | grd/models.py:129-158 | a chronological history with no use after recycling and no date after `now` never has a negative running time |
| Metrics.ProducedYear | grd/models.py:170-174 | with a production date, its year. Without one, the year of the first Register in store order, `MissingDate` when that Register has no date, and `NeverRegistered` exactly when there is no Register |
| Metrics.ProducedInDeterminesYear | grd/models.py:170-174 | the production year is unique: any year the reference rule `ProducedIn` admits is the one computed |
| Metrics.Durability | grd/models.py:160-176 | `NotRecycledYet` exactly when there is no Recycle and `SeveralRecycles` exactly when there are several. With a single undated Recycle, `MissingDate`; with a single dated Recycle and a production year `y`, the Recycle's year minus `y`. On success there is a single dated Recycle |
| Calendar.YearOfEraShift | grd/models.py:165 | the year of an instant 146097 days later is 400 more (the Gregorian cycle) |
| Appends.AddAttaches | grd/models.py:114-126 | after an Add listing `c`, `c`'s parent is the Add's target and `c` is among the target's components |
| Appends.RemoveDetaches | grd/models.py:114-126 | after a Remove listing `c`, `c` has no parent and is not among the target's components |
| Appends.ParentUnaffected | grd/models.py:117-119 | an event that is not a Register, Add or Remove, or does not list `c`, leaves `c`'s parent unchanged (a Recycle listing `c` included) |
| Appends.ComponentsUnaffected | grd/models.py:65-67 | an event of another device, or of a kind other than Register, Add and Remove, leaves the components unchanged |
| Appends.SnapshotReplacesBase | grd/models.py:55-63 | after a new Register, the components are its list with the whole earlier Add/Remove history replayed on top, whatever older snapshots held |
| Appends.MigrateSetsHolder | grd/models.py:77-82 | after a Migrate with a `to` agent, the holder is that agent |
| Appends.OwnersUnaffected | grd/models.py:101-106 | events of other devices or of kinds other than Allocate and Deallocate leave the owners unchanged |
| Registry.WithHid | grd/serializers.py:39-42 | the lookup `hid=h` finds exactly the devices whose `hid` equals `h`, an absent `h` matching the devices without one |
| Registry.SameAsUsed | grd/models.py:41 | true exactly when some device already has the url as its `sameAs` |
| Registry.GetOrCreateAsWritten | grd/serializers.py:38-43 | as written, a description without a hid resolves to the existing device without a hid (see Findings) |
| Registry.GetOrCreate | grd/serializers.py:38-43 | a stored device the description describes (the same hid; without a hid, the hid-less device with the same `sameAs`) is reused and nothing changes. Otherwise a device with the request's hid, url and type and no production date is created with the next id, unless its `sameAs` is taken. Identities stay unique and existing ids are kept |
| Registry.ResolveAll | grd/serializers.py:109-112 | resolving the components one by one keeps identities unique, keeps existing ids, and yields only existing devices |
| Registry.ResolveAllDescribes | grd/serializers.py:109-112 | after resolution every requested component is described by some returned device (same hid, and same `sameAs` when it has no hid), and every returned device describes some requested component |
| Registry.ResolveAllCreates | grd/serializers.py:109-112 | every device resolution adds is the record created from one of the component descriptions (hid, url, type, no production date) and is among the resolved ids |
| Registry.ResolveAllKnown | grd/serializers.py:109-112 | when every component names a known hid, nothing is created and the result is exactly the devices those hids name |
| Registry.Register | grd/serializers.py:99-120 | succeeds exactly when the device and all components resolve. It then keeps the store consistent and existing device ids, and appends exactly one Register event carrying the request's agent, date and user. Its target is the device the request resolves to: the stored device it describes, else a new one. Its components are the ids the components resolve to, each describing a requested component and each requested component described by one of them. The device table is the one resolution produced, and each added device was created from the request's device or one of its components |
| Registry.KnownRegisterAddsSnapshot | grd/serializers.py:99-112 | registering a stored device (one the request describes) with known components creates no device and appends a snapshot on the existing device listing exactly the named components |
| Guards.Append | grd/serializers.py:136-142 | storing an event whose devices exist keeps every event referring to existing devices |
| Guards.Allocate | grd/serializers.py:152-159 | accepted exactly when the owner url is not already an owner; afterwards the owners are the old list plus that url |
| Guards.Deallocate | grd/serializers.py:166-173 | accepted exactly when the owner url is an owner; afterwards that url occurs once less |
| Guards.Receive | grd/serializers.py:181-188 | accepted exactly when the acting user is an owner; the owners do not change |
| Guards.Migrate | grd/serializers.py:201-206 | records the target agent as `to`; afterwards the holder is that agent |
| Guards.AddComponents | grd/serializers.py:213-219 | accepted exactly when no proposed component has a parent; afterwards each has the target as parent and is among its components |
| Guards.RemoveComponents | grd/serializers.py:226-234 | accepted exactly when every proposed component has the target as parent; afterwards none has a parent or is among the target's components |
| Guards.Record | grd/serializers.py:136-142 | Recycle, UsageProof and StopUsage are stored with no rule of their own; no device's parent changes |
| Ledger.Apply | grd/serializers.py:145-234 | handling a request keeps the store consistent and device ids stable, and either stores nothing or appends exactly one event |
| Ledger.Run | grd/serializers.py:145-234 | any sequence of requests keeps the store consistent |
| Ledger.AppendNew | grd/models.py:108 | appending a url not yet in a duplicate-free list keeps it duplicate-free |
| Ledger.RemoveKeepsNoDuplicates | grd/models.py:110 | removing a url from a duplicate-free list keeps it duplicate-free |
| Ledger.AppendKeepsOwnersSound | grd/serializers.py:152-173 | an Allocate of a new owner or a Deallocate of a present one keeps every owner list replayable and duplicate-free |
| Ledger.ApplyKeepsOwnersSound | grd/serializers.py:152-173 | every guarded request keeps every owner list replayable and duplicate-free |
| Ledger.GuardedOwnersSound | grd/serializers.py:152-173 | in a log built only through the guards, no owner list has a duplicate and no replay meets a Deallocate of an absent owner |
| Scenarios.SingleUseIsCounted | grd/models.py:138-146 | a UsageProof and a StopUsage 25 seconds apart give 25 seconds |
| Scenarios.SeveralUsesAreSummed | grd/models.py:140-146 | two two-hour uses give 4·3600 seconds |
| Scenarios.RecycleClosesOpenUse | grd/models.py:148-156 | an interval left open is closed by the Recycle 25 seconds later |
| Scenarios.OpenUseRunsUntilNow | grd/models.py:152-156 | with no StopUsage and no Recycle, the interval runs up to `now` |
| Scenarios.NoUseIsZero | grd/models.py:134-136 | a device never used has running time 0 |
| Scenarios.NewYearInstants | grd/models.py:165 | 2014-01-01T00:00Z falls in 2014 and 2015-01-01T00:00Z in 2015 |
| Scenarios.DurabilityFromProductionDate | grd/models.py:170-176 | produced in 2009 and recycled in 2015: durability 6 |
| Scenarios.DurabilityFromFirstRegister | grd/models.py:170-172 | with no production date, registered in 2014 and recycled in 2015: durability 1 |
| Scenarios.DurabilityFromEarliestOfSeveralRegisters | grd/models.py:170-174 | with two Registers in 2014 and a Recycle in 2015, the earliest Register gives durability 1 |
| Scenarios.NoDurabilityBeforeRecycle | grd/models.py:164-168 | a device not yet recycled has no durability |
| Scenarios.AddAndRemoveAfterRegister | grd/models.py:52-73 | registered with 1 and 2, then 3 added and 1 removed: the components are 2 and 3 |
| Scenarios.AddThenSnapshotRepeats | grd/models.py:55-69 | a device added and then listed again by a new Register occurs twice in the components |
| Scenarios.LaterSnapshotWins | grd/models.py:55-63 | a second Register with a different list replaces the first |
| Scenarios.OlderAddIsReplayed | grd/models.py:65-71 | an Add stored before the latest Register still counts on top of it |
| Scenarios.SnapshotLeavesStaleParent | grd/models.py:114-126 | a device left out of a newer snapshot still names the old parent, which no longer lists it |
| Scenarios.RegisterThenMigrate | grd/models.py:75-97 | the registering agent holds the device until a Migrate hands it to its `to` agent |
| Scenarios.ComponentSeesParentEvents | grd/models.py:179-181 | a component's history includes its parent's Register and Recycle that list it, and nothing else |
| Scenarios.AllocateThenDeallocate | grd/models.py:99-112 | allocating a user gives `[user]`; deallocating them again gives `[]` |
| Scenarios.DeallocateWithoutAllocate | grd/models.py:110 | deallocating a user who was never allocated breaks the replay |
| Scenarios.HidlessReusedAsWritten | grd/serializers.py:38-43 | as written, a new device without a hid is resolved to the existing hid-less device |
| Scenarios.HidlessCreated | grd/serializers.py:38-43 | with the intended lookup, the same request creates device 1 |
| Scenarios.HidlessSnapshotReused | grd/serializers.py:38-43 | with the intended lookup, a hid-less description with the stored device's own url reuses device 0 |

## Left out

- HTTP routing, permissions, response building and the URL-or-hid lookup of
  a device in grd/views.py: framework code. A request names its device by
  id, and an unknown id is rejected (`UnknownDevice`).
- Agents, users, tokens and the `Agent.objects.get` on the holder: agents are bare
  ids. A `to` agent that does not exist in the database is not modelled,
  only a missing `to`.
- Location, `geo` and lat/lon: floating point and GIS.
- The HStore `data` field beyond its `to` key; `dhDate`, `errors`,
  `secured`, `incidence`, `receiver`, `receiverType` and `place`. No
  projection or guard reads them.
- The Locate event has no rule and no route of its own. The Collect event
  some tests post is not an event type of the ledger, and neither is modelled.
- Component lookup by hid slug in event requests: components are given as
  device ids.
- Order of validation errors: a request that breaks several rules is
  rejected, but which message the framework reports first is not modelled.
- Registration is modelled as atomic. Outside a transaction the source can
  leave the first device or event stored when a later component fails to
  resolve.
- Concurrent appends: the source has no locking, and the model is sequential.
- Projections.Components: the order of the list is not modelled; the
  components are a multiset. The source's order is the order the
  many-to-many query returns, and after a Remove the order of a Python set.
- Metrics.RunningTime: `total_seconds()` returns a float; the model counts
  whole seconds.
- Metrics.ProducedYear: the earliest Register is taken by store order
  (`earliest()` orders by `grdDate`), following the code, not by business
  date.
- Registry.GetOrCreate: a description without a hid whose `sameAs` belongs
  to a device that has a hid is refused (`SameAsTaken`). The code as written
  would reuse some hid-less device or hit the unique constraint, and no
  intended behaviour is evident for this case.
- Registry.Register: resolves devices with the corrected GetOrCreate (see
  Findings). The source as written would attach a hid-less description to
  an existing hid-less device; Ledger.Run inherits the corrected lookup.
- Calendar.YearOf has no reference calendar definition. Only its 400-year
  period and the years of concrete instants are proved.
- Database constraints other than the unique `sameAs` and `hid`, such as
  the hid format validator and the length limits, are not modelled.

## Findings

| source | as written | input that shows it | evidently intended | confidence | as-written member | corrected member |
|---|---|---|---|---|---|---|
| grd/serializers.py:38-43 | `get_or_create(hid=None, ...)` looks up devices whose hid is NULL, so a device described without a hid resolves to whichever stored device has none | the store holds one device without a hid and `sameAs` a; a Register describes a device without a hid and `sameAs` b | a description without a hid is identified by its `sameAs`: it reuses the hid-less device with that url (a new snapshot) and otherwise creates a new device (b) | medium, not executed | Registry.GetOrCreateAsWritten | Registry.GetOrCreate |
