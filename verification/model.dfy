/** The entities of the ledger: devices, events and the vocabulary they use
    (grd/models.py). Every piece of lifecycle state is derived from events,
    so a device record carries identity only. */
module Model {
  import opened Wrappers

  /** Primary key of a device; devices are numbered in creation order. */
  type DeviceId = nat

  /** Primary key of an agent (the organisation recording events). */
  type AgentId = nat

  type Url = string

  /** An instant, as whole seconds since 1970-01-01T00:00:00Z. */
  type Time = int

  /** A calendar date (the `DateField` holding a production date). */
  datatype Date = Date(year: int, month: int, day: int)

  datatype DeviceKind =
    | Computer | Mobile | Monitor | Peripheral | GraphicCard | HardDrive
    | Motherboard | NetworkAdapter | OpticalDrive | Processor | RamModule
    | SoundCard

  /** A device's identity. `hid` is unique when present, `sameAs` always. */
  datatype Device = Device(
    hid: Option<string>,
    sameAs: Url,
    kind: DeviceKind,
    productionDate: Option<Date>)

  /** The event types the ledger accepts. */
  datatype EventKind =
    | Register | Locate | Migrate | Recycle
    | Allocate | Deallocate | Receive | UsageProof | StopUsage
    | Add | Remove

  /** One immutable log entry. Its position in the log is its server-side
      order (`grdDate`); `date` is the optional business timestamp.
      `owner` is the url of the allocatee of an Allocate/Deallocate and `to`
      the only key of the free-form `data` map the core reads (a Migrate's
      target agent). */
  datatype Event = Event(
    kind: EventKind,
    target: DeviceId,
    agent: AgentId,
    components: set<DeviceId>,
    date: Option<Time>,
    byUser: Url,
    owner: Option<Url>,
    to: Option<AgentId>)

  /** The three kinds that change how devices are nested in each other. */
  const RelationKinds: set<EventKind> := {Register, Add, Remove}

  /** The two kinds that change the owner list. */
  const AssignationKinds: set<EventKind> := {Allocate, Deallocate}

  /** The two kinds that drive the running-time metric. */
  const UsageKinds: set<EventKind> := {UsageProof, StopUsage}
}
