/** Queries over the append-only event log. The log is one sequence for
    the whole ledger; an event's index is its server-side order, so the
    ORM's `latest()` is the last match, `earliest()` the first match and
    `get()` the only match. */
module EventLog {
  import opened Wrappers
  import opened Model

  /** Which events a query selects: a device's own events of some kinds
      (`device.events`), or the events listing the device as one of their
      components (`device.parent_events`). */
  datatype Query =
    | OwnOf(device: DeviceId, kinds: set<EventKind>)
    | ListingOf(device: DeviceId, kinds: set<EventKind>)

  predicate Selects(q: Query, e: Event)
  {
    match q
    case OwnOf(d, ks) => e.target == d && e.kind in ks
    case ListingOf(d, ks) => d in e.components && e.kind in ks
  }

  /** True when no event at index `from` or later is selected. */
  ghost predicate NoneSelectedFrom(log: seq<Event>, q: Query, from: nat)
  {
    forall j :: from <= j < |log| ==> !Selects(q, log[j])
  }

  /** `latest()`: the index of the last selected event, if any. */
  function Latest(log: seq<Event>, q: Query): (r: Option<nat>)
    ensures r.Some? ==> r.value < |log| && Selects(q, log[r.value])
    ensures r.Some? ==> NoneSelectedFrom(log, q, r.value + 1)
    ensures r.None? <==> NoneSelectedFrom(log, q, 0)
  {
    if |log| == 0 then None
    else if Selects(q, log[|log| - 1]) then Some(|log| - 1)
    else Latest(log[..|log| - 1], q)
  }

  /** `earliest()`: the index of the first selected event, if any. */
  function Earliest(log: seq<Event>, q: Query): (r: Option<nat>)
    ensures r.Some? ==> r.value < |log| && Selects(q, log[r.value])
    ensures r.Some? ==> forall j :: 0 <= j < r.value ==> !Selects(q, log[j])
    ensures r.None? <==> NoneSelectedFrom(log, q, 0)
  {
    if |log| == 0 then None
    else
      var first := Earliest(log[..|log| - 1], q);
      if first.Some? then first
      else if Selects(q, log[|log| - 1]) then Some(|log| - 1)
      else None
  }

  /** Why `get()` found no single event. */
  datatype GetError = DoesNotExist | MultipleObjectsReturned

  /** `get()`: the index of the only selected event. */
  function Get(log: seq<Event>, q: Query): (r: Result<nat, GetError>)
    ensures r.Ok? ==> r.value < |log| && Selects(q, log[r.value])
    ensures r.Ok? ==> forall j :: 0 <= j < |log| && j != r.value ==> !Selects(q, log[j])
    ensures r == Err(DoesNotExist) <==> NoneSelectedFrom(log, q, 0)
    ensures r == Err(MultipleObjectsReturned) <==>
      exists i, j :: 0 <= i < j < |log| && Selects(q, log[i]) && Selects(q, log[j])
  {
    match (Earliest(log, q), Latest(log, q))
    case (None, _) => Err(DoesNotExist)
    case (Some(i), None) => assert false; Err(DoesNotExist)
    case (Some(i), Some(j)) =>
      if i == j then Ok(i) else Err(MultipleObjectsReturned)
  }

  /** An event concerns a device when the device is its target or one of
      its components. */
  predicate Concerns(e: Event, d: DeviceId)
  {
    e.target == d || d in e.components
  }

  ghost predicate StrictlyIncreasing(s: seq<nat>)
  {
    forall i, j :: 0 <= i < j < |s| ==> s[i] < s[j]
  }

  /** `EventManager.related_to_device`: the indices, in store order, of the
      events that concern `d`. Strictly increasing indices mean every event
      appears once however it matches. */
  function RelatedToDevice(log: seq<Event>, d: DeviceId): (r: seq<nat>)
    ensures StrictlyIncreasing(r)
    ensures forall k :: 0 <= k < |r| ==> r[k] < |log|
    ensures forall i: nat :: i in r <==> i < |log| && Concerns(log[i], d)
  {
    if |log| == 0 then []
    else
      var prior := RelatedToDevice(log[..|log| - 1], d);
      if Concerns(log[|log| - 1], d) then prior + [|log| - 1] else prior
  }
}
