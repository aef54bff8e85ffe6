/** How each projection changes when one event is appended to the log:
    the facts the append-time guards rely on. */
module Appends {
  import opened Wrappers
  import opened Model
  import opened EventLog
  import opened Projections

  lemma LatestAppend(log: seq<Event>, e: Event, q: Query)
    ensures Latest(log + [e], q) == if Selects(q, e) then Some(|log|) else Latest(log, q)
  {
    assert (log + [e])[..|log|] == log;
  }

  lemma ReplayAppend(base: multiset<DeviceId>, log: seq<Event>, e: Event, d: DeviceId)
    ensures ReplayAddRemove(base, log + [e], d) == ComponentStep(ReplayAddRemove(base, log, d), e, d)
  {
    assert (log + [e])[..|log|] == log;
  }

  /** An accepted Add makes each listed device a component of the target,
      with the target as its parent. */
  lemma {:induction false} AddAttaches(log: seq<Event>, e: Event, c: DeviceId)
    requires e.kind == Add && c in e.components
    ensures Parent(log + [e], c) == Some(e.target)
    ensures c in Components(log + [e], e.target)
  {
    var log' := log + [e];
    assert AttachedBy(log', c, e.target, |log|);
    assert AddsTo(log'[|log|], e.target, c) && NotRemovedFrom(log', e.target, c, |log| + 1);
    assert IsComponent(log', e.target, c);
  }

  /** An accepted Remove detaches each listed device: it has no parent and
      is no longer a component of the target. */
  lemma {:induction false} RemoveDetaches(log: seq<Event>, e: Event, c: DeviceId)
    requires e.kind == Remove && c in e.components
    ensures Parent(log + [e], c).None?
    ensures c !in Components(log + [e], e.target)
  {
    var log' := log + [e];
    assert RemovesFrom(log'[|log|], e.target, c);
    assert Selects(ListingOf(c, RelationKinds), log'[|log|]);
    forall p: DeviceId, i | 0 <= i < |log'|
      ensures !AttachedBy(log', c, p, i)
    {
    }
    assert !NotRemovedFrom(log', e.target, c, 0);
    forall i | 0 <= i < |log'| && AddsTo(log'[i], e.target, c)
      ensures !NotRemovedFrom(log', e.target, c, i + 1)
    {
    }
  }

  /** An event that is not a Register, Add or Remove listing `c` leaves
      `c`'s parent as it was; in particular a Recycle naming `c` does. */
  lemma ParentUnaffected(log: seq<Event>, e: Event, c: DeviceId)
    requires e.kind !in RelationKinds || c !in e.components
    ensures Parent(log + [e], c) == Parent(log, c)
  {
    LatestAppend(log, e, ListingOf(c, RelationKinds));
  }

  /** Only the device's own Register, Add and Remove events change its
      components. */
  lemma ComponentsUnaffected(log: seq<Event>, e: Event, d: DeviceId)
    requires e.target != d || e.kind !in RelationKinds
    ensures Components(log + [e], d) == Components(log, d)
  {
    LatestAppend(log, e, OwnOf(d, {Register}));
    ReplayAppend(SnapshotBase(log, d), log, e, d);
  }

  /** A new Register (a snapshot) replaces the base component list, while
      every earlier Add and Remove of the device is still replayed on top
      of it. */
  lemma SnapshotReplacesBase(log: seq<Event>, e: Event)
    requires e.kind == Register
    ensures Components(log + [e], e.target) == ReplayAddRemove(multiset(e.components), log, e.target)
  {
    LatestAppend(log, e, OwnOf(e.target, {Register}));
    ReplayAppend(multiset(e.components), log, e, e.target);
  }

  /** After a Migrate carrying a target agent, that agent holds the
      device. */
  lemma MigrateSetsHolder(log: seq<Event>, e: Event)
    requires e.kind == Migrate && e.to.Some?
    ensures Holder(log + [e], e.target) == Ok(e.to.value)
  {
    LatestAppend(log, e, OwnOf(e.target, {Migrate}));
  }

  lemma OwnersAppend(log: seq<Event>, e: Event, d: DeviceId)
    ensures Owners(log + [e], d) == OwnersStep(Owners(log, d), e, d)
  {
    assert (log + [e])[..|log|] == log;
  }

  /** Events other than the device's Allocate and Deallocate leave its
      owner list as it was. */
  lemma OwnersUnaffected(log: seq<Event>, e: Event, d: DeviceId)
    requires e.target != d || e.kind !in AssignationKinds
    ensures Owners(log + [e], d) == Owners(log, d)
  {
    OwnersAppend(log, e, d);
  }
}
