/** The device state derived by replaying the log (the `Device` properties
    of grd/models.py): components, parent, holder and owners. Every
    projection is a pure fold over the log in store order. */
module Projections {
  import opened Wrappers
  import opened Model
  import opened EventLog

  // ---------------------------------------------------------------------
  // components
  // ---------------------------------------------------------------------

  /** The component list of the latest Register of `d`; empty when `d` has
      only ever been registered as somebody else's component. */
  function SnapshotBase(log: seq<Event>, d: DeviceId): multiset<DeviceId>
  {
    match Latest(log, OwnOf(d, {Register}))
    case None => multiset{}
    case Some(i) => multiset(log[i].components)
  }

  predicate AddsTo(e: Event, d: DeviceId, x: DeviceId)
  {
    e.kind == Add && e.target == d && x in e.components
  }

  predicate RemovesFrom(e: Event, d: DeviceId, x: DeviceId)
  {
    e.kind == Remove && e.target == d && x in e.components
  }

  /** One step of the Add/Remove replay. An Add appends its components to
      the list (so a device can occur twice); a Remove rebuilds the list
      from a set difference, so every survivor occurs once. */
  function ComponentStep(acc: multiset<DeviceId>, e: Event, d: DeviceId): multiset<DeviceId>
  {
    if e.target != d then acc
    else if e.kind == Add then acc + multiset(e.components)
    else if e.kind == Remove then multiset(set x | x in acc && x !in e.components)
    else acc
  }

  /** Replays, in store order, every Add and Remove of `d` on top of
      `base`. */
  function ReplayAddRemove(base: multiset<DeviceId>, log: seq<Event>, d: DeviceId): multiset<DeviceId>
  {
    if |log| == 0 then base
    else ComponentStep(ReplayAddRemove(base, log[..|log| - 1], d), log[|log| - 1], d)
  }

  ghost predicate NotRemovedFrom(log: seq<Event>, d: DeviceId, x: DeviceId, from: nat)
  {
    forall j :: from <= j < |log| ==> !RemovesFrom(log[j], d, x)
  }

  /** Some Add of `d` lists `x` and no later Remove of `d` does. */
  ghost predicate AddedAndKept(log: seq<Event>, d: DeviceId, x: DeviceId)
  {
    exists i :: 0 <= i < |log| && AddsTo(log[i], d, x) && NotRemovedFrom(log, d, x, i + 1)
  }

  /** `x` is listed by a Register of `d` that no later Register of `d`
      supersedes. */
  ghost predicate InLatestSnapshot(log: seq<Event>, d: DeviceId, x: DeviceId)
  {
    exists i :: 0 <= i < |log| && log[i].kind == Register && log[i].target == d
      && x in log[i].components && NoneSelectedFrom(log, OwnOf(d, {Register}), i + 1)
  }

  /** Reference definition of membership in `components`: the latest
      snapshot counts as if it came before every Add and Remove, and the
      last Add or Remove of `d` naming `x` decides. */
  ghost predicate IsComponent(log: seq<Event>, d: DeviceId, x: DeviceId)
  {
    AddedAndKept(log, d, x) || (InLatestSnapshot(log, d, x) && NotRemovedFrom(log, d, x, 0))
  }

  lemma {:induction false} ReplayMembership(base: multiset<DeviceId>, log: seq<Event>, d: DeviceId, x: DeviceId)
    ensures x in ReplayAddRemove(base, log, d) <==>
      AddedAndKept(log, d, x) || (x in base && NotRemovedFrom(log, d, x, 0))
    decreases |log|
  {
    if |log| > 0 {
      var n := |log| - 1;
      var prefix, e := log[..n], log[n];
      assert log == prefix + [e];
      ReplayMembership(base, prefix, d, x);
      if AddsTo(e, d, x) {
        assert AddsTo(log[n], d, x) && NotRemovedFrom(log, d, x, n + 1);
      } else if RemovesFrom(e, d, x) {
        assert x !in ReplayAddRemove(base, log, d);
        assert !NotRemovedFrom(log, d, x, 0);
        forall i | 0 <= i < |log| && AddsTo(log[i], d, x)
          ensures !NotRemovedFrom(log, d, x, i + 1)
        {
          assert i != n;
          assert RemovesFrom(log[n], d, x);
        }
      } else {
        assert x in ReplayAddRemove(base, log, d) <==> x in ReplayAddRemove(base, prefix, d);
        if AddedAndKept(prefix, d, x) {
          var i :| 0 <= i < |prefix| && AddsTo(prefix[i], d, x) && NotRemovedFrom(prefix, d, x, i + 1);
          assert AddsTo(log[i], d, x) && NotRemovedFrom(log, d, x, i + 1);
        }
        if AddedAndKept(log, d, x) {
          var i :| 0 <= i < |log| && AddsTo(log[i], d, x) && NotRemovedFrom(log, d, x, i + 1);
          assert i < n;
          assert AddsTo(prefix[i], d, x) && NotRemovedFrom(prefix, d, x, i + 1);
        }
        assert NotRemovedFrom(log, d, x, 0) <==> NotRemovedFrom(prefix, d, x, 0);
      }
    }
  }

  lemma SnapshotMembership(log: seq<Event>, d: DeviceId, x: DeviceId)
    ensures x in SnapshotBase(log, d) <==> InLatestSnapshot(log, d, x)
  {
    var q := OwnOf(d, {Register});
    match Latest(log, q)
    case None =>
    case Some(i) =>
      if InLatestSnapshot(log, d, x) {
        var k :| 0 <= k < |log| && log[k].kind == Register && log[k].target == d
          && x in log[k].components && NoneSelectedFrom(log, q, k + 1);
        assert Selects(q, log[k]);
        assert k == i;
      }
  }

  /** `Device.components`: the latest Register's component list with every
      Add and Remove of the device replayed on top, in store order,
      including those older than that Register. */
  function Components(log: seq<Event>, d: DeviceId): (r: multiset<DeviceId>)
    ensures forall x :: x in r <==> IsComponent(log, d, x)
  {
    var r := ReplayAddRemove(SnapshotBase(log, d), log, d);
    assert forall x :: x in r <==> IsComponent(log, d, x) by {
      forall x
        ensures x in r <==> IsComponent(log, d, x)
      {
        ReplayMembership(SnapshotBase(log, d), log, d, x);
        SnapshotMembership(log, d, x);
      }
    }
    r
  }

  /** A device with no Register, Add or Remove of its own has no
      components. */
  lemma NoHistoryNoComponents(log: seq<Event>, d: DeviceId)
    requires NoneSelectedFrom(log, OwnOf(d, RelationKinds), 0)
    ensures Components(log, d) == multiset{}
  {
    var r := Components(log, d);
    forall x
      ensures x !in r
    {
      forall i | 0 <= i < |log|
        ensures !AddsTo(log[i], d, x) && !(log[i].kind == Register && log[i].target == d)
      {
        assert !Selects(OwnOf(d, RelationKinds), log[i]);
      }
    }
    assert r == multiset{};
  }

  /** Number of Add events of `d` that list `x`. */
  ghost function AddCount(log: seq<Event>, d: DeviceId, x: DeviceId): nat
  {
    if |log| == 0 then 0
    else AddCount(log[..|log| - 1], d, x) + (if AddsTo(log[|log| - 1], d, x) then 1 else 0)
  }

  /** Event `j` is the last Remove of `d`. */
  ghost predicate LastRemoveAt(log: seq<Event>, d: DeviceId, j: int)
  {
    0 <= j < |log| && log[j].kind == Remove && log[j].target == d
    && NoneSelectedFrom(log, OwnOf(d, {Remove}), j + 1)
  }

  /** How often the replay holds `x`: each Add listing it appends one more
      copy, and a Remove leaves at most one copy of every survivor. */
  lemma {:induction false} ReplayCount(base: multiset<DeviceId>, log: seq<Event>, d: DeviceId, x: DeviceId)
    ensures NoneSelectedFrom(log, OwnOf(d, {Remove}), 0) ==>
      ReplayAddRemove(base, log, d)[x] == base[x] + AddCount(log, d, x)
    ensures forall j :: LastRemoveAt(log, d, j) ==>
      ReplayAddRemove(base, log, d)[x]
        == (if x in ReplayAddRemove(base, log[..j + 1], d) then 1 else 0) + AddCount(log, d, x) - AddCount(log[..j + 1], d, x)
  {
    if |log| > 0 {
      var n := |log| - 1;
      var init, e := log[..n], log[n];
      ReplayCount(base, init, d, x);
      assert forall k :: 0 <= k < n ==> log[k] == init[k];
      if e.kind == Remove && e.target == d {
        forall j | LastRemoveAt(log, d, j)
          ensures j == n
        {
          if j < n {
            assert Selects(OwnOf(d, {Remove}), log[n]);
          }
        }
        assert log[..n + 1] == log;
      } else {
        assert NoneSelectedFrom(log, OwnOf(d, {Remove}), 0) ==> NoneSelectedFrom(init, OwnOf(d, {Remove}), 0);
        forall j | LastRemoveAt(log, d, j)
          ensures ReplayAddRemove(base, log, d)[x]
            == (if x in ReplayAddRemove(base, log[..j + 1], d) then 1 else 0) + AddCount(log, d, x) - AddCount(log[..j + 1], d, x)
        {
          assert j < n;
          assert LastRemoveAt(init, d, j);
          assert init[..j + 1] == log[..j + 1];
        }
      }
    }
  }

  /** `x` is still in the component list just after the Remove at `j`: it
      was added and not removed since, or it is in the latest snapshot and
      no Remove up to `j` named it. */
  ghost predicate SurvivesUpTo(log: seq<Event>, d: DeviceId, x: DeviceId, j: nat)
    requires j < |log|
  {
    AddedAndKept(log[..j + 1], d, x) || (InLatestSnapshot(log, d, x) && NotRemovedFrom(log[..j + 1], d, x, 0))
  }

  /** The multiplicity of each device in `components`. With no Remove of
      the device, the latest snapshot's copy plus one copy per Add listing
      it. Otherwise, one copy if it survived the last Remove, plus one per
      later Add listing it. */
  lemma ComponentCount(log: seq<Event>, d: DeviceId, x: DeviceId)
    ensures NoneSelectedFrom(log, OwnOf(d, {Remove}), 0) ==>
      Components(log, d)[x] == (if InLatestSnapshot(log, d, x) then 1 else 0) + AddCount(log, d, x)
    ensures forall j :: LastRemoveAt(log, d, j) ==>
      Components(log, d)[x]
        == (if SurvivesUpTo(log, d, x, j) then 1 else 0) + AddCount(log, d, x) - AddCount(log[..j + 1], d, x)
  {
    var base := SnapshotBase(log, d);
    ReplayCount(base, log, d, x);
    SnapshotMembership(log, d, x);
    assert base[x] == if InLatestSnapshot(log, d, x) then 1 else 0;
    forall j | LastRemoveAt(log, d, j)
      ensures x in ReplayAddRemove(base, log[..j + 1], d) <==> SurvivesUpTo(log, d, x, j)
    {
      ReplayMembership(base, log[..j + 1], d, x);
    }
  }

  // ---------------------------------------------------------------------
  // parent
  // ---------------------------------------------------------------------

  /** Event `i` attaches `c` to `p` and no later Register, Add or Remove
      lists `c`. */
  ghost predicate AttachedBy(log: seq<Event>, c: DeviceId, p: DeviceId, i: int)
  {
    && 0 <= i < |log|
    && log[i].kind in {Register, Add}
    && c in log[i].components
    && log[i].target == p
    && NoneSelectedFrom(log, ListingOf(c, RelationKinds), i + 1)
  }

  /** `Device.parent`: the target of the latest Register, Add or Remove that
      lists `c` as a component, unless that event is a Remove. */
  function Parent(log: seq<Event>, c: DeviceId): (r: Option<DeviceId>)
    ensures forall p: DeviceId :: r == Some(p) <==> exists i :: AttachedBy(log, c, p, i)
  {
    var q := ListingOf(c, RelationKinds);
    var latest := Latest(log, q);
    var r := match latest
      case None => None
      case Some(i) => if log[i].kind == Remove then None else Some(log[i].target);
    assert forall p, i :: AttachedBy(log, c, p, i) ==> latest == Some(i) by {
      forall p, i | AttachedBy(log, c, p, i)
        ensures latest == Some(i)
      {
        assert Selects(q, log[i]);
      }
    }
    assert forall p :: r == Some(p) ==> AttachedBy(log, c, p, latest.value);
    r
  }

  // ---------------------------------------------------------------------
  // holder
  // ---------------------------------------------------------------------

  /** `NotImplemented`: neither a Migrate nor a Register of the device
      exists (a component never registered on its own); `AgentDoesNotExist`:
      the latest Migrate has no `to` agent. */
  datatype HolderError = NotImplemented | AgentDoesNotExist

  /** Event `i` is the latest event of `d` of the given kind. */
  ghost predicate LatestOwn(log: seq<Event>, d: DeviceId, k: EventKind, i: int)
  {
    && 0 <= i < |log|
    && log[i].kind == k
    && log[i].target == d
    && NoneSelectedFrom(log, OwnOf(d, {k}), i + 1)
  }

  lemma LatestOwnIsLatest(log: seq<Event>, d: DeviceId, k: EventKind, i: int)
    requires LatestOwn(log, d, k, i)
    ensures Latest(log, OwnOf(d, {k})) == Some(i)
  {
    assert Selects(OwnOf(d, {k}), log[i]);
  }

  /** `Device.holder`: the `to` agent of the latest Migrate; without any
      Migrate, the agent that recorded the latest Register. */
  function Holder(log: seq<Event>, d: DeviceId): (r: Result<AgentId, HolderError>)
    ensures r == Err(NotImplemented) <==>
      NoneSelectedFrom(log, OwnOf(d, {Migrate}), 0) && NoneSelectedFrom(log, OwnOf(d, {Register}), 0)
    ensures forall i :: LatestOwn(log, d, Migrate, i) ==>
      r == (if log[i].to.Some? then Ok(log[i].to.value) else Err(AgentDoesNotExist))
    ensures NoneSelectedFrom(log, OwnOf(d, {Migrate}), 0) ==>
      forall i :: LatestOwn(log, d, Register, i) ==> r == Ok(log[i].agent)
  {
    forall i | LatestOwn(log, d, Migrate, i)
      ensures Latest(log, OwnOf(d, {Migrate})) == Some(i)
    {
      LatestOwnIsLatest(log, d, Migrate, i);
    }
    forall i | LatestOwn(log, d, Register, i)
      ensures Latest(log, OwnOf(d, {Register})) == Some(i)
    {
      LatestOwnIsLatest(log, d, Register, i);
    }
    match Latest(log, OwnOf(d, {Migrate}))
    case Some(m) =>
      if log[m].to.Some? then Ok(log[m].to.value) else Err(AgentDoesNotExist)
    case None =>
      match Latest(log, OwnOf(d, {Register}))
      case Some(g) => Ok(log[g].agent)
      case None => Err(NotImplemented)
  }

  // ---------------------------------------------------------------------
  // owners
  // ---------------------------------------------------------------------

  /** Why replaying the owner list fails: an Allocate or Deallocate without
      an owner (`None.url`), or a Deallocate of a url that is not in the
      list (`list.remove`). */
  datatype OwnersError = OwnerIsNone | NotInList(url: Url)

  /** `list.remove`: drops the first occurrence of `u`. */
  function RemoveFirst<T(==)>(s: seq<T>, u: T): (r: seq<T>)
    requires u in s
    ensures |r| == |s| - 1
    ensures multiset(r) == multiset(s) - multiset{u}
  {
    assert s == [s[0]] + s[1..];
    if s[0] == u then s[1..] else [s[0]] + RemoveFirst(s[1..], u)
  }

  /** `r` is `s` without its element at `k`, the first occurrence of `u`. */
  ghost predicate RemovedFirstAt<T>(s: seq<T>, u: T, r: seq<T>, k: int)
  {
    0 <= k < |s| && s[k] == u && u !in s[..k] && r == s[..k] + s[k + 1..]
  }

  /** The occurrence `list.remove` drops is the first one, and the other
      elements keep their order. */
  lemma {:induction false} RemoveFirstKeepsOrder<T>(s: seq<T>, u: T)
    requires u in s
    ensures exists k :: RemovedFirstAt(s, u, RemoveFirst(s, u), k)
  {
    var r := RemoveFirst(s, u);
    if s[0] == u {
      assert s[..0] + s[1..] == s[1..];
      assert RemovedFirstAt(s, u, r, 0);
    } else {
      var t := s[1..];
      assert s == [s[0]] + t;
      RemoveFirstKeepsOrder(t, u);
      var k :| RemovedFirstAt(t, u, RemoveFirst(t, u), k);
      RemovedFirstAtCons(s[0], t, u, RemoveFirst(t, u), k);
    }
  }

  lemma RemovedFirstAtCons<T>(x: T, t: seq<T>, u: T, rt: seq<T>, k: int)
    requires x != u && RemovedFirstAt(t, u, rt, k)
    ensures RemovedFirstAt([x] + t, u, [x] + rt, k + 1)
  {
    var s := [x] + t;
    assert s[..k + 1] == [x] + t[..k];
    assert s[k + 2..] == t[k + 1..];
  }

  /** Number of events of `d` of kind `k` whose owner is `u`. */
  function CountOwnerEvents(log: seq<Event>, d: DeviceId, k: EventKind, u: Url): nat
  {
    if |log| == 0 then 0
    else
      var e := log[|log| - 1];
      CountOwnerEvents(log[..|log| - 1], d, k, u)
        + (if e.target == d && e.kind == k && e.owner == Some(u) then 1 else 0)
  }

  function OwnersStep(acc: Result<seq<Url>, OwnersError>, e: Event, d: DeviceId): Result<seq<Url>, OwnersError>
  {
    if acc.Err? || e.target != d || e.kind !in AssignationKinds then acc
    else if e.owner.None? then Err(OwnerIsNone)
    else if e.kind == Allocate then Ok(acc.value + [e.owner.value])
    else if e.owner.value in acc.value then Ok(RemoveFirst(acc.value, e.owner.value))
    else Err(NotInList(e.owner.value))
  }

  /** `Device.owners`: replays the device's Allocate (append the owner url)
      and Deallocate (remove it) events in store order. When the replay
      succeeds, every url occurs as often as it was allocated minus as
      often as it was deallocated. */
  function Owners(log: seq<Event>, d: DeviceId): (r: Result<seq<Url>, OwnersError>)
    ensures r.Ok? ==> forall u ::
      multiset(r.value)[u] == CountOwnerEvents(log, d, Allocate, u) - CountOwnerEvents(log, d, Deallocate, u)
  {
    if |log| == 0 then Ok([])
    else OwnersStep(Owners(log[..|log| - 1], d), log[|log| - 1], d)
  }

  /** Once the owner replay has failed, later events do not revive it. */
  lemma {:induction false} OwnersErrorPersists(log: seq<Event>, d: DeviceId, k: nat)
    requires k <= |log| && Owners(log[..k], d).Err?
    ensures Owners(log, d) == Owners(log[..k], d)
  {
    if k < |log| {
      var n := |log| - 1;
      assert log[..n][..k] == log[..k];
      OwnersErrorPersists(log[..n], d, k);
    } else {
      assert log[..k] == log;
    }
  }

  /** The first Allocate or Deallocate the replay cannot apply decides the
      result: one without an owner fails with `OwnerIsNone`, and a
      Deallocate of a url missing from the list with `NotInList`, as
      `list.remove` raises there. */
  lemma AssignationFailure(log: seq<Event>, d: DeviceId, j: nat)
    requires j < |log| && log[j].target == d && log[j].kind in AssignationKinds
    requires Owners(log[..j], d).Ok?
    ensures log[j].owner.None? ==> Owners(log, d) == Err(OwnerIsNone)
    ensures log[j].kind == Deallocate && log[j].owner.Some? && log[j].owner.value !in Owners(log[..j], d).value ==>
      Owners(log, d) == Err(NotInList(log[j].owner.value))
  {
    assert log[..j + 1][..j] == log[..j];
    if Owners(log[..j + 1], d).Err? {
      OwnersErrorPersists(log, d, j + 1);
    }
  }

  /** An Allocate or Deallocate on a replay that has not failed is always
      applied: an Allocate appends its url, even one already in the list,
      and a Deallocate of a listed url removes its first occurrence. */
  lemma AssignationSuccess(log: seq<Event>, d: DeviceId, j: nat)
    requires j < |log| && log[j].target == d && log[j].owner.Some?
    requires Owners(log[..j], d).Ok?
    ensures log[j].kind == Allocate ==>
      Owners(log[..j + 1], d) == Ok(Owners(log[..j], d).value + [log[j].owner.value])
    ensures log[j].kind == Deallocate && log[j].owner.value in Owners(log[..j], d).value ==>
      Owners(log[..j + 1], d) == Ok(RemoveFirst(Owners(log[..j], d).value, log[j].owner.value))
  {
    assert log[..j + 1][..j] == log[..j];
  }

  /** Event `j` is an Allocate or Deallocate of `d` that the replay cannot
      apply: it has no owner, or it deallocates a url that the events
      before it have allocated no more often than deallocated. */
  ghost predicate AssignFails(log: seq<Event>, d: DeviceId, j: nat)
    requires j < |log|
  {
    log[j].target == d && log[j].kind in AssignationKinds
    && (log[j].owner.None?
        || (log[j].kind == Deallocate
            && CountOwnerEvents(log[..j], d, Allocate, log[j].owner.value)
               <= CountOwnerEvents(log[..j], d, Deallocate, log[j].owner.value)))
  }

  lemma AssignFailsPrefix(log: seq<Event>, d: DeviceId, n: nat, j: nat)
    requires j < n <= |log|
    ensures AssignFails(log[..n], d, j) == AssignFails(log, d, j)
  {
    assert log[..n][..j] == log[..j];
  }

  /** The owner replay succeeds exactly when no Allocate or Deallocate of
      the device fails: none lacks an owner and none deallocates a url not
      currently allocated. */
  lemma {:induction false} OwnersOutcome(log: seq<Event>, d: DeviceId)
    ensures Owners(log, d).Ok? <==> forall j :: 0 <= j < |log| ==> !AssignFails(log, d, j)
  {
    if |log| > 0 {
      var n := |log| - 1;
      var init := log[..n];
      OwnersOutcome(init, d);
      forall k | 0 <= k < n
        ensures AssignFails(init, d, k) == AssignFails(log, d, k)
      {
        AssignFailsPrefix(log, d, n, k);
      }
      if Owners(init, d).Err? {
        var k :| 0 <= k < n && AssignFails(init, d, k);
        assert AssignFails(log, d, k);
        assert Owners(log, d) == Owners(init, d);
      } else {
        OwnersLastStep(log, d);
      }
    }
  }

  /** On a replay that has not failed, the next event fails it exactly
      when `AssignFails` says so. */
  lemma OwnersLastStep(log: seq<Event>, d: DeviceId)
    requires |log| > 0 && Owners(log[..|log| - 1], d).Ok?
    ensures Owners(log, d).Ok? <==> !AssignFails(log, d, |log| - 1)
  {
    var n := |log| - 1;
    var acc := Owners(log[..n], d).value;
    if log[n].owner.Some? {
      var u := log[n].owner.value;
      assert u in acc <==> multiset(acc)[u] > 0;
    }
  }
}
