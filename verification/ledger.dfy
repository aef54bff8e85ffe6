/** The ledger as its API drives it: every request goes through its
    type's guard, and a rejected request leaves the store unchanged. The
    main result is that a log written only this way always has a
    well-defined, duplicate-free owner list for every device. */
module Ledger {
  import opened Wrappers
  import opened Model
  import opened Projections
  import opened Appends
  import opened Registry
  import opened Guards

  /** One API request (a route of the device view). */
  datatype Action =
    | RegisterDevice(dev: DeviceData, parts: seq<DeviceData>, o: Origin)
    | AllocateTo(d: DeviceId, o: Origin, owner: Url)
    | DeallocateFrom(d: DeviceId, o: Origin, owner: Url)
    | ReceiveBy(d: DeviceId, o: Origin)
    | MigrateTo(d: DeviceId, o: Origin, comps: set<DeviceId>, to: AgentId)
    | AddTo(d: DeviceId, o: Origin, comps: set<DeviceId>)
    | RemoveFrom(d: DeviceId, o: Origin, comps: set<DeviceId>)
    | RecordEvent(kind: EventKind, d: DeviceId, o: Origin, comps: set<DeviceId>)

  /** Keeps the new store of an accepted request, the old one otherwise. */
  function Accepted<E>(s: Store, r: Result<Store, E>): Store
  {
    if r.Ok? then r.value else s
  }

  /** Handles one request. A RecordEvent of a kind that has no route of
      its own is refused. */
  function Apply(s: Store, a: Action): (r: Store)
    requires Valid(s)
    ensures Valid(r)
    ensures Extends(s.devices, r.devices)
    ensures r.log == s.log || (|r.log| == |s.log| + 1 && r.log[..|s.log|] == s.log)
  {
    match a
    case RegisterDevice(dev, comps, o) => Accepted(s, Registry.Register(s, dev, comps, o))
    case AllocateTo(d, o, owner) => Accepted(s, Guards.Allocate(s, d, o, owner))
    case DeallocateFrom(d, o, owner) => Accepted(s, Guards.Deallocate(s, d, o, owner))
    case ReceiveBy(d, o) => Accepted(s, Guards.Receive(s, d, o))
    case MigrateTo(d, o, comps, to) => Accepted(s, Guards.Migrate(s, d, o, comps, to))
    case AddTo(d, o, comps) => Accepted(s, AddComponents(s, d, o, comps))
    case RemoveFrom(d, o, comps) => Accepted(s, RemoveComponents(s, d, o, comps))
    case RecordEvent(kind, d, o, comps) =>
      if kind in UncheckedKinds then Accepted(s, Record(s, kind, d, o, comps)) else s
  }

  /** Handles the requests in order, starting from `s`. */
  function Run(s: Store, actions: seq<Action>): (r: Store)
    requires Valid(s)
    ensures Valid(r)
  {
    if |actions| == 0 then s
    else Apply(Run(s, actions[..|actions| - 1]), actions[|actions| - 1])
  }

  ghost predicate NoDuplicates<T>(s: seq<T>)
  {
    forall i, j :: 0 <= i < j < |s| ==> s[i] != s[j]
  }

  /** Every device's owner list replays without error and holds each url
      at most once. */
  ghost predicate OwnersSound(log: seq<Event>)
  {
    forall d :: Owners(log, d).Ok? && NoDuplicates(Owners(log, d).value)
  }

  /** Appending `u` keeps a list duplicate-free exactly when `u` is new. */
  lemma AppendNew<T>(s: seq<T>, u: T)
    requires NoDuplicates(s) && u !in s
    ensures NoDuplicates(s + [u])
  {
  }

  lemma {:induction false} RemoveKeepsNoDuplicates<T>(s: seq<T>, u: T)
    requires NoDuplicates(s) && u in s
    ensures NoDuplicates(RemoveFirst(s, u))
  {
    var t := s[1..];
    assert NoDuplicates(t) by {
      forall i, j | 0 <= i < j < |t|
        ensures t[i] != t[j]
      {
        assert t[i] == s[i + 1] && t[j] == s[j + 1];
      }
    }
    if s[0] != u {
      assert u in t by {
        var k :| 0 <= k < |s| && s[k] == u;
        assert t[k - 1] == u;
      }
      RemoveKeepsNoDuplicates(t, u);
      var rest := RemoveFirst(t, u);
      assert s[0] !in t by {
        forall k | 0 <= k < |t|
          ensures t[k] != s[0]
        {
          assert t[k] == s[k + 1];
        }
      }
      assert s[0] !in rest by {
        assert multiset(rest) == multiset(t) - multiset{u};
        assert multiset(t)[s[0]] == 0;
        assert multiset(rest)[s[0]] == 0;
        assert (s[0] in rest) == (s[0] in multiset(rest));
      }
      var r := [s[0]] + rest;
      assert RemoveFirst(s, u) == r;
      forall i, j | 0 <= i < j < |r|
        ensures r[i] != r[j]
      {
        if i == 0 {
          assert r[j] == rest[j - 1];
        } else {
          assert r[i] == rest[i - 1] && r[j] == rest[j - 1];
        }
      }
    }
  }

  /** Appending one event keeps the owner lists sound when an Allocate
      names a url its device does not have yet and a Deallocate one it
      has, which is what the two guards check. */
  lemma {:induction false} AppendKeepsOwnersSound(log: seq<Event>, e: Event)
    requires OwnersSound(log)
    requires e.kind == Allocate ==>
      e.owner.Some? && e.owner.value !in Owners(log, e.target).value
    requires e.kind == Deallocate ==>
      e.owner.Some? && e.owner.value in Owners(log, e.target).value
    ensures OwnersSound(log + [e])
  {
    forall d
      ensures Owners(log + [e], d).Ok? && NoDuplicates(Owners(log + [e], d).value)
    {
      OwnersAppend(log, e, d);
      if e.target == d && e.kind == EventKind.Allocate {
        AppendNew(Owners(log, d).value, e.owner.value);
      } else if e.target == d && e.kind == EventKind.Deallocate {
        RemoveKeepsNoDuplicates(Owners(log, d).value, e.owner.value);
      }
    }
  }

  /** One guarded request keeps the owner lists sound. */
  lemma {:induction false} ApplyKeepsOwnersSound(s: Store, a: Action)
    requires Valid(s) && OwnersSound(s.log)
    ensures OwnersSound(Apply(s, a).log)
  {
    match a
    case RegisterDevice(dev, parts, o) =>
      var r := Registry.Register(s, dev, parts, o);
      if r.Ok? {
        var e := r.value.log[|s.log|];
        assert r.value.log == s.log + [e];
        AppendKeepsOwnersSound(s.log, e);
      }
    case AllocateTo(d, o, owner) =>
      if Guards.Allocate(s, d, o, owner).Ok? {
        AppendKeepsOwnersSound(s.log, Posted(EventKind.Allocate, d, o, {}, Some(owner), None));
      }
    case DeallocateFrom(d, o, owner) =>
      if Guards.Deallocate(s, d, o, owner).Ok? {
        AppendKeepsOwnersSound(s.log, Posted(EventKind.Deallocate, d, o, {}, Some(owner), None));
      }
    case ReceiveBy(d, o) =>
      if Guards.Receive(s, d, o).Ok? {
        AppendKeepsOwnersSound(s.log, Posted(EventKind.Receive, d, o, {}, None, None));
      }
    case MigrateTo(d, o, comps, to) =>
      if Guards.Migrate(s, d, o, comps, to).Ok? {
        AppendKeepsOwnersSound(s.log, Posted(EventKind.Migrate, d, o, comps, None, Some(to)));
      }
    case AddTo(d, o, comps) =>
      if AddComponents(s, d, o, comps).Ok? {
        AppendKeepsOwnersSound(s.log, Posted(Add, d, o, comps, None, None));
      }
    case RemoveFrom(d, o, comps) =>
      if RemoveComponents(s, d, o, comps).Ok? {
        AppendKeepsOwnersSound(s.log, Posted(Remove, d, o, comps, None, None));
      }
    case RecordEvent(kind, d, o, comps) =>
      if kind in UncheckedKinds && Record(s, kind, d, o, comps).Ok? {
        AppendKeepsOwnersSound(s.log, Posted(kind, d, o, comps, None, None));
      }
  }

  /** If Allocate and Deallocate events are only ever appended through
      their guards, no device's owner list has a duplicate and replaying
      it never meets a Deallocate of an absent owner. */
  lemma {:induction false} GuardedOwnersSound(actions: seq<Action>)
    ensures OwnersSound(Run(EmptyStore, actions).log)
  {
    if |actions| == 0 {
      assert forall d :: Owners([], d) == Ok([]);
    } else {
      var n := |actions| - 1;
      GuardedOwnersSound(actions[..n]);
      ApplyKeepsOwnersSound(Run(EmptyStore, actions[..n]), actions[n]);
    }
  }
}
