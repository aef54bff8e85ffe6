/** The ledger's state and the Register operation: resolving devices by
    hardware id (`DeviceRegisterSerializer.create`) and appending a
    Register event, possibly a snapshot of an already known device
    (`RegisterSerializer.save`), in grd/serializers.py. */
module Registry {
  import opened Wrappers
  import opened Model

  /** The whole ledger: devices numbered by creation order and the event
      log in store order. */
  datatype Store = Store(devices: seq<Device>, log: seq<Event>)

  /** The fields every recorded event takes from its request: the
      recording agent, the optional business date and the acting user. */
  datatype Origin = Origin(agent: AgentId, date: Option<Time>, byUser: Url)

  /** A device as a Register request describes it. */
  datatype DeviceData = DeviceData(hid: Option<string>, sameAs: Url, kind: DeviceKind)

  /** `dv` is the device a description resolves to: it has the described
      hardware id, and without one it is identified by its `sameAs`. */
  ghost predicate Describes(dv: Device, data: DeviceData)
  {
    dv.hid == data.hid && (data.hid.None? ==> dv.sameAs == data.sameAs)
  }

  /** Why a registration fails: creating a device whose `sameAs` is taken
      (the database's unique constraint), or a hardware-id lookup that
      matches several devices (`MultipleObjectsReturned`). */
  datatype RegistryError = SameAsTaken(url: Url) | SeveralDevicesMatch

  const EmptyStore: Store := Store([], [])

  /** No two devices share a `sameAs` or a present hardware id. */
  ghost predicate UniqueIdentities(devices: seq<Device>)
  {
    forall i, j :: 0 <= i < j < |devices| ==>
      devices[i].sameAs != devices[j].sameAs
      && (devices[i].hid.Some? ==> devices[i].hid != devices[j].hid)
  }

  /** Every event names only devices that exist. */
  ghost predicate RefersToKnown(log: seq<Event>, n: nat)
  {
    forall k :: 0 <= k < |log| ==>
      log[k].target < n && forall c :: c in log[k].components ==> c < n
  }

  /** `devices'` keeps every device of `devices` under the same id. */
  ghost predicate Extends(devices: seq<Device>, devices': seq<Device>)
  {
    |devices| <= |devices'| && devices'[..|devices|] == devices
  }

  lemma ExtendsTransitive(a: seq<Device>, b: seq<Device>, c: seq<Device>)
    requires Extends(a, b) && Extends(b, c)
    ensures Extends(a, c)
  {
    assert c[..|a|] == c[..|b|][..|a|];
  }

  ghost predicate Valid(s: Store)
  {
    UniqueIdentities(s.devices) && RefersToKnown(s.log, |s.devices|)
  }

  /** The ids of the devices whose hardware id equals `h`, in id order.
      Like the ORM lookup `hid=h`, an absent `h` matches devices without a
      hardware id. */
  function WithHid(devices: seq<Device>, h: Option<string>): (r: seq<DeviceId>)
    ensures forall k :: 0 <= k < |r| ==> r[k] < |devices|
    ensures forall i: nat :: i in r <==> i < |devices| && devices[i].hid == h
    ensures forall a, b :: 0 <= a < b < |r| ==> r[a] < r[b]
  {
    if |devices| == 0 then []
    else
      var prior := WithHid(devices[..|devices| - 1], h);
      if devices[|devices| - 1].hid == h then prior + [|devices| - 1] else prior
  }

  function SameAsUsed(devices: seq<Device>, url: Url): (r: bool)
    ensures r <==> exists i :: 0 <= i < |devices| && devices[i].sameAs == url
  {
    if |devices| == 0 then false
    else devices[|devices| - 1].sameAs == url || SameAsUsed(devices[..|devices| - 1], url)
  }

  /** The record `get_or_create` creates from a description: its hardware
      id, url and type, and no production date. */
  function NewDevice(data: DeviceData): Device
  {
    Device(data.hid, data.sameAs, data.kind, None)
  }

  /** Creates the device described by `data`, unless its `sameAs` is
      taken. */
  function Create(devices: seq<Device>, data: DeviceData): (r: Result<(seq<Device>, DeviceId), RegistryError>)
  {
    if SameAsUsed(devices, data.sameAs) then Err(SameAsTaken(data.sameAs))
    else Ok((devices + [NewDevice(data)], |devices|))
  }

  /** The device whose `sameAs` is `url`, if any. */
  function FindSameAs(devices: seq<Device>, url: Url): (r: Option<DeviceId>)
    ensures r.Some? ==> r.value < |devices| && devices[r.value].sameAs == url
    ensures r.None? ==> forall i :: 0 <= i < |devices| ==> devices[i].sameAs != url
  {
    if |devices| == 0 then None
    else if devices[|devices| - 1].sameAs == url then Some(|devices| - 1)
    else FindSameAs(devices[..|devices| - 1], url)
  }

  /** `Device.objects.get_or_create(hid=..., defaults=...)` exactly as the
      source calls it: the lookup also runs for an absent hardware id, so a
      request without one reuses the device that has none. */
  function GetOrCreateAsWritten(devices: seq<Device>, data: DeviceData): (r: Result<(seq<Device>, DeviceId), RegistryError>)
    ensures r.Ok? ==> r.value.1 < |r.value.0| && Extends(devices, r.value.0)
    ensures data.hid.None? && UniqueHidless(devices) ==>
      forall i :: 0 <= i < |devices| && devices[i].hid.None? ==> r == Ok((devices, i))
  {
    var found := WithHid(devices, data.hid);
    assert |found| >= 2 ==>
      found[0] < found[1] && devices[found[0]].hid == data.hid && devices[found[1]].hid == data.hid;
    if |found| == 1 then Ok((devices, found[0]))
    else if |found| > 1 then Err(SeveralDevicesMatch)
    else Create(devices, data)
  }

  /** At most one device lacks a hardware id. */
  ghost predicate UniqueHidless(devices: seq<Device>)
  {
    forall i, j :: 0 <= i < j < |devices| ==> devices[i].hid.Some? || devices[j].hid.Some?
  }

  /** Device resolution as the ledger intends it: an existing device is
      reused when the description describes it (by hardware id, or by
      `sameAs` when neither has a hardware id); otherwise a new device is
      created. */
  function GetOrCreate(devices: seq<Device>, data: DeviceData): (r: Result<(seq<Device>, DeviceId), RegistryError>)
    requires UniqueIdentities(devices)
    ensures r.Ok? ==> r.value.1 < |r.value.0| && Extends(devices, r.value.0)
    ensures r.Ok? ==> UniqueIdentities(r.value.0)
    ensures r.Ok? ==> Describes(r.value.0[r.value.1], data)
    ensures r.Ok? ==> r.value.0 == devices || (r.value.0 == devices + [NewDevice(data)] && r.value.1 == |devices|)
    ensures forall i :: 0 <= i < |devices| && Describes(devices[i], data) ==> r == Ok((devices, i))
    ensures (forall i :: 0 <= i < |devices| ==> !Describes(devices[i], data)) ==>
      if exists i :: 0 <= i < |devices| && devices[i].sameAs == data.sameAs
      then r == Err(SameAsTaken(data.sameAs))
      else r == Ok((devices + [NewDevice(data)], |devices|))
  {
    if data.hid.Some? then
      var found := WithHid(devices, data.hid);
      if |found| > 0 then Ok((devices, found[0]))
      else
        var r := Create(devices, data);
        assert r.Ok? ==> Extends(devices, r.value.0);
        r
    else
      var same := FindSameAs(devices, data.sameAs);
      if same.Some? && devices[same.value].hid.None? then Ok((devices, same.value))
      else
        var r := Create(devices, data);
        assert r.Ok? ==> Extends(devices, r.value.0);
        r
  }

  /** Resolves the component descriptions in order, each lookup seeing the
      devices the earlier ones created. */
  function ResolveAll(devices: seq<Device>, comps: seq<DeviceData>): (r: Result<(seq<Device>, set<DeviceId>), RegistryError>)
    requires UniqueIdentities(devices)
    ensures r.Ok? ==> UniqueIdentities(r.value.0) && Extends(devices, r.value.0)
    ensures r.Ok? ==> forall c :: c in r.value.1 ==> c < |r.value.0|
  {
    if |comps| == 0 then Ok((devices, {}))
    else
      match ResolveAll(devices, comps[..|comps| - 1])
      case Err(e) => Err(e)
      case Ok((ds, ids)) =>
        match GetOrCreate(ds, comps[|comps| - 1])
        case Err(e) => Err(e)
        case Ok((ds', id)) =>
          ExtendsTransitive(devices, ds, ds');
          Ok((ds', ids + {id}))
  }

  /** Some id in `ids` is a device of `ds` that description `k` describes. */
  ghost predicate ResolvedBySome(ds: seq<Device>, ids: set<DeviceId>, comps: seq<DeviceData>, k: nat)
    requires k < |comps|
  {
    exists c :: c in ids && c < |ds| && Describes(ds[c], comps[k])
  }

  /** Device `c` is described by some description in `comps`. */
  ghost predicate DescribedBySome(ds: seq<Device>, comps: seq<DeviceData>, c: DeviceId)
    requires c < |ds|
  {
    exists k :: 0 <= k < |comps| && Describes(ds[c], comps[k])
  }

  /** `ids` are exactly the devices of `ds` the descriptions resolve to:
      each description is resolved by some id, and each id resolves some
      description. */
  ghost predicate ResolvedAs(ds: seq<Device>, ids: set<DeviceId>, comps: seq<DeviceData>)
  {
    && (forall c :: c in ids ==> c < |ds| && DescribedBySome(ds, comps, c))
    && (forall k: nat :: k < |comps| ==> ResolvedBySome(ds, ids, comps, k))
  }

  lemma ExtendsKeeps(ds: seq<Device>, ds': seq<Device>, c: DeviceId)
    requires Extends(ds, ds') && c < |ds|
    ensures ds'[c] == ds[c]
  {
    assert ds'[..|ds|][c] == ds'[c];
  }

  lemma ResolvedAsExtend(ds: seq<Device>, ds': seq<Device>, ids: set<DeviceId>, comps: seq<DeviceData>,
                         id: DeviceId, data: DeviceData)
    requires ResolvedAs(ds, ids, comps) && Extends(ds, ds')
    requires id < |ds'| && Describes(ds'[id], data)
    ensures ResolvedAs(ds', ids + {id}, comps + [data])
  {
    var comps' := comps + [data];
    forall k: nat | k < |comps'|
      ensures ResolvedBySome(ds', ids + {id}, comps', k)
    {
      if k < |comps| {
        assert ResolvedBySome(ds, ids, comps, k);
        var c :| c in ids && c < |ds| && Describes(ds[c], comps[k]);
        ExtendsKeeps(ds, ds', c);
        assert comps'[k] == comps[k];
      } else {
        assert comps'[k] == data;
      }
    }
    forall c | c in ids + {id}
      ensures c < |ds'| && DescribedBySome(ds', comps', c)
    {
      if c in ids {
        assert DescribedBySome(ds, comps, c);
        var k :| 0 <= k < |comps| && Describes(ds[c], comps[k]);
        ExtendsKeeps(ds, ds', c);
        assert comps'[k] == comps[k];
      } else {
        assert comps'[|comps|] == data;
      }
    }
  }

  /** Each component description resolves to a device it describes (one
      with its hardware id, or the newly created one with its `sameAs`),
      and every resulting id is such a device. */
  lemma {:induction false} ResolveAllDescribes(devices: seq<Device>, comps: seq<DeviceData>)
    requires UniqueIdentities(devices)
    ensures ResolveAll(devices, comps).Ok? ==>
      ResolvedAs(ResolveAll(devices, comps).value.0, ResolveAll(devices, comps).value.1, comps)
  {
    if |comps| > 0 && ResolveAll(devices, comps).Ok? {
      var n := |comps| - 1;
      var init := comps[..n];
      assert init + [comps[n]] == comps;
      ResolveAllDescribes(devices, init);
      var (ds, ids) := ResolveAll(devices, init).value;
      var (ds', id) := GetOrCreate(ds, comps[n]).value;
      assert ResolveAll(devices, comps) == Ok((ds', ids + {id}));
      ResolvedAsExtend(ds, ds', ids, init, id, comps[n]);
    }
  }

  /** Device `c` of `ds` is the record created from one of `descs`. */
  ghost predicate CreatedFrom(ds: seq<Device>, descs: seq<DeviceData>, c: DeviceId)
    requires c < |ds|
  {
    exists k :: 0 <= k < |descs| && ds[c] == NewDevice(descs[k])
  }

  /** Every device of `ds'` beyond the old table `ds` was created from one
      of `descs`. */
  ghost predicate CreatesOnly(ds: seq<Device>, ds': seq<Device>, descs: seq<DeviceData>)
  {
    forall c :: |ds| <= c < |ds'| ==> CreatedFrom(ds', descs, c)
  }

  /** Resolution adds only records created from the descriptions, and each
      added device is among the resolved ids. */
  lemma {:induction false} ResolveAllCreates(devices: seq<Device>, comps: seq<DeviceData>)
    requires UniqueIdentities(devices)
    ensures ResolveAll(devices, comps).Ok? ==>
      CreatesOnly(devices, ResolveAll(devices, comps).value.0, comps)
    ensures ResolveAll(devices, comps).Ok? ==>
      forall c :: |devices| <= c < |ResolveAll(devices, comps).value.0| ==> c in ResolveAll(devices, comps).value.1
  {
    if |comps| > 0 && ResolveAll(devices, comps).Ok? {
      var n := |comps| - 1;
      ResolveAllCreates(devices, comps[..n]);
      var (ds, ids) := ResolveAll(devices, comps[..n]).value;
      var (ds', id) := GetOrCreate(ds, comps[n]).value;
      assert ResolveAll(devices, comps).value == (ds', ids + {id});
      forall c | |devices| <= c < |ds'|
        ensures CreatedFrom(ds', comps, c) && c in ids + {id}
      {
        if c < |ds| {
          assert CreatedFrom(ds, comps[..n], c);
          var k :| 0 <= k < n && ds[c] == NewDevice(comps[..n][k]);
          ExtendsKeeps(ds, ds', c);
          assert ds'[c] == NewDevice(comps[k]);
        } else {
          assert ds'[c] == NewDevice(comps[n]);
        }
      }
    }
  }

  lemma RegisterCreatesOnly(devices: seq<Device>, ds: seq<Device>, ds': seq<Device>, dev: DeviceData, comps: seq<DeviceData>)
    requires UniqueIdentities(devices) && GetOrCreate(devices, dev).Ok? && GetOrCreate(devices, dev).value.0 == ds
    requires ResolveAll(ds, comps).Ok? && ResolveAll(ds, comps).value.0 == ds'
    ensures CreatesOnly(devices, ds', [dev] + comps)
  {
    ResolveAllCreates(ds, comps);
    var descs := [dev] + comps;
    forall c | |devices| <= c < |ds'|
      ensures CreatedFrom(ds', descs, c)
    {
      if c < |ds| {
        ExtendsKeeps(ds, ds', c);
        assert ds'[c] == NewDevice(descs[0]);
      } else {
        assert CreatedFrom(ds', comps, c);
        var k :| 0 <= k < |comps| && ds'[c] == NewDevice(comps[k]);
        assert descs[k + 1] == comps[k];
      }
    }
  }

  /** The id of the device whose hardware id some component names. */
  ghost predicate NamedBy(devices: seq<Device>, comps: seq<DeviceData>, c: DeviceId)
  {
    c < |devices| && exists k :: 0 <= k < |comps| && devices[c].hid == comps[k].hid
  }

  /** When every component names a known hardware id, resolution creates
      nothing and yields exactly the devices carrying those ids. */
  lemma {:induction false} ResolveAllKnown(devices: seq<Device>, comps: seq<DeviceData>)
    requires UniqueIdentities(devices)
    requires forall k :: 0 <= k < |comps| ==> KnownHid(devices, comps[k])
    ensures ResolveAll(devices, comps).Ok?
    ensures ResolveAll(devices, comps).value.0 == devices
    ensures forall c: DeviceId :: c in ResolveAll(devices, comps).value.1 <==> NamedBy(devices, comps, c)
  {
    if |comps| > 0 {
      var n := |comps| - 1;
      var init := comps[..n];
      ResolveAllKnown(devices, init);
      var ids := ResolveAll(devices, init).value.1;
      assert KnownHid(devices, comps[n]);
      var i :| 0 <= i < |devices| && devices[i].hid == comps[n].hid;
      assert Describes(devices[i], comps[n]);
      assert ResolveAll(devices, comps) == Ok((devices, ids + {i}));
      NamedByStep(devices, comps, ids, i);
    }
  }

  /** Adding the device the last description names to the ids the earlier
      ones name gives the ids all of them name. */
  lemma NamedByStep(devices: seq<Device>, comps: seq<DeviceData>, ids: set<DeviceId>, i: DeviceId)
    requires UniqueIdentities(devices)
    requires |comps| > 0 && i < |devices| && comps[|comps| - 1].hid.Some?
    requires devices[i].hid == comps[|comps| - 1].hid
    requires forall c: DeviceId :: c in ids <==> NamedBy(devices, comps[..|comps| - 1], c)
    ensures forall c: DeviceId :: c in ids + {i} <==> NamedBy(devices, comps, c)
  {
    var n := |comps| - 1;
    var init := comps[..n];
    forall c: DeviceId | c in ids + {i}
      ensures NamedBy(devices, comps, c)
    {
      if c in ids {
        assert NamedBy(devices, init, c);
        var k :| 0 <= k < n && devices[c].hid == init[k].hid;
        assert devices[c].hid == comps[k].hid;
      } else {
        assert devices[c].hid == comps[n].hid;
      }
    }
    forall c: DeviceId | NamedBy(devices, comps, c)
      ensures c in ids + {i}
    {
      var k :| 0 <= k < |comps| && devices[c].hid == comps[k].hid;
      if k == n {
        assert devices[c].hid == devices[i].hid;
      } else {
        assert devices[c].hid == init[k].hid;
        assert NamedBy(devices, init, c);
      }
    }
  }

  /** The description names a hardware id some device already has. */
  ghost predicate KnownHid(devices: seq<Device>, data: DeviceData)
  {
    data.hid.Some? && exists i :: 0 <= i < |devices| && devices[i].hid == data.hid
  }

  /** `RegisterSerializer.save`: resolves the device and its components and
      appends one Register event naming them. Registration has no
      relationship guard; it only fails when a device cannot be resolved,
      and then nothing is stored. */
  function Register(s: Store, dev: DeviceData, comps: seq<DeviceData>, o: Origin): (r: Result<Store, RegistryError>)
    requires Valid(s)
    ensures r.Ok? ==> Valid(r.value)
    ensures r.Ok? ==> Extends(s.devices, r.value.devices)
    ensures r.Ok? ==> |r.value.log| == |s.log| + 1 && r.value.log[..|s.log|] == s.log
    ensures r.Ok? ==> var e := r.value.log[|s.log|];
      e.kind == EventKind.Register && e.agent == o.agent && e.date == o.date && e.byUser == o.byUser
      && e.owner.None? && e.to.None?
    ensures r.Ok? <==> GetOrCreate(s.devices, dev).Ok? && ResolveAll(GetOrCreate(s.devices, dev).value.0, comps).Ok?
    ensures r.Ok? ==> var e := r.value.log[|s.log|];
      e.target < |r.value.devices| && Describes(r.value.devices[e.target], dev)
      && ResolvedAs(r.value.devices, e.components, comps)
    ensures r.Ok? ==> r.value.log[|s.log|].target == GetOrCreate(s.devices, dev).value.1
    ensures r.Ok? ==> r.value.log[|s.log|].components == ResolveAll(GetOrCreate(s.devices, dev).value.0, comps).value.1
    ensures r.Ok? ==> r.value.devices == ResolveAll(GetOrCreate(s.devices, dev).value.0, comps).value.0
    ensures r.Ok? ==> forall i :: 0 <= i < |s.devices| && Describes(s.devices[i], dev) ==> r.value.log[|s.log|].target == i
    ensures r.Ok? && (forall i :: 0 <= i < |s.devices| ==> !Describes(s.devices[i], dev)) ==>
      r.value.log[|s.log|].target == |s.devices|
    ensures r.Ok? ==> CreatesOnly(s.devices, r.value.devices, [dev] + comps)
  {
    match GetOrCreate(s.devices, dev)
    case Err(e) => Err(e)
    case Ok((ds, id)) =>
      match ResolveAll(ds, comps)
      case Err(e) => Err(e)
      case Ok((ds', ids)) =>
        ExtendsTransitive(s.devices, ds, ds');
        ExtendsKeeps(ds, ds', id);
        ResolveAllDescribes(ds, comps);
        RegisterCreatesOnly(s.devices, ds, ds', dev, comps);
        var log' := s.log + [Event(EventKind.Register, id, o.agent, ids, o.date, o.byUser, None, None)];
        assert RefersToKnown(log', |ds'|) by {
          forall k | 0 <= k < |log'|
            ensures log'[k].target < |ds'| && forall c :: c in log'[k].components ==> c < |ds'|
          {
            if k < |s.log| {
              assert log'[k] == s.log[k];
            }
          }
        }
        Ok(Store(ds', log'))
  }

  /** Registering a device that is already known, with components that are
      all known, creates no device: it records a new snapshot on the
      existing device, listing exactly the devices the components name. */
  lemma KnownRegisterAddsSnapshot(s: Store, dev: DeviceData, comps: seq<DeviceData>, o: Origin, i: DeviceId)
    requires Valid(s)
    requires i < |s.devices| && Describes(s.devices[i], dev)
    requires forall k :: 0 <= k < |comps| ==> KnownHid(s.devices, comps[k])
    ensures Register(s, dev, comps, o).Ok?
    ensures Register(s, dev, comps, o).value.devices == s.devices
    ensures Register(s, dev, comps, o).value.log[|s.log|].target == i
    ensures forall c: DeviceId ::
              c in Register(s, dev, comps, o).value.log[|s.log|].components <==> NamedBy(s.devices, comps, c)
  {
    assert GetOrCreate(s.devices, dev) == Ok((s.devices, i));
    ResolveAllKnown(s.devices, comps);
  }
}
