/** Concrete histories like those of the ledger's test suite, with the
    values those tests expect, proved about the model. */
module Scenarios {
  import opened Wrappers
  import opened Model
  import opened Calendar
  import opened EventLog
  import opened Projections
  import opened Metrics
  import opened Registry

  const Recorder: AgentId := 1
  const Receiver: AgentId := 2
  const Foo: Url := "http://example.org/users/foo"

  /** An event recorded by agent 1 on behalf of user foo. */
  function At(kind: EventKind, d: DeviceId, comps: set<DeviceId>, date: Time): Event
  {
    Event(kind, d, Recorder, comps, Some(date), Foo, None, None)
  }

  // 2015-09-08T12:38:20Z and 25 seconds later
  const T0: Time := 1441715900
  const T1: Time := 1441715925

  /** A single UsageProof/StopUsage pair counts its 25 seconds. */
  lemma SingleUseIsCounted(now: Time)
    ensures RunningTime([At(Register, 0, {}, T0), At(UsageProof, 0, {}, T0), At(StopUsage, 0, {}, T1)], 0, now) == Ok(25)
  {
    var log := [At(Register, 0, {}, T0), At(UsageProof, 0, {}, T0), At(StopUsage, 0, {}, T1)];
    assert log[..1][..0] == [];
    assert log[..2][..1] == log[..1];
    assert log[..|log| - 1] == log[..2];
    assert UsageReplay(log[..1], 0) == Ok(Usage(None, 0));
    assert UsageReplay(log[..2], 0) == Ok(Usage(Some(T0), 0));
    assert UsageReplay(log, 0) == Ok(Usage(None, 25));
    assert Selects(OwnOf(0, {UsageProof}), log[1]);
  }

  /** Two uses of two hours each add up to four hours. */
  lemma SeveralUsesAreSummed(now: Time)
    ensures RunningTime([At(Register, 0, {}, T0),
                         At(UsageProof, 0, {}, 1441713600), At(StopUsage, 0, {}, 1441720800),
                         At(UsageProof, 0, {}, 1441886400), At(StopUsage, 0, {}, 1441893600)], 0, now)
      == Ok(4 * 3600)
  {
    var l1 := [At(Register, 0, {}, T0)];
    var l2 := l1 + [At(UsageProof, 0, {}, 1441713600)];
    var l3 := l2 + [At(StopUsage, 0, {}, 1441720800)];
    var l4 := l3 + [At(UsageProof, 0, {}, 1441886400)];
    var log := l4 + [At(StopUsage, 0, {}, 1441893600)];
    UsageReplayAppend([], l1[0], 0);
    assert [] + l1 == l1;
    assert UsageReplay(l1, 0) == Ok(Usage(None, 0));
    UsageReplayAppend(l1, At(UsageProof, 0, {}, 1441713600), 0);
    assert UsageReplay(l2, 0) == Ok(Usage(Some(1441713600), 0));
    UsageReplayAppend(l2, At(StopUsage, 0, {}, 1441720800), 0);
    assert UsageReplay(l3, 0) == Ok(Usage(None, 7200));
    UsageReplayAppend(l3, At(UsageProof, 0, {}, 1441886400), 0);
    assert UsageReplay(l4, 0) == Ok(Usage(Some(1441886400), 7200));
    UsageReplayAppend(l4, At(StopUsage, 0, {}, 1441893600), 0);
    assert UsageReplay(log, 0) == Ok(Usage(None, 4 * 3600));
    assert Selects(OwnOf(0, {UsageProof}), log[1]);
    assert log == [At(Register, 0, {}, T0),
                   At(UsageProof, 0, {}, 1441713600), At(StopUsage, 0, {}, 1441720800),
                   At(UsageProof, 0, {}, 1441886400), At(StopUsage, 0, {}, 1441893600)];
  }

  /** An interval left open is closed by the Recycle event. */
  lemma RecycleClosesOpenUse(now: Time)
    ensures RunningTime([At(Register, 0, {}, T0), At(UsageProof, 0, {}, T0), At(Recycle, 0, {}, T1)], 0, now) == Ok(25)
  {
    var log := [At(Register, 0, {}, T0), At(UsageProof, 0, {}, T0), At(Recycle, 0, {}, T1)];
    assert log[..1][..0] == [];
    assert log[..2][..1] == log[..1];
    assert log[..|log| - 1] == log[..2];
    assert UsageReplay(log[..1], 0) == Ok(Usage(None, 0));
    assert UsageReplay(log[..2], 0) == Ok(Usage(Some(T0), 0));
    assert UsageReplay(log, 0) == Ok(Usage(Some(T0), 0));
    assert Selects(OwnOf(0, {UsageProof}), log[1]);
    assert Get(log, OwnOf(0, {Recycle})) == Ok(2);
  }

  /** With neither StopUsage nor Recycle the device is still in use: the
      interval runs up to `now`. */
  lemma OpenUseRunsUntilNow(now: Time)
    ensures RunningTime([At(Register, 0, {}, T0), At(UsageProof, 0, {}, T0)], 0, now) == Ok(now - T0)
  {
  }

  /** Without a UsageProof the running time is 0. */
  lemma NoUseIsZero(now: Time)
    ensures RunningTime([At(Register, 0, {}, T0)], 0, now) == Ok(0)
  {
  }

  const Jan2014: Time := 1388534400
  const Jan2015: Time := 1420070400

  /** The first instants of 2014 and 2015 fall in those years. */
  lemma NewYearInstants()
    ensures YearOf(Jan2014) == 2014 && YearOf(Jan2015) == 2015
  {
    assert DayOf(Jan2014) == 16071;
    assert 735539 / 146097 == 5;
    assert 5054 / 1460 == 3 && 5054 / 36524 == 0 && 5054 / 146096 == 0;
    assert 5051 / 365 == 13 && 13 / 4 == 3 && 13 / 100 == 0;
    assert 1532 / 153 == 10;
    assert YearOfShiftedDay(735539) == 2014;
    assert DayOf(Jan2015) == 16436;
    assert 735904 / 146097 == 5;
    assert 5419 / 1460 == 3 && 5419 / 36524 == 0 && 5419 / 146096 == 0;
    assert 5416 / 365 == 14 && 14 / 4 == 3 && 14 / 100 == 0;
    assert YearOfShiftedDay(735904) == 2015;
  }

  /** Production in 2009 and a Recycle in 2015: six years. */
  lemma DurabilityFromProductionDate()
    ensures Durability([At(Register, 0, {}, Jan2014), At(Recycle, 0, {}, Jan2015)], 0,
                       Device(Some("1234"), "http://example.org/device/1234/", Computer, Some(Date(2009, 1, 1))))
      == Ok(6)
  {
    var log := [At(Register, 0, {}, Jan2014), At(Recycle, 0, {}, Jan2015)];
    NewYearInstants();
    assert Selects(OwnOf(0, {Recycle}), log[1]);
    assert Get(log, OwnOf(0, {Recycle})) == Ok(1);
  }

  /** Without a production date the year of the first Register counts. */
  lemma DurabilityFromFirstRegister()
    ensures Durability([At(Register, 0, {}, Jan2014), At(Recycle, 0, {}, Jan2015)], 0,
                       Device(Some("1234"), "http://example.org/device/1234/", Computer, None))
      == Ok(1)
  {
    var log := [At(Register, 0, {}, Jan2014), At(Recycle, 0, {}, Jan2015)];
    NewYearInstants();
    assert Selects(OwnOf(0, {Recycle}), log[1]);
    assert Get(log, OwnOf(0, {Recycle})) == Ok(1);
    assert Selects(OwnOf(0, {Register}), log[0]);
    assert Earliest(log, OwnOf(0, {Register})) == Some(0);
  }

  /** A second Register of the device does not change the production year:
      the earliest one counts. */
  lemma DurabilityFromEarliestOfSeveralRegisters()
    ensures Durability([At(Register, 0, {}, Jan2014), At(Register, 0, {}, Jan2014), At(Recycle, 0, {}, Jan2015)], 0,
                       Device(Some("1234"), "http://example.org/device/1234/", Computer, None))
      == Ok(1)
  {
    var log := [At(Register, 0, {}, Jan2014), At(Register, 0, {}, Jan2014), At(Recycle, 0, {}, Jan2015)];
    NewYearInstants();
    assert Selects(OwnOf(0, {Recycle}), log[2]);
    assert Get(log, OwnOf(0, {Recycle})) == Ok(2);
    assert Selects(OwnOf(0, {Register}), log[0]);
    assert Earliest(log, OwnOf(0, {Register})) == Some(0);
  }

  /** A device that has not been recycled has no durability yet. */
  lemma NoDurabilityBeforeRecycle(dev: Device)
    ensures Durability([At(Register, 0, {}, Jan2014)], 0, dev) == Err(NotRecycledYet)
  {
  }

  // ---------------------------------------------------------------------
  // components, parent and holder
  // ---------------------------------------------------------------------

  /** Registered with 1 and 2, then 3 added and 1 removed: 2 and 3 remain. */
  lemma AddAndRemoveAfterRegister()
    ensures Components([At(Register, 0, {1, 2}, T0), At(Add, 0, {3}, T0), At(Remove, 0, {1}, T1)], 0)
      == multiset{2, 3}
  {
    var log := [At(Register, 0, {1, 2}, T0), At(Add, 0, {3}, T0), At(Remove, 0, {1}, T1)];
    assert Selects(OwnOf(0, {Register}), log[0]);
    assert SnapshotBase(log, 0) == multiset{1, 2};
    assert log[..1][..0] == [];
    assert log[..2][..1] == log[..1];
    assert log[..|log| - 1] == log[..2];
    assert ReplayAddRemove(multiset{1, 2}, log[..1], 0) == multiset{1, 2};
    assert ReplayAddRemove(multiset{1, 2}, log[..2], 0) == multiset{1, 2, 3};
  }

  /** A later Register replaces the earlier snapshot. */
  lemma LaterSnapshotWins()
    ensures Components([At(Register, 0, {1}, T0), At(Register, 0, {2}, T1)], 0) == multiset{2}
  {
    var log := [At(Register, 0, {1}, T0), At(Register, 0, {2}, T1)];
    assert Selects(OwnOf(0, {Register}), log[1]);
    assert SnapshotBase(log, 0) == multiset{2};
    assert log[..1][..0] == [];
    assert log[..|log| - 1] == log[..1];
    assert ReplayAddRemove(multiset{2}, log[..1], 0) == multiset{2};
  }

  /** An Add older than the latest snapshot is still replayed on top of
      it. */
  lemma OlderAddIsReplayed()
    ensures Components([At(Add, 0, {3}, T0), At(Register, 0, {1}, T1)], 0) == multiset{1, 3}
  {
    var log := [At(Add, 0, {3}, T0), At(Register, 0, {1}, T1)];
    assert Selects(OwnOf(0, {Register}), log[1]);
    assert SnapshotBase(log, 0) == multiset{1};
    assert log[..1][..0] == [];
    assert log[..|log| - 1] == log[..1];
    assert ReplayAddRemove(multiset{1}, log[..1], 0) == multiset{1, 3};
  }

  /** Device 3 added and then listed again by a new snapshot occurs twice:
      the snapshot's copy and the Add's appended copy. */
  lemma AddThenSnapshotRepeats()
    ensures Components([At(Add, 0, {3}, T0), At(Register, 0, {3}, T1)], 0) == multiset{3, 3}
  {
    var log := [At(Add, 0, {3}, T0), At(Register, 0, {3}, T1)];
    assert Selects(OwnOf(0, {Register}), log[1]);
    assert SnapshotBase(log, 0) == multiset{3};
    assert log[..1][..0] == [];
    assert log[..|log| - 1] == log[..1];
    assert ReplayAddRemove(multiset{3}, log[..1], 0) == multiset{3, 3};
  }

  /** After a new snapshot leaves device 1 out, device 1 still reports 0 as
      its parent, although 0 no longer lists it. */
  lemma SnapshotLeavesStaleParent()
    ensures Parent([At(Register, 0, {1}, T0), At(Register, 0, {2}, T1)], 1) == Some(0)
    ensures 1 !in Components([At(Register, 0, {1}, T0), At(Register, 0, {2}, T1)], 0)
  {
    LaterSnapshotWins();
    var log := [At(Register, 0, {1}, T0), At(Register, 0, {2}, T1)];
    assert AttachedBy(log, 1, 0, 0);
  }

  /** Without a Migrate the holder is the agent that registered the
      device; a Migrate hands it to its receiving agent. */
  lemma RegisterThenMigrate()
    ensures Holder([At(Register, 0, {}, T0)], 0) == Ok(Recorder)
    ensures Holder([At(Register, 0, {}, T0), Event(Migrate, 0, Recorder, {}, Some(T1), Foo, None, Some(Receiver))], 0)
      == Ok(Receiver)
  {
    assert LatestOwn([At(Register, 0, {}, T0)], 0, Register, 0);
    var log := [At(Register, 0, {}, T0), Event(Migrate, 0, Recorder, {}, Some(T1), Foo, None, Some(Receiver))];
    assert LatestOwn(log, 0, Migrate, 1);
  }

  /** A component's history includes its parent's events that list it. */
  lemma ComponentSeesParentEvents()
    ensures RelatedToDevice([At(Register, 5, {0}, T0), At(Recycle, 5, {0}, T1), At(Register, 6, {}, T1)], 0)
      == [0, 1]
  {
    var log := [At(Register, 5, {0}, T0), At(Recycle, 5, {0}, T1), At(Register, 6, {}, T1)];
    assert log[..1][..0] == [];
    assert log[..2][..1] == log[..1];
    assert log[..|log| - 1] == log[..2];
    assert RelatedToDevice(log[..1], 0) == [0];
    assert RelatedToDevice(log[..2], 0) == [0, 1];
  }

  // ---------------------------------------------------------------------
  // owners
  // ---------------------------------------------------------------------

  const Bar: Url := "http://example.org/users/bar"

  function Assign(kind: EventKind, owner: Url): Event
  {
    Event(kind, 0, Recorder, {}, Some(T0), Foo, Some(owner), None)
  }

  /** Allocating and then deallocating the same user leaves no owner. */
  lemma AllocateThenDeallocate()
    ensures Owners([Assign(Allocate, Bar)], 0) == Ok([Bar])
    ensures Owners([Assign(Allocate, Bar), Assign(Deallocate, Bar)], 0) == Ok([])
  {
    var none: Result<seq<Url>, OwnersError> := Ok([]);
    var a := Assign(Allocate, Bar);
    var log1 := [a];
    assert log1[..0] == [];
    assert Owners(log1[..0], 0) == none;
    assert OwnersStep(none, a, 0) == Ok([] + [Bar]);
    assert [] + [Bar] == [Bar];
    var log := [a, Assign(Deallocate, Bar)];
    assert log[..|log| - 1] == log1;
  }

  /** A Deallocate of a user who was never allocated breaks the replay. */
  lemma DeallocateWithoutAllocate()
    ensures Owners([Assign(Deallocate, Bar)], 0) == Err(NotInList(Bar))
  {
    assert [Assign(Deallocate, Bar)][..0] == [];
  }

  // ---------------------------------------------------------------------
  // registration
  // ---------------------------------------------------------------------

  const Hidless: seq<Device> := [Device(None, "http://example.org/device/a", Computer, None)]
  const NewHidless: DeviceData := DeviceData(None, "http://example.org/device/b", Computer)

  /** The lookup as written hands a second device without hardware id the
      first one's identity. */
  lemma HidlessReusedAsWritten()
    ensures GetOrCreateAsWritten(Hidless, NewHidless) == Ok((Hidless, 0))
  {
  }

  /** The intended lookup creates a new device for it. */
  lemma HidlessCreated()
    ensures GetOrCreate(Hidless, NewHidless)
      == Ok((Hidless + [Device(None, "http://example.org/device/b", Computer, None)], 1))
  {
  }

  /** A new snapshot of the stored device without hardware id, named by its
      own url, is recorded on that device. */
  lemma HidlessSnapshotReused()
    ensures GetOrCreate(Hidless, DeviceData(None, "http://example.org/device/a", Peripheral)) == Ok((Hidless, 0))
  {
  }
}
