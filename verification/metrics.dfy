/** The usage metrics derived from a device's log: `Device.running_time`
    and `Device.durability` (grd/models.py). The wall clock is the explicit
    parameter `now`. */
module Metrics {
  import opened Wrappers
  import opened Model
  import opened EventLog
  import opened Calendar

  // ---------------------------------------------------------------------
  // running time
  // ---------------------------------------------------------------------

  /** Why the running time cannot be computed: a StopUsage with no open
      interval or an event without a date (both a subtraction involving
      `None`), or several Recycle events (`MultipleObjectsReturned`). */
  datatype UsageError = NoOpenInterval | DateIsNone | MultipleRecycles

  /** Replay state: the start of the open interval, if any, and the seconds
      accumulated by closed intervals. */
  datatype Usage = Usage(open: Option<Time>, seconds: int)

  function UsageStep(acc: Result<Usage, UsageError>, e: Event, d: DeviceId): Result<Usage, UsageError>
  {
    if acc.Err? || e.target != d then acc
    else if e.kind == UsageProof then Ok(Usage(e.date, acc.value.seconds))
    else if e.kind == StopUsage then
      if acc.value.open.None? then Err(NoOpenInterval)
      else if e.date.None? then Err(DateIsNone)
      else Ok(Usage(None, acc.value.seconds + (e.date.value - acc.value.open.value)))
    else acc
  }

  /** The interval start the replay holds after `log`: the date of the
      latest UsageProof, unless a StopUsage came after it. */
  function OpenStart(log: seq<Event>, d: DeviceId): Option<Time>
  {
    match Latest(log, OwnOf(d, UsageKinds))
    case None => None
    case Some(i) => if log[i].kind == UsageProof then log[i].date else None
  }

  /** Reference count of the closed intervals: every StopUsage of the
      device adds its date minus the start that is open just before it. */
  ghost function ClosedSeconds(log: seq<Event>, d: DeviceId): int
  {
    if |log| == 0 then 0
    else
      var n := |log| - 1;
      var e := log[n];
      var b := OpenStart(log[..n], d);
      ClosedSeconds(log[..n], d)
        + (if e.target == d && e.kind == StopUsage && e.date.Some? && b.Some? then e.date.value - b.value else 0)
  }

  /** Event `j` is a StopUsage of the device that the source's subtraction
      cannot handle: no interval is open before it, or it has no date. */
  predicate StopFails(log: seq<Event>, d: DeviceId, j: nat)
    requires j < |log|
  {
    log[j].target == d && log[j].kind == StopUsage && (OpenStart(log[..j], d).None? || log[j].date.None?)
  }

  /** Replays the device's UsageProof and StopUsage events in store order.
      A later UsageProof overwrites the open start instead of closing it. */
  function UsageReplay(log: seq<Event>, d: DeviceId): (r: Result<Usage, UsageError>)
    ensures r.Ok? ==> r.value.open == OpenStart(log, d)
    ensures r.Ok? ==> r.value.seconds == ClosedSeconds(log, d)
    ensures NoneSelectedFrom(log, OwnOf(d, UsageKinds), 0) ==> r == Ok(Usage(None, 0))
  {
    if |log| == 0 then Ok(Usage(None, 0))
    else UsageStep(UsageReplay(log[..|log| - 1], d), log[|log| - 1], d)
  }

  /** Appending an event advances the replay by exactly one step. */
  lemma UsageReplayAppend(log: seq<Event>, e: Event, d: DeviceId)
    ensures UsageReplay(log + [e], d) == UsageStep(UsageReplay(log, d), e, d)
  {
    assert (log + [e])[..|log|] == log;
  }

  lemma StopFailsPrefix(log: seq<Event>, d: DeviceId, n: nat, j: nat)
    requires j < n <= |log|
    ensures StopFails(log[..n], d, j) == StopFails(log, d, j)
  {
    assert log[..n][..j] == log[..j];
  }

  /** The replay succeeds exactly when no StopUsage fails, and otherwise
      reports the first failing StopUsage: `NoOpenInterval` when nothing
      was open before it (the source subtracts `None`), `DateIsNone` when
      it has no date. */
  lemma UsageReplayOutcome(log: seq<Event>, d: DeviceId)
    ensures UsageReplay(log, d).Ok? <==> forall j :: 0 <= j < |log| ==> !StopFails(log, d, j)
    ensures forall j :: 0 <= j < |log| && StopFails(log, d, j) && (forall k :: 0 <= k < j ==> !StopFails(log, d, k)) ==>
      UsageReplay(log, d) == Err(if OpenStart(log[..j], d).None? then NoOpenInterval else DateIsNone)
  {
    UsageReplaySucceeds(log, d);
    UsageReplayFirstFailure(log, d);
  }

  lemma {:induction false} UsageReplaySucceeds(log: seq<Event>, d: DeviceId)
    ensures UsageReplay(log, d).Ok? <==> forall j :: 0 <= j < |log| ==> !StopFails(log, d, j)
  {
    if |log| > 0 {
      var n := |log| - 1;
      var init := log[..n];
      UsageReplaySucceeds(init, d);
      forall k | 0 <= k < n
        ensures StopFails(init, d, k) == StopFails(log, d, k)
      {
        StopFailsPrefix(log, d, n, k);
      }
      assert UsageReplay(log, d) == UsageStep(UsageReplay(init, d), log[n], d);
      if UsageReplay(init, d).Err? {
        var k :| 0 <= k < n && StopFails(init, d, k);
        assert StopFails(log, d, k);
      } else {
        assert UsageReplay(log, d).Ok? <==> !StopFails(log, d, n);
      }
    }
  }

  lemma {:induction false} UsageReplayFirstFailure(log: seq<Event>, d: DeviceId)
    ensures forall j :: 0 <= j < |log| && StopFails(log, d, j) && (forall k :: 0 <= k < j ==> !StopFails(log, d, k)) ==>
      UsageReplay(log, d) == Err(if OpenStart(log[..j], d).None? then NoOpenInterval else DateIsNone)
  {
    if |log| > 0 {
      var n := |log| - 1;
      var init := log[..n];
      UsageReplayFirstFailure(init, d);
      UsageReplaySucceeds(init, d);
      forall k | 0 <= k < n
        ensures StopFails(init, d, k) == StopFails(log, d, k)
      {
        StopFailsPrefix(log, d, n, k);
      }
      assert UsageReplay(log, d) == UsageStep(UsageReplay(init, d), log[n], d);
      forall j | 0 <= j < |log| && StopFails(log, d, j) && (forall k :: 0 <= k < j ==> !StopFails(log, d, k))
        ensures UsageReplay(log, d) == Err(if OpenStart(log[..j], d).None? then NoOpenInterval else DateIsNone)
      {
        if j < n {
          assert StopFails(init, d, j);
          assert init[..j] == log[..j];
        }
      }
    }
  }

  /** Where an interval left open is closed: the date of the device's only
      Recycle event, or `now` when it has none. */
  function CloseTime(log: seq<Event>, d: DeviceId, now: Time): (r: Result<Time, UsageError>)
    ensures NoneSelectedFrom(log, OwnOf(d, {Recycle}), 0) ==> r == Ok(now)
    ensures forall i :: 0 <= i < |log| && log[i].kind == Recycle && log[i].target == d ==>
      (r.Ok? <==> log[i].date.Some? && Get(log, OwnOf(d, {Recycle})) == Ok(i))
    ensures r.Ok? && !NoneSelectedFrom(log, OwnOf(d, {Recycle}), 0) ==>
      exists i :: 0 <= i < |log| && log[i].kind == Recycle && log[i].target == d && log[i].date == Some(r.value)
  {
    match Get(log, OwnOf(d, {Recycle}))
    case Err(DoesNotExist) => Ok(now)
    case Err(MultipleObjectsReturned) => Err(MultipleRecycles)
    case Ok(i) =>
      assert Selects(OwnOf(d, {Recycle}), log[i]);
      if log[i].date.None? then Err(DateIsNone) else Ok(log[i].date.value)
  }

  /** `Device.running_time` in whole seconds: 0 when the device has no
      UsageProof; otherwise the closed intervals plus, for an interval
      still open, the time up to its closing instant. */
  function RunningTime(log: seq<Event>, d: DeviceId, now: Time): (r: Result<int, UsageError>)
    ensures NoneSelectedFrom(log, OwnOf(d, {UsageProof}), 0) ==> r == Ok(0)
    ensures !NoneSelectedFrom(log, OwnOf(d, {UsageProof}), 0) && (exists j :: 0 <= j < |log| && StopFails(log, d, j)) ==>
      r.Err?
    ensures !NoneSelectedFrom(log, OwnOf(d, {UsageProof}), 0) && (forall j :: 0 <= j < |log| ==> !StopFails(log, d, j)) ==>
      match OpenStart(log, d)
      case None => r == Ok(ClosedSeconds(log, d))
      case Some(b) =>
        match CloseTime(log, d, now)
        case Ok(t) => r == Ok(ClosedSeconds(log, d) + (t - b))
        case Err(e) => r == Err(e)
  {
    UsageReplayOutcome(log, d);
    if Latest(log, OwnOf(d, {UsageProof})).None? then Ok(0)
    else
      match UsageReplay(log, d)
      case Err(e) => Err(e)
      case Ok(u) =>
        match u.open
        case None => Ok(u.seconds)
        case Some(b) =>
          match CloseTime(log, d, now)
          case Err(e) => Err(e)
          case Ok(t) => Ok(u.seconds + (t - b))
  }

  /** The device's own dated events carry nondecreasing dates in store
      order. */
  ghost predicate Chronological(log: seq<Event>, d: DeviceId)
  {
    forall i, j ::
      (0 <= i < j < |log| && log[i].target == d && log[j].target == d
       && log[i].date.Some? && log[j].date.Some?) ==> log[i].date.value <= log[j].date.value
  }

  /** In a chronological history the closed intervals add up to a
      non-negative number of seconds. */
  lemma {:induction false} UsageReplayNonNegative(log: seq<Event>, d: DeviceId)
    requires Chronological(log, d)
    ensures UsageReplay(log, d).Ok? ==> UsageReplay(log, d).value.seconds >= 0
  {
    if |log| > 0 {
      var n := |log| - 1;
      var init := log[..n];
      assert Chronological(init, d) by {
        forall i, j | 0 <= i < j < |init| && init[i].target == d && init[j].target == d
          && init[i].date.Some? && init[j].date.Some?
          ensures init[i].date.value <= init[j].date.value
        {
          assert init[i] == log[i] && init[j] == log[j];
        }
      }
      UsageReplayNonNegative(init, d);
      var prior := UsageReplay(init, d);
      var e := log[n];
      if prior.Ok? && e.target == d && e.kind == StopUsage && prior.value.open.Some? && e.date.Some? {
        var m := Latest(init, OwnOf(d, UsageKinds)).value;
        assert init[m] == log[m];
        assert prior.value.open.value <= e.date.value;
      }
    }
  }

  /** Nothing of the device is used after it has been recycled. */
  ghost predicate NoUseAfterRecycle(log: seq<Event>, d: DeviceId)
  {
    forall i :: 0 <= i < |log| && log[i].target == d && log[i].kind == Recycle ==>
      NoneSelectedFrom(log, OwnOf(d, UsageKinds), i + 1)
  }

  /** A chronological history that is not used after its Recycle and whose
      dates are not later than `now` never has a negative running time. */
  lemma RunningTimeNonNegative(log: seq<Event>, d: DeviceId, now: Time)
    requires Chronological(log, d) && NoUseAfterRecycle(log, d)
    requires forall i :: 0 <= i < |log| && log[i].target == d && log[i].date.Some? ==> log[i].date.value <= now
    ensures RunningTime(log, d, now).Ok? ==> RunningTime(log, d, now).value >= 0
  {
    UsageReplayNonNegative(log, d);
    var u := UsageReplay(log, d);
    if u.Ok? && u.value.open.Some? && Latest(log, OwnOf(d, {UsageProof})).Some? {
      var m := Latest(log, OwnOf(d, UsageKinds)).value;
      var c := CloseTime(log, d, now);
      if c.Ok? && !NoneSelectedFrom(log, OwnOf(d, {Recycle}), 0) {
        var k :| 0 <= k < |log| && log[k].kind == Recycle && log[k].target == d && log[k].date == Some(c.value);
        assert Selects(OwnOf(d, UsageKinds), log[m]);
        assert m < k;
      }
    }
  }

  // ---------------------------------------------------------------------
  // durability
  // ---------------------------------------------------------------------

  /** Why durability cannot be computed: no Recycle yet (the source's
      `ValueError`), several Recycle events, a needed event without a date,
      or no production date and no Register to fall back on. */
  datatype DurabilityError = NotRecycledYet | SeveralRecycles | MissingDate | NeverRegistered

  /** `y` is the year the device was produced: its production date's year,
      or else the year of its earliest Register in store order. */
  ghost predicate ProducedIn(log: seq<Event>, d: DeviceId, dev: Device, y: int)
  {
    match dev.productionDate
    case Some(pd) => y == pd.year
    case None =>
      exists i :: FirstRegister(log, d, i) && log[i].date.Some? && YearOf(log[i].date.value) == y
  }

  /** Event `i` is the device's first Register in store order. */
  ghost predicate FirstRegister(log: seq<Event>, d: DeviceId, i: int)
  {
    && 0 <= i < |log|
    && log[i].kind == Register
    && log[i].target == d
    && forall j :: 0 <= j < i ==> !Selects(OwnOf(d, {Register}), log[j])
  }

  /** The production year: the production date's, else the year of the
      first Register, which fails when that Register has no date. */
  function ProducedYear(log: seq<Event>, d: DeviceId, dev: Device): (r: Result<int, DurabilityError>)
    ensures r.Ok? ==> ProducedIn(log, d, dev, r.value)
    ensures dev.productionDate.Some? ==> r == Ok(dev.productionDate.value.year)
    ensures r == Err(NeverRegistered) <==>
      dev.productionDate.None? && NoneSelectedFrom(log, OwnOf(d, {Register}), 0)
    ensures dev.productionDate.None? ==> forall i :: FirstRegister(log, d, i) ==>
      r == if log[i].date.Some? then Ok(YearOf(log[i].date.value)) else Err(MissingDate)
  {
    forall i | FirstRegister(log, d, i)
      ensures Earliest(log, OwnOf(d, {Register})) == Some(i)
    {
      assert Selects(OwnOf(d, {Register}), log[i]);
    }
    match dev.productionDate
    case Some(pd) => Ok(pd.year)
    case None =>
      match Earliest(log, OwnOf(d, {Register}))
      case None => Err(NeverRegistered)
      case Some(i) =>
        if log[i].date.None? then Err(MissingDate) else Ok(YearOf(log[i].date.value))
  }

  /** The production year `ProducedIn` describes is the one computed. */
  lemma ProducedInDeterminesYear(log: seq<Event>, d: DeviceId, dev: Device, y: int)
    requires ProducedIn(log, d, dev, y)
    ensures ProducedYear(log, d, dev) == Ok(y)
  {
    if dev.productionDate.None? {
      var i :| FirstRegister(log, d, i) && log[i].date.Some? && YearOf(log[i].date.value) == y;
    }
  }

  /** `Device.durability`: whole years from production to the device's
      one Recycle event. */
  function Durability(log: seq<Event>, d: DeviceId, dev: Device): (r: Result<int, DurabilityError>)
    ensures r == Err(NotRecycledYet) <==> NoneSelectedFrom(log, OwnOf(d, {Recycle}), 0)
    ensures r.Ok? ==> forall i :: 0 <= i < |log| && log[i].kind == Recycle && log[i].target == d ==>
      && Get(log, OwnOf(d, {Recycle})) == Ok(i)
      && log[i].date.Some?
      && ProducedIn(log, d, dev, YearOf(log[i].date.value) - r.value)
    ensures r == Err(SeveralRecycles) <==> Get(log, OwnOf(d, {Recycle})) == Err(MultipleObjectsReturned)
    ensures forall i :: Get(log, OwnOf(d, {Recycle})) == Ok(i) && log[i].date.None? ==> r == Err(MissingDate)
    ensures forall i, y :: Get(log, OwnOf(d, {Recycle})) == Ok(i) && log[i].date.Some? && ProducedIn(log, d, dev, y) ==>
      r == Ok(YearOf(log[i].date.value) - y)
  {
    forall y | ProducedIn(log, d, dev, y)
      ensures ProducedYear(log, d, dev) == Ok(y)
    {
      ProducedInDeterminesYear(log, d, dev, y);
    }
    match Get(log, OwnOf(d, {Recycle}))
    case Err(DoesNotExist) => Err(NotRecycledYet)
    case Err(MultipleObjectsReturned) => Err(SeveralRecycles)
    case Ok(i) =>
      assert Selects(OwnOf(d, {Recycle}), log[i]);
      match log[i].date
      case None => Err(MissingDate)
      case Some(t) =>
        match ProducedYear(log, d, dev)
        case Err(e) => Err(e)
        case Ok(y) => Ok(YearOf(t) - y)
  }
}
