/** Calendar arithmetic needed by the durability metric: the year (UTC,
    proleptic Gregorian) of an instant, i.e. `datetime.year`. */
module Calendar {
  import opened Model

  const SecondsPerDay: int := 86400

  /** Days in a 400-year Gregorian cycle. */
  const DaysPerEra: int := 146097

  /** Days from 0000-03-01 to 1970-01-01 in the proleptic Gregorian
      calendar. */
  const EpochShift: int := 719468

  /** Whole days since the epoch, rounded towards minus infinity. */
  function DayOf(t: Time): int
  {
    t / SecondsPerDay
  }

  /** The calendar year containing day `z` of the March-based cycle count
      (days since 0000-03-01). */
  function YearOfShiftedDay(z: int): int
  {
    var era := z / DaysPerEra;
    var doe := z - era * DaysPerEra;
    var yoe := (doe - doe / 1460 + doe / 36524 - doe / 146096) / 365;
    var doy := doe - (365 * yoe + yoe / 4 - yoe / 100);
    var mp := (5 * doy + 2) / 153;
    yoe + era * 400 + (if mp >= 10 then 1 else 0)
  }

  /** `t.year` for an instant in UTC. */
  function YearOf(t: Time): int
  {
    YearOfShiftedDay(DayOf(t) + EpochShift)
  }

  lemma MulAtLeast(d: int, n: int)
    requires n > 0 && d >= 1
    ensures d * n >= n
  {
  }

  /** Adding `k` whole multiples of `n` adds exactly `k` to the quotient. */
  lemma DivByShift(a: int, k: int, n: int)
    requires n > 0
    ensures (a + k * n) / n == a / n + k
  {
    var q, r := a / n, a % n;
    var b := a + k * n;
    var q', r' := b / n, b % n;
    var d := q' - q - k;
    assert q' * n + r' == (q + k) * n + r;
    assert d * n == r - r';
    if d >= 1 {
      MulAtLeast(d, n);
    } else if d <= -1 {
      MulAtLeast(-d, n);
    }
  }

  /** The Gregorian calendar repeats every 400 years: shifting an instant
      by one 146097-day cycle shifts its year by exactly 400. */
  lemma {:induction false} YearOfEraShift(t: Time)
    ensures YearOf(t + DaysPerEra * SecondsPerDay) == YearOf(t) + 400
  {
    DivByShift(t, DaysPerEra, SecondsPerDay);
    assert DayOf(t + DaysPerEra * SecondsPerDay) == DayOf(t) + DaysPerEra;
    var z := DayOf(t) + EpochShift;
    DivByShift(z, 1, DaysPerEra);
    assert (z + DaysPerEra) / DaysPerEra == z / DaysPerEra + 1;
  }
}
