/**
 * The elapsed-time computation of the countdown component: every tick reads
 * the clock, takes the time elapsed SINCE the configured target date (in
 * milliseconds) and, when it is positive, splits it into whole days, hours,
 * minutes and seconds that replace the displayed tuple as a whole.
 *
 * Clock readings and the parsed target date are integer milliseconds passed
 * in as parameters.
 */
module CountdownTimer {

  const MsPerSecond: int := 1000
  const MsPerMinute: int := 1000 * 60
  const MsPerHour: int := 1000 * 60 * 60
  const MsPerDay: int := 1000 * 60 * 60 * 24

  /** The `timeLeft` state of the component. */
  datatype TimeLeft = TimeLeft(days: int, hours: int, minutes: int, seconds: int)

  /** The state the component starts with, before any tick has replaced it. */
  const Initial: TimeLeft := TimeLeft(0, 0, 0, 0)

  /** Every field lies in the range a clock display expects. */
  predicate InRange(t: TimeLeft) {
    && t.days >= 0
    && 0 <= t.hours < 24
    && 0 <= t.minutes < 60
    && 0 <= t.seconds < 60
  }

  /** The number of milliseconds a tuple stands for. */
  function Millis(t: TimeLeft): int {
    t.days * MsPerDay + t.hours * MsPerHour + t.minutes * MsPerMinute + t.seconds * MsPerSecond
  }

  /** `t` is the whole-second reading of `difference` milliseconds. */
  predicate Represents(t: TimeLeft, difference: int) {
    InRange(t) && Millis(t) <= difference < Millis(t) + MsPerSecond
  }

  /** Euclidean division by an hour's milliseconds is determined by quotient and remainder. */
  lemma DivModHour(x: int, q: int, r: int)
    requires x == q * MsPerHour + r && 0 <= r < MsPerHour
    ensures x / MsPerHour == q && x % MsPerHour == r
  {
  }

  /** Euclidean division by a minute's milliseconds is determined by quotient and remainder. */
  lemma DivModMinute(x: int, q: int, r: int)
    requires x == q * MsPerMinute + r && 0 <= r < MsPerMinute
    ensures x / MsPerMinute == q && x % MsPerMinute == r
  {
  }

  /**
   * The four floor-division/modulo expressions of the source. For a positive
   * difference, JavaScript's `%` and `Math.floor(x / y)` agree with Dafny's
   * Euclidean `%` and `/`, so they are written directly.
   */
  function Decompose(difference: int): (t: TimeLeft)
    requires difference > 0
    ensures Represents(t, difference)
  {
    var days := difference / MsPerDay;
    var inDay := difference % MsPerDay;
    var hours := inDay / MsPerHour;
    var inHour := difference % MsPerHour;
    var minutes := inHour / MsPerMinute;
    var inMinute := difference % MsPerMinute;
    var seconds := inMinute / MsPerSecond;
    // the remainder by an hour is the remainder of the time within the day, and so on down
    assert hours < 24;
    DivModHour(difference, days * 24 + hours, inDay % MsPerHour);
    assert minutes < 60;
    DivModMinute(difference, (days * 24 + hours) * 60 + minutes, inHour % MsPerMinute);
    assert seconds < 60;
    TimeLeft(days, hours, minutes, seconds)
  }

  /**
   * One call of calculateTimeLeft: the difference is `now - targetDate`;
   * when positive, all four fields are replaced by its decomposition,
   * otherwise the state is kept exactly as it was.
   */
  function CalculateTimeLeft(current: TimeLeft, now: int, targetDate: int): (next: TimeLeft)
    ensures now - targetDate > 0 ==> Represents(next, now - targetDate)
    ensures now - targetDate <= 0 ==> next == current
  {
    var difference := now - targetDate;
    if difference > 0 then Decompose(difference) else current
  }

  /**
   * The state after the component has ticked once for each clock reading in
   * `nows`, all against the same target date (the component's one-second interval).
   * Readings never past the target leave the state as it was; a last
   * reading past the target decides the display on its own.
   */
  function Ticks(current: TimeLeft, nows: seq<int>, targetDate: int): (r: TimeLeft)
    decreases |nows|
    ensures (forall i :: 0 <= i < |nows| ==> nows[i] <= targetDate) ==> r == current
    ensures nows != [] && nows[|nows| - 1] > targetDate ==> Represents(r, nows[|nows| - 1] - targetDate)
  {
    if nows == [] then current
    else
      assert |nows| > 1 ==> nows[1..][|nows| - 2] == nows[|nows| - 1];
      Ticks(CalculateTimeLeft(current, nows[0], targetDate), nows[1..], targetDate)
  }

  predicate NonDecreasing(nows: seq<int>) {
    forall i, j :: 0 <= i < j < |nows| ==> nows[i] <= nows[j]
  }

  /** The whole seconds a tuple stands for. */
  function Seconds(t: TimeLeft): int {
    t.days * 86400 + t.hours * 3600 + t.minutes * 60 + t.seconds
  }

  /** Euclidean division of seconds by a day's seconds is determined by quotient and remainder. */
  lemma DivModDay(x: int, q: int, r: int)
    requires x == q * 86400 + r && 0 <= r < 86400
    ensures x / 86400 == q && x % 86400 == r
  {
  }

  /** The same for an hour's seconds. */
  lemma DivModHourSeconds(x: int, q: int, r: int)
    requires x == q * 3600 + r && 0 <= r < 3600
    ensures x / 3600 == q && x % 3600 == r
  {
  }

  /** The same for a minute's seconds. */
  lemma DivModMinuteSeconds(x: int, q: int, r: int)
    requires x == q * 60 + r && 0 <= r < 60
    ensures x / 60 == q && x % 60 == r
  {
  }

  /** An in-range tuple is the days/hours/minutes/seconds reading of its count of seconds. */
  lemma ReadingOfSeconds(t: TimeLeft)
    requires InRange(t)
    ensures Seconds(t) / 86400 == t.days
    ensures Seconds(t) % 86400 / 3600 == t.hours
    ensures Seconds(t) % 3600 / 60 == t.minutes
    ensures Seconds(t) % 60 == t.seconds
  {
    var s := Seconds(t);
    var inHour := t.minutes * 60 + t.seconds;
    var inDay := t.hours * 3600 + inHour;
    DivModDay(s, t.days, inDay);
    DivModHourSeconds(inDay, t.hours, inHour);
    DivModHourSeconds(s, t.days * 24 + t.hours, inHour);
    DivModMinuteSeconds(inHour, t.minutes, t.seconds);
    DivModMinuteSeconds(s, (t.days * 24 + t.hours) * 60 + t.minutes, t.seconds);
  }

  /** A difference has one reading in whole seconds. */
  lemma WholeSecondsOf(t: TimeLeft, difference: int)
    requires Millis(t) <= difference < Millis(t) + MsPerSecond
    ensures Seconds(t) * 1000 <= difference < Seconds(t) * 1000 + 1000
  {
  }

  /**
   * A tuple in range that reads `difference` to the second is the
   * decomposition of `difference`: the decomposition is determined by its
   * ranges and its reconstruction bound.
   */
  lemma DecomposeUnique(difference: int, t: TimeLeft)
    requires difference > 0
    requires Represents(t, difference)
    ensures t == Decompose(difference)
  {
    var u := Decompose(difference);
    WholeSecondsOf(t, difference);
    WholeSecondsOf(u, difference);
    // both stand for the same number of whole seconds ...
    assert Seconds(t) == Seconds(u);
    // ... and a count of seconds has one reading in range
    ReadingOfSeconds(t);
    ReadingOfSeconds(u);
  }

  /** Decomposition inverts reconstruction: sub-second leftovers are floored away. */
  lemma DecomposeMillis(t: TimeLeft, leftover: int)
    requires InRange(t) && 0 <= leftover < MsPerSecond
    requires Millis(t) + leftover > 0
    ensures Decompose(Millis(t) + leftover) == t
  {
    DecomposeUnique(Millis(t) + leftover, t);
  }

  /** 1 day + 1 h + 1 min + 1.001 s reads as (1, 1, 1, 1). */
  lemma DecomposeExample()
    ensures Decompose(90_061_001) == TimeLeft(1, 1, 1, 1)
  {
    DecomposeMillis(TimeLeft(1, 1, 1, 1), 1);
  }

  /** Readings of a larger difference never show less time, nor fewer days. */
  lemma RepresentsMonotone(t1: TimeLeft, d1: int, t2: TimeLeft, d2: int)
    requires d1 <= d2 && Represents(t1, d1) && Represents(t2, d2)
    ensures Millis(t1) <= Millis(t2) && t1.days <= t2.days
  {
    WholeSecondsOf(t1, d1);
    WholeSecondsOf(t2, d2);
    assert Seconds(t1) <= Seconds(t2);
    ReadingOfSeconds(t1);
    ReadingOfSeconds(t2);
  }

  /** A larger difference never reads as less time, nor as fewer days. */
  lemma DecomposeMonotone(d1: int, d2: int)
    requires 0 < d1 <= d2
    ensures Millis(Decompose(d1)) <= Millis(Decompose(d2))
    ensures Decompose(d1).days <= Decompose(d2).days
  {
    RepresentsMonotone(Decompose(d1), d1, Decompose(d2), d2);
  }

  /** Until the target is passed the initial all-zero tuple is shown. */
  lemma NotYetStaysInitial(now: int, targetDate: int)
    requires now <= targetDate
    ensures CalculateTimeLeft(Initial, now, targetDate) == TimeLeft(0, 0, 0, 0)
  {
  }

  /** Starting from the initial state, a later clock reading never shows less time. */
  lemma CalculateMonotone(now1: int, now2: int, targetDate: int)
    requires now1 <= now2
    ensures Millis(CalculateTimeLeft(Initial, now1, targetDate)) <= Millis(CalculateTimeLeft(Initial, now2, targetDate))
    ensures CalculateTimeLeft(Initial, now1, targetDate).days <= CalculateTimeLeft(Initial, now2, targetDate).days
  {
    if now1 - targetDate > 0 {
      DecomposeMonotone(now1 - targetDate, now2 - targetDate);
    }
  }

  /**
   * After any run of ticks against one target date with a clock that does
   * not go backwards, started from the initial state (or from the state a
   * tick at an earlier reading left), the display is what a single tick at
   * the last reading gives: no field is left over from an earlier tick.
   */
  lemma {:induction false} TicksShowLastReading(start: int, nows: seq<int>, targetDate: int)
    requires nows != [] && NonDecreasing(nows) && start <= nows[0]
    decreases |nows|
    ensures Ticks(CalculateTimeLeft(Initial, start, targetDate), nows, targetDate)
         == CalculateTimeLeft(Initial, nows[|nows| - 1], targetDate)
  {
    var s := CalculateTimeLeft(Initial, start, targetDate);
    var s' := CalculateTimeLeft(s, nows[0], targetDate);
    assert s' == CalculateTimeLeft(Initial, nows[0], targetDate);
    if |nows| > 1 {
      TicksShowLastReading(nows[0], nows[1..], targetDate);
      assert nows[1..][|nows[1..]| - 1] == nows[|nows| - 1];
    }
  }

  /** The component mounts with the initial state and ticks once per reading, against one target date. */
  lemma TicksFromMount(nows: seq<int>, targetDate: int)
    requires nows != [] && NonDecreasing(nows)
    ensures Ticks(Initial, nows, targetDate) == CalculateTimeLeft(Initial, nows[|nows| - 1], targetDate)
  {
    // the initial state is what a tick at a reading not past the target leaves
    var start := if nows[0] < targetDate then nows[0] else targetDate;
    assert CalculateTimeLeft(Initial, start, targetDate) == Initial;
    TicksShowLastReading(start, nows, targetDate);
  }

  /**
   * The effect restarts when the target date changes but the state is not
   * reset: while the new target is not yet passed, the reading taken
   * against the old target stays on display.
   */
  lemma TargetChangeKeepsReading(now1: int, target1: int, now2: int, target2: int)
    requires now1 > target1 && now2 <= target2
    ensures CalculateTimeLeft(CalculateTimeLeft(Initial, now1, target1), now2, target2) == Decompose(now1 - target1)
    ensures now1 - target1 >= MsPerSecond ==> CalculateTimeLeft(CalculateTimeLeft(Initial, now1, target1), now2, target2) != Initial
  {
  }

  /**
   * A tick past the target shows something other than zeros exactly when it
   * falls at least one second after the target: the milliseconds below a
   * second are floored away.
   */
  lemma ZerosUntilFirstSecond(now: int, targetDate: int)
    requires now > targetDate
    ensures CalculateTimeLeft(Initial, now, targetDate) == Initial <==> now - targetDate < MsPerSecond
  {
    var t := CalculateTimeLeft(Initial, now, targetDate);
    assert Millis(t) <= now - targetDate < Millis(t) + MsPerSecond;
  }

  /**
   * Whatever was shown before, a tick less than one second past the current
   * target shows (0, 0, 0, 0): a backward clock step or a new target can
   * bring the zeros back.
   */
  lemma SubSecondShowsZeros(current: TimeLeft, now: int, targetDate: int)
    requires 0 < now - targetDate < MsPerSecond
    ensures CalculateTimeLeft(current, now, targetDate) == Initial
  {
    var t := CalculateTimeLeft(current, now, targetDate);
    assert Millis(t) <= now - targetDate < Millis(t) + MsPerSecond;
  }
}
