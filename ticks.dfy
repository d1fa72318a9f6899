/** The half-hourly reading grid that `_generate_readings` walks within one
    span: the instants at which readings are taken, leaving out the
    maintenance hour 00:00-01:00.  Readings are 30 minutes apart. */
module Ticks {
  import opened Calendar

  /** The reading instants of a walk that stands at `c` and ends at `next`:
      a walk standing in hour 0 moves on to hour 1 (after maintenance), and
      the walk stops as soon as the next half-hour point lies after `next` or
      falls in hour 0 of the following day. */
  function Schedule(c: int, next: int): seq<int>
    decreases next - c
  {
    if c > next then []
    else if HourOf(c) == 0 then Schedule(c + 60, next)
    else if c + 30 > next || HourOf(c + 30) == 0 then []
    else [c + 30] + Schedule(c + 30, next)
  }

  /** The point the grid counts from: one hour on when the walk starts in hour 0. */
  function GridBase(c: int): int {
    if HourOf(c) == 0 then c + 60 else c
  }

  /** Half an hour on from a point outside hour 0 stays on the same day
      unless it reaches midnight. */
  lemma HalfHourStep(c: int)
    requires HourOf(c + 30) != 0
    ensures DayOf(c + 30) == DayOf(c)
  {
    var m := (c + 30) % 1440;
    assert c == DayOf(c + 30) * 1440 + (m - 30);
    SplitMinutes(DayOf(c + 30), m - 30);
  }

  lemma HourZeroStep(c: int)
    requires HourOf(c) == 0
    ensures HourOf(c + 60) == 1 && DayOf(c + 60) == DayOf(c)
  {
    SplitMinutes(DayOf(c), c % 1440 + 60);
  }

  /** The readings of one walk lie on the half-hour grid from its base, never
      after `next`, never in hour 0 and all on the base's day; and the walk
      only stops where the next grid point would be after `next` or in hour 0. */
  lemma {:induction false} ScheduleGrid(c: int, next: int)
    ensures forall k :: 0 <= k < |Schedule(c, next)| ==>
              && Schedule(c, next)[k] == GridBase(c) + 30 * (k + 1)
              && Schedule(c, next)[k] <= next
              && HourOf(Schedule(c, next)[k]) != 0
              && DayOf(Schedule(c, next)[k]) == DayOf(GridBase(c))
    ensures c <= next ==>
              var e := GridBase(c) + 30 * (|Schedule(c, next)| + 1);
              e > next || HourOf(e) == 0
    decreases next - c
  {
    if c > next {
    } else if HourOf(c) == 0 {
      HourZeroStep(c);
      ScheduleGrid(c + 60, next);
    } else if c + 30 > next || HourOf(c + 30) == 0 {
    } else {
      var t := c + 30;
      HalfHourStep(c);
      ScheduleGrid(t, next);
      var ts := Schedule(c, next);
      assert ts == [t] + Schedule(t, next);
      forall k | 0 <= k < |ts|
        ensures ts[k] == c + 30 * (k + 1) && DayOf(ts[k]) == DayOf(c)
      {
        if k > 0 {
          assert ts[k] == Schedule(t, next)[k - 1];
        }
      }
    }
  }

  /** Each instant of a walk's schedule is a grid point after the base, not
      after `next`, outside hour 0 and on the base's day. */
  lemma InSchedule(c: int, next: int, x: int)
    requires x in Schedule(c, next)
    ensures GridBase(c) < x <= next && (x - GridBase(c)) % 30 == 0
    ensures HourOf(x) != 0 && DayOf(x) == DayOf(GridBase(c))
  {
    ScheduleGrid(c, next);
    var k :| 0 <= k < |Schedule(c, next)| && Schedule(c, next)[k] == x;
    assert x - GridBase(c) == 30 * (k + 1);
  }

  /** From a half-hour point outside hour 0, the walk to the next midnight
      takes every half-hour point up to 23:30. */
  lemma {:induction false} ScheduleToMidnight(c: int)
    requires c % 30 == 0 && HourOf(c) != 0
    ensures |Schedule(c, (DayOf(c) + 1) * 1440)| == ((DayOf(c) + 1) * 1440 - c) / 30 - 1
    decreases (DayOf(c) + 1) * 1440 - c
  {
    var e := (DayOf(c) + 1) * 1440;
    var t := c + 30;
    HalfHourBeforeMidnight(c);
    if t == e {
      assert Schedule(c, e) == [];
    } else {
      ScheduleToMidnight(t);
      assert Schedule(c, e) == [t] + Schedule(t, e);
      DivStep(e - t);
    }
  }

  /** Half an hour on from a grid point outside hour 0 either reaches the
      next midnight or is another grid point outside hour 0 on the same day. */
  lemma HalfHourBeforeMidnight(c: int)
    requires c % 30 == 0 && HourOf(c) != 0
    ensures var e := (DayOf(c) + 1) * 1440;
            var t := c + 30;
            && c <= e && t <= e
            && (t == e ==> HourOf(t) == 0)
            && (t < e ==> HourOf(t) != 0 && DayOf(t) == DayOf(c) && t % 30 == 0)
  {
    if c % 1440 + 30 < 1440 {
      HalfHourWithinDay(c);
    } else {
      HalfHourToMidnight(c);
    }
  }

  lemma HalfHourWithinDay(c: int)
    requires c % 1440 + 30 < 1440
    ensures DayOf(c + 30) == DayOf(c) && (c + 30) % 1440 == c % 1440 + 30
  {
    SplitMinutes(DayOf(c), c % 1440 + 30);
  }

  lemma HalfHourToMidnight(c: int)
    requires c % 30 == 0 && 1440 <= c % 1440 + 30
    ensures c + 30 == (DayOf(c) + 1) * 1440
  {
    var m := c % 1440;
    assert c == (DayOf(c) * 48) * 30 + m;
    assert m == 1410;
  }

  lemma DivStep(x: int)
    requires x >= 0
    ensures (x + 30) / 30 == x / 30 + 1
  {
  }

  lemma MidnightOnHour(d: int)
    ensures TruncateToHour(d * 1440) == d * 1440
  {
    assert d * 1440 == (d * 24) * 60;
  }

  /** A walk from one midnight to the next takes 45 readings, at 01:30,
      02:00, ..., 23:30. */
  lemma MidnightToMidnight(d: int)
    ensures |Schedule(d * 1440, (d + 1) * 1440)| == 45
  {
    var c := d * 1440;
    HourZeroStep(c);
    assert DayOf(c + 60) == d;
    ScheduleToMidnight(c + 60);
  }
}
