/** What the walk generates: which meters at which instants, in which
    order, and how the values advance. */
module Readings {
  import opened Calendar
  import opened Meters
  import opened Increments
  import opened Ticks
  import opened Engine

  /** The (meter, instant) pairs of a run of readings. */
  function Tags(rs: seq<Reading>): seq<(string, int)> {
    seq(|rs|, k requires 0 <= k < |rs| => (rs[k].meter, rs[k].time))
  }

  /** One pair per account, in list order, at every instant of `ts` in turn. */
  function Expected(ts: seq<int>, accts: seq<Account>): seq<(string, int)>
    decreases |ts|
  {
    if ts == [] then []
    else seq(|accts|, k requires 0 <= k < |accts| => (accts[k].meterId, ts[0])) + Expected(ts[1..], accts)
  }

  lemma {:induction false} ExpectedShape(ts: seq<int>, accts: seq<Account>)
    ensures |Expected(ts, accts)| == |ts| * |accts|
    ensures forall i :: 0 <= i < |Expected(ts, accts)| ==> Expected(ts, accts)[i].1 in ts
    ensures forall i :: 0 <= i < |Expected(ts, accts)| ==> IsRegistered(accts, Expected(ts, accts)[i].0)
    decreases |ts|
  {
    if ts != [] {
      ExpectedShape(ts[1..], accts);
      var head := seq(|accts|, k requires 0 <= k < |accts| => (accts[k].meterId, ts[0]));
      var e := Expected(ts, accts);
      assert e == head + Expected(ts[1..], accts);
      assert |e| == |accts| + (|ts| - 1) * |accts|;
      forall i | 0 <= i < |e|
        ensures e[i].1 in ts && IsRegistered(accts, e[i].0)
      {
        if i < |accts| {
          assert e[i] == (accts[i].meterId, ts[0]);
        } else {
          assert e[i] == Expected(ts[1..], accts)[i - |accts|];
          assert ts[1..][1..] == ts[2..];
        }
      }
    }
  }

  lemma TagsAppend(a: seq<Reading>, b: seq<Reading>)
    ensures Tags(a + b) == Tags(a) + Tags(b)
  {
  }

  lemma EmitTags(s: State, accts: seq<Account>, t: int, rng: Rng)
    ensures Tags(Emit(s, accts, t, rng).1) == seq(|accts|, k requires 0 <= k < |accts| => (accts[k].meterId, t))
  {
    EmitTagsShape(s, accts, t, rng);
  }

  /** The walk emits one reading per account, in list order, at each instant
      of its schedule. */
  lemma {:induction false} WalkTags(s: State, accts: seq<Account>, c: int, next: int, rng: Rng)
    ensures Tags(Walk(s, accts, c, next, rng).1) == Expected(Schedule(c, next), accts)
    decreases next - c
  {
    if c > next {
    } else if HourOf(c) == 0 {
      WalkTags(Maintain(s, c), accts, c + 60, next, rng);
    } else {
      var t := c + 30;
      if t <= next && HourOf(t) != 0 {
        var e := Emit(s, accts, t, rng);
        WalkTags(e.0, accts, t, next, rng);
        EmitTags(s, accts, t, rng);
        TagsAppend(e.1, Walk(e.0, accts, t, next, rng).1);
        assert ([t] + Schedule(t, next))[1..] == Schedule(t, next);
      }
    }
  }

  /** Each reading of the walk advances its meter by a draw in [0, 1], one
      draw per reading, and `latest_readings` ends at the replay of all of
      them. */
  lemma {:induction false} WalkValues(s: State, accts: seq<Account>, c: int, next: int, rng: Rng)
    ensures var w := Walk(s, accts, c, next, rng);
            && w.0.latest == Replay(s.latest, w.1)
            && Steps(s.latest, w.1)
            && w.0.draws == s.draws + |w.1|
    decreases next - c
  {
    if c > next {
    } else if HourOf(c) == 0 {
      WalkValues(Maintain(s, c), accts, c + 60, next, rng);
    } else {
      var t := c + 30;
      if t <= next && HourOf(t) != 0 {
        var e := Emit(s, accts, t, rng);
        WalkValues(e.0, accts, t, next, rng);
        EmitShape(s, accts, t, rng);
        EmitTagsShape(s, accts, t, rng);
        EmitSteps(s, accts, t, rng);
        ReplayAppend(s.latest, e.1, Walk(e.0, accts, t, next, rng).1);
      }
    }
  }

  /** The final flush leaves the values and the draws alone. */
  lemma WithinReadings(s: State, accts: seq<Account>, c: int, next: int, rng: Rng)
    ensures var w := Within(s, accts, c, next, rng);
            && Tags(w.1) == Expected(Schedule(TruncateToHour(c), next), accts)
            && w.0.latest == Replay(s.latest, w.1)
            && Steps(s.latest, w.1)
            && w.0.draws == s.draws + |w.1|
  {
    WalkTags(s, accts, TruncateToHour(c), next, rng);
    WalkValues(s, accts, TruncateToHour(c), next, rng);
  }

  /** Each reading of a span at most a day long is taken for a listed account
      at an instant of the walk's schedule. */
  lemma WithinOnSchedule(s: State, accts: seq<Account>, c: int, next: int, rng: Rng)
    ensures var out := Within(s, accts, c, next, rng).1;
            forall i :: 0 <= i < |out| ==>
              IsRegistered(accts, out[i].meter) && out[i].time in Schedule(TruncateToHour(c), next)
  {
    var out := Within(s, accts, c, next, rng).1;
    var ts := Schedule(TruncateToHour(c), next);
    WithinReadings(s, accts, c, next, rng);
    ExpectedShape(ts, accts);
    forall i | 0 <= i < |out|
      ensures IsRegistered(accts, out[i].meter) && out[i].time in ts
    {
      assert Tags(out)[i] == (out[i].meter, out[i].time);
    }
  }

  /** So every reading lies on the half-hour grid after the start truncated
      to the hour, not after the end, not in hour 0, and on a single day. */
  lemma WithinTimes(s: State, accts: seq<Account>, c: int, next: int, rng: Rng)
    ensures var out := Within(s, accts, c, next, rng).1;
            var base := GridBase(TruncateToHour(c));
            forall i :: 0 <= i < |out| ==>
              && IsRegistered(accts, out[i].meter)
              && base < out[i].time <= next
              && (out[i].time - base) % 30 == 0
              && HourOf(out[i].time) != 0
              && DayOf(out[i].time) == DayOf(base)
  {
    var out := Within(s, accts, c, next, rng).1;
    var ts := Schedule(TruncateToHour(c), next);
    var base := GridBase(TruncateToHour(c));
    WithinOnSchedule(s, accts, c, next, rng);
    forall i | 0 <= i < |out|
      ensures base < out[i].time <= next && (out[i].time - base) % 30 == 0
      ensures HourOf(out[i].time) != 0 && DayOf(out[i].time) == DayOf(base)
    {
      InSchedule(TruncateToHour(c), next, out[i].time);
    }
  }

  /** A span at most a day long gives one reading per account at each instant
      of its schedule. */
  lemma WithinCount(s: State, accts: seq<Account>, c: int, next: int, rng: Rng)
    ensures |Within(s, accts, c, next, rng).1| == |Schedule(TruncateToHour(c), next)| * |accts|
  {
    var out := Within(s, accts, c, next, rng).1;
    WithinReadings(s, accts, c, next, rng);
    ExpectedShape(Schedule(TruncateToHour(c), next), accts);
    assert |Tags(out)| == |out|;
  }

  /** A walk from one midnight to the next gives 45 readings per account. */
  lemma DayReadingCount(s: State, accts: seq<Account>, d: int, rng: Rng)
    ensures |Within(s, accts, d * 1440, (d + 1) * 1440, rng).1| == 45 * |accts|
  {
    MidnightOnHour(d);
    WithinCount(s, accts, d * 1440, (d + 1) * 1440, rng);
    MidnightToMidnight(d);
  }

  /** Generation over consecutive spans advances the values the same way. */
  lemma {:induction false} SpansReadings(s: State, accts: seq<Account>, spans: seq<(int, int)>, rng: Rng)
    ensures var g := Spans(s, accts, spans, rng);
            g.0.latest == Replay(s.latest, g.1) && Steps(s.latest, g.1) && g.0.draws == s.draws + |g.1|
    decreases |spans|
  {
    if spans != [] {
      var w := Within(s, accts, spans[0].0, spans[0].1, rng);
      WithinReadings(s, accts, spans[0].0, spans[0].1, rng);
      SpansReadings(w.0, accts, spans[1..], rng);
      ReplayAppend(s.latest, w.1, Spans(w.0, accts, spans[1..], rng).1);
    }
  }

  /** Whatever the span, generation advances every value by draws in [0, 1]:
      each meter's values are non-decreasing in generation order, start no
      lower than its latest value before, and leave the cache empty. */
  lemma GenerateMonotone(s: State, accts: seq<Account>, c: int, n: int, rng: Rng)
    ensures var g := Generate(s, accts, c, n, rng);
            && g.0.cache == []
            && g.0.latest == Replay(s.latest, g.1)
            && (forall i :: 0 <= i < |g.1| ==> Get(s.latest, g.1[i].meter) <= g.1[i].value)
            && (forall i, j :: 0 <= i < j < |g.1| && g.1[i].meter == g.1[j].meter ==> g.1[i].value <= g.1[j].value)
  {
    var g := Generate(s, accts, c, n, rng);
    if n - c > 1440 {
      SpansReadings(s, accts, SubSpans(c, n), rng);
    } else {
      WithinReadings(s, accts, c, n, rng);
    }
    StepsMonotone(s.latest, g.1);
  }
}
