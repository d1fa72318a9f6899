/** `SmartMeterSystem` as an object: its in-memory caches and, as fields, the
    clock file, the account file and the two data directories. Each method
    updates the fields in place and is proved to move the state exactly as
    the corresponding function of `Engine` does. */
module MeterSystem {
  import opened Results
  import opened Calendar
  import opened MonthDirs
  import opened Meters
  import opened Aggregates
  import opened Increments
  import opened Ticks
  import opened Engine
  import opened Maintenance
  import opened Operations

  /** `any(account["meter_ID"] == meter_id for account in accounts)`. */
  method AnyHasId(accts: seq<Account>, id: string) returns (found: bool)
    ensures found <==> IsRegistered(accts, id)
  {
    found := false;
    var i := 0;
    while i < |accts| && !found
      invariant 0 <= i <= |accts|
      invariant found <==> exists k :: 0 <= k < i && accts[k].meterId == id
    {
      found := accts[i].meterId == id;
      i := i + 1;
    }
  }

  /** The archiver's listing of the available months: the directory names
      that parse to a month from 2024-05 on, counted one by one. */
  method CountAvailable(daily: DailyStore) returns (n: nat)
    ensures n == |AvailableMonths(daily)|
  {
    var names := daily.Keys;
    n := 0;
    assert daily.Keys - names == {};
    while names != {}
      invariant names <= daily.Keys
      invariant n == |Qualifying(daily.Keys - names)|
      decreases |names|
    {
      var x :| x in names;
      CountStep(daily.Keys - names, x);
      assert daily.Keys - (names - {x}) == (daily.Keys - names) + {x};
      if Qualifies(x) {
        n := n + 1;
      }
      names := names - {x};
    }
    assert daily.Keys - names == daily.Keys;
    assert Qualifying(daily.Keys) == AvailableMonths(daily);
  }

  ghost function Qualifying(names: set<string>): set<string> {
    set y | y in names && Qualifies(y)
  }

  lemma CountStep(seen: set<string>, x: string)
    requires x !in seen
    ensures |Qualifying(seen + {x})| == |Qualifying(seen)| + if Qualifies(x) then 1 else 0
  {
    if Qualifies(x) {
      assert Qualifying(seen + {x}) == Qualifying(seen) + {x};
    } else {
      assert Qualifying(seen + {x}) == Qualifying(seen);
    }
  }

  /** The archiver reading a month's daily files and concatenating them. */
  method ReadMonth(files: map<int, seq<Row>>, first: int, count: nat) returns (rows: seq<Row>)
    ensures rows == MonthRows(files, first, count)
  {
    rows := [];
    for k := 0 to count
      invariant rows == MonthRows(files, first, k)
    {
      if first + k in files {
        rows := rows + files[first + k];
      }
    }
  }

  /** Archiving once the gate passes, spelled out. */
  lemma ArchivePasses(s: State, t: int)
    requires |AvailableMonths(s.daily)| >= 2 && MonthIndex(ArchiveMonthOf(t)) >= MonthIndex(EpochMonth)
    ensures var n2 := ArchiveMonthOf(t);
            var name := FormatMonthDir(n2);
            var prior := if name in s.monthly then s.monthly[name] else EmptyMonthlyDir;
            Archive(s, t) == s.(daily := Cleanup(s.daily[name := FilesIn(s.daily, name)], LastMonthOf(t)),
                                monthly := s.monthly[name := WriteAggregates(prior, ArchiveRows(s.daily, n2), ToRegistry(s.accounts), n2)])
  {
  }

  lemma EmitUnfold(s: State, accts: seq<Account>, t: int, rng: Rng)
    requires accts != []
    ensures var id := accts[0].meterId;
            var rd := Reading(id, t, Get(s.latest, id) + rng(s.draws));
            var s1 := s.(latest := s.latest[id := rd.value], cache := s.cache + [rd], draws := s.draws + 1);
            && Emit(s, accts, t, rng).0 == Emit(s1, accts[1..], t, rng).0
            && Emit(s, accts, t, rng).1 == [rd] + Emit(s1, accts[1..], t, rng).1
  {
  }

  /** The walk of `Engine.Walk` with the minute of the day carried beside the
      instant, so that the hour-0 and midnight tests are comparisons. */
  function WalkFrom(s: State, accts: seq<Account>, c: int, m: int, next: int, rng: Rng): (State, seq<Reading>)
    decreases next - c, 1
  {
    if c > next then (s, [])
    else if m < 60 then MaintainAndWalkFrom(s, accts, c, m, next, rng)
    else if c + 30 > next || m + 30 >= 1440 then (s, [])
    else
      var e := Emit(s, accts, c + 30, rng);
      var w := WalkFrom(e.0, accts, c + 30, m + 30, next, rng);
      (w.0, e.1 + w.1)
  }

  function MaintainAndWalkFrom(s: State, accts: seq<Account>, c: int, m: int, next: int, rng: Rng): (State, seq<Reading>)
    requires c <= next
    decreases next - c, 0
  {
    WalkFrom(Maintain(s, c), accts, c + 60, m + 60, next, rng)
  }

  /** Carrying the minute of the day does not change the walk. */
  lemma {:induction false} WalkFromIsWalk(s: State, accts: seq<Account>, c: int, next: int, rng: Rng)
    ensures WalkFrom(s, accts, c, c % 1440, next, rng) == Walk(s, accts, c, next, rng)
    decreases next - c
  {
    var m := c % 1440;
    if c > next {
    } else if m < 60 {
      assert HourOf(c) == 0;
      MinuteStep(c, 60);
      WalkFromIsWalk(Maintain(s, c), accts, c + 60, next, rng);
    } else {
      assert HourOf(c) != 0;
      var t := c + 30;
      if m + 30 >= 1440 {
        MinuteWrap(c);
      } else {
        MinuteStep(c, 30);
        if t <= next {
          var e := Emit(s, accts, t, rng);
          WalkFromIsWalk(e.0, accts, t, next, rng);
        }
      }
    }
  }

  lemma MinuteStep(c: int, k: int)
    requires 0 <= k && c % 1440 + k < 1440
    ensures (c + k) % 1440 == c % 1440 + k
    ensures HourOf(c + k) == (c % 1440 + k) / 60
  {
    SplitMinutes(DayOf(c), c % 1440 + k);
  }

  lemma MinuteWrap(c: int)
    requires 1440 <= c % 1440 + 30
    ensures HourOf(c + 30) == 0
  {
    SplitMinutes(DayOf(c) + 1, c % 1440 + 30 - 1440);
  }

  /** Appending in two steps is appending once. */
  lemma Reassociate(a: seq<Reading>, b: seq<Reading>, c: seq<Reading>)
    ensures a + (b + c) == (a + b) + c
  {
  }

  lemma SpansStep(s: State, accts: seq<Account>, c: int, n: int, rng: Rng)
    requires c < n
    ensures var w := Within(s, accts, c, Min(c + 1440, n), rng);
            var rest := Spans(w.0, accts, SubSpans(c + 1440, n), rng);
            Spans(s, accts, SubSpans(c, n), rng) == (rest.0, w.1 + rest.1)
  {
    var spans := SubSpans(c, n);
    assert spans[0] == (c, Min(c + 1440, n));
    assert spans[1..] == SubSpans(c + 1440, n);
  }

  class SmartMeterSystem {
    var clock: int
    var accounts: seq<Account>
    var latest: map<string, real>
    var cache: seq<Reading>
    var draws: nat
    var daily: DailyStore
    var monthly: map<string, MonthlyDir>

    function Snap(): State
      reads this
    {
      State(clock, accounts, latest, cache, draws, daily, monthly)
    }

    predicate Valid()
      reads this
    {
      Inv(Snap())
    }

    /** A system over existing files starts with empty caches; files that
        keep the invariant give a valid system. */
    constructor (clock0: int, accounts0: seq<Account>, draws0: nat, daily0: DailyStore, monthly0: map<string, MonthlyDir>)
      requires Inv(State(clock0, accounts0, map[], [], draws0, daily0, monthly0))
      ensures Snap() == State(clock0, accounts0, map[], [], draws0, daily0, monthly0)
      ensures Valid()
    {
      clock := clock0;
      accounts := accounts0;
      latest := map[];
      cache := [];
      draws := draws0;
      daily := daily0;
      monthly := monthly0;
    }

    /** One account's reading at a tick: its value is the account's latest
        plus the next draw; the other accounts are still to come. */
    method EmitOne(accts: seq<Account>, i: int, t: int, rng: Rng) returns (rd: Reading)
      requires 0 <= i < |accts|
      modifies this
      ensures Emit(old(Snap()), accts[i..], t, rng).0 == Emit(Snap(), accts[i + 1..], t, rng).0
      ensures Emit(old(Snap()), accts[i..], t, rng).1 == [rd] + Emit(Snap(), accts[i + 1..], t, rng).1
    {
      var id := accts[i].meterId;
      rd := Reading(id, t, Get(latest, id) + rng(draws));
      EmitUnfold(Snap(), accts[i..], t, rng);
      assert accts[i..][1..] == accts[i + 1..];
      latest := latest[id := rd.value];
      cache := cache + [rd];
      draws := draws + 1;
    }

    /** The inner `for account in accounts` loop at one reading instant. */
    method EmitTick(accts: seq<Account>, t: int, rng: Rng) returns (out: seq<Reading>)
      modifies this
      ensures Snap() == Emit(old(Snap()), accts, t, rng).0 && out == Emit(old(Snap()), accts, t, rng).1
    {
      out := [];
      assert accts[0..] == accts;
      ghost var e := Emit(Snap(), accts, t, rng);
      ghost var rest := e;
      assert e.1 == [] + rest.1;
      for i := 0 to |accts|
        invariant rest == Emit(Snap(), accts[i..], t, rng)
        invariant e.0 == rest.0 && e.1 == out + rest.1
      {
        var rd := EmitOne(accts, i, t, rng);
        ghost var after := Emit(Snap(), accts[i + 1..], t, rng);
        Reassociate(out, [rd], after.1);
        out := out + [rd];
        rest := after;
      }
      assert out + [] == out;
    }

    /** `_process_daily_data(day)`. */
    method ProcessDailyData(day: int)
      modifies this
      ensures Snap() == Flush(old(Snap()), day)
    {
      if cache == [] {
        return;
      }
      var dir := DailyDirOf(day);
      var files := FilesIn(daily, dir);
      var prior := if DateOfDay(day).day != 1 && day in files then files[day] else [];
      daily := daily[dir := files[day := prior + RowsOf(cache, day)]];
      cache := [];
    }

    /** `_cleanup_old_readings(lmf)`: one directory at a time. */
    method CleanupOldReadings(lmf: YearMonth)
      modifies this
      ensures Snap() == old(Snap()).(daily := Cleanup(old(daily), lmf))
    {
      var names := daily.Keys;
      while names != {}
        invariant names <= old(daily).Keys
        invariant Snap() == old(Snap()).(daily := daily)
        invariant forall n :: n in daily <==> n in old(daily) && (n in names || !Doomed(n, lmf))
        invariant forall n :: n in daily ==> daily[n] == old(daily)[n]
        decreases |names|
      {
        var name :| name in names;
        if Doomed(name, lmf) {
          daily := daily - {name};
        }
        names := names - {name};
      }
      assert daily == Cleanup(old(daily), lmf);
    }

    /** `_archive_and_prepare_monthly_data(t)`. */
    method ArchiveAndPrepare(t: int)
      modifies this
      ensures Snap() == Archive(old(Snap()), t)
    {
      ghost var s0 := Snap();
      var lmf := LastMonthOf(t);
      var available := CountAvailable(daily);
      var n2 := ArchiveMonthOf(t);
      if available < 2 || MonthIndex(n2) < MonthIndex(EpochMonth) {
        ArchiveMonths(t);
        ArchiveGate(s0, t);
        return;
      }
      var name := FormatMonthDir(n2);
      ArchivePasses(s0, t);
      var files := FilesIn(daily, name);
      var rows := ReadMonth(files, DayNumber(FirstOfMonth(n2)), DaysInMonth(n2.year, n2.month));
      var prior := if name in monthly then monthly[name] else EmptyMonthlyDir;
      var written := WriteAggregates(prior, rows, ToRegistry(accounts), n2);
      daily := daily[name := files];
      monthly := monthly[name := written];
      assert Snap() == s0.(daily := s0.daily[name := files], monthly := s0.monthly[name := written]);
      CleanupOldReadings(lmf);
    }

    /** The `while current_time <= next_time` loop: maintenance in hour 0,
        otherwise a reading per account half an hour on, until the end of
        the span or of the day. */
    method RunWalk(accts: seq<Account>, start: int, next: int, rng: Rng) returns (out: seq<Reading>)
      modifies this
      ensures Snap() == Walk(old(Snap()), accts, start, next, rng).0 && out == Walk(old(Snap()), accts, start, next, rng).1
    {
      var cur, minute, stop := start, start % 1440, start > next;
      out := [];
      ghost var w := Walk(Snap(), accts, cur, next, rng);
      WalkFromIsWalk(Snap(), accts, cur, next, rng);
      ghost var rest := w;
      assert w.1 == [] + rest.1;
      while !stop
        invariant !stop ==> cur <= next + 60
        invariant rest == if stop then (Snap(), []) else WalkFrom(Snap(), accts, cur, minute, next, rng)
        invariant w.0 == rest.0 && w.1 == out + rest.1
        decreases if stop then 0 else next - cur + 61
      {
        var o;
        o, cur, minute, stop := WalkPass(accts, cur, minute, next, rng);
        ghost var after := if stop then (Snap(), []) else WalkFrom(Snap(), accts, cur, minute, next, rng);
        Reassociate(out, o, after.1);
        out := out + o;
        rest := after;
      }
      assert out + [] == out;
    }

    /** One pass of the walk loop: stop past the end of the span or at the
        last tick of the day; maintenance in hour 0; otherwise one reading
        per account half an hour on. */
    method WalkPass(accts: seq<Account>, cur: int, minute: int, next: int, rng: Rng)
      returns (o: seq<Reading>, cur': int, minute': int, stop: bool)
      modifies this
      ensures stop ==> o == [] && WalkFrom(old(Snap()), accts, cur, minute, next, rng) == (Snap(), [])
      ensures !stop ==> cur <= next && cur < cur' <= cur + 60
      ensures !stop ==> WalkFrom(old(Snap()), accts, cur, minute, next, rng).0 == WalkFrom(Snap(), accts, cur', minute', next, rng).0
      ensures !stop ==> WalkFrom(old(Snap()), accts, cur, minute, next, rng).1 == o + WalkFrom(Snap(), accts, cur', minute', next, rng).1
    {
      o, cur', minute', stop := [], cur, minute, true;
      if cur > next {
        return;
      }
      if minute < 60 {
        MaintenanceHour(accts, cur, minute, next, rng);
        cur', minute', stop := cur + 60, minute + 60, false;
        assert [] + WalkFrom(Snap(), accts, cur', minute', next, rng).1 == WalkFrom(Snap(), accts, cur', minute', next, rng).1;
      } else if cur + 30 <= next && minute + 30 < 1440 {
        o := ReadingTick(accts, cur, minute, next, rng);
        cur', minute', stop := cur + 30, minute + 30, false;
      }
    }

    /** `_generate_readings` for a span of at most a day: the walk from the
        start's hour, then the flush of what is left in the cache. */
    method GenerateWithin(accts: seq<Account>, c: int, next: int, rng: Rng) returns (out: seq<Reading>)
      modifies this
      ensures Snap() == Within(old(Snap()), accts, c, next, rng).0 && out == Within(old(Snap()), accts, c, next, rng).1
    {
      out := RunWalk(accts, TruncateToHour(c), next, rng);
      if cache != [] {
        ProcessDailyData(DayOf(cache[|cache| - 1].time));
      }
    }

    /** A pass of the walk loop in hour 0: flush the previous day (from
        2024-05-01 on), archive on the first of a month, and go on from
        hour 1. */
    method MaintenanceHour(accts: seq<Account>, cur: int, minute: int, next: int, rng: Rng)
      requires cur <= next && minute < 60
      modifies this
      ensures WalkFrom(old(Snap()), accts, cur, minute, next, rng) == WalkFrom(Snap(), accts, cur + 60, minute + 60, next, rng)
    {
      if DayOf(cur - 1) >= 0 {
        ProcessDailyData(DayOf(cur - 1));
      }
      if ToCivil(cur).date.day == 1 {
        ArchiveAndPrepare(cur);
      }
    }

    /** A pass of the walk loop outside hour 0: one reading per account half
        an hour on. */
    method ReadingTick(accts: seq<Account>, cur: int, minute: int, next: int, rng: Rng) returns (o: seq<Reading>)
      requires cur <= next && 60 <= minute
      requires cur + 30 <= next && minute + 30 < 1440
      modifies this
      ensures WalkFrom(old(Snap()), accts, cur, minute, next, rng).0 == WalkFrom(Snap(), accts, cur + 30, minute + 30, next, rng).0
      ensures WalkFrom(old(Snap()), accts, cur, minute, next, rng).1 == o + WalkFrom(Snap(), accts, cur + 30, minute + 30, next, rng).1
    {
      o := EmitTick(accts, cur + 30, rng);
    }

    /** One day of a long span: the readings of its first sub-span, after
        which the rest of the span is still to come. */
    method GenerateDay(accts: seq<Account>, cur: int, n: int, rng: Rng) returns (o: seq<Reading>)
      requires cur < n
      modifies this
      ensures Spans(old(Snap()), accts, SubSpans(cur, n), rng).0 == Spans(Snap(), accts, SubSpans(cur + 1440, n), rng).0
      ensures Spans(old(Snap()), accts, SubSpans(cur, n), rng).1 == o + Spans(Snap(), accts, SubSpans(cur + 1440, n), rng).1
    {
      SpansStep(Snap(), accts, cur, n, rng);
      o := GenerateWithin(accts, cur, Min(cur + 1440, n), rng);
    }

    /** The day-by-day loop over a long span (and over a months span). */
    method GenerateDays(accts: seq<Account>, c: int, n: int, rng: Rng) returns (out: seq<Reading>)
      modifies this
      ensures Snap() == Spans(old(Snap()), accts, SubSpans(c, n), rng).0 && out == Spans(old(Snap()), accts, SubSpans(c, n), rng).1
    {
      var cur := c;
      out := [];
      ghost var g := Spans(Snap(), accts, SubSpans(c, n), rng);
      ghost var rest := g;
      assert g.1 == [] + rest.1;
      while cur < n
        invariant rest == Spans(Snap(), accts, SubSpans(cur, n), rng)
        invariant g.0 == rest.0 && g.1 == out + rest.1
        decreases n - cur
      {
        var o := GenerateDay(accts, cur, n, rng);
        ghost var after := Spans(Snap(), accts, SubSpans(cur + 1440, n), rng);
        Reassociate(out, o, after.1);
        out := out + o;
        cur := cur + 1440;
        rest := after;
      }
      assert out + [] == out;
    }

    /** `_generate_readings`. */
    method GenerateReadings(accts: seq<Account>, c: int, n: int, rng: Rng) returns (out: seq<Reading>)
      modifies this
      ensures Snap() == Generate(old(Snap()), accts, c, n, rng).0 && out == Generate(old(Snap()), accts, c, n, rng).1
    {
      if n - c > 1440 {
        out := GenerateDays(accts, c, n, rng);
      } else {
        out := GenerateWithin(accts, c, n, rng);
      }
    }

    /** `collect_readings(unit, amount)`. */
    method CollectReadings(unit: string, amount: int, rng: Rng) returns (r: Result<Summary>)
      requires Valid()
      modifies this
      ensures Snap() == Collect(old(Snap()), unit, amount, rng).0 && r == Collect(old(Snap()), unit, amount, rng).1
      ensures Valid()
    {
      CollectKeepsInv(Snap(), unit, amount, rng);
      if accounts == [] {
        return Err(NoAccounts);
      }
      var nt := NextTime(clock, unit, amount);
      if nt.Err? {
        return Err(nt.error);
      }
      var from := clock;
      var next := nt.value;
      var out;
      if unit == "months" {
        out := GenerateDays(accounts, from, next, rng);
      } else {
        out := GenerateReadings(accounts, from, next, rng);
      }
      clock := next;
      r := Ok(Summary(from, next, |out|, out[..Min(3, |out|)]));
    }

    /** `register_meter(id, area, dwelling)`. */
    method RegisterMeter(id: string, area: string, dwelling: string) returns (r: Result<Account>)
      requires Valid()
      modifies this
      ensures Snap() == Register(old(Snap()), id, area, dwelling).0 && r == Register(old(Snap()), id, area, dwelling).1
      ensures Valid()
    {
      RegisterKeepsInv(Snap(), id, area, dwelling);
      var duplicate := AnyHasId(accounts, id);
      if duplicate {
        return Err(DuplicateMeter);
      }
      var a := Account(id, area, dwelling, clock);
      accounts := accounts + [a];
      latest := latest[id := 0.0];
      cache := cache + [Reading(id, clock, 0.0)];
      r := Ok(a);
    }

    /** `reset_system()`. */
    method ResetSystem() returns (ok: bool)
      modifies this
      ensures Snap() == Reset(old(Snap())) && ok
      ensures Valid()
    {
      daily := map[];
      monthly := map[];
      accounts := [];
      clock := 0;
      latest := map[];
      cache := [];
      ok := true;
    }
  }
}
