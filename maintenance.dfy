/** The nightly maintenance: what the daily flush writes, what the retention
    cleanup removes, when the monthly archive runs, and the layout of the
    daily store that all of them keep. */
module Maintenance {
  import opened Results
  import opened Calendar
  import opened MonthDirs
  import opened Meters
  import opened Aggregates
  import opened Engine

  /* ---- Daily flush ---- */

  /** The rows a day's file held before a flush. */
  function Previous(daily: DailyStore, day: int): seq<Row> {
    var files := FilesIn(daily, DailyDirOf(day));
    if day in files then files[day] else []
  }

  /** A flush of a non-empty cache writes the cached readings, dated with the
      flush day, to the end of that day's file in its month's directory: the
      file starts afresh on the first of a month and keeps its earlier rows on
      any other day. No other file changes. */
  lemma FlushFile(s: State, day: int)
    requires s.cache != []
    ensures var r := Flush(s, day).daily;
            var dir := DailyDirOf(day);
            && dir in r && day in r[dir]
            && r[dir][day] == (if DateOfDay(day).day == 1 then [] else Previous(s.daily, day)) + RowsOf(s.cache, day)
            && |r[dir][day]| == |s.cache| + (if DateOfDay(day).day == 1 then 0 else |Previous(s.daily, day)|)
            && (forall d :: d != dir ==> (d in r <==> d in s.daily) && (d in s.daily ==> r[d] == s.daily[d]))
            && (forall x :: x != day ==> (x in r[dir] <==> x in FilesIn(s.daily, dir)) && (x in r[dir] ==> r[dir][x] == FilesIn(s.daily, dir)[x]))
  {
  }

  /** A second flush straight after the first changes nothing: the cache is
      already empty. */
  lemma FlushTwice(s: State, a: int, b: int)
    ensures Flush(Flush(s, a), b) == Flush(s, a)
  {
  }

  lemma FlushKeepsLayout(s: State, day: int)
    requires FilesInOwnDir(s.daily)
    ensures FilesInOwnDir(Flush(s, day).daily)
  {
    if s.cache != [] {
      var dir := DailyDirOf(day);
      var files := FilesIn(s.daily, dir);
      var prior := if DateOfDay(day).day != 1 && day in files then files[day] else [];
      var rows := prior + RowsOf(s.cache, day);
      assert Flush(s, day).daily == s.daily[dir := files[day := rows]];
      DatedRows(prior, s.cache, day);
      WriteKeepsLayout(s.daily, day, rows);
    }
  }

  lemma DatedRows(prior: seq<Row>, cache: seq<Reading>, day: int)
    requires forall k :: 0 <= k < |prior| ==> prior[k].day == day
    ensures forall k :: 0 <= k < |prior + RowsOf(cache, day)| ==> (prior + RowsOf(cache, day))[k].day == day
  {
  }

  lemma FinalFlushKeepsLayout(s: State)
    requires FilesInOwnDir(s.daily)
    ensures FilesInOwnDir(FinalFlush(s).daily)
  {
    if s.cache != [] {
      FlushKeepsLayout(s, DayOf(s.cache[|s.cache| - 1].time));
    }
  }

  /** Writing a file of rows dated with its own day, in its own month's
      directory, keeps the layout. */
  lemma WriteKeepsLayout(daily: DailyStore, day: int, rows: seq<Row>)
    requires FilesInOwnDir(daily)
    requires forall k :: 0 <= k < |rows| ==> rows[k].day == day
    ensures FilesInOwnDir(daily[DailyDirOf(day) := FilesIn(daily, DailyDirOf(day))[day := rows]])
  {
    var dir := DailyDirOf(day);
    var r: DailyStore := daily[dir := FilesIn(daily, dir)[day := rows]];
    forall d: string, x: int | d in r && x in r[d]
      ensures d == DailyDirOf(x) && forall k :: 0 <= k < |r[d][x]| ==> r[d][x][k].day == x
    {
      if d == dir && x != day {
        assert x in daily[dir];
      }
    }
  }

  /* ---- Retention cleanup ---- */

  /** Cleanup removes exactly the directories whose names parse to a month
      from 2024-05 up to but not including `lmf`: names that do not parse,
      months before 2024-05 and months from `lmf` on stay with their files. */
  lemma CleanupExact(daily: DailyStore, lmf: YearMonth)
    ensures var r := Cleanup(daily, lmf);
            forall name :: name in r <==>
              && name in daily
              && (|| ParseMonthDir(name).None?
                  || MonthIndex(ParseMonthDir(name).value) < MonthIndex(EpochMonth)
                  || MonthIndex(lmf) <= MonthIndex(ParseMonthDir(name).value))
    ensures forall name :: name in Cleanup(daily, lmf) ==> Cleanup(daily, lmf)[name] == daily[name]
  {
  }

  /** Cleaning up twice with the same boundary is cleaning up once. */
  lemma CleanupIdempotent(daily: DailyStore, lmf: YearMonth)
    ensures Cleanup(Cleanup(daily, lmf), lmf) == Cleanup(daily, lmf)
  {
  }

  /** Two cleanups in a row act as one with the later boundary. */
  lemma CleanupTwice(daily: DailyStore, a: YearMonth, b: YearMonth)
    ensures Cleanup(Cleanup(daily, a), b) == Cleanup(daily, if MonthIndex(a) <= MonthIndex(b) then b else a)
  {
  }

  lemma CleanupKeepsLayout(daily: DailyStore, lmf: YearMonth)
    requires FilesInOwnDir(daily)
    ensures FilesInOwnDir(Cleanup(daily, lmf))
  {
  }

  /* ---- Monthly archive ---- */

  /** The archiver's day arithmetic steps back whole months: the cleanup
      boundary is the month before `t`'s, the archived month the one before
      that. */
  lemma ArchiveMonths(t: int)
    ensures MonthIndex(LastMonthOf(t)) == MonthIndex(MonthOf(ToCivil(t).date)) - 1
    ensures MonthIndex(ArchiveMonthOf(t)) == MonthIndex(MonthOf(ToCivil(t).date)) - 2
    ensures 1 <= ArchiveMonthOf(t).month <= 12
  {
  }

  /** The gate: with fewer than two available months, or when the month two
      before `t`'s is before 2024-05, the archiver changes nothing. */
  lemma ArchiveGate(s: State, t: int)
    requires |AvailableMonths(s.daily)| < 2 || MonthIndex(MonthOf(ToCivil(t).date)) - 2 < MonthIndex(EpochMonth)
    ensures Archive(s, t) == s
  {
    ArchiveMonths(t);
  }

  /** Once the gate passes, the daily store afterwards is the cleanup of the
      store before, at the month before `t`'s: the archived month's directory,
      created if missing, is itself removed by the cleanup. */
  lemma ArchiveCleansDaily(s: State, t: int)
    requires |AvailableMonths(s.daily)| >= 2
    requires MonthIndex(MonthOf(ToCivil(t).date)) - 2 >= MonthIndex(EpochMonth)
    requires ToCivil(t).date.year <= 9999
    ensures Archive(s, t).daily == Cleanup(s.daily, LastMonthOf(t))
  {
    ArchiveMonths(t);
    var n2 := ArchiveMonthOf(t);
    var name := FormatMonthDir(n2);
    ParseFormat(n2);
    assert Doomed(name, LastMonthOf(t));
    assert Cleanup(s.daily[name := FilesIn(s.daily, name)], LastMonthOf(t)) == Cleanup(s.daily, LastMonthOf(t));
  }

  /* ---- The archive reads the whole month directory ---- */

  /** The rows dated `d`, in their order. */
  function OnDay(rows: seq<Row>, d: int): (out: seq<Row>)
    ensures forall k :: 0 <= k < |out| ==> out[k].day == d
    ensures |out| <= |rows|
  {
    if rows == [] then []
    else OnDay(rows[..|rows| - 1], d) + (if rows[|rows| - 1].day == d then [rows[|rows| - 1]] else [])
  }

  lemma {:induction false} OnDayAppend(a: seq<Row>, b: seq<Row>, d: int)
    ensures OnDay(a + b, d) == OnDay(a, d) + OnDay(b, d)
    decreases |b|
  {
    if b != [] {
      var n := |b| - 1;
      assert (a + b)[..|a + b| - 1] == a + b[..n];
      assert (a + b)[|a + b| - 1] == b[n];
      OnDayAppend(a, b[..n], d);
    } else {
      assert a + b == a;
    }
  }

  /** Filtering rows that are all dated `d` keeps them all; filtering them by
      another day keeps none. */
  lemma {:induction false} OnDayOfOneDay(rows: seq<Row>, d: int, x: int)
    requires forall k :: 0 <= k < |rows| ==> rows[k].day == d
    ensures OnDay(rows, x) == if x == d then rows else []
    decreases |rows|
  {
    if rows != [] {
      var n := |rows| - 1;
      OnDayOfOneDay(rows[..n], d, x);
      assert rows[..n] + [rows[n]] == rows;
    }
  }

  /** Files each of whose rows carry the file's own day. */
  predicate FilesOwnDays(files: map<int, seq<Row>>) {
    forall y, k :: y in files && 0 <= k < |files[y]| ==> files[y][k].day == y
  }

  /** Reading days `first` .. `first + count - 1` gives, for each day in that
      range, exactly that day's file, and nothing for any other day. */
  lemma {:induction false} MonthRowsOnDay(files: map<int, seq<Row>>, first: int, count: nat, x: int)
    requires FilesOwnDays(files)
    ensures OnDay(MonthRows(files, first, count), x) == if first <= x < first + count && x in files then files[x] else []
    decreases count
  {
    if count > 0 {
      var y := first + count - 1;
      var f := if y in files then files[y] else [];
      var front := MonthRows(files, first, count - 1);
      assert MonthRows(files, first, count) == front + f;
      MonthRowsOnDay(files, first, count - 1, x);
      OnDayAppend(front, f, x);
      assert forall k :: 0 <= k < |f| ==> f[k].day == y;
      OnDayOfOneDay(f, y, x);
      if x == y {
        assert OnDay(front, x) == [];
        assert [] + f == f;
      } else {
        assert OnDay(front, x) + [] == OnDay(front, x);
      }
    }
  }

  /** The files of any one directory of a well-laid-out store carry their own days. */
  lemma DirFilesOwnDays(daily: DailyStore, dir: string)
    requires FilesInOwnDir(daily)
    ensures FilesOwnDays(FilesIn(daily, dir))
  {
    forall y, k | y in FilesIn(daily, dir) && 0 <= k < |FilesIn(daily, dir)[y]|
      ensures FilesIn(daily, dir)[y][k].day == y
    {
      assert dir in daily && y in daily[dir];
      assert dir == DailyDirOf(y);
      assert forall j :: 0 <= j < |daily[dir][y]| ==> daily[dir][y][j].day == y;
    }
  }

  /** A file in month `ym`'s directory is a day of `ym`. */
  lemma FileDayInMonth(daily: DailyStore, ym: YearMonth, x: int)
    requires FilesInOwnDir(daily)
    requires 1 <= ym.year <= 9999 && 1 <= ym.month <= 12
    requires x in FilesIn(daily, FormatMonthDir(ym)) && 1 <= DateOfDay(x).year <= 9999
    ensures DayNumber(FirstOfMonth(ym)) <= x < DayNumber(FirstOfMonth(ym)) + DaysInMonth(ym.year, ym.month)
  {
    var dt := DateOfDay(x);
    assert FormatMonthDir(ym) == DailyDirOf(x);
    FormatInjective(MonthOf(dt), ym);
    DayNumberOfDate(x);
    assert dt == Date(ym.year, ym.month, dt.day);
    assert DayNumber(dt) == DayNumber(FirstOfMonth(ym)) + dt.day - 1;
  }

  /** Every key of the files of month `ym`'s directory is a day of `ym`, so the
      day-by-day read of the month covers every file there: the archive holds,
      for each file, exactly its rows, and no row from anywhere else. Python's
      dates stop at year 9999, beyond which two months share a name. */
  lemma ArchiveReadsEveryFile(daily: DailyStore, ym: YearMonth)
    requires FilesInOwnDir(daily)
    requires 1 <= ym.year <= 9999 && 1 <= ym.month <= 12
    requires forall x :: x in FilesIn(daily, FormatMonthDir(ym)) ==> 1 <= DateOfDay(x).year <= 9999
    ensures var files := FilesIn(daily, FormatMonthDir(ym));
            var first := DayNumber(FirstOfMonth(ym));
            && (forall x :: x in files ==> first <= x < first + DaysInMonth(ym.year, ym.month))
            && (forall x :: x in files ==> OnDay(ArchiveRows(daily, ym), x) == files[x])
            && (forall x :: x !in files ==> OnDay(ArchiveRows(daily, ym), x) == [])
  {
    var files := FilesIn(daily, FormatMonthDir(ym));
    var first := DayNumber(FirstOfMonth(ym));
    var count := DaysInMonth(ym.year, ym.month);
    DirFilesOwnDays(daily, FormatMonthDir(ym));
    forall x
      ensures x in files ==> first <= x < first + count
      ensures OnDay(ArchiveRows(daily, ym), x) == if x in files then files[x] else []
    {
      if x in files {
        FileDayInMonth(daily, ym, x);
      }
      MonthRowsOnDay(files, first, count, x);
    }
  }

  /** Some registered meter has rows. */
  predicate HasRegisteredRows(rows: seq<Row>, reg: Registry) {
    exists id :: HasMeter(rows, id) && id in reg.byId
  }

  /** The monthly consumption and the area summary are empty exactly when no
      registered meter has rows. */
  lemma SummariesEmptyWhen(rows: seq<Row>, reg: Registry, ym: YearMonth)
    requires WellFormed(reg)
    ensures MonthlyConsumption(rows, reg) != map[] <==> HasRegisteredRows(rows, reg)
    ensures AreaMonthlySummary(rows, reg, ym) != map[] <==> HasRegisteredRows(rows, reg)
  {
    var mc := MonthlyConsumption(rows, reg);
    var am := AreaMonthlySummary(rows, reg, ym);
    MonthlyConsumptionKeys(rows, reg);
    AreaMonthlySummaryKeys(rows, reg, ym);
    if HasRegisteredRows(rows, reg) {
      var id :| HasMeter(rows, id) && id in reg.byId;
      assert id in mc;
      assert reg.byId[id].area in am;
    } else {
      assert mc == map[];
      assert am == map[];
    }
  }

  /** The consumption and area files are written exactly when a registered
      meter has rows; otherwise the earlier files stay. */
  lemma WriteAggregatesWhen(prior: MonthlyDir, rows: seq<Row>, reg: Registry, ym: YearMonth)
    requires WellFormed(reg) && 1 <= ym.month <= 12
    ensures var w := WriteAggregates(prior, rows, reg, ym);
            && (HasRegisteredRows(rows, reg) ==>
                  w.consumption == Some(MonthlyConsumption(rows, reg)) && w.areas == Some(AreaMonthlySummary(rows, reg, ym)))
            && (!HasRegisteredRows(rows, reg) ==>
                  w.consumption == prior.consumption && w.areas == prior.areas)
  {
    SummariesEmptyWhen(rows, reg, ym);
  }

  /** Once the gate passes, the archived month's directory holds the monthly
      consumption of its rows whenever a registered meter has rows there, and
      the area summary likewise; files with nothing to write are left as they
      were, and no other month directory changes. */
  lemma ArchiveWritesSummaries(s: State, t: int)
    requires |AvailableMonths(s.daily)| >= 2
    requires MonthIndex(MonthOf(ToCivil(t).date)) - 2 >= MonthIndex(EpochMonth)
    ensures var n2 := ArchiveMonthOf(t);
            var name := FormatMonthDir(n2);
            var rows := ArchiveRows(s.daily, n2);
            var reg := ToRegistry(s.accounts);
            var prior := if name in s.monthly then s.monthly[name] else EmptyMonthlyDir;
            Archive(s, t).monthly == s.monthly[name := WriteAggregates(prior, rows, reg, n2)]
  {
    ArchiveMonths(t);
  }

  /** Making sure a directory exists keeps the layout. */
  lemma TouchKeepsLayout(daily: DailyStore, name: string)
    requires FilesInOwnDir(daily)
    ensures FilesInOwnDir(daily[name := FilesIn(daily, name)])
  {
    if name in daily {
      assert daily[name := FilesIn(daily, name)] == daily;
    } else {
      var d1: DailyStore := daily[name := map[]];
      forall dir: string, day: int | dir in d1 && day in d1[dir]
        ensures dir == DailyDirOf(day) && forall k :: 0 <= k < |d1[dir][day]| ==> d1[dir][day][k].day == day
      {
        assert dir != name && d1[dir] == daily[dir];
      }
    }
  }

  lemma ArchiveKeepsLayout(s: State, t: int)
    requires FilesInOwnDir(s.daily)
    ensures FilesInOwnDir(Archive(s, t).daily)
  {
    var r := Archive(s, t);
    if r != s && MonthIndex(ArchiveMonthOf(t)) >= MonthIndex(EpochMonth) {
      var name := FormatMonthDir(ArchiveMonthOf(t));
      var d1 := s.daily[name := FilesIn(s.daily, name)];
      TouchKeepsLayout(s.daily, name);
      CleanupKeepsLayout(d1, LastMonthOf(t));
    }
  }

  lemma MaintainKeepsLayout(s: State, c: int)
    requires FilesInOwnDir(s.daily)
    ensures FilesInOwnDir(Maintain(s, c).daily)
  {
    var s1 := if DayOf(c - 1) >= 0 then Flush(s, DayOf(c - 1)) else s;
    if DayOf(c - 1) >= 0 {
      FlushKeepsLayout(s, DayOf(c - 1));
    }
    ArchiveKeepsLayout(s1, c);
  }
}
