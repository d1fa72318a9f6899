/** The simulated-clock engine of `SmartMeterSystem` as functions on a whole
    state: the walk over the reading grid, the nightly maintenance (daily
    flush and monthly archive), retention cleanup, reading collection and
    meter registration. */
module Engine {
  import opened Results
  import opened Calendar
  import opened MonthDirs
  import opened Meters
  import opened Aggregates
  import opened Increments
  import opened Ticks

  /** A draw of `random.uniform(0, 1)`. */
  type Unit = x: real | 0.0 <= x <= 1.0

  /** The random source, as the sequence of its draws. */
  type Rng = nat -> Unit

  /** The daily-readings directory: month directory name -> day number of a
      `readings_YYYYMMDD.csv` file -> the rows of that file, in file order. */
  type DailyStore = map<string, map<int, seq<Row>>>

  /** The files of one month-readings directory, None while not written:
      `monthly_summary_*`, `area_analysis_*` and `area_monthly_summary_*`. */
  datatype MonthlyDir = MonthlyDir(
    consumption: Option<map<string, real>>,
    analysis: Option<seq<AnalysisRow>>,
    areas: Option<map<string, AreaRow>>)

  const EmptyMonthlyDir: MonthlyDir := MonthlyDir(None, None, None)

  /** Everything the engine keeps: the saved clock, the account file, the two
      in-memory caches, the number of random draws taken, and the two data
      directories. */
  datatype State = State(
    clock: int,
    accounts: seq<Account>,
    latest: map<string, real>,
    cache: seq<Reading>,
    draws: nat,
    daily: DailyStore,
    monthly: map<string, MonthlyDir>)

  /* ---- One reading per account ---- */

  /** The body of the tick loop: each account in list order gets its latest
      value plus the next random draw, which becomes its latest value and is
      cached and returned. */
  function Emit(s: State, accts: seq<Account>, t: int, rng: Rng): (State, seq<Reading>)
    decreases |accts|
  {
    if accts == [] then (s, [])
    else
      var id := accts[0].meterId;
      var rd := Reading(id, t, Get(s.latest, id) + rng(s.draws));
      var s1 := s.(latest := s.latest[id := rd.value], cache := s.cache + [rd], draws := s.draws + 1);
      var rest := Emit(s1, accts[1..], t, rng);
      (rest.0, [rd] + rest.1)
  }

  /** A tick yields one reading per account, in list order, at the tick's
      instant. */
  lemma {:induction false} EmitTagsShape(s: State, accts: seq<Account>, t: int, rng: Rng)
    ensures |Emit(s, accts, t, rng).1| == |accts|
    ensures forall k :: 0 <= k < |accts| ==>
              Emit(s, accts, t, rng).1[k].meter == accts[k].meterId && Emit(s, accts, t, rng).1[k].time == t
    decreases |accts|
  {
    if accts != [] {
      var id := accts[0].meterId;
      var rd := Reading(id, t, Get(s.latest, id) + rng(s.draws));
      var s1 := s.(latest := s.latest[id := rd.value], cache := s.cache + [rd], draws := s.draws + 1);
      EmitTagsShape(s1, accts[1..], t, rng);
      var out := Emit(s, accts, t, rng).1;
      assert out == [rd] + Emit(s1, accts[1..], t, rng).1;
      forall k | 1 <= k < |accts|
        ensures out[k].meter == accts[k].meterId && out[k].time == t
      {
        assert accts[k] == accts[1..][k - 1];
      }
    }
  }

  /** The readings of a tick are cached, become the latest values, and take
      one draw each; nothing else changes. */
  lemma EmitShape(s: State, accts: seq<Account>, t: int, rng: Rng)
    ensures var r := Emit(s, accts, t, rng);
            r.0 == s.(latest := Replay(s.latest, r.1), cache := s.cache + r.1, draws := s.draws + |accts|)
  {
    EmitFrame(s, accts, t, rng);
    EmitLatest(s, accts, t, rng);
    EmitCache(s, accts, t, rng);
  }

  lemma {:induction false} EmitFrame(s: State, accts: seq<Account>, t: int, rng: Rng)
    ensures var r := Emit(s, accts, t, rng).0;
            r == s.(latest := r.latest, cache := r.cache, draws := s.draws + |accts|)
    decreases |accts|
  {
    if accts != [] {
      var id := accts[0].meterId;
      var rd := Reading(id, t, Get(s.latest, id) + rng(s.draws));
      var s1 := s.(latest := s.latest[id := rd.value], cache := s.cache + [rd], draws := s.draws + 1);
      EmitFrame(s1, accts[1..], t, rng);
    }
  }

  lemma {:induction false} EmitLatest(s: State, accts: seq<Account>, t: int, rng: Rng)
    ensures Emit(s, accts, t, rng).0.latest == Replay(s.latest, Emit(s, accts, t, rng).1)
    decreases |accts|
  {
    if accts != [] {
      var id := accts[0].meterId;
      var rd := Reading(id, t, Get(s.latest, id) + rng(s.draws));
      var s1 := s.(latest := s.latest[id := rd.value], cache := s.cache + [rd], draws := s.draws + 1);
      EmitLatest(s1, accts[1..], t, rng);
      EmitStep(s.latest, rd, Emit(s1, accts[1..], t, rng).1);
    }
  }

  lemma {:induction false} EmitCache(s: State, accts: seq<Account>, t: int, rng: Rng)
    ensures Emit(s, accts, t, rng).0.cache == s.cache + Emit(s, accts, t, rng).1
    decreases |accts|
  {
    if accts != [] {
      var id := accts[0].meterId;
      var rd := Reading(id, t, Get(s.latest, id) + rng(s.draws));
      var s1 := s.(latest := s.latest[id := rd.value], cache := s.cache + [rd], draws := s.draws + 1);
      var rest := Emit(s1, accts[1..], t, rng).1;
      EmitCache(s1, accts[1..], t, rng);
      assert s.cache + ([rd] + rest) == s1.cache + rest;
    }
  }

  /** The `k`-th reading of a tick is its meter's latest value after the
      readings before it plus the `k`-th draw of the tick, so each reading
      advances its meter by an amount in [0, 1]. */
  lemma EmitValues(s: State, accts: seq<Account>, t: int, rng: Rng)
    ensures var out := Emit(s, accts, t, rng).1;
            forall k :: 0 <= k < |accts| ==>
              k < |out| && out[k].value == Get(Replay(s.latest, out[..k]), accts[k].meterId) + rng(s.draws + k)
  {
    var out := Emit(s, accts, t, rng).1;
    EmitTagsShape(s, accts, t, rng);
    forall k | 0 <= k < |accts|
      ensures out[k].value == Get(Replay(s.latest, out[..k]), accts[k].meterId) + rng(s.draws + k)
    {
      EmitValueAt(s, accts, t, rng, k);
    }
  }

  lemma {:induction false} EmitValueAt(s: State, accts: seq<Account>, t: int, rng: Rng, k: int)
    requires 0 <= k < |accts|
    ensures var out := Emit(s, accts, t, rng).1;
            k < |out| && out[k].value == Get(Replay(s.latest, out[..k]), accts[k].meterId) + rng(s.draws + k)
    decreases k
  {
    var id := accts[0].meterId;
    var rd := Reading(id, t, Get(s.latest, id) + rng(s.draws));
    var s1 := s.(latest := s.latest[id := rd.value], cache := s.cache + [rd], draws := s.draws + 1);
    var rest := Emit(s1, accts[1..], t, rng).1;
    var out := Emit(s, accts, t, rng).1;
    assert out == [rd] + rest;
    if k == 0 {
      assert out[..0] == [];
    } else {
      EmitValueAt(s1, accts[1..], t, rng, k - 1);
      assert out[..k] == [rd] + rest[..k - 1];
      EmitStep(s.latest, rd, rest[..k - 1]);
      assert accts[k] == accts[1..][k - 1];
    }
  }

  /** So each reading of a tick advances its meter by an amount in [0, 1]. */
  lemma {:induction false} EmitSteps(s: State, accts: seq<Account>, t: int, rng: Rng)
    ensures Steps(s.latest, Emit(s, accts, t, rng).1)
    decreases |accts|
  {
    if accts != [] {
      var id := accts[0].meterId;
      var rd := Reading(id, t, Get(s.latest, id) + rng(s.draws));
      var s1 := s.(latest := s.latest[id := rd.value], cache := s.cache + [rd], draws := s.draws + 1);
      var rest := Emit(s1, accts[1..], t, rng).1;
      EmitSteps(s1, accts[1..], t, rng);
      assert ([rd] + rest)[1..] == rest;
    }
  }

  /** Replaying a run that starts with `rd` is replaying the rest from the
      value `rd` sets. */
  lemma EmitStep(latest: map<string, real>, rd: Reading, rest: seq<Reading>)
    ensures Replay(latest, [rd] + rest) == Replay(latest[rd.meter := rd.value], rest)
  {
    assert ([rd] + rest)[1..] == rest;
  }


  /* ---- Daily flush ---- */

  /** The month directory a day's file lives in. */
  function DailyDirOf(day: int): string {
    FormatMonthDir(MonthOf(DateOfDay(day)))
  }

  /** The files of a month directory; a missing directory has none. */
  function FilesIn(daily: DailyStore, dir: string): map<int, seq<Row>> {
    if dir in daily then daily[dir] else map[]
  }

  /** A cached reading as a row of the file of day `day`: the flush day's
      date, and the reading's own time of day. */
  function RowOf(rd: Reading, day: int): Row {
    Row(day, rd.time % 1440, rd.meter, rd.value)
  }

  function RowsOf(cache: seq<Reading>, day: int): seq<Row> {
    seq(|cache|, k requires 0 <= k < |cache| => RowOf(cache[k], day))
  }

  /** `_process_daily_data`: nothing on an empty cache; otherwise the cache
      becomes rows of the flush day's file, which is overwritten on the first
      of a month and appended to (or created) on other days, and the cache is
      cleared. */
  function Flush(s: State, day: int): (r: State)
    ensures s.cache == [] ==> r == s
    ensures s.cache != [] ==> r == s.(daily := r.daily, cache := [])
  {
    if s.cache == [] then s
    else
      var dir := DailyDirOf(day);
      var files := FilesIn(s.daily, dir);
      var prior := if DateOfDay(day).day != 1 && day in files then files[day] else [];
      s.(daily := s.daily[dir := files[day := prior + RowsOf(s.cache, day)]], cache := [])
  }

  /* ---- Retention cleanup ---- */

  /** A directory name that parses to a month from 2024-05 on. */
  predicate Qualifies(name: string) {
    ParseMonthDir(name).Some? && MonthIndex(ParseMonthDir(name).value) >= MonthIndex(EpochMonth)
  }

  /** The directory names the archiver counts as available months. */
  function AvailableMonths(daily: DailyStore): set<string> {
    set name | name in daily && Qualifies(name)
  }

  /** A directory `_cleanup_old_readings` removes: it parses to a month from
      2024-05 on that is before `lmf`. */
  predicate Doomed(name: string, lmf: YearMonth) {
    Qualifies(name) && MonthIndex(ParseMonthDir(name).value) < MonthIndex(lmf)
  }

  /** `_cleanup_old_readings(lmf)` on the daily store. */
  function Cleanup(daily: DailyStore, lmf: YearMonth): DailyStore {
    map name | name in daily && !Doomed(name, lmf) :: daily[name]
  }

  /* ---- Monthly archive ---- */

  /** `(first_of_month - timedelta(days=1)).replace(day=1)`: the month of the
      day before the first of `ym`. */
  function StepBack(ym: YearMonth): (p: YearMonth)
    requires 1 <= ym.month <= 12
    ensures p == PrevMonth(ym)
  {
    PrevDateOfFirst(ym);
    MonthOf(PrevDate(FirstOfMonth(ym)))
  }

  /** The rows of a month's files, read day by day from its first day. */
  function MonthRows(files: map<int, seq<Row>>, first: int, count: nat): seq<Row>
    decreases count
  {
    if count == 0 then []
    else MonthRows(files, first, count - 1) + (if first + count - 1 in files then files[first + count - 1] else [])
  }

  /** The three summaries of month `ym`, each written only when it has rows. */
  function WriteAggregates(prior: MonthlyDir, rows: seq<Row>, reg: Registry, ym: YearMonth): MonthlyDir
    requires WellFormed(reg) && 1 <= ym.month <= 12
  {
    var mc := MonthlyConsumption(rows, reg);
    var aa := AreaAnalysis(rows, reg, ym);
    var am := AreaMonthlySummary(rows, reg, ym);
    MonthlyDir(
      if mc != map[] then Some(mc) else prior.consumption,
      if aa != [] then Some(aa) else prior.analysis,
      if am != map[] then Some(am) else prior.areas)
  }

  /** `last_month_first`: the month before the month of instant `t`. */
  function LastMonthOf(t: int): YearMonth {
    StepBack(MonthOf(ToCivil(t).date))
  }

  /** `month_to_process`: the month before that. */
  function ArchiveMonthOf(t: int): YearMonth {
    StepBack(LastMonthOf(t))
  }

  /** The rows of all daily files of month `ym`, read day by day. */
  function ArchiveRows(daily: DailyStore, ym: YearMonth): seq<Row>
    requires 1 <= ym.month <= 12
  {
    MonthRows(FilesIn(daily, FormatMonthDir(ym)), DayNumber(FirstOfMonth(ym)), DaysInMonth(ym.year, ym.month))
  }

  /** `_archive_and_prepare_monthly_data(t)`: unless fewer than two available
      months exist or the month two before `t`'s is before 2024-05, summarise
      that month's daily files into its month-readings directory (both
      directories are created if missing) and then remove the daily
      directories of the months from 2024-05 up to the month before `t`'s. */
  function Archive(s: State, t: int): (r: State)
    ensures r == s.(daily := r.daily, monthly := r.monthly)
  {
    var lmf := LastMonthOf(t);
    if |AvailableMonths(s.daily)| < 2 then s
    else
      var n2 := ArchiveMonthOf(t);
      if MonthIndex(n2) < MonthIndex(EpochMonth) then s
      else
        var name := FormatMonthDir(n2);
        var prior := if name in s.monthly then s.monthly[name] else EmptyMonthlyDir;
        var written := WriteAggregates(prior, ArchiveRows(s.daily, n2), ToRegistry(s.accounts), n2);
        s.(daily := Cleanup(s.daily[name := FilesIn(s.daily, name)], lmf), monthly := s.monthly[name := written])
  }

  /* ---- The walk over one span ---- */

  /** The maintenance hour at `c` (hour 0): flush the previous day's cache
      when that day is not before 2024-05-01, and archive on the first of a
      month. */
  function Maintain(s: State, c: int): (r: State)
    ensures r == s.(daily := r.daily, monthly := r.monthly, cache := r.cache)
  {
    var s1 := if DayOf(c - 1) >= 0 then Flush(s, DayOf(c - 1)) else s;
    if ToCivil(c).date.day == 1 then Archive(s1, c) else s1
  }

  /** The `while current <= next_time` loop of `_generate_readings`. */
  function Walk(s: State, accts: seq<Account>, c: int, next: int, rng: Rng): (r: (State, seq<Reading>))
    ensures r.0.accounts == s.accounts && r.0.clock == s.clock
    decreases next - c, 1
  {
    if c > next then (s, [])
    else if HourOf(c) == 0 then MaintainAndWalk(s, accts, c, next, rng)
    else
      var t := c + 30;
      if t > next || HourOf(t) == 0 then (s, [])
      else
        var e := Emit(s, accts, t, rng);
        EmitShape(s, accts, t, rng);
        var w := Walk(e.0, accts, t, next, rng);
        (w.0, e.1 + w.1)
  }

  /** A pass of the walk in hour 0: maintenance, then the walk from an hour
      later. */
  function MaintainAndWalk(s: State, accts: seq<Account>, c: int, next: int, rng: Rng): (r: (State, seq<Reading>))
    requires c <= next
    ensures r.0.accounts == s.accounts && r.0.clock == s.clock
    decreases next - c, 0
  {
    Walk(Maintain(s, c), accts, c + 60, next, rng)
  }

  /** The flush after the loop, dated by the last cached reading. */
  function FinalFlush(s: State): (r: State)
    ensures r.cache == []
    ensures r == s.(daily := r.daily, cache := [])
  {
    if s.cache != [] then Flush(s, DayOf(s.cache[|s.cache| - 1].time)) else s
  }

  /** `_generate_readings` for a span of at most one day: the walk from the
      start truncated to the hour, then the final flush. */
  function Within(s: State, accts: seq<Account>, c: int, next: int, rng: Rng): (r: (State, seq<Reading>))
    ensures r.0.cache == [] && r.0.accounts == s.accounts && r.0.clock == s.clock
  {
    var w := Walk(s, accts, TruncateToHour(c), next, rng);
    (FinalFlush(w.0), w.1)
  }

  /** The sub-spans of a long span: from `c` on, one day each, the last one
      cut at `n`. */
  function SubSpans(c: int, n: int): (spans: seq<(int, int)>)
    ensures c >= n ==> spans == []
    ensures c < n ==> |spans| > 0 && spans[0] == (c, Min(c + 1440, n))
    decreases n - c
  {
    if c < n then [(c, Min(c + 1440, n))] + SubSpans(c + 1440, n) else []
  }

  /** The sub-spans tile the span: the k-th starts k days after `c`, is at
      most a day long, ends where the next starts, and the last ends at `n`. */
  lemma {:induction false} SubSpansShape(c: int, n: int)
    ensures var spans := SubSpans(c, n);
            (c < n ==> spans[|spans| - 1].1 == n) &&
            (forall k :: 0 <= k < |spans| ==>
               spans[k].0 == c + 1440 * k && spans[k].0 < spans[k].1 <= spans[k].0 + 1440) &&
            (forall k :: 0 <= k < |spans| - 1 ==> spans[k].1 == c + 1440 * (k + 1))
    decreases n - c
  {
    if c < n {
      SubSpansShape(c + 1440, n);
      var spans, rest := SubSpans(c, n), SubSpans(c + 1440, n);
      forall k | 0 < k < |spans|
        ensures spans[k] == rest[k - 1]
      {
      }
    }
  }

  /** Generation over consecutive sub-spans, one after the other. */
  function Spans(s: State, accts: seq<Account>, spans: seq<(int, int)>, rng: Rng): (r: (State, seq<Reading>))
    ensures spans != [] ==> r.0.cache == []
    ensures spans == [] ==> r == (s, [])
    ensures r.0.accounts == s.accounts && r.0.clock == s.clock
    decreases |spans|, 1
  {
    if spans == [] then (s, []) else WithinThenSpans(s, accts, spans, rng)
  }

  /** The first sub-span, then the others from the state it leaves. */
  function WithinThenSpans(s: State, accts: seq<Account>, spans: seq<(int, int)>, rng: Rng): (r: (State, seq<Reading>))
    requires spans != []
    ensures r.0.cache == [] && r.0.accounts == s.accounts && r.0.clock == s.clock
    decreases |spans|, 0
  {
    var w := Within(s, accts, spans[0].0, spans[0].1, rng);
    var rest := Spans(w.0, accts, spans[1..], rng);
    (rest.0, w.1 + rest.1)
  }

  /** `_generate_readings`: a span longer than a day is split into days. */
  function Generate(s: State, accts: seq<Account>, c: int, n: int, rng: Rng): (r: (State, seq<Reading>))
    ensures r.0.accounts == s.accounts && r.0.clock == s.clock
  {
    if n - c > 1440 then Spans(s, accts, SubSpans(c, n), rng) else Within(s, accts, c, n, rng)
  }

  /* ---- The public operations ---- */

  /** What `collect_readings` returns: the span, the number of readings and
      the first three of them. */
  datatype Summary = Summary(from: int, to: int, count: nat, sample: seq<Reading>)

  /** `collect_readings(unit, amount)`: no accounts and an invalid unit are
      errors that change nothing; months are generated day by day; the clock
      then moves to the end of the span. */
  function Collect(s: State, unit: string, amount: int, rng: Rng): (r: (State, Result<Summary>))
  {
    if s.accounts == [] then (s, Err(NoAccounts))
    else
      match NextTime(s.clock, unit, amount)
      case Err(e) => (s, Err(e))
      case Ok(next) =>
        var g := if unit == "months" then Spans(s, s.accounts, SubSpans(s.clock, next), rng)
                 else Generate(s, s.accounts, s.clock, next, rng);
        (g.0.(clock := next), Ok(Summary(s.clock, next, |g.1|, g.1[..Min(3, |g.1|)])))
  }

  /** `register_meter(id, area, dwelling)`: a known identifier is an error;
      otherwise the account, stamped with the clock, is appended, and the
      meter starts at 0 with a zero reading cached at the clock. */
  function Register(s: State, id: string, area: string, dwelling: string): (r: (State, Result<Account>))
  {
    if IsRegistered(s.accounts, id) then (s, Err(DuplicateMeter))
    else
      var a := Account(id, area, dwelling, s.clock);
      (s.(accounts := s.accounts + [a], latest := s.latest[id := 0.0], cache := s.cache + [Reading(id, s.clock, 0.0)]), Ok(a))
  }

  /** `reset_system`: empty directories, no accounts, the clock back at
      2024-05-01 and empty caches. */
  function Reset(s: State): State {
    State(0, [], map[], [], s.draws, map[], map[])
  }

  /* ---- The state invariant ---- */

  /** Every daily file lies in its own month's directory and holds rows dated
      with its own day. */
  predicate FilesInOwnDir(daily: DailyStore) {
    forall dir, day :: dir in daily && day in daily[dir] ==>
      && dir == DailyDirOf(day)
      && forall k :: 0 <= k < |daily[dir][day]| ==> daily[dir][day][k].day == day
  }

  predicate Inv(s: State) {
    UniqueIds(s.accounts) && FilesInOwnDir(s.daily)
  }
}
