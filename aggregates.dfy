/** The three summaries the archiver computes from one month of daily rows:
    per-meter monthly consumption, per-day per-meter area analysis, and
    per-area monthly totals. */
module Aggregates {
  import opened Results
  import opened Calendar
  import opened Meters

  predicate HasMeter(rows: seq<Row>, m: string) {
    exists i :: 0 <= i < |rows| && rows[i].meter == m
  }

  function MetersIn(rows: seq<Row>): set<string> {
    set i | 0 <= i < |rows| :: rows[i].meter
  }

  /** Row `i` is the first row of meter `m` once the rows are sorted by
      `date_time`: no row of `m` is earlier, and rows of `m` with the same
      stamp come after it. */
  predicate IsFirstOf(rows: seq<Row>, m: string, i: int) {
    && 0 <= i < |rows| && rows[i].meter == m
    && (forall j :: 0 <= j < |rows| && rows[j].meter == m ==> Stamp(rows[i]) <= Stamp(rows[j]))
    && (forall j :: 0 <= j < i && rows[j].meter == m ==> Stamp(rows[i]) < Stamp(rows[j]))
  }

  /** Row `i` is the last row of meter `m` once sorted by `date_time`. */
  predicate IsLastOf(rows: seq<Row>, m: string, i: int) {
    && 0 <= i < |rows| && rows[i].meter == m
    && (forall j :: 0 <= j < |rows| && rows[j].meter == m ==> Stamp(rows[j]) <= Stamp(rows[i]))
    && (forall j :: i < j < |rows| && rows[j].meter == m ==> Stamp(rows[j]) < Stamp(rows[i]))
  }

  /** `groupby('meter_ID').first()` after `sort_values('date_time')`. */
  function FirstIndex(rows: seq<Row>, m: string): (r: Option<nat>)
    ensures r.None? <==> !HasMeter(rows, m)
    ensures r.Some? ==> IsFirstOf(rows, m, r.value)
  {
    if rows == [] then None
    else
      var n := |rows| - 1;
      var p := FirstIndex(rows[..n], m);
      if rows[n].meter != m then p
      else if p.None? || Stamp(rows[n]) < Stamp(rows[p.value]) then Some(n)
      else p
  }

  /** `groupby('meter_ID').last()` after `sort_values('date_time')`. */
  function LastIndex(rows: seq<Row>, m: string): (r: Option<nat>)
    ensures r.None? <==> !HasMeter(rows, m)
    ensures r.Some? ==> IsLastOf(rows, m, r.value)
  {
    if rows == [] then None
    else
      var n := |rows| - 1;
      var p := LastIndex(rows[..n], m);
      if rows[n].meter != m then p
      else if p.None? || Stamp(rows[p.value]) <= Stamp(rows[n]) then Some(n)
      else p
  }

  /** Last minus first cumulative value of a meter that has rows. */
  function Consumption(rows: seq<Row>, m: string): real
    requires HasMeter(rows, m)
  {
    rows[LastIndex(rows, m).value].value - rows[FirstIndex(rows, m).value].value
  }

  /** `_process_monthly_consumption`: one entry per meter that has rows and is
      registered, its last value minus its first in `date_time` order. */
  function MonthlyConsumption(rows: seq<Row>, reg: Registry): map<string, real> {
    map m | m in MetersIn(rows) && m in reg.byId :: Consumption(rows, m)
  }

  /** The monthly consumption has an entry exactly for each registered meter
      that has rows. */
  lemma MonthlyConsumptionKeys(rows: seq<Row>, reg: Registry)
    ensures forall m :: m in MonthlyConsumption(rows, reg) <==> HasMeter(rows, m) && m in reg.byId
  {
    assert forall m :: HasMeter(rows, m) <==> m in MetersIn(rows);
  }

  /** Each entry is the meter's last value minus its first in `date_time`
      order. */
  lemma MonthlyConsumptionValue(rows: seq<Row>, reg: Registry, m: string)
    requires m in MonthlyConsumption(rows, reg)
    ensures exists i, j :: && IsFirstOf(rows, m, i) && IsLastOf(rows, m, j)
                           && MonthlyConsumption(rows, reg)[m] == rows[j].value - rows[i].value
  {
    MonthlyConsumptionKeys(rows, reg);
    var i, j := FirstIndex(rows, m).value, LastIndex(rows, m).value;
    assert IsFirstOf(rows, m, i) && IsLastOf(rows, m, j);
  }

  /** Per meter, cumulative values never fall as `date_time` grows, nor
      between rows with the same stamp in file order. */
  ghost predicate MonotoneRows(rows: seq<Row>) {
    forall i, j :: 0 <= i < |rows| && 0 <= j < |rows| && rows[i].meter == rows[j].meter
      && (Stamp(rows[i]) < Stamp(rows[j]) || (Stamp(rows[i]) == Stamp(rows[j]) && i <= j))
      ==> rows[i].value <= rows[j].value
  }

  /** On monotone rows the first row of a meter never holds more than its last. */
  lemma FirstNotAboveLast(rows: seq<Row>, m: string, i: int, j: int)
    requires MonotoneRows(rows) && IsFirstOf(rows, m, i) && IsLastOf(rows, m, j)
    ensures rows[i].value <= rows[j].value
  {
  }

  /** Monthly consumption is never negative when the rows are monotone. */
  lemma MonthlyConsumptionNonNegative(rows: seq<Row>, reg: Registry)
    requires MonotoneRows(rows)
    ensures forall m :: m in MonthlyConsumption(rows, reg) ==> MonthlyConsumption(rows, reg)[m] >= 0.0
  {
    var mc := MonthlyConsumption(rows, reg);
    MonthlyConsumptionKeys(rows, reg);
    forall m | m in mc ensures mc[m] >= 0.0 {
      assert mc[m] == Consumption(rows, m);
      FirstNotAboveLast(rows, m, FirstIndex(rows, m).value, LastIndex(rows, m).value);
    }
  }

  /* ---- Area analysis: one row per day of the month and registered meter ---- */

  /** A row of `area_analysis_YYYYMM.csv` (`DateID`, `AreaID`,
      `dwelling_type_id`, `kwh_per_acc`). */
  datatype AnalysisRow = AnalysisRow(day: int, area: string, dwelling: string, kwh: real)

  predicate HasDayData(rows: seq<Row>, m: string, d: int) {
    exists i :: 0 <= i < |rows| && rows[i].meter == m && rows[i].day == d
  }

  predicate HasAnyOnDay(rows: seq<Row>, d: int) {
    exists i :: 0 <= i < |rows| && rows[i].day == d
  }

  /** `meter_data['meter_value'].max()` over the rows of meter `m` dated `d`. */
  function MaxOn(rows: seq<Row>, m: string, d: int): (v: real)
    requires HasDayData(rows, m, d)
    ensures exists i :: 0 <= i < |rows| && rows[i].meter == m && rows[i].day == d && rows[i].value == v
    ensures forall i :: 0 <= i < |rows| && rows[i].meter == m && rows[i].day == d ==> rows[i].value <= v
  {
    var n := |rows| - 1;
    var here := rows[n].meter == m && rows[n].day == d;
    if !HasDayData(rows[..n], m, d) then
      assert here;
      rows[n].value
    else
      var p := MaxOn(rows[..n], m, d);
      if here && p < rows[n].value then rows[n].value else p
  }

  /** `meter_data['meter_value'].min()` over the rows of meter `m` dated `d`. */
  function MinOn(rows: seq<Row>, m: string, d: int): (v: real)
    requires HasDayData(rows, m, d)
    ensures exists i :: 0 <= i < |rows| && rows[i].meter == m && rows[i].day == d && rows[i].value == v
    ensures forall i :: 0 <= i < |rows| && rows[i].meter == m && rows[i].day == d ==> v <= rows[i].value
  {
    var n := |rows| - 1;
    var here := rows[n].meter == m && rows[n].day == d;
    if !HasDayData(rows[..n], m, d) then
      assert here;
      rows[n].value
    else
      var p := MinOn(rows[..n], m, d);
      if here && rows[n].value < p then rows[n].value else p
  }

  /** The spread of a meter's values on one day; never negative. */
  function Spread(rows: seq<Row>, m: string, d: int): (k: real)
    requires HasDayData(rows, m, d)
    ensures k >= 0.0
  {
    MaxOn(rows, m, d) - MinOn(rows, m, d)
  }

  /** The analysis row that meter `m` contributes on day `d`. */
  function AnalysisOf(rows: seq<Row>, reg: Registry, m: string, d: int): AnalysisRow
    requires m in reg.byId && HasDayData(rows, m, d)
  {
    AnalysisRow(d, reg.byId[m].area, reg.byId[m].dwelling, Spread(rows, m, d))
  }

  /** The keys of `ids` that have rows dated `d`, in key order. */
  function MetersWithDataOn(rows: seq<Row>, ids: seq<string>, d: int): (out: seq<string>)
    ensures forall k :: 0 <= k < |out| ==> HasDayData(rows, out[k], d)
    ensures forall id :: id in out <==> id in ids && HasDayData(rows, id, d)
    ensures Distinct(ids) ==> Distinct(out)
  {
    if ids == [] then []
    else
      var n := |ids| - 1;
      var front := MetersWithDataOn(rows, ids[..n], d);
      assert forall id :: id in ids <==> id in ids[..n] || id == ids[n];
      if HasDayData(rows, ids[n], d) then front + [ids[n]] else front
  }

  /** The positions in `ids` of the meters with rows dated `d`. */
  function KeptPositions(rows: seq<Row>, ids: seq<string>, d: int): seq<int> {
    if ids == [] then []
    else
      var n := |ids| - 1;
      if HasDayData(rows, ids[n], d) then KeptPositions(rows, ids[..n], d) + [n] else KeptPositions(rows, ids[..n], d)
  }

  /** The positions increase, lie within `ids`, and include every position
      of a meter with rows that day. */
  lemma {:induction false} KeptPositionsIncrease(rows: seq<Row>, ids: seq<string>, d: int)
    ensures forall k :: 0 <= k < |KeptPositions(rows, ids, d)| ==> 0 <= KeptPositions(rows, ids, d)[k] < |ids|
    ensures forall k, l :: 0 <= k < l < |KeptPositions(rows, ids, d)| ==>
              KeptPositions(rows, ids, d)[k] < KeptPositions(rows, ids, d)[l]
    ensures forall i :: 0 <= i < |ids| && HasDayData(rows, ids[i], d) ==> i in KeptPositions(rows, ids, d)
    decreases |ids|
  {
    if ids != [] {
      var n := |ids| - 1;
      var pre := ids[..n];
      KeptPositionsIncrease(rows, pre, d);
      var fpos := KeptPositions(rows, pre, d);
      forall i | 0 <= i < n && HasDayData(rows, ids[i], d)
        ensures i in fpos
      {
        assert pre[i] == ids[i];
      }
      if HasDayData(rows, ids[n], d) {
        assert KeptPositions(rows, ids, d) == fpos + [n];
      }
    }
  }

  /** The k-th kept meter is the meter at the k-th position. */
  lemma {:induction false} KeptPositionsHold(rows: seq<Row>, ids: seq<string>, d: int)
    ensures |KeptPositions(rows, ids, d)| == |MetersWithDataOn(rows, ids, d)|
    ensures forall k :: 0 <= k < |KeptPositions(rows, ids, d)| ==>
              0 <= KeptPositions(rows, ids, d)[k] < |ids| && ids[KeptPositions(rows, ids, d)[k]] == MetersWithDataOn(rows, ids, d)[k]
    decreases |ids|
  {
    if ids != [] {
      var n := |ids| - 1;
      var pre := ids[..n];
      KeptPositionsHold(rows, pre, d);
      var fpos := KeptPositions(rows, pre, d);
      var fout := MetersWithDataOn(rows, pre, d);
      forall k | 0 <= k < |fpos|
        ensures 0 <= fpos[k] < n && ids[fpos[k]] == fout[k]
      {
        assert pre[fpos[k]] == ids[fpos[k]];
      }
      if HasDayData(rows, ids[n], d) {
        assert KeptPositions(rows, ids, d) == fpos + [n];
        assert MetersWithDataOn(rows, ids, d) == fout + [ids[n]];
      }
    }
  }

  /** The meters kept by `MetersWithDataOn` are `ids` filtered in key order:
      they sit at increasing positions of `ids`, the k-th at the k-th
      position, and every position of a meter with rows that day is among
      them. */
  lemma KeptInKeyOrder(rows: seq<Row>, ids: seq<string>, d: int)
    ensures var pos := KeptPositions(rows, ids, d);
            var out := MetersWithDataOn(rows, ids, d);
            && |pos| == |out|
            && (forall k :: 0 <= k < |pos| ==> 0 <= pos[k] < |ids| && ids[pos[k]] == out[k])
            && (forall k, l :: 0 <= k < l < |pos| ==> pos[k] < pos[l])
            && (forall i :: 0 <= i < |ids| && HasDayData(rows, ids[i], d) ==> i in pos)
  {
    KeptPositionsIncrease(rows, ids, d);
    KeptPositionsHold(rows, ids, d);
  }

  /** The inner loop over the registered meters for day `d`. */
  function AnalysisForMeters(rows: seq<Row>, reg: Registry, ids: seq<string>, d: int): seq<AnalysisRow>
    requires forall k :: 0 <= k < |ids| ==> ids[k] in reg.byId
  {
    if ids == [] then []
    else
      var n := |ids| - 1;
      var front := AnalysisForMeters(rows, reg, ids[..n], d);
      if HasDayData(rows, ids[n], d) then front + [AnalysisOf(rows, reg, ids[n], d)] else front
  }

  /** The inner loop gives one row for each listed meter that has rows that
      day, in key order: the i-th row describes the i-th such meter. */
  lemma {:induction false} AnalysisForMetersAt(rows: seq<Row>, reg: Registry, ids: seq<string>, d: int)
    requires forall k :: 0 <= k < |ids| ==> ids[k] in reg.byId
    ensures |AnalysisForMeters(rows, reg, ids, d)| == |MetersWithDataOn(rows, ids, d)|
    ensures forall i :: 0 <= i < |AnalysisForMeters(rows, reg, ids, d)| ==>
              AnalysisForMeters(rows, reg, ids, d)[i] == AnalysisOf(rows, reg, MetersWithDataOn(rows, ids, d)[i], d)
    decreases |ids|
  {
    if ids != [] {
      var n := |ids| - 1;
      AnalysisForMetersAt(rows, reg, ids[..n], d);
    }
  }

  /** With no row dated `d`, no meter has rows that day. */
  lemma NoMetersOnEmptyDay(rows: seq<Row>, ids: seq<string>, d: int)
    requires !HasAnyOnDay(rows, d)
    ensures MetersWithDataOn(rows, ids, d) == []
  {
  }

  /** One day of the analysis: the inner loop, skipped when no row carries
      that date. */
  function AnalysisForDay(rows: seq<Row>, reg: Registry, d: int): seq<AnalysisRow>
    requires WellFormed(reg)
  {
    if HasAnyOnDay(rows, d) then AnalysisForMeters(rows, reg, reg.order, d) else []
  }

  /** A day's analysis has one row for each registered meter with rows that
      day, in key order: the i-th row describes the i-th such meter. */
  lemma AnalysisForDayAt(rows: seq<Row>, reg: Registry, d: int)
    requires WellFormed(reg)
    ensures |AnalysisForDay(rows, reg, d)| == |MetersWithDataOn(rows, reg.order, d)|
    ensures forall i :: 0 <= i < |AnalysisForDay(rows, reg, d)| ==>
              AnalysisForDay(rows, reg, d)[i] == AnalysisOf(rows, reg, MetersWithDataOn(rows, reg.order, d)[i], d)
  {
    if HasAnyOnDay(rows, d) {
      AnalysisForMetersAt(rows, reg, reg.order, d);
    } else {
      NoMetersOnEmptyDay(rows, reg.order, d);
    }
  }

  /** The days `first .. first + count - 1`, in order. */
  function AnalysisForDays(rows: seq<Row>, reg: Registry, first: int, count: nat): (out: seq<AnalysisRow>)
    requires WellFormed(reg)
    decreases count
  {
    if count == 0 then [] else AnalysisForDays(rows, reg, first, count - 1) + AnalysisForDay(rows, reg, first + count - 1)
  }

  /** The analysis of a range of days is the analysis of its first part
      followed by that of the rest. */
  lemma {:induction false} AnalysisForDaysSplit(rows: seq<Row>, reg: Registry, first: int, a: nat, b: nat)
    requires WellFormed(reg)
    ensures AnalysisForDays(rows, reg, first, a + b)
              == AnalysisForDays(rows, reg, first, a) + AnalysisForDays(rows, reg, first + a, b)
    decreases b
  {
    if b > 0 {
      AnalysisForDaysSplit(rows, reg, first, a, b - 1);
      var x, y := AnalysisForDays(rows, reg, first, a), AnalysisForDays(rows, reg, first + a, b - 1);
      var z := AnalysisForDay(rows, reg, first + a + b - 1);
      assert AnalysisForDays(rows, reg, first, a + b) == AnalysisForDays(rows, reg, first, a + (b - 1)) + z;
      assert AnalysisForDays(rows, reg, first + a, b) == y + z;
      assert (x + y) + z == x + (y + z);
    }
  }

  /** Every row of the analysis of a range of days is dated within it. */
  lemma {:induction false} AnalysisForDaysWithin(rows: seq<Row>, reg: Registry, first: int, count: nat)
    requires WellFormed(reg)
    ensures forall i :: 0 <= i < |AnalysisForDays(rows, reg, first, count)| ==>
              first <= AnalysisForDays(rows, reg, first, count)[i].day < first + count
    decreases count
  {
    if count > 0 {
      AnalysisForDaysWithin(rows, reg, first, count - 1);
      var front := AnalysisForDays(rows, reg, first, count - 1);
      var last := AnalysisForDay(rows, reg, first + count - 1);
      AnalysisForDayDated(rows, reg, first + count - 1);
      var out := front + last;
      assert out == AnalysisForDays(rows, reg, first, count);
      forall i | 0 <= i < |out|
        ensures first <= out[i].day < first + count
      {
        if i >= |front| {
          assert out[i] == last[i - |front|];
        } else {
          assert out[i] == front[i];
        }
      }
    }
  }

  /** Rows whose days never decrease. */
  predicate DaysSorted(out: seq<AnalysisRow>)
  {
    forall i, j :: 0 <= i < j < |out| ==> out[i].day <= out[j].day
  }

  /** Two day-sorted runs stay sorted when every day of the first is at most every day of the second. */
  lemma SortedAppend(front: seq<AnalysisRow>, last: seq<AnalysisRow>, m: int)
    requires DaysSorted(front) && DaysSorted(last)
    requires forall i :: 0 <= i < |front| ==> front[i].day <= m
    requires forall j :: 0 <= j < |last| ==> m <= last[j].day
    ensures DaysSorted(front + last)
  {
    var out := front + last;
    forall i, j | 0 <= i < j < |out|
      ensures out[i].day <= out[j].day
    {
      if j < |front| {
        assert out[i] == front[i] && out[j] == front[j];
      } else if i < |front| {
        assert out[i] == front[i] && out[j] == last[j - |front|];
      } else {
        assert out[i] == last[i - |front|] && out[j] == last[j - |front|];
      }
    }
  }

  /** The rows of a range of days come day by day, in order. */
  lemma {:induction false} AnalysisForDaysOrdered(rows: seq<Row>, reg: Registry, first: int, count: nat)
    requires WellFormed(reg)
    ensures DaysSorted(AnalysisForDays(rows, reg, first, count))
    decreases count
  {
    if count > 0 {
      AnalysisForDaysOrdered(rows, reg, first, count - 1);
      AnalysisForDaysWithin(rows, reg, first, count - 1);
      AnalysisForDayDated(rows, reg, first + count - 1);
      SortedAppend(AnalysisForDays(rows, reg, first, count - 1), AnalysisForDay(rows, reg, first + count - 1), first + count - 1);
    }
  }

  /** Every row of one day's analysis carries that day. */
  lemma AnalysisForDayDated(rows: seq<Row>, reg: Registry, d: int)
    requires WellFormed(reg)
    ensures forall k :: 0 <= k < |AnalysisForDay(rows, reg, d)| ==> AnalysisForDay(rows, reg, d)[k].day == d
  {
    AnalysisForDayAt(rows, reg, d);
  }

  /** `_process_area_analysis` over the calendar days of month `ym`. */
  function AreaAnalysis(rows: seq<Row>, reg: Registry, ym: YearMonth): seq<AnalysisRow>
    requires WellFormed(reg) && 1 <= ym.month <= 12
  {
    AnalysisForDays(rows, reg, DayNumber(FirstOfMonth(ym)), DaysInMonth(ym.year, ym.month))
  }

  /** `x` is the row that registered meter `m` contributes on `x`'s day. */
  predicate Describes(rows: seq<Row>, reg: Registry, m: string, x: AnalysisRow) {
    m in reg.byId && HasDayData(rows, m, x.day) && x == AnalysisOf(rows, reg, m, x.day)
  }

  lemma AnalysisForDayExact(rows: seq<Row>, reg: Registry, d: int, x: AnalysisRow)
    requires WellFormed(reg)
    ensures x in AnalysisForDay(rows, reg, d) <==> x.day == d && exists m :: Describes(rows, reg, m, x)
  {
    var out := AnalysisForDay(rows, reg, d);
    var ms := MetersWithDataOn(rows, reg.order, d);
    AnalysisForDayAt(rows, reg, d);
    if x.day == d && exists m :: Describes(rows, reg, m, x) {
      var m :| Describes(rows, reg, m, x);
      assert m in reg.order;
      var j :| 0 <= j < |ms| && ms[j] == m;
      assert out[j] == x;
    }
    if x in out {
      var i :| 0 <= i < |out| && out[i] == x;
      assert ms[i] in reg.order;
      assert Describes(rows, reg, ms[i], x);
    }
  }

  /** An analysis row is produced exactly for each day of the range and
      each registered meter that has rows on that day, with that meter's area,
      dwelling type and spread of values. */
  lemma {:induction false} AnalysisForDaysExact(rows: seq<Row>, reg: Registry, first: int, count: nat, x: AnalysisRow)
    requires WellFormed(reg)
    ensures x in AnalysisForDays(rows, reg, first, count) <==>
              first <= x.day < first + count && exists m :: Describes(rows, reg, m, x)
    decreases count
  {
    if count > 0 {
      var d := first + count - 1;
      AnalysisForDaysExact(rows, reg, first, count - 1, x);
      AnalysisForDayExact(rows, reg, d, x);
      var front := AnalysisForDays(rows, reg, first, count - 1);
      var last := AnalysisForDay(rows, reg, d);
      assert AnalysisForDays(rows, reg, first, count) == front + last;
      assert x in front + last <==> x in front || x in last;
    }
  }

  /** Every analysis figure is a spread, so none is negative. */
  lemma AreaAnalysisNonNegative(rows: seq<Row>, reg: Registry, ym: YearMonth)
    requires WellFormed(reg) && 1 <= ym.month <= 12
    ensures forall x :: x in AreaAnalysis(rows, reg, ym) ==> x.kwh >= 0.0
  {
    var first := DayNumber(FirstOfMonth(ym));
    var count := DaysInMonth(ym.year, ym.month);
    forall x | x in AreaAnalysis(rows, reg, ym) ensures x.kwh >= 0.0 {
      AnalysisForDaysExact(rows, reg, first, count, x);
      var m :| Describes(rows, reg, m, x);
    }
  }

  /* ---- Area monthly summary ---- */

  /** A row of `area_monthly_summary_YYYYMM.csv`, keyed by its area. */
  datatype AreaRow = AreaRow(month: YearMonth, total: real, meterCount: nat)

  /** `[meter_id for meter_id, acc in accounts.items() if acc['area'] == area]`. */
  function AreaMeters(reg: Registry, ids: seq<string>, area: string): (out: seq<string>)
    requires forall k :: 0 <= k < |ids| ==> ids[k] in reg.byId
    ensures forall k :: 0 <= k < |out| ==> out[k] in reg.byId
    ensures forall id :: id in out <==> id in ids && reg.byId[id].area == area
    ensures Distinct(ids) ==> Distinct(out)
  {
    if ids == [] then []
    else
      var n := |ids| - 1;
      var front := AreaMeters(reg, ids[..n], area);
      assert forall id :: id in ids <==> id in ids[..n] || id == ids[n];
      if reg.byId[ids[n]].area == area then front + [ids[n]] else front
  }

  /** `set(acc['area'] for acc in accounts.values())`. */
  function Areas(reg: Registry): set<string> {
    set id | id in reg.byId :: reg.byId[id].area
  }

  predicate HasAreaData(rows: seq<Row>, ids: seq<string>) {
    exists i :: 0 <= i < |rows| && rows[i].meter in ids
  }

  /** The sum, over the meters `ids` that have rows, of last minus first value. */
  function AreaTotal(rows: seq<Row>, ids: seq<string>): real {
    if ids == [] then 0.0
    else
      var n := |ids| - 1;
      AreaTotal(rows, ids[..n]) + (if HasMeter(rows, ids[n]) then Consumption(rows, ids[n]) else 0.0)
  }

  /** `_process_area_monthly_summary`: one entry per area one of whose
      registered meters has rows, with the area's total and its meter count. */
  function AreaMonthlySummary(rows: seq<Row>, reg: Registry, ym: YearMonth): map<string, AreaRow>
    requires WellFormed(reg)
  {
    map a | a in Areas(reg) && HasAreaData(rows, AreaMeters(reg, reg.order, a)) ::
      AreaRow(ym, AreaTotal(rows, AreaMeters(reg, reg.order, a)), |AreaMeters(reg, reg.order, a)|)
  }

  /** The area summary has an entry exactly for each area one of whose
      registered meters has rows, dated with the archived month. */
  lemma AreaMonthlySummaryKeys(rows: seq<Row>, reg: Registry, ym: YearMonth)
    requires WellFormed(reg)
    ensures var sum := AreaMonthlySummary(rows, reg, ym);
            forall a :: a in sum <==> exists m :: m in reg.byId && reg.byId[m].area == a && HasMeter(rows, m)
    ensures var sum := AreaMonthlySummary(rows, reg, ym);
            forall a :: a in sum ==> sum[a].month == ym
  {
    var sum := AreaMonthlySummary(rows, reg, ym);
    forall a ensures a in sum <==> exists m :: m in reg.byId && reg.byId[m].area == a && HasMeter(rows, m) {
      if a in sum {
        var i :| 0 <= i < |rows| && rows[i].meter in AreaMeters(reg, reg.order, a);
        assert HasMeter(rows, rows[i].meter);
      }
      if exists m :: m in reg.byId && reg.byId[m].area == a && HasMeter(rows, m) {
        var m :| m in reg.byId && reg.byId[m].area == a && HasMeter(rows, m);
        var i :| 0 <= i < |rows| && rows[i].meter == m;
        assert rows[i].meter in AreaMeters(reg, reg.order, a);
      }
    }
  }

  /** Summing each meter's consumption as looked up in the monthly consumption map. */
  function SumLookup(mc: map<string, real>, ids: seq<string>): real {
    if ids == [] then 0.0
    else
      var n := |ids| - 1;
      SumLookup(mc, ids[..n]) + (if ids[n] in mc then mc[ids[n]] else 0.0)
  }

  /** An area's total is the sum of its meters' entries in the monthly
      consumption summary; meters without rows add nothing. */
  lemma {:induction false} AreaTotalIsSumOfConsumption(rows: seq<Row>, reg: Registry, ids: seq<string>)
    requires forall k :: 0 <= k < |ids| ==> ids[k] in reg.byId
    ensures AreaTotal(rows, ids) == SumLookup(MonthlyConsumption(rows, reg), ids)
  {
    if ids != [] {
      var n := |ids| - 1;
      AreaTotalIsSumOfConsumption(rows, reg, ids[..n]);
      MonthlyConsumptionKeys(rows, reg);
    }
  }

  /** The area summary's total for each area, in terms of the monthly consumption summary. */
  lemma AreaSummaryTotals(rows: seq<Row>, reg: Registry, ym: YearMonth, a: string)
    requires WellFormed(reg) && a in AreaMonthlySummary(rows, reg, ym)
    ensures AreaMonthlySummary(rows, reg, ym)[a].total
              == SumLookup(MonthlyConsumption(rows, reg), AreaMeters(reg, reg.order, a))
  {
    AreaTotalIsSumOfConsumption(rows, reg, AreaMeters(reg, reg.order, a));
  }

  predicate InArea(reg: Registry, area: string, id: string) {
    id in reg.byId && reg.byId[id].area == area
  }

  function AreaSet(reg: Registry, ids: seq<string>, area: string): set<string> {
    set id | id in ids && InArea(reg, area, id)
  }

  lemma AreaSetStep(reg: Registry, ids: seq<string>, area: string)
    requires Distinct(ids) && ids != []
    ensures var n := |ids| - 1;
            |AreaSet(reg, ids, area)| == |AreaSet(reg, ids[..n], area)| + (if InArea(reg, area, ids[n]) then 1 else 0)
  {
    var n := |ids| - 1;
    var last := ids[n];
    var front := ids[..n];
    assert forall k :: 0 <= k < n ==> front[k] != last;
    assert last !in front;
    assert forall id :: id in ids <==> id in front || id == last;
    if InArea(reg, area, last) {
      assert AreaSet(reg, ids, area) == AreaSet(reg, front, area) + {last};
    } else {
      assert AreaSet(reg, ids, area) == AreaSet(reg, front, area);
    }
  }

  lemma {:induction false} DistinctFilterCount(reg: Registry, ids: seq<string>, area: string)
    requires forall k :: 0 <= k < |ids| ==> ids[k] in reg.byId
    requires Distinct(ids)
    ensures |AreaMeters(reg, ids, area)| == |AreaSet(reg, ids, area)|
  {
    if ids != [] {
      var n := |ids| - 1;
      assert Distinct(ids[..n]);
      DistinctFilterCount(reg, ids[..n], area);
      AreaSetStep(reg, ids, area);
    }
  }

  /** `meter_count` counts every registered meter of the area, with rows or not. */
  lemma MeterCountCountsAccounts(rows: seq<Row>, reg: Registry, ym: YearMonth, a: string)
    requires WellFormed(reg) && Distinct(reg.order) && a in AreaMonthlySummary(rows, reg, ym)
    ensures AreaMonthlySummary(rows, reg, ym)[a].meterCount == |set m | m in reg.byId && reg.byId[m].area == a|
  {
    DistinctFilterCount(reg, reg.order, a);
    assert AreaSet(reg, reg.order, a) == (set m | m in reg.byId && reg.byId[m].area == a);
  }

  /** An area's total is never negative when the rows are monotone. */
  lemma {:induction false} AreaTotalNonNegative(rows: seq<Row>, ids: seq<string>)
    requires MonotoneRows(rows)
    ensures AreaTotal(rows, ids) >= 0.0
  {
    if ids != [] {
      var n := |ids| - 1;
      AreaTotalNonNegative(rows, ids[..n]);
      if HasMeter(rows, ids[n]) {
        FirstNotAboveLast(rows, ids[n], FirstIndex(rows, ids[n]).value, LastIndex(rows, ids[n]).value);
      }
    }
  }
}
