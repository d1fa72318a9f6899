/** The public operations: what `collect_readings` and `register_meter`
    return and change, and the state invariant every operation keeps. */
module Operations {
  import opened Results
  import opened Calendar
  import opened Meters
  import opened Engine
  import opened Readings
  import opened Maintenance

  /* ---- The layout of the daily store is kept by generation ---- */

  lemma {:induction false} WalkKeepsLayout(s: State, accts: seq<Account>, c: int, next: int, rng: Rng)
    requires FilesInOwnDir(s.daily)
    ensures FilesInOwnDir(Walk(s, accts, c, next, rng).0.daily)
    decreases next - c
  {
    if c <= next {
      if HourOf(c) == 0 {
        MaintainKeepsLayout(s, c);
        WalkKeepsLayout(Maintain(s, c), accts, c + 60, next, rng);
      } else if c + 30 <= next && HourOf(c + 30) != 0 {
        EmitShape(s, accts, c + 30, rng);
        WalkKeepsLayout(Emit(s, accts, c + 30, rng).0, accts, c + 30, next, rng);
      }
    }
  }

  lemma WithinKeepsLayout(s: State, accts: seq<Account>, c: int, next: int, rng: Rng)
    requires FilesInOwnDir(s.daily)
    ensures FilesInOwnDir(Within(s, accts, c, next, rng).0.daily)
  {
    WalkKeepsLayout(s, accts, TruncateToHour(c), next, rng);
    FinalFlushKeepsLayout(Walk(s, accts, TruncateToHour(c), next, rng).0);
  }

  lemma {:induction false} SpansKeepLayout(s: State, accts: seq<Account>, spans: seq<(int, int)>, rng: Rng)
    requires FilesInOwnDir(s.daily)
    ensures FilesInOwnDir(Spans(s, accts, spans, rng).0.daily)
    decreases |spans|
  {
    if spans != [] {
      WithinKeepsLayout(s, accts, spans[0].0, spans[0].1, rng);
      SpansKeepLayout(Within(s, accts, spans[0].0, spans[0].1, rng).0, accts, spans[1..], rng);
    }
  }

  /* ---- collect_readings ---- */

  /** Collection fails, changing nothing, exactly when there are no accounts
      (checked first) or the unit is not one of the four. */
  lemma CollectErrors(s: State, unit: string, amount: int, rng: Rng)
    ensures var r := Collect(s, unit, amount, rng);
            && (r.1.Err? <==> s.accounts == [] || unit !in ["minutes", "hours", "days", "months"])
            && (s.accounts == [] ==> r.1 == Err(NoAccounts))
            && (s.accounts != [] && unit !in ["minutes", "hours", "days", "months"] ==> r.1 == Err(InvalidUnit))
            && (r.1.Err? ==> r.0 == s)
  {
  }

  /** A successful collection generates the readings of the span (day by
      day for months, hour by hour otherwise), reports how many there were
      and the first three of them, and leaves the generated state with the
      clock at the end of the span. */
  lemma CollectGenerates(s: State, unit: string, amount: int, rng: Rng)
    requires Collect(s, unit, amount, rng).1.Ok?
    ensures var r := Collect(s, unit, amount, rng);
            var next := NextTime(s.clock, unit, amount).value;
            var g := if unit == "months" then Spans(s, s.accounts, SubSpans(s.clock, next), rng)
                     else Generate(s, s.accounts, s.clock, next, rng);
            && r.0 == g.0.(clock := next)
            && r.1.value.count == |g.1|
            && r.1.value.sample == g.1[..Min(3, |g.1|)]
  {
  }

  /** A successful collection moves the clock to the end of the span, keeps
      the accounts, samples at most the first three readings and, except for
      an empty months span, leaves the cache empty. */
  lemma CollectMovesClock(s: State, unit: string, amount: int, rng: Rng)
    requires Collect(s, unit, amount, rng).1.Ok?
    ensures var r := Collect(s, unit, amount, rng);
            var next := NextTime(s.clock, unit, amount).value;
            && r.0.clock == next
            && r.0.accounts == s.accounts
            && r.1.value.from == s.clock && r.1.value.to == next
            && |r.1.value.sample| == Min(3, r.1.value.count)
            && (unit != "months" || s.clock < next ==> r.0.cache == [])
  {
  }

  /** On a non-empty span, the months path (whole days then the rest) is the
      same generation as the other units' path: a span of more than a day is
      split into the same days, and a shorter one is a single span. */
  lemma MonthsPathIsGenerate(s: State, accts: seq<Account>, c: int, n: int, rng: Rng)
    requires c < n
    ensures Spans(s, accts, SubSpans(c, n), rng) == Generate(s, accts, c, n, rng)
  {
    if n - c <= 1440 {
      var spans := SubSpans(c, n);
      assert spans == [(c, n)];
      var w := Within(s, accts, c, n, rng);
      assert Spans(w.0, accts, spans[1..], rng) == (w.0, []);
      assert w.1 + [] == w.1;
    }
  }

  /** Collecting one day from midnight gives 45 readings per account. */
  lemma CollectOneDay(s: State, rng: Rng)
    requires s.accounts != [] && s.clock % 1440 == 0
    ensures var r := Collect(s, "days", 1, rng);
            r.1.Ok? && r.1.value.count == 45 * |s.accounts| && r.0.clock == s.clock + 1440
  {
    var d := s.clock / 1440;
    assert s.clock == d * 1440;
    assert NextTime(s.clock, "days", 1) == Ok((d + 1) * 1440);
    DayReadingCount(s, s.accounts, d, rng);
  }

  lemma CollectKeepsInv(s: State, unit: string, amount: int, rng: Rng)
    requires Inv(s)
    ensures Inv(Collect(s, unit, amount, rng).0)
  {
    if s.accounts != [] && unit in ["minutes", "hours", "days", "months"] {
      var next := NextTime(s.clock, unit, amount).value;
      if unit == "months" || next - s.clock > 1440 {
        SpansKeepLayout(s, s.accounts, SubSpans(s.clock, next), rng);
      } else {
        WithinKeepsLayout(s, s.accounts, s.clock, next, rng);
      }
    }
  }

  /* ---- register_meter ---- */

  /** Registration fails, changing nothing, exactly when the identifier is
      already registered; otherwise the account is appended, stamped with the
      clock, the meter's latest value is 0 and a zero reading at the clock is
      cached. */
  lemma RegisterOutcome(s: State, id: string, area: string, dwelling: string)
    ensures var r := Register(s, id, area, dwelling);
            && (r.1.Err? <==> IsRegistered(s.accounts, id))
            && (r.1.Err? ==> r.1.error == DuplicateMeter && r.0 == s)
            && (r.1.Ok? ==>
                  && r.1.value == Account(id, area, dwelling, s.clock)
                  && r.0.accounts == s.accounts + [r.1.value]
                  && IsRegistered(r.0.accounts, id)
                  && r.0.latest == s.latest[id := 0.0]
                  && r.0.cache == s.cache + [Reading(id, s.clock, 0.0)]
                  && r.0.draws == s.draws
                  && r.0.clock == s.clock && r.0.daily == s.daily && r.0.monthly == s.monthly)
  {
    var r := Register(s, id, area, dwelling);
    if r.1.Ok? {
      assert r.0.accounts[|s.accounts|].meterId == id;
    }
  }

  /** Registration keeps identifiers unique, so a second registration of the
      same identifier always fails. */
  lemma RegisterKeepsInv(s: State, id: string, area: string, dwelling: string)
    requires Inv(s)
    ensures Inv(Register(s, id, area, dwelling).0)
  {
    var r := Register(s, id, area, dwelling);
    if r.1.Ok? {
      var accts := r.0.accounts;
      forall i, j | 0 <= i < j < |accts|
        ensures accts[i].meterId != accts[j].meterId
      {
        if j == |s.accounts| {
          assert accts[i] == s.accounts[i];
        }
      }
    }
  }

  lemma RegisterTwice(s: State, id: string, area: string, dwelling: string, area2: string, dwelling2: string)
    requires Register(s, id, area, dwelling).1.Ok?
    ensures Register(Register(s, id, area, dwelling).0, id, area2, dwelling2).1 == Err(DuplicateMeter)
  {
    RegisterOutcome(s, id, area, dwelling);
  }

  /* ---- reset_system ---- */

  /** A reset leaves no accounts, no data and the clock at 2024-05-01, so
      collecting then fails for want of accounts. */
  lemma ResetEmpties(s: State, unit: string, amount: int, rng: Rng)
    ensures Inv(Reset(s))
    ensures Collect(Reset(s), unit, amount, rng).1 == Err(NoAccounts)
  {
  }
}
