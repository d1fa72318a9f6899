/** `latest_readings`: the last value recorded for each meter, and what it
    means for a run of readings to advance it. */
module Increments {
  import opened Meters

  /** `latest_readings.get(meter_id, 0)`. */
  function Get(latest: map<string, real>, id: string): real {
    if id in latest then latest[id] else 0.0
  }

  /** The latest values after recording the readings `rs` in order. */
  function Replay(latest: map<string, real>, rs: seq<Reading>): map<string, real>
    decreases |rs|
  {
    if rs == [] then latest else Replay(latest[rs[0].meter := rs[0].value], rs[1..])
  }

  /** Each reading of `rs` raises its meter's latest value by an amount in [0, 1]. */
  predicate Steps(latest: map<string, real>, rs: seq<Reading>)
    decreases |rs|
  {
    rs == [] ||
    (&& Get(latest, rs[0].meter) <= rs[0].value <= Get(latest, rs[0].meter) + 1.0
     && Steps(latest[rs[0].meter := rs[0].value], rs[1..]))
  }

  /** Recording two runs one after the other is recording their concatenation. */
  lemma {:induction false} ReplayAppend(latest: map<string, real>, a: seq<Reading>, b: seq<Reading>)
    ensures Replay(latest, a + b) == Replay(Replay(latest, a), b)
    ensures Steps(latest, a + b) <==> Steps(latest, a) && Steps(Replay(latest, a), b)
    decreases |a|
  {
    if a != [] {
      assert (a + b)[0] == a[0];
      assert (a + b)[1..] == a[1..] + b;
      ReplayAppend(latest[a[0].meter := a[0].value], a[1..], b);
    } else {
      assert a + b == b;
    }
  }

  /** Readings that each advance their meter by [0, 1] never go below the
      meter's value before the run, are non-decreasing per meter in the order
      they were generated, and never lower any latest value. */
  lemma {:induction false} StepsMonotone(latest: map<string, real>, rs: seq<Reading>)
    requires Steps(latest, rs)
    ensures forall i :: 0 <= i < |rs| ==> Get(latest, rs[i].meter) <= rs[i].value
    ensures forall i, j :: 0 <= i < j < |rs| && rs[i].meter == rs[j].meter ==> rs[i].value <= rs[j].value
    ensures forall m :: Get(latest, m) <= Get(Replay(latest, rs), m)
    decreases |rs|
  {
    if rs != [] {
      var x := rs[0];
      var l1 := latest[x.meter := x.value];
      var rest := rs[1..];
      StepsMonotone(l1, rest);
      assert forall m :: Get(latest, m) <= Get(l1, m);
      forall i | 0 <= i < |rs|
        ensures Get(latest, rs[i].meter) <= rs[i].value
      {
        if i > 0 {
          assert rs[i] == rest[i - 1];
        }
      }
      forall i, j | 0 <= i < j < |rs| && rs[i].meter == rs[j].meter
        ensures rs[i].value <= rs[j].value
      {
        assert rs[j] == rest[j - 1];
        if i > 0 {
          assert rs[i] == rest[i - 1];
        } else {
          assert Get(l1, x.meter) == x.value;
        }
      }
    }
  }
}
