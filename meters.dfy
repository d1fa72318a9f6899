/** The records the engine handles: accounts, interval readings, rows of the
    daily tables, and the account registry keyed by meter identifier. */
module Meters {
  import opened Calendar

  /** One registered meter (`meter_ID`, `area`, `dwelling`, `register_time`). */
  datatype Account = Account(meterId: string, area: string, dwelling: string, registered: int)

  /** A `MeterReading`: a cumulative meter value at an instant. */
  datatype Reading = Reading(meter: string, time: int, value: real)

  /** A row of a daily table: the `date` column as a day number, the `time`
      column as minutes since midnight, the meter and its cumulative value. */
  datatype Row = Row(day: int, minute: int, meter: string, value: real)

  /** The `date_time` column the archiver derives from `date` and `time`. */
  function Stamp(r: Row): int {
    r.day * 1440 + r.minute
  }

  predicate UniqueIds(accts: seq<Account>) {
    forall i, j :: 0 <= i < j < |accts| ==> accts[i].meterId != accts[j].meterId
  }

  predicate IsRegistered(accts: seq<Account>, id: string) {
    exists i :: 0 <= i < |accts| && accts[i].meterId == id
  }

  /** The dictionary `{acc["meter_ID"]: acc for acc in accounts}`: its keys in
      insertion order, and the account each key maps to. */
  datatype Registry = Registry(order: seq<string>, byId: map<string, Account>)

  predicate Distinct(ids: seq<string>) {
    forall i, j :: 0 <= i < j < |ids| ==> ids[i] != ids[j]
  }

  /** The order and the map hold the same keys, each mapped to an account
      that carries it. */
  predicate WellFormed(reg: Registry) {
    && (forall id :: id in reg.byId ==> id in reg.order)
    && (forall k :: 0 <= k < |reg.order| ==> reg.order[k] in reg.byId)
    && (forall id :: id in reg.byId ==> reg.byId[id].meterId == id)
  }

  function Ids(accts: seq<Account>): (ids: seq<string>)
    ensures |ids| == |accts| && forall i :: 0 <= i < |accts| ==> ids[i] == accts[i].meterId
  {
    if accts == [] then [] else Ids(accts[..|accts| - 1]) + [accts[|accts| - 1].meterId]
  }

  /** `d[a["meter_ID"]] = a`: a new key goes to the end of the order, a
      known key keeps its place and gets the new account. */
  function Insert(reg: Registry, a: Account): (r: Registry)
    requires WellFormed(reg)
    ensures WellFormed(r) && r.byId == reg.byId[a.meterId := a]
    ensures r.order == if a.meterId in reg.byId then reg.order else reg.order + [a.meterId]
  {
    Registry(if a.meterId in reg.byId then reg.order else reg.order + [a.meterId], reg.byId[a.meterId := a])
  }

  /** The dictionary built from the account list, one account at a time. */
  function ToRegistry(accts: seq<Account>): (reg: Registry)
    ensures WellFormed(reg)
  {
    if accts == [] then Registry([], map[])
    else Insert(ToRegistry(accts[..|accts| - 1]), accts[|accts| - 1])
  }

  /** The dictionary's keys are the registered identifiers. */
  lemma {:induction false} RegistryKeys(accts: seq<Account>, id: string)
    ensures id in ToRegistry(accts).byId <==> IsRegistered(accts, id)
  {
    if accts != [] {
      var prefix := accts[..|accts| - 1];
      RegistryKeys(prefix, id);
      if IsRegistered(accts, id) && id != accts[|accts| - 1].meterId {
        var i :| 0 <= i < |accts| && accts[i].meterId == id;
        assert prefix[i].meterId == id;
      }
    }
  }

  /** A dictionary's keys are distinct: a key already present keeps its
      place instead of being added again. */
  lemma {:induction false} RegistryKeysDistinct(accts: seq<Account>)
    ensures Distinct(ToRegistry(accts).order)
  {
    if accts != [] {
      var prefix := accts[..|accts| - 1];
      RegistryKeysDistinct(prefix);
    }
  }

  /** A key maps to the last account in the list that carries it. */
  lemma {:induction false} RegistryLastWins(accts: seq<Account>, i: nat)
    requires i < |accts|
    requires forall j :: i < j < |accts| ==> accts[j].meterId != accts[i].meterId
    ensures accts[i].meterId in ToRegistry(accts).byId
    ensures ToRegistry(accts).byId[accts[i].meterId] == accts[i]
  {
    var n := |accts| - 1;
    var prefix := accts[..n];
    assert ToRegistry(accts) == Insert(ToRegistry(prefix), accts[n]);
    if i < n {
      assert prefix[i] == accts[i] && accts[n].meterId != accts[i].meterId;
      RegistryLastWins(prefix, i);
    }
  }

  /** With no duplicate identifier the keys come in list order. */
  lemma {:induction false} RegistryOfUnique(accts: seq<Account>)
    requires UniqueIds(accts)
    ensures ToRegistry(accts).order == Ids(accts)
  {
    if accts != [] {
      var prefix := accts[..|accts| - 1];
      RegistryOfUnique(prefix);
      assert !IsRegistered(prefix, accts[|accts| - 1].meterId);
    }
  }
}
