/**
 * The older `heavy` library: the configuration path is always under `$HOME`, and the schedule
 * file is a map of groups, each group carrying its own `period` key next to its `id = name`
 * entries. The groups are flattened into one schedule keyed by id; an id listed in two groups is
 * not rejected, the group visited last wins.
 */
module Lib {
  import opened Wrappers
  import Config

  /** `ConfigType::get_path` of this version: `$HOME/.config/looper/{schedule|state}.toml`. */
  function GetPath(t: Config.ConfigType, home: Option<string>): (r: Result<string, string>)
    ensures r.Err? <==> home.None?
    ensures r.Err? ==> r.error == Config.HomeUnset
    ensures home.Some? ==> r == Ok(home.value + "/.config/looper/" + Config.FileStem(t) + ".toml")
  {
    match home
    case None => Err(Config.HomeUnset)
    case Some(h) => Ok(h + "/.config/looper/" + Config.FileStem(t) + ".toml")
  }

  /** This version resolves every path as the newer one does when no folder is given. */
  lemma GetPathAgreesWithConfig(t: Config.ConfigType, home: Option<string>)
    ensures GetPath(t, home) == Config.GetPath(t, None, home)
  {
  }

  /** The reserved key of a group that holds the group's period. */
  const PeriodKey := "period"

  /** The panic of `ids["period"]` on a group without that key. */
  datatype Panic = KeyNotFound(key: string)

  /** The routines one group contributes: every entry but the period key, with the group's period. */
  function GroupRoutines(ids: map<string, string>): (g: map<string, Config.Routine>)
    requires PeriodKey in ids
    ensures g.Keys == ids.Keys - {PeriodKey}
  {
    map id | id in ids && id != PeriodKey :: Config.Routine(ids[id], ids[PeriodKey])
  }

  /**
   * The `flat_map`/`filter`/`map`/`collect` pipeline of `read_schedule`, over the groups in the
   * order the outer map is iterated (their names are not used). Collecting into a map keeps, for
   * a repeated id, the entry of the group visited last.
   */
  function Flatten(groups: seq<map<string, string>>): (r: Result<map<string, Config.Routine>, Panic>)
    ensures r.Ok? <==> forall i :: 0 <= i < |groups| ==> PeriodKey in groups[i]
    ensures r.Err? ==> r.error == KeyNotFound(PeriodKey)
    ensures r.Ok? ==> PeriodKey !in r.value
    ensures r.Ok? ==> forall id :: id in r.value <==> id != PeriodKey && exists i :: 0 <= i < |groups| && id in groups[i]
    ensures r.Ok? ==> forall id :: id in r.value ==>
              exists i :: 0 <= i < |groups| && id in groups[i] && r.value[id] == Config.Routine(groups[i][id], groups[i][PeriodKey])
  {
    if groups == [] then Ok(map[])
    else
      var n := |groups| - 1;
      match Flatten(groups[..n])
      case Err(e) => Err(e)
      case Ok(m) =>
        if PeriodKey in groups[n] then
          CollectOneMore(groups[..n], m, groups[n]);
          assert groups == groups[..n] + [groups[n]];
          Ok(m + GroupRoutines(groups[n]))
        else Err(KeyNotFound(PeriodKey))
  }

  /** Collecting one more group after `groups` keeps `Flatten`'s contract. */
  lemma CollectOneMore(groups: seq<map<string, string>>, m: map<string, Config.Routine>, last: map<string, string>)
    requires PeriodKey in last && PeriodKey !in m
    requires forall i :: 0 <= i < |groups| ==> PeriodKey in groups[i]
    requires forall id :: id in m <==> id != PeriodKey && exists i :: 0 <= i < |groups| && id in groups[i]
    requires forall id :: id in m ==>
               exists i :: 0 <= i < |groups| && id in groups[i] && m[id] == Config.Routine(groups[i][id], groups[i][PeriodKey])
    ensures var all, r := groups + [last], m + GroupRoutines(last);
      && (forall i :: 0 <= i < |all| ==> PeriodKey in all[i])
      && PeriodKey !in r
      && (forall id :: id in r <==> id != PeriodKey && exists i :: 0 <= i < |all| && id in all[i])
      && (forall id :: id in r ==>
            exists i :: 0 <= i < |all| && id in all[i] && r[id] == Config.Routine(all[i][id], all[i][PeriodKey]))
  {
    var all, r := groups + [last], m + GroupRoutines(last);
    assert forall i :: 0 <= i < |all| ==> PeriodKey in all[i];
    forall id | id in r
      ensures exists i :: 0 <= i < |all| && id in all[i] && r[id] == Config.Routine(all[i][id], all[i][PeriodKey])
    {
      if id in last {
        assert all[|groups|] == last;
      } else {
        var i :| 0 <= i < |groups| && id in groups[i] && m[id] == Config.Routine(groups[i][id], groups[i][PeriodKey]);
        assert all[i] == groups[i];
      }
    }
    forall id | id != PeriodKey && exists i :: 0 <= i < |all| && id in all[i]
      ensures id in r
    {
      var i :| 0 <= i < |all| && id in all[i];
      if i < |groups| {
        assert all[i] == groups[i];
      }
    }
  }

  /** Of the groups listing an id, the one visited last supplies its routine. */
  lemma {:induction false} LastGroupWins(groups: seq<map<string, string>>, k: nat, id: string)
    requires Flatten(groups).Ok?
    requires k < |groups| && id in groups[k] && id != PeriodKey
    requires forall j :: k < j < |groups| ==> id !in groups[j]
    ensures id in Flatten(groups).value
    ensures Flatten(groups).value[id] == Config.Routine(groups[k][id], groups[k][PeriodKey])
  {
    var n := |groups| - 1;
    if k < n {
      LastGroupWins(groups[..n], k, id);
    }
  }

  /** `order` lists every key of the outer map once: the order a `HashMap` happens to iterate in. */
  ghost predicate Enumerates(order: seq<string>, keys: set<string>)
  {
    && (forall i :: 0 <= i < |order| ==> order[i] in keys)
    && (forall k :: k in keys ==> k in order)
    && (forall i, j :: 0 <= i < j < |order| ==> order[i] != order[j])
  }

  /** `groups` are the inner maps of `grouped`, taken in `order`. */
  ghost predicate InOrder(grouped: map<string, map<string, string>>, order: seq<string>, groups: seq<map<string, string>>)
  {
    && Enumerates(order, grouped.Keys)
    && |groups| == |order|
    && forall i :: 0 <= i < |order| ==> groups[i] == grouped[order[i]]
  }

  lemma PanicInAnyOrder(grouped: map<string, map<string, string>>, order: seq<string>, groups: seq<map<string, string>>)
    requires InOrder(grouped, order, groups)
    ensures (forall i :: 0 <= i < |groups| ==> PeriodKey in groups[i]) <==> forall g :: g in grouped ==> PeriodKey in grouped[g]
  {
    if forall i :: 0 <= i < |groups| ==> PeriodKey in groups[i] {
      forall g | g in grouped
        ensures PeriodKey in grouped[g]
      {
        var i :| 0 <= i < |order| && order[i] == g;
        assert PeriodKey in groups[i];
      }
    }
  }

  lemma IdsInAnyOrder(grouped: map<string, map<string, string>>, order: seq<string>, groups: seq<map<string, string>>, id: string)
    requires InOrder(grouped, order, groups)
    ensures (exists i :: 0 <= i < |groups| && id in groups[i]) <==> exists g :: g in grouped && id in grouped[g]
  {
    if exists g :: g in grouped && id in grouped[g] {
      var g :| g in grouped && id in grouped[g];
      var i :| 0 <= i < |order| && order[i] == g;
      assert id in groups[i];
    }
    if exists i :: 0 <= i < |groups| && id in groups[i] {
      var i :| 0 <= i < |groups| && id in groups[i];
      assert id in grouped[order[i]];
    }
  }

  /** The order-free reading of `Flatten`'s contract over the groups of `grouped`. */
  lemma FlattenInAnyOrder(grouped: map<string, map<string, string>>, order: seq<string>, groups: seq<map<string, string>>)
    requires InOrder(grouped, order, groups)
    ensures Flatten(groups).Ok? <==> forall g :: g in grouped ==> PeriodKey in grouped[g]
    ensures Flatten(groups).Ok? ==> forall id :: id in Flatten(groups).value <==> id != PeriodKey && exists g :: g in grouped && id in grouped[g]
    ensures Flatten(groups).Ok? ==> forall id :: id in Flatten(groups).value ==>
              exists g :: g in grouped && id in grouped[g] && Flatten(groups).value[id] == Config.Routine(grouped[g][id], grouped[g][PeriodKey])
  {
    PanicInAnyOrder(grouped, order, groups);
    var r := Flatten(groups);
    if r.Ok? {
      forall id
        ensures id in r.value <==> id != PeriodKey && exists g :: g in grouped && id in grouped[g]
      {
        IdsInAnyOrder(grouped, order, groups, id);
      }
      forall id | id in r.value
        ensures exists g :: g in grouped && id in grouped[g] && r.value[id] == Config.Routine(grouped[g][id], grouped[g][PeriodKey])
      {
        var i :| 0 <= i < |groups| && id in groups[i] && r.value[id] == Config.Routine(groups[i][id], groups[i][PeriodKey]);
        var g := order[i];
        assert g in grouped && groups[i] == grouped[g];
      }
    }
  }

  /**
   * `read_schedule` after decoding, visiting the groups in `order`. Whether it panics, and which
   * ids it returns, do not depend on the order; an id listed in several groups is not an error.
   */
  function ReadSchedule(grouped: map<string, map<string, string>>, order: seq<string>): (r: Result<map<string, Config.Routine>, Panic>)
    requires Enumerates(order, grouped.Keys)
    ensures r.Ok? <==> forall g :: g in grouped ==> PeriodKey in grouped[g]
    ensures r.Err? ==> r.error == KeyNotFound(PeriodKey)
    ensures r.Ok? ==> PeriodKey !in r.value
    ensures r.Ok? ==> forall id :: id in r.value <==> id != PeriodKey && exists g :: g in grouped && id in grouped[g]
    ensures r.Ok? ==> forall id :: id in r.value ==>
              exists g :: g in grouped && id in grouped[g] && r.value[id] == Config.Routine(grouped[g][id], grouped[g][PeriodKey])
  {
    var groups := seq(|order|, i requires 0 <= i < |order| => grouped[order[i]]);
    assert InOrder(grouped, order, groups);
    FlattenInAnyOrder(grouped, order, groups);
    Flatten(groups)
  }
}
