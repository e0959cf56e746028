/**
 * The newer configuration module of the `heavy` crate: where the two TOML files live,
 * and how the decoded schedule file (`period -> (id -> name)`) is regrouped into a
 * schedule keyed by routine id, rejecting an id that is listed under two periods.
 */
module Config {
  import opened Wrappers

  /** Which of the two configuration files a path is wanted for. */
  datatype ConfigType = Schedule | State

  /** The file stem each configuration kind is stored under. */
  function FileStem(t: ConfigType): (stem: string)
  {
    match t
    case Schedule => "schedule"
    case State => "state"
  }

  const HomeUnset := "Environment variable $HOME not set"

  /** The folder used when no configuration folder is given. */
  function DefaultFolder(home: string): (folder: string)
  {
    home + "/.config/looper"
  }

  /**
   * `ConfigType::get_path`: the explicit folder if one is given, otherwise `$HOME/.config/looper`;
   * `home` is the value of `$HOME`, `None` when it is unset (or not valid Unicode).
   */
  function GetPath(t: ConfigType, configFolder: Option<string>, home: Option<string>): (r: Result<string, string>)
    ensures configFolder.Some? ==> r == Ok(configFolder.value + "/" + FileStem(t) + ".toml")
    ensures configFolder.None? && home.Some? ==> r == Ok(home.value + "/.config/looper/" + FileStem(t) + ".toml")
    ensures r.Err? <==> configFolder.None? && home.None?
    ensures r.Err? ==> r.error == HomeUnset
  {
    var folder :=
      match configFolder
      case Some(p) => Ok(p)
      case None =>
        match home
        case None => Err(HomeUnset)
        case Some(h) => Ok(DefaultFolder(h));
    match folder
    case Err(e) => Err(e)
    case Ok(f) =>
      assert configFolder.None? ==> f + "/" + FileStem(t) == home.value + "/.config/looper/" + FileStem(t);
      Ok(f + "/" + FileStem(t) + ".toml")
  }

  /** The file name, with its leading slash, that `GetPath` appends to the folder. */
  function FileSuffix(t: ConfigType): (suffix: string)
  {
    "/" + FileStem(t) + ".toml"
  }

  /** Recovers the folder and the kind from a path built by `GetPath`; the inverse used to show it loses nothing. */
  function SplitPath(path: string): (r: Option<(string, ConfigType)>)
  {
    var s := FileSuffix(Schedule);
    var st := FileSuffix(State);
    if |path| >= |s| && path[|path| - |s|..] == s then Some((path[..|path| - |s|], Schedule))
    else if |path| >= |st| && path[|path| - |st|..] == st then Some((path[..|path| - |st|], State))
    else None
  }

  /** A path built by `GetPath` names its folder and its kind: `SplitPath` gets both back. */
  lemma GetPathSplits(t: ConfigType, configFolder: Option<string>, home: Option<string>)
    requires GetPath(t, configFolder, home).Ok?
    ensures SplitPath(GetPath(t, configFolder, home).value)
         == Some((if configFolder.Some? then configFolder.value else DefaultFolder(home.value), t))
  {
    var folder := if configFolder.Some? then configFolder.value else DefaultFolder(home.value);
    var path := GetPath(t, configFolder, home).value;
    assert path == folder + FileSuffix(t);
    var s := FileSuffix(Schedule);
    var st := FileSuffix(State);
    if t == Schedule {
      assert path[|path| - |s|..] == s;
      assert path[..|path| - |s|] == folder;
    } else {
      assert path[|path| - |st|..] == st;
      assert path[..|path| - |st|] == folder;
      assert path[|path| - |st|] == '/' && s[3] == 'h';
      if |path| >= |s| {
        assert path[|path| - |s|..][3] == path[|path| - |st|];
      }
    }
  }

  /** For the same folder and `$HOME`, the schedule file and the state file are different files. */
  lemma KindsGetDistinctPaths(configFolder: Option<string>, home: Option<string>)
    ensures GetPath(Schedule, configFolder, home).Ok? <==> GetPath(State, configFolder, home).Ok?
    ensures GetPath(Schedule, configFolder, home).Ok? ==>
              GetPath(Schedule, configFolder, home).value != GetPath(State, configFolder, home).value
  {
    if GetPath(Schedule, configFolder, home).Ok? {
      GetPathSplits(Schedule, configFolder, home);
      GetPathSplits(State, configFolder, home);
    }
  }

  /** One routine of the schedule, as `read_schedule` builds it. */
  datatype Routine = Routine(name: string, period: string)

  /** The error `read_schedule` returns on a key collision: the id, the entry already stored and the new one. */
  datatype Collision = KeyCollision(id: string, oldName: string, oldPeriod: string, name: string, period: string)

  /** The decoded schedule file: period -> (id -> name). */
  type Grouped = map<string, map<string, string>>

  /** `id` is listed in the group of `period`. */
  ghost predicate Listed(grouped: Grouped, period: string, id: string)
  {
    period in grouped && id in grouped[period]
  }

  /** `id` is listed under two different periods. */
  ghost predicate Collides(grouped: Grouped, id: string, p1: string, p2: string)
  {
    p1 != p2 && Listed(grouped, p1, id) && Listed(grouped, p2, id)
  }

  ghost predicate HasCollision(grouped: Grouped)
  {
    exists id, p1, p2 :: Collides(grouped, id, p1, p2)
  }

  /** Every (period, id) entry of the groups of `periods`: as many as those groups have entries in all. */
  ghost function EntriesOf(grouped: Grouped, periods: set<string>): (entries: set<(string, string)>)
    requires periods <= grouped.Keys
  {
    set p, id | p in periods && id in grouped[p] :: (p, id)
  }

  /**
   * `schedule` holds exactly the listed ids, each with its name and the period it is listed under:
   * its key set is the union of the groups' id sets.
   */
  ghost predicate IsRegrouping(grouped: Grouped, schedule: map<string, Routine>)
  {
    && (forall id {:trigger id in schedule} :: id in schedule ==> Listed(grouped, schedule[id].period, id))
    && (forall p, id {:trigger Listed(grouped, p, id)} ::
          Listed(grouped, p, id) ==> id in schedule && schedule[id] == Routine(grouped[p][id], p))
  }

  /** `c` describes a real collision: both entries it names are in the file. */
  ghost predicate Reports(grouped: Grouped, c: Collision)
  {
    && Collides(grouped, c.id, c.oldPeriod, c.period)
    && grouped[c.oldPeriod][c.id] == c.oldName
    && grouped[c.period][c.id] == c.name
  }

  /** The (period, id) entries for the ids `ids` of one period. */
  ghost function PairsWith(period: string, ids: set<string>): (pairs: set<(string, string)>)
  {
    set id | id in ids :: (period, id)
  }

  /** One period's group has as many entries as ids. */
  lemma {:induction false} PairsWithSize(period: string, ids: set<string>)
    ensures |PairsWith(period, ids)| == |ids|
    decreases ids
  {
    if ids != {} {
      var id :| id in ids;
      var rest := ids - {id};
      PairsWithSize(period, rest);
      assert PairsWith(period, ids) == PairsWith(period, rest) + {(period, id)};
      assert (period, id) !in PairsWith(period, rest);
    }
  }

  /** Visiting one more period's group adds exactly its number of entries. */
  lemma VisitGroupEntries(grouped: Grouped, visited: set<string>, period: string)
    requires visited <= grouped.Keys && period in grouped && period !in visited
    ensures |EntriesOf(grouped, visited + {period})| == |EntriesOf(grouped, visited)| + |grouped[period]|
  {
    var added := PairsWith(period, grouped[period].Keys);
    assert EntriesOf(grouped, visited + {period}) == EntriesOf(grouped, visited) + added;
    assert EntriesOf(grouped, visited) !! added;
    PairsWithSize(period, grouped[period].Keys);
  }

  /** The routines one period's group contributes. */
  function GroupRoutines(period: string, ids: map<string, string>): (g: map<string, Routine>)
    ensures g.Keys == ids.Keys
  {
    map id | id in ids :: Routine(ids[id], period)
  }

  /**
   * The inner loop of `read_schedule`: inserts the routines of one period's group into
   * `result`, visiting the ids in an arbitrary order, and stops at the first id already present.
   */
  method InsertGroup(result: map<string, Routine>, period: string, ids: map<string, string>)
    returns (r: Result<map<string, Routine>, Collision>)
    ensures r.Ok? <==> result.Keys !! ids.Keys
    ensures r.Ok? ==> r.value == result + GroupRoutines(period, ids)
    ensures r.Err? ==> var c := r.error;
      && c.id in result && c.id in ids
      && c.oldName == result[c.id].name && c.oldPeriod == result[c.id].period
      && c.name == ids[c.id] && c.period == period
  {
    var acc := result;
    var pending := ids.Keys;
    while pending != {}
      invariant pending <= ids.Keys
      invariant result.Keys !! (ids.Keys - pending)
      invariant acc == result + GroupRoutines(period, ids - pending)
      decreases pending
    {
      var id :| id in pending;
      var name := ids[id];
      if id in acc {
        var previous := acc[id];
        return Err(KeyCollision(id, previous.name, previous.period, name, period));
      }
      acc := acc[id := Routine(name, period)];
      pending := pending - {id};
    }
    assert ids - pending == ids;
    return Ok(acc);
  }

  /**
   * The loop invariant of `Regroup`: `result` regroups exactly the groups of `visited`. Each stored
   * routine is listed under its own period with its own name, and every id listed under a visited
   * period is stored with that period; so no id is listed under two visited periods.
   */
  ghost predicate RegroupedSoFar(grouped: Grouped, visited: set<string>, result: map<string, Routine>)
  {
    && visited <= grouped.Keys
    && (forall id {:trigger id in result} :: id in result ==>
          && result[id].period in visited
          && Listed(grouped, result[id].period, id)
          && result[id].name == grouped[result[id].period][id])
    && (forall p, id {:trigger Listed(grouped, p, id)} ::
          p in visited && Listed(grouped, p, id) ==> id in result && result[id].period == p)
    && |result| == |EntriesOf(grouped, visited)|
  }

  lemma RegroupStart(grouped: Grouped)
    ensures RegroupedSoFar(grouped, {}, map[])
  {
    assert EntriesOf(grouped, {}) == {};
  }

  /** Merging maps with disjoint keys adds their sizes. */
  lemma DisjointMergeSize<K, V>(m1: map<K, V>, m2: map<K, V>)
    requires m1.Keys !! m2.Keys
    ensures |m1 + m2| == |m1| + |m2|
  {
    assert (m1 + m2).Keys == m1.Keys + m2.Keys;
  }

  /** Adding a group none of whose ids is present keeps the invariant. */
  lemma RegroupStep(grouped: Grouped, visited: set<string>, result: map<string, Routine>, period: string)
    requires RegroupedSoFar(grouped, visited, result)
    requires period in grouped && period !in visited
    requires result.Keys !! grouped[period].Keys
    ensures RegroupedSoFar(grouped, visited + {period}, result + GroupRoutines(period, grouped[period]))
  {
    var added := GroupRoutines(period, grouped[period]);
    var next := result + added;
    forall id | id in next
      ensures next[id].period in visited + {period} && Listed(grouped, next[id].period, id)
      ensures next[id].name == grouped[next[id].period][id]
    {
      if id in added {
        assert next[id] == Routine(grouped[period][id], period);
      } else {
        assert next[id] == result[id];
      }
    }
    forall p, id | p in visited + {period} && Listed(grouped, p, id)
      ensures id in next && next[id].period == p
    {
      if p == period {
        assert id in added;
      } else {
        assert id in result && id !in added;
      }
    }
    VisitGroupEntries(grouped, visited, period);
    DisjointMergeSize(result, added);
  }

  /** An id already present when a group is inserted is a real collision. */
  lemma RegroupClash(grouped: Grouped, visited: set<string>, result: map<string, Routine>, period: string, c: Collision)
    requires RegroupedSoFar(grouped, visited, result)
    requires period in grouped && period !in visited
    requires c.id in result && c.id in grouped[period]
    requires c.oldName == result[c.id].name && c.oldPeriod == result[c.id].period
    requires c.name == grouped[period][c.id] && c.period == period
    ensures Reports(grouped, c) && HasCollision(grouped)
  {
    assert Collides(grouped, c.id, c.oldPeriod, period);
  }

  /** Once every group is visited, the invariant is the postcondition. */
  lemma RegroupEnd(grouped: Grouped, result: map<string, Routine>)
    requires RegroupedSoFar(grouped, grouped.Keys, result)
    ensures !HasCollision(grouped) && IsRegrouping(grouped, result)
  {
    forall id, p1, p2
      ensures !Collides(grouped, id, p1, p2)
    {
    }
  }

  /**
   * The regrouping loop of `read_schedule`. The periods are visited in an arbitrary order
   * (`:|`), as a `HashMap` iterates; the postcondition holds for every such order.
   */
  method Regroup(grouped: Grouped) returns (r: Result<map<string, Routine>, Collision>)
    ensures r.Ok? <==> !HasCollision(grouped)
    ensures r.Ok? ==> IsRegrouping(grouped, r.value)
    ensures r.Ok? ==> |r.value| == |EntriesOf(grouped, grouped.Keys)|
    ensures r.Err? ==> Reports(grouped, r.error)
  {
    var result: map<string, Routine> := map[];
    var periods := grouped.Keys;
    ghost var visited: set<string> := {};
    RegroupStart(grouped);
    while periods != {}
      invariant periods <= grouped.Keys && visited == grouped.Keys - periods
      invariant RegroupedSoFar(grouped, visited, result)
      decreases periods
    {
      var period :| period in periods;
      var ids := grouped[period];
      var inserted := InsertGroup(result, period, ids);
      if inserted.Err? {
        RegroupClash(grouped, visited, result, period, inserted.error);
        return Err(inserted.error);
      }
      RegroupStep(grouped, visited, result, period);
      result := inserted.value;
      periods := periods - {period};
      visited := visited + {period};
    }
    assert visited == grouped.Keys;
    RegroupEnd(grouped, result);
    return Ok(result);
  }

  /** Whatever order the groups are visited in, a successful regrouping is the same map. */
  lemma RegroupingIsUnique(grouped: Grouped, s1: map<string, Routine>, s2: map<string, Routine>)
    requires IsRegrouping(grouped, s1) && IsRegrouping(grouped, s2)
    ensures s1 == s2
  {
    forall id | id in s1
      ensures s1[id] == s2[id]
    {
      var p :| Listed(grouped, p, id);
    }
  }
}
