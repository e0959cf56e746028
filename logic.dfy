/**
 * The `logic` binary: `Show` lists the routines that have a period with their next occurrence,
 * and `Finish` records that a routine was done by moving its stored finish time one occurrence
 * forward. Each panic of the binary is an `Err` here, raised before any state is written.
 */
module Logic {
  import opened Wrappers
  import opened Cron

  /** A routine of the schedule this binary reads: an id, a display name and an optional period. */
  datatype Routine = Routine(id: string, name: string, period: Option<string>)

  /** The panics of `main`, in the order they can occur. */
  datatype Panic =
    | UnknownTask(id: string)        // "Unable to find a task with id …"
    | NoPeriod(id: string)           // "No period specified for task with id …"
    | BadPeriod(period: string)      // `Schedule::from_str(period).unwrap()`
    | NoOccurrence(period: string)   // `.next().unwrap()` on an exhausted pattern

  /** `routines[i]` is the first routine with this id. */
  ghost predicate FirstWithId(routines: seq<Routine>, id: string, i: int)
  {
    0 <= i < |routines| && routines[i].id == id && forall j :: 0 <= j < i ==> routines[j].id != id
  }

  /** `routines.iter().filter(|r| r.id == id).next()`: the first routine with the id, if any. */
  function FindRoutine(routines: seq<Routine>, id: string): (r: Option<Routine>)
    ensures r.None? <==> forall i :: 0 <= i < |routines| ==> routines[i].id != id
    ensures r.Some? ==> exists i :: FirstWithId(routines, id, i) && routines[i] == r.value
  {
    if routines == [] then None
    else if routines[0].id == id then
      assert FirstWithId(routines, id, 0);
      Some(routines[0])
    else
      var r := FindRoutine(routines[1..], id);
      assert r.Some? ==> exists i :: FirstWithId(routines, id, i) && routines[i] == r.value by {
        if r.Some? {
          var i :| FirstWithId(routines[1..], id, i) && routines[1..][i] == r.value;
          assert FirstWithId(routines, id, i + 1);
        }
      }
      r
  }

  /** The first occurrence of `period` strictly after `anchor`, or the panic on the way to it. */
  function NextOccurrence<P(!new)>(cron: Engine<P>, period: string, anchor: int): (r: Result<int, Panic>)
    ensures r.Ok? <==> cron.parse(period).Some? && cron.after(cron.parse(period).value, anchor).Some?
    ensures r.Ok? ==> r.value == cron.after(cron.parse(period).value, anchor).value
    ensures r.Err? ==> r.error == (if cron.parse(period).None? then BadPeriod(period) else NoOccurrence(period))
    ensures StrictlyAfter(cron) && r.Ok? ==> r.value > anchor
  {
    match cron.parse(period)
    case None => Err(BadPeriod(period))
    case Some(p) =>
      match cron.after(p, anchor)
      case None => Err(NoOccurrence(period))
      case Some(t) => Ok(t)
  }

  /**
   * The finish time `Finish` stores for `id`: the next occurrence of the routine's period after
   * the stored finish time, or after `now` when none is stored yet.
   */
  function FinishTime<P(!new)>(times: map<string, int>, routines: seq<Routine>, id: string, now: int, cron: Engine<P>): (r: Result<int, Panic>)
    ensures r == Err(UnknownTask(id)) <==> forall i :: 0 <= i < |routines| ==> routines[i].id != id
    ensures StrictlyAfter(cron) && id in times && r.Ok? ==> r.value > times[id]
    ensures StrictlyAfter(cron) && id !in times && r.Ok? ==> r.value > now
  {
    match FindRoutine(routines, id)
    case None => Err(UnknownTask(id))
    case Some(routine) =>
      match routine.period
      case None => Err(NoPeriod(id))
      case Some(period) => NextOccurrence(cron, period, if id in times then times[id] else now)
  }

  /** The finish times after one `Finish` call: updated for `id` on success, untouched on a panic. */
  function AfterFinish<P(!new)>(times: map<string, int>, routines: seq<Routine>, id: string, now: int, cron: Engine<P>): (after: map<string, int>)
    ensures FinishTime(times, routines, id, now, cron).Ok? ==> after.Keys == times.Keys + {id}
    ensures FinishTime(times, routines, id, now, cron).Ok? ==> after[id] == FinishTime(times, routines, id, now, cron).value
    ensures FinishTime(times, routines, id, now, cron).Err? ==> after == times
    ensures forall k :: k != id && k in times ==> k in after && after[k] == times[k]
  {
    match FinishTime(times, routines, id, now, cron)
    case Ok(t) => times[id := t]
    case Err(_) => times
  }

  /** The state file's contents: the last finish time of each routine. */
  class State {
    var finishTimes: map<string, int>

    constructor (finishTimes: map<string, int>)
      ensures this.finishTimes == finishTimes
    {
      this.finishTimes := finishTimes;
    }

    /** The `Finish` command: look the routine up, then move its finish time one occurrence on. */
    method Finish<P(!new)>(routines: seq<Routine>, id: string, now: int, cron: Engine<P>) returns (outcome: Result<int, Panic>)
      modifies this
      ensures outcome == FinishTime(old(finishTimes), routines, id, now, cron)
      ensures finishTimes == AfterFinish(old(finishTimes), routines, id, now, cron)
    {
      var found := FindRoutine(routines, id);
      if found.None? {
        return Err(UnknownTask(id));
      }
      if found.value.period.None? {
        return Err(NoPeriod(id));
      }
      var anchor := if id in finishTimes then finishTimes[id] else now;
      outcome := NextOccurrence(cron, found.value.period.value, anchor);
      if outcome.Ok? {
        finishTimes := finishTimes[id := outcome.value];
      }
    }
  }

  /** There is only one first routine with a given id. */
  lemma FirstWithIdUnique(routines: seq<Routine>, id: string, i: int, j: int)
    requires FirstWithId(routines, id, i) && FirstWithId(routines, id, j)
    ensures i == j
  {
  }

  /**
   * `Finish` acts on the first routine in schedule order with the id: it panics when that routine
   * has no period, and otherwise moves one occurrence of its period on from the stored finish
   * time, or from `now` when none is stored.
   */
  lemma FinishUsesFirstMatch<P(!new)>(times: map<string, int>, routines: seq<Routine>, id: string, now: int, cron: Engine<P>, i: int)
    requires FirstWithId(routines, id, i)
    ensures routines[i].period.None? ==> FinishTime(times, routines, id, now, cron) == Err(NoPeriod(id))
    ensures routines[i].period.Some? ==>
              FinishTime(times, routines, id, now, cron)
              == NextOccurrence(cron, routines[i].period.value, if id in times then times[id] else now)
  {
    var j :| FirstWithId(routines, id, j) && routines[j] == FindRoutine(routines, id).value;
    FirstWithIdUnique(routines, id, i, j);
  }

  /**
   * A successful `Finish` stores, for `id`, the next occurrence of the first matching routine's
   * period after the stored finish time, or after `now` when none is stored.
   */
  lemma FinishStoresNextOccurrence<P(!new)>(times: map<string, int>, routines: seq<Routine>, id: string, now: int, cron: Engine<P>, i: int)
    requires FirstWithId(routines, id, i)
    requires FinishTime(times, routines, id, now, cron).Ok?
    ensures routines[i].period.Some?
    ensures var after := AfterFinish(times, routines, id, now, cron);
      && id in after
      && after[id] == NextOccurrence(cron, routines[i].period.value, if id in times then times[id] else now).value
  {
    FinishUsesFirstMatch(times, routines, id, now, cron, i);
  }

  /** Once a finish time is stored, `Finish` anchors on it: the result no longer depends on `now`. */
  lemma FinishAnchorsOnStoredTime<P(!new)>(times: map<string, int>, routines: seq<Routine>, id: string, now1: int, now2: int, cron: Engine<P>)
    requires id in times
    ensures FinishTime(times, routines, id, now1, cron) == FinishTime(times, routines, id, now2, cron)
  {
  }

  /** The finish times after a `Finish` of `id` at each instant of `nows`, in turn. */
  function FinishRepeatedly<P(!new)>(times: map<string, int>, routines: seq<Routine>, id: string, nows: seq<int>, cron: Engine<P>): (r: map<string, int>)
    decreases |nows|
  {
    if nows == [] then times
    else FinishRepeatedly(AfterFinish(times, routines, id, nows[0], cron), routines, id, nows[1..], cron)
  }

  /** Once a finish time is stored, a run of `Finish` calls gives the same result whatever the clock says. */
  lemma {:induction false} RepeatedFinishIgnoresNow<P(!new)>(times: map<string, int>, routines: seq<Routine>, id: string,
                                                             nows1: seq<int>, nows2: seq<int>, cron: Engine<P>)
    requires id in times && |nows1| == |nows2|
    ensures FinishRepeatedly(times, routines, id, nows1, cron) == FinishRepeatedly(times, routines, id, nows2, cron)
    decreases |nows1|
  {
    if nows1 != [] {
      FinishAnchorsOnStoredTime(times, routines, id, nows1[0], nows2[0], cron);
      var next := AfterFinish(times, routines, id, nows1[0], cron);
      assert next == AfterFinish(times, routines, id, nows2[0], cron);
      RepeatedFinishIgnoresNow(next, routines, id, nows1[1..], nows2[1..], cron);
    }
  }

  /**
   * A run of `Finish` calls never moves a stored finish time back, and each call that succeeds
   * moves it strictly forward (for an engine whose occurrences lie strictly after their anchor).
   */
  lemma {:induction false} RepeatedFinishAdvances<P(!new)>(times: map<string, int>, routines: seq<Routine>, id: string,
                                                           nows: seq<int>, cron: Engine<P>)
    requires StrictlyAfter(cron) && id in times
    ensures var r := FinishRepeatedly(times, routines, id, nows, cron);
      && id in r && r[id] >= times[id]
      && (nows != [] && FinishTime(times, routines, id, nows[0], cron).Ok? ==> r[id] > times[id])
    decreases |nows|
  {
    if nows != [] {
      var next := AfterFinish(times, routines, id, nows[0], cron);
      FinishAnchorsOnStoredTime(times, routines, id, nows[0], nows[0], cron);
      RepeatedFinishAdvances(next, routines, id, nows[1..], cron);
    }
  }

  /** One printed line of `Show`: the routine's id, its name and its next occurrence. */
  datatype Line = Line(id: string, name: string, upcoming: int)

  /** The routines `Show` lists: those with a period, in schedule order. */
  function Scheduled(routines: seq<Routine>): (s: seq<Routine>)
    ensures forall r :: r in s <==> r in routines && r.period.Some?
    ensures forall i :: 0 <= i < |s| ==> s[i].period.Some?
    ensures |s| <= |routines|
  {
    if routines == [] then []
    else if routines[0].period.Some? then [routines[0]] + Scheduled(routines[1..])
    else Scheduled(routines[1..])
  }

  /** The line `Show` prints for a routine with a period, or the panic on the way to it. */
  function LineFor<P(!new)>(r: Routine, cron: Engine<P>, now: int): (line: Result<Line, Panic>)
    requires r.period.Some?
    ensures line.Ok? ==> line.value.id == r.id && line.value.name == r.name
    ensures line.Ok? <==> NextOccurrence(cron, r.period.value, now).Ok?
    ensures line.Ok? ==> line.value.upcoming == NextOccurrence(cron, r.period.value, now).value
  {
    match NextOccurrence(cron, r.period.value, now)
    case Err(p) => Err(p)
    case Ok(t) => Ok(Line(r.id, r.name, t))
  }

  /** What `Show` prints for `routines`, and the panic that stops it, if any. */
  function ShowOutput<P(!new)>(routines: seq<Routine>, cron: Engine<P>, now: int): (out: (seq<Line>, Option<Panic>))
  {
    if routines == [] then ([], None)
    else
      var r := routines[0];
      match r.period
      case None => ShowOutput(routines[1..], cron, now)
      case Some(_) =>
        match LineFor(r, cron, now)
        case Err(p) => ([], Some(p))
        case Ok(line) =>
          var rest := ShowOutput(routines[1..], cron, now);
          ([line] + rest.0, rest.1)
  }

  /**
   * The `Show` command's loop: a routine without a period is skipped; for the others a line with
   * the next occurrence after `now` is printed, until a period fails to give one.
   */
  method Show<P(!new)>(routines: seq<Routine>, cron: Engine<P>, now: int) returns (printed: seq<Line>, panic: Option<Panic>)
    ensures (printed, panic) == ShowOutput(routines, cron, now)
  {
    printed := [];
    var i := 0;
    assert routines[i..] == routines;
    assert printed + ShowOutput(routines, cron, now).0 == ShowOutput(routines, cron, now).0;
    while i < |routines|
      invariant 0 <= i <= |routines|
      invariant ShowOutput(routines, cron, now).0 == printed + ShowOutput(routines[i..], cron, now).0
      invariant ShowOutput(routines, cron, now).1 == ShowOutput(routines[i..], cron, now).1
    {
      var routine := routines[i];
      ghost var rest := ShowOutput(routines[i + 1..], cron, now);
      assert routines[i..][0] == routine && routines[i..][1..] == routines[i + 1..];
      if routine.period.None? {
        assert ShowOutput(routines[i..], cron, now) == rest;
        i := i + 1;
        continue;
      }
      var listed := LineFor(routine, cron, now);
      if listed.Err? {
        assert ShowOutput(routines[i..], cron, now) == ([], Some(listed.error));
        assert printed + [] == printed;
        return printed, Some(listed.error);
      }
      var line := listed.value;
      assert ShowOutput(routines[i..], cron, now) == ([line] + rest.0, rest.1);
      assert printed + ([line] + rest.0) == (printed + [line]) + rest.0;
      printed := printed + [line];
      i := i + 1;
    }
    assert routines[i..] == [];
    assert printed + [] == printed;
    return printed, None;
  }

  /** Listing keeps schedule order: the routines listed for a concatenation are those of each part, in turn. */
  lemma {:induction false} ScheduledKeepsOrder(a: seq<Routine>, b: seq<Routine>)
    ensures Scheduled(a + b) == Scheduled(a) + Scheduled(b)
    decreases |a|
  {
    if a == [] {
      assert a + b == b;
    } else {
      assert (a + b)[0] == a[0] && (a + b)[1..] == a[1..] + b;
      ScheduledKeepsOrder(a[1..], b);
      if a[0].period.Some? {
        assert [a[0]] + (Scheduled(a[1..]) + Scheduled(b)) == ([a[0]] + Scheduled(a[1..])) + Scheduled(b);
      }
    }
  }

  /**
   * `Show` prints, in order, the line of each listed routine; it stops at the first listed routine
   * whose period gives no occurrence, with that panic, and otherwise prints one line per listed routine.
   */
  lemma {:induction false} ShowFollowsScheduled<P(!new)>(routines: seq<Routine>, cron: Engine<P>, now: int)
    ensures var out, s := ShowOutput(routines, cron, now), Scheduled(routines);
      && |out.0| <= |s|
      && (forall i :: 0 <= i < |out.0| ==> LineFor(s[i], cron, now) == Ok(out.0[i]))
      && (out.1.None? <==> |out.0| == |s|)
      && (out.1.Some? ==> LineFor(s[|out.0|], cron, now) == Err(out.1.value))
    decreases |routines|
  {
    if routines != [] {
      var rest := routines[1..];
      ShowFollowsScheduled(rest, cron, now);
      var r := routines[0];
      if r.period.Some? {
        var s := Scheduled(routines);
        assert s == [r] + Scheduled(rest);
        var out := ShowOutput(routines, cron, now);
        var outRest := ShowOutput(rest, cron, now);
        if LineFor(r, cron, now).Ok? {
          assert out == ([LineFor(r, cron, now).value] + outRest.0, outRest.1);
          forall i | 0 <= i < |out.0|
            ensures LineFor(s[i], cron, now) == Ok(out.0[i])
          {
            if i > 0 {
              assert out.0[i] == outRest.0[i - 1] && s[i] == Scheduled(rest)[i - 1];
            }
          }
        }
      }
    }
  }

  /** Every line `Show` prints lies strictly after `now`, for an engine whose occurrences lie strictly after their anchor. */
  lemma ShowListsUpcoming<P(!new)>(routines: seq<Routine>, cron: Engine<P>, now: int)
    requires StrictlyAfter(cron)
    ensures forall line :: line in ShowOutput(routines, cron, now).0 ==> line.upcoming > now
  {
    ShowFollowsScheduled(routines, cron, now);
  }
}
