# looper — a Dafny model of the routine scheduler's core

looper keeps a schedule of recurring routines. Each routine has an id, a display name and a cron
period. It also keeps a state file holding the last finish time of each routine. This project
models three parts of the Rust code:

- `heavy/src/config.rs` (module `Config`):
  - where the two TOML files live: an explicit configuration folder, or `$HOME/.config/looper`;
  - how the decoded schedule file, a map `period -> (id -> name)`, is regrouped into a schedule
    keyed by routine id. An id listed under two periods is a key collision.
- `heavy/src/lib.rs` (module `Lib`), the older version of the same library:
  - every path is under `$HOME`;
  - each group of the schedule file carries its own `period` key, and the groups are flattened
    into one map. A group without that key panics; an id listed twice is kept from the group
    visited last.
- `logic/src/main.rs` (module `Logic`), the binary:
  - `Show` prints, for every routine with a period, its next occurrence after now;
  - `Finish` moves the stored finish time of the first routine with the given id one occurrence
    of its period forward, anchored on the stored time or, when none is stored, on now.

The cron library is a parameter, `Cron.Engine`: a parser of period strings and a "first
occurrence after t" function. The one fact about it that the proofs use is `Cron.StrictlyAfter`,
which says every occurrence lies strictly after its anchor. It appears as a hypothesis wherever it
is needed. Times are integers. Panics are `Err` values, and no state is written when one occurs.

A Rust `HashMap` iterates in an order the program does not choose:

- `Config.Regroup` picks each next period and id with `:|`, so its contract holds for every order.
- `Lib.ReadSchedule` takes the order as a parameter, and its contract does not mention the order.

## Model

| member | source | states |
|---|---|---|
| Config.GetPath | heavy/src/config.rs:14-31 | With a folder the path is `folder/{schedule,state}.toml`; without one it is `$HOME/.config/looper/...`; it fails, with the `$HOME` message, exactly when neither a folder nor `$HOME` is available |
| Config.GetPathSplits | heavy/src/config.rs:14-31 | Every path built can be split back into the folder it was built from and the configuration kind |
| Config.KindsGetDistinctPaths | heavy/src/config.rs:23-30 | The schedule and state paths for the same folder and `$HOME` both succeed or both fail, and they are different files |
| Config.InsertGroup | heavy/src/config.rs:55-69 | Inserting one period's ids succeeds iff no id is already in the result, and then adds exactly those ids with that period; otherwise it reports an id in both, with its old name and period and its new name and period |
| Config.Regroup | heavy/src/config.rs:53-72 | The regrouping succeeds iff no id is listed under two periods. On success it returns a schedule in which each id maps to its own name and period, with one entry per listed pair. On failure the reported collision is a real one, with the names the file gives. This holds for every iteration order |
| Config.RegroupClash | heavy/src/config.rs:56-67 | A failed insertion during the loop reports an id listed under two distinct periods |
| Config.RegroupingIsUnique | heavy/src/config.rs:53-72 | Two schedules that both regroup the same file are equal, so the result does not depend on the iteration order |
| Lib.GetPath | heavy/src/lib.rs:14-23 | The path is `$HOME/.config/looper/{schedule,state}.toml`, and it fails with the `$HOME` message iff `$HOME` is unavailable |
| Lib.GetPathAgreesWithConfig | heavy/src/lib.rs:14-23 | The older path function gives what the newer one gives when no folder is passed |
| Lib.GroupRoutines | heavy/src/lib.rs:69-75 | A group contributes every key except `period` |
| Lib.Flatten | heavy/src/lib.rs:67-77 | For the groups in iteration order: it panics with a missing `period` key iff some group lacks one. On success `period` is never an id, the ids are exactly those listed in some group, and each id's routine comes from a group that lists it |
| Lib.LastGroupWins | heavy/src/lib.rs:67-77 | For an id listed in several groups, the last group listing it supplies its name and period |
| Lib.ReadSchedule | heavy/src/lib.rs:67-77 | The same as Flatten, stated over the map of groups; whether it panics and which ids it returns do not depend on the iteration order |
| Logic.FindRoutine | logic/src/main.rs:30-33 | The result is absent iff no routine has the id; otherwise it is the first routine in schedule order with that id |
| Logic.NextOccurrence | logic/src/main.rs:39-43 | It gives a time iff the period parses and has an occurrence after the anchor; otherwise it gives the parse or exhaustion panic. Under `StrictlyAfter` the time is later than the anchor |
| Logic.FinishTime | logic/src/main.rs:29-44 | It panics with an unknown-task error iff no routine has the id. Under `StrictlyAfter`, the new finish time is later than the stored one, or later than now when none is stored |
| Logic.AfterFinish | logic/src/main.rs:37-44 | A successful finish stores the new finish time under the id and changes no other entry; a panic leaves the finish times unchanged; every other entry is kept |
| Logic.State.Finish | logic/src/main.rs:29-46 | The `Finish` command returns the finish time or panic of `FinishTime`, and leaves the stored map as `AfterFinish` describes |
| Logic.FinishUsesFirstMatch | logic/src/main.rs:30-43 | `Finish` acts on the first routine with the id: it panics when that routine has no period, and otherwise takes the next occurrence of its period after the stored time, or after now |
| Logic.FinishStoresNextOccurrence | logic/src/main.rs:30-43 | A successful `Finish` stores for the id the next occurrence of the first matching routine's period, after the stored finish time or after now when none is stored |
| Logic.FinishAnchorsOnStoredTime | logic/src/main.rs:41 | Once a finish time is stored, the result of `Finish` does not depend on now |
| Logic.RepeatedFinishIgnoresNow | logic/src/main.rs:37-44 | Once a finish time is stored, any run of `Finish` calls of equal length ends in the same state, whatever the clock reads |
| Logic.RepeatedFinishAdvances | logic/src/main.rs:37-44 | Under `StrictlyAfter`, a run of `Finish` calls never moves a stored finish time back, and the first call that succeeds moves it strictly forward |
| Logic.Scheduled | logic/src/main.rs:15-16 | The routines listed are exactly the ones with a period, and each listed routine has a period |
| Logic.ScheduledKeepsOrder | logic/src/main.rs:15-16 | The listing keeps schedule order: the routines listed for a concatenation are those of each part, in turn |
| Logic.LineFor | logic/src/main.rs:17-24 | A printed line carries the routine's id and name, and the next occurrence of its period after now; there is a line iff the period parses and has an occurrence |
| Logic.Show | logic/src/main.rs:15-26 | The `Show` loop prints, and panics, exactly as `ShowOutput` describes |
| Logic.ShowFollowsScheduled | logic/src/main.rs:15-26 | `Show` prints the lines of the listed routines in order. It panics iff it stops before the end, and then with the panic of the first listed routine that gives no line |
| Logic.ShowListsUpcoming | logic/src/main.rs:15-26 | Under `StrictlyAfter`, every printed occurrence lies after now |

## Left out

- File I/O: reading the TOML files, `read_state`, `write_state` and the TOML (de)serialisation are not modelled. `Config.Regroup` and `Lib.ReadSchedule` start from the decoded map; `Logic.State` holds the decoded finish times.
- The "No configuration file" and "Wrong schedule file format" errors come from reading and decoding, so they are not modelled.
- `$HOME` is a parameter of type `Option<string>`. `None` stands both for an unset and for a non-Unicode variable; the source treats both alike.
- `Config.GetPath`: the folder is given as a string. The panic of `to_str().unwrap()` on a non-UTF-8 `PathBuf` is not modelled.
- The `cron` crate is a parameter (`Cron.Engine`). The cron syntax and how occurrences are computed are not modelled. The one fact used about them is `Cron.StrictlyAfter`, which is taken as a hypothesis.
- `chrono` date-times and time zones are integers; `Local::now()` is the parameter `now`.
- `Logic.Show`: the source reads the clock afresh for each routine; the model uses one `now` for the whole loop.
- Colouring and formatting of the printed lines: each line is a `Logic.Line` value, and the "Upcoming:" heading is not modelled.
- `Config.Regroup` reports a collision as a `Config.Collision` value. The text of the message, with its Debug quoting of names and periods, is not modelled.
- Command-line parsing (`heavy/src/cli.rs`, `parse_cli`) and the top-level `src/main.rs` are not part of this model. The model starts after a command has been chosen.
- `logic/src/main.rs` is built against a version of `heavy` whose schedule is a list of routines, each with an id, a name and an optional period. That version is not part of this model. `Logic.Routine` records only the fields the binary uses.
- There is no agenda: `Show` prints every routine that has a period, in schedule order. It does not split routines into overdue and upcoming, and it does not sort them.
- With no stored finish time, `Finish` anchors on `now`. With a stored time it anchors on that time; there is no rule taking the later of the due time and now.
