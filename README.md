# Periodic activities registry of ntopng

This project models the registry of periodic activities in ntopng
(`src/PeriodicActivities.cpp`): the object that, at start-up, walks a static
descriptor table of script tiers (every second, every five seconds, every
minute, every five minutes, hourly, daily, housekeeping), sizes a thread pool
for each tier, builds a threaded activity for it, appends that activity to a
fixed-capacity array and runs it; that later notifies every registered
activity of shutdown or hands it the Lua VM; and that tears everything down
in three phases when it is destroyed.

The model is imperative, as the source is:

- `Scheduler.PeriodicActivities` is a class with the registry array
  `activities`, the counter `numActivities`, the six pool handles, and a ghost
  event log `trace` recording every call the registry makes on an activity
  or pool handle (`run`, `shutdown`, `lua`, `terminateEnqueueLoop`, the
  synchronous run of the start-up script, and the deletion of pools and
  activities), so that counting, indexing and ordering can be stated.
- The function-local static table is an `array<ActivityDescr>` that the walk
  updates in place; `ActivityTable.DescriptorTable` is its initial contents.
- What the environment answers is an input: whether the callbacks directory
  can be stat'ed, whether each allocation succeeds, and how many interfaces
  the walk sees at each row (`StartEnv`, `TierEnv`). `exit(0)` is the outcome
  `exited`; `time(NULL)` is the parameter `now`.
- The thread count of a tier is computed in an 8-bit counter, written out as
  `% 256`, then capped at `MAX_THREAD_POOL_SIZE`; so 255 interfaces give a
  count of zero and the tier is skipped.
- Which rows the walk registers is specified by the function
  `ActivityTable.RegisteredBefore`, the indices of the admitted rows in table
  order. The walk is proved against it through the predicate
  `Scheduler.Walked`: rows already visited carry their new pool, later rows
  are untouched, and the slots after the old count hold one new activity per
  registered row, built from that row.
- The pools the walk allocates are stored into the static table only. The six
  pool handles of the object are assigned only by the constructor, to NULL,
  and are modelled as `const` fields. The destructor's pool deletions
  therefore act on NULL handles and delete nothing; `Scheduler.Lifecycle`
  states this. This is the behaviour of the code, kept as it is.

## Model

| member | source | states |
|---|---|---|
| Scheduler.PeriodicActivities.constructor | src/PeriodicActivities.cpp:36-45 | every slot is NULL, all six pool handles are NULL, the count is 0, no call has been made, and the registry is packed |
| Scheduler.PeriodicActivities.NewStaticTable | src/PeriodicActivities.cpp:123-135 | the static table is initialised from the object's six pool handles, as `DescriptorTable` gives it |
| ActivityTable.DescriptorTable | src/PeriodicActivities.cpp:123-135 | eight rows, the walk visits seven; the NULL-path sentinel is last; only the daily row aligns to local time; no row excludes viewed interfaces; among the tiers only housekeeping includes pcap-dump interfaces; the five-second tier shares the one-second pool handle; no row names the start-up script; the visited paths in table order |
| ActivityTable.WalkLength | src/PeriodicActivities.cpp:137-139 | the walk stops at the first NULL path: every earlier row has a path and the row it stops at has none |
| ActivityTable.WalkLengthIs | src/PeriodicActivities.cpp:139-164 | a table whose first NULL path is at `n` is walked for exactly `n` rows |
| ActivityTable.PoolSize | src/PeriodicActivities.cpp:141-146 | the count is below 256 and at most the cap; it is zero exactly when interfaces+1 wraps to zero in 8 bits or the cap is zero; it is interfaces+1 when that fits both; it is the 8-bit count (interfaces+1) mod 256 whenever that is at most the cap, and the cap when it exceeds it |
| ActivityTable.RegisteredPrefix | src/PeriodicActivities.cpp:139-165 | the rows registered among the first `m` are a prefix of those registered among the first `n >= m` |
| ActivityTable.RegisteredInTableOrder | src/PeriodicActivities.cpp:139-165 | only admitted rows (non-zero thread count and allocated activity) are registered, in strictly increasing table order |
| ActivityTable.RegisteredComplete | src/PeriodicActivities.cpp:146-161 | every admitted row among the first `n` is registered |
| ActivityTable.RegistersEveryAdmittedTier | src/PeriodicActivities.cpp:139-165 | when every row is admitted, row `k` is the `k`-th registered |
| ActivityTable.StandardTableRegistersSevenTiers | src/PeriodicActivities.cpp:123-165 | on the standard table, with fewer than 255 interfaces, a positive cap and successful allocations, the seven tiers are registered in table order |
| ActivityTable.WrappedCounterRegistersNothing | src/PeriodicActivities.cpp:141-146 | with exactly 255 interfaces at every row, the counter wraps to zero and no row is registered |
| Scheduler.PeriodicActivities.SetRowPool | src/PeriodicActivities.cpp:141-147 | only the pool slot of row `i` changes: it holds a new pool of the computed size, or NULL when the allocation fails |
| Scheduler.PeriodicActivities.Append | src/PeriodicActivities.cpp:158-161 | the activity is written at index `numActivities`, the count grows by one, `run` is called once on it, and the registry stays packed |
| Scheduler.PeriodicActivities.RegisterRow | src/PeriodicActivities.cpp:140-162 | one step of the walk keeps `Walked`; an activity is registered exactly when the row is admitted, it is newly allocated, and it is run; otherwise the registry and the log are unchanged |
| Scheduler.WalkStep | src/PeriodicActivities.cpp:139-164 | writing row `i` and, if it is admitted, registering one activity built from it in the next slot extends `Walked` from row `i` to row `i + 1` |
| Scheduler.RowInWalk | src/PeriodicActivities.cpp:139-159 | a row with a path comes before the sentinel, and when it is admitted the registry has room for it |
| Scheduler.WalkDone | src/PeriodicActivities.cpp:139-165 | a walk that reaches a NULL path has visited exactly the rows before the sentinel |
| Scheduler.PeriodicActivities.RegisterTiers | src/PeriodicActivities.cpp:137-165 | after the walk, every visited row carries its new pool, later rows are unchanged, the old slots are kept, one activity per registered row follows them in table order and is built from that row, the count grew by exactly that many, and the log holds one `run` per new activity, in order |
| Scheduler.AddedFromTable | src/PeriodicActivities.cpp:151-159 | a script that no row of the table names is named by no activity the walk registers |
| Scheduler.PeriodicActivities.RunBootstrap | src/PeriodicActivities.cpp:113-121 | when the allocation succeeds, a new activity for the start-up script runs that script exactly once at `now` and is then deleted; otherwise nothing happens; the registry is not touched |
| Scheduler.PeriodicActivities.StartPeriodicActivitiesLoop | src/PeriodicActivities.cpp:98-166 | it exits exactly when the callbacks directory cannot be stat'ed, and then nothing is created, registered or logged; otherwise the bootstrap runs once and is deleted before any tier is registered, it is never stored in any slot, and the tiers are registered as `RegisterTiers` states |
| Scheduler.PeriodicActivities.Lua | src/PeriodicActivities.cpp:80-85 | `lua` is called, in index order, on exactly the non-NULL slots below the count |
| Scheduler.PeriodicActivities.CallEachSlot | src/PeriodicActivities.cpp:53-57 | the call is made, in index order, on exactly the non-NULL slots of the whole array; the registry is not changed |
| Scheduler.PeriodicActivities.SendShutdownSignal | src/PeriodicActivities.cpp:89-94 | `shutdown` is called, in index order, on exactly the non-NULL slots; only the log changes, so repeating it repeats the same calls |
| Scheduler.PeriodicActivities.LiveSlotsAreRegistered | src/PeriodicActivities.cpp:80-94 | in a packed registry the slots below the count, which `lua` visits, are exactly the non-NULL slots of the whole array, which shutdown visits: the registered activities, in order |
| Collaborators.LivePacked | src/PeriodicActivities.cpp:69-75 | in a registry packed at `m`, the non-NULL slots among the first `n` are the first `min(n, m)` slots |
| Scheduler.PeriodicActivities.DeletePoolField | src/PeriodicActivities.cpp:60 | a pool handle is deleted exactly when it is not NULL |
| Scheduler.PeriodicActivities.DeletePoolFields | src/PeriodicActivities.cpp:59-65 | the six pool handles are deleted, each only when set, in declaration order |
| Scheduler.PeriodicActivities.PoolFieldDeletesOnlyDeletePools | src/PeriodicActivities.cpp:59-65 | the second phase of teardown deletes pools and nothing else |
| Scheduler.PeriodicActivities.DeleteActivities | src/PeriodicActivities.cpp:67-75 | every registered activity is deleted, in index order; afterwards every slot is NULL and the count is back to 0 |
| Scheduler.TeardownPhases | src/PeriodicActivities.cpp:49-76 | joining all activities, then deleting pools, then deleting the activities is in teardown order, and every deleted activity was joined first |
| Scheduler.PeriodicActivities.Destroy | src/PeriodicActivities.cpp:49-76 | the log gains exactly: `terminateEnqueueLoop` on every registered activity, then the pool deletions, then the deletion of every registered activity; these phases never go backwards; afterwards every slot is NULL and the count is 0 |
| Scheduler.Lifecycle | src/PeriodicActivities.cpp:36-166 | over construction, start-up and destruction, the six pool handles stay NULL; each tier pool that was allocated is still stored in the static table after the walk; no pool is ever deleted; unless start-up exits, the registry ends empty |

## Left out

- The bodies of `ThreadedActivity` and `ThreadPool` (timing loops, worker threads, script execution) are not part of this model; their calls appear only as events of the log.
- The first argument `false` of the pool constructor and the Lua interface and VM arguments of `lua` are not modelled; only which activity is called is recorded.
- `ThreadedActivity.Startup` states only the path and the absent pool of the bootstrap activity; its other defaults are declared in a header that is not part of this model.
- The script-path macros (`STARTUP_SCRIPT_PATH`, `SECOND_SCRIPT_DIR`, ...) are defined in headers that are not part of this model; they are modelled as distinct names of `ScriptPath`, not as strings, so two of them are never equal.
- Trace logging is left out; `stat`, `exit(0)` and `time(NULL)` are inputs or outcomes, as described above.
- The constants `CONST_MAX_NUM_THREADED_ACTIVITIES` and `MAX_THREAD_POOL_SIZE` come from headers that are not part of this model; they are constructor parameters.
- The integer widths of the counter `num_activities` and of the `u_int16_t` loop indices are not modelled; capacities are unbounded naturals.
- Scheduler.PeriodicActivities.StartPeriodicActivitiesLoop: requires room in the registry for every row the walk admits, because the source writes `activities[num_activities++]` without a bounds check. It also requires that no row of the table names the start-up script, which holds of the static table (`DescriptorTable` states it); the bootstrap's absence from the registry is derived from that.
- Scheduler.PeriodicActivities.RegisterTiers: does not state that the pools and activities it allocates are new objects; `SetRowPool` and `RegisterRow` state it for one row.
- Scheduler.PeriodicActivities.Lua: the loop index is a signed `int` compared with the counter; the model uses naturals.
