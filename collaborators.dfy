/** The collaborators of the periodic-activities registry, seen only through
    their handles: a thread pool, a threaded activity, and the calls the
    registry makes on them, recorded as events of a log. What the pool and
    the activity do with those calls (timing loops, worker threads) is not
    part of this model. */
module Collaborators {

  /** The script locations the registry knows by name. `NullPath` is the
      NULL path that ends the descriptor table. */
  datatype ScriptPath =
    | NullPath
    | StartupScriptPath
    | SecondScriptDir
    | FiveSecondScriptDir
    | MinuteScriptDir
    | FiveMinutesScriptDir
    | HourlyScriptDir
    | DailyScriptDir
    | HousekeepingScriptPath

  /** A pool of worker threads; only its size is observable here. */
  class ThreadPool {
    const numThreads: nat

    constructor (numThreads: nat)
      ensures this.numThreads == numThreads
    {
      this.numThreads := numThreads;
    }
  }

  /** A periodic activity: the configuration it was built with and the pool
      it submits its work to. */
  class ThreadedActivity {
    const path: ScriptPath
    const periodicity: nat
    const maxDurationSecs: nat
    const alignToLocaltime: bool
    const excludeViewedInterfaces: bool
    const excludePcapDumpInterfaces: bool
    const pool: ThreadPool?

    constructor (path: ScriptPath, periodicity: nat, maxDurationSecs: nat,
                 alignToLocaltime: bool, excludeViewedInterfaces: bool,
                 excludePcapDumpInterfaces: bool, pool: ThreadPool?)
      ensures this.path == path && this.periodicity == periodicity
      ensures this.maxDurationSecs == maxDurationSecs
      ensures this.alignToLocaltime == alignToLocaltime
      ensures this.excludeViewedInterfaces == excludeViewedInterfaces
      ensures this.excludePcapDumpInterfaces == excludePcapDumpInterfaces
      ensures this.pool == pool
    {
      this.path := path;
      this.periodicity := periodicity;
      this.maxDurationSecs := maxDurationSecs;
      this.alignToLocaltime := alignToLocaltime;
      this.excludeViewedInterfaces := excludeViewedInterfaces;
      this.excludePcapDumpInterfaces := excludePcapDumpInterfaces;
      this.pool := pool;
    }

    /** The one-argument constructor used for the bootstrap activity. Its
        other settings are defaults declared with the class, which is not
        part of this model; only the path and the absence of a pool are
        stated. */
    constructor Startup(path: ScriptPath)
      ensures this.path == path && this.pool == null
    {
      this.path := path;
      this.pool := null;
    }
  }

  /** The calls the registry makes on an activity. `Delete` stands for the
      C++ `delete` of the activity object. */
  datatype Op = Run | Shutdown | Lua | TerminateEnqueueLoop | Delete

  /** One entry of the event log. */
  datatype Event =
    | Call(op: Op, activity: ThreadedActivity)
    | RunSystemScript(activity: ThreadedActivity, when: int)
    | DeletePool(pool: ThreadPool)

  /** The events of calling `op` on each of `acts`, in order. */
  function Calls(op: Op, acts: seq<ThreadedActivity>): seq<Event>
  {
    seq(|acts|, k requires 0 <= k < |acts| => Call(op, acts[k]))
  }

  /** The non-NULL slots among the first `n` of a registry array, in index
      order. */
  function Live(slots: seq<ThreadedActivity?>, n: nat): (r: seq<ThreadedActivity>)
    requires n <= |slots|
    ensures |r| <= n
  {
    if n == 0 then []
    else if slots[n - 1] == null then Live(slots, n - 1)
    else Live(slots, n - 1) + [slots[n - 1]]
  }

  /** A registry array is packed at `m` when exactly its first `m` slots are
      non-NULL. Then the live slots among its first `n` are exactly its first
      `n` slots, or its first `m` once `n` passes `m`. */
  lemma {:induction false} LivePacked(slots: seq<ThreadedActivity?>, m: nat, n: nat)
    requires m <= |slots| && n <= |slots|
    requires forall i :: 0 <= i < |slots| ==> (slots[i] != null <==> i < m)
    ensures |Live(slots, n)| == if n <= m then n else m
    ensures forall k :: 0 <= k < n && k < m ==> Live(slots, n)[k] == slots[k]
  {
    if n > 0 {
      LivePacked(slots, m, n - 1);
    }
  }

  /** Calling `op` on one more activity appends one event to a log. */
  lemma CallsSnoc(log: seq<Event>, op: Op, acts: seq<ThreadedActivity>, a: ThreadedActivity)
    ensures log + Calls(op, acts + [a]) == log + Calls(op, acts) + [Call(op, a)]
  {
    assert Calls(op, acts + [a]) == Calls(op, acts) + [Call(op, a)];
  }
}
