/** The periodic-activities registry: a fixed-capacity array of activity
    handles, the count of registered activities, six pool handles, and the
    start-up, shutdown, introspection and teardown operations over them.
    Every call the registry makes on a collaborator is appended to a ghost
    event log, so that the order of those calls can be stated. */
module Scheduler {
  import opened Collaborators
  import opened ActivityTable

  /** What the environment answers during start-up: whether the callbacks
      directory can be stat'ed, whether the bootstrap activity can be
      allocated, and, for each row of the descriptor table, what the walk
      sees there. */
  datatype StartEnv = StartEnv(callbacksDirReadable: bool, bootstrapAllocated: bool, tiers: seq<TierEnv>)

  /** The configuration activity `a` was built with, written as a row of the
      descriptor table. */
  function Config(a: ThreadedActivity): ActivityDescr
  {
    ActivityDescr(a.path, a.periodicity, a.maxDurationSecs, a.pool,
                  a.alignToLocaltime, a.excludeViewedInterfaces, a.excludePcapDumpInterfaces)
  }

  /** Exactly the first `n` of `slots` hold an activity. */
  predicate Packed(slots: seq<ThreadedActivity?>, n: nat)
  {
    && n <= |slots|
    && forall i :: 0 <= i < |slots| ==> (slots[i] != null <==> i < n)
  }

  /** What one step of the walk leaves in its row, given the row before the
      step: only the pool slot may change; it is kept when the thread count
      is zero, and otherwise holds a pool of that many threads, or NULL when
      the pool could not be allocated. */
  predicate RowWritten(before: ActivityDescr, after: ActivityDescr, env: TierEnv, maxThreadPoolSize: nat)
  {
    var n := PoolSize(env.numInterfaces, maxThreadPoolSize);
    && after == before.(pool := after.pool)
    && (n == 0 ==> after.pool == before.pool)
    && (n != 0 && env.poolAllocated ==> after.pool != null && after.pool.numThreads == n)
    && (n != 0 && !env.poolAllocated ==> after.pool == null)
  }

  /** The walk allocates a new pool for a row exactly when its thread count is
      not zero and the allocation succeeds. */
  predicate PoolAllocated(env: TierEnv, maxThreadPoolSize: nat)
  {
    PoolSize(env.numInterfaces, maxThreadPoolSize) != 0 && env.poolAllocated
  }

  /** The state of the walk before row `i`, from the table `ds` and the
      registry slots `s0` holding `n0` activities it started from: the rows
      before `i` have been written, the later ones are untouched, and the
      activities `added` for the rows registered so far follow the first
      `n0` slots, each built from its row. */
  ghost predicate Walked(ds: seq<ActivityDescr>, rows: seq<ActivityDescr>, tiers: seq<TierEnv>,
                         maxThreadPoolSize: nat, i: nat, s0: seq<ThreadedActivity?>, n0: nat,
                         slots: seq<ThreadedActivity?>, added: seq<ThreadedActivity>)
  {
    && |rows| == |ds| == |tiers| && i <= |ds|
    && (forall j :: 0 <= j < i ==> RowWritten(ds[j], rows[j], tiers[j], maxThreadPoolSize))
    && (forall j :: i <= j < |rows| ==> rows[j] == ds[j])
    && |slots| == |s0| && n0 + |added| <= |slots|
    && (forall k :: 0 <= k < n0 ==> slots[k] == s0[k])
    && (forall k :: n0 <= k < n0 + |added| ==> slots[k] == added[k - n0])
    && (forall k :: n0 + |added| <= k < |slots| ==> slots[k] == s0[k])
    && |added| == |RegisteredBefore(tiers, maxThreadPoolSize, i)|
    && (forall k :: 0 <= k < |added| ==>
          Config(added[k]) == rows[RegisteredBefore(tiers, maxThreadPoolSize, i)[k]])
  }

  /** One step of the walk at row `i` leaves `rows'` with row `i` written
      and, when the row is admitted, registers `ta` in the next slot. */
  lemma WalkStep(ds: seq<ActivityDescr>, rows: seq<ActivityDescr>, tiers: seq<TierEnv>,
                 maxThreadPoolSize: nat, i: nat, s0: seq<ThreadedActivity?>, n0: nat,
                 slots: seq<ThreadedActivity?>, added: seq<ThreadedActivity>, ta: ThreadedActivity?,
                 rows': seq<ActivityDescr>, slots': seq<ThreadedActivity?>, added': seq<ThreadedActivity>)
    requires Walked(ds, rows, tiers, maxThreadPoolSize, i, s0, n0, slots, added)
    requires i < |ds| == |rows'| && RowWritten(ds[i], rows'[i], tiers[i], maxThreadPoolSize)
    requires forall j :: 0 <= j < |rows| && j != i ==> rows'[j] == rows[j]
    requires ta != null <==> Admitted(tiers[i], maxThreadPoolSize)
    requires ta == null ==> slots' == slots && added' == added
    requires ta != null ==>
      && Config(ta) == rows'[i] && n0 + |added| < |slots|
      && slots' == slots[n0 + |added| := ta] && added' == added + [ta]
    ensures Walked(ds, rows', tiers, maxThreadPoolSize, i + 1, s0, n0, slots', added')
  {
    var r := RegisteredBefore(tiers, maxThreadPoolSize, i);
    assert forall k :: 0 <= k < |r| ==> r[k] < i;
  }

  /** A walk that has reached the sentinel row has walked the whole table. */
  lemma WalkDone(ds: seq<ActivityDescr>, rows: seq<ActivityDescr>, tiers: seq<TierEnv>,
                 maxThreadPoolSize: nat, i: nat, s0: seq<ThreadedActivity?>, n0: nat,
                 slots: seq<ThreadedActivity?>, added: seq<ThreadedActivity>)
    requires Walked(ds, rows, tiers, maxThreadPoolSize, i, s0, n0, slots, added)
    requires i <= WalkLength(ds) < |ds| && rows[i].path == NullPath
    ensures Walked(ds, rows, tiers, maxThreadPoolSize, WalkLength(ds), s0, n0, slots, added)
  {
    assert rows[i] == ds[i];
  }

  /** Row `i` of a walk that has not reached the sentinel is before it, and
      if it is admitted the registry still has room for it, given room for
      every row the whole walk admits. */
  lemma RowInWalk(ds: seq<ActivityDescr>, rows: seq<ActivityDescr>, tiers: seq<TierEnv>,
                  maxThreadPoolSize: nat, i: nat, n0: nat, added: seq<ThreadedActivity>, capacity: nat)
    requires |ds| == |rows| == |tiers| && i <= WalkLength(ds) < |ds|
    requires rows[i].path != NullPath && rows[i] == ds[i]
    requires |added| == |RegisteredBefore(tiers, maxThreadPoolSize, i)|
    requires n0 + |RegisteredBefore(tiers, maxThreadPoolSize, WalkLength(ds))| <= capacity
    ensures i < WalkLength(ds)
    ensures Admitted(tiers[i], maxThreadPoolSize) ==> n0 + |added| < capacity
  {
    if Admitted(tiers[i], maxThreadPoolSize) {
      RegisteredPrefix(tiers, maxThreadPoolSize, i + 1, WalkLength(ds));
    }
  }

  /** Every activity a walk registers is built from a row of the table, so
      it names a script the table names. */
  lemma AddedFromTable(ds: seq<ActivityDescr>, rows: seq<ActivityDescr>, tiers: seq<TierEnv>,
                       maxThreadPoolSize: nat, i: nat, s0: seq<ThreadedActivity?>, n0: nat,
                       slots: seq<ThreadedActivity?>, added: seq<ThreadedActivity>, p: ScriptPath)
    requires Walked(ds, rows, tiers, maxThreadPoolSize, i, s0, n0, slots, added)
    requires forall j :: 0 <= j < |ds| ==> ds[j].path != p
    ensures forall k :: 0 <= k < |added| ==> added[k].path != p
  {
    var r := RegisteredBefore(tiers, maxThreadPoolSize, i);
    forall k | 0 <= k < |added|
      ensures added[k].path != p
    {
      assert Config(added[k]) == rows[r[k]] && r[k] < i;
    }
  }

  /** The events of the bootstrap activity: one synchronous script run at
      time `now`, then its deletion. */
  function BootstrapEvents(bootstrap: ThreadedActivity?, now: int): seq<Event>
  {
    if bootstrap == null then [] else [RunSystemScript(bootstrap, now), Call(Delete, bootstrap)]
  }

  /** The deletion of one pool handle, if it is not NULL. */
  function PoolDelete(p: ThreadPool?): seq<Event>
  {
    if p == null then [] else [DeletePool(p)]
  }

  /** Appending to a log in two steps is appending once. */
  lemma LogAssoc(log: seq<Event>, a: seq<Event>, b: seq<Event>)
    ensures log + a + b == log + (a + b)
  {
  }

  /** What was appended to a log can be read back from its end. */
  lemma LogSuffix(log: seq<Event>, a: seq<Event>)
    ensures (log + a)[|log|..] == a
  {
  }

  /** The teardown phase an event belongs to: 1 joins a timing loop, 2 deletes
      a pool, 3 deletes an activity; 0 is any other event. */
  function Phase(e: Event): nat
  {
    match e
    case Call(TerminateEnqueueLoop, _) => 1
    case DeletePool(_) => 2
    case Call(Delete, _) => 3
    case _ => 0
  }

  /** Every event of `es` belongs to a teardown phase, and the phases never go
      backwards. */
  predicate TeardownOrdered(es: seq<Event>)
  {
    && (forall k :: 0 <= k < |es| ==> Phase(es[k]) > 0)
    && (forall k, l :: 0 <= k < l < |es| ==> Phase(es[k]) <= Phase(es[l]))
  }

  /** Every event of `es` deletes a pool. */
  predicate OnlyPoolDeletes(es: seq<Event>)
  {
    forall k :: 0 <= k < |es| ==> es[k].DeletePool?
  }

  /** Deleting one more pool handle keeps a log of pool deletions one. */
  lemma OnlyPoolDeletesAppend(es: seq<Event>, p: ThreadPool?)
    requires OnlyPoolDeletes(es)
    ensures OnlyPoolDeletes(es + PoolDelete(p))
  {
  }

  /** Joining the timing loops of `live`, then deleting the pools of
      `poolDeletes`, then deleting the activities of `live` respects the
      teardown order; every activity that is deleted was joined first. */
  lemma TeardownPhases(live: seq<ThreadedActivity>, poolDeletes: seq<Event>)
    requires OnlyPoolDeletes(poolDeletes)
    ensures TeardownOrdered(Calls(TerminateEnqueueLoop, live) + poolDeletes + Calls(Delete, live))
    ensures forall a :: a in live ==>
      Call(TerminateEnqueueLoop, a) in Calls(TerminateEnqueueLoop, live) && Call(Delete, a) in Calls(Delete, live)
  {
    var es := Calls(TerminateEnqueueLoop, live) + poolDeletes + Calls(Delete, live);
    var n, m := |live|, |poolDeletes|;
    forall k | 0 <= k < |es|
      ensures Phase(es[k]) == if k < n then 1 else if k < n + m then 2 else 3
    {
      if k < n {
        assert es[k] == Call(TerminateEnqueueLoop, live[k]);
      } else if k < n + m {
        assert es[k] == poolDeletes[k - n];
      } else {
        assert es[k] == Call(Delete, live[k - n - m]);
      }
    }
    forall a | a in live
      ensures Call(TerminateEnqueueLoop, a) in Calls(TerminateEnqueueLoop, live)
      ensures Call(Delete, a) in Calls(Delete, live)
    {
      var k :| 0 <= k < |live| && live[k] == a;
      assert Calls(TerminateEnqueueLoop, live)[k] == Call(TerminateEnqueueLoop, a);
      assert Calls(Delete, live)[k] == Call(Delete, a);
    }
  }

  class PeriodicActivities {
    /** The registry's capacity (the constant CONST_MAX_NUM_THREADED_ACTIVITIES). */
    const maxNumThreadedActivities: nat
    /** The cap on a tier's thread count (the constant MAX_THREAD_POOL_SIZE). */
    const maxThreadPoolSize: nat

    const activities: array<ThreadedActivity?>
    var numActivities: nat

    /** The six pool handles. Only the constructor assigns them; the walk
        writes its pools into the static table instead. */
    const secondThreadPool: ThreadPool?
    const minuteThreadPool: ThreadPool?
    const fiveMinuteThreadPool: ThreadPool?
    const hourlyThreadPool: ThreadPool?
    const dailyThreadPool: ThreadPool?
    const housekeepingPool: ThreadPool?

    /** Every call made on a collaborator, in order. */
    ghost var trace: seq<Event>

    /** The registry is appended to in order: exactly its first
        `numActivities` slots hold an activity. */
    ghost predicate Valid()
      reads this, activities
    {
      && activities.Length == maxNumThreadedActivities
      && Packed(activities[..], numActivities)
    }

    /** None of the six pool handles of the object is set. */
    predicate PoolFieldsNull()
    {
      && secondThreadPool == null && minuteThreadPool == null && fiveMinuteThreadPool == null
      && hourlyThreadPool == null && dailyThreadPool == null && housekeepingPool == null
    }

    /** The deletions the destructor performs on the six pool handles. */
    function PoolFieldDeletes(): seq<Event>
    {
      PoolDelete(secondThreadPool) + PoolDelete(minuteThreadPool) + PoolDelete(fiveMinuteThreadPool)
      + PoolDelete(hourlyThreadPool) + PoolDelete(dailyThreadPool) + PoolDelete(housekeepingPool)
    }

    /** The destructor's pool phase deletes pools and nothing else. */
    lemma PoolFieldDeletesOnlyDeletePools()
      ensures OnlyPoolDeletes(PoolFieldDeletes())
    {
      var es := PoolDelete(secondThreadPool);
      OnlyPoolDeletesAppend(es, minuteThreadPool);
      es := es + PoolDelete(minuteThreadPool);
      OnlyPoolDeletesAppend(es, fiveMinuteThreadPool);
      es := es + PoolDelete(fiveMinuteThreadPool);
      OnlyPoolDeletesAppend(es, hourlyThreadPool);
      es := es + PoolDelete(hourlyThreadPool);
      OnlyPoolDeletesAppend(es, dailyThreadPool);
      es := es + PoolDelete(dailyThreadPool);
      OnlyPoolDeletesAppend(es, housekeepingPool);
    }

    /** Under `Valid`, the slots below the count, which `Lua` visits, hold
        exactly the activities that the whole-array loops of shutdown and
        teardown visit: the registered ones, in registration order. */
    lemma LiveSlotsAreRegistered()
      requires Valid()
      ensures Live(activities[..], numActivities) == Live(activities[..], activities.Length)
      ensures |Live(activities[..], numActivities)| == numActivities
      ensures forall k :: 0 <= k < numActivities ==> Live(activities[..], numActivities)[k] == activities[k]
    {
      LivePacked(activities[..], numActivities, numActivities);
      LivePacked(activities[..], numActivities, activities.Length);
    }

    /** The registry starts empty, with no pool handles and no calls made. */
    constructor (maxNumThreadedActivities: nat, maxThreadPoolSize: nat)
      ensures Valid() && fresh(activities)
      ensures this.maxNumThreadedActivities == maxNumThreadedActivities
      ensures this.maxThreadPoolSize == maxThreadPoolSize
      ensures forall i :: 0 <= i < activities.Length ==> activities[i] == null
      ensures numActivities == 0
      ensures PoolFieldsNull()
      ensures trace == []
    {
      this.maxNumThreadedActivities := maxNumThreadedActivities;
      this.maxThreadPoolSize := maxThreadPoolSize;
      var slots := new ThreadedActivity?[maxNumThreadedActivities];
      for i := 0 to maxNumThreadedActivities
        invariant forall j :: 0 <= j < i ==> slots[j] == null
      {
        slots[i] := null;
      }
      activities := slots;
      secondThreadPool, minuteThreadPool, fiveMinuteThreadPool := null, null, null;
      hourlyThreadPool, dailyThreadPool, housekeepingPool := null, null, null;
      numActivities := 0;
      trace := [];
    }

    /** The function-local static descriptor table, as it is initialised on
        the first start-up: from the object's own pool handles. */
    method NewStaticTable() returns (ad: array<ActivityDescr>)
      ensures fresh(ad)
      ensures ad[..] == DescriptorTable(secondThreadPool, minuteThreadPool, fiveMinuteThreadPool,
                                        hourlyThreadPool, dailyThreadPool, housekeepingPool)
    {
      var t := DescriptorTable(secondThreadPool, minuteThreadPool, fiveMinuteThreadPool,
                               hourlyThreadPool, dailyThreadPool, housekeepingPool);
      ad := new ActivityDescr[|t|](i requires 0 <= i < |t| => t[i]);
    }

    /** Passes the Lua VM to every registered activity, visiting only the
        slots below the count; the VM itself is not modelled. */
    method Lua()
      requires Valid()
      modifies this`trace
      ensures trace == old(trace) + Calls(Op.Lua, Live(activities[..], numActivities))
    {
      ghost var t0 := trace;
      var i := 0;
      while i < numActivities
        invariant 0 <= i <= numActivities
        invariant trace == t0 + Calls(Op.Lua, Live(activities[..], i))
      {
        if activities[i] != null {
          CallsSnoc(t0, Op.Lua, Live(activities[..], i), activities[i]);
          trace := trace + [Call(Op.Lua, activities[i])];
        }
        i := i + 1;
      }
    }

    /** Makes call `op` on every non-NULL slot of the whole array, in index
        order, without touching the registry. */
    method CallEachSlot(op: Op)
      requires Valid()
      modifies this`trace
      ensures trace == old(trace) + Calls(op, Live(activities[..], activities.Length))
    {
      ghost var t0 := trace;
      for i := 0 to maxNumThreadedActivities
        invariant trace == t0 + Calls(op, Live(activities[..], i))
      {
        if activities[i] != null {
          CallsSnoc(t0, op, Live(activities[..], i), activities[i]);
          trace := trace + [Call(op, activities[i])];
        }
      }
    }

    /** Asks every non-NULL slot, in index order, to shut down. The registry
        itself is not touched, so calling it again repeats the same calls. */
    method SendShutdownSignal()
      requires Valid()
      modifies this`trace
      ensures trace == old(trace) + Calls(Shutdown, Live(activities[..], activities.Length))
    {
      CallEachSlot(Shutdown);
    }

    /** Sizes a tier's pool from the interface count in `env` and, when
        that count is not zero, stores a new pool of that size (or NULL when
        the allocation fails) into the pool slot of row `i`. */
    method SetRowPool(ad: array<ActivityDescr>, i: nat, env: TierEnv)
      requires i < ad.Length && PoolSize(env.numInterfaces, maxThreadPoolSize) != 0
      modifies ad
      ensures ad[..] == old(ad[..])[i := ad[i]]
      ensures RowWritten(old(ad[i]), ad[i], env, maxThreadPoolSize)
      ensures PoolAllocated(env, maxThreadPoolSize) ==> fresh(ad[i].pool)
    {
      var numThreads := PoolSize(env.numInterfaces, maxThreadPoolSize);
      var pool: ThreadPool? := null;
      if env.poolAllocated {
        pool := new ThreadPool(numThreads);
      }
      ad[i] := ad[i].(pool := pool);
    }

    /** Stores `ta` at index `numActivities`, counts it and runs it. */
    method Append(ta: ThreadedActivity)
      requires Valid() && numActivities < maxNumThreadedActivities
      modifies this`numActivities, this`trace, activities
      ensures Valid()
      ensures activities[..] == old(activities[..])[old(numActivities) := ta]
      ensures numActivities == old(numActivities) + 1
      ensures trace == old(trace) + [Call(Run, ta)]
    {
      activities[numActivities] := ta;
      numActivities := numActivities + 1;
      trace := trace + [Call(Run, ta)];
    }

    /** One step of the walk, at row `i` of the static table: sizes the
        tier's pool from the interface count `tiers[i]` reports; if that
        count is not zero, stores a new pool (or NULL when its allocation
        fails) into the row's pool slot and builds the row's activity on it;
        if that allocation succeeds, stores the activity at index
        `numActivities`, counts it and runs it. The index is not checked
        against the capacity: callers must leave room. The ghost parameters
        carry the walk so far, as `Walked` describes it, and `added'`
        extends `added` with the activity registered here. */
    method RegisterRow(ad: array<ActivityDescr>, i: nat, tiers: seq<TierEnv>,
                       ghost ds: seq<ActivityDescr>, ghost s0: seq<ThreadedActivity?>, ghost n0: nat,
                       ghost t0: seq<Event>, ghost added: seq<ThreadedActivity>)
      returns (ta: ThreadedActivity?, ghost added': seq<ThreadedActivity>)
      requires |ds| == |tiers| == ad.Length && i <= WalkLength(ds) < ad.Length && ad[i].path != NullPath
      requires n0 + |RegisteredBefore(tiers, maxThreadPoolSize, WalkLength(ds))| <= maxNumThreadedActivities
      requires Valid()
      requires Walked(ds, ad[..], tiers, maxThreadPoolSize, i, s0, n0, activities[..], added)
      requires numActivities == n0 + |added| && trace == t0 + Calls(Run, added)
      modifies this`numActivities, this`trace, activities, ad
      ensures i + 1 <= WalkLength(ds)
      ensures Valid()
      ensures Walked(ds, ad[..], tiers, maxThreadPoolSize, i + 1, s0, n0, activities[..], added')
      ensures numActivities == n0 + |added'| && trace == t0 + Calls(Run, added')
      ensures ta != null <==> Admitted(tiers[i], maxThreadPoolSize)
      ensures added' == if ta == null then added else added + [ta]
      ensures ta != null ==> fresh(ta)
    {
      ghost var rows, slots := ad[..], activities[..];
      RowInWalk(ds, rows, tiers, maxThreadPoolSize, i, n0, added, maxNumThreadedActivities);
      ta, added' := null, added;
      var env := tiers[i];
      if PoolSize(env.numInterfaces, maxThreadPoolSize) != 0 {
        SetRowPool(ad, i, env);
        if env.activityAllocated {
          var d := ad[i];
          ta := new ThreadedActivity(d.path, d.periodicity, d.maxDurationSecs, d.alignToLocaltime,
                                     d.excludeViewedInterfaces, d.excludePcapDumpInterfaces, d.pool);
          CallsSnoc(t0, Run, added, ta);
          Append(ta);
          added' := added + [ta];
        }
      }
      WalkStep(ds, rows, tiers, maxThreadPoolSize, i, s0, n0, slots, added, ta, ad[..], activities[..], added');
    }

    /** Registers the periodic tiers: walks the static table `ad` up to its
        NULL-path sentinel; at each row sizes a pool from the interface count
        seen there, stores it into the row's pool slot, builds an activity
        from the row, appends it at index `numActivities` and runs it. A row
        whose thread count is zero is skipped untouched; a row whose
        activity cannot be allocated leaves the registry as it was. The
        activities appended, in order, are returned as `added`. */
    method RegisterTiers(ad: array<ActivityDescr>, tiers: seq<TierEnv>)
      returns (ghost added: seq<ThreadedActivity>)
      requires Valid()
      requires WalkLength(ad[..]) < ad.Length && |tiers| == ad.Length
      requires numActivities + |Registered(ad[..], tiers, maxThreadPoolSize)| <= maxNumThreadedActivities
      modifies this`numActivities, this`trace, activities, ad
      ensures Valid()
      ensures numActivities == old(numActivities) + |added|
      ensures Walked(old(ad[..]), ad[..], tiers, maxThreadPoolSize, WalkLength(old(ad[..])),
                     old(activities[..]), old(numActivities), activities[..], added)
      ensures trace == old(trace) + Calls(Run, added)
    {
      ghost var ds, s0 := ad[..], activities[..];
      ghost var n0, t0 := numActivities, trace;
      added := [];
      var i := 0;
      while ad[i].path != NullPath
        invariant 0 <= i <= WalkLength(ds) < ad.Length
        invariant n0 + |RegisteredBefore(tiers, maxThreadPoolSize, WalkLength(ds))| <= maxNumThreadedActivities
        invariant Valid()
        invariant Walked(ds, ad[..], tiers, maxThreadPoolSize, i, s0, n0, activities[..], added)
        invariant numActivities == n0 + |added| && trace == t0 + Calls(Run, added)
        decreases ad.Length - i
      {
        var ta;
        ta, added := RegisterRow(ad, i, tiers, ds, s0, n0, t0, added);
        i := i + 1;
      }
      WalkDone(ds, ad[..], tiers, maxThreadPoolSize, i, s0, n0, activities[..], added);
    }

    /** Builds the bootstrap activity for the start-up script, runs that
        script once, synchronously, at time `now`, and deletes the activity.
        When the allocation fails (`startupAllocated` is false) nothing happens. The
        registry is not touched. */
    method RunBootstrap(startupAllocated: bool, now: int) returns (ghost bootstrap: ThreadedActivity?)
      modifies this`trace
      ensures bootstrap != null <==> startupAllocated
      ensures bootstrap != null ==> fresh(bootstrap) && bootstrap.path == StartupScriptPath
      ensures trace == old(trace) + BootstrapEvents(bootstrap, now)
    {
      bootstrap := null;
      if startupAllocated {
        var startup := new ThreadedActivity.Startup(StartupScriptPath);
        trace := trace + [RunSystemScript(startup, now)];
        trace := trace + [Call(Delete, startup)];
        bootstrap := startup;
      }
    }

    /** The single start-up entry point. If the callbacks directory cannot be
        stat'ed the process exits (`exited`) and nothing else happens.
        Otherwise the bootstrap activity, when it can be allocated, runs its
        script once and is deleted without ever entering the registry; then
        the periodic tiers are registered as `RegisterTiers` states. */
    method StartPeriodicActivitiesLoop(ad: array<ActivityDescr>, env: StartEnv, now: int)
      returns (exited: bool, ghost bootstrap: ThreadedActivity?, ghost added: seq<ThreadedActivity>)
      requires Valid()
      requires WalkLength(ad[..]) < ad.Length && |env.tiers| == ad.Length
      requires numActivities + |Registered(ad[..], env.tiers, maxThreadPoolSize)| <= maxNumThreadedActivities
      requires forall j :: 0 <= j < ad.Length ==> ad[j].path != StartupScriptPath
      modifies this`numActivities, this`trace, activities, ad
      ensures Valid()
      ensures exited <==> !env.callbacksDirReadable
      ensures exited ==>
        && bootstrap == null && added == []
        && numActivities == old(numActivities) && trace == old(trace)
        && activities[..] == old(activities[..]) && ad[..] == old(ad[..])
      ensures !exited ==> (bootstrap != null <==> env.bootstrapAllocated)
      ensures bootstrap != null ==>
        && fresh(bootstrap) && bootstrap.path == StartupScriptPath
        && forall k :: 0 <= k < activities.Length ==> activities[k] != bootstrap
      ensures !exited ==>
        && numActivities == old(numActivities) + |added|
        && Walked(old(ad[..]), ad[..], env.tiers, maxThreadPoolSize, WalkLength(old(ad[..])),
                  old(activities[..]), old(numActivities), activities[..], added)
        && trace == old(trace) + BootstrapEvents(bootstrap, now) + Calls(Run, added)
    {
      ghost var ds, s0 := ad[..], activities[..];
      bootstrap, added := null, [];
      if !env.callbacksDirReadable {
        return true, null, [];
      }
      exited := false;
      bootstrap := RunBootstrap(env.bootstrapAllocated, now);
      added := RegisterTiers(ad, env.tiers);
      AddedFromTable(ds, ad[..], env.tiers, maxThreadPoolSize, WalkLength(ds),
                     s0, old(numActivities), activities[..], added, StartupScriptPath);
    }

    /** Deletes pool handle `p` if it is set. */
    method DeletePoolField(p: ThreadPool?)
      modifies this`trace
      ensures trace == old(trace) + PoolDelete(p)
    {
      if p != null {
        trace := trace + [DeletePool(p)];
      }
    }

    /** The second phase of the destructor: deletes each of the six pool
        handles that is set, in declaration order. */
    method DeletePoolFields()
      modifies this`trace
      ensures trace == old(trace) + PoolFieldDeletes()
    {
      ghost var t0 := trace;
      ghost var done := PoolDelete(secondThreadPool);
      DeletePoolField(secondThreadPool);
      LogAssoc(t0, done, PoolDelete(minuteThreadPool));
      DeletePoolField(minuteThreadPool);
      done := done + PoolDelete(minuteThreadPool);
      LogAssoc(t0, done, PoolDelete(fiveMinuteThreadPool));
      DeletePoolField(fiveMinuteThreadPool);
      done := done + PoolDelete(fiveMinuteThreadPool);
      LogAssoc(t0, done, PoolDelete(hourlyThreadPool));
      DeletePoolField(hourlyThreadPool);
      done := done + PoolDelete(hourlyThreadPool);
      LogAssoc(t0, done, PoolDelete(dailyThreadPool));
      DeletePoolField(dailyThreadPool);
      done := done + PoolDelete(dailyThreadPool);
      LogAssoc(t0, done, PoolDelete(housekeepingPool));
      DeletePoolField(housekeepingPool);
    }

    /** The third phase of the destructor: deletes every registered activity,
        clears its slot and counts it off, leaving an empty registry. */
    method DeleteActivities()
      requires Valid()
      modifies this`numActivities, this`trace, activities
      ensures Valid() && numActivities == 0
      ensures forall i :: 0 <= i < activities.Length ==> activities[i] == null
      ensures trace == old(trace) + Calls(Delete, Live(old(activities[..]), activities.Length))
    {
      ghost var slots := activities[..];
      ghost var t0 := trace;
      ghost var n0 := numActivities;
      for i := 0 to maxNumThreadedActivities
        invariant forall j :: 0 <= j < i ==> activities[j] == null
        invariant forall j :: i <= j < maxNumThreadedActivities ==> activities[j] == slots[j]
        invariant numActivities + |Live(slots, i)| == n0
        invariant trace == t0 + Calls(Delete, Live(slots, i))
      {
        if activities[i] != null {
          LivePacked(slots, n0, i);
          CallsSnoc(t0, Delete, Live(slots, i), activities[i]);
          trace := trace + [Call(Delete, activities[i])];
          activities[i] := null;
          numActivities := numActivities - 1;
        }
      }
      LivePacked(slots, n0, maxNumThreadedActivities);
    }

    /** The destructor, in three phases: join the timing loop of every
        registered activity; delete each of the six pool handles that is
        set; then delete every registered activity, clear its slot and count
        it off. Every activity is joined before any pool is deleted, and
        every pool is deleted before any activity. */
    method Destroy()
      requires Valid()
      modifies this`numActivities, this`trace, activities
      ensures Valid() && numActivities == 0
      ensures forall i :: 0 <= i < activities.Length ==> activities[i] == null
      ensures var live := Live(old(activities[..]), activities.Length);
        trace == old(trace) + Calls(TerminateEnqueueLoop, live) + PoolFieldDeletes() + Calls(Delete, live)
      ensures TeardownOrdered(trace[|old(trace)|..])
    {
      ghost var live := Live(activities[..], activities.Length);
      ghost var t0 := trace;
      CallEachSlot(TerminateEnqueueLoop);
      DeletePoolFields();
      DeleteActivities();
      ghost var joins, pools, deletes := Calls(TerminateEnqueueLoop, live), PoolFieldDeletes(), Calls(Delete, live);
      LogAssoc(t0, joins, pools);
      LogAssoc(t0, joins + pools, deletes);
      LogSuffix(t0, joins + pools + deletes);
      PoolFieldDeletesOnlyDeletePools();
      TeardownPhases(live, pools);
    }
  }

  /** Every event of `es` is something other than a pool deletion. */
  predicate NoPoolDeletes(es: seq<Event>)
  {
    forall k :: 0 <= k < |es| ==> !es[k].DeletePool?
  }

  /** Calls made on activities delete no pool. */
  lemma CallsDeleteNoPool(op: Op, acts: seq<ThreadedActivity>)
    ensures NoPoolDeletes(Calls(op, acts))
  {
  }

  /** A log that deletes no pool keeps deleting none when more such events
      are appended. */
  lemma NoPoolDeletesAppend(es: seq<Event>, more: seq<Event>)
    requires NoPoolDeletes(es) && NoPoolDeletes(more)
    ensures NoPoolDeletes(es + more)
  {
  }

  /** The life of one registry: it is constructed, its static table is
      initialised from its pool handles, it is started, and, unless start-up
      exits, it is destroyed. Each tier pool the walk allocates is stored
      into the static table only; the six pool handles of the registry stay
      NULL, so the destructor deletes none of those pools. */
  method Lifecycle(maxNumThreadedActivities: nat, maxThreadPoolSize: nat, env: StartEnv, now: int)
    returns (registry: PeriodicActivities, ad: array<ActivityDescr>, exited: bool)
    requires |env.tiers| == 8 && maxNumThreadedActivities >= 7
    ensures exited <==> !env.callbacksDirReadable
    ensures ad.Length == 8
    ensures registry.PoolFieldsNull()
    ensures !exited ==>
      && registry.numActivities == 0
      && forall i :: 0 <= i < registry.activities.Length ==> registry.activities[i] == null
    ensures !exited ==>
      forall j :: 0 <= j < 7 && PoolAllocated(env.tiers[j], maxThreadPoolSize) ==> ad[j].pool != null
    ensures NoPoolDeletes(registry.trace)
  {
    registry := new PeriodicActivities(maxNumThreadedActivities, maxThreadPoolSize);
    ad := registry.NewStaticTable();
    ghost var bootstrap, added;
    exited, bootstrap, added := registry.StartPeriodicActivitiesLoop(ad, env, now);
    if exited {
      return;
    }
    ghost var started := registry.trace;
    CallsDeleteNoPool(Run, added);
    NoPoolDeletesAppend(BootstrapEvents(bootstrap, now), Calls(Run, added));
    ghost var live := Live(registry.activities[..], registry.activities.Length);
    registry.Destroy();
    CallsDeleteNoPool(TerminateEnqueueLoop, live);
    CallsDeleteNoPool(Delete, live);
    NoPoolDeletesAppend(started, Calls(TerminateEnqueueLoop, live));
    NoPoolDeletesAppend(started + Calls(TerminateEnqueueLoop, live), Calls(Delete, live));
  }
}
