/** The static descriptor table of periodic activities, the thread count of a
    tier's pool and which tiers the startup walk over the table registers.
    Everything here is a value; the registry that consumes it is in module
    Scheduler. */
module ActivityTable {
  import opened Collaborators

  /** One row of the table: a script location, its period and deadline in
      seconds, the pool slot the walk writes, and three scheduling flags. */
  datatype ActivityDescr = ActivityDescr(
    path: ScriptPath,
    periodicity: nat,
    maxDurationSecs: nat,
    pool: ThreadPool?,
    alignToLocaltime: bool,
    excludeViewedInterfaces: bool,
    excludePcapDumpInterfaces: bool)

  /** The table as it is initialised from the six pool handles it is given:
      six standard tiers, the housekeeping tier and the NULL-path sentinel.
      The five-second tier shares the one-second tier's pool handle. */
  function DescriptorTable(second: ThreadPool?, minute: ThreadPool?,
                           fiveMinute: ThreadPool?, hourly: ThreadPool?,
                           daily: ThreadPool?, housekeeping: ThreadPool?)
    : (t: seq<ActivityDescr>)
    ensures |t| == 8 && WalkLength(t) == 7
    ensures t[7].path == NullPath
    ensures forall i :: 0 <= i < 7 ==> t[i].periodicity > 0
    ensures forall i :: 0 <= i < 7 ==> t[i].maxDurationSecs > 0
    ensures forall i :: 0 <= i < |t| ==> t[i].path != StartupScriptPath
    ensures forall i :: 0 <= i < |t| ==> (t[i].alignToLocaltime <==> t[i].path == DailyScriptDir)
    ensures forall i :: 0 <= i < |t| ==> !t[i].excludeViewedInterfaces
    ensures forall i :: 0 <= i < 7 ==>
      (!t[i].excludePcapDumpInterfaces <==> t[i].path == HousekeepingScriptPath)
    ensures t[0].pool == t[1].pool == second && t[2].pool == minute
    ensures t[3].pool == fiveMinute && t[4].pool == hourly
    ensures t[5].pool == daily && t[6].pool == housekeeping && t[7].pool == null
    ensures TablePaths(t) == [SecondScriptDir, FiveSecondScriptDir, MinuteScriptDir,
                              FiveMinutesScriptDir, HourlyScriptDir, DailyScriptDir,
                              HousekeepingScriptPath]
  {
    var t :=
    [ ActivityDescr(SecondScriptDir,           1,   65, second,       false, false, true),
      ActivityDescr(FiveSecondScriptDir,       5,   65, second,       false, false, true),
      ActivityDescr(MinuteScriptDir,          60,   60, minute,       false, false, true),
      ActivityDescr(FiveMinutesScriptDir,    300,  300, fiveMinute,   false, false, true),
      ActivityDescr(HourlyScriptDir,        3600,  600, hourly,       false, false, true),
      ActivityDescr(DailyScriptDir,        86400, 3600, daily,        true,  false, true),
      ActivityDescr(HousekeepingScriptPath,    3,   65, housekeeping, false, false, false),
      ActivityDescr(NullPath,                  0,    0, null,         false, false, false) ];
    WalkLengthIs(t, 7);
    t
  }

  /** The number of rows the walk `while (d->path)` visits: the index of the
      first NULL path, or the table's length if there is none. */
  function WalkLength(t: seq<ActivityDescr>): (n: nat)
    ensures n <= |t|
    ensures forall j :: 0 <= j < n ==> t[j].path != NullPath
    ensures n < |t| ==> t[n].path == NullPath
  {
    WalkFrom(t, 0)
  }

  /** The index of the first NULL path at or after `i`, or the table's
      length if there is none. */
  function WalkFrom(t: seq<ActivityDescr>, i: nat): (n: nat)
    requires i <= |t|
    requires forall j :: 0 <= j < i ==> t[j].path != NullPath
    ensures i <= n <= |t|
    ensures forall j :: 0 <= j < n ==> t[j].path != NullPath
    ensures n < |t| ==> t[n].path == NullPath
    decreases |t| - i
  {
    if i == |t| || t[i].path == NullPath then i else WalkFrom(t, i + 1)
  }

  /** The walk stops exactly at the first NULL path. */
  lemma WalkLengthIs(t: seq<ActivityDescr>, n: nat)
    requires n < |t| && t[n].path == NullPath
    requires forall j :: 0 <= j < n ==> t[j].path != NullPath
    ensures WalkLength(t) == n
  {
  }

  /** The paths of the rows the walk visits, in table order. */
  function TablePaths(t: seq<ActivityDescr>): seq<ScriptPath>
  {
    seq(WalkLength(t), j requires 0 <= j < WalkLength(t) => t[j].path)
  }

  /** The size of the 8-bit thread counter. */
  const ThreadCounterRange: nat := 256

  /** The thread count of one tier's pool: one thread per interface plus one
      for the system interface, stored in an 8-bit counter and then capped
      at the configured maximum. */
  function PoolSize(numInterfaces: nat, maxThreadPoolSize: nat): (n: nat)
    ensures n < ThreadCounterRange && n <= maxThreadPoolSize
    ensures n == 0 <==> (numInterfaces + 1) % ThreadCounterRange == 0 || maxThreadPoolSize == 0
    ensures numInterfaces + 1 < ThreadCounterRange && numInterfaces + 1 <= maxThreadPoolSize
            ==> n == numInterfaces + 1
    ensures (numInterfaces + 1) % ThreadCounterRange <= maxThreadPoolSize
            ==> n == (numInterfaces + 1) % ThreadCounterRange
    ensures (numInterfaces + 1) % ThreadCounterRange > maxThreadPoolSize ==> n == maxThreadPoolSize
  {
    var counter := (numInterfaces + 1) % ThreadCounterRange;
    if counter > maxThreadPoolSize then maxThreadPoolSize else counter
  }

  /** What the environment answers while the walk is at one row: the number
      of interfaces at that moment, and whether the pool and the activity
      allocations succeed. */
  datatype TierEnv = TierEnv(numInterfaces: nat, poolAllocated: bool, activityAllocated: bool)

  /** A visited row ends up in the registry exactly when its pool size is not
      zero and its activity could be allocated; a failed pool allocation does
      not prevent the activity from being built (with a NULL pool). */
  predicate Admitted(env: TierEnv, maxThreadPoolSize: nat)
  {
    PoolSize(env.numInterfaces, maxThreadPoolSize) != 0 && env.activityAllocated
  }

  /** The indices among the first `n` rows whose activity the walk appends
      to the registry, in the order they are appended. `tiers[j]` is the
      environment seen at row `j`. */
  function RegisteredBefore(tiers: seq<TierEnv>, maxThreadPoolSize: nat, n: nat): (r: seq<nat>)
    requires n <= |tiers|
    ensures |r| <= n
    ensures forall k :: 0 <= k < |r| ==> r[k] < n
  {
    if n == 0 then []
    else if Admitted(tiers[n - 1], maxThreadPoolSize) then RegisteredBefore(tiers, maxThreadPoolSize, n - 1) + [n - 1]
    else RegisteredBefore(tiers, maxThreadPoolSize, n - 1)
  }

  /** The indices of the rows of `t` whose activity the whole walk, up to the
      NULL-path sentinel, appends to the registry. */
  function Registered(t: seq<ActivityDescr>, tiers: seq<TierEnv>, maxThreadPoolSize: nat): (r: seq<nat>)
    requires WalkLength(t) <= |tiers|
    ensures |r| <= WalkLength(t)
    ensures forall k :: 0 <= k < |r| ==> r[k] < WalkLength(t)
  {
    RegisteredBefore(tiers, maxThreadPoolSize, WalkLength(t))
  }

  /** Walking further never unregisters a row: the rows registered among the
      first `m` are the first ones registered among the first `n`. */
  lemma {:induction false} RegisteredPrefix(tiers: seq<TierEnv>, maxThreadPoolSize: nat, m: nat, n: nat)
    requires m <= n <= |tiers|
    ensures RegisteredBefore(tiers, maxThreadPoolSize, m) <= RegisteredBefore(tiers, maxThreadPoolSize, n)
    decreases n - m
  {
    if m < n {
      RegisteredPrefix(tiers, maxThreadPoolSize, m, n - 1);
    }
  }

  /** Only admitted rows are registered, and they are registered in table
      order. */
  lemma {:induction false} RegisteredInTableOrder(tiers: seq<TierEnv>, maxThreadPoolSize: nat, n: nat)
    requires n <= |tiers|
    ensures forall k :: 0 <= k < |RegisteredBefore(tiers, maxThreadPoolSize, n)| ==>
      Admitted(tiers[RegisteredBefore(tiers, maxThreadPoolSize, n)[k]], maxThreadPoolSize)
    ensures forall k, l :: 0 <= k < l < |RegisteredBefore(tiers, maxThreadPoolSize, n)| ==>
      RegisteredBefore(tiers, maxThreadPoolSize, n)[k] < RegisteredBefore(tiers, maxThreadPoolSize, n)[l]
  {
    if n > 0 {
      RegisteredInTableOrder(tiers, maxThreadPoolSize, n - 1);
      var prev := RegisteredBefore(tiers, maxThreadPoolSize, n - 1);
      var r := RegisteredBefore(tiers, maxThreadPoolSize, n);
      if Admitted(tiers[n - 1], maxThreadPoolSize) {
        assert r == prev + [n - 1];
        assert forall k :: 0 <= k < |prev| ==> r[k] == prev[k] && prev[k] < n - 1;
      } else {
        assert r == prev;
      }
    }
  }

  /** Every admitted row among the first `n` is registered. */
  lemma {:induction false} RegisteredComplete(tiers: seq<TierEnv>, maxThreadPoolSize: nat, n: nat)
    requires n <= |tiers|
    ensures forall j :: 0 <= j < n && Admitted(tiers[j], maxThreadPoolSize) ==>
      j in RegisteredBefore(tiers, maxThreadPoolSize, n)
  {
    if n > 0 {
      RegisteredComplete(tiers, maxThreadPoolSize, n - 1);
      var r := RegisteredBefore(tiers, maxThreadPoolSize, n - 1);
      forall j | 0 <= j < n - 1 && j in r ensures j in RegisteredBefore(tiers, maxThreadPoolSize, n) {
        var k :| 0 <= k < |r| && r[k] == j;
        assert RegisteredBefore(tiers, maxThreadPoolSize, n)[k] == j;
      }
    }
  }

  /** When every one of the first `n` rows is admitted, every one of them is
      registered, in table order. */
  lemma {:induction false} RegistersEveryAdmittedTier(tiers: seq<TierEnv>, maxThreadPoolSize: nat, n: nat)
    requires n <= |tiers|
    requires forall j :: 0 <= j < n ==> Admitted(tiers[j], maxThreadPoolSize)
    ensures |RegisteredBefore(tiers, maxThreadPoolSize, n)| == n
    ensures forall k :: 0 <= k < n ==> RegisteredBefore(tiers, maxThreadPoolSize, n)[k] == k
  {
    if n > 0 {
      RegistersEveryAdmittedTier(tiers, maxThreadPoolSize, n - 1);
    }
  }

  /** On the standard table, when the pool cap is positive and every tier sees
      fewer than 255 interfaces and can allocate its activity, all seven
      tiers are registered in table order. */
  lemma StandardTableRegistersSevenTiers(second: ThreadPool?, minute: ThreadPool?,
                                         fiveMinute: ThreadPool?, hourly: ThreadPool?,
                                         daily: ThreadPool?, housekeeping: ThreadPool?,
                                         tiers: seq<TierEnv>, maxThreadPoolSize: nat)
    requires |tiers| == 8 && maxThreadPoolSize > 0
    requires forall j :: 0 <= j < 7 ==>
      tiers[j].numInterfaces < ThreadCounterRange - 1 && tiers[j].activityAllocated
    ensures var t := DescriptorTable(second, minute, fiveMinute, hourly, daily, housekeeping);
      Registered(t, tiers, maxThreadPoolSize) == [0, 1, 2, 3, 4, 5, 6]
  {
    var t := DescriptorTable(second, minute, fiveMinute, hourly, daily, housekeeping);
    assert WalkLength(t) == 7;
    forall j | 0 <= j < 7 ensures Admitted(tiers[j], maxThreadPoolSize) {
      assert (tiers[j].numInterfaces + 1) % ThreadCounterRange == tiers[j].numInterfaces + 1;
    }
    RegistersEveryAdmittedTier(tiers, maxThreadPoolSize, 7);
  }

  /** When every one of the first `n` rows sees exactly 255 interfaces, the
      8-bit thread counter wraps to zero at each of them and none is
      registered. */
  lemma {:induction false} WrappedCounterRegistersNothing(tiers: seq<TierEnv>, maxThreadPoolSize: nat, n: nat)
    requires n <= |tiers|
    requires forall j :: 0 <= j < n ==> tiers[j].numInterfaces == ThreadCounterRange - 1
    ensures RegisteredBefore(tiers, maxThreadPoolSize, n) == []
  {
    if n > 0 {
      WrappedCounterRegistersNothing(tiers, maxThreadPoolSize, n - 1);
    }
  }
}
