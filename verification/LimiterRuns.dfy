/** Runs of the limiter with one limit, one window and a monotone clock, against a log that never forgets. */
module LimiterRuns {
  import opened SlidingWindow

  // ----- The naive limiter -----

  /** The admissions after `cutoff`. */
  function After(log: seq<real>, cutoff: real): seq<real> {
    if log == [] then []
    else if log[0] > cutoff then [log[0]] + After(log[1..], cutoff)
    else After(log[1..], cutoff)
  }

  /** The admissions in the half-open window `(lo, hi]`. */
  function Within(log: seq<real>, lo: real, hi: real): seq<real> {
    if log == [] then []
    else if lo < log[0] <= hi then [log[0]] + Within(log[1..], lo, hi)
    else Within(log[1..], lo, hi)
  }

  ghost predicate Sorted(log: seq<real>) {
    forall i, j :: 0 <= i < j < |log| ==> log[i] <= log[j]
  }

  // ----- Runs -----

  datatype Call = Call(key: Key, now: real, ok: bool)

  /** `buckets[i]` answers `calls[i]` and becomes `buckets[i + 1]`. */
  datatype Run = Run(maxKeys: int, limit: nat, window: real, buckets: seq<Buckets>, calls: seq<Call>)

  ghost predicate Step(r: Run, i: nat)
    requires |r.buckets| == |r.calls| + 1 && i < |r.calls|
  {
    var c := r.calls[i];
    && NonEmpty(r.buckets[i])
    && Allows(r.maxKeys, r.buckets[i], c.key, r.limit, r.window, c.now, r.buckets[i + 1], c.ok)
    && (i > 0 ==> r.calls[i - 1].now <= c.now)
  }

  ghost predicate IsRun(r: Run) {
    && r.limit > 0
    && |r.buckets| == |r.calls| + 1 && r.buckets[0] == map[]
    && forall i :: 0 <= i < |r.calls| ==> Step(r, i)
  }

  /** Every admission of `k` ever granted, in order: nothing is pruned, capped or evicted. */
  function Log(calls: seq<Call>, k: Key): seq<real> {
    if calls == [] then []
    else
      var earlier, last := Log(calls[..|calls| - 1], k), calls[|calls| - 1];
      if last.key == k && last.ok then earlier + [last.now] else earlier
  }

  /** Call `i` dropped a bucket of `k` that still held an admission inside the window. */
  ghost predicate EvictsLive(r: Run, i: nat, k: Key)
    requires |r.buckets| == |r.calls| + 1 && i < |r.calls|
  {
    && k in r.buckets[i] && k !in r.buckets[i + 1]
    && r.buckets[i][k] != [] && Newest(r.buckets[i][k]) > r.calls[i].now - r.window
  }

  /** No live bucket of `k` is evicted between points `e` and `n` of the run. */
  ghost predicate Intact(r: Run, e: nat, n: nat, k: Key)
    requires |r.buckets| == |r.calls| + 1 && e <= n <= |r.calls|
  {
    forall i :: e <= i < n ==> !EvictsLive(r, i, k)
  }

  /** The point right after the last live eviction of `k` before `n`, or the start of the run. */
  ghost function LastLoss(r: Run, n: nat, k: Key): (e: nat)
    requires |r.buckets| == |r.calls| + 1 && n <= |r.calls|
    ensures e <= n && Intact(r, e, n, k)
    ensures e == 0 || EvictsLive(r, e - 1, k)
  {
    if n == 0 then 0 else if EvictsLive(r, n - 1, k) then n else LastLoss(r, n - 1, k)
  }

  // ----- One key's bucket against its log -----

  /** Any `limit + 1` consecutive admissions span at least one window. */
  ghost predicate Spaced(log: seq<real>, limit: nat, window: real) {
    forall i, j :: 0 <= i && j == i + limit && j < |log| ==> log[i] + window <= log[j]
  }

  /** The bucket is the tail of the log; what it lacks is stale, unless a live bucket was evicted. */
  ghost predicate Tracks(limit: nat, window: real, clock: real, log: seq<real>, bucket: seq<real>, intact: bool) {
    && Sorted(log) && (forall x :: x in log ==> x <= clock)
    && |bucket| <= limit && |bucket| <= |log| && bucket == log[|log| - |bucket|..]
    && (intact ==> Spaced(log, limit, window))
    && (intact ==> forall i :: 0 <= i < |log| - |bucket| ==> log[i] <= clock - window)
  }

  lemma {:induction false} LiveIsTail(bucket: seq<real>, cutoff: real)
    ensures var live := Live(bucket, cutoff);
      && |live| <= |bucket| && live == bucket[|bucket| - |live|..]
      && (forall i :: 0 <= i < |bucket| - |live| ==> bucket[i] <= cutoff)
      && (live != [] ==> live[0] > cutoff)
  {
    if bucket != [] && bucket[0] <= cutoff {
      LiveIsTail(bucket[1..], cutoff);
    }
  }

  lemma {:induction false} AfterConcat(a: seq<real>, b: seq<real>, cutoff: real)
    ensures After(a + b, cutoff) == After(a, cutoff) + After(b, cutoff)
  {
    if a == [] {
      assert a + b == b;
    } else {
      assert (a + b)[1..] == a[1..] + b;
      AfterConcat(a[1..], b, cutoff);
    }
  }

  lemma {:induction false} AfterKeepsLater(s: seq<real>, cutoff: real)
    requires forall i :: 0 <= i < |s| ==> s[i] > cutoff
    ensures After(s, cutoff) == s
  {
    if s != [] {
      AfterKeepsLater(s[1..], cutoff);
      assert s == [s[0]] + s[1..];
    }
  }

  lemma {:induction false} AfterDropsStale(s: seq<real>, cutoff: real)
    requires forall i :: 0 <= i < |s| ==> s[i] <= cutoff
    ensures After(s, cutoff) == []
  {
    if s != [] {
      AfterDropsStale(s[1..], cutoff);
    }
  }

  /** The live part of a tracked bucket: a suffix of the log's window, and all of it when intact. */
  lemma LiveAgainstLog(limit: nat, window: real, clock: real, log: seq<real>, bucket: seq<real>, intact: bool,
                       now: real)
    requires Tracks(limit, window, clock, log, bucket, intact) && clock <= now
    ensures var live, inWindow := Live(bucket, now - window), After(log, now - window);
      && |live| <= |inWindow|
      && (intact ==> live == inWindow)
      && |live| <= |bucket| && live == log[|log| - |live|..]
      && (intact ==> forall i :: 0 <= i < |log| - |live| ==> log[i] <= now - window)
  {
    hide After, Live;
    var cutoff := now - window;
    var live := Live(bucket, cutoff);
    LiveIsTail(bucket, cutoff);
    var front := log[..|log| - |live|];
    assert live == log[|log| - |live|..];
    assert log == front + live;
    AfterConcat(front, live, cutoff);
    forall i | 0 <= i < |live|
      ensures live[i] > cutoff
    {
      assert live[0] == log[|log| - |live|] && live[i] == log[|log| - |live| + i];
    }
    AfterKeepsLater(live, cutoff);
    if intact {
      StaleFront(log, bucket, live, clock - window, cutoff);
      AfterDropsStale(front, cutoff);
    }
  }

  lemma StaleFront(log: seq<real>, bucket: seq<real>, live: seq<real>, earlier: real, cutoff: real)
    requires |live| <= |bucket| <= |log| && bucket == log[|log| - |bucket|..] && earlier <= cutoff
    requires forall i :: 0 <= i < |log| - |bucket| ==> log[i] <= earlier
    requires forall i :: 0 <= i < |bucket| - |live| ==> bucket[i] <= cutoff
    ensures forall i :: 0 <= i < |log| - |live| ==> log[i] <= cutoff
  {
  }

  /** Recording an admission when fewer than `limit` remain live. */
  lemma AdmissionTracks(limit: nat, window: real, clock: real, log: seq<real>, live: seq<real>, intact: bool, now: real)
    requires Sorted(log) && (forall x :: x in log ==> x <= clock) && clock <= now
    requires |live| < limit && |live| <= |log| && live == log[|log| - |live|..]
    requires intact ==> Spaced(log, limit, window)
    requires intact ==> forall i :: 0 <= i < |log| - |live| ==> log[i] <= now - window
    ensures Tracks(limit, window, now, log + [now], live + [now], intact)
  {
    var log' := log + [now];
    assert live + [now] == log'[|log'| - |live + [now]|..];
    forall i, j | 0 <= i < j < |log'|
      ensures log'[i] <= log'[j]
    {
      assert log'[i] == log[i] && log[i] in log;
    }
    if intact {
      forall i, j | 0 <= i && j == i + limit && j < |log'|
        ensures log'[i] + window <= log'[j]
      {
        if j == |log| {
          assert i < |log| - |live|;
        } else {
          assert log[i] + window <= log[j];
        }
      }
    }
  }

  /** Popping, and recording an admission when there is room, keeps the bucket in step with the log. */
  lemma TouchTracks(limit: nat, window: real, clock: real, log: seq<real>, bucket: seq<real>, intact: bool, now: real)
    requires Tracks(limit, window, clock, log, bucket, intact) && clock <= now && limit > 0
    ensures var live := Live(bucket, now - window);
      if |live| < limit then Tracks(limit, window, now, log + [now], live + [now], intact)
      else Tracks(limit, window, now, log, live, intact)
  {
    hide After, Live;
    LiveAgainstLog(limit, window, clock, log, bucket, intact, now);
    var live := Live(bucket, now - window);
    if |live| < limit {
      AdmissionTracks(limit, window, clock, log, live, intact, now);
    }
  }

  /** A bucket that is left alone, or dropped once stale, still tracks its log. */
  lemma OthersTrack(limit: nat, window: real, clock: real, log: seq<real>, bucket: seq<real>, intact: bool, now: real)
    requires Tracks(limit, window, clock, log, bucket, intact) && clock <= now
    ensures Tracks(limit, window, now, log, bucket, intact)
    ensures bucket != [] && Newest(bucket) <= now - window ==> Tracks(limit, window, now, log, [], intact)
    ensures Tracks(limit, window, now, log, [], false)
  {
  }

  /** The instant of the last call before point `n`; nothing has happened before the first. */
  function Clock(r: Run, n: nat): real
    requires n <= |r.calls|
  {
    if n == 0 then (if r.calls == [] then 0.0 else r.calls[0].now) else r.calls[n - 1].now
  }

  lemma ClockAdvances(r: Run, i: nat)
    requires IsRun(r) && i < |r.calls|
    ensures Clock(r, i) <= r.calls[i].now == Clock(r, i + 1)
  {
    assert Step(r, i);
  }

  /** The buckets call `i` decided on, once room had been made. */
  lemma StepRoom(r: Run, i: nat) returns (room: Buckets)
    requires |r.buckets| == |r.calls| + 1 && i < |r.calls| && r.limit > 0 && Step(r, i)
    ensures var c, b := r.calls[i], r.buckets[i];
      && Decides(room, c.key, r.limit, c.now - r.window, c.now, r.buckets[i + 1], c.ok)
      && (forall k :: k in room ==> k in b && room[k] == b[k])
      && (c.key in b || |b| < r.maxKeys ==> room == b)
  {
    hide Evicts, Pruned, Decides, NonEmpty;
    var c, b := r.calls[i], r.buckets[i];
    var cutoff := c.now - r.window;
    room :| MakesRoom(r.maxKeys, b, c.key, cutoff, room)
         && Decides(room, c.key, r.limit, cutoff, c.now, r.buckets[i + 1], c.ok);
    RoomIsMade(r.maxKeys, b, c.key, cutoff, room);
  }

  lemma StepTracks(r: Run, i: nat, k: Key, log: seq<real>, clock: real, intact: bool)
    requires |r.buckets| == |r.calls| + 1 && i < |r.calls| && r.limit > 0 && Step(r, i)
    requires clock <= r.calls[i].now
    requires Tracks(r.limit, r.window, clock, log, BucketOf(r.buckets[i], k), intact)
    ensures var c := r.calls[i];
      Tracks(r.limit, r.window, c.now, if c.key == k && c.ok then log + [c.now] else log,
             BucketOf(r.buckets[i + 1], k), intact && !EvictsLive(r, i, k))
  {
    hide Tracks, Live, Step;
    var c, b, b' := r.calls[i], r.buckets[i], r.buckets[i + 1];
    var room := StepRoom(r, i);
    if k == c.key {
      assert BucketOf(room, k) == BucketOf(b, k);
      TouchTracks(r.limit, r.window, clock, log, BucketOf(b, k), intact, c.now);
    } else {
      OthersTrack(r.limit, r.window, clock, log, BucketOf(b, k), intact, c.now);
    }
    if intact && EvictsLive(r, i, k) {
      WeakenTracks(r.limit, r.window, c.now, log, BucketOf(b', k));
    }
    TracksWithoutIntact(r.limit, r.window, c.now, if c.key == k && c.ok then log + [c.now] else log, BucketOf(b', k),
                        intact);
  }

  lemma WeakenTracks(limit: nat, window: real, clock: real, log: seq<real>, bucket: seq<real>)
    ensures Tracks(limit, window, clock, log, bucket, true) ==> Tracks(limit, window, clock, log, bucket, false)
  {
  }

  lemma TracksWithoutIntact(limit: nat, window: real, clock: real, log: seq<real>, bucket: seq<real>, intact: bool)
    ensures Tracks(limit, window, clock, log, bucket, intact) ==> Tracks(limit, window, clock, log, bucket, false)
  {
  }

  lemma NothingTracked(limit: nat, window: real, clock: real)
    ensures Tracks(limit, window, clock, [], [], true)
  {
  }

  lemma LogGrows(calls: seq<Call>, e: nat, n: nat, k: Key)
    requires e <= n < |calls|
    ensures var c, earlier := calls[n], Log(calls[e..n], k);
      Log(calls[e..n + 1], k) == if c.key == k && c.ok then earlier + [c.now] else earlier
  {
    assert calls[e..n + 1][..n - e] == calls[e..n];
  }

  lemma IntactGrows(r: Run, e: nat, n: nat, k: Key)
    requires |r.buckets| == |r.calls| + 1 && e <= n < |r.calls|
    ensures Intact(r, e, n + 1, k) <==> Intact(r, e, n, k) && !EvictsLive(r, n, k)
  {
  }

  /** From any point where a key is untracked, its bucket stays in step with its log since then. */
  lemma {:induction false} RunTracks(r: Run, e: nat, n: nat, k: Key)
    requires IsRun(r) && e <= n <= |r.calls| && k !in r.buckets[e]
    ensures Tracks(r.limit, r.window, Clock(r, n), Log(r.calls[e..n], k), BucketOf(r.buckets[n], k),
                   Intact(r, e, n, k))
    decreases n
  {
    hide Tracks, Step, EvictsLive;
    if n == e {
      NothingTracked(r.limit, r.window, Clock(r, e));
    } else {
      var i := n - 1;
      RunTracks(r, e, i, k);
      assert Step(r, i);
      ClockAdvances(r, i);
      LogGrows(r.calls, e, i, k);
      IntactGrows(r, e, i, k);
      hide *;
      StepTracks(r, i, k, Log(r.calls[e..i], k), Clock(r, i), Intact(r, e, i, k));
    }
  }

  // ----- The theorems -----

  lemma DecisionCounts(r: Run, i: nat)
    requires IsRun(r) && i < |r.calls|
    ensures r.calls[i].ok <==> |Live(BucketOf(r.buckets[i], r.calls[i].key), r.calls[i].now - r.window)| < r.limit
  {
    assert Step(r, i);
    var room := StepRoom(r, i);
    assert BucketOf(room, r.calls[i].key) == BucketOf(r.buckets[i], r.calls[i].key);
  }

  /** From any point where the key is untracked: a refusal is genuine, and the decision exact when intact. */
  lemma DecisionAgainstLog(r: Run, e: nat, i: nat)
    requires IsRun(r) && e <= i < |r.calls| && r.calls[i].key !in r.buckets[e]
    ensures var admitted := After(Log(r.calls[e..i], r.calls[i].key), r.calls[i].now - r.window);
      && (!r.calls[i].ok ==> |admitted| >= r.limit)
      && (Intact(r, e, i, r.calls[i].key) ==> (r.calls[i].ok <==> |admitted| < r.limit))
  {
    hide Live, After, Log, Intact;
    var c := r.calls[i];
    RunTracks(r, e, i, c.key);
    DecisionCounts(r, i);
    ClockAdvances(r, i);
    LiveAgainstLog(r.limit, r.window, Clock(r, i), Log(r.calls[e..i], c.key), BucketOf(r.buckets[i], c.key),
                   Intact(r, e, i, c.key), c.now);
  }

  /** A refusal is always genuine, evictions or not: the key really has `limit` admissions in the window. */
  lemma RefusalIsGenuine(r: Run, i: nat)
    requires IsRun(r) && i < |r.calls| && !r.calls[i].ok
    ensures |After(Log(r.calls[..i], r.calls[i].key), r.calls[i].now - r.window)| >= r.limit
  {
    DecisionAgainstLog(r, 0, i);
    assert r.calls[0..i] == r.calls[..i];
  }

  /** As long as no live bucket of the key was evicted, the decision is exactly the naive one. */
  lemma DecisionIsNaive(r: Run, i: nat)
    requires IsRun(r) && i < |r.calls| && Intact(r, 0, i, r.calls[i].key)
    ensures r.calls[i].ok <==> |After(Log(r.calls[..i], r.calls[i].key), r.calls[i].now - r.window)| < r.limit
  {
    hide Intact;
    DecisionAgainstLog(r, 0, i);
    assert r.calls[0..i] == r.calls[..i];
  }

  /** How many admissions of `k` made by the calls `a..b` are later than `cutoff`. */
  function Admitted(r: Run, a: nat, b: nat, k: Key, cutoff: real): nat
    requires a <= b <= |r.calls|
  {
    |After(Log(r.calls[a..b], k), cutoff)|
  }

  /** In every run, the decision is the naive one over the admissions since the key last lost a live bucket. */
  lemma DecisionCountsSinceLoss(r: Run, i: nat)
    requires IsRun(r) && i < |r.calls|
    ensures var key := r.calls[i].key;
      r.calls[i].ok <==> Admitted(r, LastLoss(r, i, key), i, key, r.calls[i].now - r.window) < r.limit
  {
    hide After, Log, Intact;
    DecisionAgainstLog(r, LastLoss(r, i, r.calls[i].key), i);
  }

  lemma {:induction false} LogConcat(a: seq<Call>, b: seq<Call>, k: Key)
    ensures Log(a + b, k) == Log(a, k) + Log(b, k)
    decreases |b|
  {
    if b == [] {
      assert a + b == a;
    } else {
      assert (a + b)[..|a + b| - 1] == a + b[..|b| - 1];
      LogConcat(a, b[..|b| - 1], k);
    }
  }

  lemma AdmittedSplits(r: Run, e: nat, i: nat, k: Key, cutoff: real)
    requires e <= i <= |r.calls|
    ensures Admitted(r, 0, i, k, cutoff) == Admitted(r, 0, e, k, cutoff) + Admitted(r, e, i, k, cutoff)
  {
    hide After, Log;
    assert r.calls[0..i] == r.calls[0..e] + r.calls[e..i];
    LogConcat(r.calls[0..e], r.calls[e..i], k);
    AfterConcat(Log(r.calls[0..e], k), Log(r.calls[e..i], k), cutoff);
  }

  /**
   * A decision is the naive one iff the admissions in the window from before the key last lost a live
   * bucket do not lift its count from below the limit to the limit or above.
   */
  lemma DecisionIsNaiveIff(r: Run, i: nat)
    requires IsRun(r) && i < |r.calls|
    ensures var (key, cutoff) := (r.calls[i].key, r.calls[i].now - r.window);
      var lost := Admitted(r, 0, LastLoss(r, i, key), key, cutoff);
      var since := Admitted(r, LastLoss(r, i, key), i, key, cutoff);
      (r.calls[i].ok <==> Admitted(r, 0, i, key, cutoff) < r.limit) <==> !(since < r.limit <= lost + since)
  {
    hide Admitted, Step, EvictsLive;
    DecisionCountsSinceLoss(r, i);
    AdmittedSplits(r, LastLoss(r, i, r.calls[i].key), i, r.calls[i].key, r.calls[i].now - r.window);
  }

  lemma {:induction false} NothingBeyond(log: seq<real>, lo: real, hi: real, n: nat)
    requires forall i :: n <= i < |log| ==> log[i] > hi
    ensures |Within(log, lo, hi)| <= n
    decreases |log|
  {
    if log != [] {
      NothingBeyond(log[1..], lo, hi, if n > 0 then n - 1 else 0);
    }
  }

  lemma {:induction false} SpacedLogFitsWindow(log: seq<real>, limit: nat, window: real, lo: real)
    requires Sorted(log) && Spaced(log, limit, window)
    ensures |Within(log, lo, lo + window)| <= limit
    decreases |log|
  {
    if log != [] {
      if log[0] <= lo {
        SpacedLogFitsWindow(log[1..], limit, window, lo);
      } else {
        forall i | limit <= i < |log|
          ensures log[i] > lo + window
        {
          assert log[0] + window <= log[limit];
        }
        NothingBeyond(log, lo, lo + window, limit);
      }
    }
  }

  /**
   * While no live bucket of the key is evicted, no window of that length holds more than `limit` of
   * its admissions since any point where it was untracked, such as the start of the run.
   */
  lemma NoWindowExceedsLimit(r: Run, e: nat, n: nat, k: Key, lo: real)
    requires IsRun(r) && e <= n <= |r.calls| && k !in r.buckets[e] && Intact(r, e, n, k)
    ensures |Within(Log(r.calls[e..n], k), lo, lo + r.window)| <= r.limit
  {
    hide Within, Log, Intact, IsRun, Step, Sorted, Spaced, Newest;
    RunTracks(r, e, n, k);
    SpacedLogFitsWindow(Log(r.calls[e..n], k), r.limit, r.window, lo);
  }

  lemma {:induction false} WithinConcat(a: seq<real>, b: seq<real>, lo: real, hi: real)
    ensures Within(a + b, lo, hi) == Within(a, lo, hi) + Within(b, lo, hi)
  {
    if a == [] {
      assert a + b == b;
    } else {
      assert (a + b)[1..] == a[1..] + b;
      WithinConcat(a[1..], b, lo, hi);
    }
  }

  /** How many live buckets of `k` have been evicted before point `n`. */
  ghost function Losses(r: Run, n: nat, k: Key): nat
    requires |r.buckets| == |r.calls| + 1 && n <= |r.calls|
  {
    if n == 0 then 0 else Losses(r, n - 1, k) + if EvictsLive(r, n - 1, k) then 1 else 0
  }

  lemma {:induction false} IntactLosesNothing(r: Run, e: nat, n: nat, k: Key)
    requires |r.buckets| == |r.calls| + 1 && e <= n <= |r.calls| && Intact(r, e, n, k)
    ensures Losses(r, n, k) == Losses(r, e, k)
    decreases n
  {
    hide EvictsLive;
    if e < n {
      IntactLosesNothing(r, e, n - 1, k);
    }
  }

  /** In every run, each live eviction of a key admits at most `limit` more of it per window. */
  lemma {:induction false} WindowBoundedByLosses(r: Run, n: nat, k: Key, lo: real)
    requires IsRun(r) && n <= |r.calls|
    ensures |Within(Log(r.calls[..n], k), lo, lo + r.window)| <= r.limit * (1 + Losses(r, n, k))
    decreases n
  {
    hide Within, Log, Step, EvictsLive, Intact;
    var e := LastLoss(r, n, k);
    IntactLosesNothing(r, e, n, k);
    if e == 0 {
      NoWindowExceedsLimit(r, 0, n, k, lo);
      assert r.calls[0..n] == r.calls[..n];
    } else {
      WindowBoundedByLosses(r, e - 1, k, lo);
      LossEmptiesBucket(r, e - 1, k);
      NoWindowExceedsLimit(r, e, n, k, lo);
      assert r.calls[..n] == r.calls[..e] + r.calls[e..n];
      LogConcat(r.calls[..e], r.calls[e..n], k);
      WithinConcat(Log(r.calls[..e], k), Log(r.calls[e..n], k), lo, lo + r.window);
      OneMoreLoss(r.limit, Losses(r, e - 1, k));
    }
  }

  lemma OneMoreLoss(limit: nat, losses: nat)
    ensures limit * (1 + (losses + 1)) == limit * (1 + losses) + limit
  {
  }

  lemma LossEmptiesBucket(r: Run, i: nat, k: Key)
    requires IsRun(r) && i < |r.calls| && EvictsLive(r, i, k)
    ensures k !in r.buckets[i + 1] && Log(r.calls[..i + 1], k) == Log(r.calls[..i], k)
  {
    hide Step;
    assert Step(r, i);
    DroppedIsAnotherKey(r, i, k);
  }

  /** A bucket's newest entry is its key's last admission. */
  lemma NewestIsLastAdmission(r: Run, i: nat, k: Key)
    requires IsRun(r) && i <= |r.calls| && k in r.buckets[i] && r.buckets[i][k] != []
    ensures var log := Log(r.calls[..i], k); Sorted(log) && log != [] && log[|log| - 1] == Newest(r.buckets[i][k])
  {
    RunTracks(r, 0, i, k);
    assert r.calls[0..i] == r.calls[..i];
  }

  lemma DroppedIsAnotherKey(r: Run, i: nat, k: Key)
    requires |r.buckets| == |r.calls| + 1 && i < |r.calls| && r.limit > 0 && Step(r, i)
    requires k in r.buckets[i] && k !in r.buckets[i + 1]
    ensures r.buckets[i][k] != [] && Log(r.calls[..i + 1], k) == Log(r.calls[..i], k)
  {
    var room := StepRoom(r, i);
    assert r.calls[..i + 1][..i] == r.calls[..i];
  }

  /** A sorted log has nothing after the cutoff iff its last entry is not after it. */
  lemma AfterIsEmptyIff(log: seq<real>, cutoff: real)
    requires Sorted(log) && log != []
    ensures After(log, cutoff) == [] <==> log[|log| - 1] <= cutoff
  {
    hide After;
    var front, last := log[..|log| - 1], log[|log| - 1];
    if last <= cutoff {
      AfterDropsStale(log, cutoff);
    } else {
      AfterConcat(front, [last], cutoff);
      AfterKeepsLater([last], cutoff);
      assert log == front + [last];
    }
  }

  /**
   * A call that drops a key forgets an admission that could still count iff it evicts it live; so
   * pruning drops only keys with no admission left in the window.
   */
  lemma PrunedKeyIsStale(r: Run, i: nat, k: Key)
    requires IsRun(r) && i < |r.calls| && k in r.buckets[i] && k !in r.buckets[i + 1]
    ensures After(Log(r.calls[..i + 1], k), r.calls[i].now - r.window) == [] <==> !EvictsLive(r, i, k)
  {
    hide Step, Sorted, After, Log;
    assert Step(r, i);
    DroppedIsAnotherKey(r, i, k);
    NewestIsLastAdmission(r, i, k);
    AfterIsEmptyIff(Log(r.calls[..i], k), r.calls[i].now - r.window);
  }

  /**
   * A live bucket is evicted only when the live buckets alone fill the cap, for a key that has none; it
   * is the only live one to go, and none that stays has an older newest entry.
   */
  lemma LiveEvictionMeansFull(r: Run, i: nat, k: Key)
    requires IsRun(r) && i < |r.calls| && EvictsLive(r, i, k)
    ensures r.calls[i].key !in r.buckets[i]
    ensures var live := LiveKeys(r.buckets[i], r.calls[i].now - r.window);
      && |live| >= r.maxKeys
      && forall x :: x in live && x != k ==>
        && x in r.buckets[i + 1] && r.buckets[i + 1][x] == r.buckets[i][x]
        && Newest(r.buckets[i][k]) <= Newest(r.buckets[i][x])
  {
    hide Allows;
    assert Step(r, i);
    var c := r.calls[i];
    DropsOnlyForRoom(r.maxKeys, r.buckets[i], c.key, r.limit, r.window, c.now, r.buckets[i + 1], c.ok, k);
  }

  // ----- The decision, counted on the calls themselves -----

  /** The calls among `e..i` that were granted to `k` after `cutoff`. */
  function Granted(r: Run, e: nat, i: nat, k: Key, cutoff: real): set<nat>
    requires e <= i <= |r.calls|
  {
    set j: nat | e <= j < i && r.calls[j].key == k && r.calls[j].ok && r.calls[j].now > cutoff
  }

  /** Call `i` is one of them. */
  predicate Grants(r: Run, i: nat, k: Key, cutoff: real)
    requires i < |r.calls|
  {
    r.calls[i].key == k && r.calls[i].ok && r.calls[i].now > cutoff
  }

  lemma GrantedGrows(r: Run, e: nat, i: nat, k: Key, cutoff: real)
    requires e <= i < |r.calls|
    ensures |Granted(r, e, i + 1, k, cutoff)| ==
      |Granted(r, e, i, k, cutoff)| + if Grants(r, i, k, cutoff) then 1 else 0
  {
    var before := Granted(r, e, i, k, cutoff);
    assert Granted(r, e, i + 1, k, cutoff) == if Grants(r, i, k, cutoff) then before + {i} else before;
  }

  lemma AdmittedGrows(r: Run, e: nat, i: nat, k: Key, cutoff: real)
    requires e <= i < |r.calls|
    ensures Admitted(r, e, i + 1, k, cutoff) == Admitted(r, e, i, k, cutoff) + if Grants(r, i, k, cutoff) then 1 else 0
  {
    LogGrows(r.calls, e, i, k);
    var now := r.calls[i].now;
    AfterConcat(Log(r.calls[e..i], k), [now], cutoff);
    assert After([now], cutoff) == if now > cutoff then [now] else [];
    hide Log, After;
  }

  lemma {:induction false} AdmittedAreGranted(r: Run, e: nat, i: nat, k: Key, cutoff: real)
    requires e <= i <= |r.calls|
    ensures Admitted(r, e, i, k, cutoff) == |Granted(r, e, i, k, cutoff)|
    decreases i
  {
    if e == i {
      assert Granted(r, e, i, k, cutoff) == {};
    } else {
      hide Admitted, Granted, Grants;
      AdmittedAreGranted(r, e, i - 1, k, cutoff);
      AdmittedGrows(r, e, i - 1, k, cutoff);
      GrantedGrows(r, e, i - 1, k, cutoff);
    }
  }

  /**
   * In every run a call is granted iff fewer than `limit` calls were granted to its key inside the
   * trailing window since the key last lost a live bucket.
   */
  lemma GrantedIff(r: Run, i: nat)
    requires IsRun(r) && i < |r.calls|
    ensures var c := r.calls[i];
      c.ok <==> |Granted(r, LastLoss(r, i, c.key), i, c.key, c.now - r.window)| < r.limit
  {
    hide Admitted, Granted, Step, EvictsLive;
    DecisionCountsSinceLoss(r, i);
    AdmittedAreGranted(r, LastLoss(r, i, r.calls[i].key), i, r.calls[i].key, r.calls[i].now - r.window);
  }

  /** In every run the buckets are never empty, and stay within the cap exactly when it is at least one. */
  lemma {:induction false} RunKeepsCap(r: Run, n: nat)
    requires IsRun(r) && n <= |r.calls|
    ensures NonEmpty(r.buckets[n]) && WithinCap(r.maxKeys, r.buckets[n])
    ensures n > 0 ==> (|r.buckets[n]| <= r.maxKeys <==> r.maxKeys >= 1)
  {
    hide Allows;
    if n > 0 {
      RunKeepsCap(r, n - 1);
      assert Step(r, n - 1);
      var c := r.calls[n - 1];
      CapIsKeptIff(r.maxKeys, r.buckets[n - 1], c.key, r.limit, r.window, c.now, r.buckets[n], c.ok);
    }
  }

  // ----- What an eviction costs, concretely -----

  /** A cap of one and a limit of one: asking about "b" makes the limiter forget "a". */
  function TwoKeysOneSlot(): Run {
    Run(1, 1, 10.0, [map[], map["a" := [0.0]], map["b" := [1.0]], map["a" := [2.0]]],
        [Call("a", 0.0, true), Call("b", 1.0, true), Call("a", 2.0, true)])
  }

  lemma FirstKeyTakesSlot(key: Key, now: real)
    ensures Allows(1, map[], key, 1, 10.0, now, map[key := [now]], true)
  {
    var b: Buckets := map[];
    assert MakesRoom(1, b, key, now - 10.0, b);
    assert [] + [now] == [now];
    assert Decides(b, key, 1, now - 10.0, now, map[key := [now]], true);
  }

  lemma NextKeyTakesSlot(victim: Key, t: real, key: Key, now: real)
    requires victim != key && t > now - 10.0
    ensures Allows(1, map[victim := [t]], key, 1, 10.0, now, map[key := [now]], true)
  {
    var b, room: Buckets := map[victim := [t]], map[];
    assert Pruned(b, now - 10.0) == b;
    assert IsLeastRecent(b, victim) && room == b - {victim};
    assert MakesRoom(1, b, key, now - 10.0, room);
    assert [] + [now] == [now];
    assert Decides(room, key, 1, now - 10.0, now, map[key := [now]], true);
  }

  lemma TwoKeysOneSlotIsRun()
    ensures IsRun(TwoKeysOneSlot())
  {
    hide Allows;
    FirstKeyTakesSlot("a", 0.0);
    NextKeyTakesSlot("a", 0.0, "b", 1.0);
    NextKeyTakesSlot("b", 1.0, "a", 2.0);
    var r := TwoKeysOneSlot();
    assert Step(r, 0) && Step(r, 1) && Step(r, 2);
  }

  lemma TwoKeysOneSlotLog()
    ensures Log(TwoKeysOneSlot().calls, "a") == [0.0, 2.0]
  {
    var calls := TwoKeysOneSlot().calls;
    LogGrows(calls, 0, 0, "a");
    LogGrows(calls, 0, 1, "a");
    LogGrows(calls, 0, 2, "a");
    assert calls[0..3] == calls && calls[0..0] == [];
  }

  lemma BothWithin()
    ensures Within([0.0, 2.0], -1.0, 9.0) == [0.0, 2.0]
  {
    assert [0.0, 2.0][1..] == [2.0];
    assert Within([2.0], -1.0, 9.0) == [2.0];
  }

  /** After a live eviction a key can exceed its limit inside one window. */
  lemma EvictionOverAdmits()
    ensures var r := TwoKeysOneSlot();
      && IsRun(r) && EvictsLive(r, 1, "a")
      && Within(Log(r.calls, "a"), -1.0, 9.0) == [0.0, 2.0]
      && |Within(Log(r.calls, "a"), -1.0, -1.0 + r.window)| > r.limit
  {
    hide Log, Within, Step;
    TwoKeysOneSlotIsRun();
    TwoKeysOneSlotLog();
    BothWithin();
  }

  /** The keys a run has asked about so far. */
  function KeysSeen(calls: seq<Call>): set<Key> {
    set c | c in calls :: c.key
  }

  lemma {:induction false} TrackedKeysWereSeen(r: Run, n: nat)
    requires IsRun(r) && n <= |r.calls|
    ensures r.buckets[n].Keys <= KeysSeen(r.calls[..n])
  {
    if n > 0 {
      TrackedKeysWereSeen(r, n - 1);
      assert Step(r, n - 1);
      var c := r.calls[n - 1];
      var room := StepRoom(r, n - 1);
      hide Step, Live;
      assert r.calls[..n] == r.calls[..n - 1] + [c];
      forall k | k in r.buckets[n]
        ensures k in KeysSeen(r.calls[..n])
      {
        if k == c.key {
          assert c in r.calls[..n];
        } else {
          assert k in KeysSeen(r.calls[..n - 1]);
          var d :| d in r.calls[..n - 1] && d.key == k;
          assert d in r.calls[..n];
        }
      }
    }
  }

  /** A run that asks about no more keys than the cap never evicts anything: it is the naive limiter. */
  lemma FewKeysNeverEvict(r: Run, n: nat, k: Key)
    requires IsRun(r) && n <= |r.calls| && |KeysSeen(r.calls)| <= r.maxKeys
    ensures Intact(r, 0, n, k)
  {
    forall i | 0 <= i < n
      ensures !EvictsLive(r, i, k)
    {
      StepWithRoomEvictsNothing(r, i, k);
    }
  }

  lemma StepWithRoomEvictsNothing(r: Run, i: nat, k: Key)
    requires IsRun(r) && i < |r.calls| && |KeysSeen(r.calls)| <= r.maxKeys
    ensures !EvictsLive(r, i, k)
  {
    TrackedKeysWereSeen(r, i);
    assert Step(r, i);
    var c, b := r.calls[i], r.buckets[i];
    var room := StepRoom(r, i);
    hide Step, Live, IsRun;
    if c.key !in b {
      SeenBefore(r.calls, i);
      assert b.Keys < KeysSeen(r.calls);
      FewerKeys(b, KeysSeen(r.calls));
    }
    assert room == b;
  }

  lemma SeenBefore(calls: seq<Call>, i: nat)
    requires i < |calls|
    ensures KeysSeen(calls[..i]) <= KeysSeen(calls) && calls[i].key in KeysSeen(calls)
  {
  }

  lemma FewerKeys(b: Buckets, seen: set<Key>)
    requires b.Keys < seen
    ensures |b| < |seen|
  {
    assert seen == b.Keys + (seen - b.Keys);
    assert |b| == |b.Keys|;
  }
}
