/** The per-key sliding-window limiter, against a log that never forgets. */
module SlidingWindow {
  import opened Common

  type Key = string
  type Buckets = map<Key, seq<real>>

  // ----- One call -----

  /** A bucket after its stale front entries have been popped. */
  function Live(bucket: seq<real>, cutoff: real): seq<real> {
    if bucket == [] || bucket[0] > cutoff then bucket else Live(bucket[1..], cutoff)
  }

  function BucketOf(b: Buckets, k: Key): seq<real> {
    if k in b then b[k] else []
  }

  ghost predicate NonEmpty(b: Buckets) {
    forall k :: k in b ==> b[k] != []
  }

  function Newest(bucket: seq<real>): real
    requires bucket != []
  {
    bucket[|bucket| - 1]
  }

  /** The buckets whose newest admission is still inside the window. */
  function Pruned(b: Buckets, cutoff: real): Buckets
    requires NonEmpty(b)
  {
    map k | k in b && Newest(b[k]) > cutoff :: b[k]
  }

  /** The newest admission of `victim` is as old as any key's. */
  ghost predicate IsLeastRecent(b: Buckets, victim: Key)
    requires NonEmpty(b)
  {
    victim in b && forall k :: k in b ==> Newest(b[victim]) <= Newest(b[k])
  }

  /** `room` lacks one least recent bucket of `b`; ties are the dictionary's choice. */
  ghost predicate Evicts(b: Buckets, room: Buckets)
    requires NonEmpty(b)
  {
    if b == map[] then room == b
    else exists victim :: IsLeastRecent(b, victim) && room == b - {victim}
  }

  /** What is left of the other buckets when `key` needs one: untouched, pruned, or pruned and evicted. */
  ghost predicate MakesRoom(maxKeys: int, b: Buckets, key: Key, cutoff: real, room: Buckets)
    requires NonEmpty(b)
  {
    if key in b || |b| < maxKeys then room == b
    else if |Pruned(b, cutoff)| < maxKeys then room == Pruned(b, cutoff)
    else Evicts(Pruned(b, cutoff), room)
  }

  /** Admit when fewer than `limit` live admissions remain; only admissions are recorded. */
  ghost predicate Decides(room: Buckets, key: Key, limit: int, cutoff: real, now: real, b': Buckets, ok: bool) {
    var live := Live(BucketOf(room, key), cutoff);
    && ok == (|live| < limit)
    && b' == room[key := if ok then live + [now] else live]
  }

  /** One decision for `key` at time `now`. */
  ghost predicate Allows(maxKeys: int, b: Buckets, key: Key, limit: int, window: real, now: real, b': Buckets, ok: bool)
    requires NonEmpty(b)
  {
    if limit <= 0 then ok && b' == b
    else Counts(maxKeys, b, key, limit, now - window, now, b', ok)
  }

  /** Room is made, then only the admissions after `cutoff` count. */
  ghost predicate Counts(maxKeys: int, b: Buckets, key: Key, limit: int, cutoff: real, now: real, b': Buckets, ok: bool)
    requires NonEmpty(b)
  {
    exists room :: MakesRoom(maxKeys, b, key, cutoff, room) && Decides(room, key, limit, cutoff, now, b', ok)
  }

  /** Making room only drops whole buckets, and leaves a free slot unless the cap is below one. */
  lemma RoomIsMade(maxKeys: int, b: Buckets, key: Key, cutoff: real, room: Buckets)
    requires NonEmpty(b) && MakesRoom(maxKeys, b, key, cutoff, room)
    ensures forall k :: k in room ==> k in b && room[k] == b[k]
    ensures key in b ==> room == b
    ensures key !in b ==> |room| < maxKeys || |room| < |b| || |room| == 0
    ensures |room| <= |b|
  {
    if key !in b && |b| >= maxKeys {
      var p := Pruned(b, cutoff);
      NoLargerMap(p, b);
      if |p| >= maxKeys && p != map[] {
        var victim :| IsLeastRecent(p, victim) && room == p - {victim};
        assert room.Keys == p.Keys - {victim};
        assert |room| == |room.Keys| && |p| == |p.Keys|;
      }
    }
  }

  lemma RoomWhenTracked(maxKeys: int, b: Buckets, key: Key, cutoff: real)
    requires NonEmpty(b) && key in b
    ensures MakesRoom(maxKeys, b, key, cutoff, b)
  {
  }

  /** No call, whatever its limit and window, ever leaves an empty bucket behind. */
  lemma DecisionKeepsNonEmpty(room: Buckets, key: Key, limit: int, cutoff: real, now: real, b': Buckets, ok: bool)
    requires NonEmpty(room) && limit > 0 && Decides(room, key, limit, cutoff, now, b', ok)
    ensures NonEmpty(b')
  {
  }

  /** At most the cap, or one where the cap is below one. */
  predicate WithinCap(maxKeys: int, b: Buckets) {
    |b| <= maxKeys || |b| <= 1
  }

  /** No call leaves an empty bucket, or more tracked keys than the larger of the cap and one. */
  lemma CallKeepsBounds(maxKeys: int, b: Buckets, key: Key, limit: int, window: real, now: real, b': Buckets, ok: bool)
    requires NonEmpty(b) && WithinCap(maxKeys, b)
    requires Allows(maxKeys, b, key, limit, window, now, b', ok)
    ensures NonEmpty(b') && WithinCap(maxKeys, b')
  {
    hide Decides, MakesRoom;
    if limit > 0 {
      var cutoff := now - window;
      var room :| MakesRoom(maxKeys, b, key, cutoff, room) && Decides(room, key, limit, cutoff, now, b', ok);
      RoomIsMade(maxKeys, b, key, cutoff, room);
      DecisionKeepsNonEmpty(room, key, limit, cutoff, now, b', ok);
      DecisionSize(room, key, limit, cutoff, now, b', ok);
    }
  }

  /** A counting call keeps the tracked keys within the cap iff the cap is at least one; below, one key is kept. */
  lemma CapIsKeptIff(maxKeys: int, b: Buckets, key: Key, limit: int, window: real, now: real, b': Buckets, ok: bool)
    requires NonEmpty(b) && WithinCap(maxKeys, b) && limit > 0
    requires Allows(maxKeys, b, key, limit, window, now, b', ok)
    ensures NonEmpty(b') && WithinCap(maxKeys, b')
    ensures |b'| <= maxKeys <==> maxKeys >= 1
    ensures maxKeys < 1 ==> |b'| == 1
  {
    CallKeepsBounds(maxKeys, b, key, limit, window, now, b', ok);
    var cutoff := now - window;
    var room :| MakesRoom(maxKeys, b, key, cutoff, room) && Decides(room, key, limit, cutoff, now, b', ok);
    hide MakesRoom, NonEmpty;
    assert key in b';
  }

  /** The keys with an admission later than `cutoff`. */
  function LiveKeys(b: Buckets, cutoff: real): set<Key> {
    set k | k in b && b[k] != [] && b[k][|b[k]| - 1] > cutoff
  }

  /**
   * Which buckets a call may drop: none unless it asks about an untracked key at the cap; then every
   * stale one; and a live one only if the live ones alone fill the cap, in which case it is the only
   * live one dropped and its newest entry is no later than that of any bucket kept.
   */
  lemma DropsOnlyForRoom(maxKeys: int, b: Buckets, key: Key, limit: int, window: real, now: real, b': Buckets,
                         ok: bool, x: Key)
    requires NonEmpty(b) && Allows(maxKeys, b, key, limit, window, now, b', ok)
    requires x in b && x !in b'
    ensures x != key && limit > 0 && key !in b && |b| >= maxKeys
    ensures forall y :: y in b' && y != key ==> y in LiveKeys(b, now - window) && b'[y] == b[y]
    ensures x in LiveKeys(b, now - window) ==>
      && |LiveKeys(b, now - window)| >= maxKeys
      && (forall y :: y in LiveKeys(b, now - window) && y != x ==> y in b' && Newest(b[x]) <= Newest(b[y]))
  {
    var cutoff := now - window;
    var room :| MakesRoom(maxKeys, b, key, cutoff, room) && Decides(room, key, limit, cutoff, now, b', ok);
    RoomDropsOnlyStaleOrLeast(maxKeys, b, key, cutoff, room, x);
  }

  lemma RoomDropsOnlyStaleOrLeast(maxKeys: int, b: Buckets, key: Key, cutoff: real, room: Buckets, x: Key)
    requires NonEmpty(b) && MakesRoom(maxKeys, b, key, cutoff, room) && x in b && x !in room
    ensures key !in b && |b| >= maxKeys
    ensures forall y :: y in room ==> y in LiveKeys(b, cutoff) && room[y] == b[y]
    ensures x in LiveKeys(b, cutoff) ==>
      && |LiveKeys(b, cutoff)| >= maxKeys
      && (forall y :: y in LiveKeys(b, cutoff) && y != x ==> y in room && Newest(b[x]) <= Newest(b[y]))
  {
    var p := Pruned(b, cutoff);
    assert p.Keys == LiveKeys(b, cutoff);
    assert |p| == |p.Keys|;
    if |p| >= maxKeys && p != map[] {
      var victim :| IsLeastRecent(p, victim) && room == p - {victim};
    }
  }

  /** A call that drops nothing leaves every other bucket as it was. */
  lemma OthersAreKept(maxKeys: int, b: Buckets, key: Key, limit: int, window: real, now: real, b': Buckets, ok: bool)
    requires NonEmpty(b) && Allows(maxKeys, b, key, limit, window, now, b', ok)
    ensures limit <= 0 ==> ok && b' == b
    ensures forall y :: y in b' && y != key ==> y in b && b'[y] == b[y]
    ensures key in b || |b| < maxKeys ==> b.Keys <= b'.Keys
  {
  }

  /** A cap of zero still tracks the key it is asked about. */
  lemma ZeroCapKeepsOne()
    ensures Allows(0, map[], "a", 1, 10.0, 0.0, map["a" := [0.0]], true) && |map["a" := [0.0]]| > 0
  {
    var b: Buckets, room: Buckets := map[], map[];
    assert Pruned(b, -10.0) == b;
    assert MakesRoom(0, b, "a", -10.0, room);
    assert [] + [0.0] == [0.0];
    assert Decides(room, "a", 1, -10.0, 0.0, map["a" := [0.0]], true);
  }

  lemma DecisionSize(room: Buckets, key: Key, limit: int, cutoff: real, now: real, b': Buckets, ok: bool)
    requires Decides(room, key, limit, cutoff, now, b', ok)
    ensures |b'| == if key in room then |room| else |room| + 1
  {
  }

  lemma NoLargerMap(p: Buckets, b: Buckets)
    requires p.Keys <= b.Keys
    ensures |p| <= |b|
  {
    assert b.Keys == p.Keys + (b.Keys - p.Keys);
    assert |p| == |p.Keys| && |b| == |b.Keys|;
  }

  class SlidingWindowLimiter {
    const maxKeys: int
    var admissions: Buckets

    ghost predicate Valid()
      reads this
    {
      NonEmpty(admissions) && WithinCap(maxKeys, admissions)
    }

    constructor (maxKeys: int := 1024)
      ensures Valid() && admissions == map[] && this.maxKeys == maxKeys
    {
      this.maxKeys := maxKeys;
      admissions := map[];
    }

    method Allow(key: Key, limit: int, window: real, now: real) returns (ok: bool)
      requires Valid()
      modifies this
      ensures Valid()
      ensures Allows(maxKeys, old(admissions), key, limit, window, now, admissions, ok)
      ensures limit > 0 ==> (|admissions| <= maxKeys <==> maxKeys >= 1)
      ensures limit <= 0 ==> ok && admissions == old(admissions)
    {
      if limit <= 0 {
        return true;
      }
      hide MakesRoom, NonEmpty, WithinCap, Live;
      var cutoff := now - window;
      ghost var room := admissions;
      if key !in admissions {
        MakeRoom(key, cutoff);
        room := admissions;
        admissions := admissions[key := []];
      } else {
        RoomWhenTracked(maxKeys, admissions, key, cutoff);
      }
      var bucket := PopStale(admissions[key], cutoff);
      ok := |bucket| < limit;
      if ok {
        bucket := bucket + [now];
      }
      admissions := admissions[key := bucket];
      assert Decides(room, key, limit, cutoff, now, admissions, ok);
      CapIsKeptIff(maxKeys, old(admissions), key, limit, window, now, admissions, ok);
    }

    static method PopStale(whole: seq<real>, cutoff: real) returns (bucket: seq<real>)
      ensures bucket == Live(whole, cutoff)
    {
      bucket := whole;
      while bucket != [] && bucket[0] <= cutoff
        invariant Live(bucket, cutoff) == Live(whole, cutoff)
      {
        bucket := bucket[1..];
      }
    }

    /** A new key at the cap: prune what left the window, then evict if every bucket is live. */
    method MakeRoom(key: Key, cutoff: real)
      requires NonEmpty(admissions) && key !in admissions
      modifies this
      ensures MakesRoom(maxKeys, old(admissions), key, cutoff, admissions) && key !in admissions
    {
      hide IsLeastRecent;
      if |admissions| >= maxKeys {
        PruneStale(cutoff);
        if |admissions| >= maxKeys {
          EvictLeastRecent();
        }
      }
    }

    method PruneStale(cutoff: real)
      requires NonEmpty(admissions)
      modifies this
      ensures admissions == Pruned(old(admissions), cutoff)
    {
      var stale := RowsOf(set k | k in admissions && Newest(admissions[k]) <= cutoff);
      for i := 0 to |stale|
        invariant forall k :: k in admissions <==> k in old(admissions) && k !in stale[..i]
        invariant forall k :: k in admissions ==> admissions[k] == old(admissions)[k]
      {
        admissions := admissions - {stale[i]};
        assert stale[..i + 1] == stale[..i] + [stale[i]];
      }
      assert stale[..|stale|] == stale;
    }

    method EvictLeastRecent()
      requires NonEmpty(admissions)
      modifies this
      ensures Evicts(old(admissions), admissions)
      ensures old(admissions) != map[] ==>
        exists victim :: victim in old(admissions) && admissions == old(admissions) - {victim}
          && forall k :: k in admissions ==> Newest(old(admissions)[victim]) <= Newest(old(admissions)[k])
    {
      if admissions == map[] {
        return;
      }
      var keys := RowsOf(admissions.Keys);
      var oldest := keys[0];
      for i := 1 to |keys|
        invariant oldest in keys
        invariant forall j :: 0 <= j < i ==> Newest(admissions[oldest]) <= Newest(admissions[keys[j]])
      {
        assert keys[i] in keys;
        if Newest(admissions[keys[i]]) < Newest(admissions[oldest]) {
          oldest := keys[i];
        }
      }
      admissions := admissions - {oldest};
      assert IsLeastRecent(old(admissions), oldest);
    }
  }
}
