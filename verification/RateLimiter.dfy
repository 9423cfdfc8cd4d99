/** The fixed-window rate limiter with LRU eviction (server-rate-limit.ts), against a limiter that never forgets a window. */
module RateLimiter {
  import opened Wrappers
  import opened JsMaps

  datatype Window = Window(count: nat, resetAt: int, lastSeenAt: int)

  // ---- the specification: what a key's window is after everything that happened ----

  /** A hit that was counted, or a key thrown out to make room. Pruning does not appear. */
  datatype Event = Hit(key: string, at: int, limit: nat) | Evicted(key: string)

  predicate Live(w: Option<Window>, at: int) { w.Some? && at < w.value.resetAt }

  function Counted(w: Option<Window>, at: int, windowMs: nat): Window {
    if Live(w, at) then Window(w.value.count + 1, w.value.resetAt, at) else Window(1, at + windowMs, at)
  }

  function Next(w: Option<Window>, event: Event, key: string, windowMs: nat): Option<Window> {
    if event.key != key then w else if event.Hit? then Some(Counted(w, event.at, windowMs)) else None
  }

  function WindowOf(log: seq<Event>, key: string, windowMs: nat): Option<Window>
    decreases |log|
  {
    if log == [] then None else Next(WindowOf(log[..|log| - 1], key, windowMs), log[|log| - 1], key, windowMs)
  }

  /** A hit is admitted when it opens a window or is within the limit of a live one. */
  predicate Admits(before: Option<Window>, at: int, limit: nat) {
    Live(before, at) ==> before.value.count + 1 <= limit
  }

  function CeilSeconds(ms: int): int
    requires ms > 0
  {
    (ms + 999) / 1000
  }

  /** The 429 response by its Retry-After; None is no response. */
  function Answer(before: Option<Window>, at: int, limit: nat): Option<int> {
    if Admits(before, at, limit) then None else Some(CeilSeconds(before.value.resetAt - at))
  }

  /** Retry-After is the whole number of seconds that just reaches the end of the window. */
  lemma AnswerReachesTheReset(before: Option<Window>, at: int, limit: nat)
    requires Answer(before, at, limit).Some?
    ensures var r := Answer(before, at, limit).value;
            r >= 1 && at + 1000 * (r - 1) < before.value.resetAt <= at + 1000 * r
  {
    var ms := before.value.resetAt - at;
    assert ms + 999 == 1000 * ((ms + 999) / 1000) + (ms + 999) % 1000;
  }

  lemma WindowAfter(log: seq<Event>, event: Event, key: string, windowMs: nat)
    ensures WindowOf(log + [event], key, windowMs) == Next(WindowOf(log, key, windowMs), event, key, windowMs)
  {
    assert (log + [event])[..|log|] == log;
  }

  // ---- the limiter ----

  /** Order of eviction: longest unseen first, then soonest to expire. */
  predicate Older(a: Window, b: Window) {
    a.lastSeenAt < b.lastSeenAt || (a.lastSeenAt == b.lastSeenAt && a.resetAt <= b.resetAt)
  }

  /** The key to evict: the first, in insertion order, among the oldest. */
  ghost predicate FirstOldest(states: JsMap<string, Window>, key: string)
    requires states.Valid()
  {
    exists i :: 0 <= i < |states.keys| && states.keys[i] == key
      && (forall j :: 0 <= j < |states.keys| ==> Older(states.at[key], states.at[states.keys[j]]))
      && (forall j :: 0 <= j < i ==> !Older(states.at[states.keys[j]], states.at[key]))
  }

  lemma OneFirstOldest(states: JsMap<string, Window>, a: string, b: string)
    requires states.Valid() && FirstOldest(states, a) && FirstOldest(states, b)
    ensures a == b
  {
    var i :| 0 <= i < |states.keys| && states.keys[i] == a && forall j :: 0 <= j < i ==> !Older(states.at[states.keys[j]], states.at[a]);
    var k :| 0 <= k < |states.keys| && states.keys[k] == b && forall j :: 0 <= j < k ==> !Older(states.at[states.keys[j]], states.at[b]);
  }

  /** No window ended before now, so that pruning takes nothing. */
  predicate NoneExpired(states: JsMap<string, Window>, now: int) {
    forall k :: k in states.at ==> now <= states.at[k].resetAt
  }

  /** Where pruning stands after the first i keys. */
  ghost predicate PrunedUpTo(before: JsMap<string, Window>, states: JsMap<string, Window>, now: int, i: nat)
    requires i <= |before.keys|
  {
    && before.Valid() && states.Valid()
    && (forall k :: k in states.at ==> k in before.at && states.at[k] == before.at[k])
    && (forall j :: 0 <= j < |before.keys| ==>
          (before.keys[j] in states.at <==> i <= j || now <= before.at[before.keys[j]].resetAt))
    && (states == before || (|states.keys| < |before.keys| && !NoneExpired(before, now)))
  }

  lemma NothingPruned(states: JsMap<string, Window>, now: int)
    requires states.Valid()
    ensures PrunedUpTo(states, states, now, 0)
  {
  }

  lemma NextIsThere(before: JsMap<string, Window>, states: JsMap<string, Window>, now: int, i: nat)
    requires i < |before.keys| && PrunedUpTo(before, states, now, i)
    ensures before.keys[i] in states.at
  {
  }

  lemma PruneOne(before: JsMap<string, Window>, states: JsMap<string, Window>, now: int, i: nat)
    requires i < |before.keys| && PrunedUpTo(before, states, now, i) && before.keys[i] in states.at
    ensures PrunedUpTo(before, if now > states.at[before.keys[i]].resetAt then states.Delete(before.keys[i]) else states, now, i + 1)
  {
    var k := before.keys[i];
    KeysAreDistinct(before, i);
    if now > states.at[k].resetAt {
      DeleteIsSmaller(states, k);
      PruneExpired(before, states, states.Delete(k), now, i);
    } else {
      PruneLive(before, states, now, i);
    }
  }

  lemma PruneLive(before: JsMap<string, Window>, states: JsMap<string, Window>, now: int, i: nat)
    requires i < |before.keys| && PrunedUpTo(before, states, now, i)
    requires before.keys[i] in states.at && now <= states.at[before.keys[i]].resetAt
    ensures PrunedUpTo(before, states, now, i + 1)
  {
    hide JsMap.Valid, NoneExpired;
  }

  lemma PruneExpired(before: JsMap<string, Window>, states: JsMap<string, Window>, next: JsMap<string, Window>, now: int, i: nat)
    requires i < |before.keys| && PrunedUpTo(before, states, now, i) && next.Valid()
    requires before.keys[i] in states.at && now > states.at[before.keys[i]].resetAt
    requires next.at == states.at - {before.keys[i]} && |next.keys| == |states.keys| - 1
    requires forall j :: 0 <= j < |before.keys| && j != i ==> before.keys[j] != before.keys[i]
    ensures PrunedUpTo(before, next, now, i + 1)
  {
    hide JsMap.Valid;
    assert !NoneExpired(before, now);
  }

  lemma KeysAreDistinct(states: JsMap<string, Window>, i: nat)
    requires states.Valid() && i < |states.keys|
    ensures forall j :: 0 <= j < |states.keys| && j != i ==> states.keys[j] != states.keys[i]
  {
  }

  lemma DeleteIsSmaller(states: JsMap<string, Window>, key: string)
    requires states.Valid() && key in states.at
    ensures |states.Delete(key).keys| == |states.keys| - 1
  {
    hide JsMap.Delete;
    states.SizeIsKeys();
    states.Delete(key).SizeIsKeys();
  }

  lemma AllPruned(before: JsMap<string, Window>, states: JsMap<string, Window>, now: int)
    requires PrunedUpTo(before, states, now, |before.keys|)
    ensures forall k :: k in states.at <==> k in before.at && now <= before.at[k].resetAt
    ensures forall k :: k in states.at ==> states.at[k] == before.at[k]
    ensures if NoneExpired(before, now) then states == before else |states.keys| < |before.keys|
  {
    forall k | k in before.at ensures k in states.at <==> now <= before.at[k].resetAt {
      var j :| 0 <= j < |before.keys| && before.keys[j] == k;
    }
  }

  ghost predicate InOrder(log: seq<Event>) {
    forall i, j :: 0 <= i < j < |log| && log[i].Hit? && log[j].Hit? ==> log[i].at <= log[j].at
  }

  /** The hits of a log happened in this order, and none of them later than now. */
  ghost predicate InOrderUpTo(log: seq<Event>, now: int) {
    InOrder(log) && forall i :: 0 <= i < |log| && log[i].Hit? ==> log[i].at <= now
  }

  /** The keys whose windows a prune at this time leaves. */
  function Unexpired(states: JsMap<string, Window>, now: int): set<string> {
    set k | k in states.at && now <= states.at[k].resetAt
  }

  function KeysOf(log: seq<Event>): set<string> { set i | 0 <= i < |log| :: log[i].key }

  /** The same by the specification, which has no table. */
  function Known(log: seq<Event>, now: int, windowMs: nat): set<string> {
    set k | k in KeysOf(log) && WindowOf(log, k, windowMs).Some? && now <= WindowOf(log, k, windowMs).value.resetAt
  }

  lemma {:induction false} NoEventNoWindow(log: seq<Event>, key: string, windowMs: nat)
    requires key !in KeysOf(log)
    ensures WindowOf(log, key, windowMs).None?
    decreases |log|
  {
    if log != [] {
      var front := log[..|log| - 1];
      assert log[|log| - 1].key in KeysOf(log);
      forall k | k in KeysOf(front) ensures k in KeysOf(log) {
        var i :| 0 <= i < |front| && front[i].key == k;
        assert log[i].key == k;
      }
      NoEventNoWindow(front, key, windowMs);
    }
  }

  /**
   Keys are evicted only from at least maxKeys unexpired ones, each is one of those, and no more go
   than one slot needs.
   */
  ghost predicate RoomFor(before: seq<Event>, evicted: seq<string>, at: int, windowMs: nat, maxKeys: nat) {
    evicted != [] ==>
      && |Known(before, at, windowMs)| >= maxKeys
      && (forall e :: e in evicted ==> e in Known(before, at, windowMs))
      && (maxKeys > 0 ==> |Known(before + Evictions(evicted), at, windowMs)| >= maxKeys - 1)
  }

  lemma HitKeepsOrder(log: seq<Event>, before: int, key: string, at: int, limit: nat)
    requires InOrderUpTo(log, before) && before <= at
    ensures InOrderUpTo(log, at) && InOrderUpTo(log + [Hit(key, at, limit)], at)
  {
  }

  function Evictions(keys: seq<string>): (events: seq<Event>)
    ensures |events| == |keys|
  {
    if keys == [] then [] else [Evicted(keys[0])] + Evictions(keys[1..])
  }

  class RateLimiter {
    const windowMs: nat
    const maxKeys: nat
    var states: JsMap<string, Window>
    ghost var log: seq<Event>
    ghost var clock: int

    /** Every kept window is the one the specification has; a missing one has expired there. */
    ghost predicate Valid()
      reads this
    {
      && states.Valid() && InOrderUpTo(log, clock)
      && (forall k :: k in states.at ==> WindowOf(log, k, windowMs) == Some(states.at[k]) && states.at[k].lastSeenAt <= clock)
      && (forall k :: k !in states.at ==> WindowOf(log, k, windowMs).None? || WindowOf(log, k, windowMs).value.resetAt < clock)
    }

    /** With non-empty keys only, the table never outgrows maxKeys (or one key, for a maxKeys of zero). */
    ghost predicate Bounded()
      reads this
    {
      "" !in states.at && |states.keys| <= if maxKeys == 0 then 1 else maxKeys
    }

    constructor (windowMs: nat, maxKeys: nat, clock: int)
      ensures Valid() && Bounded() && log == [] && this.clock == clock && this.windowMs == windowMs && this.maxKeys == maxKeys
      ensures states == Empty()
    {
      this.windowMs, this.maxKeys, this.states := windowMs, maxKeys, Empty();
      this.log, this.clock := [], clock;
    }

    lemma ValidParts()
      requires Valid()
      ensures states.Valid() && InOrderUpTo(log, clock)
    {
    }

    /** What the table keeps after a prune is what the specification knows. */
    lemma TableIsKnown(now: int)
      requires Valid() && clock <= now
      ensures Known(log, now, windowMs) == Unexpired(states, now)
      ensures NoneExpired(states, now) ==> |Unexpired(states, now)| == |states.keys|
    {
      forall k ensures k in Known(log, now, windowMs) <==> k in Unexpired(states, now) {
        if k !in KeysOf(log) { NoEventNoWindow(log, k, windowMs); }
      }
      if NoneExpired(states, now) {
        states.SizeIsKeys();
        assert Unexpired(states, now) == states.at.Keys;
      }
    }

    /** Drops the windows that ended before now: no answer, ever, depends on it. */
    method Prune(now: int)
      requires Valid() && clock <= now
      modifies this`states, this`clock
      ensures Valid() && clock == now
      ensures forall k :: k in states.at <==> k in old(states).at && now <= old(states).at[k].resetAt
      ensures forall k :: k in states.at ==> states.at[k] == old(states).at[k]
      ensures if NoneExpired(old(states), now) then states == old(states) else |states.keys| < |old(states).keys|
      ensures old(Bounded()) ==> Bounded()
    {
      hide WindowOf, InOrderUpTo, NoneExpired, PrunedUpTo, JsMap.Delete, JsMap.Valid;
      HitKeepsOrder(log, clock, "", now, 0);
      NothingPruned(states, now);
      var keys := states.keys;
      var i := 0;
      while i < |keys|
        invariant i <= |keys| == |old(states).keys| && keys == old(states).keys && states.Valid()
        invariant PrunedUpTo(old(states), states, now, i)
      {
        NextIsThere(old(states), states, now, i);
        var k := keys[i];
        PruneOne(old(states), states, now, i);
        if now > states.at[k].resetAt { Remove(k); }
        i := i + 1;
      }
      AllPruned(old(states), states, now);
      clock := now;
    }

    method Remove(key: string)
      requires states.Valid()
      modifies this`states
      ensures states == old(states).Delete(key) && |states.keys| <= |old(states).keys|
      ensures key in old(states).at ==> |states.keys| == |old(states).keys| - 1
    {
      old(states).SizeIsKeys();
      states := states.Delete(key);
      states.SizeIsKeys();
    }

    /** The first key, in insertion order, among the oldest. */
    method FindLeastRecentlyUsed() returns (oldest: Option<string>)
      requires states.Valid()
      ensures oldest.None? <==> states.keys == []
      ensures oldest.Some? ==> oldest.value in states.at && forall k :: k in states.at ==> Older(states.at[oldest.value], states.at[k])
      ensures oldest.Some? ==> FirstOldest(states, oldest.value)
    {
      oldest := None;
      ghost var at := 0;
      for i := 0 to |states.keys|
        invariant oldest.None? <==> i == 0
        invariant oldest.Some? ==> 0 <= at < i && oldest.value == states.keys[at]
        invariant oldest.Some? ==> forall j :: 0 <= j < i ==> Older(states.at[oldest.value], states.at[states.keys[j]])
        invariant oldest.Some? ==> forall j :: 0 <= j < at ==> !Older(states.at[states.keys[j]], states.at[oldest.value])
      {
        var k := states.keys[i];
        if oldest.None? || states.at[k].lastSeenAt < states.at[oldest.value].lastSeenAt
           || (states.at[k].lastSeenAt == states.at[oldest.value].lastSeenAt && states.at[k].resetAt < states.at[oldest.value].resetAt)
        {
          oldest, at := Some(k), i;
        }
      }
    }

    method Evict(key: string)
      requires Valid() && key in states.at
      modifies this`states, this`log
      ensures Valid() && log == old(log) + [Evicted(key)]
      ensures states == old(states).Delete(key) && |states.keys| == |old(states).keys| - 1
    {
      Remove(key);
      log := log + [Evicted(key)];
      forall k ensures WindowOf(log, k, windowMs) == Next(WindowOf(old(log), k, windowMs), Evicted(key), k, windowMs) {
        WindowAfter(old(log), Evicted(key), k, windowMs);
      }
    }

    /** Stores a window that counts this hit. */
    method Put(key: string, now: int, limit: nat, window: Window)
      requires Valid() && clock <= now && window == Counted(WindowOf(log, key, windowMs), now, windowMs)
      modifies this
      ensures Valid() && clock == now && log == old(log) + [Hit(key, now, limit)]
      ensures states == old(states).Set(key, window)
    {
      hide WindowOf, InOrderUpTo;
      HitKeepsOrder(log, clock, key, now, limit);
      states := states.Set(key, window);
      log, clock := log + [Hit(key, now, limit)], now;
      forall k ensures WindowOf(log, k, windowMs) == Next(WindowOf(old(log), k, windowMs), Hit(key, now, limit), k, windowMs) {
        WindowAfter(old(log), Hit(key, now, limit), k, windowMs);
      }
    }

    /** Makes room: expired windows first, then the oldest ones, and no more than needed. */
    method EnsureCapacity(now: int) returns (ghost evicted: seq<string>)
      requires Valid() && clock <= now
      modifies this
      ensures Valid() && clock == now && log == old(log) + Evictions(evicted)
      ensures forall k :: k in states.at ==> k in old(states).at && states.at[k] == old(states).at[k] && now <= states.at[k].resetAt
      // only live windows are evicted, and only older ones than those that stay
      ensures forall e :: e in evicted ==> e in old(states).at && e !in states.at && now <= old(states).at[e].resetAt
      ensures forall e, k :: e in evicted && k in states.at ==> Older(old(states).at[e], states.at[k])
      ensures "" !in evicted && forall k :: k in old(states).at && now <= old(states).at[k].resetAt ==> k in states.at || k in evicted
      ensures "" !in old(states).at ==> |states.keys| < maxKeys || (maxKeys == 0 && states.keys == [])
      ensures |states.keys| <= |old(states).keys|
      ensures evicted != [] && "" !in old(states).at && maxKeys > 0 ==> |states.keys| == maxKeys - 1
      // ... out of at least maxKeys live ones, and no more than one slot needs
      ensures evicted != [] ==> |Unexpired(old(states), now)| >= maxKeys
      ensures evicted != [] && maxKeys > 0 ==> |states.keys| >= maxKeys - 1
      ensures evicted != [] && |old(states).keys| <= maxKeys ==> |states.keys| < maxKeys
      // no room is made exactly when nothing has expired and the empty key is the one to evict
      ensures |old(states).keys| == maxKeys > 0 ==>
                (|states.keys| >= maxKeys <==> NoneExpired(old(states), now) && FirstOldest(old(states), ""))
    {
      hide WindowOf, Evictions, Older, JsMap.Valid, FirstOldest, NoneExpired, InOrderUpTo, Unexpired;
      EvictionsOfNone();
      Prune(now);
      ghost var pruned := states;
      PrunedSize(old(states), pruned, now);
      evicted := [];
      assert log + Evictions([]) == log;
      while |states.keys| >= maxKeys
        invariant Valid() && clock == now && log == old(log) + Evictions(evicted)
        invariant forall k :: k in states.at ==> k in old(states).at && states.at[k] == old(states).at[k] && now <= states.at[k].resetAt
        invariant forall e :: e in evicted ==> e in old(states).at && e !in states.at && now <= old(states).at[e].resetAt
        invariant forall e, k :: e in evicted && k in states.at ==> Older(old(states).at[e], states.at[k])
        invariant "" !in evicted && forall k :: k in old(states).at && now <= old(states).at[k].resetAt ==> k in states.at || k in evicted
        invariant |states.keys| <= |old(states).keys|
        invariant evicted != [] && maxKeys > 0 ==> |states.keys| >= maxKeys - 1
        invariant evicted == [] ==> states == pruned
        invariant evicted != [] ==> |pruned.keys| >= maxKeys
        invariant evicted != [] && |old(states).keys| <= maxKeys ==> |states.keys| < maxKeys && !FirstOldest(pruned, "")
        decreases |states.keys|
      {
        var oldest := FindLeastRecentlyUsed();
        if oldest.None? || oldest.value == "" { break; }
        if FirstOldest(states, "") { OneFirstOldest(states, "", oldest.value); }
        Evict(oldest.value);
        MoreEvictions(evicted, oldest.value);
        evicted := evicted + [oldest.value];
      }
    }

    /** check: the answer of a limiter that forgets evicted keys and nothing else. */
    method Check(rateKey: string, maxAllowed: nat, now: int) returns (answer: Option<int>, ghost evicted: seq<string>)
      requires Valid() && clock <= now
      modifies this
      ensures Valid() && clock == now
      ensures log == old(log) + Evictions(evicted) + [Hit(rateKey, now, maxAllowed)]
      ensures answer == Answer(WindowOf(old(log), rateKey, windowMs), now, maxAllowed)
      ensures old(Bounded()) && rateKey != "" ==> Bounded()
      // the empty key: a table within its bound outgrows it exactly so
      ensures rateKey !in old(states).at && |old(states).keys| <= maxKeys && maxKeys > 0 ==>
                (|states.keys| > maxKeys <==>
                 |old(states).keys| == maxKeys && NoneExpired(old(states), now) && FirstOldest(old(states), ""))
      // eviction: a new key at a full table, and only of a window that is live and older than all that stay
      ensures evicted != [] ==> rateKey !in old(states).at && |old(states).keys| >= maxKeys
      ensures forall e :: e in evicted ==> e in old(states).at && now <= old(states).at[e].resetAt && e != rateKey
      ensures forall e, k :: e in evicted && k in states.at && k != rateKey ==> Older(old(states).at[e], states.at[k])
      ensures forall k :: k in states.at && k != rateKey ==> k in old(states).at && states.at[k] == old(states).at[k]
      // ... of at least maxKeys live ones, and no more than one slot needs
      ensures evicted != [] ==> |Unexpired(old(states), now)| >= maxKeys
      ensures evicted != [] && maxKeys > 0 ==>
                |states.keys| >= maxKeys && ("" !in old(states).at || |old(states).keys| <= maxKeys ==> |states.keys| == maxKeys)
      ensures RoomFor(old(log), evicted, now, windowMs, maxKeys)
      // nothing else goes but what has expired
      ensures rateKey in states.at && "" !in evicted
      ensures forall k :: k in old(states).at && now <= old(states).at[k].resetAt ==> k in states.at || k in evicted
      ensures states.at[rateKey] == Counted(WindowOf(old(log), rateKey, windowMs), now, windowMs)
    {
      hide Older, FirstOldest, NoneExpired, InOrderUpTo, Evictions, RoomFor, Unexpired, Known;
      evicted := [];
      if rateKey in states.at && now < states.at[rateKey].resetAt {
        NoRoomNeeded(log, now, windowMs, maxKeys);
        var state := states.at[rateKey];
        state := state.(count := state.count + 1, lastSeenAt := now);
        Put(rateKey, now, maxAllowed, state);
        return if state.count > maxAllowed then Some(CeilSeconds(state.resetAt - now)) else None, evicted;
      }
      evicted := MakeRoom(rateKey, now);
      Put(rateKey, now, maxAllowed, Window(1, now + windowMs, now));
      answer := None;
    }

    /** The room for a key that has no window: a new key at a full table needs some. */
    method MakeRoom(rateKey: string, now: int) returns (ghost evicted: seq<string>)
      requires Valid() && clock <= now
      modifies this
      ensures Valid() && clock <= now && log == old(log) + Evictions(evicted)
      ensures WindowOf(log, rateKey, windowMs) == WindowOf(old(log), rateKey, windowMs)
      ensures rateKey in old(states).at || |old(states).keys| < maxKeys ==> states == old(states) && evicted == []
      ensures rateKey !in old(states).at ==> rateKey !in states.at
      ensures rateKey !in old(states).at && "" !in old(states).at ==>
                |states.keys| < maxKeys || (maxKeys == 0 && states.keys == [])
      ensures rateKey !in old(states).at && |old(states).keys| == maxKeys > 0 ==>
                (|states.keys| >= maxKeys <==> NoneExpired(old(states), now) && FirstOldest(old(states), ""))
      ensures forall k :: k in states.at ==> k in old(states).at && states.at[k] == old(states).at[k]
      ensures forall k :: k in old(states).at && now <= old(states).at[k].resetAt ==> k in states.at || k in evicted
      ensures forall e :: e in evicted ==> e in old(states).at && now <= old(states).at[e].resetAt && e != rateKey && e != ""
      ensures forall e, k :: e in evicted && k in states.at ==> Older(old(states).at[e], states.at[k])
      ensures |states.keys| <= |old(states).keys| && RoomFor(old(log), evicted, now, windowMs, maxKeys)
      ensures evicted != [] ==> |Unexpired(old(states), now)| >= maxKeys
      ensures evicted != [] && maxKeys > 0 ==>
                |states.keys| >= maxKeys - 1
                && ("" !in old(states).at || |old(states).keys| <= maxKeys ==> |states.keys| == maxKeys - 1)
    {
      hide Older, FirstOldest, InOrderUpTo, Evictions, RoomFor, Unexpired, Known, WindowOf, NoneExpired, JsMap.Valid;
      ghost var before := log;
      evicted := [];
      EvictionsOfNone();
      assert log + Evictions([]) == log;
      NoRoomNeeded(log, now, windowMs, maxKeys);
      if rateKey !in states.at && |states.keys| >= maxKeys {
        TableIsKnown(now);
        UnexpiredAre(states, now);
        evicted := EnsureCapacity(now);
        EvictionsKeep(before, evicted, rateKey, windowMs);
        AllLive(states, now);
        TableIsKnown(now);
        MadeRoom(before, evicted, now, windowMs, maxKeys);
      }
    }
  }

  lemma UnexpiredAre(states: JsMap<string, Window>, now: int)
    ensures forall k :: k in Unexpired(states, now) <==> k in states.at && now <= states.at[k].resetAt
  {
  }

  lemma PrunedSize(before: JsMap<string, Window>, pruned: JsMap<string, Window>, now: int)
    requires pruned.Valid() && forall k :: k in pruned.at <==> k in before.at && now <= before.at[k].resetAt
    ensures |pruned.keys| == |Unexpired(before, now)|
  {
    pruned.SizeIsKeys();
    assert pruned.at.Keys == Unexpired(before, now);
  }

  lemma NoRoomNeeded(log: seq<Event>, at: int, windowMs: nat, maxKeys: nat)
    ensures RoomFor(log, [], at, windowMs, maxKeys)
  {
  }

  lemma MadeRoom(before: seq<Event>, evicted: seq<string>, at: int, windowMs: nat, maxKeys: nat)
    requires evicted != [] ==> |Known(before, at, windowMs)| >= maxKeys
    requires forall e :: e in evicted ==> e in Known(before, at, windowMs)
    requires evicted != [] && maxKeys > 0 ==> |Known(before + Evictions(evicted), at, windowMs)| >= maxKeys - 1
    ensures RoomFor(before, evicted, at, windowMs, maxKeys)
  {
  }

  lemma AllLive(states: JsMap<string, Window>, now: int)
    requires forall k :: k in states.at ==> now <= states.at[k].resetAt
    ensures NoneExpired(states, now)
  {
  }

  lemma EvictionsOfNone()
    ensures Evictions([]) == []
  {
  }

  lemma {:induction false} MoreEvictions(keys: seq<string>, key: string)
    ensures Evictions(keys + [key]) == Evictions(keys) + [Evicted(key)]
  {
    if keys == [] {
      assert keys + [key] == [key];
    } else {
      MoreEvictions(keys[1..], key);
      assert (keys + [key])[1..] == keys[1..] + [key];
    }
  }

  lemma {:induction false} EvictionsKeep(log: seq<Event>, keys: seq<string>, key: string, windowMs: nat)
    requires key !in keys
    ensures WindowOf(log + Evictions(keys), key, windowMs) == WindowOf(log, key, windowMs)
    decreases |keys|
  {
    if keys == [] {
      assert log + Evictions(keys) == log;
    } else {
      var front := keys[..|keys| - 1];
      assert keys == front + [keys[|keys| - 1]];
      MoreEvictions(front, keys[|keys| - 1]);
      assert log + Evictions(keys) == log + Evictions(front) + [Evicted(keys[|keys| - 1])];
      WindowAfter(log + Evictions(front), Evicted(keys[|keys| - 1]), key, windowMs);
      EvictionsKeep(log, front, key, windowMs);
    }
  }

  // ---- how much a window lets through ----

  /** Hits of the key in [from, to) that were admitted. */
  function AdmittedIn(log: seq<Event>, key: string, windowMs: nat, from: int, to: int): nat
    decreases |log|
  {
    if log == [] then 0
    else
      var front, last := log[..|log| - 1], log[|log| - 1];
      AdmittedIn(front, key, windowMs, from, to)
      + if last.Hit? && last.key == key && from <= last.at < to && Admits(WindowOf(front, key, windowMs), last.at, last.limit) then 1 else 0
  }

  /** The key keeps one limit and is never evicted. */
  ghost predicate Undisturbed(log: seq<Event>, key: string, limit: nat) {
    forall i :: 0 <= i < |log| && log[i].key == key ==> log[i].Hit? && log[i].limit == limit
  }

  lemma {:induction false} WiderAdmitsMore(log: seq<Event>, key: string, windowMs: nat, from: int, to: int, from0: int, to0: int)
    requires from0 <= from && to <= to0
    ensures AdmittedIn(log, key, windowMs, from, to) <= AdmittedIn(log, key, windowMs, from0, to0)
    decreases |log|
  {
    if log != [] { WiderAdmitsMore(log[..|log| - 1], key, windowMs, from, to, from0, to0); }
  }

  lemma {:induction false} SplitAt(log: seq<Event>, key: string, windowMs: nat, from: int, mid: int, to: int)
    requires from <= mid <= to
    ensures AdmittedIn(log, key, windowMs, from, to) == AdmittedIn(log, key, windowMs, from, mid) + AdmittedIn(log, key, windowMs, mid, to)
    decreases |log|
  {
    if log != [] { SplitAt(log[..|log| - 1], key, windowMs, from, mid, to); }
  }

  lemma {:induction false} NothingBeyond(log: seq<Event>, key: string, windowMs: nat, from: int, to: int, end: int)
    requires forall i :: 0 <= i < |log| && log[i].Hit? && log[i].key == key ==> log[i].at < end
    requires end <= to
    ensures AdmittedIn(log, key, windowMs, from, to) == AdmittedIn(log, key, windowMs, from, end)
    decreases |log|
  {
    if log != [] { NothingBeyond(log[..|log| - 1], key, windowMs, from, to, end); }
  }

  function AtLeastOne(limit: nat): nat { if limit == 0 then 1 else limit }

  /** The current window began at resetAt - windowMs; it and the stretch before it are each within the limit. */
  ghost predicate Paced(log: seq<Event>, key: string, windowMs: nat, limit: nat) {
    var w := WindowOf(log, key, windowMs);
    if w.None? then forall i :: 0 <= i < |log| ==> log[i].key != key
    else
      var start := w.value.resetAt - windowMs;
      && start <= w.value.lastSeenAt < w.value.resetAt && w.value.count >= 1
      && (forall i :: 0 <= i < |log| && log[i].key == key ==> log[i].Hit? && log[i].at <= w.value.lastSeenAt)
      && AdmittedIn(log, key, windowMs, start, w.value.resetAt) <= w.value.count
      && AdmittedIn(log, key, windowMs, start, w.value.resetAt) <= AtLeastOne(limit)
      && AdmittedIn(log, key, windowMs, start - windowMs, start) <= AtLeastOne(limit)
  }

  lemma {:induction false} NoHitsNoneAdmitted(log: seq<Event>, key: string, windowMs: nat, from: int, to: int)
    requires forall i :: 0 <= i < |log| ==> log[i].key != key
    ensures AdmittedIn(log, key, windowMs, from, to) == 0
    decreases |log|
  {
    if log != [] { NoHitsNoneAdmitted(log[..|log| - 1], key, windowMs, from, to); }
  }

  lemma {:induction false} StaysPaced(log: seq<Event>, key: string, windowMs: nat, limit: nat)
    requires windowMs > 0 && InOrder(log) && Undisturbed(log, key, limit)
    ensures Paced(log, key, windowMs, limit)
    decreases |log|
  {
    if log != [] {
      var front, last := log[..|log| - 1], log[|log| - 1];
      StaysPaced(front, key, windowMs, limit);
      var w := WindowOf(front, key, windowMs);
      if last.key != key {
      } else if w.None? {
        OpensFirst(log, front, last, key, windowMs, limit);
      } else if Live(w, last.at) {
        StaysIn(log, front, last, key, windowMs, limit);
      } else {
        OpensNext(log, front, last, key, windowMs, limit);
      }
    }
  }

  lemma OpensFirst(log: seq<Event>, front: seq<Event>, last: Event, key: string, windowMs: nat, limit: nat)
    requires windowMs > 0 && log == front + [last] && last.Hit? && last.key == key
    requires WindowOf(front, key, windowMs).None? && Paced(front, key, windowMs, limit)
    ensures Paced(log, key, windowMs, limit)
  {
    assert log[..|log| - 1] == front;
    assert WindowOf(log, key, windowMs) == Some(Window(1, last.at + windowMs, last.at));
    NoHitsNoneAdmitted(front, key, windowMs, last.at, last.at + windowMs);
    NoHitsNoneAdmitted(front, key, windowMs, last.at - windowMs, last.at);
  }

  lemma StaysIn(log: seq<Event>, front: seq<Event>, last: Event, key: string, windowMs: nat, limit: nat)
    requires windowMs > 0 && log == front + [last] && last.Hit? && last.key == key && last.limit == limit && InOrder(log)
    requires Paced(front, key, windowMs, limit) && Live(WindowOf(front, key, windowMs), last.at)
    ensures Paced(log, key, windowMs, limit)
  {
    assert log[..|log| - 1] == front;
    SeenInOrder(log, front, last, key, windowMs);
  }

  /** The last time the window saw is the time of some hit, so time has not gone back. */
  lemma SeenInOrder(log: seq<Event>, front: seq<Event>, last: Event, key: string, windowMs: nat)
    requires log == front + [last] && last.Hit? && InOrder(log) && WindowOf(front, key, windowMs).Some?
    ensures WindowOf(front, key, windowMs).value.lastSeenAt <= last.at
  {
    var i := SeenHit(front, key, windowMs);
    assert log[i] == front[i] && log[|front|] == last;
  }

  lemma {:induction false} SeenHit(log: seq<Event>, key: string, windowMs: nat) returns (i: nat)
    requires WindowOf(log, key, windowMs).Some?
    ensures i < |log| && log[i].Hit? && log[i].at == WindowOf(log, key, windowMs).value.lastSeenAt
    decreases |log|
  {
    i := |log| - 1;
    if log[i].key != key { i := SeenHit(log[..i], key, windowMs); }
  }

  lemma OpensNext(log: seq<Event>, front: seq<Event>, last: Event, key: string, windowMs: nat, limit: nat)
    requires windowMs > 0 && log == front + [last] && last.Hit? && last.key == key
    requires Paced(front, key, windowMs, limit) && WindowOf(front, key, windowMs).Some? && !Live(WindowOf(front, key, windowMs), last.at)
    ensures Paced(log, key, windowMs, limit)
  {
    assert log[..|log| - 1] == front;
    var w := WindowOf(front, key, windowMs).value;
    var start := w.resetAt - windowMs;
    NothingBeyond(front, key, windowMs, last.at, last.at + windowMs, last.at);
    EmptyInterval(front, key, windowMs, last.at);
    WiderAdmitsMore(front, key, windowMs, last.at - windowMs, last.at, start, last.at);
    NothingBeyond(front, key, windowMs, start, last.at, w.resetAt);
  }

  lemma {:induction false} EmptyInterval(log: seq<Event>, key: string, windowMs: nat, at: int)
    ensures AdmittedIn(log, key, windowMs, at, at) == 0
    decreases |log|
  {
    if log != [] { EmptyInterval(log[..|log| - 1], key, windowMs, at); }
  }

  /** In any half-open stretch as long as the window, no more than twice the limit gets through. */
  lemma {:induction false} AtMostTwiceTheLimit(log: seq<Event>, key: string, windowMs: nat, limit: nat, from: int)
    requires InOrder(log) && Undisturbed(log, key, limit)
    ensures AdmittedIn(log, key, windowMs, from, from + windowMs) <= 2 * AtLeastOne(limit)
    decreases |log|
  {
    if windowMs == 0 {
      EmptyInterval(log, key, windowMs, from);
    } else if log != [] {
      var front, last := log[..|log| - 1], log[|log| - 1];
      AtMostTwiceTheLimit(front, key, windowMs, limit, from);
      if last.Hit? && last.key == key && from <= last.at < from + windowMs {
        StaysPaced(log, key, windowMs, limit);
        var w := WindowOf(log, key, windowMs).value;
        var start := w.resetAt - windowMs;
        assert w.lastSeenAt == last.at;
        WiderAdmitsMore(log, key, windowMs, from, from + windowMs, start - windowMs, from + windowMs + w.resetAt - start + windowMs);
        var far := from + windowMs + w.resetAt - start + windowMs;
        NothingBeyond(log, key, windowMs, start - windowMs, far, w.resetAt);
        SplitAt(log, key, windowMs, start - windowMs, start, w.resetAt);
      }
    }
  }

  /** Twice the limit itself, in any stretch as long as the window. */
  ghost predicate WithinTwice(log: seq<Event>, key: string, windowMs: nat, limit: nat) {
    forall from, to :: to == from + windowMs ==> AdmittedIn(log, key, windowMs, from, to) <= 2 * limit
  }

  /** A limit of zero still admits the first hit of a window; nothing else breaks the bound. */
  lemma TwiceTheLimitExactlyUnlessZero(log: seq<Event>, key: string, windowMs: nat, limit: nat)
    requires InOrder(log) && Undisturbed(log, key, limit)
    ensures WithinTwice(log, key, windowMs, limit) <==> limit > 0 || windowMs == 0 || key !in KeysOf(log)
  {
    if limit > 0 {
      forall from, to | to == from + windowMs ensures AdmittedIn(log, key, windowMs, from, to) <= 2 * limit {
        AtMostTwiceTheLimit(log, key, windowMs, limit, from);
      }
    } else if windowMs == 0 {
      forall from, to | to == from + windowMs ensures AdmittedIn(log, key, windowMs, from, to) <= 2 * limit {
        EmptyInterval(log, key, windowMs, from);
      }
    } else if key !in KeysOf(log) {
      forall from, to | to == from + windowMs ensures AdmittedIn(log, key, windowMs, from, to) <= 2 * limit {
        assert forall i :: 0 <= i < |log| ==> log[i].key in KeysOf(log);
        NoHitsNoneAdmitted(log, key, windowMs, from, to);
      }
    } else {
      var at := FirstHitIsAdmitted(log, key, windowMs, limit);
      assert AdmittedIn(log, key, windowMs, at, at + windowMs) > 2 * limit;
    }
  }

  lemma NotBefore(log: seq<Event>, key: string)
    requires key !in KeysOf(log)
    ensures forall j :: 0 <= j < |log| ==> log[j].key != key
  {
    assert forall j :: 0 <= j < |log| ==> log[j].key in KeysOf(log);
  }

  lemma {:induction false} FirstHitIsAdmitted(log: seq<Event>, key: string, windowMs: nat, limit: nat) returns (at: int)
    requires Undisturbed(log, key, limit) && key in KeysOf(log) && windowMs > 0
    ensures AdmittedIn(log, key, windowMs, at, at + windowMs) >= 1
    decreases |log|
  {
    var front, last := log[..|log| - 1], log[|log| - 1];
    if key in KeysOf(front) {
      assert forall i :: 0 <= i < |front| ==> front[i] == log[i];
      at := FirstHitIsAdmitted(front, key, windowMs, limit);
    } else {
      NotBefore(front, key);
      assert forall j :: 0 <= j < |front| ==> front[j] == log[j];
      at := last.at;
      NoEventNoWindow(front, key, windowMs);
    }
  }

  // ---- whole runs ----

  /** What the server does with its limiter: a request is checked, or the cleanup timer fires. */
  datatype Call = Request(key: string, limit: nat, at: int) | Cleanup(at: int)

  ghost predicate Monotone(calls: seq<Call>, start: int) {
    (forall i :: 0 <= i < |calls| ==> start <= calls[i].at) && forall i, j :: 0 <= i < j < |calls| ==> calls[i].at <= calls[j].at
  }

  /** The requests of a run, as hits. */
  function Hits(calls: seq<Call>): seq<Event>
    decreases |calls|
  {
    if calls == [] then []
    else
      var last := calls[|calls| - 1];
      Hits(calls[..|calls| - 1]) + if last.Request? then [Hit(last.key, last.at, last.limit)] else []
  }

  function Keys(calls: seq<Call>): set<string> { set i | 0 <= i < |calls| && calls[i].Request? :: calls[i].key }

  function HitsIn(log: seq<Event>): seq<Event>
    decreases |log|
  {
    if log == [] then [] else HitsIn(log[..|log| - 1]) + if log[|log| - 1].Hit? then [log[|log| - 1]] else []
  }

  /** What a limiter that forgets nothing but the evicted keys answers to each hit of a log. */
  function AnswersTo(log: seq<Event>, windowMs: nat): (answers: seq<Option<int>>)
    ensures |answers| == |HitsIn(log)|
    decreases |log|
  {
    if log == [] then []
    else
      var front, last := log[..|log| - 1], log[|log| - 1];
      AnswersTo(front, windowMs) + if last.Hit? then [Answer(WindowOf(front, last.key, windowMs), last.at, last.limit)] else []
  }

  /** How many requests for the key got no 429 in [from, to). */
  function LetThrough(hits: seq<Event>, answers: seq<Option<int>>, key: string, from: int, to: int): nat
    requires |hits| == |answers|
    decreases |hits|
  {
    if hits == [] then 0
    else
      var last := hits[|hits| - 1];
      LetThrough(hits[..|hits| - 1], answers[..|hits| - 1], key, from, to)
      + if last.Hit? && last.key == key && from <= last.at < to && answers[|hits| - 1].None? then 1 else 0
  }

  /** No more than twice the limit gets through in any stretch as long as the window. */
  ghost predicate TwiceAtMost(hits: seq<Event>, answers: seq<Option<int>>, key: string, limit: nat, windowMs: nat)
    requires |hits| == |answers|
  {
    forall from, to :: to == from + windowMs ==> LetThrough(hits, answers, key, from, to) <= 2 * AtLeastOne(limit)
  }

  /** The answers let through what the log admitted. */
  lemma {:induction false} LetsThroughTheAdmitted(log: seq<Event>, key: string, windowMs: nat, from: int, to: int)
    ensures LetThrough(HitsIn(log), AnswersTo(log, windowMs), key, from, to) == AdmittedIn(log, key, windowMs, from, to)
    decreases |log|
  {
    if log != [] {
      var front, last := log[..|log| - 1], log[|log| - 1];
      LetsThroughTheAdmitted(front, key, windowMs, from, to);
      if last.Hit? {
        assert HitsIn(log)[..|HitsIn(front)|] == HitsIn(front);
        assert AnswersTo(log, windowMs)[..|HitsIn(front)|] == AnswersTo(front, windowMs);
      } else {
        assert HitsIn(log) == HitsIn(front) && AnswersTo(log, windowMs) == AnswersTo(front, windowMs);
      }
    }
  }

  lemma LetsTwiceTheLimitThrough(log: seq<Event>, key: string, windowMs: nat, limit: nat)
    requires InOrder(log) && Undisturbed(log, key, limit)
    ensures TwiceAtMost(HitsIn(log), AnswersTo(log, windowMs), key, limit, windowMs)
  {
    forall from, to | to == from + windowMs
      ensures LetThrough(HitsIn(log), AnswersTo(log, windowMs), key, from, to) <= 2 * AtLeastOne(limit)
    {
      LetsThroughTheAdmitted(log, key, windowMs, from, to);
      AtMostTwiceTheLimit(log, key, windowMs, limit, from);
    }
  }

  lemma LetsTwiceEveryLimitThrough(log: seq<Event>, now: int, windowMs: nat)
    requires InOrderUpTo(log, now)
    ensures forall key, limit :: Undisturbed(log, key, limit) ==> TwiceAtMost(HitsIn(log), AnswersTo(log, windowMs), key, limit, windowMs)
  {
    forall key, limit | Undisturbed(log, key, limit)
      ensures TwiceAtMost(HitsIn(log), AnswersTo(log, windowMs), key, limit, windowMs)
    {
      LetsTwiceTheLimitThrough(log, key, windowMs, limit);
    }
  }

  lemma OneMoreHit(log: seq<Event>, keys: seq<string>, hit: Event, windowMs: nat)
    requires hit.Hit? && hit.key !in keys
    ensures HitsIn(log + Evictions(keys) + [hit]) == HitsIn(log) + [hit]
    ensures AnswersTo(log + Evictions(keys) + [hit], windowMs)
         == AnswersTo(log, windowMs) + [Answer(WindowOf(log, hit.key, windowMs), hit.at, hit.limit)]
  {
    assert (log + Evictions(keys) + [hit])[..|log + Evictions(keys)|] == log + Evictions(keys);
    EvictionsAnswerNothing(log, keys, windowMs);
    EvictionsKeep(log, keys, hit.key, windowMs);
  }

  lemma {:induction false} EvictionsAnswerNothing(log: seq<Event>, keys: seq<string>, windowMs: nat)
    ensures HitsIn(log + Evictions(keys)) == HitsIn(log) && AnswersTo(log + Evictions(keys), windowMs) == AnswersTo(log, windowMs)
    decreases |keys|
  {
    if keys == [] {
      assert log + Evictions(keys) == log;
    } else {
      var front := keys[..|keys| - 1];
      assert keys == front + [keys[|keys| - 1]];
      MoreEvictions(front, keys[|keys| - 1]);
      assert log + Evictions(keys) == log + Evictions(front) + [Evicted(keys[|keys| - 1])];
      assert (log + Evictions(keys))[..|log + Evictions(keys)| - 1] == log + Evictions(front);
      EvictionsAnswerNothing(log, front, windowMs);
    }
  }

  lemma MoreKeys(calls: seq<Call>, i: nat)
    requires i < |calls|
    ensures Keys(calls[..i + 1]) == Keys(calls[..i]) + (if calls[i].Request? then {calls[i].key} else {})
    ensures Keys(calls[..i + 1]) <= Keys(calls)
    ensures Hits(calls[..i + 1]) == Hits(calls[..i]) + (if calls[i].Request? then [Hit(calls[i].key, calls[i].at, calls[i].limit)] else [])
  {
    assert calls[..i + 1][..i] == calls[..i];
    forall k | k in Keys(calls[..i + 1]) ensures k in Keys(calls[..i]) || (calls[i].Request? && k == calls[i].key) {
      var j :| 0 <= j < i + 1 && calls[j].Request? && calls[j].key == k;
      if j < i { assert calls[..i][j] == calls[j]; }
    }
    forall k | k in Keys(calls[..i]) ensures k in Keys(calls[..i + 1]) {
      var j :| 0 <= j < i && calls[..i][j].Request? && calls[..i][j].key == k;
      assert calls[..i + 1][j] == calls[j];
    }
    if calls[i].Request? { assert calls[..i + 1][i] == calls[i]; }
    forall k | k in Keys(calls[..i + 1]) ensures k in Keys(calls) {
      var j :| 0 <= j < i + 1 && calls[..i + 1][j].Request? && calls[..i + 1][j].key == k;
      assert calls[j].key == k;
    }
  }

  /** A table that does not have this one of the keys yet has room for it, if there is room for all. */
  lemma RoomForOneMore(table: set<string>, keys: set<string>, key: string, maxKeys: nat)
    requires table <= keys && key in keys && key !in table && |keys| <= maxKeys
    ensures |table| < maxKeys
  {
    Smaller(table, keys - {key});
  }

  lemma Smaller(a: set<string>, b: set<string>)
    requires a <= b
    ensures |a| <= |b|
  {
    assert b == a + (b - a);
  }

  /**
   The eviction at i is one of those between some event and the next hit, with at least maxKeys keys
   unexpired before them, this one included, and no fewer than maxKeys - 1 after them.
   */
  ghost predicate Due(log: seq<Event>, i: nat, windowMs: nat, maxKeys: nat)
    requires i < |log|
  {
    exists j, h :: 0 <= j <= i < h < |log| && DueFor(log, j, i, h, windowMs, maxKeys)
  }

  ghost predicate DueFor(log: seq<Event>, j: nat, i: nat, h: nat, windowMs: nat, maxKeys: nat)
    requires j <= i < h < |log|
  {
    && (j == 0 || log[j - 1].Hit?) && (forall m :: j <= m < h ==> log[m].Evicted?) && log[h].Hit?
    && |Known(log[..j], log[h].at, windowMs)| >= maxKeys
    && log[i].key in Known(log[..j], log[h].at, windowMs)
    && (maxKeys > 0 ==> |Known(log[..h], log[h].at, windowMs)| >= maxKeys - 1)
  }

  ghost predicate AllDue(log: seq<Event>, windowMs: nat, maxKeys: nat) {
    && (log == [] || log[|log| - 1].Hit?)
    && forall i :: 0 <= i < |log| && log[i].Evicted? ==> Due(log, i, windowMs, maxKeys)
  }

  lemma EachIsDue(log: seq<Event>, windowMs: nat, maxKeys: nat)
    requires AllDue(log, windowMs, maxKeys)
    ensures forall i :: 0 <= i < |log| && log[i].Evicted? ==> Due(log, i, windowMs, maxKeys)
  {
  }

  lemma {:induction false} EvictionsAre(keys: seq<string>)
    ensures forall i :: 0 <= i < |keys| ==> Evictions(keys)[i] == Evicted(keys[i])
  {
    if keys != [] { EvictionsAre(keys[1..]); }
  }

  lemma MoreAreDue(log: seq<Event>, keys: seq<string>, hit: Event, windowMs: nat, maxKeys: nat)
    requires hit.Hit? && AllDue(log, windowMs, maxKeys) && RoomFor(log, keys, hit.at, windowMs, maxKeys)
    ensures AllDue(log + Evictions(keys) + [hit], windowMs, maxKeys)
  {
    hide Known, WindowOf, Evictions;
    var more := log + Evictions(keys) + [hit];
    EvictionsAre(keys);
    forall i | 0 <= i < |more| && more[i].Evicted? ensures Due(more, i, windowMs, maxKeys) {
      if i < |log| {
        assert log[i] == more[i];
        var j, h :| 0 <= j <= i < h < |log| && DueFor(log, j, i, h, windowMs, maxKeys);
        StillDue(log, more, j, i, h, windowMs, maxKeys);
      } else {
        var h := |more| - 1;
        assert more[..|log|] == log && more[..h] == log + Evictions(keys) && more[i].key == keys[i - |log|];
        assert DueFor(more, |log|, i, h, windowMs, maxKeys);
      }
    }
  }

  lemma StillDue(log: seq<Event>, more: seq<Event>, j: nat, i: nat, h: nat, windowMs: nat, maxKeys: nat)
    requires log <= more && j <= i < h < |log| && DueFor(log, j, i, h, windowMs, maxKeys)
    ensures DueFor(more, j, i, h, windowMs, maxKeys)
  {
    assert more[..j] == log[..j] && more[..h] == log[..h];
  }

  /**
   Every run: the answers are those of the specification on the limiter's own log, which has the
   run's requests and evictions, and no key that kept one limit and was not evicted got more than
   twice that limit through in any stretch as long as the window. Each eviction in the log is due. The
   table stays within its bound while no key is empty; while there are no more keys than it can hold,
   nothing is evicted at all.
   */
  method Run(windowMs: nat, maxKeys: nat, start: int, calls: seq<Call>) returns (limiter: RateLimiter, answers: seq<Option<int>>)
    requires Monotone(calls, start)
    ensures fresh(limiter) && limiter.Valid() && limiter.windowMs == windowMs && limiter.maxKeys == maxKeys
    ensures HitsIn(limiter.log) == Hits(calls) && answers == AnswersTo(limiter.log, windowMs)
    ensures forall key, limit :: Undisturbed(limiter.log, key, limit) ==> TwiceAtMost(Hits(calls), answers, key, limit, windowMs)
    ensures forall i :: 0 <= i < |limiter.log| && limiter.log[i].Evicted? ==> Due(limiter.log, i, windowMs, maxKeys)
    ensures "" !in Keys(calls) ==> limiter.Bounded()
    ensures |Keys(calls)| <= maxKeys ==> limiter.log == Hits(calls)
  {
    hide AnswersTo, HitsIn, Hits, Keys, WindowOf, Evictions, Answer, Older, FirstOldest, NoneExpired, InOrderUpTo, JsMap.Valid, Counted;
    hide TwiceAtMost, Undisturbed, RoomFor, AllDue, Due, Unexpired, RateLimiter.Bounded, RateLimiter.Valid;
    limiter := new RateLimiter(windowMs, maxKeys, start);
    NoCallsYet(calls, windowMs);
    answers := [];
    var i := 0;
    while i < |calls|
      invariant i <= |calls| && limiter.windowMs == windowMs && limiter.maxKeys == maxKeys
      invariant fresh(limiter) && limiter.Valid() && limiter.clock == if i == 0 then start else calls[i - 1].at
      invariant HitsIn(limiter.log) == Hits(calls[..i]) && answers == AnswersTo(limiter.log, windowMs)
      invariant AllDue(limiter.log, windowMs, maxKeys)
      invariant "" !in Keys(calls) ==> limiter.Bounded()
      invariant forall k :: k in limiter.states.at ==> k in Keys(calls[..i])
      invariant |Keys(calls)| <= maxKeys ==> limiter.log == Hits(calls[..i])
    {
      ghost var log, states := limiter.log, limiter.states;
      limiter.ValidParts();
      MoreKeys(calls, i);
      match calls[i] {
        case Cleanup(at) => limiter.Prune(at);
        case Request(key, limit, at) =>
          var answer;
          ghost var evicted;
          answer, evicted := limiter.Check(key, limit, at);
          OneMoreHit(log, evicted, Hit(key, at, limit), windowMs);
          MoreAreDue(log, evicted, Hit(key, at, limit), windowMs, maxKeys);
          answers := answers + [answer];
          if |Keys(calls)| <= maxKeys { NothingEvicted(log, states, evicted, key, at, limit, Keys(calls), maxKeys); }
      }
      i := i + 1;
    }
    assert calls[..|calls|] == calls;
    limiter.ValidParts();
    LetsTwiceEveryLimitThrough(limiter.log, limiter.clock, windowMs);
    EachIsDue(limiter.log, windowMs, maxKeys);
  }

  lemma NoCallsYet(calls: seq<Call>, windowMs: nat)
    ensures HitsIn([]) == Hits(calls[..0]) == [] && AnswersTo([], windowMs) == []
    ensures forall maxKeys :: AllDue([], windowMs, maxKeys)
  {
  }

  lemma NothingEvicted(log: seq<Event>, states: JsMap<string, Window>, evicted: seq<string>, key: string, at: int, limit: nat,
                       keys: set<string>, maxKeys: nat)
    requires states.Valid() && states.at.Keys <= keys && key in keys && |keys| <= maxKeys
    requires evicted != [] ==> key !in states.at && |states.keys| >= maxKeys
    ensures log + Evictions(evicted) + [Hit(key, at, limit)] == log + [Hit(key, at, limit)]
  {
    if evicted != [] {
      states.SizeIsKeys();
      RoomForOneMore(states.at.Keys, keys, key, maxKeys);
    }
    assert Evictions([]) == [];
  }

  /** One more key than maxKeys: the empty key is the only one, and it has not expired. */
  method EmptyKeyOverflows() returns (limiter: RateLimiter)
    ensures fresh(limiter) && limiter.Valid() && limiter.maxKeys == 1 && |limiter.states.keys| > 1
  {
    hide WindowOf, Evictions, Answer, InOrderUpTo, JsMap.Valid;
    limiter := new RateLimiter(60000, 1, 0);
    var answer;
    ghost var evicted;
    answer, evicted := limiter.Check("", 1, 0);
    FirstWindow("", 60000);
    OnlyKey(limiter.states, "");
    answer, evicted := limiter.Check("k", 1, 1);
  }

  lemma FirstWindow(key: string, windowMs: nat)
    ensures WindowOf([], key, windowMs).None?
  {
  }

  lemma OnlyKey(states: JsMap<string, Window>, key: string)
    requires states.Valid() && key in states.at && forall k :: k in states.at ==> k == key
    ensures |states.keys| == 1 && FirstOldest(states, key)
    ensures forall now :: now <= states.at[key].resetAt ==> NoneExpired(states, now)
  {
    assert states.at.Keys == {key};
    states.SizeIsKeys();
    assert states.keys[0] in states.at;
  }
}
