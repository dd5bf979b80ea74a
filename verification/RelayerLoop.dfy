/**
 The relayer's main loop and its goroutines as interleaved atomic steps. One step is one critical
 section of the dedupe mutex, one wait-group operation, or one move of the main loop.
 */
module RelayerLoop {
  import opened RelayerCache
  import opened SetSizes

  /** Where the main loop stands between its receive, `wg.Add`, `go` and `wg.Wait`. */
  datatype Main = Receiving | Begun(key: Key) | Added(key: Key) | Waiting | Returned

  /** A spawned goroutine: still processing, or with only the deferred `wg.Done` ahead of it. */
  datatype Worker = Worker(key: Key, finished: bool)

  datatype Entry = Began(key: Key, time: Time) | Ended(key: Key, success: bool, time: Time)

  datatype Loop = Loop(
    cache: Cache, clock: Time, main: Main, workers: map<nat, Worker>, nextId: nat, wg: int, log: seq<Entry>)

  datatype Action =
    | Tick(now: Time)
    | Receive(key: Key)
    | AddToGroup
    | Spawn
    | FinishWork(id: nat, success: bool, now: Time)
    | Done(id: nat)
    | Shutdown
    | Return

  predicate Enabled(s: Loop, a: Action) {
    match a
    case Tick(now) => s.clock <= now
    case Receive(_) => s.main.Receiving?
    case AddToGroup => s.main.Begun?
    case Spawn => s.main.Added?
    case FinishWork(id, _, now) => id in s.workers && !s.workers[id].finished && s.clock <= now
    case Done(id) => id in s.workers && s.workers[id].finished
    case Shutdown => s.main.Receiving?
    case Return => s.main.Waiting? && s.wg == 0
  }

  /** `FinishWork` reads the clock twice: once for the time stamp, and again, no earlier, for the cutoff. */
  function Next(s: Loop, a: Action): Loop
    requires Enabled(s, a)
  {
    match a
    case Tick(now) => s.(clock := now)
    case Receive(key) =>
      var begun := Begins(s.cache, key, s.clock);
      s.(cache := BeginEffect(s.cache, key, s.clock),
         main := if begun then Begun(key) else Receiving,
         log := if begun then s.log + [Began(key, s.clock)] else s.log)
    case AddToGroup => s.(main := Added(s.main.key), wg := s.wg + 1)
    case Spawn =>
      s.(main := Receiving, workers := s.workers[s.nextId := Worker(s.main.key, false)], nextId := s.nextId + 1)
    case FinishWork(id, success, now) =>
      var key := s.workers[id].key;
      s.(cache := FinishEffect(s.cache, key, success, s.clock, now),
         clock := now,
         workers := s.workers[id := Worker(key, true)],
         log := s.log + [Ended(key, success, s.clock)])
    case Done(id) => s.(workers := s.workers - {id}, wg := s.wg - 1)
    case Shutdown => s.(main := Waiting)
    case Return => s.(main := Returned)
  }

  function Init(clock: Time): Loop {
    Loop(Cache({}, map[]), clock, Receiving, map[], 0, 0, [])
  }

  /** A run: actions that are not enabled when their turn comes do nothing. */
  function Run(s: Loop, actions: seq<Action>): Loop {
    if |actions| == 0 then s
    else
      var t := Run(s, actions[..|actions| - 1]);
      var a := actions[|actions| - 1];
      if Enabled(t, a) then Next(t, a) else t
  }

  // ---------- Invariant ----------

  predicate Busy(s: Loop, id: nat) {
    id in s.workers && !s.workers[id].finished
  }

  /** The key the main loop has begun and not yet handed to a goroutine. */
  predicate Spawning(s: Loop, key: Key) {
    (s.main.Begun? || s.main.Added?) && s.main.key == key
  }

  /** In-flight keys are exactly those of busy workers and of the spawn under way, each key once. */
  ghost predicate InflightExact(s: Loop) {
    && (forall id :: Busy(s, id) ==> s.workers[id].key in s.cache.inflight && !Spawning(s, s.workers[id].key))
    && (forall i, j :: Busy(s, i) && Busy(s, j) && i != j ==> s.workers[i].key != s.workers[j].key)
    && (s.main.Begun? || s.main.Added? ==> s.main.key in s.cache.inflight)
    && (forall k :: k in s.cache.inflight ==> Spawning(s, k) || exists id :: Busy(s, id) && s.workers[id].key == k)
  }

  /** The wait group counts the live goroutines and the one about to start. */
  ghost predicate GroupExact(s: Loop) {
    && s.wg == |s.workers| + (if s.main.Added? then 1 else 0)
    && (forall id :: id in s.workers ==> id < s.nextId)
    && (s.main.Returned? ==> s.wg == 0)
  }

  ghost predicate Disjoint(c: Cache) {
    forall k :: k in c.inflight ==> k !in c.processed
  }

  /** Every success still blocks its key or is at least a TTL old. */
  ghost predicate SuccessesRemembered(s: Loop) {
    forall i :: 0 <= i < |s.log| && s.log[i].Ended? && s.log[i].success ==> Remembered(s, s.log[i].key, s.log[i].time)
  }

  ghost predicate Remembered(s: Loop, key: Key, time: Time) {
    time <= s.clock &&
    ((key in s.cache.processed && s.cache.processed[key] >= time) || s.clock - time >= DEDUPE_TTL)
  }

  /** After a success no processing of the key begins before a TTL has passed. */
  ghost predicate Spaced(log: seq<Entry>) {
    forall i, j ::
      0 <= i < j < |log| && log[i].Ended? && log[i].success && log[j].Began? && log[i].key == log[j].key ==>
      log[j].time - log[i].time >= DEDUPE_TTL
  }

  /** How often the key was begun, less how often it was finished. */
  function Open(log: seq<Entry>, key: Key): int {
    if |log| == 0 then 0
    else
      var e := log[|log| - 1];
      Open(log[..|log| - 1], key) + if e.key != key then 0 else if e.Began? then 1 else -1
  }

  ghost predicate Balanced(s: Loop) {
    forall k :: Open(s.log, k) == if k in s.cache.inflight then 1 else 0
  }

  ghost predicate Inv(s: Loop) {
    InflightExact(s) && GroupExact(s) && Disjoint(s.cache) && SuccessesRemembered(s) && Spaced(s.log) && Balanced(s)
  }

  // ---------- One step ----------

  lemma InflightSpawn(s: Loop)
    requires InflightExact(s) && GroupExact(s) && s.main.Added?
    ensures InflightExact(Next(s, Spawn))
  {
    var t := Next(s, Spawn);
    assert Busy(t, s.nextId);
    forall k | k in t.cache.inflight
      ensures exists id :: Busy(t, id) && t.workers[id].key == k
    {
      if !Spawning(s, k) {
        var id :| Busy(s, id) && s.workers[id].key == k;
        assert Busy(t, id);
      }
    }
  }

  lemma InflightFinish(s: Loop, id: nat, success: bool, now: Time)
    requires InflightExact(s) && Enabled(s, FinishWork(id, success, now))
    ensures InflightExact(Next(s, FinishWork(id, success, now)))
  {
    var t := Next(s, FinishWork(id, success, now));
    assert Busy(s, id);
    forall i | Busy(t, i)
      ensures Busy(s, i) && i != id
    {
    }
    forall k | k in t.cache.inflight && !Spawning(t, k)
      ensures exists i :: Busy(t, i) && t.workers[i].key == k
    {
      var i :| Busy(s, i) && s.workers[i].key == k;
      assert Busy(t, i) && t.workers[i].key == k;
    }
  }

  /** The other steps change neither the busy workers nor, but for a fresh key, the in-flight set. */
  lemma InflightOther(s: Loop, a: Action)
    requires InflightExact(s) && Enabled(s, a) && !a.Spawn? && !a.FinishWork?
    ensures InflightExact(Next(s, a))
  {
    var t := Next(s, a);
    forall id | id in t.workers
      ensures id in s.workers && t.workers[id] == s.workers[id]
    {
    }
    forall k | k in t.cache.inflight && !Spawning(t, k)
      ensures exists id :: Busy(t, id) && t.workers[id].key == k
    {
      var id :| Busy(s, id) && s.workers[id].key == k;
      assert Busy(t, id) && t.workers[id].key == k;
    }
  }

  lemma InflightStep(s: Loop, a: Action)
    requires InflightExact(s) && GroupExact(s) && Enabled(s, a)
    ensures InflightExact(Next(s, a))
  {
    match a
    case Spawn => InflightSpawn(s);
    case FinishWork(id, success, now) => InflightFinish(s, id, success, now);
    case _ => InflightOther(s, a);
  }

  lemma GroupStep(s: Loop, a: Action)
    requires GroupExact(s) && Enabled(s, a)
    ensures GroupExact(Next(s, a))
  {
    match a
    case Done(id) =>
      assert (s.workers - {id}).Keys == s.workers.Keys - {id};
      assert |s.workers.Keys - {id}| == |s.workers.Keys| - 1;
      assert |s.workers - {id}| == |s.workers| - 1;
    case Spawn =>
      assert s.nextId !in s.workers;
    case FinishWork(id, _, _) =>
      assert Next(s, a).workers.Keys == s.workers.Keys;
      assert |Next(s, a).workers| == |s.workers|;
    case _ =>
  }

  lemma CacheStepKeeps(s: Loop, a: Action)
    requires Inv(s) && Enabled(s, a)
    ensures Disjoint(Next(s, a).cache) && SuccessesRemembered(Next(s, a))
  {
    var t := Next(s, a);
    forall i | 0 <= i < |t.log| && t.log[i].Ended? && t.log[i].success
      ensures Remembered(t, t.log[i].key, t.log[i].time)
    {
      if i < |s.log| {
        assert t.log[i] == s.log[i];
        assert Remembered(s, s.log[i].key, s.log[i].time);
      }
    }
  }

  lemma LogStep(s: Loop, a: Action)
    requires Inv(s) && Enabled(s, a)
    ensures Spaced(Next(s, a).log)
  {
    var t := Next(s, a);
    forall i, j |
      && 0 <= i < j < |t.log|
      && t.log[i].Ended? && t.log[i].success && t.log[j].Began? && t.log[i].key == t.log[j].key
      ensures t.log[j].time - t.log[i].time >= DEDUPE_TTL
    {
      assert t.log[i] == s.log[i];
      if j < |s.log| {
        assert t.log[j] == s.log[j];
      } else {
        assert Remembered(s, s.log[i].key, s.log[i].time);
      }
    }
  }

  lemma OpenSnoc(log: seq<Entry>, e: Entry, key: Key)
    ensures Open(log + [e], key) == Open(log, key) + if e.key != key then 0 else if e.Began? then 1 else -1
  {
  }

  lemma BalanceStep(s: Loop, a: Action)
    requires InflightExact(s) && Balanced(s) && Enabled(s, a)
    ensures Balanced(Next(s, a))
  {
    var t := Next(s, a);
    forall k
      ensures Open(t.log, k) == if k in t.cache.inflight then 1 else 0
    {
      match a
      case Receive(key) =>
        OpenSnoc(s.log, Began(key, s.clock), k);
      case FinishWork(id, success, _) =>
        assert Busy(s, id);
        OpenSnoc(s.log, Ended(s.workers[id].key, success, s.clock), k);
      case _ =>
    }
  }

  lemma {:induction false} RunKeepsInv(clock: Time, actions: seq<Action>)
    ensures Inv(Run(Init(clock), actions))
  {
    if |actions| == 0 {
    } else {
      var n := |actions| - 1;
      RunKeepsInv(clock, actions[..n]);
      var s := Run(Init(clock), actions[..n]);
      if Enabled(s, actions[n]) {
        InflightStep(s, actions[n]);
        GroupStep(s, actions[n]);
        CacheStepKeeps(s, actions[n]);
        LogStep(s, actions[n]);
        BalanceStep(s, actions[n]);
      }
    }
  }

  // ---------- What the relayer promises ----------

  /** In every interleaving: one live worker per key, no key both in flight and processed. */
  lemma MutualExclusion(clock: Time, actions: seq<Action>)
    ensures
      var s := Run(Init(clock), actions);
      && (forall i, j :: Busy(s, i) && Busy(s, j) && s.workers[i].key == s.workers[j].key ==> i == j)
      && s.cache.inflight !! s.cache.processed.Keys
  {
    RunKeepsInv(clock, actions);
  }

  /** In every interleaving: after a success the key rests for a whole TTL. */
  lemma SuccessesAreSpaced(clock: Time, actions: seq<Action>)
    ensures Spaced(Run(Init(clock), actions).log)
  {
    RunKeepsInv(clock, actions);
  }

  /** Any two successes of one key are a TTL apart. */
  ghost predicate SuccessesApart(log: seq<Entry>) {
    forall i, j :: 0 <= i < j < |log| && log[i].Ended? && log[i].success && IsSuccess(log[j], log[i].key) ==>
      log[j].time - log[i].time >= DEDUPE_TTL
  }

  /** While a key is in flight, its last success is a TTL back. */
  ghost predicate InflightRested(s: Loop) {
    forall i :: 0 <= i < |s.log| && s.log[i].Ended? && s.log[i].success && s.log[i].key in s.cache.inflight ==>
      s.clock - s.log[i].time >= DEDUPE_TTL
  }

  lemma RestedStep(s: Loop, a: Action)
    requires Inv(s) && Enabled(s, a) && InflightRested(s)
    ensures InflightRested(Next(s, a))
  {
    var t := Next(s, a);
    forall i | 0 <= i < |t.log| && t.log[i].Ended? && t.log[i].success && t.log[i].key in t.cache.inflight
      ensures t.clock - t.log[i].time >= DEDUPE_TTL
    {
      assert t.log[i] == s.log[i];
      assert Remembered(s, s.log[i].key, s.log[i].time);
    }
  }

  lemma ApartStep(s: Loop, a: Action)
    requires Inv(s) && Enabled(s, a) && InflightRested(s) && SuccessesApart(s.log)
    ensures SuccessesApart(Next(s, a).log)
  {
    if a.FinishWork? {
      assert Busy(s, a.id);
      assert s.workers[a.id].key in s.cache.inflight;
    }
  }

  lemma {:induction false} RunKeepsSuccessesApart(clock: Time, actions: seq<Action>)
    ensures
      var s := Run(Init(clock), actions);
      InflightRested(s) && SuccessesApart(s.log)
  {
    if |actions| > 0 {
      var n := |actions| - 1;
      var s := Run(Init(clock), actions[..n]);
      RunKeepsSuccessesApart(clock, actions[..n]);
      RunKeepsInv(clock, actions[..n]);
      if Enabled(s, actions[n]) {
        RestedStep(s, actions[n]);
        ApartStep(s, actions[n]);
      }
    }
  }

  predicate SuccessBetween(e: Entry, key: Key, from: Time, to: Time) {
    IsSuccess(e, key) && from <= e.time <= to
  }

  /** How often the key was processed with success between two times, both included. */
  function Successes(log: seq<Entry>, key: Key, from: Time, to: Time): nat {
    if |log| == 0 then 0
    else
      var e := log[|log| - 1];
      Successes(log[..|log| - 1], key, from, to) + if SuccessBetween(e, key, from, to) then 1 else 0
  }

  /** Of `n` successes from a time on, one comes no earlier than `n - 1` TTLs later. */
  lemma {:induction false} SuccessesTakeTime(log: seq<Entry>, key: Key, from: Time, to: Time)
    requires SuccessesApart(log) && Successes(log, key, from, to) > 0
    ensures exists i :: 0 <= i < |log| &&
              SuccessBetween(log[i], key, from + (Successes(log, key, from, to) - 1) * DEDUPE_TTL, to)
  {
    var n := |log| - 1;
    var front, e := log[..n], log[n];
    var c := Successes(front, key, from, to);
    if c == 0 {
      assert SuccessBetween(e, key, from, to);
    } else {
      SuccessesTakeTime(front, key, from, to);
      var i :| 0 <= i < n && SuccessBetween(front[i], key, from + (c - 1) * DEDUPE_TTL, to);
      assert log[i] == front[i];
      if SuccessBetween(e, key, from, to) {
        assert e.time - log[i].time >= DEDUPE_TTL;
        assert SuccessBetween(log[n], key, from + c * DEDUPE_TTL, to);
      } else {
        assert Successes(log, key, from, to) == c;
      }
    }
  }

  /** In every interleaving: a window of length `span` sees at most `span / TTL + 1` successes of one key. */
  lemma SuccessesAreBounded(clock: Time, actions: seq<Action>, key: Key, from: Time, span: nat)
    ensures Successes(Run(Init(clock), actions).log, key, from, from + span) <= span / DEDUPE_TTL + 1
  {
    var log := Run(Init(clock), actions).log;
    RunKeepsSuccessesApart(clock, actions);
    if Successes(log, key, from, from + span) > 0 {
      SuccessesTakeTime(log, key, from, from + span);
    }
  }

  // ---------- What a received message leads to ----------

  predicate IsSuccess(e: Entry, key: Key) {
    e.Ended? && e.success && e.key == key
  }

  /** The cache holds nothing but times of successes. */
  ghost predicate ProcessedAreSuccesses(s: Loop) {
    forall k :: k in s.cache.processed ==> SuccessAt(s.log, k, s.cache.processed[k])
  }

  ghost predicate SuccessAt(log: seq<Entry>, key: Key, time: Time) {
    exists i :: 0 <= i < |log| && IsSuccess(log[i], key) && log[i].time == time
  }

  lemma ProcessedStep(s: Loop, a: Action)
    requires ProcessedAreSuccesses(s) && Enabled(s, a)
    ensures ProcessedAreSuccesses(Next(s, a))
  {
    var t := Next(s, a);
    forall k | k in t.cache.processed
      ensures SuccessAt(t.log, k, t.cache.processed[k])
    {
      if k in s.cache.processed && t.cache.processed[k] == s.cache.processed[k] {
        var i :| 0 <= i < |s.log| && IsSuccess(s.log[i], k) && s.log[i].time == s.cache.processed[k];
        assert t.log[i] == s.log[i];
      } else {
        assert IsSuccess(t.log[|s.log|], k);
      }
    }
  }

  lemma {:induction false} RunKeepsProcessed(clock: Time, actions: seq<Action>)
    ensures ProcessedAreSuccesses(Run(Init(clock), actions))
  {
    if |actions| > 0 {
      var n := |actions| - 1;
      RunKeepsProcessed(clock, actions[..n]);
      if Enabled(Run(Init(clock), actions[..n]), actions[n]) {
        ProcessedStep(Run(Init(clock), actions[..n]), actions[n]);
      }
    }
  }

  /** No goroutine is at work on the key, and no success of it is younger than a TTL. */
  ghost predicate Due(s: Loop, key: Key) {
    && (forall id :: id in s.workers && !s.workers[id].finished ==> s.workers[id].key != key)
    && (forall i :: 0 <= i < |s.log| && IsSuccess(s.log[i], key) ==> s.clock - s.log[i].time >= DEDUPE_TTL)
  }

  lemma DueIffBegins(s: Loop, key: Key)
    requires Inv(s) && ProcessedAreSuccesses(s) && s.main.Receiving?
    ensures Begins(s.cache, key, s.clock) <==> Due(s, key)
  {
    if Begins(s.cache, key, s.clock) {
      forall id | id in s.workers && !s.workers[id].finished
        ensures s.workers[id].key != key
      {
        assert Busy(s, id);
      }
      forall i | 0 <= i < |s.log| && IsSuccess(s.log[i], key)
        ensures s.clock - s.log[i].time >= DEDUPE_TTL
      {
        assert Remembered(s, key, s.log[i].time);
      }
    }
    if Due(s, key) {
      assert key !in s.cache.inflight;
      if key in s.cache.processed {
        assert SuccessAt(s.log, key, s.cache.processed[key]);
        var i :| 0 <= i < |s.log| && IsSuccess(s.log[i], key) && s.log[i].time == s.cache.processed[key];
      }
    }
  }

  /** Between `s` and `u` one goroutine was started, for `key`, and is at work. */
  ghost predicate StartedOne(s: Loop, u: Loop, key: Key) {
    && u.main.Receiving? && u.wg == s.wg + 1 && u.log == s.log + [Began(key, s.clock)]
    && s.nextId !in s.workers && u.workers == s.workers[s.nextId := Worker(key, false)]
  }

  /** One action, if it is enabled. */
  function Try(s: Loop, a: Action): Loop {
    if Enabled(s, a) then Next(s, a) else s
  }

  lemma RunSnoc(s: Loop, actions: seq<Action>, a: Action)
    ensures Run(s, actions + [a]) == Try(Run(s, actions), a)
  {
    assert (actions + [a])[..|actions|] == actions;
  }

  /** Receiving, `wg.Add` and `go`, one after the other. */
  lemma ReceiveStarts(s: Loop, key: Key)
    requires Inv(s) && ProcessedAreSuccesses(s) && s.main.Receiving?
    ensures
      var t := Try(s, Receive(key));
      var u := Try(Try(t, AddToGroup), Spawn);
      if Due(s, key)
      then t.log == s.log + [Began(key, s.clock)] && t.main == Begun(key) && StartedOne(s, u, key)
      else t.log == s.log && t.main.Receiving? && u.workers == s.workers && u.log == s.log
  {
    DueIffBegins(s, key);
  }

  /**
   In every interleaving, whenever the main loop receives: the message is begun, and handed to a
   goroutine of its own two steps later, exactly if no goroutine is at work on its key and no success
   of it is younger than a TTL. Otherwise it is skipped, and nothing is started.
   */
  lemma ReceivedIsBegunIffDue(clock: Time, actions: seq<Action>, key: Key)
    requires Run(Init(clock), actions).main.Receiving?
    ensures
      var s := Run(Init(clock), actions);
      var t := Run(Init(clock), actions + [Receive(key)]);
      var u := Run(Init(clock), actions + [Receive(key)] + [AddToGroup] + [Spawn]);
      if Due(s, key)
      then t.log == s.log + [Began(key, s.clock)] && t.main == Begun(key) && StartedOne(s, u, key)
      else t.log == s.log && t.main.Receiving? && u.workers == s.workers && u.log == s.log
  {
    RunKeepsInv(clock, actions);
    RunKeepsProcessed(clock, actions);
    ReceiveStarts(Run(Init(clock), actions), key);
    RunSnoc(Init(clock), actions, Receive(key));
    RunSnoc(Init(clock), actions + [Receive(key)], AddToGroup);
    RunSnoc(Init(clock), actions + [Receive(key)] + [AddToGroup], Spawn);
  }

  /** A goroutine at work can finish at any time, is logged with its outcome, and is then only left to report. */
  lemma FinishedIsLogged(s: Loop, id: nat, success: bool, now: Time)
    requires id in s.workers && !s.workers[id].finished && s.clock <= now
    ensures Enabled(s, FinishWork(id, success, now))
    ensures
      var t, key := Next(s, FinishWork(id, success, now)), s.workers[id].key;
      && t.log == s.log + [Ended(key, success, s.clock)] && t.clock == now
      && t.workers == s.workers[id := Worker(key, true)] && t.main == s.main && t.wg == s.wg
      && Enabled(t, Done(id)) && Next(t, Done(id)).workers == s.workers - {id} && Next(t, Done(id)).wg == s.wg - 1
  {
  }

  /** When `wg.Wait` has returned, nothing is in flight and every begun processing has been finished. */
  lemma ShutdownIsComplete(clock: Time, actions: seq<Action>)
    ensures
      var s := Run(Init(clock), actions);
      s.main.Returned? ==> s.workers == map[] && s.cache.inflight == {} && forall k :: Open(s.log, k) == 0
  {
    RunKeepsInv(clock, actions);
    var s := Run(Init(clock), actions);
    if s.main.Returned? {
      assert |s.workers| == 0;
      assert s.workers == map[];
      assert forall id :: !Busy(s, id);
      assert s.cache.inflight == {};
    }
  }

  /** The main loop, once it waits, can return exactly when no goroutine is left. */
  lemma ReturnsIffNoGoroutineLeft(clock: Time, actions: seq<Action>)
    requires Run(Init(clock), actions).main.Waiting?
    ensures
      var s := Run(Init(clock), actions);
      if s.workers == map[] then Try(s, Return).main.Returned? else Try(s, Return) == s
  {
    RunKeepsInv(clock, actions);
    var s := Run(Init(clock), actions);
    assert s.workers == map[] <==> |s.workers| == 0;
  }

  /** The clock may advance at any time, and the main loop may stop at any receive; neither touches anything else. */
  lemma TicksAndStops(s: Loop, now: Time)
    ensures Try(s, Tick(now)) == if s.clock <= now then s.(clock := now) else s
    ensures Try(s, Shutdown) == if s.main.Receiving? then s.(main := Waiting) else s
  {
  }

  lemma NextKeepsInv(s: Loop, a: Action)
    requires Inv(s)
    ensures Inv(Try(s, a))
  {
    if Enabled(s, a) {
      InflightStep(s, a);
      GroupStep(s, a);
      CacheStepKeeps(s, a);
      LogStep(s, a);
      BalanceStep(s, a);
    }
  }

  lemma RunFront(s: Loop, a: Action, actions: seq<Action>)
    ensures Run(s, [a] + actions) == Run(Try(s, a), actions)
  {
    if |actions| == 0 {
      assert [a] + actions == [] + [a];
      RunSnoc(s, [], a);
    } else {
      var front, last := actions[..|actions| - 1], actions[|actions| - 1];
      RunFront(s, a, front);
      assert actions == front + [last] && [a] + actions == ([a] + front) + [last];
      RunSnoc(s, [a] + front, last);
    }
  }

  /** `s` can be brought to an end. */
  ghost predicate CanReturn(s: Loop) {
    exists actions :: Run(s, actions).main.Returned?
  }

  lemma CanReturnAfter(s: Loop, a: Action)
    requires CanReturn(Try(s, a))
    ensures CanReturn(s)
  {
    var actions :| Run(Try(s, a), actions).main.Returned?;
    RunFront(s, a, actions);
  }

  /** A goroutine finishes, if it is still at work, and leaves the wait group. */
  function Leaves(s: Loop, id: nat): Loop {
    Try(Try(s, FinishWork(id, false, s.clock)), Done(id))
  }

  lemma LeavesWorkers(s: Loop, id: nat)
    requires id in s.workers
    ensures Leaves(s, id).workers == s.workers - {id} && Leaves(s, id).main == s.main
    ensures |Leaves(s, id).workers| < |s.workers|
  {
    assert (s.workers - {id}).Keys == s.workers.Keys - {id};
    assert |s.workers - {id}| == |s.workers.Keys - {id}| < |s.workers.Keys|;
  }

  lemma LeavesKeepsInv(s: Loop, id: nat)
    requires Inv(s)
    ensures Inv(Leaves(s, id))
    ensures CanReturn(Leaves(s, id)) ==> CanReturn(s)
  {
    var finish := FinishWork(id, false, s.clock);
    NextKeepsInv(s, finish);
    NextKeepsInv(Try(s, finish), Done(id));
    if CanReturn(Leaves(s, id)) {
      CanReturnAfter(Try(s, finish), Done(id));
      CanReturnAfter(s, finish);
    }
  }

  /** A waiting main loop returns once every goroutine has finished its work and left the wait group. */
  lemma {:induction false} WaitingCanReturn(s: Loop)
    requires Inv(s) && s.main.Waiting?
    ensures CanReturn(s)
    decreases |s.workers|
  {
    if s.workers == map[] {
      assert Run(Try(s, Return), []).main.Returned?;
      CanReturnAfter(s, Return);
    } else {
      var id :| id in s.workers;
      LeavesWorkers(s, id);
      LeavesKeepsInv(s, id);
      WaitingCanReturn(Leaves(s, id));
    }
  }

  /** From every reachable state the relayer can be shut down: no interleaving leads into a deadlock. */
  lemma ShutdownIsAlwaysPossible(clock: Time, actions: seq<Action>)
    ensures CanReturn(Run(Init(clock), actions))
  {
    RunKeepsInv(clock, actions);
    CanStop(Run(Init(clock), actions));
  }

  lemma CanStop(s: Loop)
    requires Inv(s)
    ensures CanReturn(s)
    decreases if s.main.Begun? then 2 else if s.main.Added? then 1 else 0
  {
    match s.main
    case Returned => assert Run(s, []).main.Returned?;
    case Waiting => WaitingCanReturn(s);
    case Receiving =>
      NextKeepsInv(s, Shutdown);
      WaitingCanReturn(Try(s, Shutdown));
      CanReturnAfter(s, Shutdown);
    case Begun(_) =>
      NextKeepsInv(s, AddToGroup);
      CanStop(Try(s, AddToGroup));
      CanReturnAfter(s, AddToGroup);
    case Added(_) =>
      NextKeepsInv(s, Spawn);
      CanStop(Try(s, Spawn));
      CanReturnAfter(s, Spawn);
  }

  function BusyKeys(workers: map<nat, Worker>): set<Key> {
    set id | id in workers && !workers[id].finished :: workers[id].key
  }

  lemma {:induction false} FewBusyKeys(workers: map<nat, Worker>)
    ensures |BusyKeys(workers)| <= |workers|
    decreases |workers|
  {
    if workers == map[] {
    } else {
      var id :| id in workers;
      var rest := workers - {id};
      FewBusyKeys(rest);
      assert workers.Keys == rest.Keys + {id};
      assert |workers.Keys| == |rest.Keys| + 1;
      assert BusyKeys(workers) == BusyKeys(rest) + (if workers[id].finished then {} else {workers[id].key});
    }
  }

  /** In-flight keys never outnumber the wait group, plus one while a begun key is not yet added. */
  lemma InflightBounded(clock: Time, actions: seq<Action>)
    ensures
      var s := Run(Init(clock), actions);
      |s.cache.inflight| <= s.wg + (if s.main.Begun? then 1 else 0)
  {
    RunKeepsInv(clock, actions);
    var s := Run(Init(clock), actions);
    FewBusyKeys(s.workers);
    var spawning := if s.main.Begun? || s.main.Added? then {s.main.key} else {};
    forall k | k in s.cache.inflight
      ensures k in BusyKeys(s.workers) + spawning
    {
      if !Spawning(s, k) {
        var id :| Busy(s, id) && s.workers[id].key == k;
      }
    }
    SubsetSize(s.cache.inflight, BusyKeys(s.workers) + spawning);
    assert |BusyKeys(s.workers) + spawning| <= |BusyKeys(s.workers)| + |spawning|;
  }

  predicate Idle(c: Cache, key: Key) {
    key !in c.inflight && key !in c.processed
  }

  /** A failed run leaves its key idle; an idle key may be begun at any time. */
  lemma FailureFreesKey(s: Loop, id: nat, now: Time)
    requires Inv(s) && Enabled(s, FinishWork(id, false, now))
    ensures
      var t := Next(s, FinishWork(id, false, now));
      Idle(t.cache, s.workers[id].key) && forall later :: Begins(t.cache, s.workers[id].key, later)
  {
  }

  /** And it stays idle, whatever else happens, until it is received again. */
  lemma {:induction false} IdleUntilReceived(s: Loop, actions: seq<Action>, key: Key)
    requires InflightExact(s) && GroupExact(s) && Idle(s.cache, key)
    requires forall i :: 0 <= i < |actions| ==> actions[i] != Receive(key)
    ensures InflightExact(Run(s, actions)) && GroupExact(Run(s, actions)) && Idle(Run(s, actions).cache, key)
    ensures forall later :: Begins(Run(s, actions).cache, key, later)
  {
    if |actions| == 0 {
    } else {
      var n := |actions| - 1;
      IdleUntilReceived(s, actions[..n], key);
      var t := Run(s, actions[..n]);
      if Enabled(t, actions[n]) {
        InflightStep(t, actions[n]);
        GroupStep(t, actions[n]);
        if actions[n].FinishWork? {
          assert Busy(t, actions[n].id);
        }
      }
    }
  }
}
