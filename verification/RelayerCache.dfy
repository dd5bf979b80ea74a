/** The relayer's deduplication cache: an in-flight set and a map of recent successes, pruned by age. */
module RelayerCache {

  /** Fifteen minutes, in nanoseconds. */
  const DEDUPE_TTL: int := 15 * 60 * 1000000000

  type Key = string
  type Time = int

  datatype Cache = Cache(inflight: set<Key>, processed: map<Key, Time>)

  /** Whether `beginProcessingVAA` lets the caller process `key` at time `now`. */
  predicate Begins(c: Cache, key: Key, now: Time) {
    key !in c.inflight && !(key in c.processed && now - c.processed[key] < DEDUPE_TTL)
  }

  function BeginEffect(c: Cache, key: Key, now: Time): Cache {
    if key in c.processed && now - c.processed[key] < DEDUPE_TTL then c
    else Cache(c.inflight + {key}, c.processed - {key})
  }

  /** Successes that are not older than the cutoff. */
  function Prune(processed: map<Key, Time>, cutoff: Time): map<Key, Time> {
    map k | k in processed && processed[k] >= cutoff :: processed[k]
  }

  function FinishEffect(c: Cache, key: Key, success: bool, stamp: Time, now: Time): Cache {
    var processed := if success then c.processed[key := stamp] else c.processed;
    Cache(c.inflight - {key}, Prune(processed, now - DEDUPE_TTL))
  }

  /** What one call of each kind leaves in the cache, key by key. */
  lemma CallsLeave(c: Cache, key: Key, success: bool, stamp: Time, now: Time)
    ensures
      var b := BeginEffect(c, key, now);
      if key in c.processed && now - c.processed[key] < DEDUPE_TTL then b == c
      else b.inflight == c.inflight + {key} && b.processed == c.processed - {key}
    ensures
      var f, cutoff := FinishEffect(c, key, success, stamp, now), now - DEDUPE_TTL;
      && f.inflight == c.inflight - {key}
      && (forall k :: k != key || !success ==>
            && (k in f.processed <==> k in c.processed && c.processed[k] >= cutoff)
            && (k in f.processed ==> f.processed[k] == c.processed[k]))
      && (success ==> (key in f.processed <==> stamp >= cutoff) && (key in f.processed ==> f.processed[key] == stamp))
  {
  }

  class Dedupe {
    var inflight: set<Key>
    var processed: map<Key, Time>

    ghost function Abs(): Cache
      reads this
    {
      Cache(inflight, processed)
    }

    constructor ()
      ensures Abs() == Cache({}, map[])
    {
      inflight, processed := {}, map[];
    }

    method BeginProcessing(key: Key, now: Time) returns (begun: bool)
      modifies this
      ensures begun == Begins(old(Abs()), key, now)
      ensures Abs() == BeginEffect(old(Abs()), key, now)
    {
      if key in processed {
        if now - processed[key] < DEDUPE_TTL {
          return false;
        }
        processed := processed - {key};
      }
      if key in inflight {
        assert inflight == inflight + {key};
        return false;
      }
      inflight := inflight + {key};
      return true;
    }

    /** `stamp` and `now` are the two clock readings of one call. */
    method FinishProcessing(key: Key, success: bool, stamp: Time, now: Time)
      modifies this
      ensures Abs() == FinishEffect(old(Abs()), key, success, stamp, now)
    {
      inflight := inflight - {key};
      if success {
        processed := processed[key := stamp];
      }
      var cutoff := now - DEDUPE_TTL;
      ghost var all := processed;
      ghost var done := inflight;
      var left := processed.Keys;
      while left != {}
        invariant inflight == done
        invariant left <= processed.Keys <= all.Keys
        invariant forall k :: k in processed ==> processed[k] == all[k]
        invariant forall k :: k in processed && k !in left ==> all[k] >= cutoff
        invariant forall k :: k in all && k !in processed ==> all[k] < cutoff
        decreases left
      {
        var k :| k in left;
        left := left - {k};
        if processed[k] < cutoff {
          processed := processed - {k};
        }
      }
      assert processed == Prune(all, cutoff);
    }
  }

  // ---------- Refinement of the cache that never forgets ----------

  /** The last success of every key, kept forever. */
  datatype Reference = Reference(inflight: set<Key>, lastSuccess: map<Key, Time>)

  predicate ReferenceBegins(r: Reference, key: Key, now: Time) {
    key !in r.inflight && (key in r.lastSuccess ==> now - r.lastSuccess[key] >= DEDUPE_TTL)
  }

  datatype Event =
    | Begin(key: Key, now: Time)
    | Finish(key: Key, success: bool, stamp: Time, now: Time)
  {
    function Start(): Time {
      match this
      case Begin(_, now) => now
      case Finish(_, _, stamp, _) => stamp
    }
  }

  function CacheStep(c: Cache, e: Event): Cache {
    match e
    case Begin(key, now) => BeginEffect(c, key, now)
    case Finish(key, success, stamp, now) => FinishEffect(c, key, success, stamp, now)
  }

  function ReferenceStep(r: Reference, e: Event): Reference {
    match e
    case Begin(key, now) => if ReferenceBegins(r, key, now) then r.(inflight := r.inflight + {key}) else r
    case Finish(key, success, stamp, _) =>
      Reference(r.inflight - {key}, if success then r.lastSuccess[key := stamp] else r.lastSuccess)
  }

  function CacheRun(c: Cache, events: seq<Event>): Cache {
    if |events| == 0 then c else CacheStep(CacheRun(c, events[..|events| - 1]), events[|events| - 1])
  }

  function ReferenceRun(r: Reference, events: seq<Event>): Reference {
    if |events| == 0 then r else ReferenceStep(ReferenceRun(r, events[..|events| - 1]), events[|events| - 1])
  }

  /** The clock never runs backwards, neither inside an event nor between events. */
  ghost predicate Monotone(events: seq<Event>) {
    && (forall i :: 0 <= i < |events| ==> events[i].Start() <= events[i].now)
    && (forall i, j :: 0 <= i < j < |events| ==> events[i].now <= events[j].Start())
  }

  /** Same in-flight keys; what the cache has dropped is too old to block anything from `clock` on. */
  ghost predicate Agrees(c: Cache, r: Reference, clock: Time) {
    && c.inflight == r.inflight
    && (forall k :: k in c.processed ==> k in r.lastSuccess && r.lastSuccess[k] == c.processed[k])
    && (forall k :: k in r.lastSuccess && k !in c.processed ==> clock - r.lastSuccess[k] >= DEDUPE_TTL)
  }

  lemma StepAgrees(c: Cache, r: Reference, clock: Time, e: Event)
    requires Agrees(c, r, clock) && clock <= e.Start() <= e.now
    ensures e.Begin? ==> Begins(c, e.key, e.now) == ReferenceBegins(r, e.key, e.now)
    ensures Agrees(CacheStep(c, e), ReferenceStep(r, e), e.now)
  {
  }

  lemma {:induction false} RunAgrees(events: seq<Event>)
    requires Monotone(events) && |events| > 0
    ensures Agrees(CacheRun(Cache({}, map[]), events), ReferenceRun(Reference({}, map[]), events),
                   events[|events| - 1].now)
  {
    var n := |events| - 1;
    var front, last := events[..n], events[n];
    if n == 0 {
      StepAgrees(Cache({}, map[]), Reference({}, map[]), last.Start(), last);
    } else {
      RunAgrees(front);
      StepAgrees(CacheRun(Cache({}, map[]), front), ReferenceRun(Reference({}, map[]), front), front[n - 1].now, last);
    }
  }

  /** Pruning is invisible: at every moment the cache answers as if it remembered every success forever. */
  lemma PrunedAnswersLikeUnpruned(events: seq<Event>, key: Key, now: Time)
    requires Monotone(events) && (|events| > 0 ==> events[|events| - 1].now <= now)
    ensures Begins(CacheRun(Cache({}, map[]), events), key, now)
       <==> ReferenceBegins(ReferenceRun(Reference({}, map[]), events), key, now)
  {
    if |events| > 0 {
      RunAgrees(events);
    }
  }
}
