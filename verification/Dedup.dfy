/**
 The timed deduplication cache (`sllurp/dedup.py`): a dictionary of expiry
 times and a queue of expiries, against "remember the last emission of each
 key". Times are integer ticks; keys are any values with equality.
 */
module Dedup {
  import opened Prelude

  datatype Entry<K> = Entry(expiry: int, key: K)

  /** `_seen`, `_expiry_queue` and `_evictions`, with two counters kept for
      the conservation law: reports emitted and live entries that expired. */
  datatype Cache<K> = Cache(
    seen: map<K, int>,
    queue: seq<Entry<K>>,
    evictions: nat,
    emitted: nat,
    expired: nat)

  function Empty<K>(): Cache<K> { Cache(map[], [], 0, 0, 0) }

  /** Whether the entry at the front of the queue is the live one of its key. */
  predicate FrontIsLive<K(==)>(c: Cache<K>)
    requires c.queue != []
  {
    c.queue[0].key in c.seen && c.seen[c.queue[0].key] == c.queue[0].expiry
  }

  function PopFront<K(==)>(c: Cache<K>): Cache<K>
    requires c.queue != []
  {
    c.(queue := c.queue[1..], seen := if FrontIsLive(c) then c.seen - {c.queue[0].key} else c.seen)
  }

  function Purge<K(==)>(c: Cache<K>, now: int): Cache<K>
    decreases |c.queue|
  {
    if c.queue == [] || c.queue[0].expiry > now then c
    else Purge(ExpireFront(c), now)
  }

  function ExpireFront<K(==)>(c: Cache<K>): Cache<K>
    requires c.queue != []
  {
    PopFront(c).(expired := c.expired + if FrontIsLive(c) then 1 else 0)
  }

  function Trim<K(==)>(c: Cache<K>, max: nat): Cache<K>
    decreases |c.queue|
  {
    if |c.seen| <= max || c.queue == [] then c
    else Trim(EvictFront(c), max)
  }

  function EvictFront<K(==)>(c: Cache<K>): Cache<K>
    requires c.queue != []
  {
    PopFront(c).(evictions := c.evictions + if FrontIsLive(c) then 1 else 0)
  }

  lemma TrimUnfolds<K>(c: Cache<K>, max: nat)
    requires |c.seen| > max && c.queue != []
    ensures Trim(c, max) == Trim(EvictFront(c), max)
  {
  }

  predicate Suppressed<K(==)>(c: Cache<K>, key: K, now: int) {
    key in c.seen && now < c.seen[key]
  }

  function Emit<K(==)>(c: Cache<K>, key: K, now: int, window: int): Cache<K> {
    c.(seen := c.seen[key := now + window], queue := c.queue + [Entry(now + window, key)], emitted := c.emitted + 1)
  }

  function ScanOne<K(==)>(c: Cache<K>, key: K, now: int, window: int): Cache<K> {
    if Suppressed(c, key, now) then c else Emit(c, key, now, window)
  }

  /** The cache after looking at every report of a batch, and for each report
      whether it is passed on. */
  function Scan<K(==)>(c: Cache<K>, keys: seq<K>, now: int, window: int): (r: (Cache<K>, seq<bool>))
    ensures |r.1| == |keys|
    decreases |keys|
  {
    if keys == [] then (c, [])
    else
      var n := |keys| - 1;
      var (c', kept) := Scan(c, keys[..n], now, window);
      (ScanOne(c', keys[n], now, window), kept + [!Suppressed(c', keys[n], now)])
  }

  /** One call of `filter` with a positive window. */
  function Filter<K(==)>(c: Cache<K>, keys: seq<K>, now: int, window: int, max: nat): (Cache<K>, seq<bool>) {
    var (c', kept) := Scan(Purge(c, now), keys, now, window);
    (Trim(c', max), kept)
  }

  // ------------------------------------------------ what holds for any clock

  /** Every live key has its expiry in the queue. */
  ghost predicate Linked<K>(c: Cache<K>) {
    forall k | k in c.seen :: Entry(c.seen[k], k) in c.queue
  }

  lemma PopLinked<K>(c: Cache<K>)
    requires Linked(c) && c.queue != []
    ensures Linked(PopFront(c)) && Linked(ExpireFront(c)) && Linked(EvictFront(c))
  {
    var d := PopFront(c);
    forall k | k in d.seen
      ensures Entry(d.seen[k], k) in d.queue
    {
      assert Entry(c.seen[k], k) in c.queue;
      assert c.queue == [c.queue[0]] + c.queue[1..];
    }
  }

  lemma {:induction false} PurgeLinked<K>(c: Cache<K>, now: int)
    requires Linked(c)
    ensures Linked(Purge(c, now))
    decreases |c.queue|
  {
    if c.queue != [] && c.queue[0].expiry <= now {
      PopLinked(c);
      PurgeLinked(ExpireFront(c), now);
    }
  }

  lemma ScanOneLinked<K>(c: Cache<K>, key: K, now: int, window: int)
    requires Linked(c)
    ensures Linked(ScanOne(c, key, now, window))
  {
    var d := ScanOne(c, key, now, window);
    forall k | k in d.seen
      ensures Entry(d.seen[k], k) in d.queue
    {
      if k == key && !Suppressed(c, key, now) {
        assert d.queue[|c.queue|] == Entry(now + window, key);
      } else {
        assert Entry(c.seen[k], k) in c.queue;
      }
    }
  }

  lemma {:induction false} ScanLinked<K>(c: Cache<K>, keys: seq<K>, now: int, window: int)
    requires Linked(c)
    ensures Linked(Scan(c, keys, now, window).0)
    decreases |keys|
  {
    if keys == [] {
    } else {
      var n := |keys| - 1;
      ScanLinked(c, keys[..n], now, window);
      ScanOneLinked(Scan(c, keys[..n], now, window).0, keys[n], now, window);
    }
  }

  /** Trimming reaches its goal: the queue cannot run out while live keys remain. */
  lemma {:induction false} TrimReachesGoal<K>(c: Cache<K>, max: nat)
    requires Linked(c)
    ensures Linked(Trim(c, max)) && |Trim(c, max).seen| <= max
    decreases |c.queue|
  {
    if c.queue == [] {
      assert forall k :: k !in c.seen;
      assert c.seen.Keys == {};
    } else if |c.seen| > max {
      PopLinked(c);
      TrimReachesGoal(EvictFront(c), max);
    }
  }

  /** The bound: whatever the clock does, at most `max` entries are live
      after each call. */
  lemma FilterBound<K>(c: Cache<K>, keys: seq<K>, now: int, window: int, max: nat)
    requires Linked(c)
    ensures var c' := Filter(c, keys, now, window, max).0; Linked(c') && |c'.seen| <= max
  {
    PurgeLinked(c, now);
    ScanLinked(Purge(c, now), keys, now, window);
    TrimReachesGoal(Scan(Purge(c, now), keys, now, window).0, max);
  }

  // --------------------------------------- what holds for a monotonic clock

  /** The queue holds the live entries and no others, one for each key. */
  ghost predicate Exact<K>(seen: map<K, int>, queue: seq<Entry<K>>) {
    AllQueued(seen, queue) && AllLive(seen, queue) && OneEach(queue)
  }

  ghost predicate AllQueued<K>(seen: map<K, int>, queue: seq<Entry<K>>) {
    forall k | k in seen :: Entry(seen[k], k) in queue
  }

  ghost predicate AllLive<K>(seen: map<K, int>, queue: seq<Entry<K>>) {
    forall e | e in queue :: e.key in seen && seen[e.key] == e.expiry
  }

  ghost predicate OneEach<K>(queue: seq<Entry<K>>) {
    forall i, j | 0 <= i < j < |queue| :: queue[i].key != queue[j].key
  }

  ghost predicate Sorted<K>(queue: seq<Entry<K>>, bound: int) {
    Ascending(queue) && forall i | 0 <= i < |queue| :: queue[i].expiry <= bound
  }

  ghost predicate Ascending<K>(queue: seq<Entry<K>>) {
    forall i, j | 0 <= i < j < |queue| :: queue[i].expiry <= queue[j].expiry
  }

  predicate Balanced<K>(c: Cache<K>) {
    c.emitted == |c.seen| + c.expired + c.evictions
  }

  /** The queue is the live entries, each once, by expiry; and the books
      balance. `latest` is the time of the last call. */
  ghost predicate Tidy<K>(c: Cache<K>, latest: int, window: int) {
    Exact(c.seen, c.queue) && Sorted(c.queue, latest + window) && Balanced(c)
  }

  lemma TidyIsLinked<K>(c: Cache<K>, latest: int, window: int)
    requires Tidy(c, latest, window)
    ensures Linked(c)
  {
  }

  lemma ExactPops<K>(seen: map<K, int>, queue: seq<Entry<K>>)
    requires Exact(seen, queue) && queue != []
    ensures queue[0].key in seen && seen[queue[0].key] == queue[0].expiry
    ensures Exact(seen - {queue[0].key}, queue[1..])
    ensures |seen - {queue[0].key}| == |seen| - 1
  {
    var front, rest := queue[0], queue[1..];
    assert front in queue;
    RestIsLive(seen, queue);
    RestIsLinked(seen, queue);
    assert forall i | 0 <= i < |rest| :: rest[i] == queue[i + 1];
    MapMinus(seen, front.key);
  }

  lemma RestIsLive<K>(seen: map<K, int>, queue: seq<Entry<K>>)
    requires Exact(seen, queue) && queue != []
    ensures forall e | e in queue[1..] ::
              e in queue && e.key != queue[0].key && e.key in seen && seen[e.key] == e.expiry
  {
    forall e | e in queue[1..]
      ensures e in queue && e.key != queue[0].key
    {
      var i :| 1 <= i < |queue| && queue[i] == e;
    }
  }

  lemma RestIsLinked<K>(seen: map<K, int>, queue: seq<Entry<K>>)
    requires Exact(seen, queue) && queue != []
    ensures forall k | k in seen && k != queue[0].key :: Entry(seen[k], k) in queue[1..]
  {
    forall k | k in seen && k != queue[0].key
      ensures Entry(seen[k], k) in queue[1..]
    {
      assert queue == [queue[0]] + queue[1..];
    }
  }

  lemma SortedPops<K>(queue: seq<Entry<K>>, bound: int)
    requires Sorted(queue, bound) && queue != []
    ensures Sorted(queue[1..], bound)
  {
    var rest := queue[1..];
    assert forall i | 0 <= i < |rest| :: rest[i] == queue[i + 1];
  }

  lemma PopParts<K>(c: Cache<K>, bound: int)
    requires Exact(c.seen, c.queue) && Sorted(c.queue, bound) && c.queue != []
    ensures FrontIsLive(c) && |PopFront(c).seen| == |c.seen| - 1
    ensures Exact(PopFront(c).seen, PopFront(c).queue) && Sorted(PopFront(c).queue, bound)
  {
    ExactPops(c.seen, c.queue);
    SortedPops(c.queue, bound);
  }

  lemma PopTidy<K>(c: Cache<K>, latest: int, window: int)
    requires Tidy(c, latest, window) && c.queue != []
    ensures FrontIsLive(c) && |PopFront(c).seen| == |c.seen| - 1
    ensures Tidy(ExpireFront(c), latest, window)
    ensures Tidy(EvictFront(c), latest, window)
  {
    PopParts(c, latest + window);
  }

  lemma AllLaterThanFront<K>(c: Cache<K>, latest: int, window: int)
    requires Tidy(c, latest, window) && c.queue != []
    ensures forall k | k in c.seen :: c.queue[0].expiry <= c.seen[k]
  {
    forall k | k in c.seen
      ensures c.queue[0].expiry <= c.seen[k]
    {
      var i :| 0 <= i < |c.queue| && c.queue[i] == Entry(c.seen[k], k);
    }
  }

  /** `d` is `c` without the entries that fail `expiry > now`. */
  ghost predicate KeepsLater<K>(c: Cache<K>, d: Cache<K>, now: int) {
    && (forall k | k in d.seen :: k in c.seen && d.seen[k] == c.seen[k])
    && (forall k | k in c.seen && c.seen[k] > now :: k in d.seen)
  }

  lemma {:induction false} PurgeTidy<K>(c: Cache<K>, latest: int, now: int, window: int)
    requires Tidy(c, latest, window)
    ensures Tidy(Purge(c, now), latest, window) && Purge(c, now).evictions == c.evictions
    decreases |c.queue|
  {
    if c.queue != [] && c.queue[0].expiry <= now {
      PopTidy(c, latest, window);
      PurgeTidy(ExpireFront(c), latest, now, window);
    }
  }

  lemma KeepsLaterPops<K>(c: Cache<K>, mid: Cache<K>, d: Cache<K>, now: int)
    requires c.queue != [] && FrontIsLive(c) && c.queue[0].expiry <= now
    requires mid.seen == PopFront(c).seen && KeepsLater(mid, d, now)
    ensures KeepsLater(c, d, now)
  {
  }

  /** Purging removes exactly the keys that have expired. */
  lemma {:induction false} PurgeExact<K>(c: Cache<K>, latest: int, now: int, window: int)
    requires Tidy(c, latest, window)
    ensures Fresh(Purge(c, now), now) && KeepsLater(c, Purge(c, now), now)
    decreases |c.queue|
  {
    if c.queue == [] || c.queue[0].expiry > now {
      NothingExpired(c, latest, now, window);
    } else {
      var mid := ExpireFront(c);
      assert FrontIsLive(c) && Tidy(mid, latest, window) by {
        PopTidy(c, latest, window);
      }
      PurgeExact(mid, latest, now, window);
      KeepsLaterPops(c, mid, Purge(mid, now), now);
    }
  }

  lemma NothingExpired<K>(c: Cache<K>, latest: int, now: int, window: int)
    requires Tidy(c, latest, window) && (c.queue == [] || c.queue[0].expiry > now)
    ensures Fresh(c, now) && KeepsLater(c, c, now)
  {
    if c.queue != [] {
      AllLaterThanFront(c, latest, window);
    }
  }

  /** No live entry has expired at `now`. */
  ghost predicate Fresh<K>(c: Cache<K>, now: int) {
    forall k | k in c.seen :: c.seen[k] > now
  }

  lemma ExactGrows<K>(seen: map<K, int>, queue: seq<Entry<K>>, key: K, expiry: int)
    requires Exact(seen, queue) && key !in seen
    ensures Exact(seen[key := expiry], queue + [Entry(expiry, key)])
    ensures |seen[key := expiry]| == |seen| + 1
  {
    var queue' := queue + [Entry(expiry, key)];
    assert queue'[|queue|] == Entry(expiry, key);
    forall i | 0 <= i < |queue|
      ensures queue[i].key != key
    {
      assert queue[i] in queue;
    }
    forall k | k in seen
      ensures Entry(seen[k], k) in queue'
    {
      assert Entry(seen[k], k) in queue;
    }
    assert seen[key := expiry].Keys == seen.Keys + {key};
  }

  lemma SortedGrows<K>(queue: seq<Entry<K>>, bound: int, key: K)
    requires Sorted(queue, bound)
    ensures Sorted(queue + [Entry(bound, key)], bound)
  {
  }

  lemma EmitTidy<K>(c: Cache<K>, key: K, now: int, window: int)
    requires Tidy(c, now, window) && Fresh(c, now) && window > 0
    ensures Tidy(ScanOne(c, key, now, window), now, window) && Fresh(ScanOne(c, key, now, window), now)
    ensures Suppressed(c, key, now) <==> key in c.seen
  {
    if key !in c.seen {
      EmitNewTidy(c.seen, c.queue, c.emitted, c.expired, c.evictions, key, now, window);
    }
  }

  lemma EmitNewTidy<K>(seen: map<K, int>, queue: seq<Entry<K>>, emitted: nat, expired: nat, evictions: nat,
                       key: K, now: int, window: int)
    requires Exact(seen, queue) && Sorted(queue, now + window) && key !in seen
    requires emitted == |seen| + expired + evictions
    ensures var seen', queue' := seen[key := now + window], queue + [Entry(now + window, key)];
            Exact(seen', queue') && Sorted(queue', now + window) && emitted + 1 == |seen'| + expired + evictions
  {
    ExactGrows(seen, queue, key, now + window);
    SortedGrows(queue, now + window, key);
  }

  lemma {:induction false} ScanTidy<K>(c: Cache<K>, keys: seq<K>, now: int, window: int)
    requires Tidy(c, now, window) && Fresh(c, now) && window > 0
    ensures var d := Scan(c, keys, now, window).0; Tidy(d, now, window) && Fresh(d, now) && d.evictions == c.evictions
    decreases |keys|
  {
    if keys == [] {
    } else {
      var n := |keys| - 1;
      ScanTidy(c, keys[..n], now, window);
      EmitTidy(Scan(c, keys[..n], now, window).0, keys[n], now, window);
    }
  }

  /** `d` is `c` without some of its earliest entries. */
  ghost predicate KeepsLatest<K>(c: Cache<K>, d: Cache<K>) {
    && (forall k | k in d.seen :: k in c.seen && d.seen[k] == c.seen[k])
    && (forall k, k' | k in c.seen && k !in d.seen && k' in d.seen :: c.seen[k] <= c.seen[k'])
  }

  lemma KeepsLatestPops<K>(c: Cache<K>, mid: Cache<K>, d: Cache<K>)
    requires c.queue != [] && FrontIsLive(c) && mid.seen == PopFront(c).seen && KeepsLatest(mid, d)
    requires forall k | k in mid.seen :: c.queue[0].expiry <= c.seen[k]
    ensures KeepsLatest(c, d)
  {
  }

  lemma {:induction false} TrimTidy<K>(c: Cache<K>, latest: int, window: int, max: nat)
    requires Tidy(c, latest, window)
    ensures Tidy(Trim(c, max), latest, window) && (|c.seen| <= max ==> Trim(c, max) == c)
    ensures Trim(c, max).evictions == c.evictions + (if |c.seen| > max then |c.seen| - max else 0)
    decreases |c.queue|
  {
    if c.queue == [] {
      assert c.seen.Keys == {};
      assert |c.seen| == |c.seen.Keys|;
    } else if |c.seen| > max {
      PopTidy(c, latest, window);
      TrimTidy(EvictFront(c), latest, window, max);
    }
  }

  /** Eviction takes the earliest expiries. */
  lemma {:induction false} TrimEvictsEarliest<K>(c: Cache<K>, latest: int, window: int, max: nat)
    requires Tidy(c, latest, window)
    ensures KeepsLatest(c, Trim(c, max))
    decreases |c.queue|
  {
    if c.queue != [] && |c.seen| > max {
      var mid := EvictFront(c);
      assert FrontIsLive(c) && Tidy(mid, latest, window) by {
        PopTidy(c, latest, window);
      }
      TrimEvictsEarliest(mid, latest, window, max);
      assert KeepsLatest(c, Trim(mid, max)) by {
        AllLaterThanFront(c, latest, window);
        KeepsLatestPops(c, mid, Trim(mid, max));
      }
    }
  }

  // ------------------------------------------------------------- refinement

  /** The simple filter: when each key was last emitted, and nothing else. */
  function RefFilter<K(==)>(last: map<K, int>, keys: seq<K>, now: int, window: int): (r: (map<K, int>, seq<bool>))
    ensures |r.1| == |keys|
    decreases |keys|
  {
    if keys == [] then (last, [])
    else
      var n := |keys| - 1;
      var (last', kept) := RefFilter(last, keys[..n], now, window);
      var quiet := keys[n] in last' && now < last'[keys[n]] + window;
      (if quiet then last' else last'[keys[n] := now], kept + [!quiet])
  }

  /** The last emission of each key, from what a call passed on. */
  function Recorded<K(==)>(last: map<K, int>, keys: seq<K>, kept: seq<bool>, now: int): map<K, int>
    requires |keys| == |kept|
    decreases |keys|
  {
    if keys == [] then last
    else
      var n := |keys| - 1;
      var last' := Recorded(last, keys[..n], kept[..n], now);
      if kept[n] then last'[keys[n] := now] else last'
  }

  /** Live entries expire one window after the last emission of their key. */
  ghost predicate Follows<K>(c: Cache<K>, last: map<K, int>, window: int) {
    forall k | k in c.seen :: k in last && c.seen[k] == last[k] + window
  }

  /** A key that is not live was last emitted at least a window ago. */
  ghost predicate Complete<K>(c: Cache<K>, last: map<K, int>, now: int, window: int) {
    forall k | k in last && k !in c.seen :: last[k] + window <= now
  }

  /** Recording one decision keeps the cache in step with the record. */
  lemma ScanOneFollows<K>(c: Cache<K>, last: map<K, int>, key: K, now: int, window: int)
    requires Tidy(c, now, window) && Fresh(c, now) && window > 0 && Follows(c, last, window)
    ensures var d := ScanOne(c, key, now, window);
            var last' := if Suppressed(c, key, now) then last else last[key := now];
            && Follows(d, last', window) && key in d.seen && (forall k | k in c.seen :: k in d.seen)
            && (Complete(c, last, now, window) ==>
                  && Complete(d, last', now, window)
                  && (Suppressed(c, key, now) <==> key in last && now < last[key] + window))
  {
  }

  /** Every report that is not passed on has a live entry. */
  ghost predicate DroppedAreLive<K>(c: Cache<K>, keys: seq<K>, kept: seq<bool>)
    requires |keys| == |kept|
  {
    forall i | 0 <= i < |keys| && !kept[i] :: keys[i] in c.seen
  }

  lemma {:induction false} ScanFollows<K>(c: Cache<K>, last: map<K, int>, keys: seq<K>, now: int, window: int)
    requires Tidy(c, now, window) && Fresh(c, now) && window > 0 && Follows(c, last, window)
    ensures var (d, kept) := Scan(c, keys, now, window);
            Follows(d, Recorded(last, keys, kept, now), window) && DroppedAreLive(d, keys, kept)
    decreases |keys|
  {
    if keys == [] {
    } else {
      var n := |keys| - 1;
      ScanFollows(c, last, keys[..n], now, window);
      ScanTidy(c, keys[..n], now, window);
      var (mid, kept) := Scan(c, keys[..n], now, window);
      ScanOneFollows(mid, Recorded(last, keys[..n], kept, now), keys[n], now, window);
      DroppedGrows(mid, ScanOne(mid, keys[n], now, window), keys[..n], kept, keys[n], !Suppressed(mid, keys[n], now));
      assert keys[..n] + [keys[n]] == keys;
      assert Scan(c, keys, now, window).1[..n] == kept;
    }
  }

  lemma DroppedGrows<K>(c: Cache<K>, d: Cache<K>, keys: seq<K>, kept: seq<bool>, key: K, keep: bool)
    requires |keys| == |kept| && DroppedAreLive(c, keys, kept)
    requires key in d.seen && forall k | k in c.seen :: k in d.seen
    ensures DroppedAreLive(d, keys + [key], kept + [keep])
  {
  }

  lemma {:induction false} ScanRefines<K>(c: Cache<K>, last: map<K, int>, keys: seq<K>, now: int, window: int)
    requires Tidy(c, now, window) && Fresh(c, now) && window > 0 && Follows(c, last, window)
    requires Complete(c, last, now, window)
    ensures var (d, kept) := Scan(c, keys, now, window);
            var last' := Recorded(last, keys, kept, now);
            Complete(d, last', now, window) && RefFilter(last, keys, now, window) == (last', kept)
    decreases |keys|
  {
    if keys == [] {
    } else {
      var n := |keys| - 1;
      ScanRefines(c, last, keys[..n], now, window);
      ScanFollows(c, last, keys[..n], now, window);
      ScanTidy(c, keys[..n], now, window);
      var (mid, kept) := Scan(c, keys[..n], now, window);
      ScanOneFollows(mid, Recorded(last, keys[..n], kept, now), keys[n], now, window);
      assert Scan(c, keys, now, window).1[..n] == kept;
    }
  }

  /** Every report that is not passed on has an emission of its key less
      than a window old. */
  ghost predicate DroppedAreRecent<K>(last: map<K, int>, keys: seq<K>, kept: seq<bool>, now: int, window: int)
    requires |keys| == |kept|
  {
    forall i | 0 <= i < |keys| && !kept[i] :: keys[i] in last && now < last[keys[i]] + window
  }

  /** What holds between two calls. */
  ghost predicate Inv<K>(c: Cache<K>, last: map<K, int>, latest: int, window: int) {
    && Tidy(c, latest, window)
    && Follows(c, last, window)
    && (c.evictions == 0 ==> Complete(c, last, latest, window))
  }

  /** One call: a suppressed report always has an emission of its key less
      than a window old, the live entries stay bounded, and without evictions
      before it the call decides exactly as the simple filter. */
  lemma FilterRefines<K>(c: Cache<K>, last: map<K, int>, latest: int, keys: seq<K>, now: int, window: int, max: nat)
    requires Inv(c, last, latest, window) && latest <= now && window > 0
    ensures var (d, kept) := Filter(c, keys, now, window, max);
            && |kept| == |keys|
            && var last' := Recorded(last, keys, kept, now);
            && Inv(d, last', now, window)
            && |d.seen| <= max && d.evictions >= c.evictions
            && DroppedAreRecent(last', keys, kept, now, window)
            && (c.evictions == 0 ==> RefFilter(last, keys, now, window) == (last', kept))
  {
    var p := Purge(c, now);
    PurgeTidy(c, latest, now, window);
    PurgeExact(c, latest, now, window);
    ScanTidy(p, keys, now, window);
    ScanFollows(p, last, keys, now, window);
    if c.evictions == 0 {
      ScanRefines(p, last, keys, now, window);
    }
    var (m, kept) := Scan(p, keys, now, window);
    TrimTidy(m, now, window, max);
    TrimEvictsEarliest(m, now, window, max);
    TidyIsLinked(m, now, window);
    TrimReachesGoal(m, max);
  }

  // --------------------------------------------------------------- the runs

  datatype Call<K> = Call(now: int, keys: seq<K>)

  predicate Monotonic<K>(latest: int, calls: seq<Call<K>>)
    decreases |calls|
  {
    calls == [] || (latest <= calls[0].now && Monotonic(calls[0].now, calls[1..]))
  }

  function Run<K(==)>(c: Cache<K>, calls: seq<Call<K>>, window: int, max: nat): (Cache<K>, seq<seq<bool>>)
    decreases |calls|
  {
    if calls == [] then (c, [])
    else
      var (d, kept) := Filter(c, calls[0].keys, calls[0].now, window, max);
      var (e, rest) := Run(d, calls[1..], window, max);
      (e, [kept] + rest)
  }

  function RefRun<K(==)>(last: map<K, int>, calls: seq<Call<K>>, window: int): seq<seq<bool>>
    decreases |calls|
  {
    if calls == [] then []
    else
      var (last', kept) := RefFilter(last, calls[0].keys, calls[0].now, window);
      [kept] + RefRun(last', calls[1..], window)
  }

  /** In every call of a run, whatever is dropped was emitted recently. */
  ghost predicate SoundRun<K>(last: map<K, int>, calls: seq<Call<K>>, kept: seq<seq<bool>>, window: int)
    decreases |calls|
  {
    && |kept| == |calls|
    && (calls == [] ||
        (&& |kept[0]| == |calls[0].keys|
         && var last' := Recorded(last, calls[0].keys, kept[0], calls[0].now);
         && DroppedAreRecent(last', calls[0].keys, kept[0], calls[0].now, window)
         && SoundRun(last', calls[1..], kept[1..], window)))
  }

  lemma {:induction false} RunRefines<K>(c: Cache<K>, last: map<K, int>, latest: int, calls: seq<Call<K>>,
                                          window: int, max: nat)
    requires Inv(c, last, latest, window) && Monotonic(latest, calls) && window > 0
    ensures var (d, kept) := Run(c, calls, window, max);
            && d.emitted == |d.seen| + d.expired + d.evictions
            && d.evictions >= c.evictions
            && (calls != [] ==> |d.seen| <= max)
            && SoundRun(last, calls, kept, window)
            && (d.evictions == 0 ==> kept == RefRun(last, calls, window))
    decreases |calls|
  {
    if calls == [] {
    } else {
      var call := calls[0];
      FilterRefines(c, last, latest, call.keys, call.now, window, max);
      var (d, kept) := Filter(c, call.keys, call.now, window, max);
      var last' := Recorded(last, call.keys, kept, call.now);
      RunRefines(d, last', call.now, calls[1..], window, max);
      var rest := Run(d, calls[1..], window, max).1;
      assert ([kept] + rest)[1..] == rest;
    }
  }

  /** Refinement of a whole run: from an empty cache, with a clock that never
      goes back and no eviction, every batch is filtered as the simple filter
      filters it. With evictions, whatever is dropped still has an emission
      of its key less than a window old. In any case the emitted reports are
      the live, the expired and the evicted ones, and the live are bounded. */
  lemma DedupRefinement<K>(latest: int, calls: seq<Call<K>>, window: int, max: nat)
    requires Monotonic(latest, calls) && window > 0
    ensures var (d, kept) := Run<K>(Empty(), calls, window, max);
            && |d.seen| <= max
            && d.emitted == |d.seen| + d.expired + d.evictions
            && SoundRun<K>(map[], calls, kept, window)
            && (d.evictions == 0 ==> kept == RefRun<K>(map[], calls, window))
  {
    RunRefines<K>(Empty(), map[], latest, calls, window, max);
  }

  // -------------------------------------------------------------- evictions

  /** The keys with an emission less than a window old. */
  ghost function Active<K>(last: map<K, int>, now: int, window: int): set<K> {
    set k | k in last && now < last[k] + window
  }

  /** After each call of the simple filter at most `max` keys are active. */
  ghost predicate Fits<K>(last: map<K, int>, calls: seq<Call<K>>, window: int, max: nat)
    decreases |calls|
  {
    calls == [] ||
    var after := RefFilter(last, calls[0].keys, calls[0].now, window).0;
    |Active(after, calls[0].now, window)| <= max && Fits(after, calls[1..], window, max)
  }

  lemma LiveAreActive<K>(c: Cache<K>, last: map<K, int>, now: int, window: int)
    requires Fresh(c, now) && Follows(c, last, window) && Complete(c, last, now, window)
    ensures c.seen.Keys == Active(last, now, window) && |c.seen| == |Active(last, now, window)|
  {
    assert c.seen.Keys == Active(last, now, window);
    assert |c.seen| == |c.seen.Keys|;
  }

  /** One call evicts nothing exactly when what is active afterwards fits. */
  lemma FilterEvicts<K>(c: Cache<K>, last: map<K, int>, latest: int, keys: seq<K>, now: int, window: int, max: nat)
    requires Inv(c, last, latest, window) && latest <= now && window > 0 && c.evictions == 0
    ensures Filter(c, keys, now, window, max).0.evictions == 0 <==>
            |Active(RefFilter(last, keys, now, window).0, now, window)| <= max
  {
    var p := Purge(c, now);
    PurgeTidy(c, latest, now, window);
    PurgeExact(c, latest, now, window);
    assert Follows(p, last, window) && Complete(p, last, now, window);
    ScanTidy(p, keys, now, window);
    ScanFollows(p, last, keys, now, window);
    ScanRefines(p, last, keys, now, window);
    var m := Scan(p, keys, now, window).0;
    LiveAreActive(m, RefFilter(last, keys, now, window).0, now, window);
    TrimTidy(m, now, window, max);
  }

  lemma {:induction false} RunEvicts<K>(c: Cache<K>, last: map<K, int>, latest: int, calls: seq<Call<K>>,
                                         window: int, max: nat)
    requires Inv(c, last, latest, window) && Monotonic(latest, calls) && window > 0 && c.evictions == 0
    ensures Run(c, calls, window, max).0.evictions == 0 <==> Fits(last, calls, window, max)
    decreases |calls|
  {
    if calls == [] {
    } else {
      var call := calls[0];
      FilterEvicts(c, last, latest, call.keys, call.now, window, max);
      FilterRefines(c, last, latest, call.keys, call.now, window, max);
      var (d, kept) := Filter(c, call.keys, call.now, window, max);
      var last' := Recorded(last, call.keys, kept, call.now);
      if d.evictions == 0 {
        RunEvicts(d, last', call.now, calls[1..], window, max);
      } else {
        RunRefines(d, last', call.now, calls[1..], window, max);
      }
    }
  }

  /** When a run from an empty cache evicts anything: exactly when, by the
      simple filter alone, more than `max` keys are active after some call. */
  lemma EvictsExactlyWhenFull<K>(latest: int, calls: seq<Call<K>>, window: int, max: nat)
    requires Monotonic(latest, calls) && window > 0
    ensures Run<K>(Empty(), calls, window, max).0.evictions == 0 <==> Fits<K>(map[], calls, window, max)
    ensures Fits<K>(map[], calls, window, max) ==>
              Run<K>(Empty(), calls, window, max).1 == RefRun<K>(map[], calls, window)
  {
    RunEvicts<K>(Empty(), map[], latest, calls, window, max);
    DedupRefinement<K>(latest, calls, window, max);
  }

  /** What an eviction costs: a key that was pushed out before its expiry and
      is seen again before it is reported, although the simple filter drops it. */
  lemma EvictionReports<K>(c: Cache<K>, last: map<K, int>, latest: int, key: K, now: int, window: int, max: nat)
    requires Tidy(c, latest, window) && Follows(c, last, window) && window > 0
    requires key in c.seen && key !in Trim(c, max).seen && now < c.seen[key]
    ensures Filter(Trim(c, max), [key], now, window, max).1 == [true]
    ensures RefFilter(last, [key], now, window).1 == [false]
  {
    var d := Trim(c, max);
    TrimTidy(c, latest, window, max);
    PurgeExact(d, latest, now, window);
    ScanSingle(Purge(d, now), key, now, window);
    assert [key][..0] == [];
    assert RefFilter(last, [key][..0], now, window) == (last, []);
  }

  /** The cache decides as the simple filter on the calls of a run and on any
      single report that might come after any of them. */
  ghost predicate Faithful<K(!new)>(c: Cache<K>, last: map<K, int>, calls: seq<Call<K>>, window: int, max: nat)
    decreases |calls|
  {
    calls == [] ||
    var (d, kept) := Filter(c, calls[0].keys, calls[0].now, window, max);
    var (after, wanted) := RefFilter(last, calls[0].keys, calls[0].now, window);
    && kept == wanted
    && AgreesFrom(d, after, calls[0].now, window, max)
    && Faithful(d, after, calls[1..], window, max)
  }

  ghost predicate AgreesFrom<K(!new)>(c: Cache<K>, last: map<K, int>, now: int, window: int, max: nat) {
    forall k, t | now <= t :: Filter(c, [k], t, window, max).1 == RefFilter(last, [k], t, window).1
  }

  /** Something evicted is missed at once; otherwise nothing is missed. */
  lemma AgreesExactly<K(!new)>(c: Cache<K>, last: map<K, int>, latest: int, keys: seq<K>,
                               now: int, window: int, max: nat)
    requires Inv(c, last, latest, window) && latest <= now && window > 0 && c.evictions == 0
    ensures var d, after := Filter(c, keys, now, window, max).0, RefFilter(last, keys, now, window).0;
            AgreesFrom(d, after, now, window, max) <==> d.evictions == 0
  {
    var d, after := Filter(c, keys, now, window, max).0, RefFilter(last, keys, now, window).0;
    FilterRefines(c, last, latest, keys, now, window, max);
    if d.evictions == 0 {
      forall k, t | now <= t
        ensures Filter(d, [k], t, window, max).1 == RefFilter(after, [k], t, window).1
      {
        FilterRefines(d, after, now, [k], t, window, max);
      }
    } else {
      var k := EvictedKey(c, last, latest, keys, now, window, max);
      assert Filter(d, [k], now, window, max).1 != RefFilter(after, [k], now, window).1;
    }
  }

  lemma EvictedKey<K>(c: Cache<K>, last: map<K, int>, latest: int, keys: seq<K>, now: int, window: int, max: nat)
    returns (k: K)
    requires Inv(c, last, latest, window) && latest <= now && window > 0 && c.evictions == 0
    requires Filter(c, keys, now, window, max).0.evictions > 0
    ensures var d, after := Filter(c, keys, now, window, max).0, RefFilter(last, keys, now, window).0;
            Filter(d, [k], now, window, max).1 == [true] && RefFilter(after, [k], now, window).1 == [false]
  {
    var p := Purge(c, now);
    PurgeTidy(c, latest, now, window);
    PurgeExact(c, latest, now, window);
    assert Follows(p, last, window) && Complete(p, last, now, window);
    ScanTidy(p, keys, now, window);
    ScanFollows(p, last, keys, now, window);
    ScanRefines(p, last, keys, now, window);
    var m := Scan(p, keys, now, window).0;
    k := TrimmedKey(m, now, window, max);
    EvictionReports(m, RefFilter(last, keys, now, window).0, now, k, now, window, max);
  }

  lemma TrimmedKey<K>(m: Cache<K>, latest: int, window: int, max: nat) returns (k: K)
    requires Tidy(m, latest, window) && Trim(m, max).evictions > m.evictions
    ensures k in m.seen && k !in Trim(m, max).seen
  {
    var d := Trim(m, max);
    TrimTidy(m, latest, window, max);
    TidyIsLinked(m, latest, window);
    TrimReachesGoal(m, max);
    if m.seen.Keys <= d.seen.Keys {
      assert |m.seen| == |m.seen.Keys| && |d.seen| == |d.seen.Keys|;
      SubsetSize(m.seen.Keys, d.seen.Keys);
      assert false;
    }
    k :| k in m.seen && k !in d.seen;
  }

  lemma {:induction false} SubsetSize<K>(a: set<K>, b: set<K>)
    requires a <= b
    ensures |a| <= |b|
    decreases a
  {
    if a == {} {
    } else {
      var x :| x in a;
      SubsetSize(a - {x}, b - {x});
    }
  }

  lemma {:induction false} FaithfulRun<K(!new)>(c: Cache<K>, last: map<K, int>, latest: int, calls: seq<Call<K>>,
                                                window: int, max: nat)
    requires Inv(c, last, latest, window) && Monotonic(latest, calls) && window > 0 && c.evictions == 0
    ensures Faithful(c, last, calls, window, max) <==> Fits(last, calls, window, max)
    decreases |calls|
  {
    if calls == [] {
    } else {
      var call := calls[0];
      FilterEvicts(c, last, latest, call.keys, call.now, window, max);
      FilterRefines(c, last, latest, call.keys, call.now, window, max);
      AgreesExactly(c, last, latest, call.keys, call.now, window, max);
      var d, after := Filter(c, call.keys, call.now, window, max).0, RefFilter(last, call.keys, call.now, window).0;
      if d.evictions == 0 {
        FaithfulRun(d, after, call.now, calls[1..], window, max);
      }
    }
  }

  /** The exact condition for refinement, from an empty cache: the cache
      decides as the simple filter, on a run and on whatever report may come
      after any of its calls, exactly when at most `max` keys are active after
      each call. */
  lemma FaithfulExactlyWhenFits<K(!new)>(latest: int, calls: seq<Call<K>>, window: int, max: nat)
    requires Monotonic(latest, calls) && window > 0
    ensures Faithful<K>(Empty(), map[], calls, window, max) <==> Fits<K>(map[], calls, window, max)
  {
    FaithfulRun<K>(Empty(), map[], latest, calls, window, max);
  }

  lemma ScanSingle<K>(c: Cache<K>, key: K, now: int, window: int)
    ensures Scan(c, [key], now, window) == (ScanOne(c, key, now, window), [!Suppressed(c, key, now)])
  {
    assert [key][..0] == [];
    assert Scan(c, [key][..0], now, window) == (c, []);
    assert [] + [!Suppressed(c, key, now)] == [!Suppressed(c, key, now)];
  }

  // ------------------------------------------------------- the deduplicator

  /** The reports at the positions that are kept. */
  function Select<T>(reports: seq<T>, kept: seq<bool>): seq<T>
    requires |reports| == |kept|
    decreases |reports|
  {
    if reports == [] then []
    else
      var n := |reports| - 1;
      Select(reports[..n], kept[..n]) + if kept[n] then [reports[n]] else []
  }

  lemma ScanPrefix<K>(c: Cache<K>, keys: seq<K>, i: nat, now: int, window: int)
    requires i < |keys|
    ensures var (d, kept) := Scan(c, keys[..i], now, window);
            Scan(c, keys[..i + 1], now, window) ==
            (ScanOne(d, keys[i], now, window), kept + [!Suppressed(d, keys[i], now)])
  {
    assert keys[..i + 1][..i] == keys[..i];
  }

  lemma SelectPrefix<T>(reports: seq<T>, kept: seq<bool>, i: nat, keep: bool)
    requires i < |reports| && |kept| == i
    ensures Select(reports[..i + 1], kept + [keep]) ==
            if keep then Select(reports[..i], kept) + [reports[i]] else Select(reports[..i], kept)
  {
    assert reports[..i + 1][..i] == reports[..i] && (kept + [keep])[..i] == kept;
  }

  function KeysOf<T, K>(reports: seq<T>, key: T -> K): (ks: seq<K>)
    ensures |ks| == |reports| && forall i | 0 <= i < |reports| :: ks[i] == key(reports[i])
  {
    seq(|reports|, i requires 0 <= i < |reports| => key(reports[i]))
  }

  // ------------------------------------------------------ what is passed on

  /** The key was emitted before and is still in its window. */
  predicate IsRecent<K(==)>(seen: map<K, int>, k: K, now: int) {
    k in seen && now < seen[k]
  }

  predicate IsRepeated<T, K(==)>(reports: seq<T>, key: T -> K, r: T) {
    exists j :: 0 <= j < |reports| && key(reports[j]) == key(r)
  }

  /** The reports to pass on, from the reports themselves: in their order, those
      whose key is not in its window and is not that of an earlier report. */
  function Passed<T, K(==)>(reports: seq<T>, key: T -> K, seen: map<K, int>, now: int): seq<T>
    decreases |reports|
  {
    if reports == [] then []
    else
      var n := |reports| - 1;
      Passed(reports[..n], key, seen, now)
      + if IsRecent(seen, key(reports[n]), now) || IsRepeated(reports[..n], key, reports[n]) then [] else [reports[n]]
  }

  /** After a scan exactly the keys before it and those of the batch are live. */
  lemma {:induction false} ScanSeen<K>(c: Cache<K>, keys: seq<K>, now: int, window: int)
    requires Fresh(c, now) && window > 0
    ensures var d := Scan(c, keys, now, window).0;
            Fresh(d, now) && forall k :: k in d.seen <==> k in c.seen || k in keys
    decreases |keys|
  {
    if keys == [] {
    } else {
      var n := |keys| - 1;
      ScanSeen(c, keys[..n], now, window);
      assert forall k :: k in keys <==> k in keys[..n] || k == keys[n];
    }
  }

  /** One report of a batch is kept if and only if its key was not live before
      the batch and is not that of an earlier report. */
  lemma {:induction false} ScanExactly<K>(c: Cache<K>, keys: seq<K>, now: int, window: int, i: nat)
    requires Fresh(c, now) && window > 0 && i < |keys|
    ensures Scan(c, keys, now, window).1[i] <==> keys[i] !in c.seen && keys[i] !in keys[..i]
    decreases |keys|
  {
    var n := |keys| - 1;
    if i < n {
      ScanExactly(c, keys[..n], now, window, i);
      assert keys[..n][..i] == keys[..i];
    } else {
      ScanSeen(c, keys[..n], now, window);
    }
  }

  /** One report of a call is passed on if and only if its own key is not in
      its window and is not that of an earlier report of the call. */
  lemma FilterExactly<K>(c: Cache<K>, latest: int, keys: seq<K>, now: int, window: int, max: nat, i: nat)
    requires Tidy(c, latest, window) && window > 0 && i < |keys|
    ensures var kept := Filter(c, keys, now, window, max).1;
            |kept| == |keys| && (kept[i] <==> !IsRecent(c.seen, keys[i], now) && keys[i] !in keys[..i])
  {
    var p := Purge(c, now);
    PurgeExact(c, latest, now, window);
    ScanExactly(p, keys, now, window, i);
    assert keys[i] in p.seen <==> IsRecent(c.seen, keys[i], now);
  }

  lemma {:induction false} SelectIsPassed<T, K>(reports: seq<T>, key: T -> K, seen: map<K, int>, now: int,
                                                kept: seq<bool>)
    requires |kept| == |reports|
    requires forall i | 0 <= i < |reports| ::
               kept[i] <==> !IsRecent(seen, key(reports[i]), now) && !IsRepeated(reports[..i], key, reports[i])
    ensures Select(reports, kept) == Passed(reports, key, seen, now)
    decreases |reports|
  {
    if reports == [] {
    } else {
      var n := |reports| - 1;
      forall i | 0 <= i < n
        ensures kept[..n][i] <==>
                !IsRecent(seen, key(reports[..n][i]), now) && !IsRepeated(reports[..n][..i], key, reports[..n][i])
      {
        assert reports[..n][..i] == reports[..i];
      }
      SelectIsPassed(reports[..n], key, seen, now, kept[..n]);
    }
  }

  lemma RepeatedIsEarlier<T, K>(reports: seq<T>, key: T -> K, i: nat)
    requires i < |reports|
    ensures IsRepeated(reports[..i], key, reports[i]) <==> key(reports[i]) in KeysOf(reports, key)[..i]
  {
    var keys := KeysOf(reports, key);
    if IsRepeated(reports[..i], key, reports[i]) {
      var j :| 0 <= j < i && key(reports[..i][j]) == key(reports[i]);
      assert keys[..i][j] == key(reports[i]);
    }
    if key(reports[i]) in keys[..i] {
      var j :| 0 <= j < i && keys[..i][j] == key(reports[i]);
      assert key(reports[..i][j]) == key(reports[i]);
    }
  }

  /** What a call passes on, in terms of its reports. */
  lemma ReportsPassed<T, K>(c: Cache<K>, latest: int, reports: seq<T>, key: T -> K, now: int, window: int, max: nat)
    requires Tidy(c, latest, window) && window > 0
    ensures var kept := Filter(c, KeysOf(reports, key), now, window, max).1;
            |kept| == |reports| && Select(reports, kept) == Passed(reports, key, c.seen, now)
  {
    var keys := KeysOf(reports, key);
    var kept := Filter(c, keys, now, window, max).1;
    forall i | 0 <= i < |reports|
      ensures kept[i] <==> !IsRecent(c.seen, key(reports[i]), now) && !IsRepeated(reports[..i], key, reports[i])
    {
      FilterExactly(c, latest, keys, now, window, max, i);
      RepeatedIsEarlier(reports, key, i);
    }
    SelectIsPassed(reports, key, c.seen, now, kept);
  }

  /** `at` gives the places of `out` among the reports: in order, and each the
      first of its key. */
  ghost predicate IsFirstAt<T, K>(at: seq<nat>, out: seq<T>, reports: seq<T>, key: T -> K) {
    && |at| == |out| && (forall i, j | 0 <= i < j < |at| :: at[i] < at[j])
    && (forall i | 0 <= i < |at| :: at[i] < |reports| && out[i] == reports[at[i]])
    && (forall i, j | 0 <= i < |at| && 0 <= j < at[i] :: key(reports[j]) != key(out[i]))
  }

  lemma PassedSnoc<T, K>(reports: seq<T>, key: T -> K, seen: map<K, int>, now: int)
    requires reports != []
    ensures var n := |reports| - 1;
            var before, last := Passed(reports[..n], key, seen, now), reports[n];
            Passed(reports, key, seen, now) ==
            if IsRecent(seen, key(last), now) || IsRepeated(reports[..n], key, last) then before else before + [last]
  {
  }

  lemma FirstAtGrows<T, K>(at: seq<nat>, out: seq<T>, reports: seq<T>, key: T -> K, r: T)
    requires IsFirstAt(at, out, reports, key)
    ensures IsFirstAt(at, out, reports + [r], key)
    ensures !IsRepeated(reports, key, r) ==> IsFirstAt(at + [|reports|], out + [r], reports + [r], key)
  {
  }

  /** The reports that are passed on keep their order, and each is the first
      of its key. */
  lemma {:induction false} PassedInOrder<T, K>(reports: seq<T>, key: T -> K, seen: map<K, int>, now: int)
    returns (at: seq<nat>)
    ensures IsFirstAt(at, Passed(reports, key, seen, now), reports, key)
    decreases |reports|
  {
    if reports == [] {
      at := [];
    } else {
      var n := |reports| - 1;
      var before, last := Passed(reports[..n], key, seen, now), reports[n];
      at := PassedInOrder(reports[..n], key, seen, now);
      FirstAtGrows(at, before, reports[..n], key, last);
      assert reports[..n] + [last] == reports;
      PassedSnoc(reports, key, seen, now);
      if !IsRecent(seen, key(last), now) && !IsRepeated(reports[..n], key, last) {
        at := at + [n];
      }
    }
  }

  lemma RepeatedGrows<T, K>(reports: seq<T>, key: T -> K, last: T, r: T)
    ensures IsRepeated(reports + [last], key, r) <==> IsRepeated(reports, key, r) || key(last) == key(r)
  {
    if IsRepeated(reports, key, r) {
      var j :| 0 <= j < |reports| && key(reports[j]) == key(r);
      assert (reports + [last])[j] == reports[j];
    }
    assert (reports + [last])[|reports|] == last;
  }

  lemma SameKeyRepeats<T, K>(reports: seq<T>, key: T -> K, r: T, x: T)
    requires key(r) == key(x)
    ensures IsRepeated(reports, key, r) <==> IsRepeated(reports, key, x)
  {
  }

  /** What covers the earlier reports covers the last one too, or it is added. */
  lemma LastIsCovered<T, K>(before: seq<T>, reports: seq<T>, key: T -> K, seen: map<K, int>, now: int, last: T)
    requires forall r | r in reports && !IsRecent(seen, key(r), now) :: IsRepeated(before, key, r)
    requires !IsRecent(seen, key(last), now) && IsRepeated(reports, key, last)
    ensures IsRepeated(before, key, last)
  {
    var x := EarlierReport(reports, key, last);
    SameKeyRepeats(before, key, x, last);
  }

  lemma PassedCovers<T, K>(reports: seq<T>, key: T -> K, seen: map<K, int>, now: int, r: T)
    requires reports != [] && r in reports && !IsRecent(seen, key(r), now)
    requires forall r | r in reports[..|reports| - 1] && !IsRecent(seen, key(r), now) ::
               IsRepeated(Passed(reports[..|reports| - 1], key, seen, now), key, r)
    ensures IsRepeated(Passed(reports, key, seen, now), key, r)
  {
    var n := |reports| - 1;
    var before, last := Passed(reports[..n], key, seen, now), reports[n];
    PassedSnoc(reports, key, seen, now);
    RepeatedGrows(before, key, last, r);
    assert r in reports[..n] || r == last;
    if r !in reports[..n] && IsRepeated(reports[..n], key, last) {
      LastIsCovered(before, reports[..n], key, seen, now, last);
    }
  }

  lemma {:induction false} PassedAreNew<T, K>(reports: seq<T>, key: T -> K, seen: map<K, int>, now: int)
    ensures forall r | r in Passed(reports, key, seen, now) :: !IsRecent(seen, key(r), now)
    decreases |reports|
  {
    if reports == [] {
    } else {
      PassedAreNew(reports[..|reports| - 1], key, seen, now);
    }
  }

  lemma {:induction false} PassedCoverAll<T, K>(reports: seq<T>, key: T -> K, seen: map<K, int>, now: int)
    ensures forall r | r in reports && !IsRecent(seen, key(r), now) ::
              IsRepeated(Passed(reports, key, seen, now), key, r)
    decreases |reports|
  {
    if reports == [] {
    } else {
      PassedCoverAll(reports[..|reports| - 1], key, seen, now);
      forall r | r in reports && !IsRecent(seen, key(r), now)
        ensures IsRepeated(Passed(reports, key, seen, now), key, r)
      {
        PassedCovers(reports, key, seen, now, r);
      }
    }
  }

  /** No two reports that are passed on have the same key, none has a key in
      its window, and a report is left out only for a key in its window or for
      a report with the same key that is passed on. */
  lemma PassedExactly<T, K>(reports: seq<T>, key: T -> K, seen: map<K, int>, now: int)
    ensures var out := Passed(reports, key, seen, now);
            && (forall i, j | 0 <= i < j < |out| :: key(out[i]) != key(out[j]))
            && (forall r | r in out :: r in reports && !IsRecent(seen, key(r), now))
            && (forall r | r in reports && !IsRecent(seen, key(r), now) :: IsRepeated(out, key, r))
  {
    var out := Passed(reports, key, seen, now);
    var at := PassedInOrder(reports, key, seen, now);
    forall i, j | 0 <= i < j < |out|
      ensures key(out[i]) != key(out[j])
    {
      assert at[i] < at[j] && out[i] == reports[at[i]];
    }
    PassedAreNew(reports, key, seen, now);
    PassedCoverAll(reports, key, seen, now);
  }

  ghost function EarlierReport<T, K>(reports: seq<T>, key: T -> K, r: T): (x: T)
    requires IsRepeated(reports, key, r)
    ensures x in reports && key(x) == key(r)
  {
    var j :| 0 <= j < |reports| && key(reports[j]) == key(r);
    reports[j]
  }

  class TagReportDeduplicator<T(!new), K(==)> {
    const windowTicks: nat
    const maxEntries: nat
    const key: T -> K
    var seen: map<K, int>
    var expiryQueue: seq<Entry<K>>
    var evictions: nat
    ghost var emitted: nat
    ghost var expired: nat

    ghost function View(): Cache<K>
      reads this
    {
      Cache(seen, expiryQueue, evictions, emitted, expired)
    }

    constructor (windowTicks: nat, maxEntries: nat, key: T -> K)
      requires maxEntries > 0
      ensures View() == Empty()
      ensures this.windowTicks == windowTicks && this.maxEntries == maxEntries && this.key == key
    {
      this.windowTicks, this.maxEntries, this.key := windowTicks, maxEntries, key;
      seen, expiryQueue, evictions, emitted, expired := map[], [], 0, 0, 0;
    }

    method Reset()
      modifies this
      ensures View() == Empty()
    {
      seen, expiryQueue, evictions, emitted, expired := map[], [], 0, 0, 0;
    }

    method PurgeExpired(now: int)
      modifies this
      ensures View() == Purge(old(View()), now)
    {
      while expiryQueue != [] && expiryQueue[0].expiry <= now
        invariant Purge(View(), now) == Purge(old(View()), now)
        decreases |expiryQueue|
      {
        var entry := expiryQueue[0];
        expiryQueue := expiryQueue[1..];
        if entry.key in seen && seen[entry.key] == entry.expiry {
          seen := seen - {entry.key};
          expired := expired + 1;
        }
      }
    }

    method TrimEntries()
      modifies this
      ensures View() == Trim(old(View()), maxEntries)
    {
      while |seen| > maxEntries && expiryQueue != []
        invariant Trim(View(), maxEntries) == Trim(old(View()), maxEntries)
        decreases |expiryQueue|
      {
        TrimUnfolds(View(), maxEntries);
        ghost var next := EvictFront(View());
        var entry := expiryQueue[0];
        expiryQueue := expiryQueue[1..];
        if entry.key in seen && seen[entry.key] == entry.expiry {
          seen := seen - {entry.key};
          evictions := evictions + 1;
        }
        assert View() == next;
      }
    }

    /** The loop of `filter` over the reports of one batch. */
    method ScanReports(reports: seq<T>, keys: seq<K>, now: int) returns (unique: seq<T>)
      requires |keys| == |reports|
      modifies this
      ensures var (c, kept) := Scan(old(View()), keys, now, windowTicks);
              View() == c && unique == Select(reports, kept)
    {
      unique := [];
      ghost var c0, kept: seq<bool> := View(), [];
      assert reports[..0] == [] && keys[..0] == [];
      for i := 0 to |reports|
        invariant |kept| == i && Scan(c0, keys[..i], now, windowTicks) == (View(), kept)
        invariant unique == Select(reports[..i], kept)
      {
        ScanPrefix(c0, keys, i, now, windowTicks);
        var keep := ScanReport(keys[i], now);
        SelectPrefix(reports, kept, i, keep);
        kept := kept + [keep];
        if keep {
          unique := unique + [reports[i]];
        }
      }
      assert reports[..|reports|] == reports && keys[..|keys|] == keys;
    }

    /** One report: it is passed on unless its key is still in its window. */
    method ScanReport(key: K, now: int) returns (keep: bool)
      modifies this
      ensures View() == ScanOne(old(View()), key, now, windowTicks)
      ensures keep == !Suppressed(old(View()), key, now)
    {
      keep := !(key in seen && now < seen[key]);
      if keep {
        var expiry := now + windowTicks;
        seen := seen[key := expiry];
        expiryQueue := expiryQueue + [Entry(expiry, key)];
        emitted := emitted + 1;
      }
    }

    /** `filter`, with the clock's reading as an argument. */
    method FilterReports(reports: seq<T>, now: int) returns (unique: seq<T>)
      modifies this
      ensures windowTicks == 0 ==> unique == reports && View() == old(View())
      ensures windowTicks > 0 ==>
                var (c, kept) := Filter(old(View()), KeysOf(reports, key), now, windowTicks, maxEntries);
                View() == c && unique == Select(reports, kept)
      ensures Linked(old(View())) && windowTicks > 0 ==> Linked(View()) && |seen| <= maxEntries
      ensures windowTicks > 0 ==>
                forall latest | Tidy(old(View()), latest, windowTicks) :: unique == Passed(reports, key, old(seen), now)
    {
      if windowTicks == 0 {
        return reports;
      }
      var keys := KeysOf(reports, key);
      PurgeExpired(now);
      unique := ScanReports(reports, keys, now);
      TrimEntries();
      if Linked(old(View())) {
        FilterBound(old(View()), keys, now, windowTicks, maxEntries);
      }
      forall latest | Tidy(old(View()), latest, windowTicks)
        ensures unique == Passed(reports, key, old(seen), now)
      {
        ReportsPassed(old(View()), latest, reports, key, now, windowTicks, maxEntries);
      }
    }
  }
}
