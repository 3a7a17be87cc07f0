/**
 `PendingRequestRegistry` (`sllurp/llrp_runtime.py`): requests that wait for one
 exact response, and a bounded memory of the keys that were retired.
 */
module Registry {
  import opened Prelude

  type Name = string

  datatype Key = Key(name: Name, id: nat)

  /** A registered request; `armed` while its timeout timer runs. */
  datatype Request<C> = Request(key: Key, callback: C, armed: bool)

  /** `_pending` and `_stale`, with a log of retirements, the position of each
      stale key in it, and counts for the conservation law. */
  datatype Reg<C> = Reg(
    pending: map<Key, Request<C>>,
    stale: seq<Key>,
    limit: nat,
    log: seq<Key>,
    stamps: seq<nat>,
    registered: nat,
    matched: nat,
    expired: nat,
    cancelled: nat)

  // ------------------------------------------------------------- operations

  /** The last `limit` elements. */
  function Bounded<T>(s: seq<T>, limit: nat): (b: seq<T>)
    ensures |b| <= limit && (|s| <= limit ==> b == s)
  {
    if |s| > limit then s[|s| - limit..] else s
  }

  function Position(s: seq<Key>, k: Key): (i: nat)
    ensures i <= |s| && (i < |s| ==> s[i] == k) && (forall j | 0 <= j < i :: s[j] != k)
  {
    if s == [] || s[0] == k then 0 else 1 + Position(s[1..], k)
  }

  function Drop<T>(s: seq<T>, i: nat): seq<T> {
    if i < |s| then s[..i] + s[i + 1..] else s
  }

  /** The stale keys without a key that is registered anew. */
  function Forgotten(stale: seq<Key>, k: Key): seq<Key> {
    Drop(stale, Position(stale, k))
  }

  /** The stale keys with one more. */
  function Retired(stale: seq<Key>, k: Key, limit: nat): seq<Key> {
    if k in stale then stale else Bounded(stale + [k], limit)
  }

  /** _remember_stale. */
  function Remember<C>(r: Reg<C>, k: Key): Reg<C> {
    if k in r.stale then r
    else r.(stale := Retired(r.stale, k, r.limit),
            stamps := Bounded(r.stamps + [|r.log|], r.limit),
            log := r.log + [k])
  }

  function Register<C>(r: Reg<C>, k: Key, callback: C, timed: bool): Reg<C> {
    if k in r.pending then r
    else r.(pending := r.pending[k := Request(k, callback, timed)],
            stale := Forgotten(r.stale, k),
            stamps := Drop(r.stamps, Position(r.stale, k)),
            registered := r.registered + 1)
  }

  /** Taking one request out, and remembering its key if asked to. */
  function Retire<C>(r: Reg<C>, k: Key, remember: bool): Reg<C> {
    var out := r.(pending := r.pending - {k});
    if remember then Remember(out, k) else out
  }

  function Pop<C>(r: Reg<C>, k: Key): Reg<C> {
    if k in r.pending then Retire(r, k, true).(matched := r.matched + 1) else r
  }

  function Expire<C>(r: Reg<C>, k: Key): Reg<C> {
    if k in r.pending then Retire(r, k, true).(expired := r.expired + 1) else r
  }

  function Cancel<C>(r: Reg<C>, k: Key, remember: bool): Reg<C> {
    if k in r.pending then Retire(r, k, remember).(cancelled := r.cancelled + 1) else r
  }

  ghost predicate IsSole<C>(r: Reg<C>, name: Name, k: Key) {
    k in r.pending && k.name == name && forall k' | k' in r.pending && k'.name == name :: k' == k
  }

  /** cancel_all, given the order in which the dictionary lists its keys. */
  function CancelAll<C>(r: Reg<C>, remember: bool, order: seq<Key>): Reg<C>
    decreases |order|
  {
    if order == [] then if remember then r else r.(stale := [], stamps := [])
    else CancelAll(Cancel(r, order[0], remember), remember, order[1..])
  }

  // --------------------------------------------------------------- invariant

  ghost predicate Distinct(s: seq<Key>) {
    forall i, j | 0 <= i < j < |s| :: s[i] != s[j]
  }

  /** The stale keys are log entries, in the order of the log. */
  ghost predicate InLogOrder(stale: seq<Key>, stamps: seq<nat>, log: seq<Key>) {
    && |stamps| == |stale|
    && (forall i | 0 <= i < |stamps| :: stamps[i] < |log| && log[stamps[i]] == stale[i])
    && (forall i, j | 0 <= i < j < |stamps| :: stamps[i] < stamps[j])
  }

  ghost predicate Disjoint<C>(r: Reg<C>) {
    && (forall k | k in r.stale :: k !in r.pending)
    && (forall k | k in r.pending :: r.pending[k].key == k)
  }

  predicate Balanced<C>(r: Reg<C>) {
    r.registered == r.matched + r.expired + r.cancelled + |r.pending|
  }

  ghost predicate Inv<C>(r: Reg<C>) {
    && r.limit >= 1
    && Distinct(r.stale)
    && |r.stale| <= r.limit
    && InLogOrder(r.stale, r.stamps, r.log)
    && Disjoint(r)
    && Balanced(r)
  }

  lemma MapPlus<C>(m: map<Key, Request<C>>, k: Key, v: Request<C>)
    requires k !in m
    ensures |m[k := v]| == |m| + 1
  {
    assert m[k := v].Keys == m.Keys + {k};
    assert |m[k := v].Keys| == |m[k := v]|;
  }

  lemma BoundedOrder(stale: seq<Key>, stamps: seq<nat>, log: seq<Key>, limit: nat)
    requires InLogOrder(stale, stamps, log) && Distinct(stale)
    ensures InLogOrder(Bounded(stale, limit), Bounded(stamps, limit), log) && Distinct(Bounded(stale, limit))
    ensures forall k | k in Bounded(stale, limit) :: k in stale
  {
  }

  lemma RememberGrows(stale: seq<Key>, stamps: seq<nat>, log: seq<Key>, k: Key)
    requires InLogOrder(stale, stamps, log) && Distinct(stale) && k !in stale
    ensures InLogOrder(stale + [k], stamps + [|log|], log + [k]) && Distinct(stale + [k])
  {
  }

  /** Retiring a pending key always appends it: the early return for a key
      that is stale already is never taken. */
  lemma RetireAppends<C>(r: Reg<C>, k: Key)
    requires Inv(r) && k in r.pending
    ensures k !in r.stale
    ensures Retire(r, k, true).log == r.log + [k]
    ensures var s := Retire(r, k, true).stale; s != [] && s[|s| - 1] == k
  {
  }

  lemma RetireInv<C>(r: Reg<C>, k: Key, remember: bool)
    requires Inv(r) && k in r.pending
    ensures var d := Retire(r, k, remember);
            && d.limit >= 1 && Distinct(d.stale) && |d.stale| <= d.limit
            && InLogOrder(d.stale, d.stamps, d.log) && Disjoint(d)
            && |d.pending| == |r.pending| - 1
  {
    MapMinus(r.pending, k);
    if remember {
      RememberGrows(r.stale, r.stamps, r.log, k);
      BoundedOrder(r.stale + [k], r.stamps + [|r.log|], r.log + [k], r.limit);
    }
  }

  lemma DropAt<T>(s: seq<T>, i: nat)
    requires i < |s|
    ensures |Drop(s, i)| == |s| - 1
    ensures forall j | 0 <= j < |s| - 1 :: Drop(s, i)[j] == if j < i then s[j] else s[j + 1]
  {
  }

  lemma DropElements(stale: seq<Key>, k: Key)
    requires Distinct(stale)
    ensures var d := Drop(stale, Position(stale, k)); Distinct(d) && forall k' :: k' in d <==> k' in stale && k' != k
  {
    var i := Position(stale, k);
    if i < |stale| {
      DropAt(stale, i);
      DropKeepsOthers(stale, i);
      DropIsDistinct(stale, i);
    }
  }

  lemma DropIsDistinct(stale: seq<Key>, i: nat)
    requires Distinct(stale) && i < |stale|
    ensures Distinct(Drop(stale, i)) && stale[i] !in Drop(stale, i)
  {
    DropAt(stale, i);
  }

  lemma DropKeepsOthers(stale: seq<Key>, i: nat)
    requires i < |stale|
    ensures forall k | k in stale && k != stale[i] :: k in Drop(stale, i)
    ensures forall k | k in Drop(stale, i) :: k in stale
  {
    assert stale == stale[..i] + [stale[i]] + stale[i + 1..];
  }

  lemma DropOrder(stale: seq<Key>, stamps: seq<nat>, log: seq<Key>, i: nat)
    requires InLogOrder(stale, stamps, log)
    ensures InLogOrder(Drop(stale, i), Drop(stamps, i), log)
  {
    if i < |stale| {
      DropAt(stale, i);
      DropAt(stamps, i);
    }
  }

  lemma RegisterInv<C>(r: Reg<C>, k: Key, callback: C, timed: bool)
    requires Inv(r)
    ensures Inv(Register(r, k, callback, timed))
  {
    if k !in r.pending {
      MapPlus(r.pending, k, Request(k, callback, timed));
      DropElements(r.stale, k);
      DropOrder(r.stale, r.stamps, r.log, Position(r.stale, k));
    }
  }

  lemma PopInv<C>(r: Reg<C>, k: Key)
    requires Inv(r)
    ensures Inv(Pop(r, k))
  {
    if k in r.pending {
      RetireInv(r, k, true);
    }
  }

  lemma ExpireInv<C>(r: Reg<C>, k: Key)
    requires Inv(r)
    ensures Inv(Expire(r, k))
  {
    if k in r.pending {
      RetireInv(r, k, true);
    }
  }

  lemma CancelInv<C>(r: Reg<C>, k: Key, remember: bool)
    requires Inv(r)
    ensures Inv(Cancel(r, k, remember))
  {
    if k in r.pending {
      RetireInv(r, k, remember);
    }
  }

  lemma {:induction false} CancelAllInv<C>(r: Reg<C>, remember: bool, order: seq<Key>)
    requires Inv(r)
    ensures Inv(CancelAll(r, remember, order))
    decreases |order|
  {
    if order == [] {
    } else {
      CancelInv(r, order[0], remember);
      CancelAllInv(Cancel(r, order[0], remember), remember, order[1..]);
    }
  }

  // -------------------------------------------------------------------- runs

  datatype Op<C> =
    | DoRegister(key: Key, callback: C, timed: bool)
    | DoPop(key: Key)
    | DoExpire(key: Key)
    | DoCancel(key: Key, remember: bool)
    | DoCancelAll(remember: bool, order: seq<Key>)

  function Apply<C>(r: Reg<C>, op: Op<C>): Reg<C> {
    match op
    case DoRegister(k, callback, timed) => Register(r, k, callback, timed)
    case DoPop(k) => Pop(r, k)
    case DoExpire(k) => Expire(r, k)
    case DoCancel(k, remember) => Cancel(r, k, remember)
    case DoCancelAll(remember, order) => CancelAll(r, remember, order)
  }

  function Run<C>(r: Reg<C>, ops: seq<Op<C>>): Reg<C>
    decreases |ops|
  {
    if ops == [] then r else Run(Apply(r, ops[0]), ops[1..])
  }

  function Fresh<C>(limit: nat): Reg<C> {
    Reg(map[], [], limit, [], [], 0, 0, 0, 0)
  }

  lemma ApplyInv<C>(r: Reg<C>, op: Op<C>)
    requires Inv(r)
    ensures Inv(Apply(r, op))
  {
    match op
    case DoRegister(k, callback, timed) => RegisterInv(r, k, callback, timed);
    case DoPop(k) => PopInv(r, k);
    case DoExpire(k) => ExpireInv(r, k);
    case DoCancel(k, remember) => CancelInv(r, k, remember);
    case DoCancelAll(remember, order) => CancelAllInv(r, remember, order);
  }

  lemma {:induction false} RunInv<C>(r: Reg<C>, ops: seq<Op<C>>)
    requires Inv(r)
    ensures Inv(Run(r, ops))
    decreases |ops|
  {
    if ops == [] {
    } else {
      ApplyInv(r, ops[0]);
      RunInv(Apply(r, ops[0]), ops[1..]);
    }
  }

  /** Registry invariant: after any sequence of operations on a new registry
      the stale memory is bounded, without duplicates and in retirement
      order, no pending key is stale, and every registered request is
      matched, expired, cancelled or still pending. */
  lemma RegistryInvariant<C>(limit: nat, ops: seq<Op<C>>)
    requires limit >= 1
    ensures var r := Run<C>(Fresh(limit), ops);
            && Inv(r)
            && |r.stale| <= r.limit
            && r.registered == r.matched + r.expired + r.cancelled + |r.pending|
  {
    RunInv<C>(Fresh(limit), ops);
  }

  /** How often an operation of a run took a pending request out: by `pop`,
      by expiry, or in all other ways. */
  function Removals<C>(r: Reg<C>, ops: seq<Op<C>>): (nat, nat)
    decreases |ops|
  {
    if ops == [] then (0, 0)
    else
      var (pops, expiries) := Removals(Apply(r, ops[0]), ops[1..]);
      (pops + (if ops[0].DoPop? && ops[0].key in r.pending then 1 else 0),
       expiries + (if ops[0].DoExpire? && ops[0].key in r.pending then 1 else 0))
  }

  lemma {:induction false} CancelAllCounts<C>(r: Reg<C>, remember: bool, order: seq<Key>)
    ensures var d := CancelAll(r, remember, order); d.matched == r.matched && d.expired == r.expired
    decreases |order|
  {
    if order == [] {
    } else {
      CancelAllCounts(Cancel(r, order[0], remember), remember, order[1..]);
    }
  }

  /** The books: matched requests are those that were popped, expired ones those
      whose expiry found them. */
  lemma {:induction false} CountsExactly<C>(r: Reg<C>, ops: seq<Op<C>>)
    ensures var d := Run(r, ops);
            d.matched == r.matched + Removals(r, ops).0 && d.expired == r.expired + Removals(r, ops).1
    decreases |ops|
  {
    if ops == [] {
    } else {
      if ops[0].DoCancelAll? {
        CancelAllCounts(r, ops[0].remember, ops[0].order);
      }
      CountsExactly(Apply(r, ops[0]), ops[1..]);
    }
  }

  /** A registered request is found again as it was registered, and others are
      left alone. */
  lemma RegisterFinds<C>(r: Reg<C>, k: Key, callback: C, timed: bool, other: Key)
    requires k !in r.pending && other != k
    ensures var d := Register(r, k, callback, timed);
            && k in d.pending && d.pending[k] == Request(k, callback, timed)
            && (other in d.pending <==> other in r.pending)
            && (other in r.pending ==> d.pending[other] == r.pending[other])
  {
  }

  // ------------------------------------------------------- the stale memory

  /** The key is remembered, with at most `newer` keys retired after it. */
  ghost predicate Remembers(stale: seq<Key>, k: Key, newer: int) {
    exists i :: 0 <= i < |stale| && stale[i] == k && |stale| - 1 - i <= newer
  }

  lemma ForgetOther(stale: seq<Key>, k: Key, other: Key, newer: int)
    requires Remembers(stale, k, newer) && other != k
    ensures Remembers(Forgotten(stale, other), k, newer)
  {
    var i :| 0 <= i < |stale| && stale[i] == k && |stale| - 1 - i <= newer;
    var p := Position(stale, other);
    if p < |stale| {
      DropAt(stale, p);
      assert Forgotten(stale, other)[if i < p then i else i - 1] == k;
    }
  }

  lemma RetireOther(stale: seq<Key>, k: Key, other: Key, newer: int, limit: nat)
    requires Remembers(stale, k, newer) && newer + 1 < limit
    ensures Remembers(Retired(stale, other, limit), k, newer + 1)
  {
    var i :| 0 <= i < |stale| && stale[i] == k && |stale| - 1 - i <= newer;
    var more := stale + [other];
    if other !in stale {
      assert more[i] == k;
      var cut := if |more| <= limit then 0 else |more| - limit;
      assert Bounded(more, limit) == more[cut..];
      assert more[cut..][i - cut] == k;
    }
  }

  /** An operation that neither reuses the key nor discards the memory. */
  predicate Spares<C>(op: Op<C>, k: Key) {
    match op
    case DoRegister(k', _, _) => k' != k
    case DoCancelAll(remember, _) => remember
    case _ => true
  }

  lemma CancelKeeps<C>(r: Reg<C>, k: Key, k': Key, remember: bool, newer: nat)
    requires Inv(r) && Remembers(r.stale, k, newer)
    requires newer + |Cancel(r, k', remember).log| - |r.log| < r.limit
    ensures Cancel(r, k', remember).limit == r.limit && |Cancel(r, k', remember).log| >= |r.log|
    ensures Remembers(Cancel(r, k', remember).stale, k, newer + |Cancel(r, k', remember).log| - |r.log|)
  {
    if k' in r.pending && remember {
      RetireOther(r.stale, k, k', newer, r.limit);
    }
  }

  /** Retirements only ever add to the log. */
  lemma {:induction false} CancelAllLog<C>(r: Reg<C>, remember: bool, order: seq<Key>)
    ensures |CancelAll(r, remember, order).log| >= |r.log|
    decreases |order|
  {
    if order == [] {
    } else {
      CancelAllLog(Cancel(r, order[0], remember), remember, order[1..]);
    }
  }

  lemma {:induction false} CancelAllKeeps<C>(r: Reg<C>, k: Key, order: seq<Key>, newer: nat)
    requires Inv(r) && Remembers(r.stale, k, newer)
    requires newer + |CancelAll(r, true, order).log| - |r.log| < r.limit
    ensures var d := CancelAll(r, true, order);
            d.limit == r.limit && |d.log| >= |r.log| && Remembers(d.stale, k, newer + |d.log| - |r.log|)
    decreases |order|
  {
    if order == [] {
    } else {
      var mid := Cancel(r, order[0], true);
      CancelAllLog(mid, true, order[1..]);
      CancelInv(r, order[0], true);
      CancelKeeps(r, k, order[0], true, newer);
      CancelAllKeeps(mid, k, order[1..], newer + |mid.log| - |r.log|);
    }
  }

  lemma ApplyKeeps<C>(r: Reg<C>, k: Key, op: Op<C>, newer: nat)
    requires Inv(r) && Remembers(r.stale, k, newer) && Spares(op, k)
    requires newer + |Apply(r, op).log| - |r.log| < r.limit
    ensures var d := Apply(r, op);
            d.limit == r.limit && |d.log| >= |r.log| && Remembers(d.stale, k, newer + |d.log| - |r.log|)
  {
    match op
    case DoRegister(k', _, _) => ForgetOther(r.stale, k, k', newer);
    case DoPop(k') =>
      if k' in r.pending {
        assert Retire(r, k', true).log == Cancel(r, k', true).log;
        CancelKeeps(r, k, k', true, newer);
        assert Pop(r, k').stale == Cancel(r, k', true).stale;
      }
    case DoExpire(k') =>
      if k' in r.pending {
        CancelKeeps(r, k, k', true, newer);
        assert Expire(r, k').stale == Cancel(r, k', true).stale;
      }
    case DoCancel(k', remember) => CancelKeeps(r, k, k', remember, newer);
    case DoCancelAll(remember, order) => CancelAllKeeps(r, k, order, newer);
  }

  lemma LogGrows<C>(r: Reg<C>, op: Op<C>)
    ensures |Apply(r, op).log| >= |r.log|
  {
    if op.DoCancelAll? {
      CancelAllLog(r, op.remember, op.order);
    }
  }

  lemma {:induction false} RunLogGrows<C>(r: Reg<C>, ops: seq<Op<C>>)
    ensures |Run(r, ops).log| >= |r.log|
    decreases |ops|
  {
    if ops == [] {
    } else {
      LogGrows(r, ops[0]);
      RunLogGrows(Apply(r, ops[0]), ops[1..]);
    }
  }

  lemma {:induction false} RunKeeps<C>(r: Reg<C>, k: Key, ops: seq<Op<C>>, newer: nat)
    requires Inv(r) && Remembers(r.stale, k, newer)
    requires forall i | 0 <= i < |ops| :: Spares(ops[i], k)
    requires newer + |Run(r, ops).log| - |r.log| < r.limit
    ensures k in Run(r, ops).stale
    decreases |ops|
  {
    if ops == [] {
      var i :| 0 <= i < |r.stale| && r.stale[i] == k;
    } else {
      var mid := Apply(r, ops[0]);
      RunLogGrows(mid, ops[1..]);
      LogGrows(r, ops[0]);
      ApplyInv(r, ops[0]);
      ApplyKeeps(r, k, ops[0], newer);
      RunKeeps(mid, k, ops[1..], newer + |mid.log| - |r.log|);
    }
  }

  /** A key that expired, or was matched, is recognised as stale until
      `limit` other keys have been retired, unless it is registered anew or
      the session is reset. */
  lemma RetiredKeyIsRemembered<C>(r: Reg<C>, k: Key, ops: seq<Op<C>>)
    requires Inv(r) && k in r.pending
    requires forall i | 0 <= i < |ops| :: Spares(ops[i], k)
    requires |Run(Expire(r, k), ops).log| - |Expire(r, k).log| < r.limit
    ensures k in Run(Expire(r, k), ops).stale
  {
    ExpireInv(r, k);
    RetireAppends(r, k);
    var d := Expire(r, k);
    assert d.stale[|d.stale| - 1] == k;
    assert Remembers(d.stale, k, 0);
    RunKeeps(d, k, ops, 0);
  }

  // --------------------------------------------------------------- the class

  lemma SoleMatches<C>(r: Reg<C>, name: Name, k: Key, matches: set<Key>)
    requires IsSole(r, name, k) && forall k' :: k' in matches <==> k' in r.pending && k'.name == name
    ensures |matches| == 1
  {
    assert matches == {k};
  }

  /** The cancellations of cancel_all, one key after another. */
  function Cancelled<C>(r: Reg<C>, remember: bool, order: seq<Key>): Reg<C>
    decreases |order|
  {
    if order == [] then r
    else Cancel(Cancelled(r, remember, order[..|order| - 1]), order[|order| - 1], remember)
  }

  lemma {:induction false} CancelledCons<C>(r: Reg<C>, remember: bool, order: seq<Key>)
    requires order != []
    ensures Cancelled(r, remember, order) == Cancelled(Cancel(r, order[0], remember), remember, order[1..])
    decreases |order|
  {
    if |order| > 1 {
      var n := |order| - 1;
      CancelledCons(r, remember, order[..n]);
      assert order[..n][1..] == order[1..][..n - 1] && order[..n][0] == order[0];
    } else {
      assert order[..0] == [] && order[1..] == [];
    }
  }

  lemma {:induction false} CancelAllSnoc<C>(r: Reg<C>, remember: bool, order: seq<Key>)
    ensures CancelAll(r, remember, order) ==
            if remember then Cancelled(r, remember, order)
            else Cancelled(r, remember, order).(stale := [], stamps := [])
    decreases |order|
  {
    if order == [] {
    } else {
      CancelledCons(r, remember, order);
      CancelAllSnoc(Cancel(r, order[0], remember), remember, order[1..]);
    }
  }

  /** `order` is the keys of a dictionary, each once, and `values` its
      requests with their timers cancelled. */
  ghost predicate Lists<C>(pending: map<Key, Request<C>>, order: seq<Key>, values: seq<Request<C>>) {
    && Distinct(order) && |values| == |order| && (forall k :: k in order <==> k in pending)
    && (forall i | 0 <= i < |order| :: order[i] in pending && values[i] == pending[order[i]].(armed := false))
  }

  lemma {:induction false} CancelledPending<C>(r: Reg<C>, remember: bool, order: seq<Key>)
    ensures forall k :: k in Cancelled(r, remember, order).pending <==> k in r.pending && k !in order
    decreases |order|
  {
    if order == [] {
    } else {
      CancelledPending(r, remember, order[..|order| - 1]);
    }
  }

  class PendingRequestRegistry<C> {
    var pending: map<Key, Request<C>>
    var stale: seq<Key>
    var staleSet: set<Key>
    const staleLimit: nat
    ghost var log: seq<Key>
    ghost var stamps: seq<nat>
    ghost var registered: nat
    ghost var matched: nat
    ghost var expired: nat
    ghost var cancelled: nat

    ghost function View(): Reg<C>
      reads this
    {
      Reg(pending, stale, staleLimit, log, stamps, registered, matched, expired, cancelled)
    }

    /** The list and the set of stale keys have the same elements. */
    ghost predicate Valid()
      reads this
    {
      Inv(View()) && forall k :: k in staleSet <==> k in stale
    }

    constructor (staleLimit: int)
      ensures Valid() && View() == Fresh(if staleLimit >= 1 then staleLimit else 1)
    {
      pending, stale, staleSet := map[], [], {};
      this.staleLimit := if staleLimit >= 1 then staleLimit else 1;
      log, stamps, registered, matched, expired, cancelled := [], [], 0, 0, 0, 0;
    }

    method RememberStale(k: Key)
      requires (forall x :: x in staleSet <==> x in stale) && Distinct(stale) && |stale| <= staleLimit
      requires |stamps| == |stale| && staleLimit >= 1
      modifies this`stale, this`staleSet, this`log, this`stamps
      ensures View() == Remember(old(View()), k)
      ensures forall x :: x in staleSet <==> x in stale
    {
      if k in staleSet {
        return;
      }
      stale := stale + [k];
      staleSet := staleSet + {k};
      log, stamps := log + [k], stamps + [|log|];
      ghost var grown, grownStamps := stale, stamps;
      assert Distinct(grown);
      ghost var cut := 0;
      while |stale| > staleLimit
        invariant cut > 0 ==> |stale| >= staleLimit
        invariant log == old(log) + [k]
        invariant 0 <= cut <= |grown| && stale == grown[cut..] && stamps == grownStamps[cut..]
        invariant forall x :: x in staleSet <==> x in stale
        decreases |stale|
      {
        var first := stale[0];
        assert grown[cut] == first;
        assert stale == [first] + stale[1..];
        assert first !in stale[1..] by {
          assert forall j | 0 <= j < |stale[1..]| :: stale[1..][j] == grown[cut + 1 + j];
        }
        stale := stale[1..];
        stamps := stamps[1..];
        staleSet := staleSet - {first};
        cut := cut + 1;
      }
      assert stale == Bounded(grown, staleLimit) && stamps == Bounded(grownStamps, staleLimit);
    }

    method RegisterRequest(k: Key, callback: C, timed: bool) returns (ok: bool)
      requires Valid()
      modifies this
      ensures Valid() && View() == Register(old(View()), k, callback, timed)
      ensures ok <==> k !in old(pending)
    {
      if k in pending {
        return false;
      }
      RegisterInv(View(), k, callback, timed);
      ForgetStale(k);
      pending := pending[k := Request(k, callback, timed)];
      registered := registered + 1;
      ok := true;
    }

    /** A registered key is no longer stale. */
    method ForgetStale(k: Key)
      requires (forall x :: x in staleSet <==> x in stale) && Distinct(stale) && |stamps| == |stale|
      modifies this`stale, this`staleSet, this`stamps
      ensures forall x :: x in staleSet <==> x in stale
      ensures stale == Drop(old(stale), Position(old(stale), k))
      ensures stamps == Drop(old(stamps), Position(old(stale), k))
    {
      DropElements(stale, k);
      staleSet := staleSet - {k};
      var i := Position(stale, k);
      if k in stale {
        stale := Drop(stale, i);
        stamps := Drop(stamps, i);
      }
    }

    /** A pending request is taken out and its timer cancelled. */
    method TakeOut(k: Key, remember: bool) returns (r: Request<C>)
      requires Valid() && k in pending
      modifies this`pending, this`stale, this`staleSet, this`log, this`stamps
      ensures View() == Retire(old(View()), k, remember) && r == old(pending)[k].(armed := false)
      ensures forall x :: x in staleSet <==> x in stale
    {
      r := pending[k].(armed := false);
      pending := pending - {k};
      if remember {
        RememberStale(k);
      }
    }

    /** `pop`: an exact match is taken out. */
    method PopRequest(k: Key) returns (r: Option<Request<C>>)
      requires Valid()
      modifies this
      ensures Valid() && View() == Pop(old(View()), k)
      ensures r == if k in old(pending) then Some(old(pending)[k].(armed := false)) else None
    {
      if k !in pending {
        return None;
      }
      PopInv(View(), k);
      var request := TakeOut(k, true);
      matched := matched + 1;
      r := Some(request);
    }

    /** The registry half of `_expire`; the callback runs afterwards. */
    method ExpireRequest(k: Key) returns (r: Option<Request<C>>)
      requires Valid()
      modifies this
      ensures Valid() && View() == Expire(old(View()), k)
      ensures r == if k in old(pending) then Some(old(pending)[k].(armed := false)) else None
    {
      if k !in pending {
        return None;
      }
      ExpireInv(View(), k);
      var request := TakeOut(k, true);
      expired := expired + 1;
      r := Some(request);
    }

    method CancelRequest(k: Key, remember: bool) returns (r: Option<Request<C>>)
      requires Valid()
      modifies this
      ensures Valid() && View() == Cancel(old(View()), k, remember)
      ensures r == if k in old(pending) then Some(old(pending)[k].(armed := false)) else None
    {
      if k !in pending {
        return None;
      }
      CancelInv(View(), k, remember);
      var request := TakeOut(k, remember);
      cancelled := cancelled + 1;
      r := Some(request);
    }

    /** `pop_response_type`: only when exactly one request expects the type. */
    method PopResponseType(name: Name) returns (r: Option<Request<C>>)
      requires Valid()
      modifies this
      ensures Valid()
      ensures forall k :: IsSole(old(View()), name, k) ==>
                View() == Pop(old(View()), k) && r == Some(old(pending)[k].(armed := false))
      ensures (forall k :: !IsSole(old(View()), name, k)) ==> View() == old(View()) && r == None
    {
      var matches := set k | k in pending && k.name == name;
      forall k
        ensures IsSole(View(), name, k) ==> |matches| == 1
      {
        if IsSole(View(), name, k) {
          SoleMatches(View(), name, k, matches);
        }
      }
      if |matches| != 1 {
        return None;
      }
      var k :| k in matches;
      assert matches == {k} by {
        assert |matches - {k}| == 0;
      }
      assert IsSole(View(), name, k) by {
        forall k' | k' in pending && k'.name == name ensures k' == k { assert k' in matches; }
      }
      r := PopRequest(k);
    }

    /** The pending requests, in the order of the dictionary, which may be any. */
    method PendingRequests() returns (order: seq<Key>, values: seq<Request<C>>)
      ensures Lists(pending, order, values)
    {
      order, values := [], [];
      var todo := pending.Keys;
      while todo != {}
        invariant todo <= pending.Keys && Distinct(order) && |values| == |order|
        invariant forall k :: k in order <==> k in pending && k !in todo
        invariant forall i | 0 <= i < |order| :: order[i] in pending && values[i] == pending[order[i]].(armed := false)
        decreases todo
      {
        var k :| k in todo;
        order, values, todo := order + [k], values + [pending[k].(armed := false)], todo - {k};
      }
    }

    /** `cancel_all`: everything pending is cancelled, and returned. */
    method CancelAllRequests(remember: bool) returns (values: seq<Request<C>>, ghost order: seq<Key>)
      requires Valid()
      modifies this
      ensures Valid() && View() == CancelAll(old(View()), remember, order)
      ensures Lists(old(pending), order, values)
      ensures pending == map[] && (!remember ==> stale == [])
    {
      var keys;
      keys, values := PendingRequests();
      order := keys;
      CancelEach(keys, remember);
      CancelledPending(old(View()), remember, keys);
      assert pending == map[];
      CancelAllSnoc(old(View()), remember, keys);
      CancelAllInv(old(View()), remember, keys);
      if !remember {
        stale, staleSet, stamps := [], {}, [];
      }
    }

    method CancelEach(keys: seq<Key>, remember: bool)
      requires Valid()
      modifies this
      ensures Valid() && View() == Cancelled(old(View()), remember, keys)
    {
      for i := 0 to |keys|
        invariant Valid() && View() == Cancelled(old(View()), remember, keys[..i])
      {
        var _ := CancelRequest(keys[i], remember);
        assert keys[..i + 1][..i] == keys[..i];
      }
      assert keys[..|keys|] == keys;
    }

    method Contains(k: Key) returns (b: bool)
      ensures b <==> k in pending
    {
      b := k in pending;
    }

    method HasResponseType(name: Name) returns (b: bool)
      ensures b <==> exists k :: k in pending && k.name == name
    {
      b := exists k :: k in pending && k.name == name;
    }

    method IsStale(k: Key) returns (b: bool)
      requires Valid()
      ensures b <==> k in stale
    {
      b := k in staleSet;
    }
  }
}
