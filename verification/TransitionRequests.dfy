/**
 A configuration transition whose requests go through request/response
 correlation: its callbacks are those of the transition table, and each answer
 or timeout is a completion of the one request it waits for. That every request
 of a transition is answered or times out at most once, and that the next one is
 sent by its completion, is derived here.
 */
module TransitionRequests {
  import opened Prelude
  import R = Registry
  import C = Correlation
  import T = Transaction

  // ------------------------------------------------- the requests of a transition

  /** The response that each point waits for. */
  function NameOf(p: T.Point): R.Name
    requires !p.Done?
  {
    match p
    case StopAccess => "DELETE_ACCESSSPEC_RESPONSE"
    case StopROSpec | DeleteReplacement => "DELETE_ROSPEC_RESPONSE"
    case SetNext | SetPrev => "SET_READER_CONFIG_RESPONSE"
    case AddNext | AddPrev => "ADD_ROSPEC_RESPONSE"
    case EnableNext | EnablePrev => "ENABLE_ROSPEC_RESPONSE"
  }

  predicate IsOurs(n: R.Name) {
    || n == "DELETE_ACCESSSPEC_RESPONSE" || n == "DELETE_ROSPEC_RESPONSE" || n == "SET_READER_CONFIG_RESPONSE"
    || n == "ADD_ROSPEC_RESPONSE" || n == "ENABLE_ROSPEC_RESPONSE"
  }

  /** What decides which request comes next. */
  datatype Control = Control(point: T.Point, nextApplied: bool, added: bool)

  function ControlOf(w: T.World): Control {
    Control(w.point, w.nextApplied, w.client.added)
  }

  /** Some world with this control. */
  function Canonical(e: T.Env, k: Control): T.World {
    T.World(T.Client(e.prev, e.prev, T.OtherState, None, k.added, false, None, None, 0),
            k.point, k.nextApplied, T.Pending, 0, T.Reader(map[], []))
  }

  /** The control after a completion, by the transition table. */
  function Next(e: T.Env, k: Control, ok: bool): Control {
    ControlOf(T.Complete(e, Canonical(e, k), ok))
  }

  lemma NextDescends(e: T.Env, k: Control, ok: bool)
    requires !k.point.Done?
    ensures T.Rank(Next(e, k, ok).point) < T.Rank(k.point)
  {
  }

  lemma UndoControl(e: T.Env, w: T.World, c: T.Client, v: T.World, d: T.Client)
    requires w.nextApplied == v.nextApplied && c.added == d.added
    ensures ControlOf(T.Undo(e, w, c)) == ControlOf(T.Undo(e, v, d))
  {
  }

  lemma StoppedControl(e: T.Env, w: T.World, c: T.Client, v: T.World, d: T.Client)
    requires w.nextApplied == v.nextApplied && c.added == d.added
    ensures ControlOf(T.Stopped(e, w, c)) == ControlOf(T.Stopped(e, v, d))
  {
    UndoControl(e, w, T.Installed(T.WithState(c, T.Connected), e.next),
                v, T.Installed(T.WithState(d, T.Connected), e.next));
  }

  /** Where a completion leads depends on the control alone. */
  lemma CompleteControl(e: T.Env, w: T.World, v: T.World, ok: bool)
    requires ControlOf(w) == ControlOf(v)
    ensures ControlOf(T.Complete(e, w, ok)) == ControlOf(T.Complete(e, v, ok))
  {
    if T.IsForward(w.point) {
      ForwardControl(e, w, v, ok);
    } else if T.IsUndo(w.point) {
      BackwardControl(e, w, v, ok);
    }
  }

  lemma BackwardControl(e: T.Env, w: T.World, v: T.World, ok: bool)
    requires ControlOf(w) == ControlOf(v) && T.IsUndo(w.point)
    ensures ControlOf(T.Complete(e, w, ok)) == ControlOf(T.Complete(e, v, ok))
  {
  }

  lemma ForwardControl(e: T.Env, w: T.World, v: T.World, ok: bool)
    requires ControlOf(w) == ControlOf(v) && T.IsForward(w.point)
    ensures ControlOf(T.Complete(e, w, ok)) == ControlOf(T.Complete(e, v, ok))
  {
    if w.point == T.StopROSpec {
      StoppedControl(e, w, w.client.(added := false, rospec := None, generated := None),
                     v, v.client.(added := false, rospec := None, generated := None));
    } else {
      UndoControl(e, w, w.client, v, v.client);
    }
  }

  lemma StepControl(e: T.Env, w: T.World, o: T.Outcome)
    requires !w.point.Done?
    ensures ControlOf(T.Step(e, w, o)) == Next(e, ControlOf(w), o.Success?)
  {
    CompleteControl(e, T.Received(e, w, o), Canonical(e, ControlOf(w)), o.Success?);
  }

  /** The completion callback of the awaited request, by what it sends. */
  function CallbackFor(e: T.Env, k: Control): C.Callback
    requires !k.point.Done?
    decreases T.Rank(k.point), 0
  {
    NextDescends(e, k, true);
    NextDescends(e, k, false);
    C.Callback(0, SendsFor(e, Next(e, k, true)), SendsFor(e, Next(e, k, false)))
  }

  /** The request that a control waits for. */
  function SendsFor(e: T.Env, k: Control): seq<C.Send>
    decreases T.Rank(k.point), 1
  {
    if k.point.Done? then [] else [C.Send(NameOf(k.point), Some(CallbackFor(e, k)), true, false)]
  }

  /** What a completed request goes on to send is what the next control waits for. */
  lemma CompletionSends(e: T.Env, w: T.World, o: T.Outcome)
    requires !w.point.Done?
    ensures SendsFor(e, ControlOf(w)) ==
            [C.Send(NameOf(w.point), Some(CallbackFor(e, ControlOf(w))), true, false)]
    ensures C.SendsOf(Some(CallbackFor(e, ControlOf(w))), o.Success?) == SendsFor(e, ControlOf(T.Step(e, w, o)))
  {
    StepControl(e, w, o);
  }

  // ------------------------------------------------------ everybody else

  /** A request that is not one of a transition, and neither is any that its
      callbacks go on to send. */
  ghost predicate Avoids(s: C.Send)
    decreases s
  {
    && !IsOurs(s.name)
    && (s.callback.Some? ==>
          && (forall i | 0 <= i < |s.callback.value.onSuccess| :: Avoids(s.callback.value.onSuccess[i]))
          && (forall i | 0 <= i < |s.callback.value.onFailure| :: Avoids(s.callback.value.onFailure[i])))
  }

  ghost predicate AllAvoid(sends: seq<C.Send>) {
    forall i | 0 <= i < |sends| :: Avoids(sends[i])
  }

  ghost predicate CallbackAvoids(cb: Option<C.Callback>) {
    cb.Some? ==> AllAvoid(cb.value.onSuccess) && AllAvoid(cb.value.onFailure)
  }

  /** The pending requests of other names stay away from a transition's. */
  ghost predicate OthersAvoid(c: C.Corr) {
    forall n | n in c.slots && !IsOurs(n) :: CallbackAvoids(c.slots[n].callback)
  }

  /** What a transition can see of a machine. */
  ghost predicate SameForUs(c: C.Corr, d: C.Corr) {
    forall n | IsOurs(n) ::
      && (n in c.slots <==> n in d.slots) && (n in c.slots ==> c.slots[n] == d.slots[n])
      && C.ListedFor(c, n) == C.ListedFor(d, n)
  }

  /** How many of the keys are a transition's. */
  function CountKeys(keys: seq<R.Key>): nat {
    if keys == [] then 0
    else
      var n := |keys| - 1;
      CountKeys(keys[..n]) + if IsOurs(keys[n].name) then 1 else 0
  }

  lemma CountOne(keys: seq<R.Key>, k: R.Key)
    ensures CountKeys(keys + [k]) == CountKeys(keys) + if IsOurs(k.name) then 1 else 0
  {
    assert (keys + [k])[..|keys|] == keys;
  }

  lemma AvoidingSend(c: C.Corr, s: C.Send)
    requires Avoids(s) && OthersAvoid(c)
    ensures var d := C.Transmit(c, s).0;
            OthersAvoid(d) && SameForUs(c, d) && CountKeys(d.sent) == CountKeys(c.sent)
  {
    CountOne(c.sent, R.Key(s.name, NextId(c.lastId)));
  }

  lemma {:induction false} AvoidingPlay(c: C.Corr, sends: seq<C.Send>)
    requires AllAvoid(sends) && OthersAvoid(c)
    ensures var d := C.Play(c, sends).0;
            OthersAvoid(d) && SameForUs(c, d) && CountKeys(d.sent) == CountKeys(c.sent)
    decreases |sends|
  {
    if sends == [] {
    } else {
      AvoidingSend(c, sends[0]);
      AvoidingPlay(C.Transmit(c, sends[0]).0, sends[1..]);
    }
  }

  // ------------------------------------------------ one request at a time

  /** Nothing, or one written request of ours with a callback that goes on so. */
  predicate IsChain(sends: seq<C.Send>) {
    |sends| <= 1 && (sends != [] ==> IsOurs(sends[0].name) && sends[0].written && sends[0].callback.Some?)
  }

  /** The request that `sends` stands for is pending with its callback, and no
      other request of ours is. */
  ghost predicate Waits(sends: seq<C.Send>, c: C.Corr) {
    && IsChain(sends)
    && (forall n | IsOurs(n) && (sends == [] || n != sends[0].name) :: !C.Busy(c, n))
    && (sends != [] ==> sends[0].name in c.slots && c.slots[sends[0].name].callback == sends[0].callback)
  }

  ghost predicate NoneBusy(c: C.Corr) {
    forall n | IsOurs(n) :: !C.Busy(c, n)
  }

  /** No request of ours is out: the next one is sent. */
  lemma SendNext(next: seq<C.Send>, d: C.Corr)
    requires IsChain(next) && OthersAvoid(d) && NoneBusy(d)
    ensures var (f, raised) := C.Play(d, next);
            && !raised && Waits(next, f) && OthersAvoid(f) && CountKeys(f.sent) == CountKeys(d.sent) + |next|
  {
    if next != [] {
      var s := next[0];
      assert !C.Busy(d, s.name);
      CountOne(d.sent, R.Key(s.name, NextId(d.lastId)));
      assert next[1..] == [];
      assert C.Play(d, next) == C.Transmit(d, s);
    }
  }

  /** The final test on a list leaves the awaited request pending. */
  lemma TidyWaits(sends: seq<C.Send>, c: C.Corr, n: R.Name, attached: bool)
    requires Waits(sends, c) && OthersAvoid(c)
    ensures Waits(sends, C.Tidy(c, n, attached)) && OthersAvoid(C.Tidy(c, n, attached))
  {
    var d := C.Tidy(c, n, attached);
    forall m | IsOurs(m) && (sends == [] || m != sends[0].name)
      ensures !C.Busy(d, m)
    {
      assert !C.Busy(c, m);
    }
  }

  /** The awaited request leaves registry and list, and nothing of ours is left. */
  lemma TakenIsFree(sends: seq<C.Send>, c: C.Corr, k: R.Key, ok: bool)
    requires Waits(sends, c) && OthersAvoid(c) && C.ListingsOwned(c)
    requires sends != [] && C.Awaits(c, k) && k.name == sends[0].name
    ensures var d := C.Taken(c, k, ok); OthersAvoid(d) && NoneBusy(d) && d.sent == c.sent
  {
    var d := C.Taken(c, k, ok);
    forall n | IsOurs(n)
      ensures !C.Busy(d, n)
    {
      if n == k.name {
        assert n in c.lists && c.lists[n].Some? ==> C.ListingOwned(c.slots, c.expiring, n, c.lists[n].value);
      } else {
        assert !C.Busy(c, n);
      }
    }
  }

  lemma OwnAnswer(sends: seq<C.Send>, next: seq<C.Send>, c: C.Corr, k: R.Key, ok: bool)
    requires Waits(sends, c) && OthersAvoid(c) && C.ListingsOwned(c)
    requires sends != [] && C.Awaits(c, k) && k.name == sends[0].name
    requires IsChain(next) && C.SendsOf(sends[0].callback, ok) == next
    ensures var d := C.Answered(c, k, ok).0;
            Waits(next, d) && OthersAvoid(d) && CountKeys(d.sent) == CountKeys(c.sent) + |next|
  {
    var t := C.Taken(c, k, ok);
    TakenIsFree(sends, c, k, ok);
    SendNext(next, t);
    TidyWaits(next, C.Play(t, next).0, k.name, k.name in c.lists && !C.Unlists(t, k.name, next));
  }

  /** The same when the expiry of the awaited request has taken it out. */
  lemma UnlistedIsFree(sends: seq<C.Send>, c: C.Corr, k: R.Key)
    requires Waits(sends, c) && OthersAvoid(c) && C.ListingsOwned(c)
    requires sends != [] && C.Awaits(c, k) && k.name == sends[0].name
    ensures var d := C.Unlisted(C.ExpiryBegun(c, k), c.begun); OthersAvoid(d) && NoneBusy(d) && d.sent == c.sent
  {
    var d := C.Unlisted(C.ExpiryBegun(c, k), c.begun);
    forall n | IsOurs(n)
      ensures !C.Busy(d, n)
    {
      if n == k.name {
        assert n in c.lists && c.lists[n].Some? ==> C.ListingOwned(c.slots, c.expiring, n, c.lists[n].value);
      } else {
        assert !C.Busy(c, n);
      }
    }
  }

  lemma OwnTimeout(sends: seq<C.Send>, next: seq<C.Send>, c: C.Corr, k: R.Key)
    requires Waits(sends, c) && OthersAvoid(c) && C.ListingsOwned(c)
    requires sends != [] && C.Awaits(c, k) && k.name == sends[0].name
    requires IsChain(next) && C.SendsOf(sends[0].callback, false) == next
    ensures var d := C.Step(c, C.Timeout(k));
            Waits(next, d) && OthersAvoid(d) && CountKeys(d.sent) == CountKeys(c.sent) + |next|
  {
    UnlistedIsFree(sends, c, k);
    SendNext(next, C.Unlisted(C.ExpiryBegun(c, k), c.begun));
  }

  lemma SameWaits(sends: seq<C.Send>, c: C.Corr, d: C.Corr)
    requires Waits(sends, c) && SameForUs(c, d)
    ensures Waits(sends, d)
  {
  }

  lemma TakenOther(c: C.Corr, k: R.Key, ok: bool)
    requires OthersAvoid(c) && C.Awaits(c, k) && !IsOurs(k.name)
    ensures var t := C.Taken(c, k, ok);
            OthersAvoid(t) && SameForUs(c, t) && t.sent == c.sent && AllAvoid(C.SendsOf(c.slots[k.name].callback, ok))
  {
  }

  /** A response to somebody else's request. */
  lemma OtherAnswer(sends: seq<C.Send>, c: C.Corr, k: R.Key, ok: bool)
    requires Waits(sends, c) && OthersAvoid(c) && C.Awaits(c, k) && !IsOurs(k.name)
    ensures var d := C.Answered(c, k, ok).0;
            Waits(sends, d) && OthersAvoid(d) && CountKeys(d.sent) == CountKeys(c.sent)
  {
    var t, others := C.Taken(c, k, ok), C.SendsOf(c.slots[k.name].callback, ok);
    TakenOther(c, k, ok);
    AvoidingPlay(t, others);
    var f := C.Play(t, others).0;
    SameWaits(sends, c, t);
    SameWaits(sends, t, f);
    TidyWaits(sends, f, k.name, k.name in c.lists && !C.Unlists(t, k.name, others));
  }

  lemma UnlistedOther(c: C.Corr, k: R.Key)
    requires OthersAvoid(c) && C.Awaits(c, k) && !IsOurs(k.name)
    ensures var u := C.Unlisted(C.ExpiryBegun(c, k), c.begun);
            && OthersAvoid(u) && SameForUs(c, u) && u.sent == c.sent
            && AllAvoid(C.SendsOf(c.slots[k.name].callback, false))
  {
  }

  lemma OtherTimeout(sends: seq<C.Send>, c: C.Corr, k: R.Key)
    requires Waits(sends, c) && OthersAvoid(c) && C.Awaits(c, k) && !IsOurs(k.name)
    ensures var d := C.Step(c, C.Timeout(k));
            Waits(sends, d) && OthersAvoid(d) && CountKeys(d.sent) == CountKeys(c.sent)
  {
    var u, others := C.Unlisted(C.ExpiryBegun(c, k), c.begun), C.SendsOf(c.slots[k.name].callback, false);
    UnlistedOther(c, k);
    AvoidingPlay(u, others);
    SameWaits(sends, c, u);
    SameWaits(sends, u, C.Play(u, others).0);
  }

  // ------------------------------------------------------- one event for both

  /** Whether an event completes the request of ours that is pending, and how. */
  function CompletionOf(sends: seq<C.Send>, c: C.Corr, ev: C.Event): Option<bool> {
    if sends == [] then None
    else
      match ev
      case Response(k, ok, dispatched) =>
        if dispatched && !C.Guarded(c, k) && C.Awaits(c, k) && k.name == sends[0].name then Some(ok) else None
      case Timeout(k) => if C.Awaits(c, k) && k.name == sends[0].name then Some(false) else None
      case _ => None
  }

  /** The request of ours to wait for after an event. */
  function NextSends(sends: seq<C.Send>, completion: Option<bool>): seq<C.Send> {
    if sends == [] || completion.None? then sends else C.SendsOf(sends[0].callback, completion.value)
  }

  /** What an event leaves, and the requests of ours that it sends. */
  ghost predicate StepsTo(sends: seq<C.Send>, c: C.Corr, ev: C.Event) {
    var completion, d := CompletionOf(sends, c, ev), C.Step(c, ev);
    var next := NextSends(sends, completion);
    && Waits(next, d) && OthersAvoid(d)
    && CountKeys(d.sent) == CountKeys(c.sent) + if completion.None? then 0 else |next|
  }

  /** The events of a session that lasts: expiries in one step, no reset, and
      no request of a transition's names from anybody else. */
  ghost predicate Allowed(ev: C.Event) {
    C.IsAtomic(ev) && !ev.Reset? && (ev.Request? ==> Avoids(ev.send))
  }

  /** A key of ours that is awaited is the one that is waited for. */
  lemma OursIsAwaited(sends: seq<C.Send>, c: C.Corr, k: R.Key)
    requires Waits(sends, c) && C.Awaits(c, k)
    ensures IsOurs(k.name) <==> sends != [] && k.name == sends[0].name
  {
    assert C.Busy(c, k.name);
  }

  lemma ResponseSteps(sends: seq<C.Send>, c: C.Corr, k: R.Key, ok: bool, dispatched: bool)
    requires Waits(sends, c) && OthersAvoid(c) && C.ListingsOwned(c) && c.expiring == map[]
    requires sends != [] ==> IsChain(C.SendsOf(sends[0].callback, ok))
    ensures StepsTo(sends, c, C.Response(k, ok, dispatched))
  {
    if dispatched && !C.Guarded(c, k) {
      if !C.Awaits(c, k) {
        C.FreeIsUnlisted(c, k.name);
        TidyWaits(sends, c, k.name, true);
      } else {
        OursIsAwaited(sends, c, k);
        if IsOurs(k.name) {
          OwnAnswer(sends, C.SendsOf(sends[0].callback, ok), c, k, ok);
        } else {
          OtherAnswer(sends, c, k, ok);
        }
      }
    }
  }

  lemma TimeoutSteps(sends: seq<C.Send>, c: C.Corr, k: R.Key)
    requires Waits(sends, c) && OthersAvoid(c) && C.ListingsOwned(c)
    requires sends != [] ==> IsChain(C.SendsOf(sends[0].callback, false))
    ensures StepsTo(sends, c, C.Timeout(k))
  {
    if C.Awaits(c, k) {
      OursIsAwaited(sends, c, k);
      if IsOurs(k.name) {
        OwnTimeout(sends, C.SendsOf(sends[0].callback, false), c, k);
      } else {
        OtherTimeout(sends, c, k);
      }
    }
  }

  lemma LookedIsSame(c: C.Corr, n: R.Name)
    requires OthersAvoid(c)
    ensures var d := C.Looked(c, n); SameForUs(c, d) && OthersAvoid(d) && d.sent == c.sent
  {
  }

  lemma EventSteps(sends: seq<C.Send>, c: C.Corr, ev: C.Event)
    requires Waits(sends, c) && OthersAvoid(c) && C.ListingsOwned(c) && c.expiring == map[] && Allowed(ev)
    requires sends != [] ==> IsChain(C.SendsOf(sends[0].callback, true)) && IsChain(C.SendsOf(sends[0].callback, false))
    ensures StepsTo(sends, c, ev)
  {
    match ev
    case Request(s) =>
      AvoidingSend(c, s);
      SameWaits(sends, c, C.Transmit(c, s).0);
    case Response(k, ok, dispatched) => ResponseSteps(sends, c, k, ok, dispatched);
    case Timeout(k) => TimeoutSteps(sends, c, k);
    case Look(n) =>
      LookedIsSame(c, n);
      SameWaits(sends, c, C.Looked(c, n));
  }

  // ------------------------------------------------- the transition and the machine

  function Awaited(e: T.Env, w: T.World): seq<C.Send> {
    SendsFor(e, ControlOf(w))
  }

  ghost predicate Sound(c: C.Corr) {
    C.CInv(c) && C.NoFallback(c) && OthersAvoid(c)
  }

  /** The transition waits for exactly the request of ours that is pending. */
  ghost predicate Joined(e: T.Env, w: T.World, c: C.Corr) {
    Waits(Awaited(e, w), c) && Sound(c)
  }

  /** What an event is to the transition: an answer to the awaited request, its
      timeout, which may come after the request took effect, or nothing. */
  function OutcomeOf(e: T.Env, w: T.World, c: C.Corr, ev: C.Event, applied: bool): Option<T.Outcome> {
    var completion := CompletionOf(Awaited(e, w), c, ev);
    if completion.None? then None
    else if ev.Timeout? then Some(T.Timeout(applied))
    else Some(if completion.value then T.Success else T.Failure)
  }

  function StepWorld(e: T.Env, w: T.World, o: Option<T.Outcome>): T.World {
    if o.None? then w else T.Step(e, w, o.value)
  }

  lemma AwaitedIsChain(e: T.Env, w: T.World)
    ensures IsChain(Awaited(e, w)) && (Awaited(e, w) == [] <==> w.point.Done?)
  {
  }

  /** The table's next request is the one that the callback sends. */
  lemma AwaitedNext(e: T.Env, w: T.World, o: T.Outcome)
    requires !w.point.Done?
    ensures C.SendsOf(Awaited(e, w)[0].callback, o.Success?) == Awaited(e, T.Step(e, w, o))
    ensures IsChain(Awaited(e, T.Step(e, w, o)))
  {
    CompletionSends(e, w, o);
    AwaitedIsChain(e, T.Step(e, w, o));
  }

  lemma JoinedStep(e: T.Env, w: T.World, c: C.Corr, ev: C.Event, applied: bool)
    requires Joined(e, w, c) && Allowed(ev)
    ensures var o := OutcomeOf(e, w, c, ev, applied);
            var w', d := StepWorld(e, w, o), C.Step(c, ev);
            && Joined(e, w', d)
            && CountKeys(d.sent) == CountKeys(c.sent) + (if o.None? then 0 else |Awaited(e, w')|)
            && (w.point.Done? ==> o.None?)
  {
    AwaitedGoesOn(e, w);
    SoundStep(c, ev);
    EventSteps(Awaited(e, w), c, ev);
    OutcomeFollows(e, w, c, ev, applied);
  }

  /** The table's step and the callback's agree on the request to wait for. */
  lemma OutcomeFollows(e: T.Env, w: T.World, c: C.Corr, ev: C.Event, applied: bool)
    ensures var completion, o := CompletionOf(Awaited(e, w), c, ev), OutcomeOf(e, w, c, ev, applied);
            && (o.None? <==> completion.None?) && (w.point.Done? ==> o.None?)
            && NextSends(Awaited(e, w), completion) == Awaited(e, StepWorld(e, w, o))
  {
    AwaitedIsChain(e, w);
    var o := OutcomeOf(e, w, c, ev, applied);
    if o.Some? {
      AwaitedNext(e, w, o.value);
    }
  }

  lemma AwaitedGoesOn(e: T.Env, w: T.World)
    ensures Awaited(e, w) == [] <==> w.point.Done?
    ensures !w.point.Done? ==>
              && IsChain(C.SendsOf(Awaited(e, w)[0].callback, true))
              && IsChain(C.SendsOf(Awaited(e, w)[0].callback, false))
  {
    AwaitedIsChain(e, w);
    if !w.point.Done? {
      AwaitedNext(e, w, T.Success);
      AwaitedNext(e, w, T.Failure);
    }
  }

  lemma SoundStep(c: C.Corr, ev: C.Event)
    requires Sound(c) && C.IsAtomic(ev)
    ensures C.CInv(C.Step(c, ev)) && C.NoFallback(C.Step(c, ev)) && C.ListingsOwned(c) && c.expiring == map[]
  {
    C.StepInv(c, ev);
    C.AtomicStep(c, ev);
  }

  // -------------------------------------------------------------------- runs

  /** Events, each with whether a request that times out then took effect. */
  type Events = seq<(C.Event, bool)>

  ghost predicate AllAllowed(es: Events) {
    forall i | 0 <= i < |es| :: Allowed(es[i].0)
  }

  function CorrRun(c: C.Corr, es: Events): C.Corr
    decreases |es|
  {
    if es == [] then c else CorrRun(C.Step(c, es[0].0), es[1..])
  }

  /** The answers and timeouts that the transition sees, in order. */
  function OutcomesOf(e: T.Env, w: T.World, c: C.Corr, es: Events): seq<T.Outcome>
    decreases |es|
  {
    if es == [] then []
    else
      var o := OutcomeOf(e, w, c, es[0].0, es[0].1);
      (if o.None? then [] else [o.value]) + OutcomesOf(e, StepWorld(e, w, o), C.Step(c, es[0].0), es[1..])
  }

  /** How far the transition is after some outcomes: what it waits for, how
      many outcomes there can have been, and how many requests it has sent. */
  ghost predicate HasSeen(e: T.Env, w: T.World, c: C.Corr, n: nat, v: T.World, d: C.Corr) {
    && Joined(e, v, d) && n + T.Rank(v.point) <= T.Rank(w.point)
    && CountKeys(d.sent) + |Awaited(e, w)| == CountKeys(c.sent) + n + |Awaited(e, v)|
  }

  lemma FirstEvent(e: T.Env, w: T.World, c: C.Corr, ev: C.Event, applied: bool)
    requires Joined(e, w, c) && Allowed(ev)
    ensures var o := OutcomeOf(e, w, c, ev, applied);
            HasSeen(e, w, c, if o.None? then 0 else 1, StepWorld(e, w, o), C.Step(c, ev))
  {
    JoinedStep(e, w, c, ev, applied);
    AwaitedIsChain(e, w);
    var o := OutcomeOf(e, w, c, ev, applied);
    if o.Some? {
      StepControl(e, w, o.value);
      NextDescends(e, ControlOf(w), o.value.Success?);
    }
  }

  lemma {:induction false} JoinedRun(e: T.Env, w: T.World, c: C.Corr, es: Events)
    requires Joined(e, w, c) && AllAllowed(es)
    ensures var os := OutcomesOf(e, w, c, es); HasSeen(e, w, c, |os|, T.Run(e, w, os), CorrRun(c, es))
    decreases |es|
  {
    if es == [] {
    } else {
      var o := OutcomeOf(e, w, c, es[0].0, es[0].1);
      var v, d := StepWorld(e, w, o), C.Step(c, es[0].0);
      FirstEvent(e, w, c, es[0].0, es[0].1);
      JoinedRun(e, v, d, es[1..]);
      var rest := OutcomesOf(e, v, d, es[1..]);
      RunAfterFirst(e, w, o, rest);
      SeenTogether(e, w, c, if o.None? then 0 else 1, v, d, |rest|, T.Run(e, v, rest), CorrRun(d, es[1..]));
    }
  }

  lemma SeenTogether(e: T.Env, w: T.World, c: C.Corr, m: nat, v: T.World, d: C.Corr, n: nat, u: T.World, f: C.Corr)
    requires HasSeen(e, w, c, m, v, d) && HasSeen(e, v, d, n, u, f)
    ensures HasSeen(e, w, c, m + n, u, f)
  {
  }

  lemma RunAfterFirst(e: T.Env, w: T.World, o: Option<T.Outcome>, rest: seq<T.Outcome>)
    ensures T.Run(e, w, (if o.None? then [] else [o.value]) + rest) == T.Run(e, StepWorld(e, w, o), rest)
  {
    if o.Some? {
      T.RunCons(e, w, o.value, rest);
    } else {
      assert [] + rest == rest;
    }
  }

  /** A transition through request/response correlation, over any events of a
      lasting session in which nobody else sends its requests. It is the run
      of the transition table over the answers and timeouts of its own
      requests, of which there are at most nine. Until it has ended exactly one
      request of its names is pending, the awaited one with its callback, and
      then none is. Each request that it sent, but the pending one, has brought
      it exactly one outcome. */
  lemma TransitionRuns(e: T.Env, client: T.Client, r: T.Reader, c: C.Corr, es: Events)
    requires T.CanStart(e, client) && Sound(c) && NoneBusy(c) && AllAllowed(es)
    ensures var w0 := T.Begin(e, client, r);
            var c0 := C.Play(c, Awaited(e, w0)).0;
            var os, d := OutcomesOf(e, w0, c0, es), CorrRun(c0, es);
            var w := T.Run(e, w0, os);
            && Waits(Awaited(e, w), d) && |os| <= 9
            && CountKeys(d.sent) == CountKeys(c.sent) + |os| + (if w.point.Done? then 0 else 1)
  {
    var w0 := T.Begin(e, client, r);
    var c0 := Started(e, w0, c);
    JoinedRun(e, w0, c0, es);
    AwaitedIsChain(e, T.Run(e, w0, OutcomesOf(e, w0, c0, es)));
    RankBound(w0.point);
  }

  lemma RankBound(p: T.Point)
    ensures T.Rank(p) <= 9
  {
  }

  lemma Started(e: T.Env, w: T.World, c: C.Corr) returns (c0: C.Corr)
    requires Sound(c) && NoneBusy(c)
    ensures c0 == C.Play(c, Awaited(e, w)).0 && Joined(e, w, c0)
    ensures CountKeys(c0.sent) == CountKeys(c.sent) + |Awaited(e, w)|
  {
    var first := Awaited(e, w);
    c0 := C.Play(c, first).0;
    AwaitedIsChain(e, w);
    SendNext(first, c);
    C.PlayInv(c, first);
    C.PlayKeeps(c, first);
  }
}
