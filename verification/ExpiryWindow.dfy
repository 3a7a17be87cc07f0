/**
 An expiry in its two steps. Between the registry's half and the callback other
 events may happen; what they do to the callback of the expired request, over
 whole runs.
 */
module ExpiryWindow {
  import opened Prelude
  import R = Registry
  import opened Correlation

  /** The completions of one request, in order. */
  function RunsOf(completed: seq<Completion>, serial: nat): seq<Completion> {
    if completed == [] then []
    else
      var n := |completed| - 1;
      RunsOf(completed[..n], serial) + if completed[n].serial == serial then [completed[n]] else []
  }

  lemma RunsOfLogged(completed: seq<Completion>, x: Completion, serial: nat)
    ensures RunsOf(completed + [x], serial) ==
            if x.serial == serial then RunsOf(completed, serial) + [x] else RunsOf(completed, serial)
  {
    assert (completed + [x])[..|completed|] == completed;
  }

  lemma {:induction false} UnfinishedHasNoRuns(completed: seq<Completion>, serial: nat)
    requires !IsFinished(completed, serial)
    ensures RunsOf(completed, serial) == []
  {
    if completed == [] {
    } else {
      var n := |completed| - 1;
      assert completed[n].serial != serial;
      forall i | 0 <= i < n
        ensures completed[..n][i].serial != serial
      {
        assert completed[i].serial != serial;
      }
      UnfinishedHasNoRuns(completed[..n], serial);
    }
  }

  /** The callback of a request whose expiry has begun is still listed. */
  predicate StillListed(c: Corr, x: Expired) {
    ListedFor(c, x.key.name).Some? && ListedFor(c, x.key.name).value.serial == x.serial
  }

  /** A response that handleMessage passes on although the request it might
      have answered has expired. */
  predicate Intrudes(c: Corr, x: Expired, e: Event) {
    e.Response? && e.dispatched && e.key.name == x.key.name && e.key !in c.stale
  }

  /** What takes a callback off its list without running it: a session reset,
      and the end of another expiry of the same name with an equal callback. */
  predicate Withdraws(c: Corr, t: nat, x: Expired, e: Event) {
    || e.Reset?
    || (e.EndExpiry? && e.ticket != t && e.ticket in c.expiring
        && c.expiring[e.ticket].key.name == x.key.name && c.expiring[e.ticket].callback == x.callback)
  }

  lemma {:induction false} PlayListed(c: Corr, sends: seq<Send>, x: Expired)
    requires x.serial < |c.sent|
    ensures StillListed(Play(c, sends).0, x) <==> StillListed(c, x)
    decreases |sends|
  {
    if sends == [] {
    } else {
      PlayListed(Transmit(c, sends[0]).0, sends[1..], x);
    }
  }

  /** What one event leaves of an open window. */
  ghost predicate WindowAfter(c: Corr, t: nat, e: Event, d: Corr)
    requires t in c.expiring
  {
    var x := c.expiring[t];
    && t in d.expiring && d.expiring[t] == x
    && (StillListed(d, x) <==> StillListed(c, x) && !Intrudes(c, x, e) && !Withdraws(c, t, x, e))
    && RunsOf(d.completed, x.serial) ==
       RunsOf(c.completed, x.serial)
       + if StillListed(c, x) && Intrudes(c, x, e) then [Completion(x.serial, e.ok, Fallback(e.key))] else []
  }

  /** Running a callback while a list is held does not touch an open window
      of another name, or one whose callback is not listed. */
  lemma HeldInWindow(c: Corr, x: Expired, n: R.Name, attached: bool, sends: seq<Send>)
    requires x.serial < |c.sent| && (StillListed(c, x) ==> x.key.name != n)
    ensures var d := RunHeld(c, n, attached, sends).0;
            d.expiring == c.expiring && d.completed == c.completed && (StillListed(d, x) <==> StillListed(c, x))
  {
    PlayListed(c, sends, x);
    PlayKeeps(c, sends);
  }

  lemma AnswerInWindow(c: Corr, t: nat, k: R.Key, ok: bool)
    requires t in c.expiring && Awaits(c, k) && WindowNamed(c, c.expiring[t])
    requires StillListed(c, c.expiring[t]) ==> c.expiring[t].key.name !in c.slots
    ensures WindowAfter(c, t, Response(k, ok, true), Answered(c, k, ok).0)
  {
    var x, slot := c.expiring[t], c.slots[k.name];
    assert InSlot(c.slots, slot.serial);
    RunsOfLogged(c.completed, Completion(slot.serial, ok, Answer(k)), x.serial);
    HeldInWindow(Taken(c, k, ok), x, k.name, k.name in c.lists, SendsOf(slot.callback, ok));
  }

  lemma FallbackInWindow(c: Corr, t: nat, k: R.Key, ok: bool)
    requires t in c.expiring && k !in c.stale && WindowNamed(c, c.expiring[t])
    requires ListedFor(c, k.name).Some? && ListedFor(c, k.name).value.serial == c.expiring[t].serial ==>
               c.expiring[t].key.name == k.name
    ensures WindowAfter(c, t, Response(k, ok, true), Unmatched(c, k, ok).0)
  {
    var x := c.expiring[t];
    if ListedFor(c, k.name).Some? {
      var l := c.lists[k.name].value;
      var d := Logged(c.(lists := c.lists[k.name := None]), l.serial, ok, Fallback(k));
      RunsOfLogged(c.completed, Completion(l.serial, ok, Fallback(k)), x.serial);
      HeldInWindow(d, x, k.name, true, SendsOf(Some(l.callback), ok));
    }
  }

  lemma EndInWindow(c: Corr, t: nat, u: nat)
    requires t in c.expiring && u in c.expiring && u != t
    requires WindowNamed(c, c.expiring[t]) && c.expiring[t].serial != c.expiring[u].serial
    requires StillListed(c, c.expiring[t]) ==>
               c.expiring[t].callback == Some(c.lists[c.expiring[t].key.name].value.callback)
    ensures WindowAfter(c, t, EndExpiry(u), ExpiryEnded(c, u).0)
  {
    var x, y := c.expiring[t], c.expiring[u];
    var d, sends := Unlisted(c, u), SendsOf(y.callback, false);
    RunsOfLogged(c.completed, Completion(y.serial, false, TimedOut), x.serial);
    PlayListed(d, sends, x);
    PlayKeeps(d, sends);
  }

  lemma BeginInWindow(c: Corr, t: nat, k: R.Key)
    requires t in c.expiring && c.begun !in c.expiring
    ensures WindowAfter(c, t, BeginExpiry(k), ExpiryBegun(c, k))
  {
  }

  lemma TimeoutInWindow(c: Corr, t: nat, k: R.Key)
    requires t in c.expiring && Awaits(c, k) && WindowNamed(c, c.expiring[t]) && c.begun !in c.expiring
    requires StillListed(c, c.expiring[t]) ==>
               && c.expiring[t].callback == Some(c.lists[c.expiring[t].key.name].value.callback)
               && c.expiring[t].key.name !in c.slots
    ensures WindowAfter(c, t, Timeout(k), Step(c, Timeout(k)))
  {
    var b := ExpiryBegun(c, k);
    assert InSlot(c.slots, c.slots[k.name].serial);
    SlotsShrink(c.slots, k.name, c.expiring[t].serial);
    EndInWindow(b, t, c.begun);
  }

  lemma SlotsShrink(slots: map<R.Name, Slot>, n: R.Name, serial: nat)
    requires !InSlot(slots, serial)
    ensures !InSlot(slots - {n}, serial)
  {
  }

  /** What the invariant says about an open window. */
  lemma OpenWindow(c: Corr, t: nat)
    requires CInv(c) && t in c.expiring
    ensures WindowNamed(c, c.expiring[t])
    ensures forall n | ListedFor(c, n).Some? && ListedFor(c, n).value.serial == c.expiring[t].serial ::
              && n == c.expiring[t].key.name && n !in c.slots
              && c.expiring[t].callback == Some(c.lists[n].value.callback)
    ensures forall u | u in c.expiring && u != t :: c.expiring[u].serial != c.expiring[t].serial
    ensures c.begun !in c.expiring
  {
    var x := c.expiring[t];
    forall n | ListedFor(c, n).Some? && ListedFor(c, n).value.serial == x.serial
      ensures n == x.key.name && n !in c.slots && x.callback == Some(c.lists[n].value.callback)
    {
      var l := c.lists[n].value;
      assert ListingOwned(c.slots, c.expiring, n, l);
      assert forall y | y in c.slots :: InSlot(c.slots, c.slots[y].serial);
      var u :| u in c.expiring && c.expiring[u].serial == l.serial
               && c.expiring[u].callback == Some(l.callback) && c.expiring[u].key.name == n;
      assert u == t;
    }
  }

  lemma ResponseInWindow(c: Corr, t: nat, k: R.Key, ok: bool, dispatched: bool)
    requires CInv(c) && t in c.expiring
    ensures WindowAfter(c, t, Response(k, ok, dispatched), Step(c, Response(k, ok, dispatched)))
  {
    OpenWindow(c, t);
    if dispatched && !Guarded(c, k) {
      if Awaits(c, k) {
        AnswerInWindow(c, t, k, ok);
      } else {
        FallbackInWindow(c, t, k, ok);
      }
    }
  }

  lemma RequestInWindow(c: Corr, t: nat, s: Send)
    requires t in c.expiring && c.expiring[t].serial < |c.sent|
    ensures WindowAfter(c, t, Request(s), Transmit(c, s).0)
  {
  }

  lemma ListsInWindow(c: Corr, t: nat, e: Event)
    requires t in c.expiring && (e.Look? || e.Reset?)
    ensures WindowAfter(c, t, e, Step(c, e))
  {
  }

  lemma ExpiryInWindow(c: Corr, t: nat, e: Event)
    requires CInv(c) && t in c.expiring && e != EndExpiry(t) && (e.BeginExpiry? || e.EndExpiry? || e.Timeout?)
    ensures WindowAfter(c, t, e, Step(c, e))
  {
    OpenWindow(c, t);
    match e
    case BeginExpiry(k) => BeginInWindow(c, t, k);
    case EndExpiry(u) => if u in c.expiring { EndInWindow(c, t, u); }
    case Timeout(k) => if Awaits(c, k) { TimeoutInWindow(c, t, k); }
  }

  /** One event, with a window open that it does not close. */
  lemma WindowStep(c: Corr, t: nat, e: Event)
    requires CInv(c) && t in c.expiring && e != EndExpiry(t)
    ensures WindowAfter(c, t, e, Step(c, e))
  {
    match e
    case Request(s) =>
      assert WindowNamed(c, c.expiring[t]);
      RequestInWindow(c, t, s);
    case Response(k, ok, dispatched) => ResponseInWindow(c, t, k, ok, dispatched);
    case Look(_) => ListsInWindow(c, t, e);
    case Reset => ListsInWindow(c, t, e);
    case _ => ExpiryInWindow(c, t, e);
  }

  /** The completion that the window of an expiry adds, if the callback is
      listed when it opens: that of the first intruding response, unless the
      callback was withdrawn before. */
  function Intrusion(c: Corr, t: nat, x: Expired, es: seq<Event>): seq<Completion>
    decreases |es|
  {
    if es == [] || Withdraws(c, t, x, es[0]) then []
    else if Intrudes(c, x, es[0]) then [Completion(x.serial, es[0].ok, Fallback(es[0].key))]
    else Intrusion(Step(c, es[0]), t, x, es[1..])
  }

  /** The completions that events in a window add. */
  function WindowRuns(c: Corr, t: nat, x: Expired, es: seq<Event>): seq<Completion> {
    if StillListed(c, x) then Intrusion(c, t, x, es) else []
  }

  lemma WindowRunsStep(c: Corr, t: nat, es: seq<Event>)
    requires t in c.expiring && es != [] && WindowAfter(c, t, es[0], Step(c, es[0]))
    ensures var d, x := Step(c, es[0]), c.expiring[t];
            RunsOf(c.completed, x.serial) + WindowRuns(c, t, x, es) ==
            RunsOf(d.completed, x.serial) + WindowRuns(d, t, x, es[1..])
  {
  }

  lemma {:induction false} WindowRun(c: Corr, t: nat, es: seq<Event>)
    requires CInv(c) && t in c.expiring && EndExpiry(t) !in es
    ensures var d, x := Run(c, es), c.expiring[t];
            && t in d.expiring && d.expiring[t] == x
            && RunsOf(d.completed, x.serial) == RunsOf(c.completed, x.serial) + WindowRuns(c, t, x, es)
    decreases |es|
  {
    if es == [] {
    } else {
      StepInv(c, es[0]);
      WindowStep(c, t, es[0]);
      WindowRunsStep(c, t, es);
      WindowRun(Step(c, es[0]), t, es[1..]);
    }
  }

  /** A request that is neither pending nor in a window is never heard of again. */
  ghost predicate Settled(c: Corr, serial: nat) {
    serial < |c.sent| && !InSlot(c.slots, serial) && !InWindow(c.expiring, serial) && !IsListed(c.lists, serial)
  }

  lemma {:induction false} SettledPlay(c: Corr, sends: seq<Send>, serial: nat)
    requires Settled(c, serial)
    ensures Settled(Play(c, sends).0, serial)
    decreases |sends|
  {
    if sends == [] {
    } else {
      SettledSend(c, sends[0], serial);
      SettledPlay(Transmit(c, sends[0]).0, sends[1..], serial);
    }
  }

  lemma SettledSend(c: Corr, s: Send, serial: nat)
    requires Settled(c, serial)
    ensures Settled(Transmit(c, s).0, serial)
  {
  }

  lemma SettledHeld(c: Corr, n: R.Name, attached: bool, sends: seq<Send>, serial: nat)
    requires Settled(c, serial)
    ensures var d := RunHeld(c, n, attached, sends).0; Settled(d, serial) && d.completed == c.completed
  {
    SettledPlay(c, sends, serial);
    PlayKeeps(c, sends);
    NewListing(Play(c, sends).0.lists, n, None, serial);
  }

  lemma SettledProcessed(c: Corr, k: R.Key, ok: bool, serial: nat)
    requires Settled(c, serial)
    ensures var d := Processed(c, k, ok).0;
            Settled(d, serial) && RunsOf(d.completed, serial) == RunsOf(c.completed, serial)
  {
    NewListing(c.lists, k.name, None, serial);
    if Awaits(c, k) {
      var d, slot := Taken(c, k, ok), c.slots[k.name];
      assert InSlot(c.slots, slot.serial);
      RunsOfLogged(c.completed, Completion(slot.serial, ok, Answer(k)), serial);
      SettledHeld(d, k.name, k.name in c.lists, SendsOf(slot.callback, ok), serial);
    } else if k !in c.stale && ListedFor(c, k.name).Some? {
      var l := c.lists[k.name].value;
      assert IsListed(c.lists, l.serial);
      RunsOfLogged(c.completed, Completion(l.serial, ok, Fallback(k)), serial);
      SettledHeld(Logged(c.(lists := c.lists[k.name := None]), l.serial, ok, Fallback(k)),
                  k.name, true, SendsOf(Some(l.callback), ok), serial);
    }
  }

  lemma SettledEnd(c: Corr, t: nat, serial: nat)
    requires Settled(c, serial)
    ensures var d := ExpiryEnded(c, t).0;
            Settled(d, serial) && RunsOf(d.completed, serial) == RunsOf(c.completed, serial)
  {
    if t in c.expiring {
      var d, x := Unlisted(c, t), c.expiring[t];
      assert InWindow(c.expiring, x.serial);
      RunsOfLogged(c.completed, Completion(x.serial, false, TimedOut), serial);
      assert Settled(d, serial);
      SettledPlay(d, SendsOf(x.callback, false), serial);
      PlayKeeps(d, SendsOf(x.callback, false));
    }
  }

  lemma SettledBegin(c: Corr, k: R.Key, serial: nat)
    requires Settled(c, serial) && c.begun !in c.expiring
    ensures Settled(ExpiryBegun(c, k), serial)
  {
    if Awaits(c, k) {
      var slot := c.slots[k.name];
      assert InSlot(c.slots, slot.serial);
      NewWindow(c.expiring, c.begun, Expired(slot.serial, k, slot.callback), serial);
    }
  }

  lemma SettledStep(c: Corr, e: Event, serial: nat)
    requires CInv(c) && Settled(c, serial)
    ensures var d := Step(c, e); Settled(d, serial) && RunsOf(d.completed, serial) == RunsOf(c.completed, serial)
  {
    match e
    case Request(s) => SettledSend(c, s, serial);
    case Response(k, ok, _) => SettledProcessed(c, k, ok, serial);
    case BeginExpiry(k) => SettledBegin(c, k, serial);
    case EndExpiry(t) => SettledEnd(c, t, serial);
    case Timeout(k) =>
      SettledBegin(c, k, serial);
      SettledEnd(ExpiryBegun(c, k), c.begun, serial);
    case Look(n) => NewListing(c.lists, n, None, serial);
    case Reset =>
  }

  lemma {:induction false} SettledRun(c: Corr, es: seq<Event>, serial: nat)
    requires CInv(c) && Settled(c, serial)
    ensures RunsOf(Run(c, es).completed, serial) == RunsOf(c.completed, serial)
    decreases |es|
  {
    if es == [] {
    } else {
      StepInv(c, es[0]);
      SettledStep(c, es[0], serial);
      SettledRun(Step(c, es[0]), es[1..], serial);
    }
  }

  /** The end of the window itself. */
  lemma WindowEnds(c: Corr, t: nat)
    requires CInv(c) && t in c.expiring
    ensures var d := ExpiryEnded(c, t).0; CInv(d) && Settled(d, c.expiring[t].serial)
  {
    var d, x := Unlisted(c, t), c.expiring[t];
    assert WindowNamed(c, x);
    UnlistedNames(c, t);
    ExpiryEndedInv(c, t);
    SettledPlay(d, SendsOf(x.callback, false), x.serial);
  }

  /** What the registry's half of an expiry opens. */
  lemma WindowOpens(c: Corr, k: R.Key)
    requires CInv(c) && Awaits(c, k)
    ensures var b, serial := ExpiryBegun(c, k), c.slots[k.name].serial;
            && CInv(b) && c.begun in b.expiring && RunsOf(b.completed, serial) == []
  {
    ExpiryBegunInv(c, k);
    PendingIsNew(c, k.name);
    UnfinishedHasNoRuns(c.completed, c.slots[k.name].serial);
  }

  lemma WindowClosesInv(b: Corr, t: nat, window: seq<Event>)
    requires CInv(b) && t in b.expiring && EndExpiry(t) !in window
    ensures var d := Step(Run(b, window), EndExpiry(t)); CInv(d) && Settled(d, b.expiring[t].serial)
  {
    var w := WindowBeforeEnd(b, t, window);
    WindowEnds(w, t);
  }

  lemma WindowBeforeEnd(b: Corr, t: nat, window: seq<Event>) returns (w: Corr)
    requires CInv(b) && t in b.expiring && EndExpiry(t) !in window
    ensures w == Run(b, window) && CInv(w) && t in w.expiring && w.expiring[t] == b.expiring[t]
  {
    w := Run(b, window);
    WindowRun(b, t, window);
    RunInv(b, window);
  }

  lemma WindowClosesRuns(b: Corr, t: nat, window: seq<Event>)
    requires CInv(b) && t in b.expiring && EndExpiry(t) !in window
    ensures var d, x := Step(Run(b, window), EndExpiry(t)), b.expiring[t];
            RunsOf(d.completed, x.serial) ==
            RunsOf(b.completed, x.serial) + WindowRuns(b, t, x, window) + [Completion(x.serial, false, TimedOut)]
  {
    WindowRun(b, t, window);
    RunInv(b, window);
    EndLogs(Run(b, window), t);
  }

  lemma EndLogs(c: Corr, t: nat)
    requires t in c.expiring
    ensures var serial := c.expiring[t].serial;
            RunsOf(ExpiryEnded(c, t).0.completed, serial) ==
            RunsOf(c.completed, serial) + [Completion(serial, false, TimedOut)]
  {
    var x := c.expiring[t];
    RunsOfLogged(c.completed, Completion(x.serial, false, TimedOut), x.serial);
    PlayKeeps(Unlisted(c, t), SendsOf(x.callback, false));
  }

  /** From the beginning of an expiry on. */
  lemma ExpiryOverRun(c: Corr, k: R.Key, window: seq<Event>, after: seq<Event>)
    requires CInv(c) && Awaits(c, k) && EndExpiry(c.begun) !in window
    ensures var x := Expired(c.slots[k.name].serial, k, c.slots[k.name].callback);
            var b := ExpiryBegun(c, k);
            var d := Run(Step(Run(b, window), EndExpiry(c.begun)), after);
            RunsOf(d.completed, x.serial) ==
            WindowRuns(b, c.begun, x, window) + [Completion(x.serial, false, TimedOut)]
  {
    var b := ExpiryBegun(c, k);
    WindowOpens(c, k);
    WindowClosesInv(b, c.begun, window);
    WindowClosesRuns(b, c.begun, window);
    SettledRun(Step(Run(b, window), EndExpiry(c.begun)), after, c.slots[k.name].serial);
  }

  /** An expired request over a whole run, with anything between the two
      halves of its expiry and anything after them: its callback is run with
      failure by the timeout, and before that by a fallback exactly when it
      was listed and a response intruded before it was withdrawn. */
  lemma ExpiredRequestRuns(limit: nat, before: seq<Event>, k: R.Key, window: seq<Event>, after: seq<Event>)
    requires limit >= 1
    requires var c := Run(Initial(limit), before); Awaits(c, k) && EndExpiry(c.begun) !in window
    ensures var c := Run(Initial(limit), before);
            var x := Expired(c.slots[k.name].serial, k, c.slots[k.name].callback);
            var b := Step(c, BeginExpiry(k));
            var d := Run(Step(Run(b, window), EndExpiry(c.begun)), after);
            RunsOf(d.completed, x.serial) ==
            (if StillListed(c, x) then Intrusion(b, c.begun, x, window) else [])
            + [Completion(x.serial, false, TimedOut)]
  {
    InitialInv(limit);
    RunInv(Initial(limit), before);
    ExpiryOverRun(Run(Initial(limit), before), k, window, after);
  }

  /** Whether some response intrudes into a window. */
  predicate HasIntruder(c: Corr, x: Expired, es: seq<Event>)
    decreases |es|
  {
    es != [] && (Intrudes(c, x, es[0]) || HasIntruder(Step(c, es[0]), x, es[1..]))
  }

  /** No event of a window takes the callback off its list without running it. */
  predicate NeverWithdraws(c: Corr, t: nat, x: Expired, es: seq<Event>)
    decreases |es|
  {
    es != [] ==> !Withdraws(c, t, x, es[0]) && NeverWithdraws(Step(c, es[0]), t, x, es[1..])
  }

  lemma {:induction false} IntrusionExactly(c: Corr, t: nat, x: Expired, es: seq<Event>)
    requires NeverWithdraws(c, t, x, es)
    ensures Intrusion(c, t, x, es) != [] <==> HasIntruder(c, x, es)
    decreases |es|
  {
    if es == [] {
    } else {
      IntrusionExactly(Step(c, es[0]), t, x, es[1..]);
    }
  }

  /** In a window in which nothing withdraws it, the callback, which is
      listed when the window opens, runs exactly once in the whole run, with failure, if
      and only if no dispatched response of its name with an ID that is not
      stale arrives in the window. */
  lemma ExactlyOnceWithoutIntruder(limit: nat, before: seq<Event>, k: R.Key, window: seq<Event>, after: seq<Event>)
    requires limit >= 1
    requires var c := Run(Initial(limit), before);
             && Awaits(c, k) && EndExpiry(c.begun) !in window
             && var x := Expired(c.slots[k.name].serial, k, c.slots[k.name].callback);
             StillListed(c, x) && NeverWithdraws(Step(c, BeginExpiry(k)), c.begun, x, window)
    ensures var c := Run(Initial(limit), before);
            var x := Expired(c.slots[k.name].serial, k, c.slots[k.name].callback);
            var b := Step(c, BeginExpiry(k));
            var d := Run(Step(Run(b, window), EndExpiry(c.begun)), after);
            RunsOf(d.completed, x.serial) == [Completion(x.serial, false, TimedOut)] <==> !HasIntruder(b, x, window)
  {
    var c := Run(Initial(limit), before);
    var x := Expired(c.slots[k.name].serial, k, c.slots[k.name].callback);
    ExpiredRequestRuns(limit, before, k, window, after);
    IntrusionExactly(Step(c, BeginExpiry(k)), c.begun, x, window);
  }

  // ----------------------------------------------------------- late responses

  /** Nothing that is sent makes the key of a listed request forgotten. */
  lemma {:induction false} PlayRemembers(c: Corr, sends: seq<Send>, k: R.Key, newer: int)
    requires R.Remembers(c.stale, k, newer) && Busy(c, k.name)
    ensures R.Remembers(Play(c, sends).0.stale, k, newer)
    decreases |sends|
  {
    if sends == [] {
    } else {
      var s := sends[0];
      if !Busy(c, s.name) {
        R.ForgetOther(c.stale, k, R.Key(s.name, NextId(c.lastId)), newer);
      }
      PlayRemembers(Transmit(c, s).0, sends[1..], k, newer);
    }
  }

  lemma TransmitRemembers(c: Corr, s: Send, k: R.Key, newer: int)
    requires R.Remembers(c.stale, k, newer) && Busy(c, k.name)
    ensures R.Remembers(Transmit(c, s).0.stale, k, newer)
  {
    if !Busy(c, s.name) {
      R.ForgetOther(c.stale, k, R.Key(s.name, NextId(c.lastId)), newer);
    }
  }

  lemma RetirementsGrow(c: Corr, e: Event)
    ensures c.retirements <= Step(c, e).retirements
    ensures Step(c, e).limit == c.limit
  {
    match e
    case Response(k, ok, _) =>
      if Awaits(c, k) {
        PlayKeeps(Taken(c, k, ok), SendsOf(c.slots[k.name].callback, ok));
      } else if ListedFor(c, k.name).Some? {
        var l := c.lists[k.name].value;
        var d := Logged(c.(lists := c.lists[k.name := None]), l.serial, ok, Fallback(k));
        PlayKeeps(d, SendsOf(Some(l.callback), ok));
      }
    case EndExpiry(t) => if t in c.expiring { PlayKeeps(Unlisted(c, t), SendsOf(c.expiring[t].callback, false)); }
    case Timeout(k) =>
      if Awaits(c, k) {
        var b := ExpiryBegun(c, k);
        PlayKeeps(Unlisted(b, c.begun), SendsOf(b.expiring[c.begun].callback, false));
      }
    case _ =>
  }

  lemma {:induction false} RunRetirements(c: Corr, es: seq<Event>)
    ensures c.retirements <= Run(c, es).retirements && Run(c, es).limit == c.limit
    decreases |es|
  {
    if es == [] {
    } else {
      RetirementsGrow(c, es[0]);
      RunRetirements(Step(c, es[0]), es[1..]);
    }
  }

  lemma ResponseRemembers(c: Corr, x: Expired, k: R.Key, ok: bool, from: int)
    requires StillListed(c, x) && k.name != x.key.name
    requires R.Remembers(c.stale, x.key, c.retirements - from)
    requires Processed(c, k, ok).0.retirements - from < c.limit
    ensures R.Remembers(Processed(c, k, ok).0.stale, x.key, Processed(c, k, ok).0.retirements - from)
  {
    if Awaits(c, k) {
      AnswerRemembers(c, x, k, ok, from);
    } else if k !in c.stale && ListedFor(c, k.name).Some? {
      var l := c.lists[k.name].value;
      var d := Logged(c.(lists := c.lists[k.name := None]), l.serial, ok, Fallback(k));
      PlayKeeps(d, SendsOf(Some(l.callback), ok));
      PlayRemembers(d, SendsOf(Some(l.callback), ok), x.key, c.retirements - from);
    }
  }

  lemma AnswerRemembers(c: Corr, x: Expired, k: R.Key, ok: bool, from: int)
    requires StillListed(c, x) && k.name != x.key.name && Awaits(c, k)
    requires R.Remembers(c.stale, x.key, c.retirements - from)
    requires Answered(c, k, ok).0.retirements - from < c.limit
    ensures R.Remembers(Answered(c, k, ok).0.stale, x.key, Answered(c, k, ok).0.retirements - from)
  {
    var d, sends := Taken(c, k, ok), SendsOf(c.slots[k.name].callback, ok);
    PlayKeeps(d, sends);
    R.RetireOther(c.stale, x.key, k, c.retirements - from, c.limit);
    PlayRemembers(d, sends, x.key, d.retirements - from);
  }

  lemma BeginRemembers(c: Corr, x: Expired, k: R.Key, from: int)
    requires R.Remembers(c.stale, x.key, c.retirements - from)
    requires ExpiryBegun(c, k).retirements - from < c.limit
    ensures R.Remembers(ExpiryBegun(c, k).stale, x.key, ExpiryBegun(c, k).retirements - from)
  {
    if Awaits(c, k) {
      R.RetireOther(c.stale, x.key, k, c.retirements - from, c.limit);
    }
  }

  lemma EndRemembers(c: Corr, x: Expired, t: nat, from: int)
    requires R.Remembers(c.stale, x.key, c.retirements - from)
    requires t in c.expiring ==> StillListed(Unlisted(c, t), x)
    ensures R.Remembers(ExpiryEnded(c, t).0.stale, x.key, ExpiryEnded(c, t).0.retirements - from)
  {
    if t in c.expiring {
      var d, sends := Unlisted(c, t), SendsOf(c.expiring[t].callback, false);
      PlayKeeps(d, sends);
      PlayRemembers(d, sends, x.key, c.retirements - from);
    }
  }

  lemma TimeoutRemembers(c: Corr, x: Expired, k: R.Key, from: int)
    requires StillListed(c, x) && Awaits(c, k) && k.name != x.key.name && c.begun !in c.expiring
    requires R.Remembers(c.stale, x.key, c.retirements - from) && Step(c, Timeout(k)).retirements - from < c.limit
    ensures R.Remembers(Step(c, Timeout(k)).stale, x.key, Step(c, Timeout(k)).retirements - from)
  {
    var b := ExpiryBegun(c, k);
    PlayKeeps(Unlisted(b, c.begun), SendsOf(b.expiring[c.begun].callback, false));
    BeginRemembers(c, x, k, from);
    EndRemembers(b, x, c.begun, from);
  }

  /** While the callback is listed its key stays remembered, until `limit`
      others have been retired. */
  lemma RemembersStep(c: Corr, t: nat, e: Event, from: int)
    requires t in c.expiring && StillListed(c, c.expiring[t]) && e != EndExpiry(t) && c.begun !in c.expiring
    requires c.expiring[t].key.name !in c.slots
    requires c.expiring[t].callback == Some(c.lists[c.expiring[t].key.name].value.callback)
    requires !Intrudes(c, c.expiring[t], e) && !Withdraws(c, t, c.expiring[t], e)
    requires R.Remembers(c.stale, c.expiring[t].key, c.retirements - from) && Step(c, e).retirements - from < c.limit
    ensures R.Remembers(Step(c, e).stale, c.expiring[t].key, Step(c, e).retirements - from)
  {
    var x := c.expiring[t];
    match e
    case Request(s) => TransmitRemembers(c, s, x.key, c.retirements - from);
    case Response(k, ok, dispatched) =>
      if dispatched && !Guarded(c, k) { ResponseRemembers(c, x, k, ok, from); }
    case BeginExpiry(k) => BeginRemembers(c, x, k, from);
    case EndExpiry(u) => EndRemembers(c, x, u, from);
    case Timeout(k) => if Awaits(c, k) { TimeoutRemembers(c, x, k, from); }
    case Look(_) =>
    case Reset =>
  }

  /** The responses of a name that reach processDeferreds all have this ID. */
  predicate OnlyOwnResponses(k: R.Key, es: seq<Event>) {
    forall i | 0 <= i < |es| && es[i].Response? && es[i].dispatched && es[i].key.name == k.name :: es[i].key == k
  }

  lemma {:induction false} OwnResponseNeverIntrudes(c: Corr, t: nat, es: seq<Event>, from: int)
    requires CInv(c) && t in c.expiring && EndExpiry(t) !in es && StillListed(c, c.expiring[t])
    requires R.Remembers(c.stale, c.expiring[t].key, c.retirements - from) && Run(c, es).retirements - from < c.limit
    requires OnlyOwnResponses(c.expiring[t].key, es)
    ensures Intrusion(c, t, c.expiring[t], es) == []
    decreases |es|
  {
    if es == [] {
    } else if !Withdraws(c, t, c.expiring[t], es[0]) {
      var d := Step(c, es[0]);
      assert !Intrudes(c, c.expiring[t], es[0]);
      RunRetirements(d, es[1..]);
      OpenWindow(c, t);
      RemembersStep(c, t, es[0], from);
      StepInv(c, es[0]);
      WindowStep(c, t, es[0]);
      RetirementsGrow(c, es[0]);
      OwnResponseNeverIntrudes(d, t, es[1..], from);
    }
  }

  lemma JustRetired(c: Corr, k: R.Key)
    requires CInv(c) && Awaits(c, k)
    ensures R.Remembers(ExpiryBegun(c, k).stale, k, 0)
  {
    var s := ExpiryBegun(c, k).stale;
    assert k !in c.stale;
    assert s == R.Bounded(c.stale + [k], c.limit);
    assert s[|s| - 1] == k;
  }

  /** Late response: if the responses of its type that arrive between the two
      halves of an expiry bear the expired request's own ID, and fewer than
      `limit` other keys are retired between them, the callback is run exactly
      once in the whole run, with failure, whatever comes after. */
  lemma LateResponse(limit: nat, before: seq<Event>, k: R.Key, window: seq<Event>, after: seq<Event>)
    requires limit >= 1
    requires var c := Run(Initial(limit), before);
             && Awaits(c, k) && EndExpiry(c.begun) !in window && OnlyOwnResponses(k, window)
             && Run(ExpiryBegun(c, k), window).retirements - ExpiryBegun(c, k).retirements < limit
    ensures var c := Run(Initial(limit), before);
            var serial := c.slots[k.name].serial;
            var d := Run(Step(Run(Step(c, BeginExpiry(k)), window), EndExpiry(c.begun)), after);
            RunsOf(d.completed, serial) == [Completion(serial, false, TimedOut)]
  {
    InitialInv(limit);
    RunInv(Initial(limit), before);
    RunRetirements(Initial(limit), before);
    var c := Run(Initial(limit), before);
    var b := ExpiryBegun(c, k);
    ExpiryOverRun(c, k, window, after);
    if StillListed(b, b.expiring[c.begun]) {
      WindowOpens(c, k);
      JustRetired(c, k);
      OwnResponseNeverIntrudes(b, c.begun, window, b.retirements);
    }
  }
}
