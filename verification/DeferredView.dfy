/**
 The dictionary of callback lists against the registry of pending requests:
 when both say the same about what is pending.
 */
module DeferredView {
  import opened Prelude
  import opened Registry
  import opened Correlation

  /** The callback of the pending request of `n`. */
  function Expected(c: Corr, n: Name): Option<Listing> {
    if n in c.slots && c.slots[n].callback.Some? then
      Some(Listing(c.slots[n].serial, c.slots[n].callback.value))
    else
      None
  }

  /** The deferred view equals the registry. */
  ghost predicate ViewsAgree(c: Corr) {
    forall n :: ListedFor(c, n) == Expected(c, n)
  }

  lemma TransmitViews(c: Corr, s: Send)
    requires ViewsAgree(c)
    ensures ViewsAgree(Transmit(c, s).0)
  {
    var d := Transmit(c, s).0;
    forall n
      ensures ListedFor(d, n) == Expected(d, n)
    {
      assert ListedFor(c, n) == Expected(c, n);
    }
  }

  lemma {:induction false} PlayViews(c: Corr, sends: seq<Send>)
    requires ViewsAgree(c)
    ensures ViewsAgree(Play(c, sends).0)
    decreases |sends|
  {
    if sends == [] {
    } else {
      TransmitViews(c, sends[0]);
      PlayViews(Transmit(c, sends[0]).0, sends[1..]);
    }
  }

  lemma TidyViews(c: Corr, n: Name, attached: bool)
    requires ViewsAgree(c)
    ensures ViewsAgree(Tidy(c, n, attached)) <==> attached || ListedFor(c, n).None?
  {
    var d := Tidy(c, n, attached);
    forall m
      ensures m != n || attached || ListedFor(c, n).None? ==> ListedFor(d, m) == Expected(d, m)
      ensures Expected(d, m) == Expected(c, m) == ListedFor(c, m)
    {
      assert ListedFor(c, m) == Expected(c, m);
    }
  }

  /** Whether the first request of `n` that is written comes after one that
      failed, and has a callback. `failed`: one has failed before. */
  predicate Relists(n: Name, sends: seq<Send>, failed: bool)
    decreases |sends|
  {
    if sends == [] then false
    else if sends[0].name != n then Relists(n, sends[1..], failed)
    else if sends[0].written then failed && sends[0].callback.Some?
    else Relists(n, sends[1..], true)
  }

  /** Once a request of `n` is out, nothing more happens to its list. */
  lemma {:induction false} BusyStays(c: Corr, n: Name, sends: seq<Send>)
    requires Busy(c, n)
    ensures !Unlists(c, n, sends) && ListedFor(Play(c, sends).0, n) == ListedFor(c, n)
    ensures n in Play(c, sends).0.slots <==> n in c.slots
    decreases |sends|
  {
    if sends == [] {
    } else {
      BusyStays(Transmit(c, sends[0]).0, n, sends[1..]);
    }
  }

  /** What a callback that returns leaves listed under a free name, and
      whether its list left the dictionary. */
  lemma {:induction false} RelistsExactly(c: Corr, n: Name, sends: seq<Send>, failed: bool)
    requires !Busy(c, n) && !Play(c, sends).1
    ensures (failed || Unlists(c, n, sends)) && ListedFor(Play(c, sends).0, n).Some? <==> Relists(n, sends, failed)
    decreases |sends|
  {
    if sends == [] {
    } else {
      var d := Transmit(c, sends[0]).0;
      if sends[0].name == n && sends[0].written {
        BusyStays(d, n, sends[1..]);
      } else {
        RelistsExactly(d, n, sends[1..], failed || sends[0].name == n);
      }
    }
  }

  lemma TakenViews(c: Corr, k: Key, ok: bool)
    requires ViewsAgree(c) && Awaits(c, k)
    ensures ViewsAgree(Taken(c, k, ok)) && !Busy(Taken(c, k, ok), k.name)
  {
    var d := Taken(c, k, ok);
    forall n
      ensures ListedFor(d, n) == Expected(d, n)
    {
      assert ListedFor(c, n) == Expected(c, n);
    }
  }

  /** When the two views agree after a response. They do unless its callback
      returns after sending a request of the completed name that failed and
      then one that was written: the list that processDeferreds holds has left
      the dictionary with the first, and its final test drops the other. */
  lemma ViewsAfterResponse(c: Corr, k: Key, ok: bool)
    requires ViewsAgree(c) && Awaits(c, k)
    ensures var (d, raised) := Answered(c, k, ok);
            ViewsAgree(d) <==> raised || !Relists(k.name, SendsOf(c.slots[k.name].callback, ok), false)
  {
    var t, sends := Taken(c, k, ok), SendsOf(c.slots[k.name].callback, ok);
    TakenViews(c, k, ok);
    PlayViews(t, sends);
    var (d, raised) := Play(t, sends);
    if !raised {
      assert ListedFor(c, k.name) == Expected(c, k.name);
      TidyViews(d, k.name, k.name in c.lists && !Unlists(t, k.name, sends));
      RelistsExactly(t, k.name, sends, false);
    }
  }

  /** The shortest such callback: its first request fails, it catches the
      error and sends again. The second request is pending, and nothing is
      listed for it. */
  lemma RelistedIsDropped(c: Corr, k: Key, ok: bool, cb: Option<Callback>, again: Callback, caught: bool)
    requires ViewsAgree(c) && Awaits(c, k)
    requires SendsOf(c.slots[k.name].callback, ok) ==
             [Send(k.name, cb, false, true), Send(k.name, Some(again), true, caught)]
    ensures var (d, raised) := Answered(c, k, ok);
            && !raised && k.name in d.slots && d.slots[k.name].callback == Some(again)
            && ListedFor(d, k.name) == None
  {
    var t, sends := Taken(c, k, ok), SendsOf(c.slots[k.name].callback, ok);
    TakenViews(c, k, ok);
    var t1 := Transmit(t, sends[0]).0;
    var t2 := Transmit(t1, sends[1]).0;
    assert sends[1..] == [sends[1]] && sends[1..][1..] == [];
    assert Play(t1, sends[1..]) == (t2, false);
    assert Play(t, sends) == (t2, false) && Unlists(t, k.name, sends);
  }

  lemma TimeoutViews(c: Corr, k: Key)
    requires ViewsAgree(c) && Awaits(c, k)
    ensures ViewsAgree(Step(c, Timeout(k)))
  {
    var b := ExpiryBegun(c, k);
    var d := Unlisted(b, c.begun);
    forall n
      ensures ListedFor(d, n) == Expected(d, n)
    {
      assert ListedFor(c, n) == Expected(c, n);
    }
    PlayViews(d, SendsOf(b.expiring[c.begun].callback, false));
  }

  lemma LookedViews(c: Corr, n: Name)
    requires ViewsAgree(c)
    ensures ViewsAgree(Looked(c, n))
  {
    var d := Looked(c, n);
    forall m
      ensures ListedFor(d, m) == Expected(d, m)
    {
      assert ListedFor(c, m) == Expected(c, m);
    }
  }

  /** A response whose callback has its new listing dropped. */
  predicate DropsListing(c: Corr, e: Event) {
    && e.Response? && e.dispatched && !Guarded(c, e.key) && Awaits(c, e.key)
    && !Answered(c, e.key, e.ok).1
    && Relists(e.key.name, SendsOf(c.slots[e.key.name].callback, e.ok), false)
  }

  lemma ViewsAfterStep(c: Corr, e: Event)
    requires ViewsAgree(c) && IsAtomic(e)
    ensures ViewsAgree(Step(c, e)) <==> !DropsListing(c, e)
  {
    match e
    case Request(s) => TransmitViews(c, s);
    case Response(k, ok, dispatched) =>
      if dispatched && !Guarded(c, k) {
        if Awaits(c, k) {
          ViewsAfterResponse(c, k, ok);
        } else {
          assert ListedFor(c, k.name) == Expected(c, k.name);
          TidyViews(c, k.name, true);
        }
      }
    case Timeout(k) => if Awaits(c, k) { TimeoutViews(c, k); }
    case Look(n) => LookedViews(c, n);
    case Reset =>
  }

  /** The views agree now and after every event of a run. */
  ghost predicate AgreeThroughout(c: Corr, es: seq<Event>)
    decreases |es|
  {
    ViewsAgree(c) && (es != [] ==> AgreeThroughout(Step(c, es[0]), es[1..]))
  }

  ghost predicate NeverDrops(c: Corr, es: seq<Event>)
    decreases |es|
  {
    es != [] ==> !DropsListing(c, es[0]) && NeverDrops(Step(c, es[0]), es[1..])
  }

  /** The deferred view equals the registry all along a run exactly when no
      response of it has a callback that sends again after a failure. */
  lemma {:induction false} DeferredViewEqualsRegistry(c: Corr, es: seq<Event>)
    requires ViewsAgree(c) && AllAtomic(es)
    ensures AgreeThroughout(c, es) <==> NeverDrops(c, es)
    decreases |es|
  {
    if es == [] {
    } else {
      ViewsAfterStep(c, es[0]);
      if !DropsListing(c, es[0]) {
        DeferredViewEqualsRegistry(Step(c, es[0]), es[1..]);
      }
    }
  }
}
