/**
 `_send_request`, the guards of `handleMessage`, the installed
 `processDeferreds` and the two steps of an expiry over a registry and a
 dictionary of callback lists on the heap. They implement the machine of module
 Correlation, for every interleaving and whatever the callbacks send or catch.
 */
module CorrelationClient {
  import opened Prelude
  import opened Registry
  import C = Correlation

  type Pending = Option<C.Callback>

  // ------------------------------------------------- what the heap has to show

  /** The registry holds one request for each slot, and no other. */
  ghost predicate Registers(pending: map<Key, Request<Pending>>, slots: map<Name, C.Slot>) {
    && (forall k | k in pending ::
          k.name in slots && slots[k.name].id == k.id && pending[k].callback == slots[k.name].callback)
    && (forall n | n in slots :: Key(n, slots[n].id) in pending)
  }

  /** The contents of a callback list. */
  function ItemsOf(l: Option<C.Listing>): seq<C.Callback> {
    if l.None? then [] else [l.value.callback]
  }

  function Without(items: seq<C.Callback>, cb: C.Callback): seq<C.Callback> {
    if items == [] then [] else if items[0] == cb then items[1..] else [items[0]] + Without(items[1..], cb)
  }

  /** The timer threads between the two steps of an expiry have captured the
      requests that the machine says are expiring. */
  ghost predicate Captures(expiring: map<nat, Request<Pending>>, open: map<nat, C.Expired>) {
    && expiring.Keys == open.Keys
    && forall t | t in open :: expiring[t].key == open[t].key && expiring[t].callback == open[t].callback
  }

  lemma CapturesMore(expiring: map<nat, Request<Pending>>, open: map<nat, C.Expired>, t: nat,
                     r: Request<Pending>, serial: nat)
    requires Captures(expiring, open)
    ensures Captures(expiring[t := r], open[t := C.Expired(serial, r.key, r.callback)])
  {
  }

  lemma CapturesLess(expiring: map<nat, Request<Pending>>, open: map<nat, C.Expired>, t: nat)
    requires Captures(expiring, open)
    ensures Captures(expiring - {t}, open - {t})
  {
  }

  lemma RegisterAgrees(c: C.Corr, r: Reg<Pending>, s: C.Send)
    requires Registers(r.pending, c.slots) && !C.Busy(c, s.name)
    requires r.stale == c.stale && r.limit == c.limit
    ensures var k := Key(s.name, NextId(c.lastId));
            var t, d := C.Transmit(c, s).0, Register(r, k, s.callback, true);
            var u := Cancel(d, k, false);
            && k !in r.pending && t.stale == d.stale == u.stale && t.limit == d.limit == u.limit
            && Registers(if s.written then d.pending else u.pending, t.slots)
  {
    var k := Key(s.name, NextId(c.lastId));
    assert !C.Awaits(c, k);
    assert r.pending[k := Request(k, s.callback, true)] - {k} == r.pending;
  }

  lemma RetireAgrees(c: C.Corr, r: Reg<Pending>, k: Key)
    requires Registers(r.pending, c.slots) && C.Awaits(c, k)
    requires r.stale == c.stale && r.limit == c.limit
    ensures k in r.pending && r.pending[k].callback == c.slots[k.name].callback
    ensures var d, v := Retire(r, k, true), C.Vacate(c, k.name);
            Registers(d.pending, v.slots) && v.stale == d.stale && v.limit == d.limit
  {
  }

  // ------------------------------------------------------------- on the heap

  class CallbackList {
    var items: seq<C.Callback>

    constructor ()
      ensures items == []
    {
      items := [];
    }
  }

  /** The dictionary of callback lists, `_deferreds`. */
  class Deferreds {
    var lists: map<Name, CallbackList>
    ghost var repr: set<CallbackList>

    /** No two names share a list. */
    ghost predicate Separate()
      reads this
    {
      && (forall n | n in lists :: lists[n] in repr)
      && (forall m, n | m in lists && n in lists && m != n :: lists[m] != lists[n])
    }

    /** The dictionary has these lists with these contents. */
    ghost predicate Shows(m: map<Name, Option<C.Listing>>)
      reads this, repr
    {
      Separate() && lists.Keys == m.Keys && forall n | n in m :: lists[n].items == ItemsOf(m[n])
    }

    /** A list that somebody holds is the one of its name, or else it is empty
        and no longer in the dictionary. */
    ghost predicate Held(n: Name, list: CallbackList?, attached: bool)
      reads this, list
    {
      list == null
      || (if attached then n in lists && lists[n] == list
          else (forall m | m in lists :: lists[m] != list) && list.items == [])
    }

    constructor ()
      ensures Shows(map[]) && repr == {}
    {
      lists, repr := map[], {};
    }

    /** `deferreds[name]` on a defaultdict: a missing name gets a new list. */
    method Index(name: Name, ghost m: map<Name, Option<C.Listing>>,
                 ghost n: Name, ghost held: CallbackList?, ghost attached: bool)
      returns (list: CallbackList)
      requires Shows(m) && (name in m ==> m[name].None?) && Held(n, held, attached)
      modifies this
      ensures Shows(m[name := None]) && fresh(repr - old(repr)) && old(repr) <= repr
      ensures Held(n, held, attached)
      ensures name in lists && list == lists[name]
    {
      if name !in lists {
        list := new CallbackList();
        lists, repr := lists[name := list], repr + {list};
      }
      list := lists[name];
    }

    /** `deferreds[name].append(cb)`. */
    method Append(name: Name, cb: C.Callback, ghost m: map<Name, Option<C.Listing>>, ghost serial: nat,
                  ghost n: Name, ghost held: CallbackList?, ghost attached: bool)
      requires Shows(m) && (name in m ==> m[name].None?) && Held(n, held, attached)
      modifies this, repr
      ensures Shows(m[name := Some(C.Listing(serial, cb))]) && fresh(repr - old(repr)) && old(repr) <= repr
      ensures Held(n, held, attached)
    {
      var list := Index(name, m, n, held, attached);
      list.items := list.items + [cb];
    }

    /** `deferreds.get(name, [])`: the list itself, or a new empty one. */
    method Get(name: Name) returns (list: CallbackList)
      ensures Held(name, list, name in lists)
      ensures name !in lists ==> fresh(list)
    {
      if name in lists {
        list := lists[name];
      } else {
        list := new CallbackList();
      }
    }

    /** `if not list: deferreds.pop(name, None)`, on the list of that name or
        on one that is empty and no longer in the dictionary. */
    method DropIfEmpty(name: Name, list: CallbackList, ghost attached: bool, ghost m: map<Name, Option<C.Listing>>)
      requires Shows(m) && Held(name, list, attached)
      modifies this
      ensures Shows(if attached && m[name].Some? then m else m - {name})
      ensures repr == old(repr)
    {
      if list.items == [] {
        lists := lists - {name};
      }
    }

    /** Takes a callback off its list and the emptied list out of the dictionary. */
    method Discard(name: Name, cb: Option<C.Callback>, ghost m: map<Name, Option<C.Listing>>,
                   ghost n: Name, ghost held: CallbackList?, ghost attached: bool)
      requires Shows(m) && Held(n, held, attached)
      requires name in m && m[name].Some? ==> cb == Some(m[name].value.callback)
      modifies this, repr
      ensures Shows(m - {name}) && repr == old(repr)
      ensures Held(n, held, attached && n != name)
    {
      if name in lists {
        var list := lists[name];
        if cb.Some? {
          list.items := Without(list.items, cb.value);
        }
        lists := lists - {name};
      }
    }
  }

  class RequestClient {
    const registry: PendingRequestRegistry<Pending>
    const deferreds: Deferreds
    var lastMsgId: nat
    // what the timer threads between the two steps of an expiry have captured
    var expiring: map<nat, Request<Pending>>
    var begun: nat
    ghost var model: C.Corr

    ghost predicate RegistryShows(c: C.Corr)
      reads registry
    {
      && registry.Valid() && Registers(registry.pending, c.slots)
      && registry.stale == c.stale && registry.staleLimit == c.limit
    }

    /** Everything but the registry shows this state of the machine. */
    ghost predicate RestShows(c: C.Corr)
      reads this, deferreds, deferreds.repr
    {
      deferreds.Shows(c.lists) && Captures(expiring, c.expiring) && begun == c.begun && lastMsgId == c.lastId
    }

    /** The heap shows the state of the machine. */
    ghost predicate Valid()
      reads this, registry, deferreds, deferreds.repr
    {
      RegistryShows(model) && RestShows(model)
    }

    /** What popping a key has left and returned. */
    ghost predicate Popped(k: Key, matched: Option<Request<Pending>>)
      reads this, registry
    {
      && (matched.Some? <==> C.Awaits(model, k))
      && (matched.None? ==> RegistryShows(model))
      && (matched.Some? ==> matched.value.key == k && matched.value.callback == model.slots[k.name].callback
                            && RegistryShows(C.Vacate(model, k.name)))
    }

    constructor ()
      ensures Valid() && model == C.Initial(512)
    {
      registry := new PendingRequestRegistry<Pending>(512);
      deferreds := new Deferreds();
      lastMsgId, expiring, begun := 0, map[], 0;
      model := C.Initial(512);
    }

    /** A request is pending, or a callback is listed, under this name. */
    method IsBusy(name: Name) returns (busy: bool)
      requires Valid()
      ensures busy <==> C.Busy(model, name)
    {
      assert name in model.slots ==> Key(name, model.slots[name].id) in registry.pending;
      busy := registry.HasResponseType(name);
      if name in deferreds.lists && deferreds.lists[name].items != [] {
        busy := true;
      }
    }

    /** The registry's part of _send_request: the request is registered
        before it is written and cancelled when the write fails. The registry
        never refuses the key as a duplicate. */
    method RegisterAndWrite(s: C.Send, k: Key)
      requires RegistryShows(model) && !C.Busy(model, s.name) && k == Key(s.name, NextId(model.lastId))
      modifies registry
      ensures RegistryShows(C.Transmit(model, s).0)
    {
      RegisterAgrees(model, registry.View(), s);
      var ok := registry.RegisterRequest(k, s.callback, true);
      assert ok;
      if !s.written {
        var _ := registry.CancelRequest(k, false);
      }
    }

    /** The lists' part of _send_request. A failed write takes the list of
        the name out of the dictionary; any other list stays what it was. */
    method ListAndWrite(s: C.Send, ghost n: Name, ghost held: CallbackList?, ghost attached: bool)
      requires deferreds.Shows(model.lists) && !C.Busy(model, s.name) && deferreds.Held(n, held, attached)
      modifies deferreds, deferreds.repr
      ensures deferreds.Shows(C.Transmit(model, s).0.lists)
      ensures fresh(deferreds.repr - old(deferreds.repr))
      ensures deferreds.Held(n, held, attached && (n != s.name || s.written))
    {
      ghost var lists := model.lists;
      if s.callback.Some? {
        deferreds.Append(s.name, s.callback.value, lists, |model.sent|, n, held, attached);
        lists := lists[s.name := Some(C.Listing(|model.sent|, s.callback.value))];
      }
      if !s.written {
        deferreds.Discard(s.name, s.callback, lists, n, held, attached);
        assert lists - {s.name} == model.lists - {s.name};
      }
    }

    /** A request of a free name, which leads the machine to `c`. */
    method SendFree(s: C.Send, ghost c: C.Corr, ghost n: Name, ghost held: CallbackList?, ghost attached: bool)
      requires Valid() && deferreds.Held(n, held, attached)
      requires !C.Busy(model, s.name) && c == C.Transmit(model, s).0
      modifies this`lastMsgId, this`model, registry, deferreds, deferreds.repr
      ensures Valid() && model == c
      ensures fresh(deferreds.repr - old(deferreds.repr))
      ensures deferreds.Held(n, held, attached && (n != s.name || s.written))
    {
      ListAndRegister(s, c, n, held, attached);
      Commit(c, NextId(lastMsgId));
    }

    method ListAndRegister(s: C.Send, ghost c: C.Corr, ghost n: Name, ghost held: CallbackList?, ghost attached: bool)
      requires RegistryShows(model) && deferreds.Shows(model.lists) && deferreds.Held(n, held, attached)
      requires !C.Busy(model, s.name) && c == C.Transmit(model, s).0 && lastMsgId == model.lastId
      modifies registry, deferreds, deferreds.repr
      ensures RegistryShows(c) && deferreds.Shows(c.lists)
      ensures fresh(deferreds.repr - old(deferreds.repr))
      ensures deferreds.Held(n, held, attached && (n != s.name || s.written))
    {
      ListAndWrite(s, n, held, attached);
      assert RegistryShows(model);
      ghost var lists, repr := c.lists, deferreds.repr;
      RegisterAndWrite(s, Key(s.name, NextId(lastMsgId)));
      assert deferreds.repr == repr && deferreds.Shows(lists);
    }

    /** The machine's new state is what the heap shows. */
    method Commit(ghost c: C.Corr, id: nat)
      requires RegistryShows(c) && deferreds.Shows(c.lists)
      requires Captures(expiring, c.expiring) && begun == c.begun && id == c.lastId
      modifies this`lastMsgId, this`model
      ensures Valid() && model == c
    {
      lastMsgId := id;
      model := c;
    }

    /** _send_request: list the callback, register, then write; a failed write
        takes the request out again and the error propagates. `held` is a list
        that processDeferreds may be holding for `n` meanwhile. */
    method SendRequest(s: C.Send, ghost n: Name, ghost held: CallbackList?, ghost attached: bool)
      returns (raised: bool)
      requires Valid() && deferreds.Held(n, held, attached)
      modifies this, registry, deferreds, deferreds.repr
      ensures Valid() && model == C.Transmit(old(model), s).0 && raised == C.Transmit(old(model), s).1
      ensures fresh(deferreds.repr - old(deferreds.repr))
      ensures deferreds.Held(n, held, attached && !(n == s.name && !old(C.Busy(model, n)) && raised))
    {
      raised := IsBusy(s.name);
      if !raised {
        SendFree(s, C.Transmit(model, s).0, n, held, attached);
        raised := !s.written;
      }
    }

    /** A callback runs: it sends its requests until one raises an error that
        it does not catch. */
    method RunCallback(sends: seq<C.Send>, ghost n: Name, ghost held: CallbackList?, ghost attached: bool)
      returns (raised: bool)
      requires Valid() && deferreds.Held(n, held, attached)
      modifies this, registry, deferreds, deferreds.repr
      ensures Valid() && model == C.Play(old(model), sends).0 && raised == C.Play(old(model), sends).1
      ensures fresh(deferreds.repr - old(deferreds.repr))
      ensures deferreds.Held(n, held, attached && !C.Unlists(old(model), n, sends))
      decreases |sends|
    {
      if sends == [] {
        return false;
      }
      ghost var still := attached && !(n == sends[0].name && !C.Busy(model, n) && C.Transmit(model, sends[0]).1);
      raised := SendRequest(sends[0], n, held, attached);
      if raised && !sends[0].caught {
        return;
      }
      raised := RunCallback(sends[1..], n, held, still);
    }

    /** The end of processDeferreds: the callback runs while `list` is held,
        and an empty list is then taken out of the dictionary by name. */
    method RunHeld(n: Name, list: CallbackList, ghost attached: bool, sends: seq<C.Send>) returns (raised: bool)
      requires Valid() && deferreds.Held(n, list, attached)
      modifies this, registry, deferreds, deferreds.repr
      ensures Valid() && fresh(deferreds.repr - old(deferreds.repr))
      ensures model == C.RunHeld(old(model), n, attached, sends).0
      ensures raised == C.RunHeld(old(model), n, attached, sends).1
    {
      ghost var still := attached && !C.Unlists(model, n, sends);
      raised := RunCallback(sends, n, list, attached);
      if !raised {
        DropIfEmpty(n, list, still);
      }
    }

    method DropIfEmpty(n: Name, list: CallbackList, ghost attached: bool)
      requires Valid() && deferreds.Held(n, list, attached)
      modifies this`model, deferreds
      ensures Valid() && model == C.Tidy(old(model), n, attached) && deferreds.repr == old(deferreds.repr)
    {
      ghost var c := C.Tidy(model, n, attached);
      deferreds.DropIfEmpty(n, list, attached, model.lists);
      assert deferreds.Shows(c.lists);
      Adopt(c);
    }

    /** Only the lists have changed. */
    ghost method Adopt(c: C.Corr)
      requires RegistryShows(c) && RestShows(c)
      modifies this`model
      ensures Valid() && model == c
    {
      model := c;
    }

    /** Takes a callback off a list, by equality. */
    method Withdraw(n: Name, list: CallbackList, ghost attached: bool, callback: Pending)
      requires deferreds.Shows(model.lists) && deferreds.Held(n, list, attached) && attached == (n in model.lists)
      modifies list
      ensures deferreds.Shows(C.Withdraw(model, n, callback).lists) && deferreds.Held(n, list, attached)
    {
      if callback.Some? {
        if n in model.lists {
          WithoutListed(model.lists[n], callback.value);
        }
        list.items := Without(list.items, callback.value);
      }
    }

    /** Popping a key finds a request exactly when it is the awaited one. */
    method PopAwaited(k: Key) returns (matched: Option<Request<Pending>>)
      requires RegistryShows(model)
      modifies registry
      ensures Popped(k, matched)
    {
      if C.Awaits(model, k) {
        RetireAgrees(model, registry.View(), k);
      }
      matched := registry.PopRequest(k);
    }

    /** The callback of the popped request is taken off its list. */
    method TakeListed(k: Key, list: CallbackList, ghost attached: bool, ok: bool, callback: Pending)
      requires C.Awaits(model, k) && callback == model.slots[k.name].callback
      requires RegistryShows(C.Vacate(model, k.name)) && RestShows(model)
      requires deferreds.Held(k.name, list, attached) && attached == (k.name in model.lists)
      modifies this`model, list
      ensures Valid() && model == C.Taken(old(model), k, ok) && deferreds.Held(k.name, list, attached)
    {
      ghost var c := C.Taken(model, k, ok);
      Withdraw(k.name, list, attached, callback);
      Adopt(c);
    }

    /** processDeferreds with a matching request. */
    method RunMatched(k: Key, list: CallbackList, ghost attached: bool, ok: bool, callback: Pending)
      returns (raised: bool)
      requires C.Awaits(model, k) && callback == model.slots[k.name].callback
      requires RegistryShows(C.Vacate(model, k.name)) && RestShows(model)
      requires deferreds.Held(k.name, list, attached) && attached == (k.name in model.lists)
      modifies this, registry, deferreds, deferreds.repr, list
      ensures Valid() && fresh(deferreds.repr - old(deferreds.repr))
      ensures model == C.Answered(old(model), k, ok).0 && raised == C.Answered(old(model), k, ok).1
    {
      TakeListed(k, list, attached, ok, callback);
      raised := RunHeld(k.name, list, attached, C.SendsOf(callback, ok));
    }

    /** processDeferreds without a matching request. The stale test ends it;
        otherwise everything that is listed is run. */
    method RunUnmatched(k: Key, list: CallbackList, ok: bool) returns (raised: bool)
      requires Valid() && deferreds.Held(k.name, list, k.name in model.lists)
      modifies this, registry, deferreds, deferreds.repr, list
      ensures Valid() && fresh(deferreds.repr - old(deferreds.repr))
      ensures model == C.Unmatched(old(model), k, ok).0 && raised == C.Unmatched(old(model), k, ok).1
    {
      raised := false;
      var nothing := RunsNothing(k, list);
      if nothing {
        DropIfEmpty(k.name, list, k.name in model.lists);
      } else {
        raised := RunListed(k, list, ok);
      }
    }

    method RunsNothing(k: Key, list: CallbackList) returns (b: bool)
      requires Valid() && deferreds.Held(k.name, list, k.name in model.lists)
      ensures b <==> k in model.stale || C.ListedFor(model, k.name).None?
    {
      b := registry.IsStale(k);
      b := b || list.items == [];
    }

    /** What is listed, which is one callback, is cleared and run. */
    method RunListed(k: Key, list: CallbackList, ok: bool) returns (raised: bool)
      requires Valid() && deferreds.Held(k.name, list, true)
      requires k !in model.stale && C.ListedFor(model, k.name).Some?
      modifies this, registry, deferreds, deferreds.repr, list
      ensures Valid() && fresh(deferreds.repr - old(deferreds.repr))
      ensures model == C.Unmatched(old(model), k, ok).0 && raised == C.Unmatched(old(model), k, ok).1
    {
      ghost var l := model.lists[k.name].value;
      var cb := list.items[0];
      ClearList(k, list, ok, l);
      raised := RunHeld(k.name, list, true, C.SendsOf(Some(cb), ok));
    }

    method ClearList(k: Key, list: CallbackList, ok: bool, ghost l: C.Listing)
      requires Valid() && deferreds.Held(k.name, list, true) && C.ListedFor(model, k.name) == Some(l)
      modifies this`model, list
      ensures Valid() && deferreds.Held(k.name, list, true)
      ensures var m := old(model);
              model == C.Logged(m.(lists := m.lists[k.name := None]), l.serial, ok, C.Fallback(k))
    {
      list.items := [];
      Adopt(C.Logged(model.(lists := model.lists[k.name := None]), l.serial, ok, C.Fallback(k)));
    }

    /** The installed processDeferreds, for a response that carries an ID. */
    method ProcessDeferreds(k: Key, ok: bool) returns (raised: bool)
      requires Valid()
      modifies this, registry, deferreds, deferreds.repr
      ensures Valid() && fresh(deferreds.repr - old(deferreds.repr))
      ensures model == C.Processed(old(model), k, ok).0 && raised == C.Processed(old(model), k, ok).1
    {
      var list := deferreds.Get(k.name);
      var matched := PopAwaited(k);
      raised := RunPopped(k, list, matched, ok);
    }

    method RunPopped(k: Key, list: CallbackList, matched: Option<Request<Pending>>, ok: bool) returns (raised: bool)
      requires Popped(k, matched) && RestShows(model) && deferreds.Held(k.name, list, k.name in model.lists)
      modifies this, registry, deferreds, deferreds.repr, list
      ensures Valid() && fresh(deferreds.repr - old(deferreds.repr))
      ensures model == C.Processed(old(model), k, ok).0 && raised == C.Processed(old(model), k, ok).1
    {
      if matched.None? {
        raised := RunUnmatched(k, list, ok);
      } else {
        raised := RunMatched(k, list, k.name in model.lists, ok, matched.value.callback);
      }
    }

    /** The guards of handleMessage, by the registry alone. */
    method IsGuarded(k: Key) returns (guarded: bool)
      requires RegistryShows(model)
      ensures guarded <==> C.Guarded(model, k)
    {
      assert k.name in model.slots ==> Key(k.name, model.slots[k.name].id) in registry.pending;
      assert k in registry.pending <==> C.Awaits(model, k);
      var stale := registry.IsStale(k);
      var expected := registry.HasResponseType(k.name);
      var exact := registry.Contains(k);
      guarded := stale || (expected && !exact);
    }

    /** handleMessage for a response: the stale and the unmatched are ignored,
        and the rest is dispatched when the client's state expects it. */
    method HandleMessage(k: Key, ok: bool, dispatched: bool) returns (raised: bool)
      requires Valid()
      modifies this, registry, deferreds, deferreds.repr
      ensures Valid() && fresh(deferreds.repr - old(deferreds.repr))
      ensures model == C.Step(old(model), C.Response(k, ok, dispatched))
    {
      raised := false;
      var guarded := IsGuarded(k);
      if !guarded && dispatched {
        raised := ProcessDeferreds(k, ok);
      }
    }

    /** The registry's half of an expiry. The request is kept for the other. */
    method BeginExpiry(k: Key) returns (ticket: Option<nat>)
      requires Valid()
      modifies this`expiring, this`begun, this`model, registry
      ensures Valid() && model == C.ExpiryBegun(old(model), k)
      ensures ticket == if C.Awaits(old(model), k) then Some(old(model).begun) else None
    {
      ghost var c := C.ExpiryBegun(model, k);
      var expired := ExpireAwaited(k);
      if expired.None? {
        return None;
      }
      ticket := Some(begun);
      OpenWindow(c, expired.value, model.slots[k.name].serial);
    }

    /** A timer thread has taken a request out of the registry. */
    method OpenWindow(ghost c: C.Corr, request: Request<Pending>, ghost serial: nat)
      requires RegistryShows(c) && deferreds.Shows(c.lists) && lastMsgId == c.lastId
      requires Captures(expiring, model.expiring) && begun == model.begun && c.begun == begun + 1
      requires c.expiring == model.expiring[begun := C.Expired(serial, request.key, request.callback)]
      modifies this`expiring, this`begun, this`model
      ensures Valid() && model == c
    {
      CapturesMore(expiring, model.expiring, begun, request, serial);
      expiring, begun := expiring[begun := request], begun + 1;
      model := c;
    }

    /** The registry lets go of a key exactly when it is the awaited one. */
    method ExpireAwaited(k: Key) returns (expired: Option<Request<Pending>>)
      requires RegistryShows(model)
      modifies registry
      ensures Popped(k, expired)
    {
      if C.Awaits(model, k) {
        RetireAgrees(model, registry.View(), k);
      }
      expired := registry.ExpireRequest(k);
    }

    /** _on_request_timeout up to the callback. */
    method Unlist(ticket: nat) returns (callback: Pending)
      requires Valid() && ticket in expiring
      modifies this, deferreds, deferreds.repr
      ensures Valid() && deferreds.repr == old(deferreds.repr)
      ensures model == C.Unlisted(old(model), ticket) && callback == old(model).expiring[ticket].callback
    {
      var request := expiring[ticket];
      callback := request.callback;
      ghost var c := C.Unlisted(model, ticket);
      UnlistedFields(model, ticket);
      WithdrawAndTidy(request.key.name, callback);
      CloseWindow(c, ticket);
    }

    /** A timer thread has taken the callback of its request off the list. */
    method CloseWindow(ghost c: C.Corr, ticket: nat)
      requires RegistryShows(model) && c.slots == model.slots && c.stale == model.stale && c.limit == model.limit
      requires deferreds.Shows(c.lists) && lastMsgId == c.lastId
      requires Captures(expiring, model.expiring) && begun == c.begun && c.expiring == model.expiring - {ticket}
      modifies this`expiring, this`model
      ensures Valid() && model == c
    {
      CapturesLess(expiring, model.expiring, ticket);
      expiring := expiring - {ticket};
      model := c;
    }

    method WithdrawAndTidy(n: Name, callback: Pending)
      requires deferreds.Shows(model.lists)
      modifies deferreds, deferreds.repr
      ensures deferreds.Shows(C.Tidy(C.Withdraw(model, n, callback), n, true).lists)
      ensures deferreds.repr == old(deferreds.repr)
    {
      var list := deferreds.Get(n);
      Withdraw(n, list, n in model.lists, callback);
      deferreds.DropIfEmpty(n, list, n in model.lists, C.Withdraw(model, n, callback).lists);
    }

    /** The other half: the callback is told of the failure. */
    method EndExpiry(ticket: nat) returns (raised: bool)
      requires Valid()
      modifies this, registry, deferreds, deferreds.repr
      ensures Valid() && fresh(deferreds.repr - old(deferreds.repr))
      ensures model == C.ExpiryEnded(old(model), ticket).0 && raised == C.ExpiryEnded(old(model), ticket).1
    {
      raised := false;
      if ticket in expiring {
        var callback := Unlist(ticket);
        raised := RunCallback(C.SendsOf(callback, false), "", null, false);
      }
    }

    /** An expiry that nothing interrupts. */
    method OnRequestTimeout(k: Key) returns (raised: bool)
      requires Valid()
      modifies this, registry, deferreds, deferreds.repr
      ensures Valid() && fresh(deferreds.repr - old(deferreds.repr))
      ensures model == C.Step(old(model), C.Timeout(k))
    {
      ghost var c := C.ExpiryBegun(model, k);
      var ticket := BeginExpiry(k);
      assert model == c && deferreds.repr == old(deferreds.repr);
      raised := EndIfBegun(ticket);
    }

    method EndIfBegun(ticket: Option<nat>) returns (raised: bool)
      requires Valid()
      modifies this, registry, deferreds, deferreds.repr
      ensures Valid() && fresh(deferreds.repr - old(deferreds.repr))
      ensures model == if ticket.Some? then C.ExpiryEnded(old(model), ticket.value).0 else old(model)
    {
      raised := false;
      if ticket.Some? {
        raised := EndExpiry(ticket.value);
      }
    }

    /** The correlation part of a session reset. */
    method ResetSession()
      requires Valid()
      modifies this, registry, deferreds
      ensures Valid() && model == C.WasReset(old(model)) && deferreds.repr == old(deferreds.repr)
    {
      var _, _ := registry.CancelAllRequests(false);
      deferreds.lists := map[];
      Adopt(C.WasReset(model));
    }

    /** `self._deferreds[name]`, as handleMessage looks at it when it logs and
        at its end: on a defaultdict, an empty list stays behind. */
    method LookAt(name: Name)
      requires Valid()
      modifies this`model, deferreds
      ensures Valid() && fresh(deferreds.repr - old(deferreds.repr)) && model == C.Looked(old(model), name)
    {
      ghost var c := C.Looked(model, name);
      if name !in deferreds.lists {
        var _ := deferreds.Index(name, model.lists, "", null, false);
        Adopt(c);
      }
    }

    method Handle(e: C.Event) returns (raised: bool)
      requires Valid()
      modifies this, registry, deferreds, deferreds.repr
      ensures Valid() && fresh(deferreds.repr - old(deferreds.repr))
      ensures model == C.Step(old(model), e)
    {
      raised := false;
      match e
      case Request(s) => raised := SendRequest(s, "", null, false);
      case Response(k, ok, dispatched) => raised := HandleMessage(k, ok, dispatched);
      case BeginExpiry(k) => var _ := BeginExpiry(k);
      case EndExpiry(t) => raised := EndExpiry(t);
      case Timeout(k) => raised := OnRequestTimeout(k);
      case Look(n) => LookAt(n);
      case Reset => ResetSession();
    }

    /** Any sequence of sends, responses, expiries and resets. */
    method Drive(events: seq<C.Event>)
      requires Valid()
      modifies this, registry, deferreds, deferreds.repr
      ensures Valid() && model == C.Run(old(model), events)
      decreases |events|
    {
      if events == [] {
        return;
      }
      var _ := Handle(events[0]);
      Drive(events[1..]);
    }
  }

  lemma UnlistedFields(c: C.Corr, t: nat)
    requires t in c.expiring
    ensures var d, x := C.Unlisted(c, t), c.expiring[t];
            && d.slots == c.slots && d.stale == c.stale && d.limit == c.limit
            && d.lastId == c.lastId && d.begun == c.begun && d.expiring == c.expiring - {t}
            && d.lists == C.Tidy(C.Withdraw(c, x.key.name, x.callback), x.key.name, true).lists
  {
  }

  lemma WithoutListed(l: Option<C.Listing>, cb: C.Callback)
    ensures Without(ItemsOf(l), cb) == if l.Some? && l.value.callback == cb then [] else ItemsOf(l)
  {
    if l.Some? {
      assert ItemsOf(l)[1..] == [];
    }
  }
}
