/**
 Request/response correlation on values: the pending requests by response name,
 the dictionary of callback lists, the remembered stale keys and the requests
 whose expiry has begun but whose callback has not run. Module
 CorrelationClient proves that the registry, the callback lists on the heap,
 `_send_request`, `handleMessage` and `processDeferreds` implement it.
 */
module Correlation {
  import opened Prelude
  import opened Registry

  // ------------------------------------------------------------- the machine

  /** A completion callback, by the requests it goes on to send. */
  datatype Callback = Callback(tag: nat, onSuccess: seq<Send>, onFailure: seq<Send>)

  /** A request: the response it waits for, its callback, whether the message
      is encoded and written, and whether the sender catches the error of a
      request that cannot be sent. */
  datatype Send = Send(name: Name, callback: Option<Callback>, written: bool, caught: bool)

  datatype Slot = Slot(id: nat, callback: Option<Callback>, serial: nat)

  /** A callback in the list of its response name. */
  datatype Listing = Listing(serial: nat, callback: Callback)

  /** A request that the registry let go of and whose callback is still to run. */
  datatype Expired = Expired(serial: nat, key: Key, callback: Option<Callback>)

  datatype Cause = Answer(key: Key) | TimedOut | Fallback(key: Key)

  /** One completion: which request, with what result, and because of what. */
  datatype Completion = Completion(serial: nat, ok: bool, cause: Cause)

  /** Requests are numbered by their position in `sent`. `lists` is the
      dictionary of callback lists, which never hold more than one callback;
      an empty list may stay in it. `dropped` are the requests whose write
      failed or whose session was reset. */
  datatype Corr = Corr(
    slots: map<Name, Slot>,
    lists: map<Name, Option<Listing>>,
    stale: seq<Key>,
    limit: nat,
    retirements: nat,
    lastId: nat,
    sent: seq<Key>,
    completed: seq<Completion>,
    dropped: set<nat>,
    expiring: map<nat, Expired>,
    begun: nat)

  function ListedFor(c: Corr, n: Name): Option<Listing> {
    if n in c.lists then c.lists[n] else None
  }

  predicate Awaits(c: Corr, k: Key) {
    k.name in c.slots && c.slots[k.name].id == k.id
  }

  /** The single-outstanding test of _send_request. */
  predicate Busy(c: Corr, n: Name) {
    n in c.slots || ListedFor(c, n).Some?
  }

  /** _send_request. The callback is listed and the request registered before
      it is written, and both are undone when the write fails, which also
      takes the emptied list out of the dictionary. The flag says whether it
      raised. */
  function Transmit(c: Corr, s: Send): (Corr, bool) {
    if Busy(c, s.name) then (c, true)
    else
      var id, serial := NextId(c.lastId), |c.sent|;
      var k := Key(s.name, id);
      var d := c.(lastId := id, sent := c.sent + [k], stale := Forgotten(c.stale, k));
      if !s.written then (d.(dropped := c.dropped + {serial}, lists := c.lists - {s.name}), true)
      else
        (d.(slots := c.slots[s.name := Slot(id, s.callback, serial)],
         lists := if s.callback.None? then c.lists
                  else c.lists[s.name := Some(Listing(serial, s.callback.value))]), false)
  }

  /** What a callback sends, up to the first error that it does not catch. */
  function Play(c: Corr, sends: seq<Send>): (Corr, bool)
    decreases |sends|
  {
    if sends == [] then (c, false)
    else
      var (d, raised) := Transmit(c, sends[0]);
      if raised && !sends[0].caught then (d, true) else Play(d, sends[1..])
  }

  /** Whether sending takes the list of `n` out of the dictionary. */
  predicate Unlists(c: Corr, n: Name, sends: seq<Send>)
    decreases |sends|
  {
    && sends != []
    && var (d, raised) := Transmit(c, sends[0]);
    || (sends[0].name == n && !Busy(c, n) && raised)
    || ((!raised || sends[0].caught) && Unlists(d, n, sends[1..]))
  }

  function SendsOf(callback: Option<Callback>, ok: bool): seq<Send> {
    if callback.None? then [] else if ok then callback.value.onSuccess else callback.value.onFailure
  }

  /** The request of `n` leaves the registry and its key is remembered. */
  function Vacate(c: Corr, n: Name): Corr
    requires n in c.slots
  {
    c.(slots := c.slots - {n},
    stale := Retired(c.stale, Key(n, c.slots[n].id), c.limit),
    retirements := c.retirements + 1)
  }

  function Logged(c: Corr, serial: nat, ok: bool, cause: Cause): Corr {
    c.(completed := c.completed + [Completion(serial, ok, cause)])
  }

  /** A callback is taken off the list of `n` if it is there, by equality. */
  function Withdraw(c: Corr, n: Name, callback: Option<Callback>): Corr {
    if n in c.lists && c.lists[n].Some? && Some(c.lists[n].value.callback) == callback
    then c.(lists := c.lists[n := None])
    else c
  }

  /** The last test of processDeferreds: the list it holds, if that is empty,
      is taken to be the one in the dictionary. A list that is no longer in
      the dictionary is always empty. */
  function Tidy(c: Corr, n: Name, attached: bool): Corr {
    if attached && ListedFor(c, n).Some? then c else c.(lists := c.lists - {n})
  }

  /** processDeferreds once the callback to run is known: it runs while the
      list of `n` is held. */
  function RunHeld(c: Corr, n: Name, attached: bool, sends: seq<Send>): (Corr, bool) {
    var (d, raised) := Play(c, sends);
    if raised then (d, true) else (Tidy(d, n, attached && !Unlists(c, n, sends)), false)
  }

  /** The request out of the registry, its callback off the list. */
  function Taken(c: Corr, k: Key, ok: bool): Corr
    requires Awaits(c, k)
  {
    Withdraw(Logged(Vacate(c, k.name), c.slots[k.name].serial, ok, Answer(k)), k.name, c.slots[k.name].callback)
  }

  /** processDeferreds for the awaited key. */
  function Answered(c: Corr, k: Key, ok: bool): (Corr, bool)
    requires Awaits(c, k)
  {
    RunHeld(Taken(c, k, ok), k.name, k.name in c.lists, SendsOf(c.slots[k.name].callback, ok))
  }

  /** processDeferreds for a key that is not pending: a stale one is ignored,
      any other runs whatever is listed. */
  function Unmatched(c: Corr, k: Key, ok: bool): (Corr, bool) {
    if k in c.stale || ListedFor(c, k.name).None? then (Tidy(c, k.name, true), false)
    else
      var l := c.lists[k.name].value;
      RunHeld(Logged(c.(lists := c.lists[k.name := None]), l.serial, ok, Fallback(k)),
              k.name, true, SendsOf(Some(l.callback), ok))
  }

  /** The installed processDeferreds, for a response that carries an ID. */
  function Processed(c: Corr, k: Key, ok: bool): (Corr, bool) {
    if Awaits(c, k) then Answered(c, k, ok) else Unmatched(c, k, ok)
  }

  /** The guards of handleMessage: a stale response, and one that differs from
      the request that is pending for its name, are ignored. */
  predicate Guarded(c: Corr, k: Key) {
    k in c.stale || (k.name in c.slots && !Awaits(c, k))
  }

  /** The registry's half of an expiry. */
  function ExpiryBegun(c: Corr, k: Key): Corr {
    if !Awaits(c, k) then c
    else
      var slot := c.slots[k.name];
      Vacate(c, k.name).(expiring := c.expiring[c.begun := Expired(slot.serial, k, slot.callback)],
                         begun := c.begun + 1)
  }

  /** _on_request_timeout, before the callback: it is taken off its list. */
  function Unlisted(c: Corr, ticket: nat): Corr
    requires ticket in c.expiring
  {
    var x := c.expiring[ticket];
    Tidy(Withdraw(Logged(c.(expiring := c.expiring - {ticket}), x.serial, false, TimedOut), x.key.name, x.callback),
         x.key.name, true)
  }

  /** The second half of an expiry: the callback is told of the failure. */
  function ExpiryEnded(c: Corr, ticket: nat): (Corr, bool) {
    if ticket !in c.expiring then (c, false)
    else Play(Unlisted(c, ticket), SendsOf(c.expiring[ticket].callback, false))
  }

  function SlotSerials(c: Corr): set<nat> {
    set n | n in c.slots :: c.slots[n].serial
  }

  /** The correlation part of a session reset. */
  function WasReset(c: Corr): Corr {
    c.(slots := map[], lists := map[], stale := [], dropped := c.dropped + SlotSerials(c))
  }

  /** A look at the list of `n` in the defaultdict, which puts an empty one there. */
  function Looked(c: Corr, n: Name): Corr {
    if n in c.lists then c else c.(lists := c.lists[n := None])
  }

  datatype Event =
    | Request(send: Send)
    | Response(key: Key, ok: bool, dispatched: bool)
    | BeginExpiry(key: Key)
    | EndExpiry(ticket: nat)
    | Timeout(key: Key)
    | Look(name: Name)
    | Reset

  /** One step. A response is `dispatched` when the client's state lets it
      reach processDeferreds. `Timeout` is an expiry whose two halves follow
      one another. `Look` is what handleMessage does to the lists beside it. */
  function Step(c: Corr, e: Event): Corr {
    match e
    case Request(s) => Transmit(c, s).0
    case Response(k, ok, dispatched) => if Guarded(c, k) || !dispatched then c else Processed(c, k, ok).0
    case BeginExpiry(k) => ExpiryBegun(c, k)
    case EndExpiry(t) => ExpiryEnded(c, t).0
    case Timeout(k) => if Awaits(c, k) then ExpiryEnded(ExpiryBegun(c, k), c.begun).0 else c
    case Look(n) => Looked(c, n)
    case Reset => WasReset(c)
  }

  function Run(c: Corr, es: seq<Event>): Corr
    decreases |es|
  {
    if es == [] then c else Run(Step(c, es[0]), es[1..])
  }

  function Initial(limit: nat): Corr {
    Corr(map[], map[], [], limit, 0, 0, [], [], {}, map[], 0)
  }

  // ------------------------------------------------------------- invariants

  ghost predicate InSlot(slots: map<Name, Slot>, serial: nat) {
    exists n :: n in slots && slots[n].serial == serial
  }

  ghost predicate InWindow(expiring: map<nat, Expired>, serial: nat) {
    exists t :: t in expiring && expiring[t].serial == serial
  }

  ghost predicate IsListed(lists: map<Name, Option<Listing>>, serial: nat) {
    exists n :: n in lists && lists[n].Some? && lists[n].value.serial == serial
  }

  ghost predicate IsFinished(completed: seq<Completion>, serial: nat) {
    exists i :: 0 <= i < |completed| && completed[i].serial == serial
  }

  /** Every slot is the request that its serial names. */
  ghost predicate SlotsNamed(c: Corr) {
    forall n | n in c.slots :: c.slots[n].serial < |c.sent| && c.sent[c.slots[n].serial] == Key(n, c.slots[n].id)
  }

  /** So is every request whose expiry has begun, and none is there twice. */
  ghost predicate WindowsNamed(c: Corr) {
    && (forall t | t in c.expiring :: t < c.begun && WindowNamed(c, c.expiring[t]))
    && (forall t, u | t in c.expiring && u in c.expiring && c.expiring[t].serial == c.expiring[u].serial :: t == u)
  }

  ghost predicate WindowNamed(c: Corr, x: Expired) {
    x.serial < |c.sent| && c.sent[x.serial] == x.key && !InSlot(c.slots, x.serial)
  }

  /** What is listed belongs to the pending request of the name, or to one
      whose expiry has begun. */
  ghost predicate ListingsOwned(c: Corr) {
    forall n | n in c.lists && c.lists[n].Some? :: ListingOwned(c.slots, c.expiring, n, c.lists[n].value)
  }

  ghost predicate ListingOwned(slots: map<Name, Slot>, expiring: map<nat, Expired>, n: Name, l: Listing) {
    if n in slots then slots[n].serial == l.serial && slots[n].callback == Some(l.callback)
    else WindowOwns(expiring, n, l)
  }

  ghost predicate WindowOwns(expiring: map<nat, Expired>, n: Name, l: Listing) {
    exists t :: t in expiring && expiring[t].serial == l.serial
                && expiring[t].callback == Some(l.callback) && expiring[t].key.name == n
  }

  /** A request completes twice only when its timeout follows a fallback. */
  ghost predicate CompletedOnce(completed: seq<Completion>) {
    forall i, j | 0 <= i < j < |completed| && completed[i].serial == completed[j].serial ::
      completed[i].cause.Fallback? && completed[j].cause.TimedOut?
  }

  ghost predicate CompletedIsOver(c: Corr) {
    forall i | 0 <= i < |c.completed| :: IsOver(c, c.completed[i])
  }

  ghost predicate IsOver(c: Corr, x: Completion) {
    && x.serial < |c.sent| && x.serial !in c.dropped
    && !InSlot(c.slots, x.serial) && !IsListed(c.lists, x.serial)
    && (InWindow(c.expiring, x.serial) ==> x.cause.Fallback?)
    && (x.cause.Answer? ==> x.cause.key == c.sent[x.serial]) && (x.ok ==> !x.cause.TimedOut?)
  }

  ghost predicate DroppedIsOver(c: Corr) {
    forall s | s in c.dropped :: s < |c.sent| && !InSlot(c.slots, s) && !InWindow(c.expiring, s)
  }

  /** Every request sent is pending, about to be told of its expiry,
      completed or dropped. */
  ghost predicate Accounted(c: Corr) {
    forall s | 0 <= s < |c.sent| :: IsAccounted(c, s)
  }

  ghost predicate IsAccounted(c: Corr, s: nat) {
    InSlot(c.slots, s) || InWindow(c.expiring, s) || IsFinished(c.completed, s) || s in c.dropped
  }

  ghost predicate NotStale(c: Corr) {
    && c.limit >= 1 && Distinct(c.stale)
    && (forall n | n in c.slots :: Key(n, c.slots[n].id) !in c.stale)
  }

  ghost predicate CInv(c: Corr) {
    && SlotsNamed(c) && WindowsNamed(c) && ListingsOwned(c) && CompletedOnce(c.completed) && CompletedIsOver(c)
    && DroppedIsOver(c) && Accounted(c) && NotStale(c)
  }

  lemma NewSlot(slots: map<Name, Slot>, n: Name, slot: Slot, x: nat)
    requires n !in slots
    ensures InSlot(slots[n := slot], x) <==> InSlot(slots, x) || x == slot.serial
  {
    if InSlot(slots, x) {
      var m :| m in slots && slots[m].serial == x;
      assert slots[n := slot][m].serial == x;
    }
    assert slots[n := slot][n] == slot;
  }

  lemma NewListing(lists: map<Name, Option<Listing>>, n: Name, l: Option<Listing>, x: nat)
    ensures IsListed(lists[n := l], x) ==> IsListed(lists, x) || (l.Some? && x == l.value.serial)
    ensures IsListed(lists - {n}, x) ==> IsListed(lists, x)
  {
  }

  /** Sending keeps the invariant, whether the request is refused, written
      or not written. */
  lemma TransmitInv(c: Corr, s: Send)
    requires CInv(c)
    ensures CInv(Transmit(c, s).0)
  {
    if !Busy(c, s.name) {
      DropElements(c.stale, Key(s.name, NextId(c.lastId)));
      if s.written {
        WrittenInv(c, s);
      } else {
        UnwrittenInv(c, s);
      }
    }
  }

  lemma WrittenInv(c: Corr, s: Send)
    requires CInv(c) && !Busy(c, s.name) && s.written
    requires var k := Key(s.name, NextId(c.lastId)); Distinct(Forgotten(c.stale, k)) && k !in Forgotten(c.stale, k)
    requires forall k :: k in Forgotten(c.stale, Key(s.name, NextId(c.lastId))) ==> k in c.stale
    ensures CInv(Transmit(c, s).0)
  {
    var d, serial := Transmit(c, s).0, |c.sent|;
    var slot := Slot(NextId(c.lastId), s.callback, serial);
    forall x: nat
      ensures InSlot(d.slots, x) <==> InSlot(c.slots, x) || x == serial
      ensures IsListed(d.lists, x) ==> IsListed(c.lists, x) || x == serial
    {
      NewSlot(c.slots, s.name, slot, x);
      if s.callback.Some? {
        NewListing(c.lists, s.name, Some(Listing(serial, s.callback.value)), x);
      }
    }
    assert WindowsNamed(d);
    forall i | 0 <= i < |d.completed|
      ensures IsOver(d, d.completed[i])
    {
      assert IsOver(c, c.completed[i]);
    }
    forall x | 0 <= x < |d.sent|
      ensures IsAccounted(d, x)
    {
      assert x < serial ==> IsAccounted(c, x);
    }
  }

  lemma UnwrittenInv(c: Corr, s: Send)
    requires CInv(c) && !Busy(c, s.name) && !s.written
    requires var k := Key(s.name, NextId(c.lastId)); Distinct(Forgotten(c.stale, k))
    requires forall k :: k in Forgotten(c.stale, Key(s.name, NextId(c.lastId))) ==> k in c.stale
    ensures CInv(Transmit(c, s).0)
  {
    var d, serial := Transmit(c, s).0, |c.sent|;
    forall x: nat
      ensures IsListed(d.lists, x) ==> IsListed(c.lists, x)
    {
      NewListing(c.lists, s.name, None, x);
    }
    assert WindowsNamed(d);
    assert DroppedIsOver(d);
    forall i | 0 <= i < |d.completed|
      ensures IsOver(d, d.completed[i])
    {
      assert IsOver(c, c.completed[i]);
    }
    forall x | 0 <= x < |d.sent|
      ensures IsAccounted(d, x)
    {
      assert x < serial ==> IsAccounted(c, x);
    }
  }

  lemma {:induction false} PlayInv(c: Corr, sends: seq<Send>)
    requires CInv(c)
    ensures CInv(Play(c, sends).0)
    decreases |sends|
  {
    if sends == [] {
    } else {
      TransmitInv(c, sends[0]);
      PlayInv(Transmit(c, sends[0]).0, sends[1..]);
    }
  }

  lemma TidyInv(c: Corr, n: Name, attached: bool)
    requires CInv(c)
    ensures CInv(Tidy(c, n, attached))
  {
    var d := Tidy(c, n, attached);
    forall x: nat
      ensures IsListed(d.lists, x) ==> IsListed(c.lists, x)
    {
      NewListing(c.lists, n, None, x);
    }
    forall i | 0 <= i < |d.completed|
      ensures IsOver(d, d.completed[i])
    {
      assert IsOver(c, c.completed[i]);
    }
    forall x | 0 <= x < |d.sent|
      ensures IsAccounted(d, x)
    {
      assert IsAccounted(c, x);
    }
  }

  lemma LookedInv(c: Corr, n: Name)
    requires CInv(c)
    ensures CInv(Looked(c, n))
  {
    var d := Looked(c, n);
    forall x: nat
      ensures IsListed(d.lists, x) ==> IsListed(c.lists, x)
    {
      NewListing(c.lists, n, None, x);
    }
    forall i | 0 <= i < |d.completed|
      ensures IsOver(d, d.completed[i])
    {
      assert IsOver(c, c.completed[i]);
    }
    forall x | 0 <= x < |d.sent|
      ensures IsAccounted(d, x)
    {
      assert IsAccounted(c, x);
    }
  }

  lemma RunHeldInv(c: Corr, n: Name, attached: bool, sends: seq<Send>)
    requires CInv(c)
    ensures CInv(RunHeld(c, n, attached, sends).0)
  {
    PlayInv(c, sends);
    TidyInv(Play(c, sends).0, n, attached && !Unlists(c, n, sends));
  }

  lemma SlotGone(slots: map<Name, Slot>, n: Name, x: nat)
    requires n in slots
    requires forall m | m in slots && slots[m].serial == slots[n].serial :: m == n
    ensures InSlot(slots - {n}, x) <==> InSlot(slots, x) && x != slots[n].serial
  {
    if InSlot(slots, x) && x != slots[n].serial {
      var m :| m in slots && slots[m].serial == x;
      assert m in slots - {n};
    }
    if InSlot(slots - {n}, x) {
      var m :| m in slots - {n} && slots[m].serial == x;
      assert m in slots;
    }
  }

  lemma RetiredKeys(stale: seq<Key>, k: Key, limit: nat)
    requires Distinct(stale)
    ensures Distinct(Retired(stale, k, limit)) && forall x | x in Retired(stale, k, limit) :: x in stale || x == k
  {
  }

  lemma FinishedGrows(completed: seq<Completion>, c: Completion, x: nat)
    ensures IsFinished(completed + [c], x) <==> IsFinished(completed, x) || x == c.serial
  {
    if IsFinished(completed, x) {
      var i :| 0 <= i < |completed| && completed[i].serial == x;
      assert (completed + [c])[i].serial == x;
    }
    assert (completed + [c])[|completed|] == c;
  }

  /** A pending request has not completed and is listed under its own name only. */
  lemma PendingIsNew(c: Corr, n: Name)
    requires CInv(c) && n in c.slots
    ensures !IsFinished(c.completed, c.slots[n].serial) && c.slots[n].serial !in c.dropped
    ensures !InWindow(c.expiring, c.slots[n].serial)
    ensures forall m | m in c.lists && c.lists[m].Some? && c.lists[m].value.serial == c.slots[n].serial ::
              m == n && Some(c.lists[m].value.callback) == c.slots[n].callback
    ensures forall m | m in c.slots && c.slots[m].serial == c.slots[n].serial :: m == n
  {
    var serial := c.slots[n].serial;
    assert InSlot(c.slots, serial);
    forall i | 0 <= i < |c.completed|
      ensures c.completed[i].serial != serial
    {
      assert IsOver(c, c.completed[i]);
    }
    forall t | t in c.expiring
      ensures c.expiring[t].serial != serial
    {
      assert WindowNamed(c, c.expiring[t]);
    }
    forall m | m in c.lists && c.lists[m].Some? && c.lists[m].value.serial == serial
      ensures m == n && Some(c.lists[m].value.callback) == c.slots[n].callback
    {
      assert ListingOwned(c.slots, c.expiring, m, c.lists[m].value);
    }
  }

  lemma TakenInv(c: Corr, k: Key, ok: bool)
    requires CInv(c) && Awaits(c, k)
    ensures CInv(Taken(c, k, ok))
  {
    var d, n, serial := Taken(c, k, ok), k.name, c.slots[k.name].serial;
    PendingIsNew(c, n);
    RetiredKeys(c.stale, k, c.limit);
    TakenNames(c, k, ok);
    forall i | 0 <= i < |d.completed|
      ensures IsOver(d, d.completed[i])
    {
      if i < |c.completed| {
        assert IsOver(c, c.completed[i]) && d.completed[i] == c.completed[i];
      }
    }
    forall x | 0 <= x < |d.sent|
      ensures IsAccounted(d, x)
    {
      assert IsAccounted(c, x);
    }
  }

  lemma TakenNames(c: Corr, k: Key, ok: bool)
    requires CInv(c) && Awaits(c, k)
    ensures var d, serial := Taken(c, k, ok), c.slots[k.name].serial;
            && SlotsNamed(d) && WindowsNamed(d) && ListingsOwned(d)
            && (forall x: nat :: InSlot(d.slots, x) <==> InSlot(c.slots, x) && x != serial)
            && (forall x: nat :: IsListed(d.lists, x) ==> IsListed(c.lists, x) && x != serial)
            && (forall x: nat :: IsFinished(d.completed, x) <==> IsFinished(c.completed, x) || x == serial)
  {
    var d, n, serial := Taken(c, k, ok), k.name, c.slots[k.name].serial;
    PendingIsNew(c, n);
    forall x: nat
      ensures InSlot(d.slots, x) <==> InSlot(c.slots, x) && x != serial
      ensures IsListed(d.lists, x) ==> IsListed(c.lists, x) && x != serial
      ensures IsFinished(d.completed, x) <==> IsFinished(c.completed, x) || x == serial
    {
      SlotGone(c.slots, n, x);
      NewListing(c.lists, n, None, x);
      FinishedGrows(c.completed, Completion(serial, ok, Answer(k)), x);
    }
    forall m | m in d.lists && d.lists[m].Some?
      ensures ListingOwned(d.slots, d.expiring, m, d.lists[m].value)
    {
      assert ListingOwned(c.slots, c.expiring, m, c.lists[m].value);
    }
  }

  /** What a fallback takes off a list: the request whose expiry has begun. */
  lemma FallbackInv(c: Corr, k: Key, ok: bool)
    requires CInv(c) && k.name !in c.slots && ListedFor(c, k.name).Some?
    ensures CInv(Logged(c.(lists := c.lists[k.name := None]), c.lists[k.name].value.serial, ok, Fallback(k)))
  {
    var serial := c.lists[k.name].value.serial;
    var d := Logged(c.(lists := c.lists[k.name := None]), serial, ok, Fallback(k));
    assert ListingOwned(c.slots, c.expiring, k.name, c.lists[k.name].value);
    assert IsListed(c.lists, serial) && InWindow(c.expiring, serial);
    forall m | m in c.lists && c.lists[m].Some? && c.lists[m].value.serial == serial
      ensures m == k.name
    {
      assert ListingOwned(c.slots, c.expiring, m, c.lists[m].value);
    }
    forall x: nat
      ensures IsListed(d.lists, x) ==> IsListed(c.lists, x) && x != serial
      ensures IsFinished(d.completed, x) <==> IsFinished(c.completed, x) || x == serial
    {
      NewListing(c.lists, k.name, None, x);
      FinishedGrows(c.completed, Completion(serial, ok, Fallback(k)), x);
    }
    forall i | 0 <= i < |d.completed|
      ensures IsOver(d, d.completed[i]) && (i < |c.completed| ==> d.completed[i].serial != serial)
    {
      if i < |c.completed| {
        assert IsOver(c, c.completed[i]) && d.completed[i] == c.completed[i];
      }
    }
    forall x | 0 <= x < |d.sent|
      ensures IsAccounted(d, x)
    {
      assert IsAccounted(c, x);
    }
  }

  lemma ProcessedInv(c: Corr, k: Key, ok: bool)
    requires CInv(c) && !Guarded(c, k)
    ensures CInv(Processed(c, k, ok).0)
  {
    if Awaits(c, k) {
      TakenInv(c, k, ok);
      RunHeldInv(Taken(c, k, ok), k.name, k.name in c.lists, SendsOf(c.slots[k.name].callback, ok));
    } else if ListedFor(c, k.name).None? {
      TidyInv(c, k.name, true);
    } else {
      var l := c.lists[k.name].value;
      FallbackInv(c, k, ok);
      RunHeldInv(Logged(c.(lists := c.lists[k.name := None]), l.serial, ok, Fallback(k)),
                 k.name, true, SendsOf(Some(l.callback), ok));
    }
  }

  lemma NewWindow(expiring: map<nat, Expired>, t: nat, e: Expired, x: nat)
    requires t !in expiring
    ensures InWindow(expiring[t := e], x) <==> InWindow(expiring, x) || x == e.serial
  {
    if InWindow(expiring, x) {
      var u :| u in expiring && expiring[u].serial == x;
      assert expiring[t := e][u].serial == x;
    }
    assert expiring[t := e][t] == e;
  }

  lemma ExpiryBegunInv(c: Corr, k: Key)
    requires CInv(c)
    ensures CInv(ExpiryBegun(c, k))
  {
    if Awaits(c, k) {
      var d, serial := ExpiryBegun(c, k), c.slots[k.name].serial;
      PendingIsNew(c, k.name);
      RetiredKeys(c.stale, k, c.limit);
      ExpiryBegunNames(c, k);
      forall i | 0 <= i < |d.completed|
        ensures IsOver(d, d.completed[i])
      {
        assert IsOver(c, c.completed[i]);
      }
      forall x | 0 <= x < |d.sent|
        ensures IsAccounted(d, x)
      {
        assert IsAccounted(c, x);
      }
    }
  }

  lemma ExpiryBegunNames(c: Corr, k: Key)
    requires CInv(c) && Awaits(c, k)
    ensures var d, serial := ExpiryBegun(c, k), c.slots[k.name].serial;
            && SlotsNamed(d) && WindowsNamed(d) && ListingsOwned(d)
            && (forall x: nat :: InSlot(d.slots, x) <==> InSlot(c.slots, x) && x != serial)
            && (forall x: nat :: InWindow(d.expiring, x) <==> InWindow(c.expiring, x) || x == serial)
  {
    var d, n, slot := ExpiryBegun(c, k), k.name, c.slots[k.name];
    var e := Expired(slot.serial, k, slot.callback);
    PendingIsNew(c, n);
    forall x: nat
      ensures InSlot(d.slots, x) <==> InSlot(c.slots, x) && x != slot.serial
      ensures InWindow(d.expiring, x) <==> InWindow(c.expiring, x) || x == slot.serial
    {
      SlotGone(c.slots, n, x);
      NewWindow(c.expiring, c.begun, e, x);
    }
    forall t | t in d.expiring
      ensures t < d.begun && WindowNamed(d, d.expiring[t])
    {
      if t != c.begun {
        assert WindowNamed(c, c.expiring[t]);
      }
    }
    forall m | m in d.lists && d.lists[m].Some?
      ensures ListingOwned(d.slots, d.expiring, m, d.lists[m].value)
    {
      var l := c.lists[m].value;
      assert ListingOwned(c.slots, c.expiring, m, l);
      if m == n {
        assert d.expiring[c.begun] == e;
      } else if m !in c.slots {
        var t :| t in c.expiring && c.expiring[t].serial == l.serial
                 && c.expiring[t].callback == Some(l.callback) && c.expiring[t].key.name == m;
        assert d.expiring[t] == c.expiring[t];
      }
    }
  }

  lemma WindowGone(expiring: map<nat, Expired>, t: nat, x: nat)
    requires t in expiring
    requires forall u | u in expiring && expiring[u].serial == expiring[t].serial :: u == t
    ensures InWindow(expiring - {t}, x) <==> InWindow(expiring, x) && x != expiring[t].serial
  {
    if InWindow(expiring, x) && x != expiring[t].serial {
      var u :| u in expiring && expiring[u].serial == x;
      assert u in expiring - {t};
    }
    if InWindow(expiring - {t}, x) {
      var u :| u in expiring - {t} && expiring[u].serial == x;
      assert u in expiring;
    }
  }

  /** The parts of the invariant about names, with the callback off its list. */
  lemma UnlistedNames(c: Corr, t: nat)
    requires CInv(c) && t in c.expiring
    ensures var d, serial := Unlisted(c, t), c.expiring[t].serial;
            && SlotsNamed(d) && WindowsNamed(d) && ListingsOwned(d)
            && (forall x: nat :: InWindow(d.expiring, x) <==> InWindow(c.expiring, x) && x != serial)
            && (forall x: nat :: IsListed(d.lists, x) ==> IsListed(c.lists, x) && x != serial)
            && (forall x: nat :: IsFinished(d.completed, x) <==> IsFinished(c.completed, x) || x == serial)
  {
    var d, w := Unlisted(c, t), c.expiring[t];
    assert WindowNamed(c, w);
    UnlistedLists(c, t);
    forall x: nat
      ensures InWindow(d.expiring, x) <==> InWindow(c.expiring, x) && x != w.serial
      ensures IsFinished(d.completed, x) <==> IsFinished(c.completed, x) || x == w.serial
    {
      WindowGone(c.expiring, t, x);
      FinishedGrows(c.completed, Completion(w.serial, false, TimedOut), x);
    }
    forall m | m in d.lists && d.lists[m].Some?
      ensures ListingOwned(d.slots, d.expiring, m, d.lists[m].value)
    {
      var l := d.lists[m].value;
      assert IsListed(d.lists, l.serial);
      assert ListingOwned(c.slots, c.expiring, m, l);
      if m !in c.slots {
        var u :| u in c.expiring && c.expiring[u].serial == l.serial
                 && c.expiring[u].callback == Some(l.callback) && c.expiring[u].key.name == m;
        assert u != t && d.expiring[u] == c.expiring[u];
      }
    }
  }

  lemma UnlistedLists(c: Corr, t: nat)
    requires CInv(c) && t in c.expiring
    ensures var d, serial := Unlisted(c, t), c.expiring[t].serial;
            && (forall n | n in d.lists :: n in c.lists && d.lists[n] == c.lists[n])
            && (forall x: nat :: IsListed(d.lists, x) ==> IsListed(c.lists, x) && x != serial)
  {
    var d, w := Unlisted(c, t), c.expiring[t];
    assert WindowNamed(c, w);
    forall m | m in c.lists && c.lists[m].Some? && c.lists[m].value.serial == w.serial
      ensures m == w.key.name && Some(c.lists[m].value.callback) == w.callback
    {
      var l := c.lists[m].value;
      assert ListingOwned(c.slots, c.expiring, m, l);
      assert forall y | y in c.slots :: InSlot(c.slots, c.slots[y].serial);
      var u :| u in c.expiring && c.expiring[u].serial == l.serial
               && c.expiring[u].callback == Some(l.callback) && c.expiring[u].key.name == m;
      assert u == t;
    }
  }

  lemma UnlistedInv(c: Corr, t: nat)
    requires CInv(c) && t in c.expiring
    ensures CInv(Unlisted(c, t))
  {
    var d, w := Unlisted(c, t), c.expiring[t];
    UnlistedNames(c, t);
    assert InWindow(c.expiring, w.serial) && WindowNamed(c, w);
    forall i | 0 <= i < |d.completed|
      ensures IsOver(d, d.completed[i])
      ensures i < |c.completed| && d.completed[i].serial == w.serial ==> d.completed[i].cause.Fallback?
    {
      if i < |c.completed| {
        assert IsOver(c, c.completed[i]) && d.completed[i] == c.completed[i];
      }
    }
    assert CompletedOnce(d.completed);
    forall x | 0 <= x < |d.sent|
      ensures IsAccounted(d, x)
    {
      assert IsAccounted(c, x);
    }
  }

  lemma ExpiryEndedInv(c: Corr, t: nat)
    requires CInv(c)
    ensures CInv(ExpiryEnded(c, t).0)
  {
    if t in c.expiring {
      UnlistedInv(c, t);
      PlayInv(Unlisted(c, t), SendsOf(c.expiring[t].callback, false));
    }
  }

  lemma ResetInv(c: Corr)
    requires CInv(c)
    ensures CInv(WasReset(c))
  {
    var d := WasReset(c);
    forall x: nat
      ensures x in SlotSerials(c) <==> InSlot(c.slots, x)
      ensures !InSlot(d.slots, x)
      ensures !IsListed(d.lists, x)
    {
    }
    forall t | t in c.expiring
      ensures WindowNamed(d, d.expiring[t]) && c.expiring[t].serial !in SlotSerials(c)
    {
      assert WindowNamed(c, c.expiring[t]);
    }
    forall i | 0 <= i < |d.completed|
      ensures IsOver(d, d.completed[i])
    {
      assert IsOver(c, c.completed[i]);
    }
    forall x | 0 <= x < |d.sent|
      ensures IsAccounted(d, x)
    {
      assert IsAccounted(c, x);
    }
  }

  /** Every event keeps the invariant. */
  lemma StepInv(c: Corr, e: Event)
    requires CInv(c)
    ensures CInv(Step(c, e))
  {
    match e
    case Request(s) => TransmitInv(c, s);
    case Response(k, ok, _) => if !Guarded(c, k) { ProcessedInv(c, k, ok); }
    case BeginExpiry(k) => ExpiryBegunInv(c, k);
    case EndExpiry(t) => ExpiryEndedInv(c, t);
    case Timeout(k) =>
      ExpiryBegunInv(c, k);
      ExpiryEndedInv(ExpiryBegun(c, k), c.begun);
    case Look(n) => LookedInv(c, n);
    case Reset => ResetInv(c);
  }

  lemma {:induction false} RunInv(c: Corr, es: seq<Event>)
    requires CInv(c)
    ensures CInv(Run(c, es))
    decreases |es|
  {
    if es == [] {
    } else {
      StepInv(c, es[0]);
      RunInv(Step(c, es[0]), es[1..]);
    }
  }

  lemma InitialInv(limit: nat)
    requires limit >= 1
    ensures CInv(Initial(limit))
  {
  }

  // ------------------------------------------------------ callback integrity

  /** An event after which no expiry is left half done. */
  predicate IsAtomic(e: Event) {
    !e.BeginExpiry? && !e.EndExpiry?
  }

  predicate AllAtomic(es: seq<Event>) {
    forall i | 0 <= i < |es| :: IsAtomic(es[i])
  }

  /** No expiry is half done and no callback has been run by a fallback. */
  ghost predicate NoFallback(c: Corr) {
    c.expiring == map[] && forall i | 0 <= i < |c.completed| :: !c.completed[i].cause.Fallback?
  }

  /** Sending leaves the completions and the half-done expiries alone. */
  lemma {:induction false} PlayKeeps(c: Corr, sends: seq<Send>)
    ensures var d := Play(c, sends).0;
            && d.completed == c.completed && d.expiring == c.expiring && d.begun == c.begun
            && d.limit == c.limit && d.retirements == c.retirements && |d.sent| >= |c.sent|
    decreases |sends|
  {
    if sends == [] {
    } else {
      PlayKeeps(Transmit(c, sends[0]).0, sends[1..]);
    }
  }

  lemma FreeIsUnlisted(c: Corr, n: Name)
    requires ListingsOwned(c) && c.expiring == map[] && n !in c.slots
    ensures ListedFor(c, n).None?
  {
  }

  lemma AtomicResponse(c: Corr, k: Key, ok: bool)
    requires CInv(c) && NoFallback(c) && !Guarded(c, k)
    ensures NoFallback(Processed(c, k, ok).0)
  {
    if Awaits(c, k) {
      PlayKeeps(Taken(c, k, ok), SendsOf(c.slots[k.name].callback, ok));
    } else {
      FreeIsUnlisted(c, k.name);
    }
  }

  lemma AtomicTimeout(c: Corr, k: Key)
    requires NoFallback(c) && Awaits(c, k)
    ensures NoFallback(Step(c, Timeout(k)))
  {
    var d := ExpiryBegun(c, k);
    PlayKeeps(Unlisted(d, c.begun), SendsOf(d.expiring[c.begun].callback, false));
    assert d.expiring - {c.begun} == map[];
  }

  lemma AtomicStep(c: Corr, e: Event)
    requires CInv(c) && NoFallback(c) && IsAtomic(e)
    ensures NoFallback(Step(c, e))
  {
    match e
    case Response(k, ok, _) => if !Guarded(c, k) { AtomicResponse(c, k, ok); }
    case Timeout(k) => if Awaits(c, k) { AtomicTimeout(c, k); }
    case _ =>
  }

  lemma {:induction false} AtomicRun(c: Corr, es: seq<Event>)
    requires CInv(c) && NoFallback(c) && AllAtomic(es)
    ensures CInv(Run(c, es)) && NoFallback(Run(c, es))
    decreases |es|
  {
    if es == [] {
    } else {
      StepInv(c, es[0]);
      AtomicStep(c, es[0]);
      AtomicRun(Step(c, es[0]), es[1..]);
    }
  }

  /** Callback integrity, over every run of requests, responses, timeouts and
      session resets, whatever errors the callbacks catch: each request
      completes at most once, by its timeout with failure or by a response whose
      name and message ID are both its own, the fallback runs nothing, and every
      request sent is still pending, has completed or was dropped. */
  lemma CallbackIntegrity(limit: nat, es: seq<Event>)
    requires limit >= 1 && AllAtomic(es)
    ensures var c := Run(Initial(limit), es);
            && (forall i, j | 0 <= i < j < |c.completed| :: c.completed[i].serial != c.completed[j].serial)
            && (forall i | 0 <= i < |c.completed| ::
                  && c.completed[i].serial < |c.sent|
                  && (c.completed[i].cause == Answer(c.sent[c.completed[i].serial])
                      || (c.completed[i].cause == TimedOut && !c.completed[i].ok)))
            && (forall s | 0 <= s < |c.sent| ::
                  InSlot(c.slots, s) || IsFinished(c.completed, s) || s in c.dropped)
  {
    InitialInv(limit);
    AtomicRun(Initial(limit), es);
    var c := Run(Initial(limit), es);
    forall i | 0 <= i < |c.completed|
      ensures IsOver(c, c.completed[i])
    {
    }
    forall s | 0 <= s < |c.sent|
      ensures InSlot(c.slots, s) || IsFinished(c.completed, s) || s in c.dropped
    {
      assert IsAccounted(c, s);
    }
  }

  /** The same with expiries that other events interrupt: a request completes
      a second time only when the timeout follows a fallback in the window of
      its expiry, and success comes from its own key or from a fallback. */
  lemma WindowedIntegrity(limit: nat, es: seq<Event>)
    requires limit >= 1
    ensures var c := Run(Initial(limit), es);
            && (forall i, j | 0 <= i < j < |c.completed| && c.completed[i].serial == c.completed[j].serial ::
                  c.completed[i].cause.Fallback? && c.completed[j].cause.TimedOut?)
            && (forall i | 0 <= i < |c.completed| && c.completed[i].ok && !c.completed[i].cause.Fallback? ::
                  c.completed[i].serial < |c.sent| && c.completed[i].cause == Answer(c.sent[c.completed[i].serial]))
            && (forall s | 0 <= s < |c.sent| :: IsAccounted(c, s))
  {
    InitialInv(limit);
    RunInv(Initial(limit), es);
    var c := Run(Initial(limit), es);
    forall i | 0 <= i < |c.completed|
      ensures IsOver(c, c.completed[i])
    {
    }
  }

  /** A response to the awaited request completes it, and it alone, with the
      result that the response has. */
  lemma ResponseCompletes(c: Corr, k: Key, ok: bool)
    requires CInv(c) && Awaits(c, k)
    ensures Step(c, Response(k, ok, true)).completed ==
            c.completed + [Completion(c.slots[k.name].serial, ok, Answer(k))]
  {
    assert k == Key(k.name, c.slots[k.name].id) && k !in c.stale;
    PlayKeeps(Taken(c, k, ok), SendsOf(c.slots[k.name].callback, ok));
  }

  /** A timeout of the awaited request completes it, and it alone, with failure. */
  lemma TimeoutCompletes(c: Corr, k: Key)
    requires Awaits(c, k)
    ensures Step(c, Timeout(k)).completed == c.completed + [Completion(c.slots[k.name].serial, false, TimedOut)]
  {
    var b := ExpiryBegun(c, k);
    PlayKeeps(Unlisted(b, c.begun), SendsOf(b.expiring[c.begun].callback, false));
  }

  /** A session reset forgets everything: no response to an earlier request
      completes anything, whatever its name and ID. */
  lemma ResetForgets(c: Corr, k: Key, ok: bool, dispatched: bool)
    ensures var d := Step(c, Reset);
            && d.slots == map[] && d.lists == map[] && d.stale == []
            && Step(d, Response(k, ok, dispatched)).completed == c.completed
  {
  }

  // ------------------------------------------------------------ message IDs

  /** The message ID of the request with this serial number. */
  function IdAt(serial: nat): nat {
    serial % LLRP_MSG_ID_MAX + 1
  }

  lemma NextIdCycles(n: nat)
    ensures NextId(0) == IdAt(0) && NextId(IdAt(n)) == IdAt(n + 1)
  {
  }

  /** IDs are given in order, and start again after the largest. */
  ghost predicate IdsInOrder(c: Corr) {
    && c.lastId == (if c.sent == [] then 0 else IdAt(|c.sent| - 1))
    && forall i | 0 <= i < |c.sent| :: c.sent[i].id == IdAt(i)
  }

  lemma TransmitIds(c: Corr, s: Send)
    requires IdsInOrder(c)
    ensures IdsInOrder(Transmit(c, s).0)
  {
    if c.sent != [] {
      NextIdCycles(|c.sent| - 1);
    }
  }

  lemma {:induction false} PlayIds(c: Corr, sends: seq<Send>)
    requires IdsInOrder(c)
    ensures IdsInOrder(Play(c, sends).0)
    decreases |sends|
  {
    if sends == [] {
    } else {
      TransmitIds(c, sends[0]);
      PlayIds(Transmit(c, sends[0]).0, sends[1..]);
    }
  }

  lemma ProcessedIds(c: Corr, k: Key, ok: bool)
    requires IdsInOrder(c)
    ensures IdsInOrder(Processed(c, k, ok).0)
  {
    if Awaits(c, k) {
      PlayIds(Taken(c, k, ok), SendsOf(c.slots[k.name].callback, ok));
    } else if k !in c.stale && ListedFor(c, k.name).Some? {
      var l := c.lists[k.name].value;
      PlayIds(Logged(c.(lists := c.lists[k.name := None]), l.serial, ok, Fallback(k)), SendsOf(Some(l.callback), ok));
    }
  }

  lemma ExpiryEndedIds(c: Corr, t: nat)
    requires IdsInOrder(c)
    ensures IdsInOrder(ExpiryEnded(c, t).0)
  {
    if t in c.expiring {
      PlayIds(Unlisted(c, t), SendsOf(c.expiring[t].callback, false));
    }
  }

  lemma StepIds(c: Corr, e: Event)
    requires IdsInOrder(c)
    ensures IdsInOrder(Step(c, e))
  {
    match e
    case Request(s) => TransmitIds(c, s);
    case Response(k, ok, _) => ProcessedIds(c, k, ok);
    case EndExpiry(t) => ExpiryEndedIds(c, t);
    case Timeout(k) => ExpiryEndedIds(ExpiryBegun(c, k), c.begun);
    case _ =>
  }

  lemma {:induction false} RunIds(c: Corr, es: seq<Event>)
    requires IdsInOrder(c)
    ensures IdsInOrder(Run(c, es))
    decreases |es|
  {
    if es == [] {
    } else {
      StepIds(c, es[0]);
      RunIds(Step(c, es[0]), es[1..]);
    }
  }

  lemma IdsDiffer(i: nat, j: nat)
    requires i < j < i + LLRP_MSG_ID_MAX
    ensures IdAt(i) != IdAt(j)
  {
  }

  /** Message IDs, over every run: each is an unsigned 32-bit number and not
      zero, and two requests have the same one only if a whole cycle of
      requests was sent between them. */
  lemma FreshIds(limit: nat, es: seq<Event>, i: nat, j: nat)
    requires var c := Run(Initial(limit), es); i < j < |c.sent|
    ensures var c := Run(Initial(limit), es);
            && 1 <= c.sent[i].id <= LLRP_MSG_ID_MAX && c.sent[i].id == IdAt(i)
            && (j - i < LLRP_MSG_ID_MAX ==> c.sent[i].id != c.sent[j].id)
  {
    RunIds(Initial(limit), es);
    if j - i < LLRP_MSG_ID_MAX {
      IdsDiffer(i, j);
    }
  }

  /** Over every run, a response bearing the key of a request completes no
      other request that was sent less than a whole cycle of IDs before or
      after it: neither with success nor with failure. */
  lemma AnswersReachTheirOwn(limit: nat, es: seq<Event>, x: nat, i: nat)
    requires limit >= 1
    requires var c := Run(Initial(limit), es);
             && x < |c.completed| && i < |c.sent| && c.completed[x].cause == Answer(c.sent[i])
             && i - LLRP_MSG_ID_MAX < c.completed[x].serial < i + LLRP_MSG_ID_MAX
    ensures Run(Initial(limit), es).completed[x].serial == i
  {
    InitialInv(limit);
    RunInv(Initial(limit), es);
    RunIds(Initial(limit), es);
    var c := Run(Initial(limit), es);
    var s := c.completed[x].serial;
    assert IsOver(c, c.completed[x]);
    if s < i {
      IdsDiffer(s, i);
    } else if i < s {
      IdsDiffer(i, s);
    }
  }
}
