/**
 `LLRPClient.apply_config` as a transaction: the continuation-passing chain
 stop / SET_READER_CONFIG / ADD_ROSPEC / ENABLE_ROSPEC and the chain that undoes
 any prefix of it, as a transition table over the point at which the client
 waits for a response. The reader is part of the state: a positive response
 means the request took effect, a negative one that the reader changed nothing,
 and a timeout may mean either.
 */
module Transaction {
  import opened Prelude
  import opened ConfigPlan

  // ------------------------------------------------------------------ state

  datatype State =
    | Disconnected | Connected | Inventorying | Paused
    | SentSetConfig | SentAddROSpec | SentEnableROSpec
    | SentDeleteROSpec | SentDeleteAccessSpec
    | OtherState

  datatype Outcome = Success | Failure | Timeout(applied: bool)

  /** The response the client is waiting for; `Done` when the transition ended. */
  datatype Point =
    | StopAccess | StopROSpec | SetNext | AddNext | EnableNext
    | SetPrev | DeleteReplacement | AddPrev | EnablePrev
    | Done

  datatype Status = Pending | Succeeded | Failed

  /** What is fixed while one transition runs: the two configurations, the
      state it started in, what each configuration makes the client send,
      whether the plan asks for a SET_READER_CONFIG, and whether parsing the
      reader's capabilities accepts a configuration when it is installed. */
  datatype Env = Env(
    prev: Config,
    next: Config,
    original: State,
    prevSpec: ROSpec,
    nextSpec: ROSpec,
    prevMessage: map<Setting, SettingValue>,
    nextMessage: map<Setting, SettingValue>,
    write: bool,
    nextAccepted: bool,
    prevAccepted: bool)

  predicate CanApply(s: State) {
    s == Connected || s == Inventorying || s == Paused
  }

  /** The parameters of a transition are those that the two configurations
      give under the reader's capabilities. */
  ghost predicate EnvFor(e: Env, caps: Capabilities) {
    && CanApply(e.original)
    && e.prevSpec == GenerateROSpec(e.prev, caps)
    && e.nextSpec == GenerateROSpec(e.next, caps)
    && e.prevMessage == SetMessage(e.prev)
    && e.nextMessage == SetMessage(e.next)
    && (e.write <==> Requires(e.prev, e.next, ReaderConfigChange))
  }

  datatype Client = Client(
    config: Config,
    desired: Config,
    state: State,
    rospec: Option<ROSpec>,
    added: bool,
    suppress: bool,
    generated: Option<Config>,
    applied: Option<Config>,
    lastId: nat)

  datatype Held = Held(spec: ROSpec, enabled: bool)

  datatype Reader = Reader(settings: map<Setting, SettingValue>, rospecs: seq<Held>)

  datatype World = World(
    client: Client,
    point: Point,
    nextApplied: bool,
    status: Status,
    completions: nat,
    reader: Reader)

  // ------------------------------------------------------------- the reader

  /** What a request does to the reader when it takes effect. */
  function Effect(e: Env, r: Reader, p: Point): Reader {
    match p
    case StopROSpec | DeleteReplacement => r.(rospecs := [])
    case SetNext => r.(settings := r.settings + e.nextMessage)
    case SetPrev => r.(settings := r.settings + e.prevMessage)
    case AddNext => r.(rospecs := r.rospecs + [Held(e.nextSpec, false)])
    case AddPrev => r.(rospecs := r.rospecs + [Held(e.prevSpec, false)])
    case EnableNext | EnablePrev =>
      r.(rospecs := seq(|r.rospecs|, i requires 0 <= i < |r.rospecs| => r.rospecs[i].(enabled := true)))
    case StopAccess | Done => r
  }

  function ReaderAfter(e: Env, r: Reader, p: Point, o: Outcome): Reader {
    if o.Success? || (o.Timeout? && o.applied) then Effect(e, r, p) else r
  }

  // ------------------------------------------------------------- the client

  function WithState(c: Client, s: State): Client {
    c.(state := s,
    applied := if s == Disconnected then None else if s == Inventorying then Some(c.config) else c.applied)
  }

  function SentState(p: Point): State {
    match p
    case StopAccess => SentDeleteAccessSpec
    case StopROSpec | DeleteReplacement => SentDeleteROSpec
    case SetNext | SetPrev => SentSetConfig
    case AddNext | AddPrev => SentAddROSpec
    case EnableNext | EnablePrev => SentEnableROSpec
    case Done => OtherState
  }

  function Installed(c: Client, config: Config): Client {
    c.(config := config, desired := config, rospec := None, generated := None)
  }

  /** The client after sending the request of a point. */
  function Sent(c: Client, p: Point): Client {
    WithState(c, SentState(p)).(lastId := NextId(c.lastId))
  }

  /** startInventory with a regenerated ROSpec, up to its ADD_ROSPEC. */
  function Started(e: Env, c: Client, p: Point): Client {
    Sent(WithState(c, Connected).(rospec := Some(if p == AddNext then e.nextSpec else e.prevSpec),
                                  generated := Some(c.config), added := false), p)
  }

  function Ended(w: World, c: Client, status: Status): World {
    w.(client := c, point := Done, status := status, completions := w.completions + 1)
  }

  function Waiting(w: World, c: Client, p: Point): World {
    w.(client := c, point := p)
  }

  /** The world when the previous configuration is to be restored: reinstall
      it, then continue at the first undo request that is needed. */
  function Undo(e: Env, w: World, c: Client): World {
    var back := Installed(c, e.prev);
    if !e.prevAccepted then Ended(w, WithState(back, Disconnected), Failed)
    else if w.nextApplied then Waiting(w, Sent(WithState(back, Connected).(suppress := true), SetPrev), SetPrev)
    else if e.original == Inventorying && c.added then
      Waiting(w, Sent(WithState(back, Connected), DeleteReplacement), DeleteReplacement)
    else Restart(e, w, back)
  }

  /** The world when nothing is left to undo on the reader. */
  function Restart(e: Env, w: World, c: Client): World {
    if e.original == Inventorying then Waiting(w, Started(e, c, AddPrev), AddPrev)
    else Ended(w, WithState(c, e.original), Failed)
  }

  /** The world when the reader holds the new settings. */
  function Proceed(e: Env, w: World, c: Client): World {
    if e.original == Inventorying then Waiting(w, Started(e, c, AddNext), AddNext)
    else Ended(w, WithState(c, e.original), Succeeded)
  }

  /** The world once inventory has stopped. */
  function Stopped(e: Env, w: World, c: Client): World {
    var next := Installed(WithState(c, Connected), e.next);
    if !e.nextAccepted then Undo(e, w, next)
    else if e.write then Waiting(w, Sent(next.(suppress := true), SetNext), SetNext)
    else Proceed(e, w, next)
  }

  predicate IsSet(p: Point) { p == SetNext || p == SetPrev }

  /** handleMessage clears the suppression flag before it runs the callback;
      a timeout runs the callback directly. */
  function AfterSetResponse(c: Client, o: Outcome): Client {
    match o
    case Success => WithState(c.(suppress := false), Connected)
    case Failure => c.(suppress := false)
    case Timeout(_) => c
  }

  /** The world when the completion callback is about to run. */
  function Received(e: Env, w: World, o: Outcome): World {
    w.(reader := ReaderAfter(e, w.reader, w.point, o),
    client := if IsSet(w.point) then AfterSetResponse(w.client, o) else w.client)
  }

  /** The transition table: what completing the awaited request leads to. */
  function Complete(e: Env, w: World, ok: bool): World {
    var c := w.client;
    match w.point
    case StopAccess =>
      if ok then Waiting(w, Sent(c, StopROSpec), StopROSpec)
      else Ended(w, WithState(c, e.original), Failed)
    case StopROSpec =>
      if ok then Stopped(e, w, c.(added := false, rospec := None, generated := None))
      else Ended(w, WithState(c.(rospec := None, generated := None), e.original), Failed)
    case SetNext =>
      if ok then Proceed(e, w.(nextApplied := true), c) else Undo(e, w, c)
    case AddNext =>
      if ok then Waiting(w, Sent(c.(added := true), EnableNext), EnableNext) else Undo(e, w, c)
    case EnableNext =>
      if ok then Ended(w, WithState(c, Inventorying), Succeeded) else Undo(e, w, c)
    case SetPrev =>
      if !ok then Ended(w, WithState(c, Disconnected), Failed)
      else if c.added && e.original == Inventorying then
        Waiting(w, Sent(WithState(c, Connected), DeleteReplacement), DeleteReplacement)
      else Restart(e, w, c)
    case DeleteReplacement =>
      var c' := c.(rospec := None, generated := None);
      if ok then Restart(e, w, c'.(added := false)) else Ended(w, WithState(c', Disconnected), Failed)
    case AddPrev =>
      if ok then Waiting(w, Sent(c.(added := true), EnablePrev), EnablePrev)
      else Ended(w, WithState(c, Disconnected), Failed)
    case EnablePrev =>
      Ended(w, WithState(c, if ok then Inventorying else Disconnected), Failed)
    case Done => w
  }

  /** One response, or timeout, at the point where the client waits. */
  function Step(e: Env, w: World, o: Outcome): World {
    if w.point.Done? then w else Complete(e, Received(e, w, o), o.Success?)
  }

  predicate Definite(os: seq<Outcome>) {
    forall i | 0 <= i < |os| :: !os[i].Timeout?
  }

  /** A run: the outcomes that arrive, one at a time. */
  function Run(e: Env, w: World, os: seq<Outcome>): World
    decreases |os|
  {
    if os == [] then w else Run(e, Step(e, w, os[0]), os[1..])
  }

  /** The world right after apply_config returns from a live, non-trivial call. */
  function Begin(e: Env, c: Client, r: Reader): World {
    var w := World(c, Done, false, Pending, 0, r);
    match e.original
    case Inventorying => Waiting(w, Sent(c, StopAccess), StopAccess)
    case Paused => Waiting(w, Sent(c, StopROSpec), StopROSpec)
    case _ => Stopped(e, w, c)
  }

  /** The client's fields when a transition may start. */
  ghost predicate CanStart(e: Env, c: Client) {
    CanApply(e.original) && c.state == e.original && c.config == e.prev && c.desired == e.prev
  }

  // ------------------------------------------------------ client-side results

  function Rank(p: Point): nat {
    match p
    case StopAccess => 9 case StopROSpec => 8 case SetNext => 7 case AddNext => 6 case EnableNext => 5
    case SetPrev => 4 case DeleteReplacement => 3 case AddPrev => 2 case EnablePrev => 1
    case Done => 0
  }

  predicate IsForward(p: Point) { Rank(p) >= 5 }

  predicate IsUndo(p: Point) { 1 <= Rank(p) <= 4 }

  /** What holds at every point of every run, whatever the responses. */
  ghost predicate ClientInv(e: Env, w: World) {
    var c := w.client;
    && CanApply(e.original)
    && w.completions == (if w.point.Done? then 1 else 0)
    && (w.status.Pending? <==> !w.point.Done?)
    && c.desired == c.config
    && (w.point == StopAccess || w.point == StopROSpec || IsUndo(w.point) || w.status == Failed ==> c.config == e.prev)
    && (w.point == SetNext || w.point == AddNext || w.point == EnableNext || w.status == Succeeded ==>
          c.config == e.next)
    && (w.point.Done? ==> c.state == e.original || c.state == Disconnected)
    && (!w.point.Done? ==> c.state == SentState(w.point))
    && (IsSet(w.point) ==> c.suppress)
    && (w.point == StopAccess || w.point == AddNext || w.point == EnableNext || IsUndo(w.point) ==>
          e.original == Inventorying)
    && (w.point == StopROSpec ==> e.original != Connected)
    && (w.status == Succeeded ==> c.state == e.original)
    && (w.point.Done? && c.state == Inventorying ==> c.applied == Some(c.config))
    && (w.point.Done? && c.state == Disconnected ==> c.applied == None)
    && (w.point == AddNext || w.point == EnableNext ==> c.rospec == Some(e.nextSpec) && c.generated == Some(c.config))
    && (w.point == AddPrev || w.point == EnablePrev ==> c.rospec == Some(e.prevSpec) && c.generated == Some(c.config))
    && (w.point == SetNext ==> e.write && !w.nextApplied)
    && (w.point == SetPrev ==> e.write && w.nextApplied)
    && (w.point == StopAccess || w.point == StopROSpec ==> !w.nextApplied)
    && (w.nextApplied ==> e.write && (e.original == Inventorying || w.status == Succeeded))
  }

  /** A transition that has not ended, at a moment between two requests. */
  ghost predicate IsOpen(e: Env, w: World) {
    && CanApply(e.original) && w.completions == 0 && w.status.Pending?
    && (w.nextApplied ==> e.write && e.original == Inventorying)
  }

  ghost predicate Reaches(e: Env, w: World, rank: nat) {
    ClientInv(e, w) && Rank(w.point) <= rank
  }

  lemma RestartInv(e: Env, w: World, c: Client)
    requires IsOpen(e, w) && c.config == e.prev && c.desired == e.prev
    ensures Reaches(e, Restart(e, w, c), 2)
  {
  }

  lemma UndoInv(e: Env, w: World, c: Client)
    requires IsOpen(e, w)
    ensures Reaches(e, Undo(e, w, c), 4)
  {
    var back := Installed(c, e.prev);
    if e.prevAccepted && !w.nextApplied && !(e.original == Inventorying && c.added) {
      RestartInv(e, w, back);
    }
  }

  lemma ProceedInv(e: Env, w: World, c: Client)
    requires IsOpen(e, w) && c.config == e.next && c.desired == e.next
    ensures Reaches(e, Proceed(e, w, c), 6)
  {
  }

  lemma StoppedInv(e: Env, w: World, c: Client)
    requires IsOpen(e, w) && !w.nextApplied
    ensures Reaches(e, Stopped(e, w, c), 7)
  {
    var next := Installed(WithState(c, Connected), e.next);
    if !e.nextAccepted {
      UndoInv(e, w, next);
    } else if !e.write {
      ProceedInv(e, w, next);
    }
  }

  lemma BeginClientInv(e: Env, c: Client, r: Reader)
    requires CanStart(e, c)
    ensures ClientInv(e, Begin(e, c, r))
  {
    if e.original == Connected {
      StoppedInv(e, World(c, Done, false, Pending, 0, r), c);
    }
  }

  predicate IsStop(p: Point) { p == StopAccess || p == StopROSpec }

  lemma StopClientInv(e: Env, w: World, o: Outcome)
    requires ClientInv(e, w) && IsStop(w.point)
    ensures Reaches(e, Step(e, w, o), Rank(w.point) - 1)
  {
    if w.point == StopROSpec && o.Success? {
      StoppedInv(e, Received(e, w, o), w.client.(added := false, rospec := None, generated := None));
    }
  }

  lemma SetClientInv(e: Env, w: World, o: Outcome)
    requires ClientInv(e, w) && w.point == SetNext
    ensures Reaches(e, Step(e, w, o), 6)
  {
    var c := AfterSetResponse(w.client, o);
    if !o.Success? {
      UndoInv(e, Received(e, w, o), c);
    } else if e.original == Inventorying {
      ProceedInv(e, Received(e, w, o).(nextApplied := true), c);
    }
  }

  lemma RestartClientInv(e: Env, w: World, o: Outcome)
    requires ClientInv(e, w) && (w.point == AddNext || w.point == EnableNext)
    ensures Reaches(e, Step(e, w, o), Rank(w.point) - 1)
  {
    if !o.Success? {
      UndoInv(e, Received(e, w, o), w.client);
    }
  }

  lemma UndoClientInv(e: Env, w: World, o: Outcome)
    requires ClientInv(e, w) && IsUndo(w.point)
    ensures Reaches(e, Step(e, w, o), Rank(w.point) - 1)
  {
    if w.point == SetPrev && o.Success? {
      var c := AfterSetResponse(w.client, o);
      if !(c.added && e.original == Inventorying) {
        RestartInv(e, Received(e, w, o), c);
      }
    } else if w.point == DeleteReplacement && o.Success? {
      RestartInv(e, Received(e, w, o), w.client.(rospec := None, generated := None, added := false));
    }
  }

  lemma StepClientInv(e: Env, w: World, o: Outcome)
    requires ClientInv(e, w)
    ensures ClientInv(e, Step(e, w, o))
    ensures !w.point.Done? ==> Rank(Step(e, w, o).point) < Rank(w.point)
  {
    if IsStop(w.point) {
      StopClientInv(e, w, o);
    } else if w.point == SetNext {
      SetClientInv(e, w, o);
    } else if IsForward(w.point) {
      RestartClientInv(e, w, o);
    } else if IsUndo(w.point) {
      UndoClientInv(e, w, o);
    }
  }

  lemma {:induction false} RunClientInv(e: Env, w: World, os: seq<Outcome>)
    requires ClientInv(e, w)
    ensures ClientInv(e, Run(e, w, os))
    ensures |os| >= Rank(w.point) ==> Run(e, w, os).point.Done?
    decreases |os|
  {
    if os == [] {
    } else {
      StepClientInv(e, w, os[0]);
      RunClientInv(e, Step(e, w, os[0]), os[1..]);
    }
  }

  /** An ended transition stays as it is, whatever else arrives. */
  lemma {:induction false} EndedIsFinal(e: Env, w: World, os: seq<Outcome>)
    requires w.point.Done?
    ensures Run(e, w, os) == w
    decreases |os|
  {
    if os == [] {
    } else {
      EndedIsFinal(e, w, os[1..]);
    }
  }

  lemma {:induction false} RunSplits(e: Env, w: World, os: seq<Outcome>, more: seq<Outcome>)
    ensures Run(e, w, os + more) == Run(e, Run(e, w, os), more)
    decreases |os|
  {
    if os == [] {
      assert os + more == more;
    } else {
      assert (os + more)[1..] == os[1..] + more;
      RunSplits(e, Step(e, w, os[0]), os[1..], more);
    }
  }

  /** Transaction outcome, for every sequence of responses and timeouts: the
      transition has ended after at most nine of them, it notified exactly
      once, the state is the original one or DISCONNECTED, and the
      configuration is the new one exactly when it succeeded. */
  lemma TransactionOutcome(e: Env, c: Client, r: Reader, os: seq<Outcome>)
    requires CanStart(e, c)
    ensures var w := Run(e, Begin(e, c, r), os);
            && (|os| >= 9 ==> w.point.Done?)
            && w.completions == (if w.point.Done? then 1 else 0)
            && (w.point.Done? ==>
                  && (w.client.state == e.original || w.client.state == Disconnected)
                  && (w.status == Succeeded ==> w.client.state == e.original)
                  && w.client.config == (if w.status == Succeeded then e.next else e.prev)
                  && w.client.desired == w.client.config
                  && (w.client.state == Inventorying ==> w.client.applied == Some(w.client.config))
                  && (w.client.state == Disconnected ==> w.client.applied == None))
  {
    BeginClientInv(e, c, r);
    RunClientInv(e, Begin(e, c, r), os);
  }

  lemma RunThree(e: Env, w: World, o0: Outcome, o1: Outcome, o2: Outcome)
    ensures Run(e, w, [o0, o1, o2]) == Step(e, Step(e, Step(e, w, o0), o1), o2)
  {
    RunCons(e, w, o0, [o1, o2]);
    RunCons(e, Step(e, w, o0), o1, [o2]);
    RunCons(e, Step(e, Step(e, w, o0), o1), o2, []);
  }

  lemma RunCons(e: Env, w: World, o: Outcome, os: seq<Outcome>)
    ensures Run(e, w, [o] + os) == Run(e, Step(e, w, o), os)
  {
    assert ([o] + os)[1..] == os;
  }

  /** The bound of nine is reached: after five requests forward and three of
      the four to undo, all answered, the transition is still pending. */
  lemma NineResponsesAreReached(e: Env, c: Client, r: Reader) returns (os: seq<Outcome>)
    requires CanStart(e, c) && e.original == Inventorying && e.write && e.nextAccepted && e.prevAccepted
    ensures |os| == 8 && Definite(os) && Run(e, Begin(e, c, r), os).point == EnablePrev
  {
    var granted := ThreeGranted(e, c, r);
    var failed := FailedEnable(e, Run(e, Begin(e, c, r), granted));
    RunSplits(e, Begin(e, c, r), granted, failed);
    os := granted + failed;
  }

  /** Stopped, and the new settings written: the new ADD_ROSPEC is awaited. */
  lemma ThreeGranted(e: Env, c: Client, r: Reader) returns (os: seq<Outcome>)
    requires CanStart(e, c) && e.original == Inventorying && e.write && e.nextAccepted
    ensures |os| == 3 && Definite(os)
    ensures var w := Run(e, Begin(e, c, r), os);
            && w.point == AddNext && w.nextApplied && !w.client.added
            && w.reader.settings == r.settings + e.nextMessage
  {
    os := [Success, Success, Success];
    RunThree(e, Begin(e, c, r), Success, Success, Success);
  }

  /** The new ENABLE_ROSPEC fails and the old ADD_ROSPEC is granted. */
  lemma FailedEnable(e: Env, w: World) returns (os: seq<Outcome>)
    requires w.point == AddNext && w.nextApplied && e.original == Inventorying && e.prevAccepted
    ensures |os| == 5 && Definite(os) && Run(e, w, os).point == EnablePrev
  {
    var a := EnableFails(e, w);
    var b := TwoUndone(e, Run(e, w, a));
    RunSplits(e, w, a, b);
    os := a + b;
  }

  lemma EnableFails(e: Env, w: World) returns (os: seq<Outcome>)
    requires w.point == AddNext && w.nextApplied && e.original == Inventorying && e.prevAccepted
    ensures |os| == 3 && Definite(os) && Run(e, w, os).point == DeleteReplacement
  {
    os := [Success, Failure, Success];
    RunThree(e, w, Success, Failure, Success);
  }

  lemma TwoUndone(e: Env, w: World) returns (os: seq<Outcome>)
    requires w.point == DeleteReplacement && e.original == Inventorying
    ensures |os| == 2 && Definite(os) && Run(e, w, os).point == EnablePrev
  {
    os := [Success, Success];
    RunCons(e, w, Success, [Success]);
    RunCons(e, Step(e, w, Success), Success, []);
  }

  // ------------------------------------------- which requests, and success

  function StopRequests(original: State): seq<Point> {
    if original == Inventorying then [StopAccess, StopROSpec]
    else if original == Paused then [StopROSpec]
    else []
  }

  /** The requests of a transition that is granted, in order. */
  function ForwardRequests(e: Env): seq<Point> {
    StopRequests(e.original)
    + (if e.write then [SetNext] else [])
    + (if e.original == Inventorying then [AddNext, EnableNext] else [])
  }

  /** The requests that undo one from INVENTORYING, in order, by whether the
      new settings were written and the new ROSpec added. */
  function UndoRequests(applied: bool, added: bool): seq<Point> {
    (if applied then [SetPrev] else []) + (if added then [DeleteReplacement] else []) + [AddPrev, EnablePrev]
  }

  predicate AllSuccess(os: seq<Outcome>) {
    forall i | 0 <= i < |os| :: os[i].Success?
  }

  function PointAt(points: seq<Point>, i: nat): Point {
    if i < |points| then points[i] else Done
  }

  /** The client's ROSpec is this one, generated from its configuration. */
  predicate HasGenerated(c: Client, spec: ROSpec) {
    c.rospec == Some(spec) && c.generated == Some(c.config)
  }

  /** What a transition that has been granted so far looks like. */
  ghost predicate Granted(e: Env, w: World, i: nat) {
    && w.point == PointAt(ForwardRequests(e), i)
    && (w.point.Done? ==> w.status == Succeeded && (e.original == Inventorying ==> HasGenerated(w.client, e.nextSpec)))
  }

  lemma GrantedBegin(e: Env, c: Client, r: Reader)
    requires CanStart(e, c) && e.nextAccepted
    ensures Granted(e, Begin(e, c, r), 0)
  {
  }

  lemma GrantedStep(e: Env, w: World, i: nat)
    requires ClientInv(e, w) && e.nextAccepted && Granted(e, w, i)
    ensures Granted(e, Step(e, w, Success), i + 1)
  {
  }

  lemma RunHead(e: Env, w: World, os: seq<Outcome>)
    requires os != []
    ensures Run(e, w, os) == Run(e, Step(e, w, os[0]), os[1..])
  {
  }

  lemma GrantedNext(e: Env, w: World, i: nat) returns (v: World)
    requires ClientInv(e, w) && e.nextAccepted && Granted(e, w, i)
    ensures v == Step(e, w, Success) && ClientInv(e, v) && Granted(e, v, i + 1)
  {
    v := Step(e, w, Success);
    GrantedStep(e, w, i);
    StepClientInv(e, w, Success);
  }

  lemma {:induction false} GrantedRun(e: Env, w: World, i: nat, os: seq<Outcome>)
    requires ClientInv(e, w) && e.nextAccepted && Granted(e, w, i) && AllSuccess(os)
    ensures Granted(e, Run(e, w, os), i + |os|)
    decreases |os|
  {
    if os == [] {
    } else {
      var v := GrantedNext(e, w, i);
      RunHead(e, w, os);
      assert os[0] == Success && AllSuccess(os[1..]);
      GrantedRun(e, v, i + 1, os[1..]);
    }
  }

  /** A granted transition sends its requests in this order and no others, and
      then has succeeded: the configuration is the new one, the state is the
      original one, and an inventory runs with the new ROSpec. */
  lemma GrantedTransition(e: Env, c: Client, r: Reader, os: seq<Outcome>)
    requires CanStart(e, c) && e.nextAccepted && AllSuccess(os)
    ensures var w := Run(e, Begin(e, c, r), os);
            && w.point == PointAt(ForwardRequests(e), |os|)
            && (|os| >= |ForwardRequests(e)| ==>
                  && w.point.Done? && w.status == Succeeded && w.client.state == e.original
                  && w.client.config == e.next && w.client.desired == e.next
                  && (e.original == Inventorying ==> HasGenerated(w.client, e.nextSpec)))
  {
    BeginClientInv(e, c, r);
    GrantedBegin(e, c, r);
    GrantedRun(e, Begin(e, c, r), 0, os);
    RunClientInv(e, Begin(e, c, r), os);
  }

  /** On every run the state says which response the client waits for. */
  lemma StateWhileWaiting(e: Env, c: Client, r: Reader, os: seq<Outcome>)
    requires CanStart(e, c)
    ensures var w := Run(e, Begin(e, c, r), os);
            && (w.client.state == SentDeleteAccessSpec <==> w.point == StopAccess)
            && (w.client.state == SentDeleteROSpec <==> w.point == StopROSpec || w.point == DeleteReplacement)
            && (w.client.state == SentSetConfig <==> w.point == SetNext || w.point == SetPrev)
            && (w.client.state == SentAddROSpec <==> w.point == AddNext || w.point == AddPrev)
            && (w.client.state == SentEnableROSpec <==> w.point == EnableNext || w.point == EnablePrev)
  {
    BeginClientInv(e, c, r);
    RunClientInv(e, Begin(e, c, r), os);
  }

  /** Every outcome up to the end is a success. */
  predicate IsGranted(e: Env, w: World, os: seq<Outcome>)
    decreases |os|
  {
    os == [] || w.point.Done? || (os[0].Success? && IsGranted(e, Step(e, w, os[0]), os[1..]))
  }

  ghost predicate GoesForward(e: Env, w: World) {
    (IsForward(w.point) && (!IsStop(w.point) ==> e.nextAccepted)) || (w.status == Succeeded && e.nextAccepted)
  }

  ghost predicate GoesBack(w: World) {
    IsUndo(w.point) || w.status == Failed
  }

  lemma StepDirection(e: Env, w: World, o: Outcome)
    requires ClientInv(e, w) && !w.point.Done?
    ensures GoesBack(w) ==> GoesBack(Step(e, w, o))
    ensures GoesForward(e, w) ==>
              if o.Success? && (w.point == StopROSpec ==> e.nextAccepted) then GoesForward(e, Step(e, w, o))
              else GoesBack(Step(e, w, o))
  {
  }

  lemma {:induction false} RunDirection(e: Env, w: World, os: seq<Outcome>)
    requires ClientInv(e, w) && (GoesForward(e, w) || GoesBack(w))
    ensures var d := Run(e, w, os);
            d.point.Done? ==> (d.status == Succeeded <==> GoesForward(e, w) && e.nextAccepted && IsGranted(e, w, os))
    decreases |os|
  {
    if w.point.Done? {
      EndedIsFinal(e, w, os);
    } else if os == [] {
    } else {
      StepDirection(e, w, os[0]);
      StepClientInv(e, w, os[0]);
      RunDirection(e, Step(e, w, os[0]), os[1..]);
    }
  }

  /** A transition that has ended has succeeded if and only if the new
      configuration was accepted and no request failed or timed out. */
  lemma SucceedsExactly(e: Env, c: Client, r: Reader, os: seq<Outcome>)
    requires CanStart(e, c)
    ensures var w := Run(e, Begin(e, c, r), os);
            w.point.Done? ==> (w.status == Succeeded <==> e.nextAccepted && IsGranted(e, Begin(e, c, r), os))
  {
    BeginClientInv(e, c, r);
    BeginDirection(e, c, r);
    RunDirection(e, Begin(e, c, r), os);
  }

  lemma BeginDirection(e: Env, c: Client, r: Reader)
    requires CanStart(e, c)
    ensures var w := Begin(e, c, r);
            if e.nextAccepted || e.original != Connected then GoesForward(e, w) else GoesBack(w)
  {
  }

  /** Whether an outcome at a point makes the client start undoing. */
  predicate StartsUndo(e: Env, w: World, o: Outcome) {
    || (w.point == StopROSpec && o.Success? && !e.nextAccepted)
    || (!o.Success? && (w.point == SetNext || w.point == AddNext || w.point == EnableNext))
  }

  /** The undo requests that are needed then. */
  function UndoNeeded(w: World): seq<Point> {
    UndoRequests(w.nextApplied, w.point != StopROSpec && w.client.added)
  }

  /** What a rollback that has been granted so far looks like. */
  ghost predicate Undone(e: Env, w: World, points: seq<Point>, i: nat) {
    && w.point == PointAt(points, i)
    && (w.point == SetPrev ==> (w.client.added <==> DeleteReplacement in points))
    && (w.point == AddPrev || w.point == EnablePrev ==> HasGenerated(w.client, e.prevSpec))
    && (w.point.Done? ==> w.status == Failed && w.client.state == Inventorying && HasGenerated(w.client, e.prevSpec))
  }

  lemma UndoneStep(e: Env, w: World, applied: bool, added: bool, i: nat)
    requires ClientInv(e, w) && e.original == Inventorying && Undone(e, w, UndoRequests(applied, added), i)
    ensures Undone(e, Step(e, w, Success), UndoRequests(applied, added), i + 1)
  {
    if w.point == SetPrev {
      assert i == 0 && applied;
    } else if w.point == DeleteReplacement {
      assert added && i == if applied then 1 else 0;
    }
  }

  lemma {:induction false} UndoneRun(e: Env, w: World, applied: bool, added: bool, i: nat, os: seq<Outcome>)
    requires ClientInv(e, w) && e.original == Inventorying && Undone(e, w, UndoRequests(applied, added), i)
    requires AllSuccess(os)
    ensures Undone(e, Run(e, w, os), UndoRequests(applied, added), i + |os|)
    decreases |os|
  {
    if os == [] {
    } else {
      assert os[0] == Success;
      UndoneStep(e, w, applied, added, i);
      StepClientInv(e, w, Success);
      UndoneRun(e, Step(e, w, Success), applied, added, i + 1, os[1..]);
    }
  }

  lemma UndoneBegin(e: Env, w: World, o: Outcome)
    requires ClientInv(e, w) && e.original == Inventorying && e.prevAccepted && StartsUndo(e, w, o)
    ensures Undone(e, Step(e, w, o), UndoNeeded(w), 0)
  {
  }

  /** A transition from INVENTORYING that has to be undone, when the answers
      that follow are all granted: the undo sends its requests in this order
      and no others, and then the old inventory runs and the transition has
      failed. */
  lemma UndoneTransition(e: Env, w: World, o: Outcome, os: seq<Outcome>)
    requires ClientInv(e, w) && e.original == Inventorying && e.prevAccepted && StartsUndo(e, w, o) && AllSuccess(os)
    ensures var points := UndoNeeded(w);
            var d := Run(e, Step(e, w, o), os);
            && d.point == PointAt(points, |os|)
            && (|os| >= |points| ==>
                  && d.point.Done? && d.status == Failed && d.client.state == Inventorying
                  && d.client.config == e.prev && HasGenerated(d.client, e.prevSpec))
  {
    StepClientInv(e, w, o);
    UndoneBegin(e, w, o);
    UndoneRun(e, Step(e, w, o), w.nextApplied, w.point != StopROSpec && w.client.added, 0, os);
    RunClientInv(e, Step(e, w, o), os);
  }

  /** DISCONNECTED arises exactly from a failed undo step: a request of the
      undo chain that did not succeed, or a reinstallation that was refused. */
  lemma DisconnectedExactlyOnFailedUndo(e: Env, w: World, o: Outcome)
    requires ClientInv(e, w) && !w.point.Done?
    ensures Step(e, w, o).client.state == Disconnected <==>
            (IsUndo(w.point) && !o.Success?) || (StartsUndo(e, w, o) && !e.prevAccepted)
  {
  }

  /** A rejected ADD_ROSPEC never escapes as a fatal error from inside a
      transaction: the recovery has changed the state or sent a new request. */
  lemma RejectedAddIsRecovered(e: Env, w: World)
    requires ClientInv(e, w) && (w.point == AddNext || w.point == AddPrev)
    ensures var c := Step(e, w, Failure).client;
            c.state != SentAddROSpec || c.lastId != w.client.lastId
  {
  }

  // --------------------------------------------------------- the reader side

  function Settings(e: Env, r0: Reader, w: World): map<Setting, SettingValue> {
    if !w.nextApplied then r0.settings
    else if w.point == SetPrev || !(IsUndo(w.point) || w.status == Failed) then r0.settings + e.nextMessage
    else r0.settings + e.nextMessage + e.prevMessage
  }

  function ROSpecs(e: Env, r0: Reader, w: World): seq<Held> {
    var next := Held(e.nextSpec, false);
    var prev := Held(e.prevSpec, false);
    match w.point
    case StopAccess | StopROSpec => r0.rospecs
    case SetNext => if e.original == Connected then r0.rospecs else []
    case AddNext | AddPrev => []
    case EnableNext | DeleteReplacement => [next]
    case EnablePrev => [prev]
    case SetPrev => if w.client.added then [next] else []
    case Done =>
      if e.original == Connected then r0.rospecs
      else if e.original == Paused then []
      else [if w.status == Succeeded then next.(enabled := true) else prev.(enabled := true)]
  }

  /** Where the reader is at each point of a run with definite responses. */
  ghost predicate ReaderInv(e: Env, r0: Reader, w: World) {
    && ((w.point.Done? && w.client.state == Disconnected)
        || (w.reader.settings == Settings(e, r0, w)
            && (w.reader.rospecs == ROSpecs(e, r0, w)
                || (w.point.Done? && e.original == Paused && w.reader.rospecs == r0.rospecs))))
    && (w.point == AddNext || w.point == EnableNext || (w.point.Done? && w.status == Succeeded) ==>
          w.nextApplied == e.write)
    && (w.point == SetNext || w.point == AddNext || w.point == AddPrev ==>
          e.original == Inventorying ==> !w.client.added)
    && (w.point == EnableNext || w.point == EnablePrev || w.point == DeleteReplacement ==> w.client.added)
  }

  ghost predicate InventoryingReader(e: Env, r0: Reader) {
    r0.rospecs == [Held(e.prevSpec, true)]
  }

  lemma BeginReaderInv(e: Env, c: Client, r0: Reader)
    requires CanStart(e, c)
    ensures ReaderInv(e, r0, Begin(e, c, r0))
  {
  }

  lemma StopAccessReaderInv(e: Env, r0: Reader, w: World, o: Outcome)
    requires ClientInv(e, w) && ReaderInv(e, r0, w) && !o.Timeout? && w.point == StopAccess
    requires e.original == Inventorying ==> InventoryingReader(e, r0)
    ensures ReaderInv(e, r0, Step(e, w, o))
  {
  }

  lemma StopROSpecReaderInv(e: Env, r0: Reader, w: World, o: Outcome)
    requires ClientInv(e, w) && ReaderInv(e, r0, w) && !o.Timeout? && w.point == StopROSpec
    requires e.original == Inventorying ==> InventoryingReader(e, r0)
    ensures ReaderInv(e, r0, Step(e, w, o))
  {
  }

  lemma SetReaderInv(e: Env, r0: Reader, w: World, o: Outcome)
    requires ClientInv(e, w) && ReaderInv(e, r0, w) && !o.Timeout? && w.point == SetNext
    requires e.original == Inventorying ==> InventoryingReader(e, r0)
    ensures ReaderInv(e, r0, Step(e, w, o))
  {
  }

  lemma AddReaderInv(e: Env, r0: Reader, w: World, o: Outcome)
    requires ClientInv(e, w) && ReaderInv(e, r0, w) && !o.Timeout? && w.point == AddNext
    requires e.original == Inventorying ==> InventoryingReader(e, r0)
    ensures ReaderInv(e, r0, Step(e, w, o))
  {
  }

  lemma EnableReaderInv(e: Env, r0: Reader, w: World, o: Outcome)
    requires ClientInv(e, w) && ReaderInv(e, r0, w) && !o.Timeout? && w.point == EnableNext
    requires e.original == Inventorying ==> InventoryingReader(e, r0)
    ensures ReaderInv(e, r0, Step(e, w, o))
  {
  }

  lemma UndoSetReaderInv(e: Env, r0: Reader, w: World, o: Outcome)
    requires ClientInv(e, w) && ReaderInv(e, r0, w) && !o.Timeout? && w.point == SetPrev
    requires e.original == Inventorying ==> InventoryingReader(e, r0)
    ensures ReaderInv(e, r0, Step(e, w, o))
  {
  }

  lemma UndoDeleteReaderInv(e: Env, r0: Reader, w: World, o: Outcome)
    requires ClientInv(e, w) && ReaderInv(e, r0, w) && !o.Timeout? && w.point == DeleteReplacement
    requires e.original == Inventorying ==> InventoryingReader(e, r0)
    ensures ReaderInv(e, r0, Step(e, w, o))
  {
  }

  lemma UndoAddReaderInv(e: Env, r0: Reader, w: World, o: Outcome)
    requires ClientInv(e, w) && ReaderInv(e, r0, w) && !o.Timeout? && (w.point == AddPrev || w.point == EnablePrev)
    requires e.original == Inventorying ==> InventoryingReader(e, r0)
    ensures ReaderInv(e, r0, Step(e, w, o))
  {
  }

  lemma StepReaderInv(e: Env, r0: Reader, w: World, o: Outcome)
    requires ClientInv(e, w) && ReaderInv(e, r0, w) && !o.Timeout?
    requires e.original == Inventorying ==> InventoryingReader(e, r0)
    ensures ReaderInv(e, r0, Step(e, w, o))
  {
    match w.point
    case StopAccess => StopAccessReaderInv(e, r0, w, o);
    case StopROSpec => StopROSpecReaderInv(e, r0, w, o);
    case SetNext => SetReaderInv(e, r0, w, o);
    case AddNext => AddReaderInv(e, r0, w, o);
    case EnableNext => EnableReaderInv(e, r0, w, o);
    case SetPrev => UndoSetReaderInv(e, r0, w, o);
    case DeleteReplacement => UndoDeleteReaderInv(e, r0, w, o);
    case AddPrev | EnablePrev => UndoAddReaderInv(e, r0, w, o);
    case Done =>
  }

  /** The flag follows the reader: set exactly while a ROSpec is held. */
  predicate Tracks(w: World) {
    w.client.added <==> w.reader.rospecs != []
  }

  lemma StepTracks(e: Env, r0: Reader, w: World, o: Outcome)
    requires ClientInv(e, w) && ReaderInv(e, r0, w) && !o.Timeout? && Tracks(w)
    ensures Tracks(Step(e, w, o))
  {
  }

  lemma {:induction false} RunReaderInv(e: Env, r0: Reader, w: World, os: seq<Outcome>)
    requires ClientInv(e, w) && ReaderInv(e, r0, w) && Definite(os)
    requires e.original == Inventorying ==> InventoryingReader(e, r0)
    ensures ClientInv(e, Run(e, w, os)) && ReaderInv(e, r0, Run(e, w, os))
    ensures Tracks(w) ==> Tracks(Run(e, w, os))
    decreases |os|
  {
    if os == [] {
    } else {
      var w' := Step(e, w, os[0]);
      StepClientInv(e, w, os[0]);
      StepReaderInv(e, r0, w, os[0]);
      if Tracks(w) {
        StepTracks(e, r0, w, os[0]);
      }
      assert Definite(os[1..]) by {
        forall i | 0 <= i < |os[1..]| ensures !os[1..][i].Timeout? { assert os[1..][i] == os[i + 1]; }
      }
      RunReaderInv(e, r0, w', os[1..]);
    }
  }

  /** A skipped SET_READER_CONFIG would not have changed anything. */
  predicate PlanSound(e: Env) {
    !e.write ==> e.nextMessage == e.prevMessage
  }

  lemma PlanIsSound(e: Env, caps: Capabilities)
    requires EnvFor(e, caps)
    ensures PlanSound(e)
  {
    if !e.write {
      SetMessageDependsOnReaderFields(e.prev, e.next);
    }
  }

  lemma EndedRun(e: Env, c: Client, r0: Reader, os: seq<Outcome>)
    requires CanStart(e, c) && PlanSound(e) && Definite(os) && Holds(r0.settings, e.prevMessage)
    requires e.original == Inventorying ==> InventoryingReader(e, r0)
    ensures var w := Run(e, Begin(e, c, r0), os);
            w.point.Done? && w.client.state != Disconnected ==>
              && w.client.config == (if w.status == Succeeded then e.next else e.prev)
              && Holds(w.reader.settings, if w.status == Succeeded then e.nextMessage else e.prevMessage)
              && (e.original == Inventorying ==>
                    w.reader.rospecs == [Held(if w.status == Succeeded then e.nextSpec else e.prevSpec, true)])
              && (e.original == Connected ==> w.reader.rospecs == r0.rospecs)
              && (e.original != Inventorying && w.status == Failed ==> w.reader.settings == r0.settings)
  {
    BeginClientInv(e, c, r0);
    BeginReaderInv(e, c, r0);
    RunReaderInv(e, r0, Begin(e, c, r0), os);
  }

  /** Reader/client agreement. On every run of definite responses started
      while inventorying, when the transition has ended anywhere but in
      DISCONNECTED, the reader holds exactly one ROSpec, enabled and generated
      from the client's configuration, which is wholly the old or wholly the
      new one, and its settings agree with that configuration's message. */
  lemma ReaderAgreement(e: Env, caps: Capabilities, c: Client, r0: Reader, os: seq<Outcome>)
    requires CanStart(e, c) && EnvFor(e, caps) && e.original == Inventorying && Definite(os)
    requires InventoryingReader(e, r0) && Holds(r0.settings, e.prevMessage)
    ensures var w := Run(e, Begin(e, c, r0), os);
            w.point.Done? && w.client.state != Disconnected ==>
              && w.reader.rospecs == [Held(GenerateROSpec(w.client.config, caps), true)]
              && w.client.config == (if w.status == Succeeded then e.next else e.prev)
              && Holds(w.reader.settings, SetMessage(w.client.config))
  {
    PlanIsSound(e, caps);
    EndedRun(e, c, r0, os);
  }

  /** The same in terms of the configuration: the reader is set up as it asks. */
  lemma ReaderIsSetUp(e: Env, c: Client, r0: Reader, os: seq<Outcome>)
    requires CanStart(e, c) && PlanSound(e) && Definite(os)
    requires e.prevMessage == SetMessage(e.prev) && e.nextMessage == SetMessage(e.next)
    requires e.original == Inventorying ==> InventoryingReader(e, r0)
    requires Holds(r0.settings, e.prevMessage)
    ensures var w := Run(e, Begin(e, c, r0), os);
            w.point.Done? && w.client.state != Disconnected ==> IsSetUp(w.reader.settings, w.client.config)
  {
    var w := Run(e, Begin(e, c, r0), os);
    EndedRun(e, c, r0, os);
    AgreesIsSetUp(w.reader.settings, w.client.config);
  }

  /** The same from CONNECTED and PAUSED: the settings agree, a failed
      transition left them as they were, and CONNECTED keeps its ROSpecs. */
  lemma IdleReaderAgreement(e: Env, caps: Capabilities, c: Client, r0: Reader, os: seq<Outcome>)
    requires CanStart(e, c) && EnvFor(e, caps) && e.original != Inventorying && Definite(os)
    requires Holds(r0.settings, e.prevMessage)
    ensures var w := Run(e, Begin(e, c, r0), os);
            w.point.Done? && w.client.state != Disconnected ==>
              && Holds(w.reader.settings, SetMessage(w.client.config))
              && (e.original == Connected ==> w.reader.rospecs == r0.rospecs)
              && (w.status == Failed ==> w.reader.settings == r0.settings)
  {
    PlanIsSound(e, caps);
    EndedRun(e, c, r0, os);
  }

  /** No duplicate ROSpec: whenever a run of definite responses waits for an
      ADD_ROSPEC, the reader holds no ROSpec, and whenever it waits for an
      ENABLE_ROSPEC, the reader holds exactly the one just added. All along,
      the client's flag says whether the reader holds a ROSpec. */
  lemma NoDuplicateROSpec(e: Env, c: Client, r0: Reader, os: seq<Outcome>)
    requires CanStart(e, c) && e.original == Inventorying && Definite(os)
    requires InventoryingReader(e, r0) && c.added
    ensures var w := Run(e, Begin(e, c, r0), os);
            && Tracks(w)
            && (w.point == AddNext || w.point == AddPrev ==> w.reader.rospecs == [])
            && (w.point == EnableNext ==> w.reader.rospecs == [Held(e.nextSpec, false)])
            && (w.point == EnablePrev ==> w.reader.rospecs == [Held(e.prevSpec, false)])
  {
    BeginClientInv(e, c, r0);
    BeginReaderInv(e, c, r0);
    RunReaderInv(e, r0, Begin(e, c, r0), os);
  }

  /** Whether a request at one of the points took effect but was never answered. */
  predicate TookEffectUnanswered(e: Env, w: World, os: seq<Outcome>, points: set<Point>)
    decreases |os|
  {
    && os != []
    && ((w.point in points && os[0] == Timeout(true)) || TookEffectUnanswered(e, Step(e, w, os[0]), os[1..], points))
  }

  /** What the reader holds where it matters for the next ADD_ROSPEC, by
      whether one `took` effect unanswered. */
  ghost predicate DuplicateInv(w: World, took: bool) {
    match w.point
    case StopAccess | StopROSpec => !took
    case SetNext | AddNext => w.reader.rospecs == [] && !w.client.added && !took
    case EnableNext | DeleteReplacement => w.client.added && !took
    case SetPrev => if w.client.added then !took else w.reader.rospecs != [] <==> took
    case AddPrev => w.reader.rospecs != [] <==> took
    case EnablePrev | Done => true
  }

  lemma StopDuplicate(e: Env, w: World, o: Outcome)
    requires ClientInv(e, w) && e.original == Inventorying && IsStop(w.point) && DuplicateInv(w, false)
    ensures DuplicateInv(Step(e, w, o), false)
  {
  }

  lemma ApplyDuplicate(e: Env, w: World, o: Outcome)
    requires ClientInv(e, w) && e.original == Inventorying && IsForward(w.point) && !IsStop(w.point)
    requires DuplicateInv(w, false)
    ensures DuplicateInv(Step(e, w, o), w.point == AddNext && o == Timeout(true))
  {
  }

  lemma UndoDuplicate(e: Env, w: World, o: Outcome, took: bool)
    requires ClientInv(e, w) && e.original == Inventorying && IsUndo(w.point) && DuplicateInv(w, took)
    ensures DuplicateInv(Step(e, w, o), took)
  {
  }

  lemma {:induction false} RunDuplicate(e: Env, w: World, os: seq<Outcome>, took: bool)
    requires ClientInv(e, w) && e.original == Inventorying && DuplicateInv(w, took)
    ensures DuplicateInv(Run(e, w, os), took || TookEffectUnanswered(e, w, os, {AddNext}))
    decreases |os|
  {
    if os == [] {
    } else {
      var now := w.point == AddNext && os[0] == Timeout(true);
      StepClientInv(e, w, os[0]);
      if IsStop(w.point) {
        StopDuplicate(e, w, os[0]);
      } else if IsForward(w.point) {
        ApplyDuplicate(e, w, os[0]);
      } else if IsUndo(w.point) {
        UndoDuplicate(e, w, os[0], took);
      }
      RunDuplicate(e, Step(e, w, os[0]), os[1..], took || now);
    }
  }

  /** When a ROSpec is added twice, over every run of responses and timeouts
      from INVENTORYING: the new ADD_ROSPEC always finds an empty reader, and
      the old one, which restores, finds a ROSpec exactly when the new one
      took effect but was never answered. */
  lemma DuplicateExactly(e: Env, c: Client, r0: Reader, os: seq<Outcome>)
    requires CanStart(e, c) && e.original == Inventorying
    ensures var w := Run(e, Begin(e, c, r0), os);
            && (w.point == AddNext ==> w.reader.rospecs == [])
            && (w.point == AddPrev ==>
                  (w.reader.rospecs != [] <==> TookEffectUnanswered(e, Begin(e, c, r0), os, {AddNext})))
  {
    BeginClientInv(e, c, r0);
    RunDuplicate(e, Begin(e, c, r0), os, false);
  }

  // ------------------------------------------- agreement under timeouts

  /** The points at which a lost answer makes the client lose track of the
      reader's ROSpecs. */
  const UNTRACKED: set<Point> := {StopROSpec, AddNext}

  /** The reader's ROSpecs on any run from INVENTORYING, by whether track of
      them was `lost`. */
  ghost predicate ROSpecInv(e: Env, w: World, lost: bool) {
    var held := w.reader.rospecs;
    match w.point
    case StopAccess | StopROSpec => held == [Held(e.prevSpec, true)] && !lost
    case SetNext | AddNext => held == [] && !w.client.added && !lost
    case EnableNext => held == [Held(e.nextSpec, false)] && w.client.added && !lost
    case DeleteReplacement => w.client.added && !lost
    case SetPrev => if w.client.added then !lost else if lost then |held| >= 1 else held == []
    case AddPrev => if lost then |held| >= 1 else held == []
    case EnablePrev => if lost then |held| >= 2 else held == [Held(e.prevSpec, false)]
    case Done =>
      w.client.state != Disconnected ==>
        (held == [Held(if w.status == Succeeded then e.nextSpec else e.prevSpec, true)] <==> !lost)
  }

  lemma StopROSpecs(e: Env, w: World, o: Outcome)
    requires ClientInv(e, w) && e.original == Inventorying && IsStop(w.point) && ROSpecInv(e, w, false)
    ensures ROSpecInv(e, Step(e, w, o), w.point == StopROSpec && o == Timeout(true))
  {
  }

  lemma ApplyROSpecs(e: Env, w: World, o: Outcome)
    requires ClientInv(e, w) && e.original == Inventorying && IsForward(w.point) && !IsStop(w.point)
    requires ROSpecInv(e, w, false)
    ensures ROSpecInv(e, Step(e, w, o), w.point == AddNext && o == Timeout(true))
  {
  }

  lemma UndoROSpecs(e: Env, w: World, o: Outcome, lost: bool)
    requires ClientInv(e, w) && e.original == Inventorying && IsUndo(w.point) && ROSpecInv(e, w, lost)
    ensures ROSpecInv(e, Step(e, w, o), lost)
  {
  }

  lemma {:induction false} RunROSpecs(e: Env, w: World, os: seq<Outcome>, lost: bool)
    requires ClientInv(e, w) && e.original == Inventorying && ROSpecInv(e, w, lost)
    ensures ROSpecInv(e, Run(e, w, os), lost || TookEffectUnanswered(e, w, os, UNTRACKED))
    decreases |os|
  {
    if os == [] {
    } else {
      var now := w.point in UNTRACKED && os[0] == Timeout(true);
      StepClientInv(e, w, os[0]);
      if IsStop(w.point) {
        StopROSpecs(e, w, os[0]);
      } else if IsForward(w.point) {
        ApplyROSpecs(e, w, os[0]);
      } else if IsUndo(w.point) {
        UndoROSpecs(e, w, os[0], lost);
      }
      RunROSpecs(e, Step(e, w, os[0]), os[1..], lost || now);
    }
  }

  /** The reader's settings on any run, by whether the new ones `slipped` in
      without an answer. */
  ghost predicate SettingsInv(e: Env, r0: Reader, w: World, slipped: bool) {
    && (slipped ==> !w.nextApplied && (IsUndo(w.point) || w.status == Failed))
    && ((w.point.Done? && w.client.state == Disconnected)
        || w.reader.settings == if slipped then r0.settings + e.nextMessage else Settings(e, r0, w))
    && (w.point == AddNext || w.point == EnableNext || w.status == Succeeded ==> w.nextApplied == e.write)
  }

  lemma StopSettings(e: Env, r0: Reader, w: World, o: Outcome)
    requires ClientInv(e, w) && e.original == Inventorying && IsStop(w.point) && SettingsInv(e, r0, w, false)
    ensures SettingsInv(e, r0, Step(e, w, o), false)
  {
  }

  lemma ApplySettings(e: Env, r0: Reader, w: World, o: Outcome)
    requires ClientInv(e, w) && e.original == Inventorying && IsForward(w.point) && !IsStop(w.point)
    requires SettingsInv(e, r0, w, false)
    ensures SettingsInv(e, r0, Step(e, w, o), w.point == SetNext && o == Timeout(true))
  {
  }

  lemma UndoSettings(e: Env, r0: Reader, w: World, o: Outcome, slipped: bool)
    requires ClientInv(e, w) && e.original == Inventorying && IsUndo(w.point) && SettingsInv(e, r0, w, slipped)
    ensures SettingsInv(e, r0, Step(e, w, o), slipped)
  {
  }

  lemma {:induction false} RunSettings(e: Env, r0: Reader, w: World, os: seq<Outcome>, slipped: bool)
    requires ClientInv(e, w) && e.original == Inventorying && SettingsInv(e, r0, w, slipped)
    ensures SettingsInv(e, r0, Run(e, w, os), slipped || TookEffectUnanswered(e, w, os, {SetNext}))
    decreases |os|
  {
    if os == [] {
    } else {
      var now := w.point in {SetNext} && os[0] == Timeout(true);
      StepClientInv(e, w, os[0]);
      if IsStop(w.point) {
        StopSettings(e, r0, w, os[0]);
      } else if IsForward(w.point) {
        ApplySettings(e, r0, w, os[0]);
      } else if IsUndo(w.point) {
        UndoSettings(e, r0, w, os[0], slipped);
      }
      RunSettings(e, r0, Step(e, w, os[0]), os[1..], slipped || now);
    }
  }

  /** Two messages that give a setting different values. */
  ghost predicate Contradicts(next: map<Setting, SettingValue>, prev: map<Setting, SettingValue>) {
    exists k :: k in next && k in prev && next[k] != prev[k]
  }

  lemma OverwrittenHolds(m: map<Setting, SettingValue>, prev: map<Setting, SettingValue>,
                         next: map<Setting, SettingValue>)
    requires Holds(m, prev)
    ensures Holds(m + next, prev) <==> !Contradicts(next, prev)
  {
    if k :| k in next && k in prev && next[k] != prev[k] {
      assert (m + next)[k] != prev[k];
    } else {
      forall k | k in prev
        ensures k in m + next && (m + next)[k] == prev[k]
      {
      }
    }
  }

  /** Agreement over every run of responses and timeouts from INVENTORYING that
      ended elsewhere than in DISCONNECTED. The reader holds exactly the one
      enabled ROSpec of the client's configuration if and only if no
      DELETE_ROSPEC of the stop and no new ADD_ROSPEC took effect unanswered.
      Its settings agree with the configuration's message if and only if no new
      SET_READER_CONFIG that contradicts the old one took effect unanswered. */
  lemma AgreementExactly(e: Env, caps: Capabilities, c: Client, r0: Reader, os: seq<Outcome>)
    requires CanStart(e, c) && EnvFor(e, caps) && e.original == Inventorying
    requires InventoryingReader(e, r0) && Holds(r0.settings, e.prevMessage)
    ensures var w0 := Begin(e, c, r0);
            var w := Run(e, w0, os);
            w.point.Done? && w.client.state != Disconnected ==>
              && (w.reader.rospecs == [Held(GenerateROSpec(w.client.config, caps), true)] <==>
                  !TookEffectUnanswered(e, w0, os, UNTRACKED))
              && (Holds(w.reader.settings, SetMessage(w.client.config)) <==>
                  !(TookEffectUnanswered(e, w0, os, {SetNext}) && Contradicts(e.nextMessage, e.prevMessage)))
  {
    ROSpecsExactly(e, c, r0, os);
    PlanIsSound(e, caps);
    SettingsExactly(e, c, r0, os);
    TransactionOutcome(e, c, r0, os);
  }

  lemma ROSpecsExactly(e: Env, c: Client, r0: Reader, os: seq<Outcome>)
    requires CanStart(e, c) && e.original == Inventorying && InventoryingReader(e, r0)
    ensures var w := Run(e, Begin(e, c, r0), os);
            w.point.Done? && w.client.state != Disconnected ==>
              (w.reader.rospecs == [Held(if w.status == Succeeded then e.nextSpec else e.prevSpec, true)] <==>
               !TookEffectUnanswered(e, Begin(e, c, r0), os, UNTRACKED))
  {
    BeginClientInv(e, c, r0);
    RunROSpecs(e, Begin(e, c, r0), os, false);
  }

  lemma SettingsExactly(e: Env, c: Client, r0: Reader, os: seq<Outcome>)
    requires CanStart(e, c) && PlanSound(e) && e.original == Inventorying && Holds(r0.settings, e.prevMessage)
    ensures var w := Run(e, Begin(e, c, r0), os);
            w.point.Done? && w.client.state != Disconnected ==>
              (Holds(w.reader.settings, if w.status == Succeeded then e.nextMessage else e.prevMessage) <==>
               !(TookEffectUnanswered(e, Begin(e, c, r0), os, {SetNext}) && Contradicts(e.nextMessage, e.prevMessage)))
  {
    BeginClientInv(e, c, r0);
    RunClientInv(e, Begin(e, c, r0), os);
    RunSettings(e, r0, Begin(e, c, r0), os, false);
    EndedSettings(e, r0, Run(e, Begin(e, c, r0), os), TookEffectUnanswered(e, Begin(e, c, r0), os, {SetNext}));
  }

  lemma EndedSettings(e: Env, r0: Reader, w: World, slipped: bool)
    requires ClientInv(e, w) && SettingsInv(e, r0, w, slipped)
    requires PlanSound(e) && Holds(r0.settings, e.prevMessage)
    ensures w.point.Done? && w.client.state != Disconnected ==>
              (Holds(w.reader.settings, if w.status == Succeeded then e.nextMessage else e.prevMessage) <==>
               !(slipped && Contradicts(e.nextMessage, e.prevMessage)))
  {
    OverwrittenHolds(r0.settings, e.prevMessage, e.nextMessage);
  }

  /** What a client and its reader have in common while connected: the
      settings of the configuration's message, whether a ROSpec is held, and
      while inventorying the one enabled ROSpec of the configuration. */
  ghost predicate InStep(c: Client, r: Reader, caps: Capabilities) {
    c.state != Disconnected ==>
      && Holds(r.settings, SetMessage(c.config))
      && (c.added <==> r.rospecs != [])
      && (c.state == Inventorying ==> r.rospecs == [Held(GenerateROSpec(c.config, caps), true)])
  }

  /** A whole transition with definite answers takes a client in step with
      its reader to a client in step with its reader. */
  lemma TransitionKeepsStep(e: Env, caps: Capabilities, c: Client, r0: Reader, os: seq<Outcome>)
    requires CanStart(e, c) && EnvFor(e, caps) && Definite(os) && |os| >= 9 && InStep(c, r0, caps)
    ensures var w := Run(e, Begin(e, c, r0), os); w.point.Done? && InStep(w.client, w.reader, caps)
  {
    var w := Run(e, Begin(e, c, r0), os);
    TransactionOutcome(e, c, r0, os);
    TransitionTracks(e, c, r0, os);
    if e.original == Inventorying {
      ReaderAgreement(e, caps, c, r0, os);
    } else {
      IdleReaderAgreement(e, caps, c, r0, os);
    }
  }

  lemma TransitionTracks(e: Env, c: Client, r0: Reader, os: seq<Outcome>)
    requires CanStart(e, c) && Definite(os) && (c.added <==> r0.rospecs != [])
    requires e.original == Inventorying ==> InventoryingReader(e, r0)
    ensures Tracks(Run(e, Begin(e, c, r0), os))
  {
    BeginClientInv(e, c, r0);
    BeginReaderInv(e, c, r0);
    RunReaderInv(e, r0, Begin(e, c, r0), os);
  }

  /** A commit that needs no reader traffic keeps them in step. */
  lemma CommitKeepsStep(prev: Config, next: Config, caps: Capabilities)
    requires AgreeOn(prev, next, ROSpecChange) && AgreeOn(prev, next, ReaderConfigChange)
    ensures GenerateROSpec(next, caps) == GenerateROSpec(prev, caps) && SetMessage(next) == SetMessage(prev)
  {
    ROSpecDependsOnROSpecFields(prev, next, caps);
    SetMessageDependsOnReaderFields(prev, next);
  }

  /** With a timeout the flag no longer follows the reader: an ADD_ROSPEC that
      took effect but was never answered is followed by a second one. */
  lemma TimeoutCanDuplicate(e: Env, c: Client, r0: Reader)
    requires CanStart(e, c) && e.original == Inventorying && InventoryingReader(e, r0)
    requires !e.write && e.nextAccepted && e.prevAccepted
    ensures var w := Run(e, Begin(e, c, r0), [Success, Success, Timeout(true)]);
            w.point == AddPrev && w.reader.rospecs == [Held(e.nextSpec, false)]
  {
    var w0 := Begin(e, c, r0);
    RunThree(e, w0, Success, Success, Timeout(true));
    assert Step(e, Step(e, w0, Success), Success).reader.rospecs == [];
  }

  // ------------------------------------------------------ rollback exactness

  /** Every completed rollback gives the reader its earlier settings back. */
  ghost predicate RollbackRestores(e: Env) {
    forall c, r0, os |
      && CanStart(e, c) && InventoryingReader(e, r0) && Holds(r0.settings, e.prevMessage) && Definite(os)
      && Run(e, Begin(e, c, r0), os).status == Failed
      && Run(e, Begin(e, c, r0), os).client.state != Disconnected
      :: Run(e, Begin(e, c, r0), os).reader.settings == r0.settings
  }

  /** Rewriting the old values over the new ones is an undo when the old
      message covers the new one. */
  lemma RewriteRestores(m: map<Setting, SettingValue>, prev: map<Setting, SettingValue>,
                        next: map<Setting, SettingValue>)
    requires Holds(m, prev) && next.Keys <= prev.Keys
    ensures m + next + prev == m
  {
  }

  lemma CoveredRollbackRestores(e: Env, c: Client, r0: Reader, os: seq<Outcome>)
    requires CanStart(e, c) && e.original == Inventorying && InventoryingReader(e, r0) && Definite(os)
    requires Holds(r0.settings, e.prevMessage) && e.nextMessage.Keys <= e.prevMessage.Keys
    requires Run(e, Begin(e, c, r0), os).status == Failed
    requires Run(e, Begin(e, c, r0), os).client.state != Disconnected
    ensures Run(e, Begin(e, c, r0), os).reader.settings == r0.settings
  {
    BeginClientInv(e, c, r0);
    BeginReaderInv(e, c, r0);
    RunReaderInv(e, r0, Begin(e, c, r0), os);
    RewriteRestores(r0.settings, e.prevMessage, e.nextMessage);
  }

  /** The new ADD_ROSPEC is rejected and the undo succeeds. */
  lemma FailedAdd(e: Env, w: World) returns (os: seq<Outcome>)
    requires w.point == AddNext && w.nextApplied && !w.client.added && e.original == Inventorying && e.prevAccepted
    ensures Definite(os)
    ensures var d := Run(e, w, os);
            && d.status == Failed && d.client.state == Inventorying
            && d.reader.settings == w.reader.settings + e.prevMessage
  {
    var a := AddFails(e, w);
    var d := Run(e, w, a);
    RunCons(e, d, Success, []);
    RunSplits(e, w, a, [Success]);
    os := a + [Success];
  }

  lemma AddFails(e: Env, w: World) returns (os: seq<Outcome>)
    requires w.point == AddNext && w.nextApplied && !w.client.added && e.original == Inventorying && e.prevAccepted
    ensures |os| == 3 && Definite(os)
    ensures var d := Run(e, w, os);
            d.point == EnablePrev && d.reader.settings == w.reader.settings + e.prevMessage
  {
    os := [Failure, Success, Success];
    RunThree(e, w, Failure, Success, Success);
  }

  /** A run in which the new ADD_ROSPEC is rejected and the undo succeeds. */
  lemma RejectedAddRun(e: Env, c: Client, r0: Reader) returns (os: seq<Outcome>)
    requires CanStart(e, c) && e.original == Inventorying && e.write && e.nextAccepted && e.prevAccepted
    ensures Definite(os)
    ensures var w := Run(e, Begin(e, c, r0), os);
            && w.status == Failed && w.client.state == Inventorying
            && w.reader.settings == r0.settings + e.nextMessage + e.prevMessage
  {
    var granted := ThreeGranted(e, c, r0);
    var failed := FailedAdd(e, Run(e, Begin(e, c, r0), granted));
    RunSplits(e, Begin(e, c, r0), granted, failed);
    os := granted + failed;
  }

  /** Rollback exactness. A rollback is sure to restore the reader's settings
      exactly when the old configuration's message mentions every setting
      that the new one's mentions. */
  lemma RollbackExactness(e: Env)
    requires CanApply(e.original) && PlanSound(e) && e.original == Inventorying && e.nextAccepted && e.prevAccepted
    ensures RollbackRestores(e) <==> e.nextMessage.Keys <= e.prevMessage.Keys
  {
    if e.nextMessage.Keys <= e.prevMessage.Keys {
      forall c, r0, os |
        && CanStart(e, c) && InventoryingReader(e, r0) && Holds(r0.settings, e.prevMessage) && Definite(os)
        && Run(e, Begin(e, c, r0), os).status == Failed
        && Run(e, Begin(e, c, r0), os).client.state != Disconnected
        ensures Run(e, Begin(e, c, r0), os).reader.settings == r0.settings
      {
        CoveredRollbackRestores(e, c, r0, os);
      }
    } else {
      UncoveredRollbackFails(e);
    }
  }

  lemma UncoveredRollbackFails(e: Env)
    requires PlanSound(e) && e.original == Inventorying && e.nextAccepted && e.prevAccepted
    requires !(e.nextMessage.Keys <= e.prevMessage.Keys)
    ensures !RollbackRestores(e)
  {
    var k :| k in e.nextMessage.Keys && k !in e.prevMessage.Keys;
    var r0 := Reader(e.prevMessage, [Held(e.prevSpec, true)]);
    var c := Client(e.prev, e.prev, Inventorying, None, true, false, None, None, 0);
    var os := RejectedAddRun(e, c, r0);
    assert k in Run(e, Begin(e, c, r0), os).reader.settings && k !in r0.settings;
    assert CanStart(e, c) && InventoryingReader(e, r0) && Holds(r0.settings, e.prevMessage);
  }

  /** The condition in terms of the two configurations: keepalive, GPI ports,
      extra events and the Impinj antenna event are mentioned only when set. */
  lemma CoverageIsPerField(prev: Config, next: Config)
    ensures SetMessage(next).Keys <= SetMessage(prev).Keys <==>
            forall k :: MentionsSetting(next, DEFAULT_EVENTS, k) ==> MentionsSetting(prev, DEFAULT_EVENTS, k)
  {
    forall k
      ensures k in SetMessage(next) <==> MentionsSetting(next, DEFAULT_EVENTS, k)
      ensures k in SetMessage(prev) <==> MentionsSetting(prev, DEFAULT_EVENTS, k)
    {
      SetMessageKeys(next, k);
      SetMessageKeys(prev, k);
    }
  }

  /** Rollback exactness for the messages of two actual configurations. */
  lemma RollbackExactnessOfConfigs(e: Env, caps: Capabilities)
    requires EnvFor(e, caps) && e.original == Inventorying && e.nextAccepted && e.prevAccepted
    ensures RollbackRestores(e) <==>
            forall k :: MentionsSetting(e.next, DEFAULT_EVENTS, k) ==> MentionsSetting(e.prev, DEFAULT_EVENTS, k)
  {
    PlanIsSound(e, caps);
    RollbackExactness(e);
    CoverageIsPerField(e.prev, e.next);
  }

  // --------------------------------------------- what an ended run leaves over

  /** Whether some SET_READER_CONFIG of a run timed out. */
  predicate SetTimedOut(e: Env, w: World, os: seq<Outcome>)
    decreases |os|
  {
    os != [] && ((os[0].Timeout? && IsSet(w.point)) || SetTimedOut(e, Step(e, w, os[0]), os[1..]))
  }

  lemma {:induction false} SuppressionStays(e: Env, w: World, os: seq<Outcome>)
    requires ClientInv(e, w)
    requires !IsForward(w.point) && w.point != SetPrev
    ensures Run(e, w, os).client.suppress == w.client.suppress && !SetTimedOut(e, w, os)
    decreases |os|
  {
    if os == [] {
    } else {
      StepClientInv(e, w, os[0]);
      SuppressionStays(e, Step(e, w, os[0]), os[1..]);
    }
  }

  /** One outcome other than the timeout of a SET_READER_CONFIG. */
  lemma SuppressionStep(e: Env, w: World, o: Outcome)
    requires w.client.suppress <==> IsSet(w.point)
    requires w.point == SetNext ==> e.original == Inventorying ==> !w.client.added
    requires !(IsSet(w.point) && o.Timeout?)
    ensures var d := Step(e, w, o);
            && (d.client.suppress <==> IsSet(d.point))
            && (d.point == SetNext ==> e.original == Inventorying ==> !d.client.added)
  {
  }

  lemma SuppressionTimeout(e: Env, w: World, o: Outcome)
    requires ClientInv(e, w) && IsSet(w.point) && o.Timeout?
    requires w.point == SetNext ==> e.original == Inventorying ==> !w.client.added
    ensures var d := Step(e, w, o); d.client.suppress && !IsForward(d.point) && d.point != SetPrev
  {
  }

  lemma {:induction false} SuppressionAlongRun(e: Env, w: World, os: seq<Outcome>)
    requires ClientInv(e, w)
    requires w.client.suppress <==> IsSet(w.point)
    requires w.point == SetNext ==> e.original == Inventorying ==> !w.client.added
    ensures Run(e, w, os).client.suppress <==> IsSet(Run(e, w, os).point) || SetTimedOut(e, w, os)
    decreases |os|
  {
    if os == [] {
    } else {
      var w' := Step(e, w, os[0]);
      StepClientInv(e, w, os[0]);
      if IsSet(w.point) && os[0].Timeout? {
        SuppressionTimeout(e, w, os[0]);
        SuppressionStays(e, w', os[1..]);
      } else {
        SuppressionStep(e, w, os[0]);
        SuppressionAlongRun(e, w', os[1..]);
      }
    }
  }

  /** The suppression flag is left set exactly when a SET_READER_CONFIG timed
      out: a negative and a positive response both clear it. */
  lemma SuppressionFlag(e: Env, c: Client, r: Reader, os: seq<Outcome>)
    requires CanStart(e, c) && !c.suppress
    ensures var w := Run(e, Begin(e, c, r), os);
            w.point.Done? ==> (w.client.suppress <==> SetTimedOut(e, Begin(e, c, r), os))
  {
    BeginClientInv(e, c, r);
    SuppressionAlongRun(e, Begin(e, c, r), os);
  }

  lemma {:induction false} PausedAfterStop(e: Env, w: World, os: seq<Outcome>)
    requires e.original == Paused && (w.point == SetNext || w.point.Done?)
    requires w.client.rospec == None && !w.nextApplied
    ensures var w' := Run(e, w, os); w'.client.rospec == None && w'.reader.rospecs == w.reader.rospecs
    decreases |os|
  {
    if os != [] && !w.point.Done? {
      var w' := Step(e, w, os[0]);
      EndedIsFinal(e, w', os[1..]);
    } else if os != [] {
      EndedIsFinal(e, w, os);
    }
  }

  /** A paused client has forgotten its ROSpec when a transition ends, so a
      following resume() sends ADD_ROSPEC. The reader is then still holding a
      ROSpec exactly when it held one before and the stop was refused. */
  lemma PausedTransition(e: Env, c: Client, r0: Reader, os: seq<Outcome>)
    requires CanStart(e, c) && e.original == Paused && Definite(os) && os != []
    ensures var w := Run(e, Begin(e, c, r0), os);
            && w.client.rospec == None
            && w.reader.rospecs == (if os[0].Success? then [] else r0.rospecs)
  {
    PausedAfterStop(e, Step(e, Begin(e, c, r0), os[0]), os[1..]);
  }

  /** _resume_inventory of a paused client: one that has forgotten its ROSpec
      starts inventory anew, with ADD_ROSPEC; any other enables what it has. */
  function Resumed(c: Client): Point
    requires c.state == Paused
  {
    if c.rospec.None? then AddNext else EnableNext
  }

  /** A transition from PAUSED whose stop was refused, then a resume: the
      client adds a ROSpec to a reader that still holds what it held. So the
      ROSpec is duplicated exactly when there was one and the stop was refused. */
  lemma ResumeAfterPausedTransition(e: Env, c: Client, r0: Reader, os: seq<Outcome>)
    requires CanStart(e, c) && e.original == Paused && Definite(os) && os != []
    requires Run(e, Begin(e, c, r0), os).client.state == Paused
    ensures var w := Run(e, Begin(e, c, r0), os);
            && Resumed(w.client) == AddNext
            && (|Effect(e, w.reader, Resumed(w.client)).rospecs| > 1 <==> r0.rospecs != [] && !os[0].Success?)
  {
    PausedTransition(e, c, r0, os);
  }
}
