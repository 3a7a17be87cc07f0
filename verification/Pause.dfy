/**
 Timed pause (`LLRPClient.pause`, `resume` and the timer that resumes an
 inventory by itself). Cancelling a timer is best effort: a timer that was
 cancelled may still fire, and the generation counter has to make it harmless.
 */
module Pause {
  import opened Prelude

  datatype State = Inventorying | Pausing | Paused | Connected | Disconnected | Resuming | OtherState

  /** A started timer that has not fired: the generation it was armed in, and
      whether it rebuilds the ROSpec. */
  datatype Timer = Timer(generation: nat, regenerate: bool)

  /** `revoked` are the timers that a cancellation has hit since they were
      armed; the program does not keep it. */
  datatype Control = Control(
    state: State,
    generation: nat,
    current: Option<nat>,
    requested: Option<(nat, bool)>,
    timers: map<nat, Timer>,
    started: nat,
    revoked: set<nat>,
    resumed: seq<nat>)

  /** `ApplyConfigCall` is a configuration change that begins a transition. */
  datatype Event =
    | PauseCall(seconds: nat, force: bool, regenerate: bool, written: bool)
    | PauseAnswer(ok: bool)
    | ResumeCall
    | ApplyConfigCall
    | StateChange(state: State)
    | SessionReset
    | HardDisconnect
    | TimerFires(timer: nat)

  // ------------------------------------------------------------------- steps

  /** _cancel_pause_resume_timer. */
  function Cancel(c: Control): Control {
    c.(generation := c.generation + 1, current := None, revoked := c.revoked + c.timers.Keys)
  }

  /** _schedule_pause_resume. */
  function Schedule(c: Control, regenerate: bool): Control {
    var d := Cancel(c);
    d.(timers := d.timers[d.started := Timer(d.generation, regenerate)],
    current := Some(d.started), started := d.started + 1)
  }

  /** setState. */
  function WithState(c: Control, s: State): Control {
    if s == Disconnected then Cancel(c).(state := s) else c.(state := s)
  }

  /** _resume_inventory, up to the request it sends. */
  function Resume(c: Control): Control {
    if c.state == Connected || c.state == Disconnected || c.state == Paused then c.(state := Resuming) else c
  }

  /** One step. A forced pause while a DISABLE_ROSPEC is unanswered raises,
      after it has cancelled the timer; so does a pause whose request cannot
      be written, which gives the client its state back. */
  function Step(c: Control, e: Event): Control {
    match e
    case PauseCall(seconds, force, regenerate, written) =>
      if c.state != Inventorying && !force then c
      else if c.requested.Some? then Cancel(c)
      else if !written then WithState(Cancel(c), c.state)
      else Cancel(c).(requested := Some((seconds, regenerate)), state := Pausing)
    case PauseAnswer(ok) =>
      if c.requested.None? then c
      else if !ok then c.(requested := None)
      else
        var d := WithState(c, Paused).(requested := None);
        if c.requested.value.0 > 0 then Schedule(d, c.requested.value.1) else d
    case ResumeCall => Resume(Cancel(c))
    case ApplyConfigCall => if c.state == Paused then Cancel(c).(state := OtherState) else c
    case StateChange(s) => WithState(c, s)
    case SessionReset => Cancel(c).(requested := None, state := Disconnected)
    case HardDisconnect => Cancel(c)
    case TimerFires(t) =>
      if t !in c.timers then c
      else
        var d := c.(timers := c.timers - {t});
        if c.timers[t].generation != c.generation then d
        else if c.state != Paused then d.(current := None)
        else Resume(d.(current := None)).(resumed := d.resumed + [t])
  }

  function Run(c: Control, es: seq<Event>): Control
    decreases |es|
  {
    if es == [] then c else Run(Step(c, es[0]), es[1..])
  }

  function Initial(): Control {
    Control(Disconnected, 0, None, None, map[], 0, {}, [])
  }

  // -------------------------------------------------------------- invariants

  ghost predicate Inv(c: Control) {
    && (forall t | t in c.timers :: t < c.started && c.timers[t].generation <= c.generation)
    && (forall t | t in c.timers :: c.timers[t].generation == c.generation <==> t !in c.revoked)
    && (forall t | t in c.timers && t !in c.revoked :: c.current == Some(t))
    && (forall t | t in c.revoked :: t < c.started)
    && (forall t | t in c.resumed :: t < c.started && t !in c.timers)
    && (forall i, j | 0 <= i < j < |c.resumed| :: c.resumed[i] != c.resumed[j])
  }

  lemma CancelInv(c: Control)
    requires Inv(c)
    ensures Inv(Cancel(c)) && forall t | t in c.timers :: t in Cancel(c).revoked
  {
  }

  lemma ScheduleInv(c: Control)
    requires Inv(c)
    ensures Inv(Schedule(c, true)) && Inv(Schedule(c, false))
  {
    CancelInv(c);
  }

  lemma StepInv(c: Control, e: Event)
    requires Inv(c)
    ensures Inv(Step(c, e))
  {
    match e
    case PauseAnswer(ok) => AnswerInv(c, ok);
    case TimerFires(t) => FiringInv(c, t);
    case _ => CallInv(c, e);
  }

  lemma AnswerInv(c: Control, ok: bool)
    requires Inv(c)
    ensures Inv(Step(c, PauseAnswer(ok)))
  {
    ScheduleInv(c.(state := Paused, requested := None));
  }

  lemma CallInv(c: Control, e: Event)
    requires Inv(c) && !e.PauseAnswer? && !e.TimerFires?
    ensures Inv(Step(c, e))
  {
    CancelInv(c);
  }

  lemma FiringInv(c: Control, t: nat)
    requires Inv(c)
    ensures Inv(Step(c, TimerFires(t)))
  {
    assert t in c.timers ==> t !in c.resumed;
  }

  lemma {:induction false} RunInv(c: Control, es: seq<Event>)
    requires Inv(c)
    ensures Inv(Run(c, es))
    decreases |es|
  {
    if es == [] {
    } else {
      StepInv(c, es[0]);
      RunInv(Step(c, es[0]), es[1..]);
    }
  }

  /** Timed pause safety, over every interleaving of calls, answers, state
      changes and firing timers: at most one started timer is not revoked and
      it is the current one; a firing timer resumes the inventory exactly
      when nothing has cancelled it since it was armed and the client is
      paused; and a timer resumes at most once. */
  lemma TimedPauseSafety(es: seq<Event>, t: nat)
    ensures var c := Run(Initial(), es);
            && (forall a, b | a in c.timers && b in c.timers && a !in c.revoked && b !in c.revoked :: a == b)
            && (t in c.timers ==>
                  var d := Step(c, TimerFires(t));
                  && (d.resumed == c.resumed + [t] <==> t !in c.revoked && c.state == Paused)
                  && (d.resumed == c.resumed + [t] || (d.resumed == c.resumed && d.state == c.state)))
            && (forall i, j | 0 <= i < j < |c.resumed| :: c.resumed[i] != c.resumed[j])
  {
    RunInv(Initial(), es);
    FiringResumes(Run(Initial(), es), t);
  }

  /** Whether an event arms a timer. */
  predicate Arms(c: Control, e: Event) {
    e.PauseAnswer? && e.ok && c.requested.Some? && c.requested.value.0 > 0
  }

  /** The events that end a timed pause before its time: an accepted or a
      refused pause, a resume, a configuration change while paused, a
      disconnect, hard or not, a session reset, and a later timed pause. */
  predicate Cancels(c: Control, e: Event) {
    match e
    case PauseCall(_, force, _, _) => c.state == Inventorying || force
    case PauseAnswer(_) => Arms(c, e)
    case ResumeCall => true
    case ApplyConfigCall => c.state == Paused
    case StateChange(s) => s == Disconnected
    case SessionReset | HardDisconnect => true
    case TimerFires(_) => false
  }

  /** Whether a run from `c` has such an event. */
  predicate Cancelled(c: Control, es: seq<Event>)
    decreases |es|
  {
    es != [] && (Cancels(c, es[0]) || Cancelled(Step(c, es[0]), es[1..]))
  }

  /** One event revokes a timer exactly when it is one of those. */
  lemma RevokedByStep(c: Control, e: Event, t: nat)
    requires Inv(c) && t < c.started
    ensures t in Step(c, e).timers ==> t in c.timers
    ensures t in c.timers ==> (t in Step(c, e).revoked <==> t in c.revoked || Cancels(c, e))
    ensures t < Step(c, e).started
  {
  }

  lemma {:induction false} RevokedByRun(c: Control, es: seq<Event>, t: nat)
    requires Inv(c) && t < c.started
    ensures t in Run(c, es).timers ==>
              t in c.timers && (t in Run(c, es).revoked <==> t in c.revoked || Cancelled(c, es))
    decreases |es|
  {
    if es == [] {
    } else {
      RevokedByStep(c, es[0], t);
      StepInv(c, es[0]);
      RevokedByRun(Step(c, es[0]), es[1..], t);
    }
  }

  /** A timer that a paused client armed resumes the inventory, whenever it
      fires, exactly when the client is paused and none of the cancelling
      events has happened since. */
  lemma TimerResumesExactlyUncancelled(before: seq<Event>, arming: Event, since: seq<Event>)
    requires Arms(Run(Initial(), before), arming)
    ensures var c0 := Run(Initial(), before);
            var armed := Step(c0, arming);
            var t := c0.started;
            var c := Run(armed, since);
            && t in armed.timers
            && (t in c.timers ==>
                  (Step(c, TimerFires(t)).resumed == c.resumed + [t] <==>
                   c.state == Paused && !Cancelled(armed, since)))
  {
    RunInv(Initial(), before);
    var c0 := Run(Initial(), before);
    StepInv(c0, arming);
    var armed := Step(c0, arming);
    RevokedByRun(armed, since, c0.started);
    RunInv(armed, since);
    var c := Run(armed, since);
    FiringResumes(c, c0.started);
  }

  lemma FiringResumes(c: Control, t: nat)
    requires Inv(c)
    ensures t in c.timers ==>
              (Step(c, TimerFires(t)).resumed == c.resumed + [t] <==> t !in c.revoked && c.state == Paused)
  {
    assert c.resumed + [t] != c.resumed;
  }

  /** The state that each event leaves. A refused answer leaves the client
      pausing. */
  ghost function StateAfter(c: Control, e: Event): State {
    match e
    case PauseCall(_, force, _, written) =>
      if (c.state == Inventorying || force) && c.requested.None? && written then Pausing else c.state
    case PauseAnswer(ok) => if ok && c.requested.Some? then Paused else c.state
    case ResumeCall => if c.state in {Connected, Disconnected, Paused} then Resuming else c.state
    case ApplyConfigCall => if c.state == Paused then OtherState else c.state
    case StateChange(s) => s
    case SessionReset => Disconnected
    case HardDisconnect => c.state
    case TimerFires(t) => if t in c.timers && t !in c.revoked && c.state == Paused then Resuming else c.state
  }

  /** The state after an event, in terms of what has been revoked and not of
      the generation that the client counts. */
  lemma StateFollows(c: Control, e: Event)
    requires Inv(c)
    ensures Step(c, e).state == StateAfter(c, e)
  {
  }

  lemma RunTwo(c: Control, a: Event, b: Event)
    ensures Run(c, [a, b]) == Step(Step(c, a), b)
  {
    assert [a, b][1..] == [b] && [b][1..] == [];
    assert Run(Step(c, a), [b]) == Run(Step(Step(c, a), b), []);
  }

  /** A timed pause that is granted: the client is paused with one timer more,
      and when that fires it resumes. */
  lemma TimedPauseCycle(c: Control, seconds: nat, regenerate: bool)
    requires Inv(c) && c.state == Inventorying && c.requested.None? && seconds > 0
    ensures var d := Run(c, [PauseCall(seconds, false, regenerate, true), PauseAnswer(true)]);
            && d.state == Paused && d.requested.None? && d.started == c.started + 1
            && c.started in d.timers && d.timers[c.started].regenerate == regenerate && c.started !in d.revoked
            && var r := Step(d, TimerFires(c.started));
            r.state == Resuming && r.resumed == c.resumed + [c.started]
  {
    RunTwo(c, PauseCall(seconds, false, regenerate, true), PauseAnswer(true));
    StepInv(c, PauseCall(seconds, false, regenerate, true));
    var p := Step(c, PauseCall(seconds, false, regenerate, true));
    StepInv(p, PauseAnswer(true));
  }

  /** A pause without a duration arms nothing, and lasts until a resume. */
  lemma PlainPauseCycle(c: Control, regenerate: bool)
    requires c.state == Inventorying && c.requested.None?
    ensures var d := Run(c, [PauseCall(0, false, regenerate, true), PauseAnswer(true)]);
            d.state == Paused && d.timers == c.timers && Step(d, ResumeCall).state == Resuming
  {
    RunTwo(c, PauseCall(0, false, regenerate, true), PauseAnswer(true));
  }

  /** A pause that the reader refuses leaves the client pausing and arms nothing. */
  lemma RefusedPause(c: Control, seconds: nat, regenerate: bool)
    requires c.state == Inventorying && c.requested.None?
    ensures var d := Run(c, [PauseCall(seconds, false, regenerate, true), PauseAnswer(false)]);
            d.state == Pausing && d.timers == c.timers && d.requested.None?
  {
    RunTwo(c, PauseCall(seconds, false, regenerate, true), PauseAnswer(false));
  }

  // --------------------------------------------------------------- the class

  class PauseControl {
    var state: State
    var pauseResumeGeneration: nat
    var pauseResumeTimer: Option<nat>
    var requested: Option<(nat, bool)>
    ghost var timers: map<nat, Timer>
    var started: nat
    ghost var revoked: set<nat>
    ghost var resumed: seq<nat>

    ghost function View(): Control
      reads this
    {
      Control(state, pauseResumeGeneration, pauseResumeTimer, requested, timers, started, revoked, resumed)
    }

    constructor ()
      ensures View() == Initial()
    {
      state, pauseResumeGeneration, pauseResumeTimer, requested := Disconnected, 0, None, None;
      timers, started, revoked, resumed := map[], 0, {}, [];
    }

    method CancelPauseResumeTimer()
      modifies this`pauseResumeGeneration, this`pauseResumeTimer, this`revoked
      ensures View() == Cancel(old(View()))
    {
      pauseResumeGeneration := pauseResumeGeneration + 1;
      pauseResumeTimer := None;
      revoked := revoked + timers.Keys;
    }

    /** Returns what the timer captures: its number and its generation. */
    method SchedulePauseResume(regenerate: bool) returns (timer: nat, generation: nat)
      modifies this
      ensures View() == Schedule(old(View()), regenerate)
      ensures timer in timers && timers[timer] == Timer(generation, regenerate)
    {
      CancelPauseResumeTimer();
      timer, generation := started, pauseResumeGeneration;
      timers := timers[timer := Timer(generation, regenerate)];
      pauseResumeTimer := Some(timer);
      started := started + 1;
    }

    method SetState(s: State)
      modifies this
      ensures View() == WithState(old(View()), s)
    {
      if s == Disconnected {
        CancelPauseResumeTimer();
      }
      state := s;
    }

    method ResumeInventory()
      modifies this`state
      ensures View() == Resume(old(View()))
    {
      if state == Connected || state == Disconnected {
        state := Resuming;
      } else if state == Paused {
        state := Resuming;
      }
    }

    /** `written`: the DISABLE_ROSPEC could be written. */
    method PauseInventory(seconds: nat, force: bool, regenerate: bool, written: bool) returns (raised: bool)
      modifies this
      ensures View() == Step(old(View()), PauseCall(seconds, force, regenerate, written))
      ensures raised <==> (old(state) == Inventorying || force) && (old(requested).Some? || !written)
    {
      raised := false;
      if state != Inventorying && !force {
        return;
      }
      CancelPauseResumeTimer();
      if requested.Some? {
        return true;
      }
      var previousState := state;
      SetState(Pausing);
      if !written {
        SetState(previousState);
        return true;
      }
      requested := Some((seconds, regenerate));
    }

    /** The timer's part of a hard disconnect. */
    method OnHardDisconnect()
      modifies this
      ensures View() == Step(old(View()), HardDisconnect)
    {
      CancelPauseResumeTimer();
    }

    /** The part of a session reset that concerns a pause. */
    method ResetSession()
      modifies this
      ensures View() == Step(old(View()), SessionReset)
    {
      CancelPauseResumeTimer();
      requested, state := None, Disconnected;
    }

    method OnDisableAnswered(ok: bool)
      modifies this
      ensures View() == Step(old(View()), PauseAnswer(ok))
    {
      if requested.None? {
        return;
      }
      var (seconds, regenerate) := requested.value;
      requested := None;
      if ok {
        SetState(Paused);
        if seconds > 0 {
          var _, _ := SchedulePauseResume(regenerate);
        }
      }
    }

    method ResumeNow()
      modifies this
      ensures View() == Step(old(View()), ResumeCall)
    {
      CancelPauseResumeTimer();
      ResumeInventory();
    }

    /** The body of a timer, which knows only the generation it captured. */
    method TimedResume(timer: nat, generation: nat)
      requires timer in timers && timers[timer].generation == generation
      modifies this
      ensures View() == Step(old(View()), TimerFires(timer))
    {
      timers := timers - {timer};
      if generation != pauseResumeGeneration {
        return;
      }
      pauseResumeTimer := None;
      if state != Paused {
        return;
      }
      ResumeInventory();
      resumed := resumed + [timer];
    }
  }
}
