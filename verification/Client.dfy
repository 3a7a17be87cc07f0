/**
 The protocol client that runs an apply_config transition: its fields, the
 callbacks of the transition as methods, and `handleMessage` restricted to the
 responses a transition waits for. Every method is proved against the
 transition table of module Transaction.
 */
module ConfigClient {
  import opened Prelude
  import opened ConfigPlan
  import opened Transaction

  datatype ApplyResult = Rejected | Completed | InTransition

  class LLRPClient {
    // the client's own fields
    var config: Config
    var desiredConfig: Config
    var state: State
    var rospec: Option<ROSpec>
    var inventoryROSpecAdded: bool
    var suppressSetConfigPostActions: bool
    var generatedConfigSnapshot: Option<Config>
    var appliedConfigSnapshot: Option<Config>
    var lastMsgId: nat

    // whether a configuration is valid; under the reader's capabilities, the
    // ROSpec generated from it, its SET_READER_CONFIG message, and whether it
    // is accepted
    const validates: Config -> bool
    const generate: Config -> ROSpec
    const message: Config -> map<Setting, SettingValue>
    const accepts: Config -> bool

    // what the callbacks of the current transition capture
    var env: Env
    var waitingFor: Point
    var newReaderConfigApplied: bool
    var status: Status
    var completions: nat

    // the reader at the other end
    ghost var reader: Reader

    function ClientView(): Client
      reads this
    {
      Client(config, desiredConfig, state, rospec, inventoryROSpecAdded, suppressSetConfigPostActions,
             generatedConfigSnapshot, appliedConfigSnapshot, lastMsgId)
    }

    ghost function View(): World
      reads this
    {
      World(ClientView(), waitingFor, newReaderConfigApplied, status, completions, reader)
    }

    /** The parameters of the transition are those of its configurations. */
    ghost predicate Derived()
      reads this
    {
      && CanApply(env.original)
      && env.prevSpec == generate(env.prev) && env.nextSpec == generate(env.next)
      && env.prevMessage == message(env.prev) && env.nextMessage == message(env.next)
      && env.prevAccepted == accepts(env.prev) && env.nextAccepted == accepts(env.next)
    }

    /** A transition is running, or has just ended. */
    ghost predicate InFlight()
      reads this
    {
      ClientInv(env, View()) && Derived()
    }

    constructor (initial: Config, validates: Config -> bool, generate: Config -> ROSpec,
                 message: Config -> map<Setting, SettingValue>, accepts: Config -> bool, ghost reader: Reader)
      ensures ClientView() == Client(initial, initial, Disconnected, None, false, false, None, None, 0)
      ensures waitingFor.Done? && this.reader == reader
      ensures this.validates == validates && this.accepts == accepts
      ensures this.generate == generate && this.message == message
    {
      config, desiredConfig, state := initial, initial, Disconnected;
      rospec, generatedConfigSnapshot, appliedConfigSnapshot := None, None, None;
      inventoryROSpecAdded, suppressSetConfigPostActions := false, false;
      lastMsgId := 0;
      this.validates, this.generate, this.message, this.accepts := validates, generate, message, accepts;
      env := Env(initial, initial, Connected, generate(initial), generate(initial),
                 message(initial), message(initial), false, accepts(initial), accepts(initial));
      waitingFor, newReaderConfigApplied, status, completions := Done, false, Succeeded, 1;
      this.reader := reader;
    }

    // ------------------------------------------------------ client primitives

    method SetState(s: State)
      modifies this`state, this`appliedConfigSnapshot
      ensures ClientView() == WithState(old(ClientView()), s)
    {
      if s == Disconnected {
        appliedConfigSnapshot := None;
      } else if s == Inventorying {
        appliedConfigSnapshot := Some(config);
      }
      state := s;
    }

    method InstallRuntimeConfig(c: Config) returns (ok: bool)
      modifies this`config, this`desiredConfig, this`rospec, this`generatedConfigSnapshot
      ensures ClientView() == Installed(old(ClientView()), c) && ok == accepts(c)
    {
      config := c;
      desiredConfig := c;
      rospec := None;
      generatedConfigSnapshot := None;
      ok := accepts(c);
    }

    method SendRequest(p: Point)
      requires !p.Done?
      modifies this`state, this`appliedConfigSnapshot, this`lastMsgId, this`waitingFor
      ensures View() == Waiting(old(View()), Sent(old(ClientView()), p), p)
    {
      lastMsgId := NextId(lastMsgId);
      SetState(SentState(p));
      waitingFor := p;
    }

    method Succeed()
      modifies this`status, this`completions, this`waitingFor
      ensures View() == Ended(old(View()), old(ClientView()), Succeeded)
    {
      status := Succeeded;
      completions := completions + 1;
      waitingFor := Done;
    }

    method Fail()
      modifies this`status, this`completions, this`waitingFor
      ensures View() == Ended(old(View()), old(ClientView()), Failed)
    {
      status := Failed;
      completions := completions + 1;
      waitingFor := Done;
    }

    /** startInventory with force_regen_rospec. An inventory that is `already`
        running is left alone, and the completion is reported at once. */
    method StartInventory(p: Point) returns (already: bool)
      requires (p == AddNext && config == env.next) || (p == AddPrev && config == env.prev)
      requires Derived()
      modifies this`rospec, this`generatedConfigSnapshot, this`inventoryROSpecAdded, this`state,
               this`appliedConfigSnapshot, this`lastMsgId, this`waitingFor
      ensures already <==> old(state) == Inventorying
      ensures View() == if already then old(View())
                        else Waiting(old(View()), Started(env, old(ClientView()), p), p)
    {
      if state == Inventorying {
        return true;
      }
      RegenerateROSpec();
      SendRequest(p);
      already := false;
    }

    /** getROSpec with force_new, for an inventory that starts. */
    method RegenerateROSpec()
      modifies this`rospec, this`generatedConfigSnapshot, this`inventoryROSpecAdded
      ensures ClientView() ==
              old(ClientView()).(rospec := Some(generate(config)), generated := Some(config), added := false)
    {
      rospec := Some(generate(config));
      generatedConfigSnapshot := Some(config);
      inventoryROSpecAdded := false;
    }

    // ---------------------------------------------------- the undo callbacks

    method FinishRestore()
      requires Derived() && config == env.prev
      modifies this
      ensures env == old(env) && View() == Restart(env, old(View()), old(ClientView()))
    {
      if env.original == Inventorying {
        SetState(Connected);
        var _ := StartInventory(AddPrev);
      } else if env.original == Paused {
        SetState(Paused);
        Fail();
      } else {
        SetState(Connected);
        Fail();
      }
    }

    method CleanupReplacementROSpec()
      requires Derived() && config == env.prev
      modifies this
      ensures env == old(env)
      ensures View() == if old(inventoryROSpecAdded) && env.original == Inventorying
                        then Waiting(old(View()), Sent(WithState(old(ClientView()), Connected), DeleteReplacement),
                                     DeleteReplacement)
                        else Restart(env, old(View()), old(ClientView()))
    {
      if env.original != Inventorying || !inventoryROSpecAdded {
        FinishRestore();
        return;
      }
      SetState(Connected);
      SendRequest(DeleteReplacement);
    }

    method RestoreOld()
      requires Derived()
      modifies this
      ensures env == old(env) && View() == Undo(env, old(View()), old(ClientView()))
    {
      var ok := InstallRuntimeConfig(env.prev);
      if !ok {
        SetState(Disconnected);
        Fail();
        return;
      }
      if newReaderConfigApplied {
        SetState(Connected);
        suppressSetConfigPostActions := true;
        SendRequest(SetPrev);
      } else {
        CleanupReplacementROSpec();
      }
    }

    // ------------------------------------------------- the forward callbacks

    method FinishNewState()
      requires Derived() && config == env.next
      modifies this
      ensures env == old(env) && View() == Proceed(env, old(View()), old(ClientView()))
    {
      if env.original == Inventorying {
        SetState(Connected);
        var _ := StartInventory(AddNext);
      } else if env.original == Paused {
        SetState(Paused);
        Succeed();
      } else {
        SetState(Connected);
        Succeed();
      }
    }

    method AfterStopped(ok: bool)
      requires Derived()
      modifies this
      ensures env == old(env)
      ensures View() == if ok then Stopped(env, old(View()), old(ClientView()))
                        else Ended(old(View()), WithState(old(ClientView()), env.original), Failed)
    {
      if !ok {
        SetState(env.original);
        Fail();
        return;
      }
      ApplyNew();
    }

    /** The rest of after_stopped, once inventory has stopped. */
    method ApplyNew()
      requires Derived()
      modifies this
      ensures env == old(env) && View() == Stopped(env, old(View()), old(ClientView()))
    {
      SetState(Connected);
      var installed := InstallRuntimeConfig(env.next);
      if !installed {
        RestoreOld();
        return;
      }
      if env.write {
        suppressSetConfigPostActions := true;
        SendRequest(SetNext);
      } else {
        FinishNewState();
      }
    }

    // -------------------------------------------- what a completed request runs

    method StopAllROSpecsCallback(ok: bool)
      modifies this`inventoryROSpecAdded, this`rospec, this`generatedConfigSnapshot
      ensures ClientView() == old(ClientView()).(rospec := None, generated := None,
                                                 added := !ok && old(inventoryROSpecAdded))
    {
      if ok {
        inventoryROSpecAdded := false;
      }
      rospec := None;
      generatedConfigSnapshot := None;
    }

    /** The callbacks of the forward chain. */
    method RunForwardCallback(ok: bool)
      requires Derived() && IsForward(waitingFor)
      requires waitingFor == SetNext ==> config == env.next
      modifies this
      ensures env == old(env) && View() == Complete(env, old(View()), ok)
    {
      match waitingFor
      case StopAccess =>
        if ok { SendRequest(StopROSpec); } else { AfterStopped(false); }
      case StopROSpec =>
        StopAllROSpecsCallback(ok);
        AfterStopped(ok);
      case SetNext =>
        if ok {
          newReaderConfigApplied := true;
          FinishNewState();
        } else {
          RestoreOld();
        }
      case AddNext | EnableNext => NewInventoryAnswered(ok);
    }

    /** The callbacks of the inventory that starts anew. */
    method NewInventoryAnswered(ok: bool)
      requires Derived() && (waitingFor == AddNext || waitingFor == EnableNext)
      modifies this
      ensures env == old(env) && View() == Complete(env, old(View()), ok)
    {
      if !ok {
        RestoreOld();
      } else if waitingFor == AddNext {
        inventoryROSpecAdded := true;
        SendRequest(EnableNext);
      } else {
        SetState(Inventorying);
        Succeed();
      }
    }

    /** The callback of the SET_READER_CONFIG that restores. */
    method OldConfigAnswered(ok: bool)
      requires Derived() && waitingFor == SetPrev && config == env.prev
      modifies this
      ensures env == old(env) && View() == Complete(env, old(View()), ok)
    {
      if ok {
        CleanupReplacementROSpec();
      } else {
        SetState(Disconnected);
        Fail();
      }
    }

    /** The callback of the DELETE_ROSPEC that removes a replacement. */
    method CleanupAnswered(ok: bool)
      requires Derived() && waitingFor == DeleteReplacement && config == env.prev
      modifies this
      ensures env == old(env) && View() == Complete(env, old(View()), ok)
    {
      StopAllROSpecsCallback(ok);
      if ok {
        FinishRestore();
      } else {
        SetState(Disconnected);
        Fail();
      }
    }

    /** The callbacks of the inventory that restarts. */
    method OldInventoryAnswered(ok: bool)
      requires waitingFor == AddPrev || waitingFor == EnablePrev
      modifies this
      ensures env == old(env) && View() == Complete(env, old(View()), ok)
    {
      if waitingFor == AddPrev && ok {
        inventoryROSpecAdded := true;
        SendRequest(EnablePrev);
      } else {
        SetState(if waitingFor == EnablePrev && ok then Inventorying else Disconnected);
        Fail();
      }
    }

    /** The callbacks of the undo chain. */
    method RunUndoCallback(ok: bool)
      requires Derived() && IsUndo(waitingFor) && config == env.prev
      modifies this
      ensures env == old(env) && View() == Complete(env, old(View()), ok)
    {
      match waitingFor
      case SetPrev => OldConfigAnswered(ok);
      case DeleteReplacement => CleanupAnswered(ok);
      case AddPrev | EnablePrev => OldInventoryAnswered(ok);
    }

    /** The completion callback of the awaited request. */
    method RunCallback(ok: bool)
      requires Derived() && !waitingFor.Done?
      requires IsUndo(waitingFor) ==> config == env.prev
      requires waitingFor == SetNext ==> config == env.next
      modifies this
      ensures env == old(env) && View() == Complete(env, old(View()), ok)
    {
      if IsUndo(waitingFor) {
        RunUndoCallback(ok);
      } else {
        RunForwardCallback(ok);
      }
    }

    // ---------------------------------------------------------- entry points

    /** handleMessage in the states a transition passes through. `raised` is
        the ReaderConfigurationError that ends the session. */
    method HandleMessage(isSuccess: bool) returns (raised: bool)
      requires InFlight() && !waitingFor.Done?
      modifies this
      ensures env == old(env) && !raised
      ensures View() == Complete(env, old(View()).(client := if IsSet(old(waitingFor))
                          then AfterSetResponse(old(ClientView()), if isSuccess then Success else Failure)
                          else old(ClientView())), isSuccess)
    {
      raised := false;
      if state == SentSetConfig {
        var suppressPostActions := TakeSuppression(isSuccess);
        RunCallback(isSuccess);
        raised := !isSuccess && !suppressPostActions;
      } else if state == SentAddROSpec && !isSuccess {
        var failedRequestId := lastMsgId;
        RunCallback(false);
        raised := state == SentAddROSpec && lastMsgId == failedRequestId;
      } else {
        RunCallback(isSuccess);
      }
    }

    /** The suppression flag is read and cleared before the callback runs. */
    method TakeSuppression(isSuccess: bool) returns (suppressed: bool)
      modifies this`suppressSetConfigPostActions, this`state, this`appliedConfigSnapshot
      ensures suppressed == old(suppressSetConfigPostActions)
      ensures ClientView() == if suppressed
                              then AfterSetResponse(old(ClientView()), if isSuccess then Success else Failure)
                              else old(ClientView())
    {
      suppressed := suppressSetConfigPostActions;
      if suppressed {
        suppressSetConfigPostActions := false;
        if isSuccess {
          SetState(Connected);
        }
      }
    }

    method Deliver(o: Outcome) returns (raised: bool)
      requires InFlight() && !waitingFor.Done?
      modifies this
      ensures env == old(env) && !raised
      ensures View() == Step(env, old(View()), o)
    {
      reader := ReaderAfter(env, reader, waitingFor, o);
      raised := false;
      if o.Timeout? {
        RunCallback(false);
      } else {
        raised := HandleMessage(o.Success?);
      }
    }

    /** The awaited request is answered or times out. */
    method Respond(o: Outcome) returns (raised: bool)
      requires InFlight() && !waitingFor.Done?
      modifies this
      ensures env == old(env) && !raised
      ensures View() == Step(env, old(View()), o)
      ensures InFlight()
    {
      StepClientInv(env, View(), o);
      raised := Deliver(o);
    }

    /** The answers to a transition's requests, one after another. */
    method RespondAll(os: seq<Outcome>)
      requires InFlight()
      modifies this
      ensures env == old(env) && InFlight() && View() == Run(env, old(View()), os)
      decreases |os|
    {
      if waitingFor.Done? {
        EndedIsFinal(env, View(), os);
      } else if os != [] {
        var _ := Respond(os[0]);
        RespondAll(os[1..]);
      }
    }

    /** What the closures of a new transition capture. */
    method Capture(next: Config, write: bool)
      requires desiredConfig == config && CanApply(state)
      modifies this`env, this`newReaderConfigApplied, this`status, this`completions, this`waitingFor
      ensures env.prev == config && env.next == next && env.original == state && env.write == write
      ensures CanStart(env, ClientView()) && Derived()
      ensures View() == World(ClientView(), Done, false, Pending, 0, reader)
    {
      env := Env(config, next, state, generate(config), generate(next), message(config), message(next),
                 write, accepts(next), accepts(config));
      newReaderConfigApplied, status, completions, waitingFor := false, Pending, 0, Done;
    }

    /** The part of apply_config that starts a transition. */
    method BeginTransition(next: Config, write: bool)
      requires desiredConfig == config && CanApply(state)
      modifies this
      ensures env.prev == old(config) && env.next == next && env.original == old(state) && env.write == write
      ensures CanStart(env, old(ClientView())) && Derived()
      ensures View() == Begin(env, old(ClientView()), old(reader))
    {
      Capture(next, write);
      if env.original == Inventorying {
        SendRequest(StopAccess);
      } else if env.original == Paused {
        SendRequest(StopROSpec);
      } else {
        AfterStopped(true);
      }
    }

    /** The decisions apply_config takes before it changes anything. */
    method Classify(next: Config) returns (result: ApplyResult, noop: bool, write: bool)
      ensures result == Entry(validates(next), state, config, next)
      ensures noop <==> !Changed(config, next)
      ensures write <==> Requires(config, next, ReaderConfigChange)
    {
      var changes := BuildPlan(Snapshot(config), Snapshot(next));
      noop := changes == [];
      PlanIsEmpty(config, next, changes);
      write := HasAction(changes, ReaderConfigChange);
      PlanRequires(config, next, changes, ReaderConfigChange);
      if !validates(next) {
        return Rejected, noop, write;
      }
      if noop {
        return Completed, noop, write;
      }
      PlanRequires(config, next, changes, Reconnect);
      PlanIsClientOnly(config, next, changes);
      if HasAction(changes, Reconnect) && state != Disconnected {
        result := Rejected;
      } else if state == Disconnected || IsClientOnlyPlan(changes) {
        result := Completed;
      } else {
        result := if CanApply(state) then InTransition else Rejected;
      }
    }

    /** apply_config. Nothing changes when the call is rejected, a change that
        needs no reader traffic commits at once, and any other change begins a
        transition whose parameters are those of the two configurations. */
    method ApplyConfig(next: Config) returns (result: ApplyResult)
      requires desiredConfig == config && waitingFor.Done?
      modifies this
      ensures result == Entry(validates(next), old(state), old(config), next)
      ensures result == Rejected ==> View() == old(View())
      ensures result == Completed ==>
                View() == old(View()).(client := if Changed(old(config), next) then Committed(old(ClientView()), next)
                                                 else old(ClientView()))
      ensures result == InTransition ==>
                && env.prev == old(config) && env.next == next && env.original == old(state)
                && (env.write <==> Requires(old(config), next, ReaderConfigChange))
                && CanStart(env, old(ClientView()))
                && View() == Begin(env, old(ClientView()), old(reader))
                && InFlight()
    {
      var noop, write;
      result, noop, write := Classify(next);
      if result == Completed && !noop {
        config, desiredConfig := next, next;
        if state == Disconnected {
          rospec, generatedConfigSnapshot, appliedConfigSnapshot := None, None, None;
        }
      } else if result == InTransition {
        ghost var c, r := ClientView(), reader;
        BeginTransition(next, write);
        BeginClientInv(env, c, r);
      }
    }

    // ------------------------------------------------- a sequence of changes

    /** The client sends what the real generators make of a configuration. */
    ghost predicate IsReal(caps: Capabilities) {
      forall c :: generate(c) == GenerateROSpec(c, caps) && message(c) == SetMessage(c)
    }

    /** Between two calls of apply_config. */
    ghost predicate Idle(caps: Capabilities)
      reads this
    {
      waitingFor.Done? && desiredConfig == config && InStep(ClientView(), reader, caps)
    }

    /** A configuration change with its answers. */
    method ApplyAndAnswer(next: Config, os: seq<Outcome>, ghost caps: Capabilities) returns (result: ApplyResult)
      requires Idle(caps) && IsReal(caps) && Definite(os) && |os| >= 9
      modifies this
      ensures Idle(caps)
    {
      ghost var c, r, prev := ClientView(), reader, config;
      result := ApplyConfig(next);
      if result == InTransition {
        DerivedIsEnvFor(this, caps);
        TransitionKeepsStep(env, caps, c, r, os);
        TransactionOutcome(env, c, r, os);
        RespondAll(os);
      } else if result == Completed && state != Disconnected && config != prev {
        assert OnlyClientFields(prev, next);
        assert !Requires(prev, next, ROSpecChange) && !Requires(prev, next, ReaderConfigChange);
        CommitKeepsStep(prev, next, caps);
      }
    }

    /** Any sequence of configuration changes, each with definite answers: the
        client and its reader stay in step as long as they are connected. */
    method ApplyAll(changes: seq<(Config, seq<Outcome>)>, ghost caps: Capabilities)
      requires Idle(caps) && IsReal(caps)
      requires forall i | 0 <= i < |changes| :: Definite(changes[i].1) && |changes[i].1| >= 9
      modifies this
      ensures Idle(caps)
      decreases |changes|
    {
      if changes != [] {
        var _ := ApplyAndAnswer(changes[0].0, changes[0].1, caps);
        ApplyAll(changes[1..], caps);
      }
    }
  }

  /** The client after a commit that needs no reader traffic. Without a
      session nothing generated or applied is kept. */
  function Committed(c: Client, next: Config): Client {
    var d := c.(config := next, desired := next);
    if c.state == Disconnected then d.(rospec := None, generated := None, applied := None) else d
  }

  ghost predicate Changed(prev: Config, next: Config) {
    exists f :: Get(prev, f) != Get(next, f)
  }

  ghost predicate OnlyClientFields(prev: Config, next: Config) {
    forall a | a != ClientOnly :: !Requires(prev, next, a)
  }

  /** How apply_config answers, by the state and the fields that changed. */
  ghost function Entry(valid: bool, s: State, prev: Config, next: Config): ApplyResult {
    if !valid then Rejected
    else if !Changed(prev, next) || s == Disconnected then Completed
    else if Requires(prev, next, Reconnect) then Rejected
    else if OnlyClientFields(prev, next) then Completed
    else if CanApply(s) then InTransition
    else Rejected
  }

  ghost predicate SomeChanged(prev: Config, next: Config, a: Action) {
    exists f :: Policy(f) == a && Get(prev, f) != Get(next, f)
  }

  lemma RequiresIsChange(prev: Config, next: Config, a: Action)
    ensures Requires(prev, next, a) <==> SomeChanged(prev, next, a)
  {
  }

  /** How apply_config answers, by the fields that changed: a field that needs
      a reconnect is refused while connected, a field of the ROSpec or of the
      reader's settings begins a transition where one can begin and is refused
      elsewhere, and everything else completes at once. */
  lemma EntryByFields(valid: bool, s: State, prev: Config, next: Config)
    ensures var result := Entry(valid, s, prev, next);
            var live := SomeChanged(prev, next, ROSpecChange) || SomeChanged(prev, next, ReaderConfigChange);
            && (result == Rejected <==>
                || !valid
                || (s != Disconnected && (SomeChanged(prev, next, Reconnect) || (live && !CanApply(s)))))
            && (result == InTransition <==>
                valid && CanApply(s) && live && !SomeChanged(prev, next, Reconnect))
  {
    RequiresIsChange(prev, next, ROSpecChange);
    RequiresIsChange(prev, next, ReaderConfigChange);
    RequiresIsChange(prev, next, Reconnect);
    if Changed(prev, next) {
      var f :| Get(prev, f) != Get(next, f);
      assert SomeChanged(prev, next, Policy(f));
    }
    forall a | SomeChanged(prev, next, a)
      ensures Changed(prev, next)
    {
    }
    assert OnlyClientFields(prev, next) <==>
           !Requires(prev, next, ROSpecChange) && !Requires(prev, next, ReaderConfigChange)
           && !Requires(prev, next, Reconnect);
  }

  /** What the properties of a plan say about the two configurations. */
  lemma PlanIsEmpty(prev: Config, next: Config, changes: seq<Change>)
    requires IsPlan(Snapshot(prev), Snapshot(next), changes)
    ensures changes != [] <==> Changed(prev, next)
  {
    EmptyPlan(Snapshot(prev), Snapshot(next), changes);
    forall f
      ensures Lookup(Snapshot(prev), f) == Get(prev, f) && Lookup(Snapshot(next), f) == Get(next, f)
    {
      SnapshotReads(prev, f);
      SnapshotReads(next, f);
    }
  }

  lemma PlanIsClientOnly(prev: Config, next: Config, changes: seq<Change>)
    requires IsPlan(Snapshot(prev), Snapshot(next), changes) && changes != []
    ensures IsClientOnlyPlan(changes) <==> OnlyClientFields(prev, next)
  {
    forall a
      ensures HasAction(changes, a) <==> Requires(prev, next, a)
    {
      PlanRequires(prev, next, changes, a);
    }
    if !IsClientOnlyPlan(changes) {
      var i :| 0 <= i < |changes| && changes[i].action != ClientOnly;
      assert HasAction(changes, changes[i].action);
    }
  }

  /** A client whose generator and messages are the real ones derives the
      parameters that the agreement theorems ask for. */
  lemma DerivedIsEnvFor(client: LLRPClient, caps: Capabilities)
    requires client.Derived() && CanApply(client.env.original)
    requires client.env.write <==> Requires(client.env.prev, client.env.next, ReaderConfigChange)
    requires forall c :: client.generate(c) == GenerateROSpec(c, caps)
    requires forall c :: client.message(c) == SetMessage(c)
    ensures EnvFor(client.env, caps)
  {
  }
}
