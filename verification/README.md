# Verified model of the sllurp LLRP client

sllurp drives RFID readers over LLRP. This project models the parts of its
client that hold state across messages, and proves what they keep over every
run:

- **Live configuration** (`Plan.dfy`, `Transaction.dfy`, `Client.dfy`).
  `apply_config` stops inventory, writes the reader configuration, adds and
  enables a new ROSpec, and undoes whatever prefix of that was done when a
  request fails. `Transaction` is the transition table over the point at which
  the client waits; `ConfigClient.LLRPClient` is the client with its fields and
  callbacks, each method proved against the table.
- **Request/response correlation** (`Registry.dfy`, `Correlation.dfy`,
  `DeferredView.dfy`, `ExpiryWindow.dfy`, `CorrelationClient.dfy`). The
  pending-request registry with its bounded memory of retired keys, the
  dictionary of callback lists, the guards of `handleMessage`, the installed
  `processDeferreds` and the two steps of an expiry. `Correlation` is the
  machine on values; `RequestClient` implements it on the heap, where the list
  that `processDeferreds` holds may or may not still be the one in the
  dictionary. `DeferredView` says when the lists and the registry agree,
  `ExpiryWindow` what happens between the two steps of an expiry.
- **Both together** (`TransitionRequests.dfy`). A configuration transition whose
  requests go through correlation, so that its run over answers and timeouts is
  derived from the messages and expiries of a session.
- **Framing** (`Framing.dfy`, `Header.dfy`, `Bytes.dfy`). The incremental
  reassembly of messages against a parser that sees the whole stream.
- **Parameter codec** (`Codec.dfy`, `CodecRoundTrip.dfy`, `CodecLoops.dfy`).
  The registry-driven encoder and decoder of TLV, TV and custom parameters.
- **Deduplication** (`Dedup.dfy`). The cache of expiry times against "remember
  the last emission of each key".
- **Timed pause** (`Pause.dfy`). The timer that resumes an inventory, made
  harmless by a generation counter.

## Assumptions

- A positive response means the request took effect on the reader, a negative
  one that the reader changed nothing, and a timeout may mean either. The
  client-side results (`TransactionOutcome`, `DisconnectedExactlyOnFailedUndo`,
  `SuppressionFlag`) and, about the reader, `AgreementExactly` and
  `DuplicateExactly` hold for all three. `ReaderAgreement`, `NoDuplicateROSpec`
  and `RollbackExactness` are for definite responses; `AgreementExactly` says
  which timeouts matter.
- The transition table takes one answer or timeout after another.
  `TransitionRuns` derives them from the events of a session that is not reset and
  in which nobody else sends the transition's requests; whether a pending request
  is ever answered or times out is up to the events.
- A public call, a delivered message and a timer firing are one atomic step each.
  An expiry is two steps, with any other events between them; `CallbackIntegrity`
  and `DeferredViewEqualsRegistry` are about runs in which they follow one another.
- A completion callback acts on the correlation state by sending requests, any
  number of them and of any type. Each may fail, and the callback may catch the
  error and go on, or not.
- Times are integer ticks, and keys, callbacks and configuration values are
  detached values.

## What the code does not keep

These are properties one might expect that the code meets only under a
condition. Each is stated with the exact condition.

- A completed rollback restores the reader's settings exactly when the old
  message mentions everything that the new one does. Keepalive, GPI ports, extra
  events and the Impinj antenna event are sent only when configured, so turning
  one of them on and rolling back leaves it on (`RollbackExactnessOfConfigs`).
- `_suppress_set_config_post_actions` stays set after a transition exactly when
  a SET_READER_CONFIG timed out (`SuppressionFlag`).
- After a transition from INVENTORYING that did not disconnect, the reader holds
  exactly the ROSpec of the client's configuration if and only if no DELETE_ROSPEC
  of the stop and no new ADD_ROSPEC took effect unanswered, and its settings agree
  if and only if no new SET_READER_CONFIG that contradicts the old one did
  (`AgreementExactly`).
- The ADD_ROSPEC that restores the old inventory finds a ROSpec on the reader
  exactly when the new one took effect and was never answered
  (`DuplicateExactly`).
- A transition from PAUSED ends with the client having forgotten its ROSpec. A
  following resume duplicates what the reader holds exactly when it held
  something and the stop was refused (`ResumeAfterPausedTransition`).
- The callback lists and the registry agree after a response exactly unless its
  callback returns after a request of the completed name that failed and a later
  one that was written: the list that `processDeferreds` holds has then left the
  dictionary, and its final test drops the new one (`ViewsAfterResponse`,
  `RelistedIsDropped`). The request stays pending, and `CallbackIntegrity` holds
  all the same.
- The callback of an expired request runs exactly once, with failure, unless a
  response of its type with an ID that is not remembered as stale arrives
  between the two steps of the expiry; then it runs twice, first by the fallback
  and with that response's result (`ExpiredRequestRuns`,
  `ExactlyOnceWithoutIntruder`).
- An AISpec whose data holds fewer antennas than it declares is accepted with the
  declared count unchanged (`AntennaCountHonest`).
- A parameter round-trips exactly when every child in it is held as its name is
  decoded; one that is written as a single child and decoded as repeated comes
  back in a list (`ParamRoundTrip`, `MismatchFails`). An entry has no such field
  exactly when it declares no name both optional and repeated
  (`AutoFieldsMatch`); the one entry that does, UHFBandCapabilities, is only
  ever decoded.
- The deduplicator decides as the simple filter, on a run and on any report that
  may follow, exactly when at most `max_entries` keys are in their window after
  each call (`FaithfulExactlyWhenFits`); a key pushed out earlier is reported
  again (`EvictionReports`).

## Model

| member | source | states |
|---|---|---|
| Transaction.ReaderAgreement | sllurp/llrp.py:639-755 | On every run of positive and negative responses from INVENTORYING that ended elsewhere than in DISCONNECTED, the reader holds exactly one ROSpec, enabled and generated from the client's configuration, which is wholly the old or wholly the new one, and its settings agree with everything that configuration's SET_READER_CONFIG mentions |
| Transaction.ReaderIsSetUp | sllurp/llrp.py:1502-1548 | The same in terms of the configuration, from any state: the reader's events, keepalive, GPI ports and Impinj antenna event are as the client's configuration asks |
| Transaction.AgreementExactly | sllurp/llrp.py:639-755 | Over every run of responses and timeouts from INVENTORYING that ended elsewhere than in DISCONNECTED, the reader holds exactly the one enabled ROSpec of the client's configuration if and only if no DELETE_ROSPEC of the stop and no new ADD_ROSPEC took effect unanswered, and its settings agree with the configuration's message if and only if no new SET_READER_CONFIG that contradicts the old one took effect unanswered |
| Transaction.IdleReaderAgreement | sllurp/llrp.py:703-755 | The same from CONNECTED and PAUSED: the settings agree with the configuration, a failed transition left them untouched, and CONNECTED keeps the ROSpecs there were |
| Transaction.TransactionOutcome | sllurp/llrp.py:581-755 | For every sequence of responses and timeouts the transition has ended after nine of them and notified exactly once, in the original state or DISCONNECTED; success implies the original state; the configuration is the new one if and only if it succeeded, `desired_config` equals it, and the applied snapshot is that configuration while inventorying and dropped when disconnected |
| Transaction.SucceedsExactly | sllurp/llrp.py:639-755 | A transition that has ended has succeeded if and only if the new configuration was accepted and no request failed or timed out, from any of the three states |
| Transaction.GrantedTransition | sllurp/llrp.py:703-755 | A granted transition sends exactly its forward requests, in their order (stop, settings only if the plan asks for it, ROSpec only if inventorying), and then has succeeded in the original state with the new configuration and, if inventorying, the new ROSpec generated from it |
| Transaction.UndoneTransition | sllurp/llrp.py:648-701 | A transition from INVENTORYING that has to be undone sends exactly the undo requests that are needed, in their order, and if they are granted ends as failed with the old inventory running |
| Transaction.NineResponsesAreReached | sllurp/llrp.py:639-755 | The bound of nine is tight: after eight answers (five forward, three to undo) a transition can still be waiting for its last ENABLE_ROSPEC |
| Transaction.DisconnectedExactlyOnFailedUndo | sllurp/llrp.py:648-701 | At every reachable point an outcome leads to DISCONNECTED if and only if an undo request did not succeed, or undoing began and the old configuration was refused |
| Transaction.StateWhileWaiting | sllurp/llrp.py:1285-1440 | On every run the client's state says exactly which response it waits for |
| Transaction.RejectedAddIsRecovered | sllurp/llrp.py:1334-1355 | A rejected ADD_ROSPEC inside a transition never meets the test that turns it into a fatal error: the recovery changed the state or sent a new message ID |
| Transaction.NoDuplicateROSpec | sllurp/llrp.py:1753-1782 | On every run of definite responses `_inventory_rospec_added` says whether the reader holds a ROSpec; the reader holds none whenever ADD_ROSPEC is awaited and exactly the one just added whenever ENABLE_ROSPEC is |
| Transaction.DuplicateExactly | sllurp/llrp.py:648-701 | Over every run of responses and timeouts from INVENTORYING the new ADD_ROSPEC finds an empty reader, and the one that restores finds a ROSpec if and only if the new one took effect but was never answered |
| Transaction.TimeoutCanDuplicate | sllurp/llrp.py:1753-1782 | Witness for `DuplicateExactly`: after an ADD_ROSPEC that took effect but timed out, a second is sent while the reader holds the first |
| Transaction.RunReaderInv | sllurp/llrp.py:639-755 | Induction over runs: at every point the reader's settings and ROSpecs are those determined by the point and the initial reader, and the flag keeps following the reader |
| Transaction.RollbackExactness | sllurp/llrp.py:648-701 | All completed rollbacks of a transition restore the reader's earlier settings map if and only if every setting the new message mentions is mentioned by the old one |
| Transaction.RollbackExactnessOfConfigs | sllurp/llrp.py:648-701 | The same condition read off the two configurations: events, keepalive, GPI ports and Impinj antenna event that the new one sets are set by the old one too |
| Transaction.CoverageIsPerField | sllurp/llrp.py:1502-1548 | The old message covers the new one if and only if, setting by setting, whatever the new configuration mentions the old one mentions |
| Transaction.SuppressionFlag | sllurp/llrp.py:1285-1317 | After a transition the suppression flag is left set if and only if some SET_READER_CONFIG of the run timed out |
| Transaction.PausedTransition | sllurp/llrp.py:1859-1877 | From PAUSED the client ends without a ROSpec, while the reader holds none if the stop was granted and all it held if the stop was refused |
| Transaction.ResumeAfterPausedTransition | sllurp/llrp.py:2097-2107 | A resume after a transition from PAUSED sends ADD_ROSPEC, and the reader then holds more than one ROSpec if and only if it held some and the stop was refused |
| Transaction.TransitionKeepsStep | sllurp/llrp.py:581-755 | A whole transition with definite answers takes a client that is in step with its reader (settings, whether a ROSpec is held, the one enabled ROSpec while inventorying) to one that is, unless it ends in DISCONNECTED |
| Transaction.CommitKeepsStep | sllurp/llrp.py:624-628 | A change of fields outside the rospec and reader_config classes leaves the ROSpec and the message of the configuration as they were |
| Transaction.PlanIsSound | sllurp/llrp.py:742-746 | When the plan skips the SET_READER_CONFIG write, the old and the new message are the same |
| ConfigClient.LLRPClient.SetState | sllurp/llrp.py:767-790 | The applied-configuration snapshot is taken on entering INVENTORYING and dropped on DISCONNECTED; nothing else changes |
| ConfigClient.LLRPClient.InstallRuntimeConfig | sllurp/llrp.py:573-579 | Both configurations become the given one, the generated ROSpec is forgotten, and the result is whether the capabilities accept it |
| ConfigClient.LLRPClient.SendRequest | sllurp/llrp.py:2163-2200 | The client waits for exactly this response, under a new message ID and in the state that goes with the request |
| ConfigClient.LLRPClient.StartInventory | sllurp/llrp.py:1753-1782 | A running inventory is left alone and reported as such; otherwise the ROSpec is regenerated from the current configuration, the added flag cleared and ADD_ROSPEC awaited, as the table says |
| ConfigClient.LLRPClient.FinishRestore | sllurp/llrp.py:656-673 | Continues the undo as the table does: restart inventory with the old configuration, or end as failed in the original state |
| ConfigClient.LLRPClient.CleanupReplacementROSpec | sllurp/llrp.py:682-687 | A replacement ROSpec is deleted exactly when one was added to an inventorying reader; otherwise the undo goes on |
| ConfigClient.LLRPClient.RestoreOld | sllurp/llrp.py:648-701 | The client and the awaited point after the undo begins are those of the table |
| ConfigClient.LLRPClient.FinishNewState | sllurp/llrp.py:703-720 | Restarts inventory with the new configuration or ends as succeeded in the original state |
| ConfigClient.LLRPClient.AfterStopped | sllurp/llrp.py:730-746 | A refused stop ends in the original state; otherwise the new configuration is installed and SET_READER_CONFIG sent exactly when the plan asks for it |
| ConfigClient.LLRPClient.StopAllROSpecsCallback | sllurp/llrp.py:1859-1877 | The generated ROSpec is forgotten in any case, the added flag is cleared only by a positive answer |
| ConfigClient.LLRPClient.NewInventoryAnswered | sllurp/llrp.py:1764-1782 | The answer to the new ADD_ROSPEC or ENABLE_ROSPEC enables, succeeds or begins the undo |
| ConfigClient.LLRPClient.OldConfigAnswered | sllurp/llrp.py:689-701 | The restored settings are followed by the cleanup; a failure disconnects |
| ConfigClient.LLRPClient.CleanupAnswered | sllurp/llrp.py:675-687 | The deleted replacement is followed by the restart; a failure disconnects |
| ConfigClient.LLRPClient.OldInventoryAnswered | sllurp/llrp.py:656-673 | The old inventory runs again, and the transition has failed; or the client disconnects |
| ConfigClient.LLRPClient.TakeSuppression | sllurp/llrp.py:1285-1300 | The suppression flag is read once and cleared before the callback runs |
| ConfigClient.LLRPClient.RunForwardCallback | sllurp/llrp.py:703-746 | The callback of each forward request leads to the table's next world, for either answer |
| ConfigClient.LLRPClient.RunUndoCallback | sllurp/llrp.py:648-701 | The callback of each undo request leads to the table's next world, for either answer |
| ConfigClient.LLRPClient.HandleMessage | sllurp/llrp.py:1285-1372 | In the states of a transition a response leads to the table's next world, and the fatal configuration error is never raised |
| ConfigClient.LLRPClient.Respond | sllurp/llrp.py:1076-1106 | A response or timeout performs exactly one step of the table and keeps the client invariant |
| ConfigClient.LLRPClient.RespondAll | sllurp/llrp.py:1076-1106 | The client's callbacks perform exactly the table's run, so every theorem about runs is about the client |
| ConfigClient.LLRPClient.Classify | sllurp/llrp.py:589-637 | Whether the call is rejected, completes at once or begins a transition, from the validity of the configuration, the state and the classes of the changed fields alone |
| ConfigClient.EntryByFields | sllurp/llrp.py:589-637 | By the fields that changed: a change that needs a reconnect is refused while connected, one of the ROSpec or the settings begins a transition where that is possible and is refused elsewhere, everything else completes at once |
| ConfigClient.LLRPClient.BeginTransition | sllurp/llrp.py:639-755 | The captured configurations, state and plan are those of the call, and the first request is the one the original state needs |
| ConfigClient.LLRPClient.ApplyConfig | sllurp/llrp.py:544-755 | A call that is rejected, also for an invalid configuration, changes nothing; a change that needs no reader traffic commits at once, touches neither state nor reader, and without a session forgets what was generated and applied; any other begins the table's transition between the two configurations |
| ConfigClient.LLRPClient.ApplyAndAnswer | sllurp/llrp.py:581-755 | One call with its answers keeps the client and its reader in step, whether it is rejected, commits at once or runs a transition |
| ConfigClient.LLRPClient.ApplyAll | sllurp/llrp.py:581-755 | Over any sequence of configuration changes with definite answers the client's configuration, its added flag and the reader agree as long as they are connected |
| ConfigClient.DerivedIsEnvFor | sllurp/llrp.py:639-647 | A client that generates the real ROSpecs and messages meets the premises of the agreement theorems |
| ConfigClient.PlanIsClientOnly | sllurp/llrp_runtime.py:139-142 | A non-empty plan is client-only if and only if no field of another class changed |
| ConfigPlan.BuildPlan | sllurp/llrp_runtime.py:145-164 | The plan names every field whose value differs between the snapshots, each once, with both values and its class, and no other |
| ConfigPlan.EmptyPlan | sllurp/llrp_runtime.py:114-117 | A plan is empty if and only if the two snapshots read the same for every field |
| ConfigPlan.PlanActions | sllurp/llrp_runtime.py:114-142 | A plan has an action if and only if some field of that class changed |
| ConfigPlan.PlanRequires | sllurp/llrp_runtime.py:72-164 | The same for the snapshots of two configurations |
| ConfigPlan.SetMessageKeys | sllurp/llrp.py:1502-1548 | SET_READER_CONFIG mentions the default events always, and other events, keepalive, GPI ports and the Impinj antenna event exactly when configured |
| ConfigPlan.AgreesIsSetUp | sllurp/llrp.py:1502-1548 | The values of SET_READER_CONFIG: a reader agrees with the message of a configuration if and only if it is set up as the configuration asks, with the events of the selector as it says and other default events off, the keepalive interval, each GPI port and the Impinj antenna event as configured |
| ConfigPlan.ROSpecMode | sllurp/llrp.py:1784-1836 | The ROSpec has ROSpecID 1 and the mode of the configured identifier exactly when the reader offers it |
| ConfigPlan.ROSpecArguments | sllurp/llrp.py:1794-1822 | Exactly the listed arguments are passed, with the configuration's values, and the three optional ones only when set |
| ConfigPlan.ROSpecDedup | sllurp/llrp.py:985-1025 | The reader deduplicates, with the configured interval, exactly when it can, the interval is at most 600 seconds, no telemetry is on, memory is not asked for and no report trigger is set |
| ConfigPlan.PolicyClasses | sllurp/llrp_runtime.py:21-69 | Which fields concern the client alone, which the reader's settings, and which, with every unknown one, need a reconnect |
| ConfigPlan.SetMessageDependsOnReaderFields | sllurp/llrp.py:1502-1548 | Configurations that agree on reader_config-class fields send the same SET_READER_CONFIG |
| ConfigPlan.ROSpecDependsOnROSpecFields | sllurp/llrp.py:1784-1836 | Configurations that agree on rospec-class fields generate the same ROSpec |
| ConfigPlan.PlanSoundness | sllurp/llrp_runtime.py:21-69 | What a plan leaves out may be left out: no rospec action means the same ROSpec, no reader_config action the same message, and a client-only plan both |
| Registry.RegistryInvariant | sllurp/llrp_runtime.py:254-382 | After any operations on a new registry the stale list is duplicate-free, bounded and in retirement order, no pending key is stale, and registered = matched + expired + cancelled + pending |
| Registry.CountsExactly | sllurp/llrp_runtime.py:306-328 | Over any operations the matched requests are those that were popped and the expired ones those whose expiry found them pending |
| Registry.RegisterFinds | sllurp/llrp_runtime.py:290-304 | A registered request is found as it was registered, and every other pending request is left alone |
| Registry.ApplyInv | sllurp/llrp_runtime.py:270-382 | Every operation keeps the registry invariant |
| Registry.RetireAppends | sllurp/llrp_runtime.py:261-268 | The early return for a key that is stale already is never taken: a retired pending key is always appended and remembered |
| Registry.RetiredKeyIsRemembered | sllurp/llrp_runtime.py:261-315 | An expired key is recognised as stale through any operations that do not reuse it or reset the memory, as long as fewer than `stale_limit` other keys are retired |
| Registry.PendingRequestRegistry.constructor | sllurp/llrp_runtime.py:254-259 | A new registry is empty, and its limit is at least one |
| Registry.PendingRequestRegistry.RememberStale | sllurp/llrp_runtime.py:261-268 | The oldest keys are dropped beyond the limit, and list and set keep the same elements |
| Registry.PendingRequestRegistry.RegisterRequest | sllurp/llrp_runtime.py:270-304 | A key is refused if and only if it is pending, and then nothing changes; otherwise it is pending and no longer stale |
| Registry.PendingRequestRegistry.PopRequest | sllurp/llrp_runtime.py:317-328 | Exactly the matching request is returned, its timer cancelled, its key remembered; otherwise nothing changes |
| Registry.PendingRequestRegistry.ExpireRequest | sllurp/llrp_runtime.py:306-315 | The request leaves the registry and its key is remembered before the callback runs; a key that is gone already has no effect |
| Registry.PendingRequestRegistry.CancelRequest | sllurp/llrp_runtime.py:348-360 | The request is taken out, and its key remembered only if asked |
| Registry.PendingRequestRegistry.PopResponseType | sllurp/llrp_runtime.py:330-346 | A request is popped if and only if it is the only one expecting the type; with none or several nothing changes |
| Registry.PendingRequestRegistry.CancelAllRequests | sllurp/llrp_runtime.py:362-382 | Every pending request is returned once, with its timer cancelled, and none stays pending; the stale memory is emptied unless the keys are to be remembered |
| Registry.PendingRequestRegistry.IsStale | sllurp/llrp_runtime.py:394-397 | The set answers as the list would |
| Correlation.CallbackIntegrity | sllurp/llrp.py:1076-1106 | Over every run of sends, responses, timeouts and resets, whatever the callbacks send or catch, each request completes at most once, by its timeout with failure or by a response whose name and ID are both its own; the fallback never runs a callback; every request sent is pending, completed or dropped |
| Correlation.FreshIds | sllurp/llrp.py:2135-2140 | Over every run the IDs of requests run from 1 to 2^32 - 1 and start again, so two requests have the same ID only if a whole cycle was sent between them |
| Correlation.AnswersReachTheirOwn | sllurp/llrp.py:1090-1106 | Over every run a response bearing the key of a request completes no other request sent less than a cycle of IDs before or after it, neither with success nor with failure |
| Correlation.ResponseCompletes | sllurp/_runtime_fixes.py:33-58 | A dispatched response to the awaited request completes it, and it alone, with the result that the response has |
| Correlation.TimeoutCompletes | sllurp/llrp.py:1076-1088 | A timeout of the awaited request completes it, and it alone, with failure |
| Correlation.ResetForgets | sllurp/llrp.py:2919-2933 | After a session reset nothing is pending, listed or stale, and no response completes anything |
| Correlation.WindowedIntegrity | sllurp/_runtime_fixes.py:17-59 | The same with expiries that other events interrupt: a request completes twice only when its timeout follows a fallback, and success is justified by its own key unless it came from a fallback |
| Correlation.StepInv | sllurp/llrp.py:1090-1106 | Every event keeps: slots and open expiries are the requests they name, what is listed belongs to one of them, completed and dropped requests are over, every request is accounted for, no awaited key is stale |
| Correlation.AtomicRun | sllurp/_runtime_fixes.py:33-46 | Without interrupted expiries nothing is listed that is not pending, so the fallback has nothing to run |
| DeferredView.DeferredViewEqualsRegistry | sllurp/_runtime_fixes.py:17-59 | All along a run `_deferreds` holds exactly the callbacks of the pending requests if and only if no response of the run has a callback that returns after a failed and then a written request of the completed name |
| DeferredView.ViewsAfterResponse | sllurp/_runtime_fixes.py:33-58 | The same condition for one response, read off the requests its callback sends |
| DeferredView.RelistedIsDropped | sllurp/_runtime_fixes.py:57-58 | Witness: a callback that catches a failed request of its own type and sends again leaves a pending request with nothing listed |
| DeferredView.RelistsExactly | sllurp/llrp.py:2188-2196 | A list leaves the dictionary and its name is listed again exactly when the first written request of the name comes after a failed one and has a callback |
| DeferredView.BusyStays | sllurp/llrp.py:2166-2169 | Once a request of a name is out, nothing that a callback sends changes what is listed under it |
| ExpiryWindow.ExpiredRequestRuns | sllurp/llrp_runtime.py:306-315 | Over a whole run, with anything between the two steps of an expiry and anything after them, the completions of the expired request are one with failure by its timeout, preceded by one by the fallback if and only if it was listed and a response intruded before it was withdrawn |
| ExpiryWindow.ExactlyOnceWithoutIntruder | sllurp/llrp.py:1076-1106 | In a window in which no reset and no end of another expiry with the same name and callback withdraws it, the callback runs exactly once, with failure, if and only if no dispatched response of its name with an ID that is not stale arrives in the window |
| ExpiryWindow.LateResponse | sllurp/llrp_runtime.py:261-315 | If the responses of its type in the window bear the expired request's own ID and fewer than `stale_limit` keys are retired in it, the callback runs exactly once in the whole run, with failure |
| ExpiryWindow.WindowStep | sllurp/_runtime_fixes.py:22-46 | What one event does to an open window: the callback stays listed unless a response intrudes or it is withdrawn, and only an intruding response runs it |
| ExpiryWindow.RemembersStep | sllurp/llrp_runtime.py:261-304 | While its callback is listed, the key of an expired request stays remembered until `stale_limit` others are retired: no request of its name can be sent that would make it forgotten |
| ExpiryWindow.SettledRun | sllurp/_runtime_fixes.py:17-59 | A request that is neither pending nor about to be told of its expiry never completes again |
| CorrelationClient.RequestClient.IsBusy | sllurp/llrp.py:2163-2169 | The single-outstanding test, by the registry and by the lists |
| CorrelationClient.Deferreds.Append | sllurp/llrp.py:2172-2173 | The callback goes into its name's list, which stays the same object; no two names share a list |
| CorrelationClient.Deferreds.Discard | sllurp/llrp.py:2190-2193 | The callback leaves its list and the emptied list leaves the dictionary; a list that is held meanwhile is detached exactly when it was this one, and is then empty |
| CorrelationClient.Deferreds.DropIfEmpty | sllurp/_runtime_fixes.py:57-58 | The test is made on the list that is held and acts on the name: a detached list always drops whatever the name has now |
| CorrelationClient.RequestClient.RegisterAndWrite | sllurp/llrp.py:2175-2196 | The registry never refuses the key of a request that passed the test as a duplicate, and a failed write leaves no trace in it |
| CorrelationClient.RequestClient.ListAndWrite | sllurp/llrp.py:2172-2193 | The lists' part of a request, and whether a held list stays in the dictionary |
| CorrelationClient.RequestClient.SendRequest | sllurp/llrp.py:2163-2200 | A request has the machine's effect on registry, lists and message ID; a name in use raises and changes nothing; a held list is detached exactly by a failed write of its name |
| CorrelationClient.RequestClient.RunCallback | sllurp/_runtime_fixes.py:55-56 | A callback that sends, fails, catches or raises has the machine's effect, and the held list is still in the dictionary exactly when no request of its name failed to be written |
| CorrelationClient.RequestClient.RunHeld | sllurp/_runtime_fixes.py:55-58 | The callback and the final test on the list that is held have the machine's effect |
| CorrelationClient.RequestClient.RunMatched | sllurp/_runtime_fixes.py:33-58 | A matching request leaves registry and list before its callback runs |
| CorrelationClient.RequestClient.RunUnmatched | sllurp/_runtime_fixes.py:22-46 | Without a matching request a stale key runs nothing and any other key runs what is listed |
| CorrelationClient.RequestClient.ProcessDeferreds | sllurp/_runtime_fixes.py:17-59 | The installed version has the machine's effect in every state, also without the guards and between the two steps of an expiry |
| CorrelationClient.RequestClient.IsGuarded | sllurp/llrp.py:1097-1106 | The guards see exactly whether the key is stale or differs from the pending one |
| CorrelationClient.RequestClient.HandleMessage | sllurp/llrp.py:1090-1106 | A response has exactly the machine's effect, whether matched, unmatched, stale or not dispatched by the client's state |
| CorrelationClient.RequestClient.LookAt | sllurp/llrp.py:1445-1448 | The looks of `handleMessage` at a list of the defaultdict leave an empty list behind and change nothing else |
| CorrelationClient.RequestClient.BeginExpiry | sllurp/llrp_runtime.py:306-313 | The registry lets go of an awaited request, which the timer thread keeps, and of nothing else |
| CorrelationClient.RequestClient.EndExpiry | sllurp/llrp.py:1076-1088 | The callback is taken off its list, by equality, and told of the failure |
| CorrelationClient.RequestClient.OnRequestTimeout | sllurp/llrp_runtime.py:306-315 | An expiry that nothing interrupts is its two steps, and nothing when the request is gone |
| CorrelationClient.RequestClient.ResetSession | sllurp/llrp.py:2919-2933 | Registry and lists are emptied together and the pending requests are dropped; expiries that have begun go on |
| CorrelationClient.RequestClient.Drive | sllurp/llrp.py:1076-1106 | Over any sequence of events, interrupted expiries included, the heap follows the machine, so the theorems about runs are about the client |
| CorrelationClient.RegisterAgrees | sllurp/llrp_runtime.py:290-304 | A free name's next key is never pending, and registering it keeps registry and slots in agreement |
| TransitionRequests.TransitionRuns | sllurp/llrp.py:581-755 | Over any events of a session that is not reset and in which nobody else sends its requests, a transition is the table's run over the answers and timeouts of its own requests, at most nine; until it has ended exactly one request of its names is pending, the awaited one with its callback, and then none; each request it sent but the pending one has brought exactly one outcome |
| TransitionRequests.JoinedStep | sllurp/_runtime_fixes.py:17-59 | One event moves the transition exactly when it completes the awaited request, and its callback then sends exactly the request that the table waits for next |
| TransitionRequests.CompletionSends | sllurp/llrp.py:648-746 | What the callback of a request sends, after success and after failure, is the request of the table's next point, whether the failure was an answer or a timeout |
| TransitionRequests.OwnAnswer | sllurp/_runtime_fixes.py:33-58 | A request of the same type, sent from its own completion callback, is pending afterwards, and no other request of the transition is |
| TransitionRequests.OtherAnswer | sllurp/_runtime_fixes.py:33-58 | The completion of somebody else's request leaves the awaited request of a transition as it was |
| Framing.ChunkingInvariance | sllurp/llrp.py:3243-3316 | Every cut of every stream gives the frames, tail, expected size or error that the whole stream gives |
| Framing.CutsAgree | sllurp/llrp.py:3243-3316 | Two cuts of the same stream cannot be told apart |
| Framing.ParseAppend | sllurp/llrp.py:3257-3316 | More bytes continue where parsing stopped, and change nothing after an error |
| Framing.FrameBuffer | sllurp/llrp.py:3257-3316 | Delivered frames followed by the retained bytes are exactly the bytes received; each frame has its declared, accepted size; `expected_bytes` is 0 if and only if nothing is retained, and otherwise a header or the declared size, more than is retained and within `max_message_size` |
| Framing.ErrorIsDue | sllurp/llrp.py:3266-3314 | A session breaks only on the first message that is not delivered, with the reason: its header declares less than a header or more than `max_message_size`, or it cannot be decoded |
| Framing.BadMessageBreaks | sllurp/llrp.py:3266-3314 | A message that is bad for such a reason breaks the session with that reason, after everything before it was delivered |
| Framing.DeclaredBytes | sllurp/llrp.py:3266-3271 | The size of a message is its third to sixth byte, the most significant first |
| Framing.StreamDelivery | sllurp/llrp.py:3243-3316 | A stream of acceptable messages is delivered as exactly those messages, however it is cut, with nothing left over |
| Framing.EncodedMessageIsFrame | sllurp/llrp_decoder.py:102-135 | What the client's own header encoder frames is one frame for the reassembler |
| Framing.FrameReader.RawDataReceived | sllurp/llrp.py:3243-3316 | One chunk, with the early return while the message is incomplete, has the effect of parsing everything retained and received |
| Framing.FrameReader.DispatchFrames | sllurp/llrp.py:3257-3316 | The loop over the buffer delivers, retains and fails as the recursive parser does |
| Framing.FrameReader.DispatchOne | sllurp/llrp.py:3266-3305 | One round of the loop delivers the message at the front, keeps what is there for later, or fails, as the parser does with the front of the stream |
| Framing.FrameReader.ReceiveAll | sllurp/llrp.py:3190-3193 | The receive loop over any chunks equals one parse of their concatenation, up to the first error |
| Header.MsgHeaderRoundTrip | sllurp/llrp_decoder.py:102-186 | An encoded header before its body decodes to the type, version, vendor, subtype and ID it was made from, with the header's and the message's length |
| Header.MsgHeaderBytes | sllurp/llrp_decoder.py:102-135 | Which bytes a header has: version and type share the first two, then the total length and the ID, and vendor and subtype for a custom message |
| Header.ParamHeaderBounds | sllurp/llrp_decoder.py:189-299 | A recognised parameter header is complete, not empty, and no longer than the parameter it declares |
| Header.ParamHeaderStable | sllurp/llrp_decoder.py:272-299 | Bytes after a recognised header do not change it |
| Header.ParamHeaderPrefix | sllurp/llrp_decoder.py:272-299 | A parameter header is recognised from its own bytes alone |
| CodecRoundTrip.ParamRoundTrip | sllurp/_protocol_fixes.py:25-65 | A tree that conforms to well-formed entries and can be encoded decodes to itself with empty lists made absent, from exactly the bytes of its encoding, if and only if every child in it is held as its name is decoded |
| CodecRoundTrip.ParamReads | sllurp/llrp_proto.py:472-575 | What any conforming tree decodes to: children in a list exactly when their name is decoded as repeated, and the last one of several otherwise |
| CodecRoundTrip.RegistryRoundTrip | sllurp/llrp_proto.py:409-469 | In a registry whose entries decode every field as they encode it, all conforming trees that can be encoded round-trip |
| CodecRoundTrip.MismatchFails | sllurp/llrp_proto.py:540-575 | An entry with a field that is encoded and decoded differently fails to round-trip on every tree that holds something in it |
| CodecRoundTrip.ReadIsNormal | sllurp/llrp_proto.py:540-575 | What is read back is the normal form if and only if the kinds agree at every level of the tree |
| CodecRoundTrip.ExactRoundTrip | sllurp/llrp_proto.py:472-537 | Without empty lists and with children held as they are decoded the round trip is exact, whatever bytes follow |
| CodecRoundTrip.TruncatedIsRefused | sllurp/llrp_proto.py:472-537 | No proper prefix of an encoding decodes to a parameter |
| CodecRoundTrip.TruncatedIsNoticed | sllurp/llrp_proto.py:472-537 | A prefix of an encoding that has the whole header is refused as truncated |
| CodecRoundTrip.EncodeFieldsAppend | sllurp/llrp_proto.py:634-659 | Fields are written one after another: what is first in the wire order is first on the wire, also when it is what fails |
| CodecRoundTrip.EncodeFieldsOne | sllurp/llrp_proto.py:640-658 | A single field is written as its children alone |
| CodecRoundTrip.EncodeManyAppend | sllurp/llrp_proto.py:650-658 | The children of a repeated field are written in the order of their list |
| CodecRoundTrip.ChildrenInOrder | sllurp/llrp_proto.py:634-659 | After its fixed part an encoded parameter holds its children in the order of the registry's fields |
| CodecRoundTrip.PackAllAppend | sllurp/llrp_proto.py:409-440 | Fixed fields are written in the order of their declaration |
| CodecRoundTrip.PackAllOne | sllurp/llrp_proto.py:409-440 | A single fixed field is written as its value alone |
| CodecRoundTrip.ParamHeaderBytes | sllurp/_protocol_fixes.py:25-65 | Which bytes a TV, TLV or custom header has |
| CodecRoundTrip.UnknownIsKept | sllurp/llrp_proto.py:472-575 | A parameter that the registry does not know or cannot decode is kept among the errors, in its place, with its identity and bytes, and disturbs nothing else |
| CodecRoundTrip.TvSizes | sllurp/llrp_decoder.py:77-99 | The size of each TV parameter is that of its fields |
| CodecRoundTrip.NormalIsIdentity | sllurp/llrp_proto.py:540-575 | Normalisation changes only trees with empty lists |
| CodecRoundTrip.HeaderRoundTrip | sllurp/llrp_decoder.py:189-299 | TV, TLV and custom headers written by the encoder are recognised with their identity and total length |
| CodecRoundTrip.PrefixRoundTrip | sllurp/llrp_proto.py:409-469 | The fixed part of a body decodes to the values it was packed from, whatever follows |
| CodecRoundTrip.AntennasRoundTrip | sllurp/llrp_proto.py:1965-1994 | A counted antenna list is read back with its count, whatever follows |
| CodecRoundTrip.AntennaCountHonest | sllurp/llrp_proto.py:1975-1994 | The decoded antenna count is the length of the decoded list if and only if the data holds as many antennas as it declares |
| CodecRoundTrip.FlagsRoundTrip | sllurp/llrp_proto.py:2553-2580 | The flag word decodes to the flags it was packed from, in order |
| CodecRoundTrip.FlagAt | sllurp/llrp_proto.py:2553-2563 | Flag i of a selector is bit 15 - i of the word |
| Codec.DecodingTiles | sllurp/llrp_proto.py:540-575 | On success the consumed lengths are all positive and add up to the input, so the zero-length break is unreachable |
| Codec.DecodeParamStable | sllurp/llrp_proto.py:472-537 | A decoded parameter does not depend on the bytes after it |
| Codec.DecodeItemsAppend | sllurp/llrp_proto.py:540-575 | Two decodable runs of parameters, one after the other, decode to the first's items and then the second's |
| CodecLoops.DecodeAllParameters | sllurp/llrp_proto.py:540-575 | The loop collects exactly the parameters that tile the input, in order, or stops with the first error |
| CodecLoops.EncodeAllParameters | sllurp/llrp_proto.py:634-659 | The loop appends exactly the encodings of the fields in wire order, or stops with the first error |
| CodecLoops.EncodeFlagWord | sllurp/llrp_proto.py:2553-2563 | The loop from bit 15 downwards builds the 16-bit flag word of the specification |
| CodecLoops.ExtendFields | sllurp/llrp_proto.py:5117-5120 | The declared order comes first, then the missing names in their order |
| CodecLoops.BuildAutoFields | sllurp/llrp_proto.py:5105-5130 | The loops compute the specified wire order, for any declaration |
| CodecLoops.AutoFieldsPlace | sllurp/llrp_proto.py:5105-5130 | Exactly the optional and the repeated names have a place in the wire order, as a list if and only if not optional |
| CodecLoops.AutoFieldsOrder | sllurp/llrp_proto.py:5117-5130 | The wire order keeps the declared order, and what is not declared comes after it, the optional names before the repeated ones |
| CodecLoops.EarlierIsFirst | sllurp/llrp_proto.py:5122-5130 | Of two names of an entry the earlier one has the earlier place |
| CodecLoops.NotInAppend | sllurp/llrp_proto.py:5119-5120 | The missing names are added in their own order |
| CodecLoops.AutoFieldsMatch | sllurp/llrp_proto.py:5115-5130 | Every field of an entry is encoded as it is decoded if and only if no name is declared both optional and repeated |
| CodecLoops.AutoFieldsDistinct | sllurp/llrp_proto.py:5117-5130 | Without repetitions in the declaration each name has one place |
| Dedup.DedupRefinement | sllurp/dedup.py:121-170 | For every run with a non-decreasing clock: without evictions the output is that of the filter that remembers each key's last emission; with them, whatever is dropped has an emission less than a window old; emitted = live + expired + evicted, and the live are at most `max_entries` |
| Dedup.FaithfulExactlyWhenFits | sllurp/dedup.py:139-170 | From an empty cache and with a non-decreasing clock, the cache decides as the simple filter on a run and on any report that may follow any of its calls, if and only if at most `max_entries` keys are in their window after each call |
| Dedup.EvictsExactlyWhenFull | sllurp/dedup.py:139-144 | A run evicts nothing if and only if, by the simple filter alone, at most `max_entries` keys are in their window after each call |
| Dedup.FilterRefines | sllurp/dedup.py:146-170 | One call: invariant kept, dropped reports recent, and the simple filter's decisions when nothing was evicted before it |
| Dedup.EvictionReports | sllurp/dedup.py:139-144 | Whatever key was pushed out before its expiry and is seen again before it is passed on, although the simple filter drops it |
| Dedup.FilterBound | sllurp/dedup.py:133-170 | Whatever the clock does, every live key keeps its queue entry and at most `max_entries` are live after a call |
| Dedup.TrimReachesGoal | sllurp/dedup.py:139-144 | The queue cannot run out while too many keys are live |
| Dedup.TrimEvictsEarliest | sllurp/dedup.py:139-144 | No surviving entry expires before an evicted one |
| Dedup.PurgeExact | sllurp/dedup.py:133-137 | Purging removes exactly the keys that have expired |
| Dedup.TagReportDeduplicator.constructor | sllurp/dedup.py:76-107 | A new cache is empty |
| Dedup.TagReportDeduplicator.Reset | sllurp/dedup.py:121-126 | Entries, queue and eviction count are those of a new cache |
| Dedup.TagReportDeduplicator.PurgeExpired | sllurp/dedup.py:133-137 | The loop has the effect of the specified purge, skipping entries that are not live |
| Dedup.TagReportDeduplicator.TrimEntries | sllurp/dedup.py:139-144 | The loop has the effect of the specified eviction |
| Dedup.TagReportDeduplicator.ScanReport | sllurp/dedup.py:160-167 | A report is passed on unless its key is still in its window, and only then recorded |
| Dedup.TagReportDeduplicator.ScanReports | sllurp/dedup.py:155-168 | The reports passed on are those the specification keeps, in order, and the cache is the specified one |
| Dedup.ReportsPassed | sllurp/dedup.py:146-170 | From any tidy cache, so also from a new one, a call passes on exactly the reports whose own key is not in its window and is not that of an earlier report of the call |
| Dedup.FilterExactly | sllurp/dedup.py:155-167 | The same condition for each report of a call |
| Dedup.PassedInOrder | sllurp/dedup.py:157-170 | The reports that are passed on keep their order, and each is the first of its key |
| Dedup.PassedExactly | sllurp/dedup.py:157-170 | No two reports that are passed on share a key, none has a key in its window, and a report is left out only for such a key or for a report with its own key that is passed on |
| Dedup.TagReportDeduplicator.FilterReports | sllurp/dedup.py:146-170 | A zero window passes everything on; otherwise what is passed on and the new cache are the specified ones, the bound holds, and from a tidy cache the reports passed on are, in order, those whose own key is not in its window and was not reported earlier in the call |
| Pause.TimedPauseSafety | sllurp/llrp.py:2016-2133 | Over every interleaving at most one started timer is not revoked; a firing timer resumes if and only if nothing cancelled it since it was armed and the state is PAUSED, and otherwise changes no state; a timer resumes at most once |
| Pause.TimerResumesExactlyUncancelled | sllurp/llrp.py:2024-2034 | Through any events since it was armed, a timer that fires resumes the inventory if and only if the client is paused and no pause, resume, live configuration change, disconnect, hard disconnect, session reset or later timed pause came in between |
| Pause.StateFollows | sllurp/llrp.py:2041-2133 | The state that every event leaves, by what has been cancelled and not by the counter |
| Pause.TimedPauseCycle | sllurp/llrp.py:2024-2084 | A timed pause that is granted leaves the client paused with one timer more, which resumes it when it fires |
| Pause.PlainPauseCycle | sllurp/llrp.py:2063-2076 | A pause without a duration arms nothing and lasts until a resume |
| Pause.RefusedPause | sllurp/llrp.py:2075-2076 | A pause that the reader refuses leaves the client in PAUSING, with nothing armed |
| Pause.StepInv | sllurp/llrp.py:2016-2133 | Every event keeps: a timer carries the current generation exactly when it is not revoked, and is then the current timer |
| Pause.PauseControl.CancelPauseResumeTimer | sllurp/llrp.py:2016-2022 | Every timer started so far is revoked |
| Pause.PauseControl.SchedulePauseResume | sllurp/llrp.py:2024-2039 | Earlier timers are revoked and the new one captures the current generation |
| Pause.PauseControl.SetState | sllurp/llrp.py:767-790 | DISCONNECTED revokes the timers, other states do not |
| Pause.PauseControl.PauseInventory | sllurp/llrp.py:2041-2084 | A pause is requested only from INVENTORYING or by force, not while another is unanswered, and not when it cannot be written, which restores the state; earlier timers are revoked in any case |
| Pause.PauseControl.OnDisableAnswered | sllurp/llrp.py:2067-2076 | Only a positive answer pauses, and only a positive duration arms a timer |
| Pause.PauseControl.OnHardDisconnect | sllurp/llrp.py:3040-3048 | A hard disconnect revokes the timers without a change of state |
| Pause.PauseControl.ResetSession | sllurp/llrp.py:2919-2933 | A session reset revokes the timers and forgets the unanswered pause |
| Pause.PauseControl.ResumeInventory | sllurp/llrp.py:2086-2128 | A resume acts only in CONNECTED, DISCONNECTED and PAUSED, and does not touch the timer |
| Pause.PauseControl.ResumeNow | sllurp/llrp.py:2130-2133 | An explicit resume revokes the timer first |
| Pause.PauseControl.TimedResume | sllurp/llrp.py:2028-2034 | A timer that compares only the generation it captured has the effect the interleaving model gives it |

## Left out

- Sockets, TLS, threads, locks, logging and reconnection: every call, message or timer is one atomic step.
- Loss of the session, a write that fails, or a `getROSpec` that raises in the middle of a configuration transition: the transition then stays pending in the code.
- `ConfigClient.LLRPClient` and `CorrelationClient.RequestClient` are two classes; their machines are joined in `TransitionRequests`.
- A later `succeed` or `fail` on a `ConfigTransition` overwrites its status in the code; the table makes one of them, once.
- What `handleMessage` does outside a transition: connection setup, capability discovery, tag reports, access operations.
- Transaction.ReaderAgreement: the reader's AccessSpecs are not part of the model, since a configuration does not create any.
- ConfigClient.LLRPClient.SetState: the pause timer is in module Pause, and the user's state callback is not modelled.
- ConfigClient.LLRPClient.InstallRuntimeConfig: acceptance by `parseCapabilities` is one boolean for each configuration, and its normalisation of transmit power in place is not modelled.
- ConfigClient.LLRPClient.SendRequest: the refusal of a pending name and the failed write are in `CorrelationClient.RequestClient.SendRequest`.
- ConfigClient.LLRPClient.BeginTransition: the cancellation of the pause timer when a paused client starts is in module Pause.
- ConfigPlan.BuildPlan: the changes come in no particular order, while the code sorts the field names.
- ConfigPlan.ROSpecDependsOnROSpecFields: the ROSpec is the arguments that are passed on, the mode and the deduplication backend; the float power table and the assembly of the ROSpec from its arguments are not modelled.
- Registry.PendingRequestRegistry.CancelAllRequests: the order in which the dictionary lists its keys is arbitrary.
- Registry.PendingRequestRegistry.PopResponseType: used by `processDeferreds` for a response without an ID, a path that the correlation client does not take.
- CorrelationClient.RequestClient.ProcessDeferreds: a response without a message ID, which takes the only request of its type, is not modelled.
- CorrelationClient.RequestClient.HandleMessage: its looks at the lists, which leave an empty one behind, are events of their own (`LookAt`).
- Correlation.CallbackIntegrity: a timer that has not started its expiry is identified by the key of its request, so that of an earlier use of the same message ID, after 2^32 requests, is not told apart.
- Framing.FrameReader.RawDataReceived: decoding and handling a frame is an arbitrary predicate that says whether it raises, and does not touch the buffer; a change of `max_message_size` in the middle of a message is not modelled.
- CodecRoundTrip.ParamRoundTrip: values are unsigned (a signed field stands for its two's complement), fixed values and children are kept apart, so that their names cannot clash, and a raw CustomParameter, whose vendor and subtype come from the caller, is not part of a conforming tree.
- The individual vendor decoders and message bodies: the registry is arbitrary, with packed fields, the AISpec antenna list and the TagReportContentSelector flags as fixed parts.
- CodecLoops.DecodeAllParameters: the break for a parameter of length zero is not in the loop, as `DecodingTiles` shows it is never taken.
- Re-encoding arbitrary bytes: reserved TLV bits are masked away on decoding, so only the direction from trees is stated.
- Dedup.TagReportDeduplicator.constructor: a negative window or a capacity below one, for which the code raises, is excluded; `_freeze`, `default_tag_key`, `include_antenna` and the user's callback are not modelled.
- Dedup.DedupRefinement: for a clock that never goes back, as two concurrent calls may not see it; `FilterBound` holds for any clock.
- Pause.TimedPauseSafety: a cancelled timer may still fire in the model, which is more than the code allows.
- Pause.PauseControl.ResumeInventory: the requests that a resume sends, by whether there is a ROSpec and whether it is to be regenerated, are one change of state.
- HTTP, SOAP and XML management adapters, command line, reader profiles, EPC helpers: formatting, lookups and I/O, which would only add easy members.
