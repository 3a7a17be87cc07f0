/**
 Classification of configuration changes (`sllurp/llrp_runtime.py`) and the two
 things a configuration makes the client send: the SET_READER_CONFIG message
 and the generated ROSpec (`sllurp/llrp.py`).
 */
module ConfigPlan {
  import opened Prelude

  // ---------------------------------------------------------------- fields

  datatype Action = ClientOnly | ROSpecChange | ReaderConfigChange | Reconnect

  /** Public attributes of a configuration; `Other` is any attribute that
      the policy table does not list. */
  datatype Field =
    | DisconnectWhenDone | MaxMessageSize | ReconnectFlag | ReconnectRetries
    | ReconnectDelay | StartInventory | ResetOnConnect | RequestTimeout
    | Duration | Tari | Session | ModeIdentifier | TagPopulation
    | RoReportEveryNTags | ReportEveryNTags | ReportTimeoutMs | DedupSeconds
    | DedupBackend | DedupMaxEntries | Antennas | TxPower | TxPowerDbm
    | TagFilterMask | TagContentSelector | Frequencies | ImpinjFixedFrequency
    | ImpinjSearchMode | ImpinjReports | ImpinjTagContentSelector
    | ZebraTagContentSelector | RfTelemetryMode
    | EventSelector | GpiPortsConfig | KeepaliveInterval | ImpinjEventSelector
    | SocketReceiveBufferBytes | TlsEnabled | TlsVerify | TlsCaFile
    | TlsClientCert | TlsClientKey | TlsServerHostname
    | ImpinjExtendedConfiguration
    | Other(name: Event)

  /** CONFIG_FIELD_POLICY, with `reconnect` for a field it does not list. */
  function Policy(f: Field): Action {
    match f
    case DisconnectWhenDone | MaxMessageSize | ReconnectFlag | ReconnectRetries
      | ReconnectDelay | StartInventory | ResetOnConnect | RequestTimeout => ClientOnly
    case Duration | Tari | Session | ModeIdentifier | TagPopulation
      | RoReportEveryNTags | ReportEveryNTags | ReportTimeoutMs | DedupSeconds
      | DedupBackend | DedupMaxEntries | Antennas | TxPower | TxPowerDbm
      | TagFilterMask | TagContentSelector | Frequencies | ImpinjFixedFrequency
      | ImpinjSearchMode | ImpinjReports | ImpinjTagContentSelector
      | ZebraTagContentSelector | RfTelemetryMode => ROSpecChange
    case EventSelector | GpiPortsConfig | KeepaliveInterval | ImpinjEventSelector => ReaderConfigChange
    case SocketReceiveBufferBytes | TlsEnabled | TlsVerify | TlsCaFile
      | TlsClientCert | TlsClientKey | TlsServerHostname
      | ImpinjExtendedConfiguration => Reconnect
    case Other(_) => Reconnect
  }

  const CLIENT_FIELDS: set<Field> := {
    DisconnectWhenDone, MaxMessageSize, ReconnectFlag, ReconnectRetries,
    ReconnectDelay, StartInventory, ResetOnConnect, RequestTimeout}

  const SESSION_FIELDS: set<Field> := {
    SocketReceiveBufferBytes, TlsEnabled, TlsVerify, TlsCaFile,
    TlsClientCert, TlsClientKey, TlsServerHostname, ImpinjExtendedConfiguration}

  /** The classes: eight fields concern the client alone, four the reader's
      settings, and the fields of transport and session, as well as any that is
      not known, need a reconnect; the others go into the ROSpec. */
  lemma PolicyClasses(f: Field)
    ensures Policy(f) == ClientOnly <==> f in CLIENT_FIELDS
    ensures Policy(f) == ReaderConfigChange <==>
            f in {EventSelector, GpiPortsConfig, KeepaliveInterval, ImpinjEventSelector}
    ensures Policy(f) == Reconnect <==> f in SESSION_FIELDS || f.Other?
  {
  }

  // ---------------------------------------------------------- configuration

  /** The reader events that a selector may name. */
  datatype Event =
    | HoppingEvent | GPIEvent | ROSpecEvent | ReportBufferFillWarning
    | ReaderExceptionEvent | RFSurveyEvent | AISpecEvent
    | AISpecEventWithSingulation | AntennaEvent
    | OtherEvent(name: string)

  /** A detached attribute value. `Num` and `Text` also stand for the values
      (lists, dictionaries) that are only ever compared and passed on. */
  datatype Value =
    | NoneValue
    | Num(n: int)
    | Text(s: string)
    | Events(events: map<Event, bool>)
    | Ports(ports: map<int, bool>)
    | Impinj(selector: map<string, Option<bool>>)

  /** The four attributes that SET_READER_CONFIG reads are typed; every other
      public attribute is in `rest`. */
  datatype Config = Config(
    eventSelector: map<Event, bool>,
    gpiPorts: map<int, bool>,
    keepaliveInterval: int,
    impinjEvents: Option<map<string, Option<bool>>>,
    rest: map<Field, Value>)

  /** The public attribute names in `vars(config)`. */
  function FieldsOf(c: Config): (fs: set<Field>) {
    c.rest.Keys + {EventSelector, GpiPortsConfig, KeepaliveInterval, ImpinjEventSelector}
  }

  /** `snapshot.get(field)`: an absent field reads as None. */
  function Get(c: Config, f: Field): Value {
    if f == EventSelector then Events(c.eventSelector)
    else if f == GpiPortsConfig then Ports(c.gpiPorts)
    else if f == KeepaliveInterval then Num(c.keepaliveInterval)
    else if f == ImpinjEventSelector then
      if c.impinjEvents.None? then NoneValue else Impinj(c.impinjEvents.value)
    else if f in c.rest then c.rest[f]
    else NoneValue
  }

  /** snapshot_config: the public attributes, detached. */
  function Snapshot(c: Config): map<Field, Value> {
    map f | f in FieldsOf(c) :: Get(c, f)
  }

  function Lookup(snapshot: map<Field, Value>, f: Field): Value {
    if f in snapshot then snapshot[f] else NoneValue
  }

  lemma SnapshotReads(c: Config, f: Field)
    ensures Lookup(Snapshot(c), f) == Get(c, f)
  {
  }

  // ------------------------------------------------------------------- plan

  datatype Change = Change(field: Field, before: Value, after: Value, action: Action)

  /** The fields of `visited` that changed, each once, with both values and
      its action. */
  ghost predicate PlanFor(prev: map<Field, Value>, next: map<Field, Value>, changes: seq<Change>, visited: set<Field>) {
    && (forall i | 0 <= i < |changes| :: IsChange(prev, next, changes[i]) && changes[i].field in visited)
    && (forall i, j | 0 <= i < j < |changes| :: changes[i].field != changes[j].field)
    && (forall f | f in visited && Lookup(prev, f) != Lookup(next, f) :: Mentions(changes, f))
  }

  ghost predicate IsPlan(prev: map<Field, Value>, next: map<Field, Value>, changes: seq<Change>) {
    PlanFor(prev, next, changes, prev.Keys + next.Keys)
  }

  predicate IsChange(prev: map<Field, Value>, next: map<Field, Value>, c: Change) {
    && c.before == Lookup(prev, c.field)
    && c.after == Lookup(next, c.field)
    && c.before != c.after
    && c.action == Policy(c.field)
  }

  predicate Mentions(changes: seq<Change>, f: Field) {
    exists i :: 0 <= i < |changes| && changes[i].field == f
  }

  predicate HasAction(changes: seq<Change>, a: Action) {
    exists i :: 0 <= i < |changes| && changes[i].action == a
  }

  predicate IsClientOnlyPlan(changes: seq<Change>) {
    changes != [] && forall i | 0 <= i < |changes| :: changes[i].action == ClientOnly
  }

  /** build_config_transition_plan: one pass over the union of both field sets. */
  method BuildPlan(prev: map<Field, Value>, next: map<Field, Value>) returns (changes: seq<Change>)
    ensures IsPlan(prev, next, changes)
  {
    changes := [];
    var todo := prev.Keys + next.Keys;
    ghost var visited: set<Field> := {};
    while todo != {}
      invariant visited + todo == prev.Keys + next.Keys && visited !! todo
      invariant PlanFor(prev, next, changes, visited)
      decreases todo
    {
      var f :| f in todo;
      var before, after := Lookup(prev, f), Lookup(next, f);
      PlanGrows(prev, next, changes, visited, f);
      if before != after {
        changes := changes + [Change(f, before, after, Policy(f))];
      }
      todo := todo - {f};
      visited := visited + {f};
    }
  }

  lemma PlanGrows(prev: map<Field, Value>, next: map<Field, Value>, changes: seq<Change>,
                  visited: set<Field>, f: Field)
    requires PlanFor(prev, next, changes, visited)
    requires f !in visited
    ensures Lookup(prev, f) == Lookup(next, f) ==> PlanFor(prev, next, changes, visited + {f})
    ensures Lookup(prev, f) != Lookup(next, f) ==>
              PlanFor(prev, next, changes + [Change(f, Lookup(prev, f), Lookup(next, f), Policy(f))], visited + {f})
  {
    MentionsGrows(changes, Change(f, Lookup(prev, f), Lookup(next, f), Policy(f)));
  }

  lemma MentionsGrows(changes: seq<Change>, change: Change)
    ensures Mentions(changes + [change], change.field)
    ensures forall f | Mentions(changes, f) :: Mentions(changes + [change], f)
  {
    var more := changes + [change];
    assert more[|changes|] == change;
    forall f | Mentions(changes, f)
      ensures Mentions(more, f)
    {
      var i :| 0 <= i < |changes| && changes[i].field == f;
      assert more[i] == changes[i];
    }
  }

  /** A plan is empty exactly when the two snapshots read the same everywhere. */
  lemma EmptyPlan(prev: map<Field, Value>, next: map<Field, Value>, changes: seq<Change>)
    requires IsPlan(prev, next, changes)
    ensures changes == [] <==> forall f :: Lookup(prev, f) == Lookup(next, f)
  {
    if changes != [] {
      assert IsChange(prev, next, changes[0]);
    } else {
      forall f
        ensures Lookup(prev, f) == Lookup(next, f)
      {
        assert f in prev.Keys + next.Keys ==> !Mentions(changes, f);
      }
    }
  }

  /** A plan names an action exactly when some field of that class changed. */
  lemma PlanActions(prev: map<Field, Value>, next: map<Field, Value>, changes: seq<Change>, a: Action)
    requires IsPlan(prev, next, changes)
    ensures HasAction(changes, a) <==> exists f :: Policy(f) == a && Lookup(prev, f) != Lookup(next, f)
  {
    if HasAction(changes, a) {
      var i :| 0 <= i < |changes| && changes[i].action == a;
      var f := changes[i].field;
      assert IsChange(prev, next, changes[i]);
      assert Policy(f) == a && Lookup(prev, f) != Lookup(next, f);
    }
    if f :| Policy(f) == a && Lookup(prev, f) != Lookup(next, f) {
      assert Mentions(changes, f);
      var i :| 0 <= i < |changes| && changes[i].field == f;
      assert IsChange(prev, next, changes[i]);
    }
  }

  // ----------------------------------------------- SET_READER_CONFIG message

  datatype Setting = EventState(event: Event) | Keepalive | ImpinjAntennaEvent | GpiPort(port: int)

  datatype SettingValue = Flag(on: bool) | Millis(ms: int)

  /** The events that every message switches off unless the selector says otherwise. */
  const DEFAULT_EVENTS: set<Event> := {
    HoppingEvent, GPIEvent, ROSpecEvent, ReportBufferFillWarning,
    ReaderExceptionEvent, RFSurveyEvent, AISpecEvent,
    AISpecEventWithSingulation, AntennaEvent}

  function EventSettings(defaults: set<Event>, selector: map<Event, bool>): map<Setting, SettingValue> {
    map e | e in defaults + selector.Keys :: EventState(e) := Flag(e in selector && selector[e])
  }

  function KeepaliveSettings(interval: int): map<Setting, SettingValue> {
    if interval > 0 then map[Keepalive := Millis(interval)] else map[]
  }

  function ImpinjSettings(selector: Option<map<string, Option<bool>>>): map<Setting, SettingValue> {
    if NamesAntennaEvent(selector)
    then map[ImpinjAntennaEvent := Flag(selector.value["AntennaAttemptEvent"].value)]
    else map[]
  }

  function GpiSettings(ports: map<int, bool>): map<Setting, SettingValue> {
    map p | p in ports :: GpiPort(p) := Flag(ports[p])
  }

  /** The settings that send_SET_READER_CONFIG mentions, with their values. */
  function SetMessage(c: Config): map<Setting, SettingValue> {
    MessageWith(DEFAULT_EVENTS, c)
  }

  function MessageWith(defaults: set<Event>, c: Config): map<Setting, SettingValue> {
    EventSettings(defaults, c.eventSelector) + KeepaliveSettings(c.keepaliveInterval)
    + ImpinjSettings(c.impinjEvents) + GpiSettings(c.gpiPorts)
  }

  predicate NamesAntennaEvent(selector: Option<map<string, Option<bool>>>) {
    selector.Some? && "AntennaAttemptEvent" in selector.value && selector.value["AntennaAttemptEvent"].Some?
  }

  /** Whether a configuration makes the message mention a setting. */
  predicate MentionsSetting(c: Config, defaults: set<Event>, k: Setting) {
    match k
    case EventState(e) => e in defaults || e in c.eventSelector
    case Keepalive => c.keepaliveInterval > 0
    case ImpinjAntennaEvent => NamesAntennaEvent(c.impinjEvents)
    case GpiPort(p) => p in c.gpiPorts
  }

  lemma SetMessageKeys(c: Config, k: Setting)
    ensures k in SetMessage(c) <==> MentionsSetting(c, DEFAULT_EVENTS, k)
  {
    MessageKeys(DEFAULT_EVENTS, c, k);
  }

  lemma MessageKeys(defaults: set<Event>, c: Config, k: Setting)
    ensures k in MessageWith(defaults, c) <==> MentionsSetting(c, defaults, k)
  {
    EventKeys(defaults, c.eventSelector, k);
    GpiKeys(c.gpiPorts, k);
  }

  lemma EventKeys(defaults: set<Event>, selector: map<Event, bool>, k: Setting)
    ensures k in EventSettings(defaults, selector) <==>
            k.EventState? && (k.event in defaults || k.event in selector)
  {
  }

  lemma GpiKeys(ports: map<int, bool>, k: Setting)
    ensures k in GpiSettings(ports) <==> k.GpiPort? && k.port in ports
  {
  }

  /** A reader set up as a configuration asks: the events of the selector as it
      says and the other default events off, the keepalive interval, the GPI
      ports and the Impinj antenna event if the configuration has them. */
  ghost predicate IsSetUp(settings: map<Setting, SettingValue>, c: Config) {
    EventsSetUp(DEFAULT_EVENTS, settings, c.eventSelector) && RestSetUp(settings, c)
  }

  ghost predicate EventsSetUp(defaults: set<Event>, settings: map<Setting, SettingValue>,
                              selector: map<Event, bool>)
  {
    && (forall e | e in selector :: Has(settings, EventState(e), Flag(selector[e])))
    && (forall e | e in defaults && e !in selector :: Has(settings, EventState(e), Flag(false)))
  }

  ghost predicate RestSetUp(settings: map<Setting, SettingValue>, c: Config) {
    && (c.keepaliveInterval > 0 ==> Has(settings, Keepalive, Millis(c.keepaliveInterval)))
    && (forall p | p in c.gpiPorts :: Has(settings, GpiPort(p), Flag(c.gpiPorts[p])))
    && (NamesAntennaEvent(c.impinjEvents) ==>
          Has(settings, ImpinjAntennaEvent, Flag(c.impinjEvents.value["AntennaAttemptEvent"].value)))
  }

  predicate Has(settings: map<Setting, SettingValue>, k: Setting, v: SettingValue) {
    k in settings && settings[k] == v
  }

  lemma EventValue(defaults: set<Event>, c: Config, e: Event)
    ensures e in c.eventSelector ==> Has(MessageWith(defaults, c), EventState(e), Flag(c.eventSelector[e]))
    ensures e in defaults && e !in c.eventSelector ==> Has(MessageWith(defaults, c), EventState(e), Flag(false))
  {
    EventKeys(defaults, c.eventSelector, EventState(e));
    GpiKeys(c.gpiPorts, EventState(e));
  }

  lemma GpiValue(defaults: set<Event>, c: Config, p: int)
    ensures p in c.gpiPorts ==> Has(MessageWith(defaults, c), GpiPort(p), Flag(c.gpiPorts[p]))
  {
    GpiKeys(c.gpiPorts, GpiPort(p));
  }

  lemma OtherValues(defaults: set<Event>, c: Config)
    ensures c.keepaliveInterval > 0 ==> Has(MessageWith(defaults, c), Keepalive, Millis(c.keepaliveInterval))
    ensures NamesAntennaEvent(c.impinjEvents) ==>
              Has(MessageWith(defaults, c), ImpinjAntennaEvent,
                  Flag(c.impinjEvents.value["AntennaAttemptEvent"].value))
  {
    GpiKeys(c.gpiPorts, Keepalive);
    GpiKeys(c.gpiPorts, ImpinjAntennaEvent);
  }

  lemma MessageValues(defaults: set<Event>, c: Config)
    ensures EventsSetUp(defaults, MessageWith(defaults, c), c.eventSelector) && RestSetUp(MessageWith(defaults, c), c)
  {
    forall e
      ensures e in c.eventSelector ==> Has(MessageWith(defaults, c), EventState(e), Flag(c.eventSelector[e]))
      ensures e in defaults && e !in c.eventSelector ==> Has(MessageWith(defaults, c), EventState(e), Flag(false))
    {
      EventValue(defaults, c, e);
    }
    forall p | p in c.gpiPorts
      ensures Has(MessageWith(defaults, c), GpiPort(p), Flag(c.gpiPorts[p]))
    {
      GpiValue(defaults, c, p);
    }
    OtherValues(defaults, c);
  }

  /** The reader has every setting of a message at the message's value. */
  ghost predicate Holds(settings: map<Setting, SettingValue>, message: map<Setting, SettingValue>) {
    forall k | k in message :: Has(settings, k, message[k])
  }

  /** A message that mentions exactly what the configuration asks for, with
      these values, holds exactly where the reader is set up so. */
  lemma HoldsIsSetUp(defaults: set<Event>, settings: map<Setting, SettingValue>,
                     message: map<Setting, SettingValue>, c: Config)
    requires EventsSetUp(defaults, message, c.eventSelector) && RestSetUp(message, c)
    requires forall k | k in message :: MentionsSetting(c, defaults, k)
    ensures Holds(settings, message) <==> EventsSetUp(defaults, settings, c.eventSelector) && RestSetUp(settings, c)
  {
    if EventsSetUp(defaults, settings, c.eventSelector) && RestSetUp(settings, c) {
      forall k | k in message
        ensures Has(settings, k, message[k])
      {
        assert MentionsSetting(c, defaults, k);
      }
    }
  }

  lemma MessageMentions(defaults: set<Event>, c: Config)
    ensures forall k | k in MessageWith(defaults, c) :: MentionsSetting(c, defaults, k)
  {
    forall k | k in MessageWith(defaults, c)
      ensures MentionsSetting(c, defaults, k)
    {
      MessageKeys(defaults, c, k);
    }
  }

  /** The values of SET_READER_CONFIG: a reader agrees with everything that the
      message of a configuration mentions if and only if it is set up as the
      configuration asks. */
  lemma AgreesIsSetUp(settings: map<Setting, SettingValue>, c: Config)
    ensures Holds(settings, SetMessage(c)) <==> IsSetUp(settings, c)
  {
    MessageValues(DEFAULT_EVENTS, c);
    MessageMentions(DEFAULT_EVENTS, c);
    HoldsIsSetUp(DEFAULT_EVENTS, settings, SetMessage(c), c);
  }

  // ------------------------------------------------------------ the ROSpec

  /** What getROSpec takes from the parsed reader capabilities. */
  datatype Capabilities = Capabilities(modes: map<Value, string>, periodicReports: bool)

  datatype Backend = Disabled | Hardware | Memory

  const ZEBRA_TIMED_DEDUP_MAX_SECONDS := 600

  /** The fields that parseCapabilities and getROSpec read. */
  const ROSPEC_INPUTS: set<Field> := {
    ModeIdentifier, DedupSeconds, RfTelemetryMode, DedupBackend,
    Duration, ReportEveryNTags, ReportTimeoutMs, RoReportEveryNTags, TxPower, TxPowerDbm,
    Antennas, TagContentSelector, Session, Tari, TagPopulation, Frequencies,
    ImpinjFixedFrequency, ZebraTagContentSelector,
    TagFilterMask, ImpinjSearchMode, ImpinjTagContentSelector}

  /** The arguments getROSpec passes only when the configuration sets them. */
  const PASSED_WHEN_SET: set<Field> := {TagFilterMask, ImpinjSearchMode, ImpinjTagContentSelector}

  /** The fields that choose the mode and the backend but are not passed on. */
  const NOT_PASSED: set<Field> := {ModeIdentifier, DedupSeconds, RfTelemetryMode, DedupBackend}

  function Read(c: Config, fields: set<Field>): map<Field, Value> {
    map f | f in fields :: Get(c, f)
  }

  function Input(inputs: map<Field, Value>, f: Field): Value {
    if f in inputs then inputs[f] else NoneValue
  }

  /** _select_dedup_backend where it does not raise. */
  function ActiveBackend(inputs: map<Field, Value>, caps: Capabilities): Backend {
    var seconds := Input(inputs, DedupSeconds);
    if seconds.NoneValue? then Disabled
    else if Input(inputs, RfTelemetryMode) != Text("off") then Memory
    else if Input(inputs, DedupBackend) == Text("memory") then Memory
    else if seconds.Num? && seconds.n <= ZEBRA_TIMED_DEDUP_MAX_SECONDS && caps.periodicReports
            && Input(inputs, ReportEveryNTags).NoneValue? && Input(inputs, RoReportEveryNTags).NoneValue?
    then Hardware
    else Memory
  }

  datatype ROSpec = ROSpec(
    id: nat,
    mode: Option<string>,
    arguments: map<Field, Value>,
    hardwareDedupSeconds: Option<Value>)

  function BuildROSpec(inputs: map<Field, Value>, caps: Capabilities): ROSpec {
    var modeId := Input(inputs, ModeIdentifier);
    ROSpec(
      1,
      if modeId.NoneValue? || modeId !in caps.modes then None else Some(caps.modes[modeId]),
      map f | f in inputs && f !in NOT_PASSED && !(f in PASSED_WHEN_SET && inputs[f].NoneValue?) :: inputs[f],
      if ActiveBackend(inputs, caps).Hardware? then Some(Input(inputs, DedupSeconds)) else None)
  }

  /** getROSpec: everything the generated ROSpec is computed from. */
  function GenerateROSpec(c: Config, caps: Capabilities): ROSpec {
    BuildROSpec(Read(c, ROSPEC_INPUTS), caps)
  }

  /** The arguments that are passed whatever their value. */
  const ALWAYS_PASSED: set<Field> := {
    Duration, ReportEveryNTags, ReportTimeoutMs, RoReportEveryNTags, TxPower, TxPowerDbm,
    Antennas, TagContentSelector, Session, Tari, TagPopulation, Frequencies,
    ImpinjFixedFrequency, ZebraTagContentSelector}

  /** Whether the reader itself is to suppress repeated reports: an interval
      that it supports, no RF telemetry, no backend in memory asked for, and
      no report trigger of its own. */
  predicate UsesHardwareDedup(c: Config, caps: Capabilities) {
    && Get(c, DedupSeconds).Num? && Get(c, DedupSeconds).n <= 600 && caps.periodicReports
    && Get(c, RfTelemetryMode) == Text("off") && Get(c, DedupBackend) != Text("memory")
    && Get(c, ReportEveryNTags).NoneValue? && Get(c, RoReportEveryNTags).NoneValue?
  }

  lemma ReadIs(c: Config, f: Field)
    ensures Input(Read(c, ROSPEC_INPUTS), f) == if f in ROSPEC_INPUTS then Get(c, f) else NoneValue
  {
  }

  /** The generated ROSpec has ROSpecID 1 and the mode of the configured
      identifier, if the reader has one. */
  lemma ROSpecMode(c: Config, caps: Capabilities, mode: string)
    ensures var s := GenerateROSpec(c, caps);
            && s.id == 1
            && (s.mode == Some(mode) <==>
                !Get(c, ModeIdentifier).NoneValue? && Get(c, ModeIdentifier) in caps.modes
                && caps.modes[Get(c, ModeIdentifier)] == mode)
  {
    ReadIs(c, ModeIdentifier);
  }

  /** Each argument is passed with the configuration's value, the three
      optional ones only when set. */
  lemma ROSpecArguments(c: Config, caps: Capabilities, f: Field)
    ensures var s := GenerateROSpec(c, caps);
            && (f in s.arguments <==> f in ALWAYS_PASSED || (f in PASSED_WHEN_SET && !Get(c, f).NoneValue?))
            && (f in s.arguments ==> s.arguments[f] == Get(c, f))
  {
    PassedFields(f);
  }

  /** The interval of hardware deduplication is there exactly when it is used. */
  lemma ROSpecDedup(c: Config, caps: Capabilities)
    ensures GenerateROSpec(c, caps).hardwareDedupSeconds ==
            if UsesHardwareDedup(c, caps) then Some(Get(c, DedupSeconds)) else None
  {
    ReadIs(c, DedupSeconds);
    ReadIs(c, RfTelemetryMode);
    ReadIs(c, DedupBackend);
    ReadIs(c, ReportEveryNTags);
    ReadIs(c, RoReportEveryNTags);
  }

  lemma PassedFields(f: Field)
    ensures f in ALWAYS_PASSED <==> f in ROSPEC_INPUTS && f !in NOT_PASSED && f !in PASSED_WHEN_SET
    ensures f in PASSED_WHEN_SET ==> f in ROSPEC_INPUTS && f !in NOT_PASSED
  {
  }

  // -------------------------------------------------------- plan soundness

  ghost predicate AgreeOn(prev: Config, next: Config, a: Action) {
    forall f | Policy(f) == a :: Get(prev, f) == Get(next, f)
  }

  lemma AgreeAt(prev: Config, next: Config, a: Action, f: Field)
    requires AgreeOn(prev, next, a)
    requires Policy(f) == a
    ensures Get(prev, f) == Get(next, f)
  {
  }

  lemma ReadsAgree(prev: Config, next: Config, fields: set<Field>)
    requires forall f | f in fields :: Get(prev, f) == Get(next, f)
    ensures Read(prev, fields) == Read(next, fields)
  {
  }

  lemma InputsAreROSpecFields(f: Field)
    requires f in ROSPEC_INPUTS
    ensures Policy(f) == ROSpecChange
  {
  }

  /** The generated ROSpec depends on rospec-class fields alone. */
  lemma ROSpecDependsOnROSpecFields(prev: Config, next: Config, caps: Capabilities)
    requires AgreeOn(prev, next, ROSpecChange)
    ensures GenerateROSpec(prev, caps) == GenerateROSpec(next, caps)
  {
    forall f | f in ROSPEC_INPUTS
      ensures Get(prev, f) == Get(next, f)
    {
      InputsAreROSpecFields(f);
      AgreeAt(prev, next, ROSpecChange, f);
    }
    ReadsAgree(prev, next, ROSPEC_INPUTS);
  }

  lemma ReaderFieldsAgree(prev: Config, next: Config)
    requires AgreeOn(prev, next, ReaderConfigChange)
    ensures prev.eventSelector == next.eventSelector && prev.gpiPorts == next.gpiPorts
    ensures prev.keepaliveInterval == next.keepaliveInterval && prev.impinjEvents == next.impinjEvents
  {
    AgreeAt(prev, next, ReaderConfigChange, EventSelector);
    AgreeAt(prev, next, ReaderConfigChange, GpiPortsConfig);
    AgreeAt(prev, next, ReaderConfigChange, KeepaliveInterval);
    AgreeAt(prev, next, ReaderConfigChange, ImpinjEventSelector);
  }

  /** SET_READER_CONFIG depends on reader_config-class fields alone. */
  lemma SetMessageDependsOnReaderFields(prev: Config, next: Config)
    requires AgreeOn(prev, next, ReaderConfigChange)
    ensures SetMessage(prev) == SetMessage(next)
  {
    ReaderFieldsAgree(prev, next);
  }

  /** Whether the plan for a pair of configurations has an action. */
  ghost predicate Requires(prev: Config, next: Config, a: Action) {
    !AgreeOn(prev, next, a)
  }

  lemma PlanRequires(prev: Config, next: Config, changes: seq<Change>, a: Action)
    requires IsPlan(Snapshot(prev), Snapshot(next), changes)
    ensures HasAction(changes, a) <==> Requires(prev, next, a)
  {
    PlanActions(Snapshot(prev), Snapshot(next), changes, a);
    forall f
      ensures Lookup(Snapshot(prev), f) == Get(prev, f) && Lookup(Snapshot(next), f) == Get(next, f)
    {
      SnapshotReads(prev, f);
      SnapshotReads(next, f);
    }
  }

  /** What a plan leaves out it may leave out: without a rospec change the
      same ROSpec is generated, without a reader_config change the same
      SET_READER_CONFIG is sent, and a client-only plan changes neither. */
  lemma PlanSoundness(prev: Config, next: Config, caps: Capabilities, changes: seq<Change>)
    requires IsPlan(Snapshot(prev), Snapshot(next), changes)
    ensures !HasAction(changes, ROSpecChange) ==> GenerateROSpec(prev, caps) == GenerateROSpec(next, caps)
    ensures !HasAction(changes, ReaderConfigChange) ==> SetMessage(prev) == SetMessage(next)
    ensures IsClientOnlyPlan(changes) ==>
              GenerateROSpec(prev, caps) == GenerateROSpec(next, caps) && SetMessage(prev) == SetMessage(next)
  {
    PlanRequires(prev, next, changes, ROSpecChange);
    PlanRequires(prev, next, changes, ReaderConfigChange);
    if !HasAction(changes, ROSpecChange) {
      ROSpecDependsOnROSpecFields(prev, next, caps);
    }
    if !HasAction(changes, ReaderConfigChange) {
      SetMessageDependsOnReaderFields(prev, next);
    }
  }
}
