/**
 systemd services behind a configured allowlist: what the handlers of the module manager answer
 and which `systemctl` commands they run, against a world that answers each command as it likes.
 */
module ServiceControl {
  import opened Common
  import opened GoStrings

  datatype Verb = Start | Stop | Restart | Enable | Disable

  datatype Command =
    | Mutate(verb: Verb, unit: string)
    | IsActive(unit: string)
    | IsEnabled(unit: string)
    | Describe(unit: string)
    | Since(unit: string)

  datatype Output = Output(exitOk: bool, text: string)

  /** The answer to the last command of a history; it may depend on everything run before. */
  type World = seq<Command> -> Output

  datatype ServiceMapping = ServiceMapping(systemdName: string, stopAlso: string, description: string)

  datatype Config = Config(enabled: bool, services: map<string, ServiceMapping>)

  datatype Code = Unimplemented | InvalidArgument | NotFound | Internal

  datatype ServiceState = Unspecified | Active | Inactive | FailedState | Activating | Deactivating

  datatype Service = Service(name: string, state: ServiceState, enabled: bool, description: string)

  datatype Info = Info(status: string, enabled: bool)

  // ---- Configuration lookups ----

  /** `ParseResourceName`: type and identifier. */
  function ParseResourceName(name: string): Option<(string, string)> {
    var parts := Split(name);
    if |parts| != 2 then None else Some((parts[0], parts[1]))
  }

  /** A resource name parses exactly into the two slash-free parts it was put together from. */
  lemma ParseIsExact(name: string, kind: string, id: string)
    ensures ParseResourceName(name) == Some((kind, id)) <==> name == kind + "/" + id && '/' !in kind && '/' !in id
  {
    SplitInTwo(name, kind, id);
    var parts := Split(name);
    if |parts| == 2 {
      assert parts == [parts[0], parts[1]];
    }
  }

  function MappingOf(cfg: Config, name: string): Option<ServiceMapping> {
    match ParseResourceName(name)
    case None => None
    case Some((kind, id)) => if kind == "services" && id in cfg.services then Some(cfg.services[id]) else None
  }

  predicate IsServiceAllowed(cfg: Config, unit: string) {
    exists id :: id in cfg.services && cfg.services[id].systemdName == unit
  }

  /** A resource is known exactly under `services/` and a configured identifier, and its own unit is always allowed. */
  lemma MappingIsExact(cfg: Config, name: string)
    ensures MappingOf(cfg, name).Some? <==>
      exists id :: id in cfg.services && '/' !in id && name == "services/" + id
    ensures forall id :: id in cfg.services && '/' !in id && name == "services/" + id ==>
      MappingOf(cfg, name) == Some(cfg.services[id])
    ensures MappingOf(cfg, name).Some? ==> IsServiceAllowed(cfg, MappingOf(cfg, name).value.systemdName)
  {
    forall id | id in cfg.services && '/' !in id && name == "services/" + id
      ensures MappingOf(cfg, name) == Some(cfg.services[id])
    {
      ParseIsExact(name, "services", id);
      assert name == "services" + "/" + id;
    }
    if MappingOf(cfg, name).Some? {
      var (kind, id) := ParseResourceName(name).value;
      ParseIsExact(name, kind, id);
      assert name == "services/" + id;
    }
  }

  // ---- Reading a unit's status ----

  /** `getServiceStatus`: a failing command still counts where it prints a known state. */
  function Classify(o: Output): Option<string> {
    var text := TrimSpace(o.text);
    if o.exitOk || text == "inactive" || text == "failed" || text == "activating" || text == "deactivating" then Some(text) else None
  }

  function StateOf(status: string): ServiceState {
    if status == "active" then Active
    else if status == "inactive" then Inactive
    else if status == "failed" then FailedState
    else if status == "activating" then Activating
    else if status == "deactivating" then Deactivating
    else Unspecified
  }

  /** `GetServiceInfo`: the commands it runs and what it makes of them. */
  function ServiceInfo(w: World, h: seq<Command>, unit: string): (seq<Command>, Option<Info>) {
    var h1 := h + [IsActive(unit)];
    match Classify(w(h1))
    case None => (h1, None)
    case Some(status) =>
      var h2 := h1 + [IsEnabled(unit)];
      var enabled := w(h2).exitOk && TrimSpace(w(h2).text) == "enabled";
      var h3 := h2 + [Describe(unit)];
      (if status == "active" then h3 + [Since(unit)] else h3, Some(Info(status, enabled)))
  }

  /** `GetService` */
  function GetService(cfg: Config, w: World, h: seq<Command>, name: string): (seq<Command>, Result<Service, Code>) {
    if !cfg.enabled then (h, Err(Unimplemented))
    else
      match ParseResourceName(name)
      case None => (h, Err(InvalidArgument))
      case Some((kind, id)) =>
        if kind != "services" then (h, Err(InvalidArgument))
        else if id !in cfg.services then (h, Err(NotFound))
        else
          var (h', info) := ServiceInfo(w, h, cfg.services[id].systemdName);
          (h', if info.None? then Err(Internal)
               else Ok(Service(name, StateOf(info.value.status), info.value.enabled, cfg.services[id].description)))
  }

  /** A mutating command followed by reading the service back. */
  function RunAndRead(cfg: Config, w: World, h: seq<Command>, verb: Verb, unit: string, name: string)
    : (seq<Command>, Result<Service, Code>)
  {
    var h1 := h + [Mutate(verb, unit)];
    if !w(h1).exitOk then (h1, Err(Internal))
    else
      var (h2, r) := GetService(cfg, w, h1, name);
      (h2, if r.Err? then Err(Internal) else r)
  }

  /** The five mutating handlers; only stop and restart look at the secondary unit. */
  function Manage(cfg: Config, w: World, h: seq<Command>, verb: Verb, name: string): (seq<Command>, Result<Service, Code>) {
    if !cfg.enabled then (h, Err(Unimplemented))
    else
      match MappingOf(cfg, name)
      case None => (h, Err(NotFound))
      case Some(m) =>
        if (verb.Stop? || verb.Restart?) && m.stopAlso != "" then
          if !IsServiceAllowed(cfg, m.stopAlso) then (h, Err(Internal))
          else RunAndRead(cfg, w, h + [Mutate(Stop, m.stopAlso)], verb, m.systemdName, name)
        else RunAndRead(cfg, w, h, verb, m.systemdName, name)
  }

  // ---- What the handlers guarantee ----

  function Mutations(h: seq<Command>): seq<Command> {
    if h == [] then []
    else Mutations(h[..|h| - 1]) + if h[|h| - 1].Mutate? then [h[|h| - 1]] else []
  }

  /** The mutating commands one request amounts to, whatever they come to. */
  function Plan(cfg: Config, verb: Verb, name: string): seq<Command> {
    var mapping := MappingOf(cfg, name);
    if !cfg.enabled || mapping.None? then []
    else
      var m := mapping.value;
      if verb !in {Stop, Restart} || m.stopAlso == "" then [Mutate(verb, m.systemdName)]
      else if IsServiceAllowed(cfg, m.stopAlso) then [Mutate(Stop, m.stopAlso), Mutate(verb, m.systemdName)]
      else []
  }

  lemma MutationsStep(h: seq<Command>, c: Command)
    ensures Mutations(h + [c]) == if c.Mutate? then Mutations(h) + [c] else Mutations(h)
  {
    assert (h + [c])[..|h|] == h;
  }

  lemma InfoMutatesNothing(w: World, h: seq<Command>, unit: string)
    ensures Mutations(ServiceInfo(w, h, unit).0) == Mutations(h)
    ensures h <= ServiceInfo(w, h, unit).0
  {
    var h1 := h + [IsActive(unit)];
    var h2 := h1 + [IsEnabled(unit)];
    var h3 := h2 + [Describe(unit)];
    MutationsStep(h, IsActive(unit));
    MutationsStep(h1, IsEnabled(unit));
    MutationsStep(h2, Describe(unit));
    MutationsStep(h3, Since(unit));
  }

  lemma GetServiceAsksOneUnit(cfg: Config, w: World, h: seq<Command>, name: string)
    ensures GetService(cfg, w, h, name).0 == h || exists unit :: GetService(cfg, w, h, name).0 == ServiceInfo(w, h, unit).0
  {
  }

  lemma ReadingMutatesNothing(cfg: Config, w: World, h: seq<Command>, name: string)
    ensures Mutations(GetService(cfg, w, h, name).0) == Mutations(h)
    ensures h <= GetService(cfg, w, h, name).0
  {
    GetServiceAsksOneUnit(cfg, w, h, name);
    var h' := GetService(cfg, w, h, name).0;
    if h' != h {
      var unit :| h' == ServiceInfo(w, h, unit).0;
      InfoMutatesNothing(w, h, unit);
    }
  }

  lemma RunAndReadMutations(cfg: Config, w: World, h: seq<Command>, verb: Verb, unit: string, name: string)
    ensures Mutations(RunAndRead(cfg, w, h, verb, unit, name).0) == Mutations(h) + [Mutate(verb, unit)]
    ensures h + [Mutate(verb, unit)] <= RunAndRead(cfg, w, h, verb, unit, name).0
    ensures RunAndRead(cfg, w, h, verb, unit, name).1.Ok? ==> w(h + [Mutate(verb, unit)]).exitOk
  {
    var h1 := h + [Mutate(verb, unit)];
    MutationsStep(h, Mutate(verb, unit));
    ReadingMutatesNothing(cfg, w, h1, name);
  }

  lemma SecondaryThenPrimary(cfg: Config, w: World, h: seq<Command>, verb: Verb, m: ServiceMapping, name: string)
    ensures var after := RunAndRead(cfg, w, h + [Mutate(Stop, m.stopAlso)], verb, m.systemdName, name).0;
      && Mutations(after) == Mutations(h) + [Mutate(Stop, m.stopAlso), Mutate(verb, m.systemdName)]
      && h <= after
  {
    var h1 := h + [Mutate(Stop, m.stopAlso)];
    MutationsStep(h, Mutate(Stop, m.stopAlso));
    RunAndReadMutations(cfg, w, h1, verb, m.systemdName, name);
  }

  /**
   Whatever the commands come to, a request runs exactly its planned mutating commands in order:
   the optional stop of the secondary unit, then the primary command, which is attempted even if
   that stop failed; a secondary unit outside the allowlist leaves nothing run at all.
   */
  lemma ManageFollowsPlan(cfg: Config, w: World, h: seq<Command>, verb: Verb, name: string)
    ensures Mutations(Manage(cfg, w, h, verb, name).0) == Mutations(h) + Plan(cfg, verb, name)
    ensures h <= Manage(cfg, w, h, verb, name).0
    ensures Plan(cfg, verb, name) == [] ==> Manage(cfg, w, h, verb, name).0 == h && Manage(cfg, w, h, verb, name).1.Err?
  {
    var mapping := MappingOf(cfg, name);
    if cfg.enabled && mapping.Some? {
      var m := mapping.value;
      if (verb.Stop? || verb.Restart?) && m.stopAlso != "" {
        SecondaryThenPrimary(cfg, w, h, verb, m, name);
      } else {
        RunAndReadMutations(cfg, w, h, verb, m.systemdName, name);
      }
    }
  }

  /** A handler answers with a service only if its primary command succeeded. */
  lemma SuccessMeansPrimaryRan(cfg: Config, w: World, h: seq<Command>, verb: Verb, name: string)
    requires Manage(cfg, w, h, verb, name).1.Ok?
    ensures var plan := Plan(cfg, verb, name);
      plan != [] && h + plan <= Manage(cfg, w, h, verb, name).0 && w(h + plan).exitOk
  {
    var m := MappingOf(cfg, name).value;
    var h1 := if (verb.Stop? || verb.Restart?) && m.stopAlso != "" then h + [Mutate(Stop, m.stopAlso)] else h;
    RunAndReadMutations(cfg, w, h1, verb, m.systemdName, name);
    assert h + Plan(cfg, verb, name) == h1 + [Mutate(verb, m.systemdName)];
  }

  /** Every planned command names the unit of some configured service, the last one the unit asked for. */
  lemma PlanIsAllowed(cfg: Config, verb: Verb, name: string)
    ensures forall c :: c in Plan(cfg, verb, name) ==>
      c.Mutate? && exists id :: id in cfg.services && cfg.services[id].systemdName == c.unit
    ensures Plan(cfg, verb, name) != [] ==> exists id :: AskedFor(cfg, verb, name, id)
  {
    MappingIsExact(cfg, name);
    if Plan(cfg, verb, name) != [] {
      var id :| id in cfg.services && '/' !in id && name == "services/" + id;
      assert AskedFor(cfg, verb, name, id);
    }
  }

  ghost predicate AskedFor(cfg: Config, verb: Verb, name: string, id: string) {
    var plan := Plan(cfg, verb, name);
    id in cfg.services && name == "services/" + id && plan != [] && plan[|plan| - 1] == Mutate(verb, cfg.services[id].systemdName)
  }

  datatype Request = Read(name: string) | Change(verb: Verb, name: string)

  /** The history after a sequence of requests. */
  function Serve(cfg: Config, w: World, h: seq<Command>, requests: seq<Request>): seq<Command> {
    if requests == [] then h
    else
      var h' := Serve(cfg, w, h, requests[..|requests| - 1]);
      match requests[|requests| - 1]
      case Read(name) => GetService(cfg, w, h', name).0
      case Change(verb, name) => Manage(cfg, w, h', verb, name).0
  }

  function Plans(cfg: Config, requests: seq<Request>): seq<Command> {
    if requests == [] then []
    else
      Plans(cfg, requests[..|requests| - 1]) +
      match requests[|requests| - 1]
      case Read(_) => []
      case Change(verb, name) => Plan(cfg, verb, name)
  }

  /** Over any sequence of requests and any world: the plans one after the other, and only allowed units. */
  lemma {:induction false} HistoryIsPlanned(cfg: Config, w: World, requests: seq<Request>)
    ensures Mutations(Serve(cfg, w, [], requests)) == Plans(cfg, requests)
    ensures forall c :: c in Plans(cfg, requests) ==>
      c.Mutate? && exists id :: id in cfg.services && cfg.services[id].systemdName == c.unit
  {
    if requests != [] {
      var init := requests[..|requests| - 1];
      HistoryIsPlanned(cfg, w, init);
      var h := Serve(cfg, w, [], init);
      match requests[|requests| - 1]
      case Read(name) => ReadingMutatesNothing(cfg, w, h, name);
      case Change(verb, name) =>
        ManageFollowsPlan(cfg, w, h, verb, name);
        PlanIsAllowed(cfg, verb, name);
    }
  }
}
