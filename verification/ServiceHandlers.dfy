/** The gRPC handlers of the service manager, running their commands one by one on the host. */
module ServiceHandlers {
  import opened Common
  import opened GoStrings
  import opened ServiceControl
  import opened ServiceListing

  class Handlers {
    const cfg: Config
    const world: World

    /** Every command run so far. */
    var history: seq<Command>

    constructor (cfg: Config, world: World)
      ensures this.cfg == cfg && this.world == world && history == []
    {
      this.cfg, this.world, history := cfg, world, [];
    }

    method Systemctl(c: Command) returns (o: Output)
      modifies this
      ensures history == old(history) + [c] && o == world(history)
    {
      history := history + [c];
      o := world(history);
    }

    /** `Manager.ManageService`; an action it does not know runs nothing. */
    method ManageService(unit: string, action: string) returns (ok: bool)
      modifies this
      ensures action == "start" ==> history == old(history) + [Mutate(Start, unit)] && ok == world(history).exitOk
      ensures action == "stop" ==> history == old(history) + [Mutate(Stop, unit)] && ok == world(history).exitOk
      ensures action == "restart" ==> history == old(history) + [Mutate(Restart, unit)] && ok == world(history).exitOk
      ensures action == "enable" ==> history == old(history) + [Mutate(Enable, unit)] && ok == world(history).exitOk
      ensures action == "disable" ==> history == old(history) + [Mutate(Disable, unit)] && ok == world(history).exitOk
      ensures action == "status" ==> history == old(history) + [IsActive(unit)] && ok == Classify(world(history)).Some?
      ensures action !in {"start", "stop", "restart", "enable", "disable", "status"} ==> history == old(history) && !ok
    {
      var o: Output;
      if action == "start" {
        o := Systemctl(Mutate(Start, unit));
        return o.exitOk;
      } else if action == "stop" {
        o := Systemctl(Mutate(Stop, unit));
        return o.exitOk;
      } else if action == "restart" {
        o := Systemctl(Mutate(Restart, unit));
        return o.exitOk;
      } else if action == "status" {
        o := Systemctl(IsActive(unit));
        return Classify(o).Some?;
      } else if action == "enable" {
        o := Systemctl(Mutate(Enable, unit));
        return o.exitOk;
      } else if action == "disable" {
        o := Systemctl(Mutate(Disable, unit));
        return o.exitOk;
      }
      return false;
    }

    method GetServiceInfo(unit: string) returns (info: Option<Info>)
      modifies this
      ensures (history, info) == ServiceInfo(world, old(history), unit)
    {
      var o := Systemctl(IsActive(unit));
      var status := Classify(o);
      if status.None? {
        return None;
      }
      o := Systemctl(IsEnabled(unit));
      var enabled := o.exitOk && TrimSpace(o.text) == "enabled";
      o := Systemctl(Describe(unit));
      if status.value == "active" {
        o := Systemctl(Since(unit));
      }
      return Some(Info(status.value, enabled));
    }

    method GetService(name: string) returns (r: Result<Service, Code>)
      modifies this
      ensures (history, r) == ServiceControl.GetService(cfg, world, old(history), name)
    {
      if !cfg.enabled {
        return Err(Unimplemented);
      }
      var parsed := ParseResourceName(name);
      if parsed.None? {
        return Err(InvalidArgument);
      }
      var (kind, id) := parsed.value;
      if kind != "services" {
        return Err(InvalidArgument);
      }
      if id !in cfg.services {
        return Err(NotFound);
      }
      var info := GetServiceInfo(cfg.services[id].systemdName);
      if info.None? {
        return Err(Internal);
      }
      return Ok(Service(name, StateOf(info.value.status), info.value.enabled, cfg.services[id].description));
    }

    /** The common end of the mutating handlers: run the primary command, then read the service back. */
    method Finish(verb: Verb, action: string, unit: string, name: string) returns (r: Result<Service, Code>)
      requires action == match verb
        case Start => "start" case Stop => "stop" case Restart => "restart" case Enable => "enable" case Disable => "disable"
      modifies this
      ensures (history, r) == RunAndRead(cfg, world, old(history), verb, unit, name)
    {
      var ok := ManageService(unit, action);
      if !ok {
        return Err(Internal);
      }
      r := GetService(name);
      if r.Err? {
        return Err(Internal);
      }
    }

    method StartService(name: string) returns (r: Result<Service, Code>)
      modifies this
      ensures (history, r) == Manage(cfg, world, old(history), Start, name)
    {
      if !cfg.enabled {
        return Err(Unimplemented);
      }
      var mapping := MappingOf(cfg, name);
      if mapping.None? {
        return Err(NotFound);
      }
      r := Finish(Start, "start", mapping.value.systemdName, name);
    }

    method StopService(name: string) returns (r: Result<Service, Code>)
      modifies this
      ensures (history, r) == Manage(cfg, world, old(history), Stop, name)
    {
      if !cfg.enabled {
        return Err(Unimplemented);
      }
      var mapping := MappingOf(cfg, name);
      if mapping.None? {
        return Err(NotFound);
      }
      if mapping.value.stopAlso != "" {
        if !IsServiceAllowed(cfg, mapping.value.stopAlso) {
          return Err(Internal);
        }
        var _ := ManageService(mapping.value.stopAlso, "stop");
      }
      r := Finish(Stop, "stop", mapping.value.systemdName, name);
    }

    method RestartService(name: string) returns (r: Result<Service, Code>)
      modifies this
      ensures (history, r) == Manage(cfg, world, old(history), Restart, name)
    {
      if !cfg.enabled {
        return Err(Unimplemented);
      }
      var mapping := MappingOf(cfg, name);
      if mapping.None? {
        return Err(NotFound);
      }
      if mapping.value.stopAlso != "" {
        if !IsServiceAllowed(cfg, mapping.value.stopAlso) {
          return Err(Internal);
        }
        var _ := ManageService(mapping.value.stopAlso, "stop");
      }
      r := Finish(Restart, "restart", mapping.value.systemdName, name);
    }

    method EnableService(name: string) returns (r: Result<Service, Code>)
      modifies this
      ensures (history, r) == Manage(cfg, world, old(history), Enable, name)
    {
      if !cfg.enabled {
        return Err(Unimplemented);
      }
      var mapping := MappingOf(cfg, name);
      if mapping.None? {
        return Err(NotFound);
      }
      r := Finish(Enable, "enable", mapping.value.systemdName, name);
    }

    method DisableService(name: string) returns (r: Result<Service, Code>)
      modifies this
      ensures (history, r) == Manage(cfg, world, old(history), Disable, name)
    {
      if !cfg.enabled {
        return Err(Unimplemented);
      }
      var mapping := MappingOf(cfg, name);
      if mapping.None? {
        return Err(NotFound);
      }
      r := Finish(Disable, "disable", mapping.value.systemdName, name);
    }

    /** Go visits the configured services in any order; what is run and listed is that visit's. */
    method ListServices() returns (r: Result<seq<Service>, Code>)
      modifies this
      ensures !cfg.enabled ==> history == old(history) && r == Err(Unimplemented)
      ensures cfg.enabled ==> r.Ok?
      ensures cfg.enabled ==> exists order ::
        IsVisit(cfg, order) && (history, r.value) == Visit(cfg, world, old(history), order)
    {
      if !cfg.enabled {
        return Err(Unimplemented);
      }
      var services: seq<Service> := [];
      var remaining := cfg.services.Keys;
      ghost var order: seq<string> := [];
      while remaining != {}
        invariant remaining <= cfg.services.Keys
        invariant Unique(order)
        invariant forall id :: id in order <==> id in cfg.services && id !in remaining
        invariant (history, services) == Visit(cfg, world, old(history), order)
      {
        var id :| id in remaining;
        assert (order + [id])[..|order|] == order;
        order := order + [id];
        var mapping := cfg.services[id];
        var info := GetServiceInfo(mapping.systemdName);
        if info.Some? {
          services := services + [Entry(cfg, id, info.value)];
        }
        remaining := remaining - {id};
      }
      assert IsVisit(cfg, order);
      return Ok(services);
    }
  }
}
