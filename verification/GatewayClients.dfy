/** The client manager as one goroutine sees it: each locked section, field by field. */
module GatewayClients {
  import opened Common
  import opened ConnectionStore

  class ClientManager {
    const cfg: Config
    var connections: map<string, nat>
    var clients: map<string, Clients>
    var ros2BridgeConn: Option<nat>
    var ros2Bridge: Option<Clients>

    // The ledger: what has been dialed, closed and returned so far.
    var dialed: seq<Connection>
    var closes: seq<nat>
    var epoch: nat
    var lookups: seq<Lookup>

    ghost function Snapshot(): Store
      reads this
    {
      Store(connections, clients, ros2BridgeConn, ros2Bridge, dialed, closes, epoch, lookups)
    }

    ghost predicate Valid()
      reads this
    {
      Inv(cfg, Snapshot(), Quiet)
    }

    constructor (cfg: Config)
      ensures Valid() && this.cfg == cfg && Snapshot() == EMPTY
    {
      this.cfg := cfg;
      connections, clients := map[], map[];
      ros2BridgeConn, ros2Bridge := None, None;
      dialed, closes, epoch, lookups := [], [], 0, [];
      new;
      EmptyInv(cfg);
    }

    /** `dials` says whether `grpc.NewClient` will succeed. */
    method CreateModuleClients(hostname: string, dials: bool) returns (r: Option<Clients>)
      requires Valid()
      modifies this
      ensures Valid()
      ensures (Snapshot(), r) == Create(cfg, old(Snapshot()), Module(hostname), dials)
      ensures r.Some? <==> hostname in old(clients) || (hostname in cfg.modules && dials)
      ensures r.Some? ==> Serves(Snapshot(), Module(hostname), r.value)
    {
      CreateReturnsItsOwn(cfg, Snapshot(), Module(hostname), dials);
      CreateKeepsInv(cfg, Snapshot(), Module(hostname), dials);
      if hostname in clients {
        lookups := lookups + [Lookup(Module(hostname), epoch, clients[hostname])];
        return Some(clients[hostname]);
      }
      if hostname !in cfg.modules || !dials {
        return None;
      }
      var conn := |dialed|;
      dialed := dialed + [Connection(Module(hostname), epoch)];
      connections := connections[hostname := conn];
      clients := clients[hostname := Clients(conn)];
      lookups := lookups + [Lookup(Module(hostname), epoch, Clients(conn))];
      r := Some(Clients(conn));
    }

    /** The read-locked fast path changes nothing about the result. */
    method GetModuleClients(hostname: string, dials: bool) returns (r: Option<Clients>)
      requires Valid()
      modifies this
      ensures Valid()
      ensures (Snapshot(), r) == Create(cfg, old(Snapshot()), Module(hostname), dials)
      ensures r.Some? <==> hostname in old(clients) || (hostname in cfg.modules && dials)
      ensures r.Some? ==> Serves(Snapshot(), Module(hostname), r.value)
    {
      if hostname in clients {
        CreateReturnsItsOwn(cfg, Snapshot(), Module(hostname), dials);
        CreateKeepsInv(cfg, Snapshot(), Module(hostname), dials);
        lookups := lookups + [Lookup(Module(hostname), epoch, clients[hostname])];
        return Some(clients[hostname]);
      }
      r := CreateModuleClients(hostname, dials);
    }

    /** Here the configuration is consulted before the write lock is taken. */
    method GetRos2BridgeClients(dials: bool) returns (r: Option<Clients>)
      requires Valid()
      modifies this
      ensures Valid()
      ensures (Snapshot(), r) == Create(cfg, old(Snapshot()), Bridge, dials)
      ensures r.Some? <==> old(ros2Bridge).Some? || (cfg.bridgeEnabled && dials)
      ensures r.Some? ==> Serves(Snapshot(), Bridge, r.value)
    {
      CreateReturnsItsOwn(cfg, Snapshot(), Bridge, dials);
      CreateKeepsInv(cfg, Snapshot(), Bridge, dials);
      if ros2Bridge.Some? {
        lookups := lookups + [Lookup(Bridge, epoch, ros2Bridge.value)];
        return ros2Bridge;
      }
      if !cfg.bridgeEnabled || !dials {
        return None;
      }
      var conn := |dialed|;
      dialed := dialed + [Connection(Bridge, epoch)];
      ros2BridgeConn := Some(conn);
      ros2Bridge := Some(Clients(conn));
      lookups := lookups + [Lookup(Bridge, epoch, Clients(conn))];
      r := ros2Bridge;
    }

    /** Closes exactly the stored connections, each once, in some order, and forgets them. */
    method Close()
      requires Valid()
      modifies this
      ensures Valid()
      ensures connections == map[] && clients == map[] && ros2BridgeConn == None && ros2Bridge == None
      ensures dialed == old(dialed) && lookups == old(lookups) && epoch == old(epoch) + 1
      ensures forall c :: 0 <= c < |dialed| ==>
        Closes(closes, c) == old(Closes(closes, c)) + if old(ConnAt(Snapshot(), dialed[c].target)) == Some(c) then 1 else 0
    {
      ghost var before := Snapshot();
      ShutdownBegins(cfg, before);
      CloseModules();
      ghost var middle := Snapshot();
      CloseRest();
      TornDown(cfg, before, middle);
      TearDownForgets(middle);
    }

    /** The rest of `Close`: the bridge connection and the four fields. */
    method CloseRest()
      modifies this
      ensures Snapshot() == TearDown(old(Snapshot()))
    {
      if ros2BridgeConn.Some? {
        closes := closes + [ros2BridgeConn.value];
      }
      connections := map[];
      clients := map[];
      ros2BridgeConn := None;
      ros2Bridge, epoch := None, epoch + 1;
    }

    /** The loop of `Close` over the map of module connections. */
    method CloseModules()
      requires Inv(cfg, Snapshot(), Closing(connections.Keys))
      modifies this`closes
      ensures Snapshot() == old(Snapshot()).(closes := closes)
      ensures Inv(cfg, Snapshot(), Closing({}))
    {
      var remaining := connections.Keys;
      while remaining != {}
        invariant Inv(cfg, Snapshot(), Closing(remaining))
      {
        var hostname :| hostname in remaining;
        CloseStepKeepsInv(cfg, Snapshot(), remaining, hostname);
        closes := closes + [connections[hostname]];
        remaining := remaining - {hostname};
      }
    }
  }
}
