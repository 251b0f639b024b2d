/**
 The data behind the gateway's client manager: the two maps and the ROS 2 bridge singleton,
 with a ledger of every connection ever opened and every `conn.Close()`. Each function is one
 assignment or call that the manager makes while it holds the write lock.
 */
module ConnectionStore {
  import opened Common

  datatype Target = Module(hostname: string) | Bridge

  /** The generated client stubs over connection number `conn`; made once per connection. */
  datatype Clients = Clients(conn: nat)

  datatype Config = Config(modules: set<string>, bridgeEnabled: bool)

  /** `epoch` counts the completed `Close` calls. */
  datatype Connection = Connection(target: Target, epoch: nat)

  datatype Lookup = Lookup(target: Target, epoch: nat, clients: Clients)

  datatype Store = Store(
    connections: map<string, nat>, clients: map<string, Clients>,
    bridgeConn: Option<nat>, bridge: Option<Clients>,
    dialed: seq<Connection>, closes: seq<nat>, epoch: nat, lookups: seq<Lookup>)

  /** How far the holder of the write lock has come. */
  datatype Section =
    | Quiet
    | Dialed(target: Target, conn: nat)
    | Stored(target: Target, conn: nat)
    | Closing(remaining: set<string>)
    | ClosingBridge
    | Resetting(fields: nat)

  const EMPTY: Store := Store(map[], map[], None, None, [], [], 0, [])

  predicate Configured(cfg: Config, t: Target) {
    if t.Module? then t.hostname in cfg.modules else cfg.bridgeEnabled
  }

  function ConnAt(st: Store, t: Target): Option<nat> {
    match t
    case Module(h) => if h in st.connections then Some(st.connections[h]) else None
    case Bridge => st.bridgeConn
  }

  function ClientsAt(st: Store, t: Target): Option<Clients> {
    match t
    case Module(h) => if h in st.clients then Some(st.clients[h]) else None
    case Bridge => st.bridge
  }

  /** `grpc.NewClient` succeeds. */
  function Dial(st: Store, t: Target): Store {
    st.(dialed := st.dialed + [Connection(t, st.epoch)])
  }

  function WithConn(st: Store, t: Target, c: nat): Store {
    match t
    case Module(h) => st.(connections := st.connections[h := c])
    case Bridge => st.(bridgeConn := Some(c))
  }

  function WithClients(st: Store, t: Target, clients: Clients): Store {
    match t
    case Module(h) => st.(clients := st.clients[h := clients])
    case Bridge => st.(bridge := Some(clients))
  }

  function Return(st: Store, t: Target, clients: Clients): Store {
    st.(lookups := st.lookups + [Lookup(t, st.epoch, clients)])
  }

  function CloseConn(st: Store, c: nat): Store {
    st.(closes := st.closes + [c])
  }

  /** `Close` resets the four fields one after the other; with the last one a new epoch begins. */
  function ResetField(st: Store, k: nat): Store {
    if k == 0 then st.(connections := map[])
    else if k == 1 then st.(clients := map[])
    else if k == 2 then st.(bridgeConn := None)
    else st.(bridge := None, epoch := st.epoch + 1)
  }

  /** The section that creates clients, run in one go. */
  function Create(cfg: Config, st: Store, t: Target, dials: bool): (Store, Option<Clients>) {
    if ClientsAt(st, t).Some? then (Return(st, t, ClientsAt(st, t).value), ClientsAt(st, t))
    else if !Configured(cfg, t) || !dials then (st, None)
    else
      var made := Clients(|st.dialed|);
      (Return(WithClients(WithConn(Dial(st, t), t, made.conn), t, made), t, made), Some(made))
  }

  // ---- The invariant ----

  ghost function Closes(closes: seq<nat>, c: nat): nat {
    multiset(closes)[c]
  }

  /** Each target is dialed at most once per epoch, and every connection of an earlier epoch was closed once. */
  ghost predicate Ledger(st: Store) {
    && (forall c, d :: 0 <= c < d < |st.dialed| ==> st.dialed[c] != st.dialed[d])
    && (forall c :: 0 <= c < |st.dialed| ==> st.dialed[c].epoch <= st.epoch)
    && (forall c :: 0 <= c < |st.dialed| && st.dialed[c].epoch < st.epoch ==> Closes(st.closes, c) == 1)
    && (forall c: nat :: Closes(st.closes, c) > 0 ==> c < |st.dialed|)
  }

  /** A lookup returned the connection dialed for that target in that epoch. */
  ghost predicate Faithful(st: Store) {
    forall i :: 0 <= i < |st.lookups| ==>
      && st.lookups[i].clients.conn < |st.dialed|
      && st.dialed[st.lookups[i].clients.conn] == Connection(st.lookups[i].target, st.lookups[i].epoch)
  }

  /** What is stored under a target was dialed for it in this epoch. */
  ghost predicate Filed(cfg: Config, st: Store) {
    && (forall t :: ConnAt(st, t).Some? ==>
         Configured(cfg, t) && ConnAt(st, t).value < |st.dialed| && st.dialed[ConnAt(st, t).value] == Connection(t, st.epoch))
    && (forall t :: ClientsAt(st, t).Some? ==>
         Configured(cfg, t) && ClientsAt(st, t).value.conn < |st.dialed|
         && st.dialed[ClientsAt(st, t).value.conn] == Connection(t, st.epoch))
  }

  /** How often a connection of this epoch has been closed at this point of the section. */
  function DueCloses(p: Section, t: Target): nat {
    match p
    case Closing(remaining) => if t.Module? && t.hostname !in remaining then 1 else 0
    case ClosingBridge => if t.Module? then 1 else 0
    case Resetting(_) => 1
    case _ => 0
  }

  ghost predicate Accounted(st: Store, p: Section) {
    forall c :: 0 <= c < |st.dialed| && st.dialed[c].epoch == st.epoch ==>
      Closes(st.closes, c) == DueCloses(p, st.dialed[c].target)
  }

  /** Every connection of this epoch is stored under its target, but for the one just dialed. */
  ghost predicate Stowed(st: Store, p: Section) {
    p.Resetting? ||
    forall c :: 0 <= c < |st.dialed| && st.dialed[c].epoch == st.epoch && p != Dialed(st.dialed[c].target, c) ==>
      ConnAt(st, st.dialed[c].target) == Some(c)
  }

  /** The stubs are those of the stored connection, but for the moment between the two assignments. */
  ghost predicate Paired(st: Store, p: Section) {
    p.Resetting? ||
    forall t ::
      if p.Stored? && p.target == t then ClientsAt(st, t) == None
      else ClientsAt(st, t) == if ConnAt(st, t).Some? then Some(Clients(ConnAt(st, t).value)) else None
  }

  ghost predicate Located(cfg: Config, st: Store, p: Section) {
    match p
    case Quiet => true
    case Dialed(t, c) => Configured(cfg, t) && c < |st.dialed| && st.dialed[c] == Connection(t, st.epoch) && ConnAt(st, t) == None
    case Stored(t, c) => ConnAt(st, t) == Some(c)
    case Closing(remaining) => remaining <= st.connections.Keys
    case ClosingBridge => true
    case Resetting(k) =>
      && k <= 3
      && (k > 0 ==> st.connections == map[])
      && (k > 1 ==> st.clients == map[])
      && (k > 2 ==> st.bridgeConn == None)
  }

  ghost predicate Inv(cfg: Config, st: Store, p: Section) {
    && Ledger(st) && Faithful(st) && Filed(cfg, st)
    && Accounted(st, p) && Stowed(st, p) && Paired(st, p) && Located(cfg, st, p)
  }

  lemma EmptyInv(cfg: Config)
    ensures Inv(cfg, EMPTY, Quiet)
  {
  }

  lemma ReturnKeepsInv(cfg: Config, st: Store, t: Target)
    requires Inv(cfg, st, Quiet) && ClientsAt(st, t).Some?
    ensures Inv(cfg, Return(st, t, ClientsAt(st, t).value), Quiet)
  {
    var next := Return(st, t, ClientsAt(st, t).value);
    assert forall u :: ConnAt(next, u) == ConnAt(st, u) && ClientsAt(next, u) == ClientsAt(st, u);
  }

  /** The double check under the write lock is what keeps a target from being dialed twice. */
  lemma DialKeepsInv(cfg: Config, st: Store, t: Target)
    requires Inv(cfg, st, Quiet) && Configured(cfg, t) && ClientsAt(st, t) == None
    ensures Inv(cfg, Dial(st, t), Dialed(t, |st.dialed|))
  {
    var next := Dial(st, t);
    assert forall u :: ConnAt(next, u) == ConnAt(st, u) && ClientsAt(next, u) == ClientsAt(st, u);
    assert ConnAt(st, t) == None;
    assert forall c :: 0 <= c < |st.dialed| && st.dialed[c].epoch == st.epoch ==> ConnAt(st, st.dialed[c].target) == Some(c);
    assert forall c :: 0 <= c < |st.dialed| ==> st.dialed[c] != Connection(t, st.epoch);
  }

  lemma StoreConnKeepsInv(cfg: Config, st: Store, t: Target, c: nat)
    requires Inv(cfg, st, Dialed(t, c))
    ensures Inv(cfg, WithConn(st, t, c), Stored(t, c))
  {
    var next := WithConn(st, t, c);
    assert forall u :: ConnAt(next, u) == (if u == t then Some(c) else ConnAt(st, u)) && ClientsAt(next, u) == ClientsAt(st, u);
  }

  lemma StoreClientsKeepsInv(cfg: Config, st: Store, t: Target, c: nat)
    requires Inv(cfg, st, Stored(t, c))
    ensures Inv(cfg, WithClients(st, t, Clients(c)), Quiet)
    ensures ClientsAt(WithClients(st, t, Clients(c)), t) == Some(Clients(c))
  {
    var next := WithClients(st, t, Clients(c));
    assert forall u :: ConnAt(next, u) == ConnAt(st, u);
    assert forall u :: ClientsAt(next, u) == if u == t then Some(Clients(c)) else ClientsAt(st, u);
  }

  lemma CloseCount(st: Store, c: nat, d: nat)
    ensures Closes(st.closes + [c], d) == Closes(st.closes, d) + if c == d then 1 else 0
  {
    assert multiset(st.closes + [c]) == multiset(st.closes) + multiset{c};
  }

  /** Closing the connection of one target changes the count of no other connection. */
  lemma CloseConnKeepsInv(cfg: Config, st: Store, p: Section, t: Target, q: Section)
    requires Inv(cfg, st, p) && ConnAt(st, t).Some? && (p.Closing? || p.ClosingBridge?) && DueCloses(p, t) == 0
    requires DueCloses(q, t) == 1 && forall u :: u != t && ConnAt(st, u).Some? ==> DueCloses(q, u) == DueCloses(p, u)
    requires Located(cfg, CloseConn(st, ConnAt(st, t).value), q) && !q.Dialed? && !q.Stored?
    ensures Inv(cfg, CloseConn(st, ConnAt(st, t).value), q)
  {
    var c := ConnAt(st, t).value;
    var next := CloseConn(st, c);
    assert forall u :: ConnAt(next, u) == ConnAt(st, u) && ClientsAt(next, u) == ClientsAt(st, u);
    forall d ensures Closes(next.closes, d) == Closes(st.closes, d) + if c == d then 1 else 0 {
      CloseCount(st, c, d);
    }
    forall d | 0 <= d < |st.dialed| && st.dialed[d].epoch == st.epoch
      ensures Closes(next.closes, d) == DueCloses(q, st.dialed[d].target)
    {
      assert ConnAt(st, st.dialed[d].target) == Some(d);
    }
  }

  lemma CloseStepKeepsInv(cfg: Config, st: Store, remaining: set<string>, pick: string)
    requires Inv(cfg, st, Closing(remaining))
    ensures remaining == {} ==> Inv(cfg, st, ClosingBridge)
    ensures pick in remaining ==> pick in st.connections && Inv(cfg, CloseConn(st, st.connections[pick]), Closing(remaining - {pick}))
  {
    if pick in remaining {
      CloseConnKeepsInv(cfg, st, Closing(remaining), Module(pick), Closing(remaining - {pick}));
    }
  }

  lemma CloseBridgeKeepsInv(cfg: Config, st: Store)
    requires Inv(cfg, st, ClosingBridge)
    ensures Inv(cfg, if st.bridgeConn.Some? then CloseConn(st, st.bridgeConn.value) else st, Resetting(0))
  {
    if st.bridgeConn.Some? {
      CloseConnKeepsInv(cfg, st, ClosingBridge, Bridge, Resetting(0));
    } else {
      forall c | 0 <= c < |st.dialed| && st.dialed[c].epoch == st.epoch ensures Closes(st.closes, c) == 1 {
        assert ConnAt(st, st.dialed[c].target) == Some(c);
      }
    }
  }

  lemma ResetKeepsFiled(cfg: Config, st: Store, k: nat)
    requires k < 3 && Filed(cfg, st)
    ensures Filed(cfg, ResetField(st, k))
  {
    var next := ResetField(st, k);
    assert forall u :: ConnAt(next, u).Some? ==> ConnAt(next, u) == ConnAt(st, u);
    assert forall u :: ClientsAt(next, u).Some? ==> ClientsAt(next, u) == ClientsAt(st, u);
  }

  /** While the fields are being reset, what is stored no longer matters. */
  lemma ResetFieldKeepsInv(cfg: Config, st: Store, k: nat)
    requires k < 3 && Inv(cfg, st, Resetting(k))
    ensures Inv(cfg, ResetField(st, k), Resetting(k + 1))
  {
    ResetKeepsFiled(cfg, st, k);
  }

  /** With the last field a new epoch begins, in which nothing is stored and nothing is open. */
  lemma ResetLastKeepsInv(cfg: Config, st: Store)
    requires Inv(cfg, st, Resetting(3))
    ensures Inv(cfg, ResetField(st, 3), Quiet)
  {
    var next := ResetField(st, 3);
    assert forall u :: ConnAt(next, u) == None && ClientsAt(next, u) == None;
  }

  lemma ResetKeepsInv(cfg: Config, st: Store, k: nat)
    requires k <= 3 && Inv(cfg, st, Resetting(k))
    ensures Inv(cfg, ResetField(st, k), if k < 3 then Resetting(k + 1) else Quiet)
  {
    if k < 3 {
      ResetFieldKeepsInv(cfg, st, k);
    } else {
      ResetLastKeepsInv(cfg, st);
    }
  }

  lemma CreateKeepsInv(cfg: Config, st: Store, t: Target, dials: bool)
    requires Inv(cfg, st, Quiet)
    ensures Inv(cfg, Create(cfg, st, t, dials).0, Quiet)
  {
    if ClientsAt(st, t).Some? {
      ReturnKeepsInv(cfg, st, t);
    } else if Configured(cfg, t) && dials {
      var c := |st.dialed|;
      DialKeepsInv(cfg, st, t);
      StoreConnKeepsInv(cfg, Dial(st, t), t, c);
      var stored := WithConn(Dial(st, t), t, c);
      StoreClientsKeepsInv(cfg, stored, t, c);
      ReturnKeepsInv(cfg, WithClients(stored, t, Clients(c)), t);
    }
  }

  predicate Known(cfg: Config, t: Target) {
    match t
    case Module(h) => h in cfg.modules
    case Bridge => cfg.bridgeEnabled
  }

  /** Clients of a target are those stored under it, over a connection opened for it in this period. */
  ghost predicate Serves(st: Store, t: Target, x: Clients) {
    && x.conn < |st.dialed| && st.dialed[x.conn] == Connection(t, st.epoch)
    && (match t
        case Module(h) => h in st.clients && st.clients[h] == x && h in st.connections && st.connections[h] == x.conn
        case Bridge => st.bridge == Some(x) && st.bridgeConn == Some(x.conn))
  }

  ghost predicate IsStored(st: Store, t: Target) {
    match t
    case Module(h) => h in st.clients
    case Bridge => st.bridge.Some?
  }

  /**
   What a lookup returns to its caller: clients exactly if some were stored or the target is
   configured and can be dialed; they serve the target asked for, from now on stored under it,
   and this is recorded. A target is dialed exactly if nothing was stored.
   */
  lemma CreateReturnsItsOwn(cfg: Config, st: Store, t: Target, dials: bool)
    requires Inv(cfg, st, Quiet)
    ensures var (after, r) := Create(cfg, st, t, dials);
      && (r.Some? <==> IsStored(st, t) || (Known(cfg, t) && dials))
      && (r.Some? ==> Serves(after, t, r.value) && after.lookups == st.lookups + [Lookup(t, st.epoch, r.value)])
      && (r.None? ==> after == st)
      && (IsStored(st, t) ==> Serves(st, t, r.value) && after.dialed == st.dialed)
      && (r.Some? && !IsStored(st, t) ==> after.dialed == st.dialed + [Connection(t, st.epoch)])
      && after.epoch == st.epoch && after.closes == st.closes
  {
    if ClientsAt(st, t).Some? {
      StoredServes(cfg, st, t);
    }
  }

  lemma StoredServes(cfg: Config, st: Store, t: Target)
    requires Inv(cfg, st, Quiet) && ClientsAt(st, t).Some?
    ensures Serves(st, t, ClientsAt(st, t).value)
  {
    assert Paired(st, Quiet) && Filed(cfg, st);
    assert ClientsAt(st, t) == if ConnAt(st, t).Some? then Some(Clients(ConnAt(st, t).value)) else None;
  }

  /** What is left of `Close` once the connections of the modules are closed. */
  function TearDown(st: Store): Store {
    var bridgeClosed := if st.bridgeConn.Some? then CloseConn(st, st.bridgeConn.value) else st;
    ResetField(ResetField(ResetField(ResetField(bridgeClosed, 0), 1), 2), 3)
  }

  lemma TearDownKeepsInv(cfg: Config, st: Store)
    requires Inv(cfg, st, Closing({}))
    ensures Inv(cfg, TearDown(st), Quiet)
  {
    CloseStepKeepsInv(cfg, st, {}, "");
    CloseBridgeKeepsInv(cfg, st);
    var s0 := if st.bridgeConn.Some? then CloseConn(st, st.bridgeConn.value) else st;
    ResetKeepsInv(cfg, s0, 0);
    ResetKeepsInv(cfg, ResetField(s0, 0), 1);
    ResetKeepsInv(cfg, ResetField(ResetField(s0, 0), 1), 2);
    ResetKeepsInv(cfg, ResetField(ResetField(ResetField(s0, 0), 1), 2), 3);
  }

  /** With nobody in a section, a connection counts as closed once exactly if it is not stored. */
  lemma ClosedUnlessStored(cfg: Config, st: Store)
    requires Inv(cfg, st, Quiet)
    ensures forall c :: 0 <= c < |st.dialed| ==>
      Closes(st.closes, c) == if ConnAt(st, st.dialed[c].target) == Some(c) then 0 else 1
  {
    forall c | 0 <= c < |st.dialed|
      ensures Closes(st.closes, c) == if ConnAt(st, st.dialed[c].target) == Some(c) then 0 else 1
    {
      if st.dialed[c].epoch == st.epoch {
        assert ConnAt(st, st.dialed[c].target) == Some(c);
      } else {
        assert forall t :: ConnAt(st, t) != Some(c);
      }
    }
  }

  lemma TearDownForgets(st: Store)
    ensures TearDown(st) == EMPTY.(dialed := st.dialed, closes := TearDown(st).closes, epoch := st.epoch + 1, lookups := st.lookups)
  {
  }

  /** From the closed connections of the modules to the end of `Close`: one more close for everything stored. */
  lemma TornDown(cfg: Config, before: Store, middle: Store)
    requires Inv(cfg, before, Quiet) && Inv(cfg, middle, Closing({})) && middle == before.(closes := middle.closes)
    ensures Inv(cfg, TearDown(middle), Quiet)
    ensures forall c :: 0 <= c < |before.dialed| ==>
      Closes(TearDown(middle).closes, c)
      == Closes(before.closes, c) + (if ConnAt(before, before.dialed[c].target) == Some(c) then 1 else 0)
  {
    ClosedUnlessStored(cfg, before);
    TearDownKeepsInv(cfg, middle);
    TearDownForgets(middle);
    ClosedUnlessStored(cfg, TearDown(middle));
  }

  /** When a goroutine starts tearing down, everything stored is open. */
  lemma ShutdownBegins(cfg: Config, st: Store)
    requires Inv(cfg, st, Quiet)
    ensures Inv(cfg, st, Closing(st.connections.Keys))
  {
    forall c | 0 <= c < |st.dialed| && st.dialed[c].epoch == st.epoch
      ensures DueCloses(Closing(st.connections.Keys), st.dialed[c].target) == 0
    {
      assert ConnAt(st, st.dialed[c].target) == Some(c);
    }
  }
}
