/**
 The gateway's client manager under concurrency: any number of request goroutines look up
 clients or call `Close`, interleaved at every lock operation and every assignment.
 */
module ClientManager {
  import opened Common
  import opened ConnectionStore

  /** Where one goroutine stands in `GetModuleClients`, `GetROS2BridgeClients` or `Close`. */
  datatype Pc =
    | Idle
    | Looking(target: Target)                            // before RLock
    | Reading(target: Target)                            // holds the read lock
    | Read(target: Target, found: Option<Clients>)       // still holds it, has read the field
    | Missed(target: Target)                             // before Lock
    | Checking(target: Target)                           // holds the write lock, as all below
    | Creating(section: Section)                         // Dialed or Stored
    | Shutting                                           // `Close`, before Lock
    | Tearing(section: Section)                          // Closing, ClosingBridge or Resetting
    | Leaving                                            // before Unlock

  /** `readers` and `writer` are the holders of the RWMutex. */
  datatype State = State(store: Store, threads: seq<Pc>, writer: Option<nat>, readers: set<nat>)

  /** `dials` is the outcome of `grpc.NewClient`, `pick` the next key of Go's map iteration. */
  datatype Action = Lookup(thread: nat, target: Target) | Shutdown(thread: nat) | Step(thread: nat, dials: bool, pick: string)

  function Init(threads: nat): State {
    State(EMPTY, seq(threads, _ => Idle), None, {})
  }

  predicate HoldsRead(pc: Pc) {
    pc.Reading? || pc.Read?
  }

  predicate HoldsWrite(pc: Pc) {
    pc.Checking? || pc.Creating? || pc.Tearing? || pc.Leaving?
  }

  /** One step of the holder of the write lock: the store, and where the goroutine goes on. */
  function LockedStep(cfg: Config, st: Store, pc: Pc, dials: bool, pick: string): Option<(Store, Pc)> {
    match pc
    case Checking(t) =>
      if ClientsAt(st, t).Some? then Some((Return(st, t, ClientsAt(st, t).value), Leaving))
      else if !Configured(cfg, t) || !dials then Some((st, Leaving))
      else Some((Dial(st, t), Creating(Dialed(t, |st.dialed|))))
    case Creating(Dialed(t, c)) => Some((WithConn(st, t, c), Creating(Stored(t, c))))
    case Creating(Stored(t, c)) => Some((Return(WithClients(st, t, Clients(c)), t, Clients(c)), Leaving))
    case Tearing(Closing(remaining)) =>
      if remaining == {} then Some((st, Tearing(ClosingBridge)))
      else if pick in remaining && pick in st.connections then
        Some((CloseConn(st, st.connections[pick]), Tearing(Closing(remaining - {pick}))))
      else None
    case Tearing(ClosingBridge) =>
      Some((if st.bridgeConn.Some? then CloseConn(st, st.bridgeConn.value) else st, Tearing(Resetting(0))))
    case Tearing(Resetting(k)) => Some((ResetField(st, k), if k < 3 then Tearing(Resetting(k + 1)) else Leaving))
    case _ => None
  }

  function Goto(s: State, i: nat, pc: Pc): State
    requires i < |s.threads|
  {
    s.(threads := s.threads[i := pc])
  }

  function ThreadStep(cfg: Config, s: State, i: nat, dials: bool, pick: string): Option<State>
    requires i < |s.threads|
  {
    match s.threads[i]
    case Idle => None
    case Looking(t) => if s.writer == None then Some(Goto(s, i, Reading(t)).(readers := s.readers + {i})) else None
    case Reading(t) =>
      var found := ClientsAt(s.store, t);
      Some(Goto(s, i, Read(t, found)).(store := if found.Some? then Return(s.store, t, found.value) else s.store))
    case Read(t, found) => Some(Goto(s, i, if found.Some? then Idle else Missed(t)).(readers := s.readers - {i}))
    case Missed(t) =>
      if t.Bridge? && !cfg.bridgeEnabled then Some(Goto(s, i, Idle))
      else if s.writer == None && s.readers == {} then Some(Goto(s, i, Checking(t)).(writer := Some(i)))
      else None
    case Shutting =>
      if s.writer == None && s.readers == {} then
        Some(Goto(s, i, Tearing(Closing(s.store.connections.Keys))).(writer := Some(i)))
      else None
    case Leaving => Some(Goto(s, i, Idle).(writer := None))
    case pc =>
      var r := LockedStep(cfg, s.store, pc, dials, pick);
      if r.None? then None else Some(Goto(s, i, r.value.1).(store := r.value.0))
  }

  function Next(cfg: Config, s: State, a: Action): Option<State> {
    if a.thread >= |s.threads| then None
    else
      match a
      case Lookup(i, t) => if s.threads[i].Idle? then Some(Goto(s, i, Looking(t))) else None
      case Shutdown(i) => if s.threads[i].Idle? then Some(Goto(s, i, Shutting)) else None
      case Step(i, dials, pick) => ThreadStep(cfg, s, i, dials, pick)
  }

  function Run(cfg: Config, s: State, run: seq<Action>): Option<State>
    decreases |run|
  {
    if run == [] then Some(s)
    else
      match Next(cfg, s, run[0])
      case None => None
      case Some(t) => Run(cfg, t, run[1..])
  }

  ghost predicate Reachable(cfg: Config, s: State) {
    exists threads: nat, run :: Run(cfg, Init(threads), run) == Some(s)
  }

  // ---- The invariant ----

  /** The mutex does what a mutex does. */
  ghost predicate Locked(s: State) {
    && (forall i :: 0 <= i < |s.threads| ==> (HoldsWrite(s.threads[i]) <==> s.writer == Some(i)))
    && (forall i :: 0 <= i < |s.threads| ==> (HoldsRead(s.threads[i]) <==> i in s.readers))
    && (s.writer.Some? ==> s.writer.value < |s.threads| && s.readers == {})
    && (forall i :: i in s.readers ==> i < |s.threads|)
  }

  predicate ProperPc(pc: Pc) {
    && (pc.Creating? ==> pc.section.Dialed? || pc.section.Stored?)
    && (pc.Tearing? ==> pc.section.Closing? || pc.section.ClosingBridge? || pc.section.Resetting?)
  }

  function SectionOf(pc: Pc): Section {
    if pc.Creating? || pc.Tearing? then pc.section else Quiet
  }

  function CurrentSection(s: State): Section {
    if s.writer.Some? && s.writer.value < |s.threads| then SectionOf(s.threads[s.writer.value]) else Quiet
  }

  ghost predicate SysInv(cfg: Config, s: State) {
    && Locked(s)
    && (forall i :: 0 <= i < |s.threads| ==> ProperPc(s.threads[i]))
    && Inv(cfg, s.store, CurrentSection(s))
  }

  lemma InitInv(cfg: Config, threads: nat)
    ensures SysInv(cfg, Init(threads))
  {
    EmptyInv(cfg);
  }

  lemma CreatingKeepsInv(cfg: Config, st: Store, pc: Pc, dials: bool)
    requires pc.Checking? || pc.Creating?
    requires Inv(cfg, st, SectionOf(pc)) && ProperPc(pc)
    ensures var r := LockedStep(cfg, st, pc, dials, "").value;
      Inv(cfg, r.0, SectionOf(r.1)) && ProperPc(r.1) && HoldsWrite(r.1)
  {
    match pc
    case Checking(t) =>
      if ClientsAt(st, t).Some? {
        ReturnKeepsInv(cfg, st, t);
      } else if Configured(cfg, t) && dials {
        DialKeepsInv(cfg, st, t);
      }
    case Creating(Dialed(t, c)) => StoreConnKeepsInv(cfg, st, t, c);
    case Creating(Stored(t, c)) =>
      StoreClientsKeepsInv(cfg, st, t, c);
      ReturnKeepsInv(cfg, WithClients(st, t, Clients(c)), t);
  }

  lemma TearingKeepsInv(cfg: Config, st: Store, p: Section, pick: string)
    requires Inv(cfg, st, p) && ProperPc(Tearing(p))
    requires LockedStep(cfg, st, Tearing(p), false, pick).Some?
    ensures var r := LockedStep(cfg, st, Tearing(p), false, pick).value;
      Inv(cfg, r.0, SectionOf(r.1)) && ProperPc(r.1) && HoldsWrite(r.1)
  {
    match p
    case Closing(remaining) => CloseStepKeepsInv(cfg, st, remaining, pick);
    case ClosingBridge => CloseBridgeKeepsInv(cfg, st);
    case Resetting(k) => ResetKeepsInv(cfg, st, k);
  }

  lemma LockedStepKeepsInv(cfg: Config, st: Store, pc: Pc, dials: bool, pick: string)
    requires Inv(cfg, st, SectionOf(pc)) && ProperPc(pc)
    requires LockedStep(cfg, st, pc, dials, pick).Some?
    ensures var r := LockedStep(cfg, st, pc, dials, pick).value;
      Inv(cfg, r.0, SectionOf(r.1)) && ProperPc(r.1) && HoldsWrite(r.1)
  {
    if pc.Tearing? {
      TearingKeepsInv(cfg, st, pc.section, pick);
    } else {
      CreatingKeepsInv(cfg, st, pc, dials);
    }
  }

  /** A goroutine outside every critical section moves without the store or the mutex. */
  lemma OutsideStepKeepsInv(cfg: Config, s: State, i: nat, pc: Pc)
    requires SysInv(cfg, s) && i < |s.threads| && ProperPc(pc)
    requires !HoldsRead(s.threads[i]) && !HoldsWrite(s.threads[i]) && !HoldsRead(pc) && !HoldsWrite(pc)
    ensures SysInv(cfg, Goto(s, i, pc))
  {
    assert CurrentSection(Goto(s, i, pc)) == CurrentSection(s);
  }

  lemma ReadLockKeepsInv(cfg: Config, s: State, i: nat, t: Target)
    requires SysInv(cfg, s) && i < |s.threads| && s.threads[i] == Looking(t) && s.writer == None
    ensures SysInv(cfg, Goto(s, i, Reading(t)).(readers := s.readers + {i}))
  {
  }

  lemma ReadKeepsInv(cfg: Config, s: State, i: nat, t: Target)
    requires SysInv(cfg, s) && i < |s.threads| && s.threads[i] == Reading(t)
    ensures SysInv(cfg, ThreadStep(cfg, s, i, false, "").value)
  {
    assert i in s.readers;
    if ClientsAt(s.store, t).Some? {
      ReturnKeepsInv(cfg, s.store, t);
    }
  }

  lemma ReadUnlockKeepsInv(cfg: Config, s: State, i: nat, pc: Pc)
    requires SysInv(cfg, s) && i < |s.threads| && s.threads[i].Read? && ProperPc(pc)
    requires !HoldsRead(pc) && !HoldsWrite(pc)
    ensures SysInv(cfg, Goto(s, i, pc).(readers := s.readers - {i}))
  {
  }

  lemma LockKeepsInv(cfg: Config, s: State, i: nat, pc: Pc)
    requires SysInv(cfg, s) && i < |s.threads| && s.writer == None && s.readers == {}
    requires HoldsWrite(pc) && !HoldsRead(pc) && ProperPc(pc) && Inv(cfg, s.store, SectionOf(pc))
    ensures SysInv(cfg, Goto(s, i, pc).(writer := Some(i)))
  {
  }

  lemma UnlockKeepsInv(cfg: Config, s: State, i: nat)
    requires SysInv(cfg, s) && i < |s.threads| && s.threads[i] == Leaving
    ensures SysInv(cfg, Goto(s, i, Idle).(writer := None))
  {
  }

  lemma HolderStepKeepsInv(cfg: Config, s: State, i: nat, dials: bool, pick: string)
    requires SysInv(cfg, s) && i < |s.threads| && HoldsWrite(s.threads[i])
    requires LockedStep(cfg, s.store, s.threads[i], dials, pick).Some?
    ensures var r := LockedStep(cfg, s.store, s.threads[i], dials, pick).value;
      SysInv(cfg, Goto(s, i, r.1).(store := r.0))
  {
    assert s.writer == Some(i);
    LockedStepKeepsInv(cfg, s.store, s.threads[i], dials, pick);
  }

  lemma StepKeepsInv(cfg: Config, s: State, a: Action)
    requires SysInv(cfg, s) && Next(cfg, s, a).Some?
    ensures SysInv(cfg, Next(cfg, s, a).value)
  {
    var i := a.thread;
    match a
    case Lookup(_, t) => OutsideStepKeepsInv(cfg, s, i, Looking(t));
    case Shutdown(_) => OutsideStepKeepsInv(cfg, s, i, Shutting);
    case Step(_, dials, pick) =>
      match s.threads[i]
      case Idle =>
      case Looking(t) => ReadLockKeepsInv(cfg, s, i, t);
      case Reading(t) => ReadKeepsInv(cfg, s, i, t);
      case Read(t, found) => ReadUnlockKeepsInv(cfg, s, i, if found.Some? then Idle else Missed(t));
      case Missed(t) =>
        if t.Bridge? && !cfg.bridgeEnabled {
          OutsideStepKeepsInv(cfg, s, i, Idle);
        } else {
          LockKeepsInv(cfg, s, i, Checking(t));
        }
      case Shutting =>
        ShutdownBegins(cfg, s.store);
        LockKeepsInv(cfg, s, i, Tearing(Closing(s.store.connections.Keys)));
      case Leaving => UnlockKeepsInv(cfg, s, i);
      case _ => HolderStepKeepsInv(cfg, s, i, dials, pick);
  }

  lemma {:induction false} RunKeepsInv(cfg: Config, s: State, run: seq<Action>)
    requires SysInv(cfg, s) && Run(cfg, s, run).Some?
    ensures SysInv(cfg, Run(cfg, s, run).value)
    decreases |run|
  {
    if run != [] {
      StepKeepsInv(cfg, s, run[0]);
      RunKeepsInv(cfg, Next(cfg, s, run[0]).value, run[1..]);
    }
  }

  lemma ReachableInv(cfg: Config, s: State)
    requires Reachable(cfg, s)
    ensures SysInv(cfg, s)
  {
    var threads: nat, run :| Run(cfg, Init(threads), run) == Some(s);
    InitInv(cfg, threads);
    RunKeepsInv(cfg, Init(threads), run);
  }

  // ---- What every interleaving guarantees ----

  /** At most one goroutine writes, and nobody reads meanwhile. */
  lemma MutualExclusion(cfg: Config, s: State, i: nat, j: nat)
    requires Reachable(cfg, s) && i < |s.threads| && j < |s.threads| && i != j
    requires HoldsWrite(s.threads[i])
    ensures !HoldsWrite(s.threads[j]) && !HoldsRead(s.threads[j])
  {
    ReachableInv(cfg, s);
  }

  /**
   Conservation: whenever nobody holds the write lock, every connection ever opened either is
   stored under its own target and was never closed, or was closed exactly once and is stored
   nowhere. At no time, locked or not, has any connection been closed twice.
   */
  lemma ConnectionsAreConserved(cfg: Config, s: State, c: nat)
    requires Reachable(cfg, s) && c < |s.store.dialed|
    ensures Closes(s.store.closes, c) <= 1
    ensures s.writer == None ==>
      (Closes(s.store.closes, c) == 0 <==> exists t :: ConnAt(s.store, t) == Some(c))
    ensures s.writer == None ==>
      forall t :: ConnAt(s.store, t) == Some(c) ==> s.store.dialed[c] == Connection(t, s.store.epoch)
  {
    ReachableInv(cfg, s);
    if s.writer == None {
      if s.store.dialed[c].epoch == s.store.epoch {
        assert ConnAt(s.store, s.store.dialed[c].target) == Some(c);
      } else {
        assert forall t :: ConnAt(s.store, t) != Some(c);
      }
    }
  }

  /** Nothing is closed that was not opened. */
  lemma OnlyOpenedIsClosed(cfg: Config, s: State, c: nat)
    requires Reachable(cfg, s) && c in s.store.closes
    ensures c < |s.store.dialed|
  {
    ReachableInv(cfg, s);
    assert c in multiset(s.store.closes);
    assert Closes(s.store.closes, c) > 0;
  }

  /** The two maps and the two bridge fields agree whenever nobody holds the write lock. */
  lemma FieldsAgree(cfg: Config, s: State)
    requires Reachable(cfg, s) && s.writer == None
    ensures s.store.connections.Keys == s.store.clients.Keys <= cfg.modules
    ensures forall h :: h in s.store.clients ==> s.store.clients[h] == Clients(s.store.connections[h])
    ensures s.store.bridge.Some? <==> s.store.bridgeConn.Some?
    ensures s.store.bridge.Some? ==> cfg.bridgeEnabled && s.store.bridge.value == Clients(s.store.bridgeConn.value)
  {
    ReachableInv(cfg, s);
    var st := s.store;
    assert Paired(st, Quiet) && Filed(cfg, st);
    assert ClientsAt(st, Bridge) == if ConnAt(st, Bridge).Some? then Some(Clients(ConnAt(st, Bridge).value)) else None;
    assert ConnAt(st, Bridge).Some? ==> Configured(cfg, Bridge);
    forall h
      ensures h in st.connections <==> h in st.clients
      ensures h in st.clients ==> h in cfg.modules && h in st.connections && st.clients[h] == Clients(st.connections[h])
    {
      assert ClientsAt(st, Module(h)) == if ConnAt(st, Module(h)).Some? then Some(Clients(ConnAt(st, Module(h)).value)) else None;
      assert ConnAt(st, Module(h)).Some? ==> Configured(cfg, Module(h));
    }
  }

  /**
   Between two `Close` calls a target gets at most one connection, and all lookups of it that
   succeed return the same clients; those of an earlier period are stubs over a closed connection.
   */
  lemma OneConnectionPerEpoch(cfg: Config, s: State, i: nat, j: nat)
    requires Reachable(cfg, s) && i < |s.store.lookups| && j < |s.store.lookups|
    ensures var a, b := s.store.lookups[i], s.store.lookups[j];
      a.clients == b.clients <==> a.target == b.target && a.epoch == b.epoch
    ensures var a := s.store.lookups[i];
      a.epoch < s.store.epoch ==> Closes(s.store.closes, a.clients.conn) == 1
    ensures forall c, d :: 0 <= c < d < |s.store.dialed| ==> s.store.dialed[c] != s.store.dialed[d]
  {
    ReachableInv(cfg, s);
    var st, a, b := s.store, s.store.lookups[i], s.store.lookups[j];
    assert st.dialed[a.clients.conn] == Connection(a.target, a.epoch);
    assert st.dialed[b.clients.conn] == Connection(b.target, b.epoch);
    assert forall c, d :: 0 <= c < |st.dialed| && 0 <= d < |st.dialed| && st.dialed[c] == st.dialed[d] ==> c == d;
  }

  /** No interleaving of lock operations deadlocks: if anybody is in a call, somebody can move. */
  lemma NoDeadlock(cfg: Config, s: State, i: nat)
    requires Reachable(cfg, s) && i < |s.threads| && !s.threads[i].Idle?
    ensures exists a: Action :: a.Step? && Next(cfg, s, a).Some?
  {
    ReachableInv(cfg, s);
    var j, pick := i, "";
    if s.writer.Some? {
      j := s.writer.value;
      if s.threads[j].Tearing? && s.threads[j].section.Closing? && s.threads[j].section.remaining != {} {
        pick :| pick in s.threads[j].section.remaining;
      }
      assert HoldsWrite(s.threads[j]);
    } else if s.readers != {} {
      j :| j in s.readers;
      assert HoldsRead(s.threads[j]);
    }
    assert Next(cfg, s, Step(j, true, pick)).Some?;
  }

  /**
   The read-locked fast path finds clients exactly if some are stored; they serve the target asked
   for, and the answer is recorded.
   */
  lemma FastPathAnswers(cfg: Config, s: State, i: nat, t: Target, a: Action)
    requires Reachable(cfg, s) && i < |s.threads| && s.threads[i] == Reading(t) && a.thread == i && Next(cfg, s, a).Some?
    ensures var s' := Next(cfg, s, a).value;
      && s'.threads[i].Read? && s'.threads[i].target == t
      && (s'.threads[i].found.Some? <==> IsStored(s.store, t))
      && (s'.threads[i].found.Some? ==>
           && Serves(s'.store, t, s'.threads[i].found.value)
           && s'.store.lookups == s.store.lookups + [ConnectionStore.Lookup(t, s.store.epoch, s'.threads[i].found.value)])
      && (s'.threads[i].found.None? ==> s'.store == s.store)
  {
    ReachableInv(cfg, s);
    assert i in s.readers;
    if ClientsAt(s.store, t).Some? {
      StoredServes(cfg, s.store, t);
    }
  }

  // ---- Creating clients is atomic ----

  /** The store once a goroutine that has dialed leaves its section. */
  function Finish(st: Store, pc: Pc): Store {
    match pc
    case Creating(Dialed(t, c)) => Return(WithClients(WithConn(st, t, c), t, Clients(c)), t, Clients(c))
    case Creating(Stored(t, c)) => Return(WithClients(st, t, Clients(c)), t, Clients(c))
    case _ => st
  }

  /**
   From the double check on, whatever anybody does, the section is bound for the store that
   `Create` computes in one go.
   */
  lemma CreateIsAtomic(cfg: Config, s: State, i: nat, a: Action)
    requires Reachable(cfg, s) && i < |s.threads| && Next(cfg, s, a).Some?
    ensures var s' := Next(cfg, s, a).value;
      && (s.threads[i].Creating? ==> Finish(s'.store, s'.threads[i]) == Finish(s.store, s.threads[i]))
      && (s.threads[i].Checking? && a.thread == i ==>
           Finish(s'.store, s'.threads[i]) == Create(cfg, s.store, s.threads[i].target, a.dials).0)
      && (s.threads[i].Checking? && a.thread != i ==> s'.store == s.store && s'.threads[i] == s.threads[i])
  {
    ReachableInv(cfg, s);
    if a.thread != i && HoldsWrite(s.threads[i]) {
      assert !HoldsWrite(s.threads[a.thread]) && !HoldsRead(s.threads[a.thread]);
    }
  }

  // ---- Closing is atomic up to the order of the map ----

  /** The store once a goroutine that is tearing down leaves its section, the closes aside. */
  function Emptied(st: Store, pc: Pc): Store {
    if pc.Tearing? then EMPTY.(dialed := st.dialed, epoch := st.epoch + 1, lookups := st.lookups)
    else st.(closes := [])
  }

  /** The connections the section has yet to close. */
  ghost predicate StillToClose(st: Store, pc: Pc, c: nat) {
    match pc
    case Tearing(Closing(remaining)) =>
      (exists h :: h in remaining && ConnAt(st, Module(h)) == Some(c)) || st.bridgeConn == Some(c)
    case Tearing(ClosingBridge) => st.bridgeConn == Some(c)
    case _ => false
  }

  /** How often connection `c` will have been closed when the section is left. */
  ghost function FinalCloses(st: Store, pc: Pc, c: nat): nat {
    Closes(st.closes, c) + if StillToClose(st, pc, c) then 1 else 0
  }

  /** A connection is stored under one target only. */
  lemma StoredOnce(cfg: Config, st: Store, t: Target, u: Target)
    requires Filed(cfg, st) && ConnAt(st, t).Some? && ConnAt(st, t) == ConnAt(st, u)
    ensures t == u
  {
  }

  lemma CloseOneKeepsFinal(cfg: Config, st: Store, remaining: set<string>, pick: string, c: nat)
    requires Filed(cfg, st) && pick in remaining && pick in st.connections
    ensures FinalCloses(CloseConn(st, st.connections[pick]), Tearing(Closing(remaining - {pick})), c)
         == FinalCloses(st, Tearing(Closing(remaining)), c)
  {
    var d := st.connections[pick];
    var next, rest := CloseConn(st, d), remaining - {pick};
    CloseCount(st, d, c);
    assert forall u :: ConnAt(next, u) == ConnAt(st, u);
    assert ConnAt(st, Module(pick)) == Some(d);
    if c == d {
      forall h | h in rest ensures ConnAt(st, Module(h)) != Some(c) {
        if ConnAt(st, Module(h)) == Some(c) {
          StoredOnce(cfg, st, Module(h), Module(pick));
          assert false;
        }
      }
      if st.bridgeConn == Some(c) {
        StoredOnce(cfg, st, Bridge, Module(pick));
        assert false;
      }
      assert StillToClose(st, Tearing(Closing(remaining)), c);
      assert !StillToClose(next, Tearing(Closing(rest)), c);
    } else {
      OthersStillToClose(st, next, remaining, pick, c);
    }
  }

  lemma OthersStillToClose(st: Store, next: Store, remaining: set<string>, pick: string, c: nat)
    requires next.connections == st.connections && next.bridgeConn == st.bridgeConn
    requires ConnAt(st, Module(pick)) != Some(c)
    ensures StillToClose(next, Tearing(Closing(remaining - {pick})), c) <==> StillToClose(st, Tearing(Closing(remaining)), c)
  {
    if h :| h in remaining && ConnAt(st, Module(h)) == Some(c) {
      assert h in remaining - {pick} && ConnAt(next, Module(h)) == Some(c);
    }
    if h :| h in remaining - {pick} && ConnAt(next, Module(h)) == Some(c) {
      assert h in remaining && ConnAt(st, Module(h)) == Some(c);
    }
  }

  lemma LastModuleKeepsFinal(st: Store, c: nat)
    ensures FinalCloses(st, Tearing(ClosingBridge), c) == FinalCloses(st, Tearing(Closing({})), c)
  {
  }

  lemma BridgeKeepsFinal(st: Store, c: nat)
    ensures FinalCloses(if st.bridgeConn.Some? then CloseConn(st, st.bridgeConn.value) else st, Tearing(Resetting(0)), c)
         == FinalCloses(st, Tearing(ClosingBridge), c)
  {
    if st.bridgeConn.Some? {
      CloseCount(st, st.bridgeConn.value, c);
    }
  }

  lemma ResetKeepsFinal(cfg: Config, st: Store, k: nat, c: nat)
    requires Inv(cfg, st, Resetting(k))
    ensures var pc := if k < 3 then Tearing(Resetting(k + 1)) else Leaving;
      FinalCloses(ResetField(st, k), pc, c) == FinalCloses(st, Tearing(Resetting(k)), c)
      && Emptied(ResetField(st, k), pc) == Emptied(st, Tearing(Resetting(k)))
  {
    assert Located(cfg, st, Resetting(k));
  }

  lemma TearingKeepsFinal(cfg: Config, st: Store, section: Section, dials: bool, pick: string, c: nat)
    requires ProperPc(Tearing(section)) && Inv(cfg, st, section) && LockedStep(cfg, st, Tearing(section), dials, pick).Some?
    ensures var r := LockedStep(cfg, st, Tearing(section), dials, pick).value;
      FinalCloses(r.0, r.1, c) == FinalCloses(st, Tearing(section), c) && Emptied(r.0, r.1) == Emptied(st, Tearing(section))
  {
    match section
    case Closing(remaining) =>
      if remaining == {} {
        LastModuleKeepsFinal(st, c);
      } else {
        CloseOneKeepsFinal(cfg, st, remaining, pick, c);
      }
    case ClosingBridge => BridgeKeepsFinal(st, c);
    case Resetting(k) => ResetKeepsFinal(cfg, st, k, c);
  }

  /** At the start of the section everything stored is still to be closed. */
  lemma EverythingStillToClose(st: Store, c: nat)
    ensures StillToClose(st, Tearing(Closing(st.connections.Keys)), c) <==> exists t :: ConnAt(st, t) == Some(c)
  {
    if t :| ConnAt(st, t) == Some(c) {
      if t.Module? {
        assert t.hostname in st.connections.Keys && ConnAt(st, Module(t.hostname)) == Some(c);
      }
    }
    if StillToClose(st, Tearing(Closing(st.connections.Keys)), c) {
      if st.bridgeConn == Some(c) {
        assert ConnAt(st, Bridge) == Some(c);
      }
    }
  }

  /** Nobody else moves what the section is bound for. */
  lemma OthersLeaveItAlone(cfg: Config, s: State, i: nat, a: Action)
    requires SysInv(cfg, s) && i < |s.threads| && HoldsWrite(s.threads[i]) && a.thread != i && Next(cfg, s, a).Some?
    ensures Next(cfg, s, a).value.store == s.store && Next(cfg, s, a).value.threads[i] == s.threads[i]
  {
    assert a.thread < |s.threads| && !HoldsWrite(s.threads[a.thread]) && !HoldsRead(s.threads[a.thread]);
  }

  lemma TearingGoesOn(cfg: Config, s: State, i: nat, a: Action, c: nat)
    requires SysInv(cfg, s) && i < |s.threads| && s.threads[i].Tearing? && Next(cfg, s, a).Some?
    ensures var s' := Next(cfg, s, a).value;
      && Emptied(s'.store, s'.threads[i]) == Emptied(s.store, s.threads[i])
      && FinalCloses(s'.store, s'.threads[i], c) == FinalCloses(s.store, s.threads[i], c)
  {
    if a.thread == i {
      assert s.writer == Some(i);
      TearingKeepsFinal(cfg, s.store, s.threads[i].section, a.dials, a.pick, c);
    } else {
      OthersLeaveItAlone(cfg, s, i, a);
    }
  }

  lemma TearingBegins(cfg: Config, s: State, i: nat, a: Action, c: nat)
    requires i < |s.threads| && s.threads[i].Shutting? && a.thread == i && Next(cfg, s, a).Some?
    ensures var s' := Next(cfg, s, a).value;
      && Emptied(s'.store, s'.threads[i]) == TearDown(s.store).(closes := [])
      && FinalCloses(s'.store, s'.threads[i], c)
         == Closes(s.store.closes, c) + (if exists t :: ConnAt(s.store, t) == Some(c) then 1 else 0)
  {
    EverythingStillToClose(s.store, c);
    TearDownForgets(s.store);
  }

  /**
   `Close` is atomic up to the order in which it visits the map: when it gets the lock it is bound
   for empty fields, a new period and one more close for exactly the connections stored at that
   moment, and nothing anybody does until it leaves changes that.
   */
  lemma CloseIsAtomic(cfg: Config, s: State, i: nat, a: Action, c: nat)
    requires Reachable(cfg, s) && i < |s.threads| && Next(cfg, s, a).Some?
    ensures var s' := Next(cfg, s, a).value;
      s.threads[i].Tearing? ==>
        && Emptied(s'.store, s'.threads[i]) == Emptied(s.store, s.threads[i])
        && FinalCloses(s'.store, s'.threads[i], c) == FinalCloses(s.store, s.threads[i], c)
    ensures var s' := Next(cfg, s, a).value;
      s.threads[i].Shutting? && a.thread == i ==>
        && Emptied(s'.store, s'.threads[i]) == TearDown(s.store).(closes := [])
        && FinalCloses(s'.store, s'.threads[i], c)
           == Closes(s.store.closes, c) + (if exists t :: ConnAt(s.store, t) == Some(c) then 1 else 0)
  {
    ReachableInv(cfg, s);
    if s.threads[i].Tearing? {
      TearingGoesOn(cfg, s, i, a, c);
    } else if s.threads[i].Shutting? && a.thread == i {
      TearingBegins(cfg, s, i, a, c);
    }
  }
}
