/**
 Restarting or shutting down the whole fleet: `performSystemOperation` of the API gateway.

 All modules but the gateway's own host are commanded concurrently; only after `wg.Wait()` is
 the gateway host commanded; then the channel is closed, drained and answered. The goroutines
 are interleaved step by step: a run is any sequence of actors, and what each remote call
 returns is an arbitrary function of the host.
 */
module FleetOperation {
  import opened Common
  import opened WorkerPool

  datatype Operation = Restart | Shutdown

  /** What asking one module came to. */
  datatype Outcome =
    | LookupFailed(error: string)
    | CallFailed(error: string)
    | Answered(accepted: bool, message: string, scheduledDelay: int)

  datatype Reply = Reply(success: bool, message: string, delay: int)

  datatype Command = Command(host: string, operation: Operation, delay: int)

  /** One request: `names` is what `GetModuleNames` returns, `gateway` the configured gateway host. */
  datatype Fleet = Fleet(
    names: seq<string>, gateway: string, operation: Operation, delay: int, capacity: nat,
    outcome: string -> Outcome)

  /** The channel the code allocates holds one message per configured module. */
  ghost predicate AsDeployed(f: Fleet) {
    Unique(f.names) && f.capacity == |f.names|
  }

  // ---- Partition of the modules ----

  predicate IsGateway(gateway: string, host: string) {
    gateway != "" && host == gateway
  }

  function Others(names: seq<string>, gateway: string): seq<string> {
    if names == [] then []
    else
      var init, last := names[..|names| - 1], names[|names| - 1];
      Others(init, gateway) + (if IsGateway(gateway, last) then [] else [last])
  }

  function GatewayPart(names: seq<string>, gateway: string): seq<string> {
    if gateway != "" && gateway in names then [gateway] else []
  }

  /** The goroutines in the order they are started; the gateway's own host, if any, comes last. */
  function Roster(f: Fleet): seq<string> {
    Others(f.names, f.gateway) + GatewayPart(f.names, f.gateway)
  }

  method Partition(names: seq<string>, gateway: string) returns (apiGatewayHost: string, otherModules: seq<string>)
    ensures otherModules == Others(names, gateway)
    ensures GatewayPart(names, gateway) == if apiGatewayHost != "" then [apiGatewayHost] else []
  {
    apiGatewayHost, otherModules := "", [];
    for i := 0 to |names|
      invariant otherModules == Others(names[..i], gateway)
      invariant apiGatewayHost == if gateway != "" && gateway in names[..i] then gateway else ""
    {
      assert names[..i + 1] == names[..i] + [names[i]];
      assert names[..i + 1][..i] == names[..i];
      if gateway != "" && names[i] == gateway {
        apiGatewayHost := names[i];
      } else {
        otherModules := otherModules + [names[i]];
      }
    }
    assert names[..|names|] == names;
  }

  /** Phase 1 is exactly the modules other than the gateway host. */
  lemma {:induction false} OthersExact(names: seq<string>, gateway: string)
    ensures multiset(Others(names, gateway))
         == if gateway != "" then multiset(names)[gateway := 0] else multiset(names)
    ensures forall i :: 0 <= i < |Others(names, gateway)| ==> !IsGateway(gateway, Others(names, gateway)[i])
  {
    if names != [] {
      var init, last := names[..|names| - 1], names[|names| - 1];
      assert names == init + [last];
      OthersExact(init, gateway);
    }
  }

  /** Every configured module is commanded in exactly one of the two phases. */
  lemma PartitionIsExact(f: Fleet)
    requires Unique(f.names)
    ensures multiset(Roster(f)) == multiset(f.names)
    ensures |Roster(f)| == |f.names|
    ensures forall i :: 0 <= i < |Roster(f)| ==>
      (f.gateway != "" && Roster(f)[i] == f.gateway <==> i >= |Others(f.names, f.gateway)|)
  {
    OthersExact(f.names, f.gateway);
    if f.gateway != "" {
      UniqueCount(f.names, f.gateway);
    }
    assert |multiset(Roster(f))| == |Roster(f)| && |multiset(f.names)| == |f.names|;
  }

  lemma RosterOrder(f: Fleet, i: nat)
    requires i < |Roster(f)|
    ensures IsGateway(f.gateway, Roster(f)[i]) <==> i >= |Others(f.names, f.gateway)|
    ensures |Roster(f)| <= |Others(f.names, f.gateway)| + 1
  {
    OthersExact(f.names, f.gateway);
  }

  lemma {:induction false} UniqueCount<T>(s: seq<T>, x: T)
    requires Unique(s)
    ensures multiset(s)[x] == if x in s then 1 else 0
  {
    if s != [] {
      var init, last := s[..|s| - 1], s[|s| - 1];
      assert s == init + [last];
      UniqueCount(init, x);
    }
  }

  // ---- What each goroutine does ----

  /** The gateway host is asked for at least five seconds. */
  function CommandDelay(gateway: string, delay: int, host: string): int {
    if IsGateway(gateway, host) && delay < 5 then 5 else delay
  }

  function CommandFor(f: Fleet, host: string): Command {
    Command(host, f.operation, CommandDelay(f.gateway, f.delay, host))
  }

  function ReplyFor(f: Fleet, host: string): Reply {
    match f.outcome(host)
    case LookupFailed(e) => Reply(false, e, 0)
    case CallFailed(e) => Reply(false, e, 0)
    case Answered(accepted, message, scheduled) =>
      Reply(accepted, if IsGateway(f.gateway, host) then message + " (API Gateway host - delayed)" else message, scheduled)
  }

  function JobFor(f: Fleet, host: string): Job<Reply> {
    Job(!f.outcome(host).LookupFailed?, Some(ReplyFor(f, host)))
  }

  function Jobs(f: Fleet): seq<Job<Reply>> {
    Apply(h => JobFor(f, h), Roster(f))
  }

  // ---- The program ----

  /** Where the request handler stands. `drained` are the replies already taken out of the channel. */
  datatype Main =
    | Spawning(next: nat)
    | Waiting
    | Launching
    | WaitingGateway
    | Closing
    | Draining(drained: seq<Reply>, allSuccess: bool, messages: seq<string>)
    | Responded(drained: seq<Reply>, allSuccess: bool, messages: seq<string>)

  /** `trace` lists the remote commands in the order they are sent. */
  datatype State = State(pool: Pool<Reply>, main: Main, trace: seq<Command>)

  datatype Actor = Handler | Worker(index: nat)

  datatype Response = Completed(delay: int) | SomeFailed(messages: seq<string>)

  function Init(f: Fleet): State {
    State(Fresh(|Roster(f)|), Spawning(0), [])
  }

  function HandlerStep(f: Fleet, s: State): Option<State>
    requires |s.pool.phases| == |Roster(f)|
  {
    var n := |Others(f.names, f.gateway)|;
    match s.main
    case Spawning(k) =>
      if k < n then Some(s.(pool := Spawn(s.pool, k), main := Spawning(k + 1))) else Some(s.(main := Waiting))
    case Waiting =>
      if s.pool.wg != 0 then None
      else Some(s.(main := if GatewayPart(f.names, f.gateway) != [] then Launching else Closing))
    case Launching =>
      if n < |Roster(f)| then Some(s.(pool := Spawn(s.pool, n), main := WaitingGateway)) else None
    case WaitingGateway => if s.pool.wg != 0 then None else Some(s.(main := Closing))
    case Closing => Some(s.(pool := Close(s.pool), main := Draining([], true, [])))
    case Draining(d, ok, messages) =>
      if s.pool.buffer != [] then
        var reply := s.pool.buffer[0];
        Some(s.(pool := s.pool.(buffer := s.pool.buffer[1..]),
                main := Draining(d + [reply], ok && reply.success, messages + [reply.message])))
      else if s.pool.closed then Some(s.(main := Responded(d, ok, messages)))
      else None
    case Responded(_, _, _) => None
  }

  function Next(f: Fleet, s: State, a: Actor): Option<State> {
    if s.pool.panicked || |s.pool.phases| != |Roster(f)| then None
    else
      match a
      case Handler => HandlerStep(f, s)
      case Worker(i) =>
        if i >= |Roster(f)| then None
        else
          match WorkerStep(Jobs(f), f.capacity, s.pool, i)
          case None => None
          case Some(pool) =>
            var sends := s.pool.phases[i].Working? && Jobs(f)[i].calls;
            Some(State(pool, s.main, if sends then s.trace + [CommandFor(f, Roster(f)[i])] else s.trace))
  }

  /** The state after letting the actors in `run` move in turn; `None` if one of them was blocked. */
  function Run(f: Fleet, s: State, run: seq<Actor>): Option<State>
    decreases |run|
  {
    if run == [] then Some(s)
    else
      match Next(f, s, run[0])
      case None => None
      case Some(t) => Run(f, t, run[1..])
  }

  ghost predicate Reachable(f: Fleet, s: State) {
    exists run :: Run(f, Init(f), run) == Some(s)
  }

  function Actors(f: Fleet): set<Actor> {
    {Handler} + set i | 0 <= i < |Roster(f)| :: Worker(i)
  }

  ghost predicate Stuck(f: Fleet, s: State) {
    forall a :: Next(f, s, a) == None
  }

  function ResponseOf(f: Fleet, s: State): Option<Response> {
    match s.main
    case Responded(_, ok, messages) => Some(if ok then Completed(f.delay) else SomeFailed(messages))
    case _ => None
  }

  // ---- The invariant ----

  ghost predicate FinishedUpTo(phases: seq<Phase<Reply>>, n: nat)
    requires n <= |phases|
  {
    forall i :: 0 <= i < n ==> phases[i] == Finished
  }

  ghost predicate Born(phases: seq<Phase<Reply>>, n: nat)
    requires n <= |phases|
  {
    && (forall i :: 0 <= i < n ==> phases[i] != Unborn)
    && (forall i :: n <= i < |phases| ==> phases[i] == Unborn)
  }

  ghost predicate Folded(drained: seq<Reply>, allSuccess: bool, messages: seq<string>) {
    && (allSuccess <==> forall i :: 0 <= i < |drained| ==> drained[i].success)
    && messages == Apply(MessageOf, drained)
  }

  function MessageOf(r: Reply): string {
    r.message
  }

  function Taken(m: Main): seq<Reply> {
    if m.Draining? || m.Responded? then m.drained else []
  }

  /** What the handler's position says about the goroutines. */
  ghost predicate Staged(f: Fleet, s: State)
    requires |s.pool.phases| == |Roster(f)|
  {
    var n := |Others(f.names, f.gateway)|;
    match s.main
    case Spawning(k) => k <= n && Born(s.pool.phases, k) && !s.pool.closed
    case Waiting => Born(s.pool.phases, n) && !s.pool.closed
    case Launching => n < |Roster(f)| && FinishedUpTo(s.pool.phases, n) && Born(s.pool.phases, n) && !s.pool.closed
    case WaitingGateway => n < |Roster(f)| && FinishedUpTo(s.pool.phases, n) && Born(s.pool.phases, |Roster(f)|) && !s.pool.closed
    case Closing => AllFinished(s.pool) && !s.pool.closed
    case Draining(d, ok, messages) => s.pool.closed && Folded(d, ok, messages)
    case Responded(d, ok, messages) => s.pool.closed && s.pool.buffer == [] && Folded(d, ok, messages)
  }

  ghost predicate Issued(job: Job<Reply>, q: Phase<Reply>) {
    job.calls && !q.Unborn? && !q.Working?
  }

  ghost function IssuedCommands(f: Fleet, phases: seq<Phase<Reply>>): seq<multiset<Command>>
    requires |phases| == |Roster(f)|
  {
    seq(|phases|, i requires 0 <= i < |phases| =>
      if Issued(Jobs(f)[i], phases[i]) then multiset{CommandFor(f, Roster(f)[i])} else multiset{})
  }

  /** The trace is what the goroutines past their lookup have sent, and the gateway's command ends it. */
  ghost predicate Traced(f: Fleet, phases: seq<Phase<Reply>>, trace: seq<Command>)
    requires |phases| == |Roster(f)|
  {
    var n := |Others(f.names, f.gateway)|;
    && multiset(trace) == Total(IssuedCommands(f, phases))
    && GatewayLast(f.gateway, trace, n < |Roster(f)| && Issued(Jobs(f)[n], phases[n]))
  }

  ghost predicate GatewayLast(gateway: string, trace: seq<Command>, gatewayIssued: bool) {
    forall j :: 0 <= j < |trace| && IsGateway(gateway, trace[j].host) ==> j == |trace| - 1 && gatewayIssued
  }

  /** The gateway's goroutine does not exist before the others have all finished. */
  ghost predicate Barrier(f: Fleet, phases: seq<Phase<Reply>>)
    requires |phases| == |Roster(f)|
  {
    var n := |Others(f.names, f.gateway)|;
    n < |Roster(f)| && phases[n] != Unborn ==> FinishedUpTo(phases, n)
  }

  ghost predicate Inv(f: Fleet, s: State) {
    && Sound(Jobs(f), f.capacity, s.pool, Taken(s.main))
    && Staged(f, s)
    && Barrier(f, s.pool.phases)
    && Traced(f, s.pool.phases, s.trace)
  }

  ghost function MainRank(f: Fleet, m: Main): nat {
    match m
    case Spawning(_) => 6
    case Waiting => 5
    case Launching => 4
    case WaitingGateway => 3
    case Closing => 2
    case Draining(_, _, _) => 1
    case Responded(_, _, _) => 0
  }

  /** Every step of every actor makes this smaller. */
  ghost function Measure(f: Fleet, s: State): nat {
    2 * Work(s.pool.phases) + |s.pool.buffer| + MainRank(f, s.main)
  }

  lemma InitInv(f: Fleet)
    ensures Inv(f, Init(f))
    ensures Measure(f, Init(f)) == 10 * |Roster(f)| + 6
  {
    FreshIsSound(Jobs(f), f.capacity);
    TotalOfNothing(IssuedCommands(f, Init(f).pool.phases));
  }

  lemma SpawnKeepsTrace(f: Fleet, phases: seq<Phase<Reply>>, trace: seq<Command>, k: nat)
    requires k < |phases| == |Roster(f)| && phases[k] == Unborn && Traced(f, phases, trace)
    ensures Traced(f, phases[k := Working], trace)
  {
    assert IssuedCommands(f, phases[k := Working]) == IssuedCommands(f, phases);
  }

  lemma SpawnKeepsOrder(phases: seq<Phase<Reply>>, k: nat)
    requires k < |phases| && Born(phases, k)
    ensures Born(phases[k := Working], k + 1)
    ensures FinishedUpTo(phases, k) ==> FinishedUpTo(phases[k := Working], k)
  {
  }

  lemma SpawningKeepsInv(f: Fleet, s: State, k: nat)
    requires Inv(f, s) && s.main == Spawning(k)
    ensures Inv(f, HandlerStep(f, s).value)
    ensures Measure(f, HandlerStep(f, s).value) < Measure(f, s)
  {
    var n := |Others(f.names, f.gateway)|;
    if k < n {
      SpawnKeepsOrder(s.pool.phases, k);
      SpawnIsSound(Jobs(f), f.capacity, s.pool, [], k);
      SpawnKeepsTrace(f, s.pool.phases, s.trace, k);
      var t := HandlerStep(f, s).value;
      assert Barrier(f, t.pool.phases);
    }
  }

  lemma LaunchingKeepsInv(f: Fleet, s: State)
    requires Inv(f, s) && s.main == Launching
    ensures Inv(f, HandlerStep(f, s).value)
    ensures Measure(f, HandlerStep(f, s).value) < Measure(f, s)
  {
    var n := |Others(f.names, f.gateway)|;
    SpawnKeepsOrder(s.pool.phases, n);
    SpawnIsSound(Jobs(f), f.capacity, s.pool, [], n);
    SpawnKeepsTrace(f, s.pool.phases, s.trace, n);
  }

  lemma WaitingKeepsStage(f: Fleet, s: State)
    requires |s.pool.phases| == |Roster(f)| && Staged(f, s) && (s.main.Waiting? || s.main.WaitingGateway?)
    requires s.pool.wg == 0
    requires forall i :: 0 <= i < |Roster(f)| ==> s.pool.phases[i] == Unborn || s.pool.phases[i] == Finished
    ensures Staged(f, HandlerStep(f, s).value)
  {
    var n := |Others(f.names, f.gateway)|;
    assert FinishedUpTo(s.pool.phases, if s.main.Waiting? then n else |Roster(f)|);
  }

  lemma WaitingKeepsInv(f: Fleet, s: State)
    requires Inv(f, s) && (s.main.Waiting? || s.main.WaitingGateway?) && s.pool.wg == 0
    ensures Inv(f, HandlerStep(f, s).value)
    ensures Measure(f, HandlerStep(f, s).value) < Measure(f, s)
  {
    WaitMeansFinished(Jobs(f), f.capacity, s.pool, []);
    WaitingKeepsStage(f, s);
    assert HandlerStep(f, s).value.pool == s.pool;
  }

  lemma DrainKeepsSound(f: Fleet, s: State)
    requires Sound(Jobs(f), f.capacity, s.pool, Taken(s.main)) && s.main.Draining? && HandlerStep(f, s).Some?
    ensures Sound(Jobs(f), f.capacity, HandlerStep(f, s).value.pool, Taken(HandlerStep(f, s).value.main))
  {
    if s.pool.buffer != [] {
      ReceiveIsSound(Jobs(f), f.capacity, s.pool, s.main.drained);
    }
  }

  lemma DrainKeepsStage(f: Fleet, s: State)
    requires |s.pool.phases| == |Roster(f)| && Staged(f, s) && s.main.Draining? && HandlerStep(f, s).Some?
    ensures Staged(f, HandlerStep(f, s).value)
  {
    if s.pool.buffer != [] {
      DrainKeepsFold(s.main.drained, s.main.allSuccess, s.main.messages, s.pool.buffer[0]);
    }
  }

  lemma DrainingKeepsInv(f: Fleet, s: State)
    requires Inv(f, s) && s.main.Draining? && HandlerStep(f, s).Some?
    ensures Inv(f, HandlerStep(f, s).value)
    ensures Measure(f, HandlerStep(f, s).value) < Measure(f, s)
  {
    DrainKeepsSound(f, s);
    DrainKeepsStage(f, s);
    assert HandlerStep(f, s).value.pool.phases == s.pool.phases;
  }

  lemma DrainKeepsFold(drained: seq<Reply>, allSuccess: bool, messages: seq<string>, reply: Reply)
    requires Folded(drained, allSuccess, messages)
    ensures Folded(drained + [reply], allSuccess && reply.success, messages + [reply.message])
  {
    ApplyAppend(MessageOf, drained, reply);
    var after := drained + [reply];
    assert after[|drained|] == reply;
    assert forall i :: 0 <= i < |drained| ==> after[i] == drained[i];
  }

  lemma HandlerKeepsInv(f: Fleet, s: State)
    requires Inv(f, s) && HandlerStep(f, s).Some?
    ensures Inv(f, HandlerStep(f, s).value)
    ensures Measure(f, HandlerStep(f, s).value) < Measure(f, s)
  {
    match s.main
    case Spawning(k) => SpawningKeepsInv(f, s, k);
    case Launching => LaunchingKeepsInv(f, s);
    case Waiting => WaitingKeepsInv(f, s);
    case WaitingGateway => WaitingKeepsInv(f, s);
    case Draining(_, _, _) => DrainingKeepsInv(f, s);
    case Closing =>
    case Responded(_, _, _) =>
  }

  lemma AdvanceKeepsOrder(phases: seq<Phase<Reply>>, i: nat, q: Phase<Reply>, n: nat)
    requires i < |phases| && n <= |phases|
    requires phases[i] != Unborn && phases[i] != Finished && q != Unborn
    ensures Born(phases, n) ==> Born(phases[i := q], n)
    ensures FinishedUpTo(phases, n) ==> FinishedUpTo(phases[i := q], n)
  {
  }

  lemma WorkerKeepsStage(f: Fleet, s: State, i: nat, pool: Pool<Reply>, trace: seq<Command>)
    requires |s.pool.phases| == |Roster(f)| && i < |Roster(f)| && Staged(f, s) && !s.pool.closed
    requires s.pool.phases[i] != Unborn && s.pool.phases[i] != Finished
    requires |pool.phases| == |Roster(f)| && pool.phases == s.pool.phases[i := pool.phases[i]]
    requires pool.phases[i] != Unborn && !pool.closed
    ensures Staged(f, State(pool, s.main, trace))
  {
    var n := |Others(f.names, f.gateway)|;
    match s.main
    case Spawning(k) => AdvanceKeepsOrder(s.pool.phases, i, pool.phases[i], k);
    case Waiting => AdvanceKeepsOrder(s.pool.phases, i, pool.phases[i], n);
    case Launching =>
    case WaitingGateway =>
      AdvanceKeepsOrder(s.pool.phases, i, pool.phases[i], n);
      AdvanceKeepsOrder(s.pool.phases, i, pool.phases[i], |Roster(f)|);
    case Closing =>
    case Draining(_, _, _) =>
    case Responded(_, _, _) =>
  }

  lemma WorkerKeepsBarrier(f: Fleet, phases: seq<Phase<Reply>>, i: nat, q: Phase<Reply>)
    requires i < |phases| == |Roster(f)| && Barrier(f, phases)
    requires phases[i] != Unborn && phases[i] != Finished && q != Unborn
    ensures Barrier(f, phases[i := q])
    ensures i < |Others(f.names, f.gateway)| < |Roster(f)| ==> phases[|Others(f.names, f.gateway)|] == Unborn
  {
  }

  /** Sending a command adds exactly that command to what has been issued. */
  lemma IssueStep(f: Fleet, phases: seq<Phase<Reply>>, trace: seq<Command>, i: nat)
    requires i < |phases| == |Roster(f)| && multiset(trace) == Total(IssuedCommands(f, phases))
    requires phases[i].Working? && Jobs(f)[i].calls
    ensures multiset(trace + [CommandFor(f, Roster(f)[i])]) == Total(IssuedCommands(f, phases[i := Calling]))
  {
    var issued, command := IssuedCommands(f, phases), CommandFor(f, Roster(f)[i]);
    assert IssuedCommands(f, phases[i := Calling]) == issued[i := multiset{command}];
    TotalUpdate(issued, i, multiset{command});
    assert issued[i] == multiset{};
    assert multiset(trace + [command]) == multiset(trace) + multiset{command};
  }

  lemma QuietStep(f: Fleet, phases: seq<Phase<Reply>>, i: nat)
    requires i < |phases| == |Roster(f)| && phases[i] != Unborn
    requires !(phases[i].Working? && Jobs(f)[i].calls)
    ensures IssuedCommands(f, phases[i := Advance(Jobs(f)[i], phases[i])]) == IssuedCommands(f, phases)
  {
    var after := phases[i := Advance(Jobs(f)[i], phases[i])];
    assert Issued(Jobs(f)[i], after[i]) == Issued(Jobs(f)[i], phases[i]);
  }

  /** Nobody sends a command after the gateway host's: everybody else had finished before. */
  lemma SendKeepsGatewayLast(f: Fleet, phases: seq<Phase<Reply>>, trace: seq<Command>, i: nat)
    requires i < |phases| == |Roster(f)| && Barrier(f, phases)
    requires phases[i].Working? && Jobs(f)[i].calls
    requires var n := |Others(f.names, f.gateway)|;
      GatewayLast(f.gateway, trace, n < |Roster(f)| && Issued(Jobs(f)[n], phases[n]))
    ensures var n := |Others(f.names, f.gateway)|;
      GatewayLast(f.gateway, trace + [CommandFor(f, Roster(f)[i])],
                  n < |Roster(f)| && Issued(Jobs(f)[n], phases[i := Calling][n]))
  {
    RosterOrder(f, i);
    WorkerKeepsBarrier(f, phases, i, Calling);
    assert forall j :: 0 <= j < |trace| ==> !IsGateway(f.gateway, trace[j].host);
  }

  lemma WorkerKeepsTrace(f: Fleet, phases: seq<Phase<Reply>>, trace: seq<Command>, i: nat)
    requires i < |phases| == |Roster(f)| && Traced(f, phases, trace) && Barrier(f, phases)
    requires phases[i] != Unborn && phases[i] != Finished
    ensures Traced(f, phases[i := Advance(Jobs(f)[i], phases[i])],
              if phases[i].Working? && Jobs(f)[i].calls then trace + [CommandFor(f, Roster(f)[i])] else trace)
  {
    if phases[i].Working? && Jobs(f)[i].calls {
      IssueStep(f, phases, trace, i);
      SendKeepsGatewayLast(f, phases, trace, i);
    } else {
      QuietStep(f, phases, i);
    }
  }

  lemma WorkerKeepsInv(f: Fleet, s: State, i: nat)
    requires Inv(f, s) && Next(f, s, Worker(i)).Some?
    ensures Inv(f, Next(f, s, Worker(i)).value)
    ensures Measure(f, Next(f, s, Worker(i)).value) < Measure(f, s)
  {
    var t := Next(f, s, Worker(i)).value;
    WorkerStepIsSound(Jobs(f), f.capacity, s.pool, Taken(s.main), i);
    WorkerKeepsStage(f, s, i, t.pool, t.trace);
    WorkerKeepsBarrier(f, s.pool.phases, i, t.pool.phases[i]);
    WorkerKeepsTrace(f, s.pool.phases, s.trace, i);
  }

  lemma StepKeepsInv(f: Fleet, s: State, a: Actor)
    requires Inv(f, s) && Next(f, s, a).Some?
    ensures Inv(f, Next(f, s, a).value)
    ensures Measure(f, Next(f, s, a).value) < Measure(f, s)
  {
    match a
    case Handler => HandlerKeepsInv(f, s);
    case Worker(i) => WorkerKeepsInv(f, s, i);
  }

  /** Every state of every run satisfies the invariant, and no run is longer than the initial measure. */
  lemma {:induction false} RunKeepsInv(f: Fleet, s: State, run: seq<Actor>)
    requires Inv(f, s) && Run(f, s, run).Some?
    ensures Inv(f, Run(f, s, run).value)
    ensures Measure(f, Run(f, s, run).value) + |run| <= Measure(f, s)
    decreases |run|
  {
    if run != [] {
      StepKeepsInv(f, s, run[0]);
      RunKeepsInv(f, Next(f, s, run[0]).value, run[1..]);
    }
  }

  lemma ReachableInv(f: Fleet, s: State)
    requires Reachable(f, s)
    ensures Inv(f, s)
  {
    var run :| Run(f, Init(f), run) == Some(s);
    InitInv(f);
    RunKeepsInv(f, Init(f), run);
  }
}
