/**
 Collecting from many modules at once: `GetAllModules`, `GetPTPStatus` and `ServicesRestart`.

 The same goroutines as in a fleet operation, but another goroutine waits for them and closes
 the channel while the handler is already receiving.
 */
module FanIn {
  import opened Common
  import opened WorkerPool

  datatype Main<+M> = Spawning(next: nat) | Collecting(received: seq<M>) | Done(received: seq<M>)

  datatype Closer = NotStarted | Waiting | Closing | Over

  datatype State<+M> = State(pool: Pool<M>, main: Main<M>, closer: Closer)

  /** `Handoff(i)`: goroutine `i` gives its message straight to the handler blocked in a receive. */
  datatype Actor = Handler | Janitor | Worker(index: nat) | Handoff(index: nat)

  function Init<M>(jobs: seq<Job<M>>): State<M> {
    State(Fresh(|jobs|), Spawning(0), NotStarted)
  }

  function HandlerStep<M>(jobs: seq<Job<M>>, s: State<M>): Option<State<M>>
    requires |s.pool.phases| == |jobs|
  {
    match s.main
    case Spawning(k) =>
      if k < |jobs| then Some(s.(pool := Spawn(s.pool, k), main := Spawning(k + 1)))
      else Some(s.(closer := Closer.Waiting, main := Collecting([])))
    case Collecting(received) =>
      if s.pool.buffer != [] then
        Some(s.(pool := s.pool.(buffer := s.pool.buffer[1..]), main := Collecting(received + [s.pool.buffer[0]])))
      else if s.pool.closed then Some(s.(main := Done(received)))
      else None
    case Done(_) => None
  }

  function JanitorStep<M>(s: State<M>): Option<State<M>> {
    match s.closer
    case NotStarted => None
    case Waiting => if s.pool.wg == 0 then Some(s.(closer := Closer.Closing)) else None
    case Closing => Some(s.(pool := Close(s.pool), closer := Over))
    case Over => None
  }

  function HandoffStep<M>(s: State<M>, i: nat): Option<State<M>>
    requires i < |s.pool.phases|
  {
    if s.pool.phases[i].Sending? && s.main.Collecting? && s.pool.buffer == [] && !s.pool.closed then
      var m := s.pool.phases[i].message;
      Some(s.(pool := s.pool.(phases := s.pool.phases[i := Sent]), main := Collecting(s.main.received + [m])))
    else None
  }

  function Next<M>(jobs: seq<Job<M>>, capacity: nat, s: State<M>, a: Actor): Option<State<M>> {
    if s.pool.panicked || |s.pool.phases| != |jobs| then None
    else
      match a
      case Handler => HandlerStep(jobs, s)
      case Janitor => JanitorStep(s)
      case Worker(i) =>
        if i >= |jobs| then None
        else
          var pool := WorkerStep(jobs, capacity, s.pool, i);
          if pool.None? then None else Some(s.(pool := pool.value))
      case Handoff(i) => if i >= |jobs| then None else HandoffStep(s, i)
  }

  function Run<M>(jobs: seq<Job<M>>, capacity: nat, s: State<M>, run: seq<Actor>): Option<State<M>>
    decreases |run|
  {
    if run == [] then Some(s)
    else
      match Next(jobs, capacity, s, run[0])
      case None => None
      case Some(t) => Run(jobs, capacity, t, run[1..])
  }

  ghost predicate Stuck<M>(jobs: seq<Job<M>>, capacity: nat, s: State<M>) {
    forall a :: Next(jobs, capacity, s, a) == None
  }

  // ---- The invariant ----

  function Taken<M>(m: Main<M>): seq<M> {
    if m.Spawning? then [] else m.received
  }

  ghost predicate Staged<M>(s: State<M>) {
    && (s.main.Spawning? ==>
         && s.closer == NotStarted
         && s.main.next <= |s.pool.phases|
         && (forall i :: 0 <= i < |s.pool.phases| ==> (s.pool.phases[i] == Unborn <==> i >= s.main.next)))
    && (!s.main.Spawning? ==> s.closer != NotStarted && forall i :: 0 <= i < |s.pool.phases| ==> s.pool.phases[i] != Unborn)
    && (s.closer == Closer.Closing ==> AllFinished(s.pool))
    && (s.pool.closed <==> s.closer == Over)
    && (s.main.Done? ==> s.pool.closed && s.pool.buffer == [])
  }

  ghost predicate Inv<M>(jobs: seq<Job<M>>, capacity: nat, s: State<M>) {
    && Sound(jobs, capacity, s.pool, Taken(s.main))
    && Staged(s)
  }

  ghost function Measure<M>(s: State<M>): nat {
    2 * Work(s.pool.phases) + |s.pool.buffer|
      + (match s.main case Spawning(_) => 2 case Collecting(_) => 1 case Done(_) => 0)
      + (match s.closer case NotStarted => 3 case Waiting => 2 case Closing => 1 case Over => 0)
  }

  lemma InitInv<M>(jobs: seq<Job<M>>, capacity: nat)
    ensures Inv(jobs, capacity, Init(jobs))
    ensures Measure(Init(jobs)) == 10 * |jobs| + 5
  {
    FreshIsSound(jobs, capacity);
  }

  lemma HandlerKeepsSound<M>(jobs: seq<Job<M>>, capacity: nat, s: State<M>)
    requires Inv(jobs, capacity, s) && HandlerStep(jobs, s).Some?
    ensures Sound(jobs, capacity, HandlerStep(jobs, s).value.pool, Taken(HandlerStep(jobs, s).value.main))
    ensures Measure(HandlerStep(jobs, s).value) < Measure(s)
  {
    if s.main.Spawning? && s.main.next < |jobs| {
      SpawnIsSound(jobs, capacity, s.pool, [], s.main.next);
    } else if s.main.Collecting? && s.pool.buffer != [] {
      ReceiveIsSound(jobs, capacity, s.pool, s.main.received);
    }
  }

  lemma HandlerKeepsStage<M>(jobs: seq<Job<M>>, s: State<M>)
    requires |s.pool.phases| == |jobs| && Staged(s) && HandlerStep(jobs, s).Some?
    ensures Staged(HandlerStep(jobs, s).value)
  {
  }

  lemma JanitorKeepsInv<M>(jobs: seq<Job<M>>, capacity: nat, s: State<M>)
    requires Inv(jobs, capacity, s) && JanitorStep(s).Some?
    ensures Inv(jobs, capacity, JanitorStep(s).value)
    ensures Measure(JanitorStep(s).value) < Measure(s)
  {
    if s.closer == Closer.Waiting {
      WaitMeansFinished(jobs, capacity, s.pool, Taken(s.main));
    }
  }

  /** Handing over directly is sending into an empty channel with room for one and receiving at once. */
  lemma HandoffKeepsSound<M>(jobs: seq<Job<M>>, capacity: nat, p: Pool<M>, taken: seq<M>, i: nat)
    requires Sound(jobs, capacity, p, taken) && i < |jobs| && p.phases[i].Sending? && p.buffer == [] && !p.closed
    ensures Sound(jobs, capacity, p.(phases := p.phases[i := Sent]), taken + [p.phases[i].message])
    ensures Work(p.phases[i := Sent]) < Work(p.phases)
  {
    var through := p.(buffer := [p.phases[i].message], phases := p.phases[i := Sent]);
    assert Moves(jobs[i], capacity + 1, p, i, through);
    MoveIsSound(jobs, capacity + 1, p, taken, i, through);
    ReceiveIsSound(jobs, capacity + 1, through, taken);
    assert through.(buffer := through.buffer[1..]) == p.(phases := p.phases[i := Sent]);
  }

  lemma HandoffKeepsInv<M>(jobs: seq<Job<M>>, capacity: nat, s: State<M>, i: nat)
    requires Inv(jobs, capacity, s) && i < |jobs| && HandoffStep(s, i).Some?
    ensures Inv(jobs, capacity, HandoffStep(s, i).value)
    ensures Measure(HandoffStep(s, i).value) < Measure(s)
  {
    HandoffKeepsSound(jobs, capacity, s.pool, s.main.received, i);
  }

  lemma WorkerKeepsStage<M>(jobs: seq<Job<M>>, s: State<M>, i: nat, pool: Pool<M>)
    requires |s.pool.phases| == |jobs| && i < |jobs| && Staged(s)
    requires s.pool.phases[i] != Unborn && s.pool.phases[i] != Finished && !s.pool.closed && !pool.closed
    requires pool.phases == s.pool.phases[i := Advance(jobs[i], s.pool.phases[i])]
    ensures Staged(s.(pool := pool))
  {
  }

  lemma WorkerKeepsInv<M>(jobs: seq<Job<M>>, capacity: nat, s: State<M>, i: nat)
    requires Inv(jobs, capacity, s) && i < |jobs| && WorkerStep(jobs, capacity, s.pool, i).Some?
    ensures Inv(jobs, capacity, s.(pool := WorkerStep(jobs, capacity, s.pool, i).value))
    ensures Measure(s.(pool := WorkerStep(jobs, capacity, s.pool, i).value)) < Measure(s)
  {
    WorkerStepIsSound(jobs, capacity, s.pool, Taken(s.main), i);
    WorkerKeepsStage(jobs, s, i, WorkerStep(jobs, capacity, s.pool, i).value);
  }

  lemma StepKeepsInv<M>(jobs: seq<Job<M>>, capacity: nat, s: State<M>, a: Actor)
    requires Inv(jobs, capacity, s) && Next(jobs, capacity, s, a).Some?
    ensures Inv(jobs, capacity, Next(jobs, capacity, s, a).value)
    ensures Measure(Next(jobs, capacity, s, a).value) < Measure(s)
  {
    match a
    case Handler =>
      HandlerKeepsSound(jobs, capacity, s);
      HandlerKeepsStage(jobs, s);
    case Janitor => JanitorKeepsInv(jobs, capacity, s);
    case Worker(i) => WorkerKeepsInv(jobs, capacity, s, i);
    case Handoff(i) => HandoffKeepsInv(jobs, capacity, s, i);
  }

  lemma {:induction false} RunKeepsInv<M>(jobs: seq<Job<M>>, capacity: nat, s: State<M>, run: seq<Actor>)
    requires Inv(jobs, capacity, s) && Run(jobs, capacity, s, run).Some?
    ensures Inv(jobs, capacity, Run(jobs, capacity, s, run).value)
    ensures Measure(Run(jobs, capacity, s, run).value) + |run| <= Measure(s)
    decreases |run|
  {
    if run != [] {
      StepKeepsInv(jobs, capacity, s, run[0]);
      RunKeepsInv(jobs, capacity, Next(jobs, capacity, s, run[0]).value, run[1..]);
    }
  }

  // ---- What collecting guarantees ----

  /** A goroutine kept waiting by a full channel is relieved by the handler, one without any buffer by a handoff. */
  lemma SenderIsRelieved<M>(jobs: seq<Job<M>>, capacity: nat, s: State<M>, i: nat)
    requires Inv(jobs, capacity, s) && s.main.Collecting? && i < |jobs| && Counted(s.pool.phases[i]) == 1
    ensures || Next(jobs, capacity, s, Handler).Some?
            || Next(jobs, capacity, s, Worker(i)).Some?
            || Next(jobs, capacity, s, Handoff(i)).Some?
  {
    WorkerEnabled(jobs, capacity, s.pool, i);
  }

  lemma StuckMeansDone<M>(jobs: seq<Job<M>>, capacity: nat, s: State<M>)
    requires Inv(jobs, capacity, s) && Stuck(jobs, capacity, s)
    ensures s.main.Done?
  {
    assert Next(jobs, capacity, s, Handler) == None;
    assert Next(jobs, capacity, s, Janitor) == None;
    if s.main.Collecting? && s.pool.wg != 0 {
      var i := SomebodyCounts(s.pool.phases);
      SenderIsRelieved(jobs, capacity, s, i);
    }
  }

  /**
   For every channel capacity, even zero, every complete run ends with each message received
   exactly once: receiving while others still send needs no room, unlike draining after a wait.
   */
  lemma EverythingIsCollected<M>(jobs: seq<Job<M>>, capacity: nat, run: seq<Actor>)
    requires Run(jobs, capacity, Init(jobs), run).Some?
    requires Stuck(jobs, capacity, Run(jobs, capacity, Init(jobs), run).value)
    ensures var s := Run(jobs, capacity, Init(jobs), run).value;
      && s.main.Done?
      && multiset(s.main.received) == Messages(jobs)
      && !s.pool.panicked
    ensures |run| <= 10 * |jobs| + 5
  {
    InitInv(jobs, capacity);
    RunKeepsInv(jobs, capacity, Init(jobs), run);
    var s := Run(jobs, capacity, Init(jobs), run).value;
    StuckMeansDone(jobs, capacity, s);
    FinishedMeansDelivered(jobs, capacity, s.pool, s.main.received);
  }

  /** The collecting handler under an arbitrary scheduler. */
  method Collect<M>(jobs: seq<Job<M>>, capacity: nat) returns (received: seq<M>)
    ensures multiset(received) == Messages(jobs)
  {
    var s := Init(jobs);
    InitInv(jobs, capacity);
    while !s.main.Done?
      invariant Inv(jobs, capacity, s)
      decreases Measure(s)
    {
      SomebodyCanMove(jobs, capacity, s);
      var a :| a in Actors(jobs) && Next(jobs, capacity, s, a).Some?;
      StepKeepsInv(jobs, capacity, s, a);
      s := Next(jobs, capacity, s, a).value;
    }
    FinishedMeansDelivered(jobs, capacity, s.pool, s.main.received);
    received := s.main.received;
  }

  function Actors<M>(jobs: seq<Job<M>>): set<Actor> {
    {Handler, Janitor} + (set i | 0 <= i < |jobs| :: Worker(i)) + (set i | 0 <= i < |jobs| :: Handoff(i))
  }

  lemma SomebodyCanMove<M>(jobs: seq<Job<M>>, capacity: nat, s: State<M>)
    requires Inv(jobs, capacity, s) && !s.main.Done?
    ensures exists a :: a in Actors(jobs) && Next(jobs, capacity, s, a).Some?
  {
    if Stuck(jobs, capacity, s) {
      StuckMeansDone(jobs, capacity, s);
      assert false;
    }
    var a :| Next(jobs, capacity, s, a) != None;
    assert a in Actors(jobs);
  }

  // ---- One message per goroutine: the module overview and the service restart ----

  lemma OneMessageEach<M>(jobs: seq<Job<M>>, messages: seq<M>)
    requires |jobs| == |messages| && forall i :: 0 <= i < |jobs| ==> jobs[i].message == Some(messages[i])
    ensures Messages(jobs) == multiset(messages)
  {
    TotalOfSingletons(FinalContributions(jobs), messages);
  }

  /** Every configured module appears once with its own status, in some order. */
  method GetAllModules<S>(names: seq<string>, status: string -> S) returns (statuses: seq<S>)
    ensures multiset(statuses) == multiset(Apply(status, names))
  {
    var jobs := Apply(h => Job(true, Some(status(h))), names);
    OneMessageEach(jobs, Apply(status, names));
    statuses := Collect(jobs, |names|);
  }

  datatype RestartReply = RestartReply(success: bool, message: string)

  datatype RestartAnswer = ModuleNotFound | ServiceDisabled | Restarted | RestartFailed(messages: seq<string>)

  function RestartReplyFor(outcome: string -> Option<string>, service: string): RestartReply {
    match outcome("services/" + service)
    case Some(error) => RestartReply(false, error)
    case None => RestartReply(true, "Sensor service restarted successfully")
  }

  /**
   `found` says whether the module's clients could be had, `enabled` whether its services may be
   managed, `outcome` is the error, if any, of restarting a resource.
   */
  method ServicesRestart(found: bool, enabled: bool, outcome: string -> Option<string>) returns (answer: RestartAnswer)
    ensures answer == ModuleNotFound <==> !found
    ensures answer == ServiceDisabled <==> found && !enabled
    ensures answer == Restarted <==> found && enabled && outcome("services/drs_sensor").None?
    ensures answer.RestartFailed? ==> |answer.messages| == 1 && outcome("services/drs_sensor") == Some(answer.messages[0])
  {
    if !found {
      return ModuleNotFound;
    }
    if !enabled {
      return ServiceDisabled;
    }
    var services := ["drs_sensor"];
    var reply := service => RestartReplyFor(outcome, service);
    var jobs := Apply(service => Job(true, Some(reply(service))), services);
    OneMessageEach(jobs, [reply(services[0])]);
    var results := Collect(jobs, |services|);
    assert "services/" + "drs_sensor" == "services/drs_sensor";
    OnlyOne(results, reply("drs_sensor"));
    var allSuccess, messages := true, [];
    for k := 0 to |results|
      invariant allSuccess <==> forall j :: 0 <= j < k ==> results[j].success
      invariant |messages| == k && forall j :: 0 <= j < k ==> messages[j] == results[j].message
    {
      if !results[k].success {
        allSuccess := false;
      }
      messages := messages + [results[k].message];
    }
    return if allSuccess then Restarted else RestartFailed(messages);
  }

  lemma OnlyOne<M>(received: seq<M>, x: M)
    requires multiset(received) == multiset{x}
    ensures received == [x]
  {
    assert |multiset(received)| == |received|;
    assert received[0] in multiset(received);
  }
}
