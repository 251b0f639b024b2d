/** What every run of a fleet-wide restart or shutdown guarantees. */
module FleetTheorems {
  import opened Common
  import opened WorkerPool
  import opened FleetOperation

  function Replies(f: Fleet, hosts: seq<string>): seq<Reply> {
    Apply(h => ReplyFor(f, h), hosts)
  }

  /** What a module contributes to the answer. */
  ghost predicate Says(f: Fleet, host: string, message: string) {
    match f.outcome(host)
    case LookupFailed(error) => message == error
    case CallFailed(error) => message == error
    case Answered(_, text, _) =>
      message == if f.gateway != "" && host == f.gateway then text + " (API Gateway host - delayed)" else text
  }

  /** One message per module: its error, or its text, which the gateway host's own carries a remark after. */
  lemma MessagesAreSaid(f: Fleet)
    ensures |ExpectedMessages(f)| == |f.names|
    ensures forall i :: 0 <= i < |f.names| ==> Says(f, f.names[i], ExpectedMessages(f)[i])
  {
  }

  function ExpectedMessages(f: Fleet): seq<string> {
    Apply(MessageOf, Replies(f, f.names))
  }

  ghost predicate Accepts(f: Fleet, host: string) {
    f.outcome(host).Answered? && f.outcome(host).accepted
  }

  // ---- Safety ----

  lemma {:induction false} TotalOfPrefix<T>(items: seq<multiset<T>>, n: nat)
    requires n <= |items|
    ensures Total(items[..n]) <= Total(items)
  {
    if n > 0 {
      assert items[..n][1..] == items[1..][..n - 1];
      TotalOfPrefix(items[1..], n - 1);
    }
  }

  /** Goroutines that have finished have deposited their replies. */
  lemma FinishedHaveReplied(f: Fleet, s: State)
    requires Inv(f, s)
    requires FinishedUpTo(s.pool.phases, |Others(f.names, f.gateway)|)
    ensures multiset(Replies(f, Others(f.names, f.gateway))) <= multiset(s.pool.buffer) + multiset(Taken(s.main))
  {
    var others := Others(f.names, f.gateway);
    var parts := Contributions(Jobs(f), s.pool.phases);
    forall i | 0 <= i < |others| ensures parts[..|others|][i] == multiset{Replies(f, others)[i]} {
      assert Roster(f)[i] == others[i];
    }
    TotalOfSingletons(parts[..|others|], Replies(f, others));
    TotalOfPrefix(parts, |others|);
  }

  /**
   The two-phase promise, in every reachable state of every interleaving: a command to the
   gateway's own host is the last command sent, and by then every other module's goroutine has
   finished and its reply is in the channel or already drained.
   */
  lemma GatewayIsCommandedLast(f: Fleet, s: State, j: nat)
    requires Reachable(f, s)
    requires j < |s.trace| && f.gateway != "" && s.trace[j].host == f.gateway
    ensures j == |s.trace| - 1
    ensures |s.pool.phases| == |Roster(f)|
    ensures FinishedUpTo(s.pool.phases, |Others(f.names, f.gateway)|)
    ensures multiset(Replies(f, Others(f.names, f.gateway))) <= multiset(s.pool.buffer) + multiset(Taken(s.main))
  {
    ReachableInv(f, s);
    assert GatewayLast(f.gateway, s.trace, |Others(f.names, f.gateway)| < |Roster(f)|
      && Issued(Jobs(f)[|Others(f.names, f.gateway)|], s.pool.phases[|Others(f.names, f.gateway)|]));
    FinishedHaveReplied(f, s);
  }

  /** No send reaches a closed channel, the channel is closed once, the wait counter stays non-negative. */
  lemma NeverPanics(f: Fleet, s: State, a: Actor)
    requires Reachable(f, s)
    ensures !s.pool.panicked && s.pool.wg >= 0
    ensures Next(f, s, a).Some? ==> !Next(f, s, a).value.pool.panicked
  {
    ReachableInv(f, s);
    if Next(f, s, a).Some? {
      StepKeepsInv(f, s, a);
    }
  }

  // ---- Termination and deadlock ----

  /** Whatever the schedule, a request is over after at most ten steps per module and six more. */
  lemma RunsAreBounded(f: Fleet, run: seq<Actor>)
    requires Unique(f.names) && Run(f, Init(f), run).Some?
    ensures |run| <= 10 * |f.names| + 6
  {
    InitInv(f);
    RunKeepsInv(f, Init(f), run);
    PartitionIsExact(f);
  }

  /** With room for one message per module, only an answered request has nobody left to move. */
  lemma StuckMeansAnswered(f: Fleet, s: State)
    requires Inv(f, s) && f.capacity >= |Roster(f)| && Stuck(f, s)
    ensures s.main.Responded?
  {
    assert Next(f, s, Handler) == None;
    if s.main.Waiting? || s.main.WaitingGateway? {
      var i := SomebodyCounts(s.pool.phases);
      assert Next(f, s, Worker(i)) == None;
      WorkerEnabled(Jobs(f), f.capacity, s.pool, i);
      SenderFindsRoom(Jobs(f), f.capacity, s.pool, [], i);
    }
  }

  ghost predicate BeforeClose(m: Main) {
    m.Spawning? || m.Waiting? || m.Launching? || m.WaitingGateway?
  }

  lemma MessagesAreReplies(f: Fleet)
    ensures Messages(Jobs(f)) == multiset(Replies(f, Roster(f)))
  {
    var jobs := Jobs(f);
    var parts := FinalContributions(jobs);
    forall i | 0 <= i < |jobs| ensures parts[i] == multiset{Replies(f, Roster(f))[i]} {
      assert jobs[i] == JobFor(f, Roster(f)[i]);
    }
    TotalOfSingletons(parts, Replies(f, Roster(f)));
  }

  /** The handler reaches the close with all replies still in the channel. */
  lemma ClosingNeedsRoom(f: Fleet, s: State)
    requires Inv(f, s) && s.main == Closing
    ensures |Roster(f)| <= f.capacity
  {
    FinishedMeansDelivered(Jobs(f), f.capacity, s.pool, []);
    MessagesAreReplies(f);
    assert multiset(s.pool.buffer) == multiset(Replies(f, Roster(f)));
    assert |multiset(s.pool.buffer)| == |multiset(Replies(f, Roster(f)))|;
  }

  lemma UndersizedStep(f: Fleet, s: State, a: Actor)
    requires Inv(f, s) && BeforeClose(s.main) && f.capacity < |Roster(f)| && Next(f, s, a).Some?
    ensures BeforeClose(Next(f, s, a).value.main)
  {
    StepKeepsInv(f, s, a);
    var t := Next(f, s, a).value;
    if t.main == Closing {
      ClosingNeedsRoom(f, t);
      assert false;
    }
  }

  /** With less room the wait before the close never returns. */
  lemma {:induction false} UndersizedNeverCloses(f: Fleet, s: State, run: seq<Actor>)
    requires Inv(f, s) && BeforeClose(s.main) && f.capacity < |Roster(f)|
    requires Run(f, s, run).Some?
    ensures BeforeClose(Run(f, s, run).value.main)
    decreases |run|
  {
    if run != [] {
      StepKeepsInv(f, s, run[0]);
      UndersizedStep(f, s, run[0]);
      UndersizedNeverCloses(f, Next(f, s, run[0]).value, run[1..]);
    }
  }

  /** Letting anybody move who can, until nobody can, reaches a stuck state. */
  lemma {:induction false} MaximalRun(f: Fleet, s: State) returns (run: seq<Actor>)
    requires Inv(f, s)
    ensures Run(f, s, run).Some? && Stuck(f, Run(f, s, run).value)
    decreases Measure(f, s)
  {
    if Stuck(f, s) {
      run := [];
    } else {
      var a :| Next(f, s, a) != None;
      StepKeepsInv(f, s, a);
      var rest := MaximalRun(f, Next(f, s, a).value);
      run := [a] + rest;
      assert run[1..] == rest;
    }
  }

  /**
   The capacity `len(moduleNames)` is exactly what is needed, because draining starts only after
   the wait: with that much room every complete run ends in an answer, with any less every
   complete run hangs before the channel is closed.
   */
  lemma CapacityIsSharp(f: Fleet)
    requires Unique(f.names)
    ensures f.capacity >= |f.names| <==>
      (forall run :: Run(f, Init(f), run).Some? && Stuck(f, Run(f, Init(f), run).value) ==>
        Run(f, Init(f), run).value.main.Responded?)
    ensures f.capacity < |f.names| ==>
      (forall run :: Run(f, Init(f), run).Some? ==> BeforeClose(Run(f, Init(f), run).value.main))
  {
    PartitionIsExact(f);
    InitInv(f);
    if f.capacity >= |f.names| {
      forall run | Run(f, Init(f), run).Some? && Stuck(f, Run(f, Init(f), run).value)
        ensures Run(f, Init(f), run).value.main.Responded?
      {
        RunKeepsInv(f, Init(f), run);
        StuckMeansAnswered(f, Run(f, Init(f), run).value);
      }
    } else {
      forall run | Run(f, Init(f), run).Some?
        ensures BeforeClose(Run(f, Init(f), run).value.main)
      {
        UndersizedNeverCloses(f, Init(f), run);
      }
      var hung := MaximalRun(f, Init(f));
      assert !Run(f, Init(f), hung).value.main.Responded?;
    }
  }

  // ---- The answer ----

  /** Everything the answer and the commands amount to, with no mention of a schedule. */
  ghost predicate Answered(f: Fleet, s: State) {
    && s.main.Responded?
    && multiset(s.main.messages) == multiset(ExpectedMessages(f))
    && (s.main.allSuccess <==> forall h :: h in f.names ==> Accepts(f, h))
    && (forall h :: multiset(s.trace)[CommandFor(f, h)] == if h in f.names && !f.outcome(h).LookupFailed? then 1 else 0)
  }

  /** A configured module has exactly one goroutine, any other host none. */
  lemma RosterIndex(f: Fleet, h: string) returns (k: int)
    requires Unique(f.names)
    ensures if h in f.names then 0 <= k < |Roster(f)| && Roster(f)[k] == h else k == -1
    ensures forall i :: 0 <= i < |Roster(f)| && i != k ==> Roster(f)[i] != h
  {
    PartitionIsExact(f);
    var roster := Roster(f);
    UniqueCount(f.names, h);
    k := -1;
    if h in f.names {
      assert h in multiset(roster);
      k :| 0 <= k < |roster| && roster[k] == h;
      forall i | 0 <= i < |roster| && i != k ensures roster[i] != h {
        if roster[i] == h {
          TwiceCounted(roster, i, k);
          assert false;
        }
      }
    } else {
      assert h !in multiset(roster);
    }
  }

  /** One command to every module that could be reached, none to any other host. */
  lemma CommandCount(f: Fleet, s: State, h: string)
    requires Unique(f.names) && Inv(f, s) && AllFinished(s.pool)
    ensures multiset(s.trace)[CommandFor(f, h)] == if h in f.names && !f.outcome(h).LookupFailed? then 1 else 0
  {
    var k := RosterIndex(f, h);
    var items, command := IssuedCommands(f, s.pool.phases), CommandFor(f, h);
    forall i | 0 <= i < |items| && i != k ensures items[i][command] == 0 {
      assert CommandFor(f, Roster(f)[i]) != command;
    }
    TotalAt(items, command, k);
    if k >= 0 {
      assert items[k] == if f.outcome(h).LookupFailed? then multiset{} else multiset{command};
    }
  }

  /** Every command sent is one this request owes to a configured module. */
  ghost predicate Owed(f: Fleet, c: Command) {
    && c.host in f.names
    && c.operation == f.operation
    && c.delay == if f.gateway != "" && c.host == f.gateway && f.delay < 5 then 5 else f.delay
  }

  lemma OnlyOwedCommands(f: Fleet, s: State, c: Command)
    requires Unique(f.names) && Inv(f, s) && c in s.trace
    ensures Owed(f, c)
  {
    var items := IssuedCommands(f, s.pool.phases);
    assert multiset(s.trace)[c] > 0;
    if forall i :: 0 <= i < |items| ==> items[i][c] == 0 {
      TotalAt(items, c, -1);
      assert false;
    }
    var i :| 0 <= i < |items| && items[i][c] != 0;
    assert c == CommandFor(f, Roster(f)[i]);
    PartitionIsExact(f);
    assert Roster(f)[i] in multiset(Roster(f));
  }

  lemma TwiceCounted<T>(s: seq<T>, i: nat, k: nat)
    requires i < |s| && k < |s| && i != k && s[k] == s[i]
    ensures multiset(s)[s[i]] >= 2
  {
    RemoveAt(s, i);
    var rest := s[..i] + s[i + 1..];
    assert s[i] == rest[if k < i then k else k - 1];
    assert s[i] in multiset(rest);
  }

  lemma SuccessIsUnanimous(f: Fleet, drained: seq<Reply>)
    requires multiset(drained) == multiset(Replies(f, f.names))
    ensures (forall i :: 0 <= i < |drained| ==> drained[i].success) <==> (forall h :: h in f.names ==> Accepts(f, h))
  {
    var replies := Replies(f, f.names);
    if forall i :: 0 <= i < |drained| ==> drained[i].success {
      forall h | h in f.names ensures Accepts(f, h) {
        var k :| 0 <= k < |f.names| && f.names[k] == h;
        assert replies[k] in multiset(drained);
      }
    } else {
      var i :| 0 <= i < |drained| && !drained[i].success;
      assert drained[i] in multiset(replies);
      var k :| 0 <= k < |replies| && replies[k] == drained[i];
      assert !Accepts(f, f.names[k]);
    }
  }

  lemma RepliesPermute(f: Fleet, a: seq<string>, b: seq<string>)
    requires multiset(a) == multiset(b)
    ensures multiset(Replies(f, a)) == multiset(Replies(f, b))
  {
    ApplyPermutes(h => ReplyFor(f, h), a, b);
  }

  /** The drained replies are one reply per configured module. */
  lemma DrainedEverything(f: Fleet, s: State)
    requires Unique(f.names) && Inv(f, s) && s.main.Responded?
    ensures multiset(s.main.drained) == multiset(Replies(f, f.names))
  {
    FinishedMeansDelivered(Jobs(f), f.capacity, s.pool, s.main.drained);
    assert multiset(s.main.drained) == Messages(Jobs(f));
    MessagesAreReplies(f);
    PartitionIsExact(f);
    RepliesPermute(f, Roster(f), f.names);
  }

  lemma AnswerFollowsReplies(f: Fleet, s: State)
    requires s.main.Responded? && Folded(s.main.drained, s.main.allSuccess, s.main.messages)
    requires multiset(s.main.drained) == multiset(Replies(f, f.names))
    ensures multiset(s.main.messages) == multiset(ExpectedMessages(f))
    ensures s.main.allSuccess <==> forall h :: h in f.names ==> Accepts(f, h)
  {
    ApplyPermutes(MessageOf, s.main.drained, Replies(f, f.names));
    SuccessIsUnanimous(f, s.main.drained);
  }

  lemma RespondedMeansAnswered(f: Fleet, s: State)
    requires Unique(f.names) && Inv(f, s) && s.main.Responded?
    ensures Answered(f, s)
  {
    DrainedEverything(f, s);
    AnswerFollowsReplies(f, s);
    forall h ensures multiset(s.trace)[CommandFor(f, h)] == if h in f.names && !f.outcome(h).LookupFailed? then 1 else 0 {
      CommandCount(f, s, h);
    }
  }

  /** The answer of every complete run is the same up to the order of the collected messages. */
  lemma AnswerIsScheduleFree(f: Fleet, run: seq<Actor>)
    requires AsDeployed(f)
    requires Run(f, Init(f), run).Some? && Stuck(f, Run(f, Init(f), run).value)
    ensures Answered(f, Run(f, Init(f), run).value)
  {
    InitInv(f);
    RunKeepsInv(f, Init(f), run);
    PartitionIsExact(f);
    StuckMeansAnswered(f, Run(f, Init(f), run).value);
    RespondedMeansAnswered(f, Run(f, Init(f), run).value);
  }

  /**
   The handler under an arbitrary scheduler: it terminates, and what it answers depends on the
   modules alone.
   */
  method PerformSystemOperation(f: Fleet) returns (response: Response, trace: seq<Command>)
    requires AsDeployed(f)
    ensures response.Completed? <==> forall h :: h in f.names ==> Accepts(f, h)
    ensures response.Completed? ==> response.delay == f.delay
    ensures response.SomeFailed? ==> multiset(response.messages) == multiset(ExpectedMessages(f))
    ensures forall h :: multiset(trace)[CommandFor(f, h)] == if h in f.names && !f.outcome(h).LookupFailed? then 1 else 0
    ensures forall c :: c in trace ==> Owed(f, c)
    ensures forall j :: 0 <= j < |trace| && f.gateway != "" && trace[j].host == f.gateway ==> j == |trace| - 1
  {
    var s := Init(f);
    InitInv(f);
    while !s.main.Responded?
      invariant Inv(f, s)
      decreases Measure(f, s)
    {
      SomebodyCanMove(f, s);
      var a :| a in Actors(f) && Next(f, s, a).Some?;
      StepKeepsInv(f, s, a);
      s := Next(f, s, a).value;
    }
    RespondedMeansAnswered(f, s);
    forall c | c in s.trace ensures Owed(f, c) {
      OnlyOwedCommands(f, s, c);
    }
    response := ResponseOf(f, s).value;
    trace := s.trace;
  }

  lemma SomebodyCanMove(f: Fleet, s: State)
    requires AsDeployed(f) && Inv(f, s) && !s.main.Responded?
    ensures exists a :: a in Actors(f) && Next(f, s, a).Some?
  {
    PartitionIsExact(f);
    if Stuck(f, s) {
      StuckMeansAnswered(f, s);
      assert false;
    }
    var a :| Next(f, s, a) != None;
    assert a in Actors(f);
  }
}
