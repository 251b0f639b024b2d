/**
 The module manager's reboot and shutdown calls, and what they make of the delays that a
 fleet-wide operation hands out.
 */
module SystemControl {
  import opened Common
  import opened WorkerPool
  import opened FleetOperation
  import opened FleetTheorems
  import opened Numerals

  /** The command line the host runs. */
  datatype HostCommand = RebootNow | PoweroffNow | ShutdownIn(restart: bool, minutes: int)

  /** What the module manager of one host is configured to do and how its commands turn out. */
  datatype Manager = Manager(reachable: bool, rebootEnabled: bool, shutdownEnabled: bool, commandSucceeds: bool)

  /** `Manager.Reboot` and `Manager.Shutdown` up to running the command; Go's division truncates, as here for delay > 0. */
  function Schedule(operation: Operation, delay: int): Result<HostCommand, string> {
    if delay < 0 then Err("delay cannot be negative")
    else if delay == 0 then Ok(if operation.Restart? then RebootNow else PoweroffNow)
    else Ok(ShutdownIn(operation.Restart?, delay / 60))
  }

  /** Seconds until the host goes down. */
  function EffectiveDelay(c: HostCommand): int {
    if c.ShutdownIn? then 60 * c.minutes else 0
  }

  /** Of the four command lines, `reboot` and `shutdown -r` bring the host up again. */
  predicate Reboots(c: HostCommand) {
    match c
    case RebootNow => true
    case PoweroffNow => false
    case ShutdownIn(restart, _) => restart
  }

  /** The reboot and shutdown calls of the module manager's gRPC service: the command run, if any, and the answer. */
  function Serve(m: Manager, operation: Operation, delay: int): (Option<HostCommand>, Outcome) {
    var verb := if operation.Restart? then "reboot" else "shutdown";
    var title := if operation.Restart? then "Reboot" else "Shutdown";
    if !(if operation.Restart? then m.rebootEnabled else m.shutdownEnabled) then
      (None, CallFailed(verb + " API is disabled in configuration"))
    else
      match Schedule(operation, delay)
      case Err(e) => (None, CallFailed(verb + " failed: " + e))
      case Ok(c) =>
        if m.commandSucceeds then
          (Some(c), Answered(true, title + " scheduled with " + Digits(delay) + " seconds delay", delay))
        else (Some(c), CallFailed(verb + " failed: exit status"))
  }

  /**
   The five seconds meant to let the gateway host go down after the others are lost in the
   division by sixty: it goes down at the very same offset as everybody else.
   */
  lemma NoCushion(operation: Operation, delay: int)
    requires delay >= 0
    ensures var own := Schedule(operation, if delay < 5 then 5 else delay);
      var others := Schedule(operation, delay);
      && own.Ok? && others.Ok?
      && EffectiveDelay(own.value) == EffectiveDelay(others.value)
      && 0 <= delay - EffectiveDelay(others.value) < 60
  {
  }

  /** A minimum of `clamp` seconds postpones the gateway host for some delay exactly if it is a full minute. */
  lemma CushionNeedsAMinute(operation: Operation, clamp: int)
    requires clamp >= 0
    ensures clamp >= 60 <==>
      exists delay :: 0 <= delay
        && EffectiveDelay(Schedule(operation, if delay < clamp then clamp else delay).value)
           > EffectiveDelay(Schedule(operation, delay).value)
  {
    if clamp >= 60 {
      assert EffectiveDelay(Schedule(operation, clamp).value) > EffectiveDelay(Schedule(operation, 0).value);
    }
  }

  // ---- The fleet with module managers behind it ----

  datatype Deployment = Deployment(names: seq<string>, gateway: string, managers: string -> Manager)

  function Request(d: Deployment, operation: Operation, delay: int): Fleet {
    Fleet(d.names, d.gateway, operation, delay, |d.names|,
      h => if d.managers(h).reachable then Serve(d.managers(h), operation, CommandDelay(d.gateway, delay, h)).1
           else LookupFailed("Module " + h + " not found in configuration"))
  }

  /** The host answers, allows the operation and can run its command. */
  predicate Ready(m: Manager, operation: Operation) {
    m.reachable && m.commandSucceeds && (if operation.Restart? then m.rebootEnabled else m.shutdownEnabled)
  }

  /** Only the gateway host is spared a negative delay. */
  predicate Obeys(d: Deployment, operation: Operation, delay: int, h: string) {
    Ready(d.managers(h), operation) && (delay >= 0 || (d.gateway != "" && h == d.gateway))
  }

  /** The command run on a host when the fleet is operated. */
  function CommandRun(d: Deployment, operation: Operation, delay: int, h: string): Option<HostCommand> {
    if d.managers(h).reachable then Serve(d.managers(h), operation, CommandDelay(d.gateway, delay, h)).0 else None
  }

  /** A command that is run and succeeds takes the host down. */
  predicate GoesDown(d: Deployment, operation: Operation, delay: int, h: string) {
    CommandRun(d, operation, delay, h).Some? && d.managers(h).commandSucceeds
  }

  /**
   Host `h` goes down exactly if it is ready and the delay is not negative, or it is the gateway;
   exactly then it accepts. It goes down after the whole minutes of the delay, and comes up again
   exactly if the operation is a restart.
   */
  ghost predicate HostFate(d: Deployment, operation: Operation, delay: int, h: string) {
    var c := CommandRun(d, operation, delay, h);
    && (GoesDown(d, operation, delay, h) <==> Obeys(d, operation, delay, h))
    && (Accepts(Request(d, operation, delay), h) <==> GoesDown(d, operation, delay, h))
    && (c.Some? ==> (Reboots(c.value) <==> operation.Restart?))
    && (c.Some? ==> EffectiveDelay(c.value) == if delay < 0 then 0 else 60 * (delay / 60))
  }

  /** What one host does with its command, and whether it is sent one at all. */
  lemma HostOutcome(d: Deployment, operation: Operation, delay: int, h: string)
    ensures Request(d, operation, delay).outcome(h).LookupFailed? <==> !d.managers(h).reachable
    ensures HostFate(d, operation, delay, h)
  {
    if delay >= 0 {
      NoCushion(operation, delay);
    }
  }

  /** The words of a host's answer. */
  lemma HostSays(d: Deployment, operation: Operation, delay: int, h: string)
    ensures var m, outcome := d.managers(h), Request(d, operation, delay).outcome(h);
      var asked := if d.gateway != "" && h == d.gateway && delay < 5 then 5 else delay;
      && (Obeys(d, operation, delay, h) ==>
           outcome == Answered(
             true, (if operation.Restart? then "Reboot" else "Shutdown") + " scheduled with " + Digits(asked) + " seconds delay", asked))
      && (m.reachable && !Obeys(d, operation, delay, h) ==> outcome.CallFailed?)
      && (!m.reachable ==> outcome == LookupFailed("Module " + h + " not found in configuration"))
  {
  }

  /** What an answered request has come to, given how its hosts are configured and how they fare. */
  ghost predicate FleetFate(d: Deployment, operation: Operation, delay: int, s: State) {
    var f := Request(d, operation, delay);
    && s.main.Responded?
    && multiset(s.main.messages) == multiset(ExpectedMessages(f))
    && (s.main.allSuccess <==> forall h :: h in d.names ==> GoesDown(d, operation, delay, h))
    && (forall h :: multiset(s.trace)[CommandFor(f, h)] == if h in d.names && d.managers(h).reachable then 1 else 0)
  }

  /**
   Fleet and module managers together, whatever hosts are unreachable, forbid the operation or
   fail: every complete run is answered with success if and only if every module goes down; each
   does exactly if it is ready and the delay is not negative, or it is the gateway, and all at the
   same offset, to come up again exactly if asked to restart. Every reachable module is sent one
   command.
   */
  lemma FleetOutcome(d: Deployment, operation: Operation, delay: int, run: seq<Actor>)
    requires Unique(d.names)
    requires var f := Request(d, operation, delay);
      Run(f, Init(f), run).Some? && Stuck(f, Run(f, Init(f), run).value)
    ensures var f := Request(d, operation, delay);
      FleetFate(d, operation, delay, Run(f, Init(f), run).value)
    ensures forall h :: HostFate(d, operation, delay, h)
  {
    var f := Request(d, operation, delay);
    AnswerIsScheduleFree(f, run);
    forall h
      ensures f.outcome(h).LookupFailed? <==> !d.managers(h).reachable
      ensures HostFate(d, operation, delay, h)
    {
      HostOutcome(d, operation, delay, h);
    }
  }

  ghost predicate Healthy(d: Deployment) {
    Unique(d.names) && forall h :: h in d.names ==> d.managers(h) == Manager(true, true, true, true)
  }

  lemma HealthyFate(d: Deployment, operation: Operation, delay: int, s: State)
    requires Healthy(d) && FleetFate(d, operation, delay, s)
    ensures s.main.allSuccess <==> forall h :: h in d.names ==> delay >= 0 || (d.gateway != "" && h == d.gateway)
    ensures forall h :: h in d.names ==> multiset(s.trace)[CommandFor(Request(d, operation, delay), h)] == 1
  {
    forall h | h in d.names ensures GoesDown(d, operation, delay, h) <==> delay >= 0 || (d.gateway != "" && h == d.gateway) {
      HostOutcome(d, operation, delay, h);
    }
  }

  /**
   On a healthy fleet a non-negative delay is answered with success; a negative one is refused by
   every module but the gateway's own host, which alone goes down, at once, while the answer
   reports failure unless it is the only module.
   */
  lemma HealthyFleet(d: Deployment, operation: Operation, delay: int, run: seq<Actor>)
    requires Healthy(d)
    requires var f := Request(d, operation, delay);
      Run(f, Init(f), run).Some? && Stuck(f, Run(f, Init(f), run).value)
    ensures var f := Request(d, operation, delay);
      var s := Run(f, Init(f), run).value;
      && s.main.Responded?
      && (s.main.allSuccess <==> forall h :: h in d.names ==> delay >= 0 || (d.gateway != "" && h == d.gateway))
      && (forall h :: h in d.names ==> multiset(s.trace)[CommandFor(f, h)] == 1)
    ensures forall h :: h in d.names ==>
      (Accepts(Request(d, operation, delay), h) <==> delay >= 0 || (d.gateway != "" && h == d.gateway))
    ensures forall h :: h in d.names ==> HostFate(d, operation, delay, h)
  {
    var f := Request(d, operation, delay);
    FleetOutcome(d, operation, delay, run);
    HealthyFate(d, operation, delay, Run(f, Init(f), run).value);
    forall h | h in d.names ensures Accepts(f, h) <==> delay >= 0 || (d.gateway != "" && h == d.gateway) {
      assert HostFate(d, operation, delay, h);
    }
  }

  /** The failing input: with a delay of minus one the gateway host goes down and the other module stays. */
  lemma GatewayGoesDownAlone()
    ensures exists d: Deployment ::
      && Healthy(d) && d.names == ["main", "sub"] && d.gateway == "main"
      && Accepts(Request(d, Shutdown, -1), "main") && !Accepts(Request(d, Shutdown, -1), "sub")
  {
    var d := Deployment(["main", "sub"], "main", h => Manager(true, true, true, true));
    assert "main" != "sub";
    HostOutcome(d, Shutdown, -1, "main");
    HostOutcome(d, Shutdown, -1, "sub");
    assert Healthy(d);
  }
}
