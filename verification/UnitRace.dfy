/**
 Stopping a service that has a secondary unit, such as a timer and the service it triggers, while
 the environment may start units between the two commands.
 */
module UnitRace {
  import opened ServiceControl

  datatype Event = Stopped(unit: string) | Activated(unit: string) | Deactivated(unit: string)

  /** The active units after some events. */
  function After(active: set<string>, events: seq<Event>): set<string> {
    if events == [] then active
    else
      var before := After(active, events[..|events| - 1]);
      match events[|events| - 1]
      case Stopped(u) => before - {u}
      case Activated(u) => before + {u}
      case Deactivated(u) => before - {u}
  }

  /** The last event about a unit, if any, is an activation. */
  predicate EndsActivated(events: seq<Event>, unit: string) {
    events != [] &&
    var last := events[|events| - 1];
    if last.unit == unit then last.Activated? else EndsActivated(events[..|events| - 1], unit)
  }

  /** What a succeeding command does to its unit. */
  function Effect(c: Command): seq<Event> {
    match c
    case Mutate(Start, u) => [Activated(u)]
    case Mutate(Stop, u) => [Stopped(u)]
    case Mutate(Restart, u) => [Activated(u)]
    case _ => []
  }

  /** A plan of two commands, both succeeding, with what the environment does before and between them. */
  function Interleaved(plan: seq<Command>, before: seq<Event>, between: seq<Event>): seq<Event>
    requires |plan| == 2
  {
    before + Effect(plan[0]) + between + Effect(plan[1])
  }

  lemma {:induction false} AfterUnit(active: set<string>, events: seq<Event>, unit: string)
    ensures unit in After(active, events) <==>
      EndsActivated(events, unit) || (unit in active && forall i :: 0 <= i < |events| ==> events[i].unit != unit)
  {
    if events != [] {
      var init, last := events[..|events| - 1], events[|events| - 1];
      AfterUnit(active, init, unit);
      assert events == init + [last];
      if last.unit != unit {
        assert (forall i :: 0 <= i < |events| ==> events[i].unit != unit) <==> (forall i :: 0 <= i < |init| ==> init[i].unit != unit);
      }
    }
  }

  lemma {:induction false} EndsActivatedAfterStop(before: seq<Event>, between: seq<Event>, unit: string)
    ensures EndsActivated(before + [Stopped(unit)] + between, unit) <==> EndsActivated(between, unit)
  {
    var all := before + [Stopped(unit)] + between;
    if between == [] {
      assert all[|all| - 1] == Stopped(unit);
    } else {
      assert all[..|all| - 1] == before + [Stopped(unit)] + between[..|between| - 1];
      assert all[|all| - 1] == between[|between| - 1];
      EndsActivatedAfterStop(before, between[..|between| - 1], unit);
    }
  }

  lemma AfterLast(active: set<string>, events: seq<Event>, last: Event, unit: string)
    ensures unit in After(active, events + [last]) <==>
      if last.unit == unit then last.Activated? else unit in After(active, events)
  {
    assert (events + [last])[..|events|] == events;
  }

  /**
   A stop or restart with a secondary unit, both commands succeeding: the primary unit ends as
   asked in any case, the secondary one inactive exactly if the environment does not leave it
   activated between the two commands.
   */
  lemma StopWithSecondary(
      cfg: Config, verb: Verb, name: string, active: set<string>, before: seq<Event>, between: seq<Event>)
    requires verb in {Stop, Restart} && |Plan(cfg, verb, name)| == 2
    ensures var plan := Plan(cfg, verb, name);
      var after := After(active, Interleaved(plan, before, between));
      && (plan[1].unit in after <==> verb.Restart?)
      && (plan[0].unit != plan[1].unit ==> (plan[0].unit in after <==> EndsActivated(between, plan[0].unit)))
  {
    var plan := Plan(cfg, verb, name);
    var secondary, primary := plan[0].unit, plan[1].unit;
    var init := before + [Stopped(secondary)] + between;
    var last := if verb.Stop? then Stopped(primary) else Activated(primary);
    assert Interleaved(plan, before, between) == init + [last];
    AfterLast(active, init, last, primary);
    AfterLast(active, init, last, secondary);
    AfterUnit(active, init, secondary);
    EndsActivatedAfterStop(before, between, secondary);
    assert init[|before|].unit == secondary;
  }

  /** A timer setup: the only activation is the primary unit, while active, triggering the secondary one. */
  predicate Triggered(active: set<string>, events: seq<Event>, secondary: string, primary: string) {
    if events == [] then true
    else
      var init, last := events[..|events| - 1], events[|events| - 1];
      Triggered(active, init, secondary, primary)
      && (last.Activated? ==> last.unit == secondary && primary in After(active, init))
  }

  /** With an active timer the handler's order can leave the triggered service running. */
  lemma TimerCanWin(cfg: Config, name: string, active: set<string>)
    requires |Plan(cfg, Stop, name)| == 2
    requires Plan(cfg, Stop, name)[0].unit != Plan(cfg, Stop, name)[1].unit && Plan(cfg, Stop, name)[1].unit in active
    ensures var plan := Plan(cfg, Stop, name);
      exists between ::
        && Triggered(active, Interleaved(plan, [], between), plan[0].unit, plan[1].unit)
        && plan[0].unit in After(active, Interleaved(plan, [], between))
  {
    var plan := Plan(cfg, Stop, name);
    var secondary, primary := plan[0].unit, plan[1].unit;
    var between := [Activated(secondary)];
    StopWithSecondary(cfg, Stop, name, active, [], between);
    TriggeredInBetween(active, secondary, primary);
    assert Interleaved(plan, [], between) == [Stopped(secondary), Activated(secondary), Stopped(primary)];
    assert EndsActivated(between, secondary);
    assert Triggered(active, Interleaved(plan, [], between), secondary, primary);
  }

  lemma TriggeredInBetween(active: set<string>, secondary: string, primary: string)
    requires secondary != primary && primary in active
    ensures Triggered(active, [Stopped(secondary), Activated(secondary), Stopped(primary)], secondary, primary)
  {
    var e1, e2 := [Stopped(secondary)], [Stopped(secondary), Activated(secondary)];
    assert e1[..0] == [] && e2[..1] == e1;
    assert Triggered(active, [], secondary, primary);
    assert primary in After(active, e1);
    assert [Stopped(secondary), Activated(secondary), Stopped(primary)][..2] == e2;
  }

  /** Without its timer nothing starts the service again. */
  lemma {:induction false} NothingTriggersAgain(active: set<string>, events: seq<Event>, secondary: string, primary: string)
    requires secondary != primary && primary !in active && Triggered(active, events, secondary, primary)
    ensures primary !in After(active, events)
    ensures secondary !in active ==> secondary !in After(active, events)
  {
    if events != [] {
      NothingTriggersAgain(active, events[..|events| - 1], secondary, primary);
    }
  }

  lemma {:induction false} NoActivation(active: set<string>, events: seq<Event>, secondary: string, primary: string)
    requires secondary != primary && primary !in active && Triggered(active, events, secondary, primary)
    ensures forall k :: 0 <= k < |events| ==> !events[k].Activated?
  {
    if events != [] {
      var init := events[..|events| - 1];
      NoActivation(active, init, secondary, primary);
      NothingTriggersAgain(active, init, secondary, primary);
      assert forall k :: 0 <= k < |init| ==> events[k] == init[k];
    }
  }

  lemma {:induction false} QuietEndsQuiet(events: seq<Event>, unit: string)
    requires forall k :: 0 <= k < |events| ==> !events[k].Activated?
    ensures !EndsActivated(events, unit)
  {
    if events != [] {
      QuietEndsQuiet(events[..|events| - 1], unit);
    }
  }

  /** Some way for the timer to behave around the two commands leaves the triggered unit running. */
  ghost predicate CanBeLeftRunning(cfg: Config, name: string, active: set<string>)
    requires |Plan(cfg, Stop, name)| == 2
  {
    var plan := Plan(cfg, Stop, name);
    exists before: seq<Event>, between: seq<Event> :: LeftRunning(plan, active, before, between)
  }

  ghost predicate LeftRunning(plan: seq<Command>, active: set<string>, before: seq<Event>, between: seq<Event>)
    requires |plan| == 2 && plan[0].Mutate? && plan[1].Mutate?
  {
    && Triggered(active, Interleaved(plan, before, between), plan[0].unit, plan[1].unit)
    && plan[0].unit in After(active, Interleaved(plan, before, between))
  }

  /** A succeeding stop can leave the triggered unit running if and only if its timer is active at the call. */
  lemma TimerDecides(cfg: Config, name: string, active: set<string>)
    requires |Plan(cfg, Stop, name)| == 2
    requires Plan(cfg, Stop, name)[0].unit != Plan(cfg, Stop, name)[1].unit
    ensures CanBeLeftRunning(cfg, name, active) <==> Plan(cfg, Stop, name)[1].unit in active
  {
    var plan := Plan(cfg, Stop, name);
    if plan[1].unit in active {
      TimerCanWin(cfg, name, active);
      var between :| Triggered(active, Interleaved(plan, [], between), plan[0].unit, plan[1].unit)
        && plan[0].unit in After(active, Interleaved(plan, [], between));
      assert LeftRunning(plan, active, [], between);
    } else {
      forall before: seq<Event>, between: seq<Event> ensures !LeftRunning(plan, active, before, between) {
        var events := Interleaved(plan, before, between);
        if Triggered(active, events, plan[0].unit, plan[1].unit) {
          NoActivation(active, events, plan[0].unit, plan[1].unit);
          StopWithSecondary(cfg, Stop, name, active, before, between);
          forall k | 0 <= k < |between| ensures !between[k].Activated? {
            assert events[|before| + 1 + k] == between[k];
          }
          QuietEndsQuiet(between, plan[0].unit);
        }
      }
    }
  }

  /** Stopping the timer first would be safe whatever happens between and after the commands. */
  lemma ReverseOrderIsSafe(
      active: set<string>, secondary: string, between: seq<Event>, later: seq<Event>, primary: string)
    requires secondary != primary
    requires Triggered(active - {primary}, between, secondary, primary)
    requires Triggered(After(active - {primary}, between) - {secondary}, later, secondary, primary)
    ensures var stopped := After(After(active - {primary}, between) - {secondary}, later);
      primary !in stopped && secondary !in stopped
  {
    NothingTriggersAgain(active - {primary}, between, secondary, primary);
    NothingTriggersAgain(After(active - {primary}, between) - {secondary}, later, secondary, primary);
  }
}
