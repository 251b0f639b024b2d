/**
 The client manager's calls as undisturbed runs of the concurrent machine: a goroutine that meets
 nobody at the lock gets through, and what it leaves behind is what the call is for.
 */
module ClientRuns {
  import opened Common
  import opened ConnectionStore
  import opened ClientManager

  lemma Then(cfg: Config, s: State, a: Action, rest: seq<Action>)
    requires Next(cfg, s, a).Some?
    ensures Run(cfg, s, [a] + rest) == Run(cfg, Next(cfg, s, a).value, rest)
  {
    assert ([a] + rest)[1..] == rest;
  }

  lemma OneStep(cfg: Config, s: State, a: Action)
    requires Next(cfg, s, a).Some?
    ensures Run(cfg, s, [a]) == Next(cfg, s, a)
  {
    assert [a][1..] == [];
  }

  lemma GotoTwice(s: State, i: nat, p: Pc, q: Pc)
    requires i < |s.threads|
    ensures Goto(Goto(s, i, p), i, q) == Goto(s, i, q)
  {
    assert s.threads[i := p][i := q] == s.threads[i := q];
  }

  lemma Leave(cfg: Config, s: State, i: nat) returns (run: seq<Action>)
    requires i < |s.threads| && s.threads[i] == Leaving
    ensures Run(cfg, s, run) == Some(Goto(s, i, Idle).(writer := None))
  {
    run := [Step(i, false, "")];
    OneStep(cfg, s, run[0]);
  }

  /** With the write lock the section runs through to what `Create` computes. */
  lemma CreateAndLeave(cfg: Config, s: State, i: nat, t: Target, dials: bool) returns (run: seq<Action>)
    requires i < |s.threads| && s.threads[i] == Checking(t)
    ensures Run(cfg, s, run) == Some(Goto(s, i, Idle).(writer := None, store := Create(cfg, s.store, t, dials).0))
  {
    var step := Step(i, dials, "");
    var s1 := Next(cfg, s, step).value;
    if s1.threads[i].Creating? {
      var s2 := Next(cfg, s1, step).value;
      var s3 := Next(cfg, s2, step).value;
      GotoTwice(s, i, s1.threads[i], s2.threads[i]);
      GotoTwice(s, i, s2.threads[i], s3.threads[i]);
      GotoTwice(s, i, s3.threads[i], Idle);
      var rest := Leave(cfg, s3, i);
      Then(cfg, s2, step, rest);
      Then(cfg, s1, step, [step] + rest);
      Then(cfg, s, step, [step] + ([step] + rest));
      run := [step] + ([step] + ([step] + rest));
    } else {
      GotoTwice(s, i, Leaving, Idle);
      var rest := Leave(cfg, s1, i);
      Then(cfg, s, step, rest);
      run := [step] + rest;
    }
  }

  lemma MissedAndCreate(cfg: Config, s: State, i: nat, t: Target, dials: bool) returns (run: seq<Action>)
    requires i < |s.threads| && s.threads[i] == Missed(t) && s.writer == None && s.readers == {}
    requires ClientsAt(s.store, t).None?
    ensures Run(cfg, s, run) == Some(Goto(s, i, Idle).(store := Create(cfg, s.store, t, dials).0))
  {
    var step := Step(i, dials, "");
    if t.Bridge? && !cfg.bridgeEnabled {
      run := [step];
      OneStep(cfg, s, step);
    } else {
      var s1 := Next(cfg, s, step).value;
      assert s1.threads[i] == Checking(t);
      var rest := CreateAndLeave(cfg, s1, i, t, dials);
      GotoTwice(s, i, Checking(t), Idle);
      Then(cfg, s, step, rest);
      run := [step] + rest;
    }
  }

  /** A lookup that meets nobody leaves exactly what `Create` computes, and is done. */
  lemma UndisturbedLookup(cfg: Config, s: State, i: nat, t: Target, dials: bool) returns (run: seq<Action>)
    requires i < |s.threads| && s.threads[i] == Idle && s.writer == None && s.readers == {}
    ensures run != [] && run[0] == Action.Lookup(i, t)
    ensures Run(cfg, s, run) == Some(s.(store := Create(cfg, s.store, t, dials).0))
  {
    var step, begin := Step(i, dials, ""), Action.Lookup(i, t);
    var s1 := Next(cfg, s, begin).value;
    var s2 := Next(cfg, s1, step).value;
    var s3 := Next(cfg, s2, step).value;
    var s4 := Next(cfg, s3, step).value;
    assert s1 == Goto(s, i, Looking(t));
    GotoTwice(s, i, Looking(t), Reading(t));
    assert s2 == Goto(s, i, Reading(t)).(readers := {i});
    var found := ClientsAt(s.store, t);
    GotoTwice(s, i, Reading(t), Read(t, found));
    GotoTwice(s, i, Read(t, found), s4.threads[i]);
    assert {i} - {i} == {};
    var rest: seq<Action>;
    if found.Some? {
      rest := [];
      assert s.threads[i := Idle] == s.threads;
      assert Run(cfg, s4, []) == Some(s4);
    } else {
      rest := MissedAndCreate(cfg, s4, i, t, dials);
      GotoTwice(s, i, Missed(t), Idle);
      assert s.threads[i := Idle] == s.threads;
    }
    Then(cfg, s3, step, rest);
    Then(cfg, s2, step, [step] + rest);
    Then(cfg, s1, step, [step] + ([step] + rest));
    Then(cfg, s, begin, [step] + ([step] + ([step] + rest)));
    run := [begin] + ([step] + ([step] + ([step] + rest)));
  }

  /** The loop over the stored connections of the modules. */
  lemma {:induction false} CloseModules(cfg: Config, s: State, i: nat, remaining: set<string>)
    returns (run: seq<Action>, closes: seq<nat>)
    requires i < |s.threads| && s.threads[i] == Tearing(Closing(remaining))
    requires remaining <= s.store.connections.Keys && Filed(cfg, s.store)
    ensures Run(cfg, s, run) == Some(Goto(s, i, Tearing(Closing({}))).(store := s.store.(closes := closes)))
    ensures forall c ::
      FinalCloses(s.store.(closes := closes), Tearing(Closing({})), c) == FinalCloses(s.store, Tearing(Closing(remaining)), c)
    decreases remaining
  {
    if remaining == {} {
      run, closes := [], s.store.closes;
      assert s.threads[i := Tearing(Closing({}))] == s.threads;
    } else {
      var pick :| pick in remaining;
      var step, less := Step(i, false, pick), remaining - {pick};
      var next := CloseConn(s.store, s.store.connections[pick]);
      var s1 := Next(cfg, s, step).value;
      assert s1 == Goto(s, i, Tearing(Closing(less))).(store := next);
      FiledIgnoresCloses(cfg, s.store, next);
      var rest;
      rest, closes := CloseModules(cfg, s1, i, less);
      GotoTwice(s, i, Tearing(Closing(less)), Tearing(Closing({})));
      Then(cfg, s, step, rest);
      run := [step] + rest;
      forall c
        ensures FinalCloses(s.store.(closes := closes), Tearing(Closing({})), c) == FinalCloses(s.store, Tearing(Closing(remaining)), c)
      {
        CloseOneKeepsFinal(cfg, s.store, remaining, pick, c);
        assert next.(closes := closes) == s.store.(closes := closes);
      }
    }
  }

  lemma FiledIgnoresCloses(cfg: Config, st: Store, next: Store)
    requires Filed(cfg, st) && next == st.(closes := next.closes)
    ensures Filed(cfg, next)
  {
    assert forall u :: ConnAt(next, u) == ConnAt(st, u) && ClientsAt(next, u) == ClientsAt(st, u);
  }

  /** The four assignments after the last close. */
  lemma ResetAndLeave(cfg: Config, s: State, i: nat, k: nat) returns (run: seq<Action>)
    requires i < |s.threads| && s.threads[i] == Tearing(Resetting(k)) && k <= 3
    ensures Run(cfg, s, run) == Some(Goto(s, i, Idle).(writer := None, store := ResetFrom(s.store, k)))
    decreases 3 - k
  {
    var step := Step(i, false, "");
    var pc := if k < 3 then Tearing(Resetting(k + 1)) else Leaving;
    var s1 := Next(cfg, s, step).value;
    assert s1 == Goto(s, i, pc).(store := ResetField(s.store, k));
    var rest;
    if k < 3 {
      rest := ResetAndLeave(cfg, s1, i, k + 1);
    } else {
      rest := Leave(cfg, s1, i);
    }
    GotoTwice(s, i, pc, Idle);
    Then(cfg, s, step, rest);
    run := [step] + rest;
  }

  function ResetFrom(st: Store, k: nat): Store
    decreases 4 - k
  {
    if k >= 4 then st else ResetFrom(ResetField(st, k), k + 1)
  }

  lemma CloseBridgeAndLeave(cfg: Config, s: State, i: nat) returns (run: seq<Action>)
    requires i < |s.threads| && s.threads[i] == Tearing(Closing({}))
    ensures Run(cfg, s, run) == Some(Goto(s, i, Idle).(writer := None, store := TearDown(s.store)))
  {
    var step := Step(i, false, "");
    var s1 := Next(cfg, s, step).value;
    var s2 := Next(cfg, s1, step).value;
    GotoTwice(s, i, Tearing(ClosingBridge), Tearing(Resetting(0)));
    var rest := ResetAndLeave(cfg, s2, i, 0);
    GotoTwice(s, i, Tearing(Resetting(0)), Idle);
    ResetsInTurn(s2.store);
    Then(cfg, s1, step, rest);
    Then(cfg, s, step, [step] + rest);
    run := [step] + ([step] + rest);
  }

  lemma ResetsInTurn(st: Store)
    ensures ResetFrom(st, 0) == ResetField(ResetField(ResetField(ResetField(st, 0), 1), 2), 3)
  {
    var s1 := ResetField(st, 0);
    var s2 := ResetField(s1, 1);
    var s3 := ResetField(s2, 2);
    assert ResetFrom(s3, 3) == ResetField(s3, 3);
    assert ResetFrom(s2, 2) == ResetFrom(s3, 3);
    assert ResetFrom(s1, 1) == ResetFrom(s2, 2);
  }

  lemma TornDownCount(st: Store, c: nat)
    ensures Closes(TearDown(st).closes, c) == FinalCloses(st, Tearing(Closing({})), c)
  {
    LastModuleKeepsFinal(st, c);
    BridgeKeepsFinal(st, c);
  }

  /** The store after a `Close` begun in `before`: empty fields, a new period, and one more close for everything stored. */
  ghost predicate Closed(before: Store, after: Store) {
    && after.connections == map[] && after.clients == map[] && after.bridgeConn == None && after.bridge == None
    && after.dialed == before.dialed && after.lookups == before.lookups && after.epoch == before.epoch + 1
    && forall c: nat :: Closes(after.closes, c)
                     == Closes(before.closes, c) + (if exists t :: ConnAt(before, t) == Some(c) then 1 else 0)
  }

  lemma TearDownCloses(before: Store, closes: seq<nat>)
    requires forall c: nat ::
      FinalCloses(before.(closes := closes), Tearing(Closing({})), c)
      == FinalCloses(before, Tearing(Closing(before.connections.Keys)), c)
    ensures Closed(before, TearDown(before.(closes := closes)))
  {
    var st := before.(closes := closes);
    TearDownForgets(st);
    forall c: nat
      ensures Closes(TearDown(st).closes, c)
           == Closes(before.closes, c) + (if exists t :: ConnAt(before, t) == Some(c) then 1 else 0)
    {
      TornDownCount(st, c);
      EverythingStillToClose(before, c);
    }
  }

  /** With the write lock `Close` runs through. */
  lemma CloseAndLeave(cfg: Config, s: State, i: nat) returns (run: seq<Action>, after: Store)
    requires i < |s.threads| && s.threads[i] == Tearing(Closing(s.store.connections.Keys)) && Filed(cfg, s.store)
    ensures Run(cfg, s, run) == Some(Goto(s, i, Idle).(writer := None, store := after))
    ensures Closed(s.store, after)
  {
    var keys := s.store.connections.Keys;
    var loop, closes := CloseModules(cfg, s, i, keys);
    var s1 := Run(cfg, s, loop).value;
    var rest := CloseBridgeAndLeave(cfg, s1, i);
    GotoTwice(s, i, Tearing(Closing({})), Idle);
    after := TearDown(s1.store);
    RunOn(cfg, s, loop, rest);
    run := loop + rest;
    TearDownCloses(s.store, closes);
  }

  /**
   A `Close` that meets nobody empties the four fields, begins a new period, and closes once more
   exactly the connections that were stored.
   */
  lemma UndisturbedClose(cfg: Config, s: State, i: nat) returns (run: seq<Action>, after: Store)
    requires Reachable(cfg, s) && i < |s.threads| && s.threads[i] == Idle && s.writer == None && s.readers == {}
    ensures run != [] && run[0] == Shutdown(i)
    ensures Run(cfg, s, run) == Some(s.(store := after)) && Closed(s.store, after)
  {
    assert Filed(cfg, s.store) by {
      ReachableInv(cfg, s);
    }
    var step, begin := Step(i, false, ""), Shutdown(i);
    var locked := Tearing(Closing(s.store.connections.Keys));
    var s1 := Next(cfg, s, begin).value;
    var s2 := Next(cfg, s1, step).value;
    GotoTwice(s, i, Shutting, locked);
    assert s2 == Goto(s, i, locked).(writer := Some(i));
    var rest;
    rest, after := CloseAndLeave(cfg, s2, i);
    GotoTwice(s, i, locked, Idle);
    assert s.threads[i := Idle] == s.threads;
    Then(cfg, s1, step, rest);
    Then(cfg, s, begin, [step] + rest);
    run := [begin] + ([step] + rest);
  }

  lemma {:induction false} RunOn(cfg: Config, s: State, run: seq<Action>, rest: seq<Action>)
    requires Run(cfg, s, run).Some?
    ensures Run(cfg, s, run + rest) == Run(cfg, Run(cfg, s, run).value, rest)
    decreases |run|
  {
    if run == [] {
      assert run + rest == rest;
    } else {
      assert (run + rest)[1..] == run[1..] + rest;
      RunOn(cfg, Next(cfg, s, run[0]).value, run[1..], rest);
    }
  }
}
