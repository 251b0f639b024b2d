/**
 Goroutines that each report at most one message into one buffered channel while a
 sync.WaitGroup counts them. Every fan-out of the gateway is built from this part; the
 modules FleetOperation and FanIn add the code that spawns, waits, closes and drains.
 */
module WorkerPool {
  import opened Common

  /** What one goroutine will do: it may give up before its remote call, and it may stay silent. */
  datatype Job<+M> = Job(calls: bool, message: Option<M>)

  /** Where one goroutine stands. `Sent` is the point just before its deferred `wg.Done()`. */
  datatype Phase<+M> = Unborn | Working | Calling | Sending(message: M) | Sent | Finished

  /** `panicked` records a send on a closed channel, a second close or a negative counter. */
  datatype Pool<+M> = Pool(phases: seq<Phase<M>>, wg: int, buffer: seq<M>, closed: bool, panicked: bool)

  function Fresh<M>(workers: nat): Pool<M> {
    Pool(seq(workers, _ => Unborn), 0, [], false, false)
  }

  /** `wg.Add(1)` and `go` */
  function Spawn<M>(p: Pool<M>, i: nat): Pool<M>
    requires i < |p.phases|
  {
    p.(wg := p.wg + 1, phases := p.phases[i := Working])
  }

  function Close<M>(p: Pool<M>): Pool<M> {
    if p.closed then p.(panicked := true) else p.(closed := true)
  }

  /** What a goroutine does once it knows its outcome. */
  function Report<M>(job: Job<M>): Phase<M> {
    match job.message
    case Some(m) => Sending(m)
    case None => Sent
  }

  function Advance<M>(job: Job<M>, q: Phase<M>): Phase<M> {
    match q
    case Unborn => Working
    case Working => if job.calls then Calling else Report(job)
    case Calling => Report(job)
    case Sending(_) => Sent
    case Sent => Finished
    case Finished => Finished
  }

  /** One step of goroutine `i`; `None` when it is blocked or has nothing left to do. */
  function WorkerStep<M>(jobs: seq<Job<M>>, capacity: nat, p: Pool<M>, i: nat): Option<Pool<M>>
    requires i < |p.phases| == |jobs|
  {
    var next := p.(phases := p.phases[i := Advance(jobs[i], p.phases[i])]);
    match p.phases[i]
    case Unborn => None
    case Working => Some(next)
    case Calling => Some(next)
    case Sending(m) =>
      if p.closed then Some(p.(panicked := true))
      else if |p.buffer| < capacity then Some(next.(buffer := p.buffer + [m]))
      else None
    case Sent => Some(next.(wg := p.wg - 1, panicked := p.panicked || p.wg < 1))
    case Finished => None
  }

  function Counted<M>(q: Phase<M>): nat {
    if q.Unborn? || q.Finished? then 0 else 1
  }

  function Rank<M>(q: Phase<M>): nat {
    match q
    case Unborn => 5
    case Working => 4
    case Calling => 3
    case Sending(_) => 2
    case Sent => 1
    case Finished => 0
  }

  lemma AdvanceLowersRank<M>(job: Job<M>, q: Phase<M>)
    ensures q != Finished ==> Rank(Advance(job, q)) < Rank(q)
  {
  }

  /** What a goroutine has put into the channel by the time it is in phase `q`. */
  ghost function Contribution<M>(job: Job<M>, q: Phase<M>): multiset<M> {
    if (q.Sent? || q.Finished?) && job.message.Some? then multiset{job.message.value} else multiset{}
  }

  ghost function Counts<M>(phases: seq<Phase<M>>): seq<nat> {
    seq(|phases|, i requires 0 <= i < |phases| => Counted(phases[i]))
  }

  ghost function Active<M>(phases: seq<Phase<M>>): nat {
    Sum(Counts(phases))
  }

  ghost function Ranks<M>(phases: seq<Phase<M>>): seq<nat> {
    seq(|phases|, i requires 0 <= i < |phases| => Rank(phases[i]))
  }

  ghost function Work<M>(phases: seq<Phase<M>>): nat {
    Sum(Ranks(phases))
  }

  ghost function Contributions<M>(jobs: seq<Job<M>>, phases: seq<Phase<M>>): seq<multiset<M>>
    requires |jobs| == |phases|
  {
    seq(|phases|, i requires 0 <= i < |phases| => Contribution(jobs[i], phases[i]))
  }

  ghost function Deposited<M>(jobs: seq<Job<M>>, phases: seq<Phase<M>>): multiset<M>
    requires |jobs| == |phases|
  {
    Total(Contributions(jobs, phases))
  }

  ghost function FinalContributions<M>(jobs: seq<Job<M>>): seq<multiset<M>> {
    seq(|jobs|, i requires 0 <= i < |jobs| => Contribution(jobs[i], Finished))
  }

  /** Every message the jobs will ever send. */
  ghost function Messages<M>(jobs: seq<Job<M>>): multiset<M> {
    Total(FinalContributions(jobs))
  }

  ghost predicate AllFinished<M>(p: Pool<M>) {
    forall i :: 0 <= i < |p.phases| ==> p.phases[i] == Finished
  }

  /**
   The pool invariant. The last clause is conservation: the messages still in the channel and
   those already `taken` out of it are exactly the ones the goroutines have sent.
   */
  ghost predicate Sound<M>(jobs: seq<Job<M>>, capacity: nat, p: Pool<M>, taken: seq<M>) {
    && |p.phases| == |jobs|
    && !p.panicked
    && p.wg == Active(p.phases)
    && (forall i :: 0 <= i < |jobs| && p.phases[i].Sending? ==> jobs[i].message == Some(p.phases[i].message))
    && |p.buffer| <= capacity
    && (p.closed ==> AllFinished(p))
    && multiset(p.buffer) + multiset(taken) == Deposited(jobs, p.phases)
  }

  /** The effect of one phase change on the three sums over all goroutines. */
  lemma PhaseChange<M>(jobs: seq<Job<M>>, phases: seq<Phase<M>>, i: nat, q: Phase<M>)
    requires i < |phases| == |jobs|
    ensures Active(phases[i := q]) == Active(phases) + Counted(q) - Counted(phases[i])
    ensures Work(phases[i := q]) == Work(phases) + Rank(q) - Rank(phases[i])
    ensures Deposited(jobs, phases[i := q]) + Contribution(jobs[i], phases[i])
         == Deposited(jobs, phases) + Contribution(jobs[i], q)
  {
    var after := phases[i := q];
    assert Counts(after) == Counts(phases)[i := Counted(q)];
    SumUpdate(Counts(phases), i, Counted(q));
    assert Ranks(after) == Ranks(phases)[i := Rank(q)];
    SumUpdate(Ranks(phases), i, Rank(q));
    var parts := Contributions(jobs, phases);
    assert Contributions(jobs, after) == parts[i := Contribution(jobs[i], q)];
    TotalUpdate(parts, i, Contribution(jobs[i], q));
  }

  lemma FreshIsSound<M>(jobs: seq<Job<M>>, capacity: nat)
    ensures Sound(jobs, capacity, Fresh(|jobs|), [])
    ensures Work(Fresh<M>(|jobs|).phases) == 5 * |jobs|
  {
    var phases := Fresh<M>(|jobs|).phases;
    SumZero(Counts(phases));
    SumOfConstant(Ranks(phases), 5);
    TotalOfNothing(Contributions(jobs, phases));
  }

  lemma {:induction false} SumOfConstant(items: seq<nat>, c: nat)
    requires forall i :: 0 <= i < |items| ==> items[i] == c
    ensures Sum(items) == c * |items|
  {
    if items != [] {
      SumOfConstant(items[1..], c);
    }
  }

  lemma {:induction false} TotalOfNothing<T>(items: seq<multiset<T>>)
    requires forall i :: 0 <= i < |items| ==> items[i] == multiset{}
    ensures Total(items) == multiset{}
  {
    if items != [] {
      TotalOfNothing(items[1..]);
    }
  }

  lemma SpawnIsSound<M>(jobs: seq<Job<M>>, capacity: nat, p: Pool<M>, taken: seq<M>, i: nat)
    requires Sound(jobs, capacity, p, taken) && i < |jobs| && p.phases[i] == Unborn
    ensures Sound(jobs, capacity, Spawn(p, i), taken)
    ensures Work(Spawn(p, i).phases) == Work(p.phases) - 1
  {
    MoveIsSound(jobs, capacity, p, taken, i, Spawn(p, i));
  }

  /** The counter, the channel and the phase of goroutine `i` change together. */
  ghost predicate Moves<M>(job: Job<M>, capacity: nat, p: Pool<M>, i: nat, next: Pool<M>)
    requires i < |p.phases|
  {
    var before, after := p.phases[i], Advance(job, p.phases[i]);
    && next.phases == p.phases[i := after]
    && (after.Sending? ==> job.message == Some(after.message))
    && !next.panicked && !next.closed && |next.buffer| <= capacity
    && next.wg == p.wg + Counted(after) - Counted(before)
    && multiset(next.buffer) + Contribution(job, before) == multiset(p.buffer) + Contribution(job, after)
  }

  lemma MoveIsSound<M>(jobs: seq<Job<M>>, capacity: nat, p: Pool<M>, taken: seq<M>, i: nat, next: Pool<M>)
    requires Sound(jobs, capacity, p, taken) && i < |jobs|
    requires Moves(jobs[i], capacity, p, i, next)
    ensures Sound(jobs, capacity, next, taken)
    ensures Work(next.phases) == Work(p.phases) + Rank(Advance(jobs[i], p.phases[i])) - Rank(p.phases[i])
  {
    PhaseChange(jobs, p.phases, i, next.phases[i]);
    Rebalance(multiset(p.buffer), Deposited(jobs, p.phases), multiset(next.buffer), Deposited(jobs, next.phases),
              multiset(taken), Contribution(jobs[i], p.phases[i]), Contribution(jobs[i], next.phases[i]));
  }

  lemma WorkerMoves<M>(jobs: seq<Job<M>>, capacity: nat, p: Pool<M>, i: nat)
    requires i < |p.phases| == |jobs| && !p.panicked && !p.closed && |p.buffer| <= capacity
    requires p.phases[i].Sending? ==> jobs[i].message == Some(p.phases[i].message)
    requires p.phases[i].Sent? ==> p.wg > 0
    ensures var q := WorkerStep(jobs, capacity, p, i);
      q.Some? ==>
        && Moves(jobs[i], capacity, p, i, q.value)
        && |q.value.buffer| == |p.buffer| + (if p.phases[i].Sending? then 1 else 0)
  {
    match p.phases[i]
    case Unborn =>
    case Working =>
    case Calling =>
    case Sending(m) =>
      assert multiset(p.buffer + [m]) == multiset(p.buffer) + multiset{m};
    case Sent =>
    case Finished =>
  }

  /**
   A goroutine's step keeps the invariant, never panics, and uses up work: sending adds one
   message to the channel but costs its sender a rank.
   */
  lemma WorkerStepIsSound<M>(jobs: seq<Job<M>>, capacity: nat, p: Pool<M>, taken: seq<M>, i: nat)
    requires Sound(jobs, capacity, p, taken) && i < |jobs|
    requires WorkerStep(jobs, capacity, p, i).Some?
    ensures var next := WorkerStep(jobs, capacity, p, i).value;
      && Sound(jobs, capacity, next, taken)
      && next.phases == p.phases[i := Advance(jobs[i], p.phases[i])]
      && next.closed == p.closed
      && 2 * Work(next.phases) + |next.buffer| < 2 * Work(p.phases) + |p.buffer|
  {
    if p.phases[i].Sent? {
      ActiveIsPositive(p.phases, i);
    }
    assert !p.closed;
    WorkerMoves(jobs, capacity, p, i);
    var next := WorkerStep(jobs, capacity, p, i).value;
    MoveIsSound(jobs, capacity, p, taken, i, next);
    AdvanceLowersRank(jobs[i], p.phases[i]);
    assert Work(next.phases) < Work(p.phases);
  }

  lemma ActiveIsPositive<M>(phases: seq<Phase<M>>, i: nat)
    requires i < |phases| && Counted(phases[i]) == 1
    ensures Active(phases) > 0
  {
    SumZero(Counts(phases));
    assert Counts(phases)[i] == 1;
  }

  lemma SomebodyCounts<M>(phases: seq<Phase<M>>) returns (i: nat)
    requires Active(phases) != 0
    ensures i < |phases| && Counted(phases[i]) == 1
  {
    SumZero(Counts(phases));
    i :| i < |phases| && Counts(phases)[i] != 0;
  }

  /** Receiving the oldest message moves it from the channel to the receiver. */
  lemma ReceiveIsSound<M>(jobs: seq<Job<M>>, capacity: nat, p: Pool<M>, taken: seq<M>)
    requires Sound(jobs, capacity, p, taken) && p.buffer != []
    ensures Sound(jobs, capacity, p.(buffer := p.buffer[1..]), taken + [p.buffer[0]])
  {
    assert p.buffer == [p.buffer[0]] + p.buffer[1..];
    assert multiset(p.buffer) == multiset{p.buffer[0]} + multiset(p.buffer[1..]);
    assert multiset(taken + [p.buffer[0]]) == multiset(taken) + multiset{p.buffer[0]};
  }

  /** `wg.Wait()` returns: every goroutine that was started has finished. */
  lemma WaitMeansFinished<M>(jobs: seq<Job<M>>, capacity: nat, p: Pool<M>, taken: seq<M>)
    requires Sound(jobs, capacity, p, taken) && p.wg == 0
    ensures forall i :: 0 <= i < |jobs| ==> p.phases[i] == Unborn || p.phases[i] == Finished
  {
    forall i | 0 <= i < |jobs| ensures p.phases[i] == Unborn || p.phases[i] == Finished {
      if Counted(p.phases[i]) == 1 {
        ActiveIsPositive(p.phases, i);
      }
    }
  }

  /** When nobody is left, the channel has carried every message exactly once. */
  lemma FinishedMeansDelivered<M>(jobs: seq<Job<M>>, capacity: nat, p: Pool<M>, taken: seq<M>)
    requires Sound(jobs, capacity, p, taken) && AllFinished(p)
    ensures multiset(p.buffer) + multiset(taken) == Messages(jobs)
    ensures p.wg == 0
  {
    assert Contributions(jobs, p.phases) == FinalContributions(jobs);
    SumZero(Counts(p.phases));
  }

  /** A goroutine about to send has not sent yet, so the channel holds fewer messages than there are jobs. */
  lemma SenderFindsRoom<M>(jobs: seq<Job<M>>, capacity: nat, p: Pool<M>, taken: seq<M>, i: nat)
    requires Sound(jobs, capacity, p, taken) && i < |jobs| && p.phases[i].Sending?
    ensures |p.buffer| + |taken| < |jobs|
  {
    var parts := Contributions(jobs, p.phases);
    TotalSize(parts);
    assert parts[i] == multiset{};
    assert |multiset(p.buffer) + multiset(taken)| == |p.buffer| + |taken|;
  }

  /** A goroutine that has started and not finished can move unless the channel is full. */
  lemma WorkerEnabled<M>(jobs: seq<Job<M>>, capacity: nat, p: Pool<M>, i: nat)
    requires i < |p.phases| == |jobs|
    ensures WorkerStep(jobs, capacity, p, i).None? <==>
      (p.phases[i].Unborn? || p.phases[i].Finished? || (p.phases[i].Sending? && !p.closed && |p.buffer| >= capacity))
  {
  }
}
