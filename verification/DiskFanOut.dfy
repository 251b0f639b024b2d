/**
 Measuring all configured disks at once: `GetAllDiskUsages` with one worker per disk, and under
 each worker the goroutine of `getDiskUsageForPath` that does the system calls and may outlive
 the worker's timeout.
 */
module DiskFanOut {
  import opened Common
  import opened DiskUsage

  datatype DiskEntry = DiskEntry(name: string, mountPath: string, description: string)

  /** What the file system answers for a path. */
  datatype Probe = Failed | Measured(usage: Usage)

  type FileSystem = string -> Probe

  /** `Selecting` waits for the prober's answer or the context; `Leaving` is before `wg.Done()`. */
  datatype Worker =
    | Unborn | Starting | Selecting
    | Storing(usage: Usage) | Holding(usage: Usage) | Unlocking
    | Leaving | Finished

  datatype Prober = Absent | Probing | Offering | Ended

  /** How a worker's disk came out. */
  datatype Verdict = Pending | Stored | NotMeasured | TimedOut

  /** One disk: its two goroutines, the channel of capacity one between them, and the verdict. */
  datatype Slot = Slot(worker: Worker, prober: Prober, channel: Option<Probe>, verdict: Verdict)

  datatype Main = Spawning(next: nat) | Waiting | Returned

  datatype State = State(slots: seq<Slot>, wg: int, mutex: Option<nat>, results: map<string, Usage>, main: Main)

  datatype Actor = Handler | WorkerOf(index: nat) | TimeoutOf(index: nat) | ProberOf(index: nat)

  /** The path measured for a disk: its own, or the root for an empty one. */
  function PathOf(d: DiskEntry): string {
    if d.mountPath == "" then "/" else d.mountPath
  }

  function Init(disks: seq<DiskEntry>): State {
    State(seq(|disks|, _ => Slot(Unborn, Absent, None, Pending)), 0, None, map[], Spawning(0))
  }

  function Put(s: State, i: nat, slot: Slot): State
    requires i < |s.slots|
  {
    s.(slots := s.slots[i := slot])
  }

  function HandlerStep(s: State): Option<State> {
    match s.main
    case Spawning(k) =>
      if k < |s.slots| then
        Some(Put(s, k, s.slots[k].(worker := Starting)).(wg := s.wg + 1, main := Spawning(k + 1)))
      else Some(s.(main := Waiting))
    case Waiting => if s.wg == 0 then Some(s.(main := Returned)) else None
    case Returned => None
  }

  function WorkerStep(disks: seq<DiskEntry>, s: State, i: nat): Option<State>
    requires i < |s.slots| == |disks|
  {
    var slot := s.slots[i];
    match slot.worker
    case Unborn => None
    case Starting => Some(Put(s, i, slot.(worker := Selecting, prober := Probing)))
    case Selecting =>
      if slot.channel.None? then None
      else
        match slot.channel.value {
          case Measured(u) => Some(Put(s, i, slot.(worker := Storing(u), channel := None)))
          case Failed => Some(Put(s, i, slot.(worker := Leaving, channel := None, verdict := NotMeasured)))
        }
    case Storing(u) => if s.mutex == None then Some(Put(s, i, slot.(worker := Holding(u))).(mutex := Some(i))) else None
    case Holding(u) =>
      Some(Put(s, i, slot.(worker := Unlocking, verdict := Stored)).(results := s.results[disks[i].name := u]))
    case Unlocking => Some(Put(s, i, slot.(worker := Leaving)).(mutex := None))
    case Leaving => Some(Put(s, i, slot.(worker := Finished)).(wg := s.wg - 1))
    case Finished => None
  }

  /** The context of one disk can be over at any moment. */
  function TimeoutStep(s: State, i: nat): Option<State>
    requires i < |s.slots|
  {
    if s.slots[i].worker == Selecting then Some(Put(s, i, s.slots[i].(worker := Leaving, verdict := TimedOut)))
    else None
  }

  /** The prober answers into the channel, whether or not anybody still listens. */
  function ProberStep(disks: seq<DiskEntry>, fs: FileSystem, s: State, i: nat): Option<State>
    requires i < |s.slots| == |disks|
  {
    var slot := s.slots[i];
    match slot.prober
    case Absent => None
    case Probing => Some(Put(s, i, slot.(prober := Offering)))
    case Offering =>
      if slot.channel.None? then Some(Put(s, i, slot.(prober := Ended, channel := Some(fs(PathOf(disks[i])))))) else None
    case Ended => None
  }

  function Next(disks: seq<DiskEntry>, fs: FileSystem, s: State, a: Actor): Option<State> {
    if |s.slots| != |disks| || (!a.Handler? && a.index >= |disks|) then None
    else
      match a
      case Handler => HandlerStep(s)
      case WorkerOf(i) => WorkerStep(disks, s, i)
      case TimeoutOf(i) => TimeoutStep(s, i)
      case ProberOf(i) => ProberStep(disks, fs, s, i)
  }

  function Run(disks: seq<DiskEntry>, fs: FileSystem, s: State, run: seq<Actor>): Option<State>
    decreases |run|
  {
    if run == [] then Some(s)
    else
      match Next(disks, fs, s, run[0])
      case None => None
      case Some(t) => Run(disks, fs, t, run[1..])
  }

  ghost predicate Reachable(disks: seq<DiskEntry>, fs: FileSystem, s: State) {
    exists run :: Run(disks, fs, Init(disks), run) == Some(s)
  }

  ghost predicate Stuck(disks: seq<DiskEntry>, fs: FileSystem, s: State) {
    forall a :: Next(disks, fs, s, a) == None
  }

  // ---- The invariant ----

  function Counted(slot: Slot): nat {
    if slot.worker.Unborn? || slot.worker.Finished? then 0 else 1
  }

  ghost function Counts(slots: seq<Slot>): seq<nat> {
    seq(|slots|, i requires 0 <= i < |slots| => Counted(slots[i]))
  }

  /** What is known about one disk, given what its path measures. */
  ghost predicate SlotInv(slot: Slot, probe: Probe) {
    && (slot.worker.Unborn? || slot.worker.Starting? <==> slot.prober.Absent?)
    && (slot.channel.Some? ==> slot.prober.Ended? && slot.channel.value == probe)
    && (slot.worker.Selecting? && slot.prober.Ended? ==> slot.channel.Some?)
    && (slot.worker.Storing? || slot.worker.Holding? ==> probe == Measured(slot.worker.usage))
    && (slot.verdict == Stored ==> probe.Measured?)
    && (slot.verdict == NotMeasured ==> probe.Failed?)
    && (slot.worker.Unlocking? ==> slot.verdict == Stored)
    && (slot.worker.Leaving? || slot.worker.Finished? ==> slot.verdict != Pending)
    && (slot.verdict != Pending ==> slot.worker.Unlocking? || slot.worker.Leaving? || slot.worker.Finished?)
  }

  ghost predicate Slotted(disks: seq<DiskEntry>, fs: FileSystem, slots: seq<Slot>) {
    |slots| == |disks| && forall i :: 0 <= i < |disks| ==> SlotInv(slots[i], fs(PathOf(disks[i])))
  }

  ghost predicate Mutexed(slots: seq<Slot>, mutex: Option<nat>) {
    && (forall i :: 0 <= i < |slots| ==> (slots[i].worker.Holding? || slots[i].worker.Unlocking? <==> mutex == Some(i)))
    && (mutex.Some? ==> mutex.value < |slots|)
  }

  /** The map holds a usage for the names of the stored disks, and only usages one of them measured. */
  ghost predicate Recorded(disks: seq<DiskEntry>, fs: FileSystem, slots: seq<Slot>, results: map<string, Usage>)
    requires |slots| == |disks|
  {
    && (forall i :: 0 <= i < |disks| && slots[i].verdict == Stored ==> disks[i].name in results)
    && (forall n :: n in results ==> exists i :: Explains(disks, fs, slots, n, results[n], i))
  }

  ghost predicate Explains(disks: seq<DiskEntry>, fs: FileSystem, slots: seq<Slot>, name: string, u: Usage, i: int)
    requires |slots| == |disks|
  {
    0 <= i < |disks| && disks[i].name == name && slots[i].verdict == Stored && fs(PathOf(disks[i])) == Measured(u)
  }

  ghost predicate Staged(s: State) {
    match s.main
    case Spawning(k) => k <= |s.slots| && forall i :: 0 <= i < |s.slots| ==> (s.slots[i].worker.Unborn? <==> i >= k)
    case Waiting => forall i :: 0 <= i < |s.slots| ==> !s.slots[i].worker.Unborn?
    case Returned => forall i :: 0 <= i < |s.slots| ==> s.slots[i].worker.Finished?
  }

  ghost predicate Inv(disks: seq<DiskEntry>, fs: FileSystem, s: State) {
    && Slotted(disks, fs, s.slots)
    && Mutexed(s.slots, s.mutex)
    && Recorded(disks, fs, s.slots, s.results)
    && Staged(s)
    && s.wg == Sum(Counts(s.slots))
  }

  function SlotRank(slot: Slot): nat {
    (match slot.worker
     case Unborn => 7
     case Starting => 6
     case Selecting => 5
     case Storing(_) => 4
     case Holding(_) => 3
     case Unlocking => 2
     case Leaving => 1
     case Finished => 0)
    + (match slot.prober case Absent => 3 case Probing => 2 case Offering => 1 case Ended => 0)
  }

  ghost function Ranks(slots: seq<Slot>): seq<nat> {
    seq(|slots|, i requires 0 <= i < |slots| => SlotRank(slots[i]))
  }

  ghost function Measure(s: State): nat {
    Sum(Ranks(s.slots)) + match s.main case Spawning(_) => 2 case Waiting => 1 case Returned => 0
  }

  lemma InitInv(disks: seq<DiskEntry>, fs: FileSystem)
    ensures Inv(disks, fs, Init(disks))
  {
    SumZero(Counts(Init(disks).slots));
  }

  lemma SlotChange(slots: seq<Slot>, i: nat, slot: Slot)
    requires i < |slots|
    ensures Sum(Counts(slots[i := slot])) == Sum(Counts(slots)) + Counted(slot) - Counted(slots[i])
    ensures Sum(Ranks(slots[i := slot])) == Sum(Ranks(slots)) + SlotRank(slot) - SlotRank(slots[i])
  {
    assert Counts(slots[i := slot]) == Counts(slots)[i := Counted(slot)];
    SumUpdate(Counts(slots), i, Counted(slot));
    assert Ranks(slots[i := slot]) == Ranks(slots)[i := SlotRank(slot)];
    SumUpdate(Ranks(slots), i, SlotRank(slot));
  }

  lemma SomebodyCounts(slots: seq<Slot>) returns (i: nat)
    requires Sum(Counts(slots)) != 0
    ensures i < |slots| && Counted(slots[i]) == 1
  {
    SumZero(Counts(slots));
    i :| i < |slots| && Counts(slots)[i] != 0;
  }

  lemma NobodyCounts(slots: seq<Slot>)
    requires Sum(Counts(slots)) == 0
    ensures forall i :: 0 <= i < |slots| ==> slots[i].worker.Unborn? || slots[i].worker.Finished?
  {
    SumZero(Counts(slots));
    forall i | 0 <= i < |slots| ensures slots[i].worker.Unborn? || slots[i].worker.Finished? {
      assert Counts(slots)[i] == 0;
    }
  }

  lemma HandlerKeepsInv(disks: seq<DiskEntry>, fs: FileSystem, s: State)
    requires Inv(disks, fs, s) && HandlerStep(s).Some?
    ensures Inv(disks, fs, HandlerStep(s).value)
    ensures Measure(HandlerStep(s).value) < Measure(s)
  {
    if s.main.Spawning? && s.main.next < |s.slots| {
      var k := s.main.next;
      SlotChange(s.slots, k, s.slots[k].(worker := Starting));
      StillExplained(disks, fs, s.slots, s.results, k, s.slots[k].(worker := Starting));
    } else if s.main.Waiting? {
      NobodyCounts(s.slots);
    }
  }

  /** A change of one disk that does not touch a verdict already stored leaves the map explained. */
  lemma StillExplained(disks: seq<DiskEntry>, fs: FileSystem, slots: seq<Slot>, results: map<string, Usage>, i: nat, slot: Slot)
    requires i < |slots| == |disks| && Recorded(disks, fs, slots, results)
    requires slot.verdict == Stored <==> slots[i].verdict == Stored
    ensures Recorded(disks, fs, slots[i := slot], results)
  {
    var after := slots[i := slot];
    forall n | n in results ensures exists j :: Explains(disks, fs, after, n, results[n], j) {
      var j :| Explains(disks, fs, slots, n, results[n], j);
      assert Explains(disks, fs, after, n, results[n], j);
    }
  }

  /** The write under the mutex explains the new entry and keeps the other names. */
  lemma WriteIsExplained(disks: seq<DiskEntry>, fs: FileSystem, slots: seq<Slot>, results: map<string, Usage>, i: nat, u: Usage)
    requires i < |slots| == |disks| && Recorded(disks, fs, slots, results) && fs(PathOf(disks[i])) == Measured(u)
    ensures Recorded(disks, fs, slots[i := slots[i].(worker := Unlocking, verdict := Stored)], results[disks[i].name := u])
  {
    var after, written := slots[i := slots[i].(worker := Unlocking, verdict := Stored)], results[disks[i].name := u];
    forall n | n in written ensures exists j :: Explains(disks, fs, after, n, written[n], j) {
      if n == disks[i].name {
        assert Explains(disks, fs, after, n, u, i);
      } else {
        var j :| Explains(disks, fs, slots, n, results[n], j);
        assert Explains(disks, fs, after, n, written[n], j);
      }
    }
  }

  /** What does not depend on the mutex or the map survives any step of a started disk. */
  lemma PutKeepsShape(disks: seq<DiskEntry>, fs: FileSystem, s: State, i: nat, slot: Slot)
    requires Slotted(disks, fs, s.slots) && Staged(s) && i < |disks|
    requires SlotInv(slot, fs(PathOf(disks[i])))
    requires !s.slots[i].worker.Unborn? && !slot.worker.Unborn? && (s.slots[i].worker.Finished? ==> slot.worker.Finished?)
    ensures Slotted(disks, fs, s.slots[i := slot]) && Staged(Put(s, i, slot))
  {
  }

  lemma MutexStays(slots: seq<Slot>, mutex: Option<nat>, i: nat, slot: Slot)
    requires Mutexed(slots, mutex) && i < |slots|
    requires slot.worker.Holding? || slot.worker.Unlocking? <==> slots[i].worker.Holding? || slots[i].worker.Unlocking?
    ensures Mutexed(slots[i := slot], mutex)
  {
  }

  /** A step of one disk's goroutines that leaves the mutex and the map alone. */
  lemma LocalStepKeepsInv(disks: seq<DiskEntry>, fs: FileSystem, s: State, i: nat, slot: Slot, wg: int)
    requires Inv(disks, fs, s) && i < |disks|
    requires SlotInv(slot, fs(PathOf(disks[i])))
    requires slot.verdict == Stored <==> s.slots[i].verdict == Stored
    requires slot.worker.Holding? || slot.worker.Unlocking? <==> s.slots[i].worker.Holding? || s.slots[i].worker.Unlocking?
    requires !s.slots[i].worker.Unborn? && !slot.worker.Unborn? && (s.slots[i].worker.Finished? ==> slot.worker.Finished?)
    requires wg == s.wg + Counted(slot) - Counted(s.slots[i]) && SlotRank(slot) < SlotRank(s.slots[i])
    ensures Inv(disks, fs, Put(s, i, slot).(wg := wg))
    ensures Measure(Put(s, i, slot).(wg := wg)) < Measure(s)
  {
    SlotChange(s.slots, i, slot);
    StillExplained(disks, fs, s.slots, s.results, i, slot);
    PutKeepsShape(disks, fs, s, i, slot);
    MutexStays(s.slots, s.mutex, i, slot);
  }

  lemma MutexMoves(slots: seq<Slot>, mutex: Option<nat>, i: nat, slot: Slot, next: Option<nat>)
    requires Mutexed(slots, mutex) && i < |slots|
    requires mutex == None || mutex == Some(i)
    requires next == if slot.worker.Holding? || slot.worker.Unlocking? then Some(i) else None
    ensures Mutexed(slots[i := slot], next)
  {
  }

  /** Taking or releasing the mutex. */
  function AfterMutex(slot: Slot): Slot {
    slot.(worker := if slot.worker.Storing? then Holding(slot.worker.usage) else Leaving)
  }

  lemma MutexSlot(slot: Slot, probe: Probe)
    requires SlotInv(slot, probe) && (slot.worker.Storing? || slot.worker.Unlocking?)
    ensures SlotInv(AfterMutex(slot), probe)
    ensures Counted(AfterMutex(slot)) == Counted(slot) && SlotRank(AfterMutex(slot)) < SlotRank(slot)
  {
  }

  lemma MutexStep(disks: seq<DiskEntry>, s: State, i: nat)
    requires i < |disks| == |s.slots| && WorkerStep(disks, s, i).Some?
    requires s.slots[i].worker.Storing? || s.slots[i].worker.Unlocking?
    ensures var t := WorkerStep(disks, s, i).value;
      t == Put(s, i, AfterMutex(s.slots[i])).(mutex := if s.slots[i].worker.Storing? then Some(i) else None)
  {
  }

  lemma MutexKeepsInv(disks: seq<DiskEntry>, fs: FileSystem, s: State, i: nat)
    requires Inv(disks, fs, s) && i < |disks| && WorkerStep(disks, s, i).Some?
    requires s.slots[i].worker.Storing? || s.slots[i].worker.Unlocking?
    ensures Inv(disks, fs, WorkerStep(disks, s, i).value)
    ensures Measure(WorkerStep(disks, s, i).value) < Measure(s)
  {
    var t, slot := WorkerStep(disks, s, i).value, AfterMutex(s.slots[i]);
    assert s.slots[i].worker.Storing? ==> s.mutex == None;
    MutexStep(disks, s, i);
    MutexSlot(s.slots[i], fs(PathOf(disks[i])));
    SlotChange(s.slots, i, slot);
    StillExplained(disks, fs, s.slots, s.results, i, slot);
    PutKeepsShape(disks, fs, s, i, slot);
    MutexMoves(s.slots, s.mutex, i, slot, t.mutex);
  }

  lemma WriteKeepsInv(disks: seq<DiskEntry>, fs: FileSystem, s: State, i: nat, u: Usage)
    requires Inv(disks, fs, s) && i < |disks| && s.slots[i].worker == Holding(u)
    ensures Inv(disks, fs, WorkerStep(disks, s, i).value)
    ensures Measure(WorkerStep(disks, s, i).value) < Measure(s)
  {
    var slot := s.slots[i].(worker := Unlocking, verdict := Stored);
    assert SlotInv(s.slots[i], fs(PathOf(disks[i])));
    SlotChange(s.slots, i, slot);
    WriteIsExplained(disks, fs, s.slots, s.results, i, u);
    PutKeepsShape(disks, fs, s, i, slot);
    MutexMoves(s.slots, s.mutex, i, slot, s.mutex);
  }

  lemma WorkerKeepsInv(disks: seq<DiskEntry>, fs: FileSystem, s: State, i: nat)
    requires Inv(disks, fs, s) && i < |disks| && WorkerStep(disks, s, i).Some?
    ensures Inv(disks, fs, WorkerStep(disks, s, i).value)
    ensures Measure(WorkerStep(disks, s, i).value) < Measure(s)
  {
    var w := s.slots[i].worker;
    if w.Holding? {
      WriteKeepsInv(disks, fs, s, i, w.usage);
    } else if w.Storing? || w.Unlocking? {
      MutexKeepsInv(disks, fs, s, i);
    } else {
      var t := WorkerStep(disks, s, i).value;
      LocalStepKeepsInv(disks, fs, s, i, t.slots[i], t.wg);
    }
  }

  lemma StepKeepsInv(disks: seq<DiskEntry>, fs: FileSystem, s: State, a: Actor)
    requires Inv(disks, fs, s) && Next(disks, fs, s, a).Some?
    ensures Inv(disks, fs, Next(disks, fs, s, a).value)
    ensures Measure(Next(disks, fs, s, a).value) < Measure(s)
  {
    match a
    case Handler => HandlerKeepsInv(disks, fs, s);
    case WorkerOf(i) => WorkerKeepsInv(disks, fs, s, i);
    case TimeoutOf(i) => LocalStepKeepsInv(disks, fs, s, i, TimeoutStep(s, i).value.slots[i], s.wg);
    case ProberOf(i) => LocalStepKeepsInv(disks, fs, s, i, ProberStep(disks, fs, s, i).value.slots[i], s.wg);
  }

  lemma {:induction false} RunKeepsInv(disks: seq<DiskEntry>, fs: FileSystem, s: State, run: seq<Actor>)
    requires Inv(disks, fs, s) && Run(disks, fs, s, run).Some?
    ensures Inv(disks, fs, Run(disks, fs, s, run).value)
    ensures Measure(Run(disks, fs, s, run).value) + |run| <= Measure(s)
    decreases |run|
  {
    if run != [] {
      StepKeepsInv(disks, fs, s, run[0]);
      RunKeepsInv(disks, fs, Next(disks, fs, s, run[0]).value, run[1..]);
    }
  }

  lemma ReachableInv(disks: seq<DiskEntry>, fs: FileSystem, s: State)
    requires Reachable(disks, fs, s)
    ensures Inv(disks, fs, s)
  {
    var run :| Run(disks, fs, Init(disks), run) == Some(s);
    InitInv(disks, fs);
    RunKeepsInv(disks, fs, Init(disks), run);
  }

  // ---- What every interleaving guarantees ----

  /** A prober's send finds room in the channel, even after its worker has timed out and gone. */
  lemma ProberNeverBlocks(disks: seq<DiskEntry>, fs: FileSystem, s: State, i: nat)
    requires Reachable(disks, fs, s) && i < |disks|
    ensures |s.slots| == |disks|
    ensures s.slots[i].prober.Offering? ==> s.slots[i].channel == None && Next(disks, fs, s, ProberOf(i)).Some?
  {
    ReachableInv(disks, fs, s);
    assert SlotInv(s.slots[i], fs(PathOf(disks[i])));
  }

  lemma WorkerCanMove(disks: seq<DiskEntry>, fs: FileSystem, s: State, i: nat)
    requires |s.slots| == |disks| && i < |disks| && Counted(s.slots[i]) == 1 && s.mutex == None
    ensures Next(disks, fs, s, WorkerOf(i)).Some? || Next(disks, fs, s, TimeoutOf(i)).Some?
  {
  }

  /**
   What the timeouts are for: as long as the request has not returned, somebody else than the
   goroutines stuck in a system call can move, so no hung disk ever blocks it.
   */
  lemma HungDisksDoNotBlock(disks: seq<DiskEntry>, fs: FileSystem, s: State)
    requires Inv(disks, fs, s) && !s.main.Returned?
    ensures exists a: Actor :: !a.ProberOf? && Next(disks, fs, s, a).Some?
  {
    if s.main.Spawning? || s.wg == 0 {
      assert Next(disks, fs, s, Handler).Some?;
    } else if s.mutex.Some? {
      assert Next(disks, fs, s, WorkerOf(s.mutex.value)).Some?;
    } else {
      var i := SomebodyCounts(s.slots);
      WorkerCanMove(disks, fs, s, i);
    }
  }

  /** When nobody can move, the request has returned and no prober is left behind. */
  lemma StuckMeansDone(disks: seq<DiskEntry>, fs: FileSystem, s: State)
    requires Inv(disks, fs, s) && Stuck(disks, fs, s)
    ensures s.main.Returned?
    ensures forall i :: 0 <= i < |disks| ==> s.slots[i].worker.Finished? && s.slots[i].prober.Ended?
  {
    if !s.main.Returned? {
      HungDisksDoNotBlock(disks, fs, s);
      assert false;
    }
    forall i | 0 <= i < |disks| ensures s.slots[i].worker.Finished? && s.slots[i].prober.Ended? {
      assert SlotInv(s.slots[i], fs(PathOf(disks[i])));
      assert Next(disks, fs, s, ProberOf(i)) == None;
    }
  }

  /** The map after the wait: the names of the stored disks, each with the usage of such a disk's own path. */
  lemma ResultsAreExact(disks: seq<DiskEntry>, fs: FileSystem, s: State)
    requires Reachable(disks, fs, s)
    ensures |s.slots| == |disks|
    ensures forall n :: n in s.results <==> exists i :: 0 <= i < |disks| && disks[i].name == n && s.slots[i].verdict == Stored
    ensures forall n :: n in s.results ==> exists i :: Explains(disks, fs, s.slots, n, s.results[n], i)
    ensures s.main.Returned? ==> forall i :: 0 <= i < |disks| ==>
      (s.slots[i].verdict == Stored ==> fs(PathOf(disks[i])).Measured?)
      && (s.slots[i].verdict != Stored ==> fs(PathOf(disks[i])).Failed? || s.slots[i].verdict == TimedOut)
  {
    ReachableInv(disks, fs, s);
    forall n ensures n in s.results <==> exists i :: 0 <= i < |disks| && disks[i].name == n && s.slots[i].verdict == Stored {
      if n in s.results {
        var i :| Explains(disks, fs, s.slots, n, s.results[n], i);
        assert disks[i].name == n && s.slots[i].verdict == Stored;
      }
    }
    if s.main.Returned? {
      forall i | 0 <= i < |disks|
        ensures s.slots[i].verdict == Stored ==> fs(PathOf(disks[i])).Measured?
        ensures s.slots[i].verdict != Stored ==> fs(PathOf(disks[i])).Failed? || s.slots[i].verdict == TimedOut
      {
        assert SlotInv(s.slots[i], fs(PathOf(disks[i])));
      }
    }
  }

  /** With distinct names every stored disk is in the map under its name with its own path's usage. */
  lemma EachDiskItsOwn(disks: seq<DiskEntry>, fs: FileSystem, s: State, i: nat)
    requires Reachable(disks, fs, s) && i < |disks|
    requires forall j, k :: 0 <= j < k < |disks| ==> disks[j].name != disks[k].name
    ensures |s.slots| == |disks|
    ensures disks[i].name in s.results <==> s.slots[i].verdict == Stored
    ensures s.slots[i].verdict == Stored ==>
      fs(if disks[i].mountPath == "" then "/" else disks[i].mountPath) == Measured(s.results[disks[i].name])
  {
    ResultsAreExact(disks, fs, s);
    assert forall j :: 0 <= j < |disks| && disks[j].name == disks[i].name ==> j == i;
    if disks[i].name in s.results {
      var j :| Explains(disks, fs, s.slots, disks[i].name, s.results[disks[i].name], j);
      assert j == i;
    }
  }

  function Actors(n: nat): set<Actor> {
    {Handler} + (set i | 0 <= i < n :: WorkerOf(i)) + (set i | 0 <= i < n :: TimeoutOf(i)) + (set i | 0 <= i < n :: ProberOf(i))
  }

  lemma SomebodyCanMove(disks: seq<DiskEntry>, fs: FileSystem, s: State)
    requires Inv(disks, fs, s) && !s.main.Returned?
    ensures exists a :: a in Actors(|disks|) && Next(disks, fs, s, a).Some?
  {
    if Stuck(disks, fs, s) {
      StuckMeansDone(disks, fs, s);
      assert false;
    }
    var a :| Next(disks, fs, s, a) != None;
    assert a in Actors(|disks|);
  }

  lemma {:induction false} RunFurther(disks: seq<DiskEntry>, fs: FileSystem, s: State, run: seq<Actor>, a: Actor)
    requires Run(disks, fs, s, run).Some? && Next(disks, fs, Run(disks, fs, s, run).value, a).Some?
    ensures Run(disks, fs, s, run + [a]) == Next(disks, fs, Run(disks, fs, s, run).value, a)
    decreases |run|
  {
    if run == [] {
      assert run + [a] == [a];
      assert [a][1..] == [];
    } else {
      assert (run + [a])[1..] == run[1..] + [a];
      RunFurther(disks, fs, Next(disks, fs, s, run[0]).value, run[1..], a);
    }
  }

  lemma ReachFurther(disks: seq<DiskEntry>, fs: FileSystem, s: State, a: Actor)
    requires Reachable(disks, fs, s) && Next(disks, fs, s, a).Some?
    ensures Reachable(disks, fs, Next(disks, fs, s, a).value)
  {
    var run :| Run(disks, fs, Init(disks), run) == Some(s);
    RunFurther(disks, fs, Init(disks), run, a);
  }

  lemma InitIsReachable(disks: seq<DiskEntry>, fs: FileSystem)
    ensures Reachable(disks, fs, Init(disks))
  {
    assert Run(disks, fs, Init(disks), []) == Some(Init(disks));
  }

  /** The disks whose context was over before their answer came. */
  function TimedOutDisks(s: State): set<int> {
    set i | 0 <= i < |s.slots| && s.slots[i].verdict == TimedOut
  }

  /** What a set of timeouts leaves of the file system's answers. */
  ghost predicate Collected(disks: seq<DiskEntry>, fs: FileSystem, timedOut: set<int>, results: map<string, Usage>) {
    && (forall i :: 0 <= i < |disks| && i !in timedOut && Measures(fs, disks[i]).Measured? ==> disks[i].name in results)
    && (forall n :: n in results ==> exists i :: Contributes(disks, fs, timedOut, n, results[n], i))
  }

  ghost predicate Contributes(disks: seq<DiskEntry>, fs: FileSystem, timedOut: set<int>, name: string, u: Usage, i: int) {
    0 <= i < |disks| && i !in timedOut && disks[i].name == name && Measures(fs, disks[i]) == Measured(u)
  }

  /** What the file system says of a disk's own mount path. */
  ghost function Measures(fs: FileSystem, d: DiskEntry): Probe {
    fs(if d.mountPath == "" then "/" else d.mountPath)
  }

  lemma ReturnedIsCollected(disks: seq<DiskEntry>, fs: FileSystem, s: State)
    requires Reachable(disks, fs, s) && s.main.Returned?
    ensures Collected(disks, fs, TimedOutDisks(s), s.results)
  {
    ResultsAreExact(disks, fs, s);
    forall n | n in s.results ensures exists i :: Contributes(disks, fs, TimedOutDisks(s), n, s.results[n], i) {
      var i :| Explains(disks, fs, s.slots, n, s.results[n], i);
      assert Contributes(disks, fs, TimedOutDisks(s), n, s.results[n], i);
    }
  }

  /** The request under an arbitrary scheduler, which also decides what times out. */
  method GetAllDiskUsages(disks: seq<DiskEntry>, fs: FileSystem) returns (results: map<string, Usage>, final: State)
    ensures Reachable(disks, fs, final) && final.main.Returned? && results == final.results
    ensures Collected(disks, fs, TimedOutDisks(final), results)
  {
    var s := Init(disks);
    InitInv(disks, fs);
    InitIsReachable(disks, fs);
    while !s.main.Returned?
      invariant Inv(disks, fs, s) && Reachable(disks, fs, s)
      decreases Measure(s)
    {
      SomebodyCanMove(disks, fs, s);
      var a :| a in Actors(|disks|) && Next(disks, fs, s, a).Some?;
      StepKeepsInv(disks, fs, s, a);
      ReachFurther(disks, fs, s, a);
      s := Next(disks, fs, s, a).value;
    }
    ReturnedIsCollected(disks, fs, s);
    return s.results, s;
  }
}
