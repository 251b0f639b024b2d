/**
 A schedule that stores one disk and lets another one time out. Where the two have one name, the
 answer shows the second disk with the measurement of the first.
 */
module DiskSchedules {
  import opened Common
  import opened DiskUsage
  import opened DiskFanOut

  /** So far disk `j` is on its way to be stored and nobody has answered for disk `i`. */
  ghost predicate Steered(s: State, j: nat, i: nat) {
    && j < |s.slots| && i < |s.slots| && i != j
    && (s.slots[j].verdict.Pending? || s.slots[j].verdict.Stored?)
    && (s.slots[i].verdict.Pending? || s.slots[i].verdict.TimedOut?)
    && !s.slots[i].worker.Storing? && !s.slots[i].worker.Holding?
    && !s.slots[i].prober.Offering? && !s.slots[i].prober.Ended? && s.slots[i].channel == None
  }

  /** A worker that has to wait is helped by its prober if its disk is `j`, and by a timeout otherwise. */
  function Helper(s: State, j: nat, k: nat): Actor
    requires k < |s.slots|
  {
    if s.slots[k].worker.Selecting? && s.slots[k].prober != Ended && k == j then ProberOf(k)
    else if s.slots[k].worker.Selecting? && k != j then TimeoutOf(k)
    else WorkerOf(k)
  }

  lemma HelperCanMove(disks: seq<DiskEntry>, fs: FileSystem, s: State, j: nat, k: nat)
    requires k < |disks| == |s.slots| && Counted(s.slots[k]) == 1 && SlotInv(s.slots[k], fs(PathOf(disks[k])))
    requires s.mutex == None || s.slots[k].worker.Holding? || s.slots[k].worker.Unlocking?
    ensures Next(disks, fs, s, Helper(s, j, k)).Some?
  {
  }

  /** The actor to move next. */
  lemma Choose(disks: seq<DiskEntry>, fs: FileSystem, s: State, j: nat, i: nat) returns (a: Actor)
    requires Inv(disks, fs, s) && Steered(s, j, i) && !s.main.Returned? && fs(PathOf(disks[j])).Measured?
    ensures a == Handler || (exists k: nat :: k < |s.slots| && Counted(s.slots[k]) == 1 && a == Helper(s, j, k))
    ensures Next(disks, fs, s, a).Some?
  {
    if s.main.Spawning? || s.wg == 0 {
      a := Handler;
    } else {
      var k;
      if s.mutex.Some? {
        k := s.mutex.value;
      } else {
        k := SomebodyCounts(s.slots);
      }
      HelperCanMove(disks, fs, s, j, k);
      a := Helper(s, j, k);
    }
  }

  lemma HandlerKeepsSteered(s: State, j: nat, i: nat)
    requires Steered(s, j, i) && HandlerStep(s).Some?
    ensures Steered(HandlerStep(s).value, j, i)
  {
  }

  lemma HelperKeepsSteered(disks: seq<DiskEntry>, fs: FileSystem, s: State, j: nat, i: nat, k: nat)
    requires Steered(s, j, i) && k < |disks| == |s.slots| && fs(PathOf(disks[j])).Measured?
    requires SlotInv(s.slots[k], fs(PathOf(disks[k]))) && Next(disks, fs, s, Helper(s, j, k)).Some?
    ensures Steered(Next(disks, fs, s, Helper(s, j, k)).value, j, i)
  {
  }

  /** The steered schedule runs to the end: disk `j` is stored, disk `i` has timed out. */
  lemma {:induction false} Steer(disks: seq<DiskEntry>, fs: FileSystem, s: State, j: nat, i: nat) returns (final: State)
    requires Reachable(disks, fs, s) && Inv(disks, fs, s) && Steered(s, j, i) && fs(PathOf(disks[j])).Measured?
    ensures Reachable(disks, fs, final) && final.main.Returned?
    ensures |final.slots| == |disks| && final.slots[j].verdict == Stored && final.slots[i].verdict == TimedOut
    decreases Measure(s)
  {
    if s.main.Returned? {
      final := s;
      assert SlotInv(s.slots[j], fs(PathOf(disks[j]))) && SlotInv(s.slots[i], fs(PathOf(disks[i])));
    } else {
      var a := Choose(disks, fs, s, j, i);
      if a == Handler {
        HandlerKeepsSteered(s, j, i);
      } else {
        var k: nat :| k < |s.slots| && Counted(s.slots[k]) == 1 && a == Helper(s, j, k);
        HelperKeepsSteered(disks, fs, s, j, i, k);
      }
      StepKeepsInv(disks, fs, s, a);
      ReachFurther(disks, fs, s, a);
      final := Steer(disks, fs, Next(disks, fs, s, a).value, j, i);
    }
  }

  /** Whatever the configuration, any disk that can be measured may be stored while any other times out. */
  lemma StoredAndTimedOut(disks: seq<DiskEntry>, fs: FileSystem, j: nat, i: nat) returns (final: State)
    requires j < |disks| && i < |disks| && i != j && fs(PathOf(disks[j])).Measured?
    ensures Reachable(disks, fs, final) && final.main.Returned?
    ensures |final.slots| == |disks| && final.slots[j].verdict == Stored && final.slots[i].verdict == TimedOut
  {
    InitInv(disks, fs);
    InitIsReachable(disks, fs);
    final := Steer(disks, fs, Init(disks), j, i);
  }
}
