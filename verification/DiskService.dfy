/** The disk calls of the module manager's monitoring service, over the disks of a configuration. */
module DiskService {
  import opened Common
  import opened DiskUsage
  import opened DiskFanOut
  import opened DiskSchedules

  datatype Disk = Disk(name: string, mountPath: string, usage: Usage, description: string)

  datatype Status = Unimplemented | NotFound | Internal | Panic

  ghost predicate DistinctNames(disks: seq<DiskEntry>) {
    forall j, k :: 0 <= j < k < |disks| ==> disks[j].name != disks[k].name
  }

  // ---- Listing ----

  function Listed(d: DiskEntry, u: Usage): Disk {
    Disk("disks/" + d.name, d.mountPath, u, d.description)
  }

  function ListOf(disks: seq<DiskEntry>, usages: map<string, Usage>): seq<Disk> {
    if disks == [] then []
    else
      var init, last := disks[..|disks| - 1], disks[|disks| - 1];
      ListOf(init, usages) + if last.name in usages then [Listed(last, usages[last.name])] else []
  }

  method ListDisks(enabled: bool, disks: seq<DiskEntry>, usages: map<string, Usage>) returns (r: Result<seq<Disk>, Status>)
    ensures r == if enabled then Ok(ListOf(disks, usages)) else Err(Unimplemented)
  {
    if !enabled {
      return Err(Unimplemented);
    }
    var listed := [];
    for i := 0 to |disks|
      invariant listed == ListOf(disks[..i], usages)
    {
      assert disks[..i + 1][..i] == disks[..i];
      if disks[i].name in usages {
        listed := listed + [Listed(disks[i], usages[disks[i].name])];
      }
    }
    assert disks[..|disks|] == disks;
    return Ok(listed);
  }

  /** The stored disks in configuration order, each with what its own path measured. */
  ghost function StoredDisks(disks: seq<DiskEntry>, fs: FileSystem, slots: seq<Slot>): seq<Disk>
    requires |slots| == |disks|
  {
    if disks == [] then []
    else
      var n := |disks| - 1;
      StoredDisks(disks[..n], fs, slots[..n]) +
      match fs(PathOf(disks[n]))
      case Measured(u) => if slots[n].verdict == Stored then [Listed(disks[n], u)] else []
      case Failed => []
  }

  lemma {:induction false} ListFollowsConfiguration(
      disks: seq<DiskEntry>, fs: FileSystem, slots: seq<Slot>, usages: map<string, Usage>)
    requires |slots| == |disks|
    requires forall i :: 0 <= i < |disks| ==> (disks[i].name in usages <==> slots[i].verdict == Stored)
    requires forall i :: 0 <= i < |disks| && slots[i].verdict == Stored ==> fs(PathOf(disks[i])) == Measured(usages[disks[i].name])
    ensures ListOf(disks, usages) == StoredDisks(disks, fs, slots)
  {
    if disks != [] {
      var n := |disks| - 1;
      ListFollowsConfiguration(disks[..n], fs, slots[..n], usages);
    }
  }

  lemma StoredInOrder(disks: seq<DiskEntry>, fs: FileSystem, s: State)
    requires Reachable(disks, fs, s) && DistinctNames(disks)
    ensures |s.slots| == |disks|
    ensures ListOf(disks, s.results) == StoredDisks(disks, fs, s.slots)
  {
    ResultsAreExact(disks, fs, s);
    forall i | 0 <= i < |disks|
      ensures disks[i].name in s.results <==> s.slots[i].verdict == Stored
      ensures s.slots[i].verdict == Stored ==> fs(PathOf(disks[i])) == Measured(s.results[disks[i].name])
    {
      EachDiskItsOwn(disks, fs, s, i);
    }
    ListFollowsConfiguration(disks, fs, s.slots, s.results);
  }

  /** Where the stored disks stand in the configuration, in order. */
  ghost function StoredAt(slots: seq<Slot>): seq<nat> {
    if slots == [] then []
    else
      var n := |slots| - 1;
      StoredAt(slots[..n]) + if slots[n].verdict == Stored then [n] else []
  }

  /** The entry shows the configured disk and what its own mount path, or the root for an empty one, measures. */
  ghost predicate Describes(entry: Disk, d: DiskEntry, fs: FileSystem) {
    && entry.name == "disks/" + d.name
    && entry.mountPath == d.mountPath
    && entry.description == d.description
    && (d.mountPath != "" ==> fs(d.mountPath) == Measured(entry.usage))
    && (d.mountPath == "" ==> fs("/") == Measured(entry.usage))
  }

  lemma {:induction false} PositionsInOrder(slots: seq<Slot>)
    ensures forall a, b :: 0 <= a < b < |StoredAt(slots)| ==> StoredAt(slots)[a] < StoredAt(slots)[b]
    ensures forall a :: 0 <= a < |StoredAt(slots)| ==> StoredAt(slots)[a] < |slots|
  {
    if slots != [] {
      PositionsInOrder(slots[..|slots| - 1]);
    }
  }

  lemma {:induction false} PositionIsStored(slots: seq<Slot>, i: nat)
    requires i < |slots|
    ensures i in StoredAt(slots) <==> slots[i].verdict == Stored
  {
    var n := |slots| - 1;
    PositionsInOrder(slots[..n]);
    if i < n {
      PositionIsStored(slots[..n], i);
    }
  }

  lemma {:induction false} StoredDiskAt(disks: seq<DiskEntry>, fs: FileSystem, slots: seq<Slot>, a: nat)
    requires |slots| == |disks| && a < |StoredAt(slots)|
    requires forall i :: 0 <= i < |disks| && slots[i].verdict == Stored ==> fs(PathOf(disks[i])).Measured?
    ensures StoredAt(slots)[a] < |disks| && |StoredDisks(disks, fs, slots)| == |StoredAt(slots)|
    ensures Describes(StoredDisks(disks, fs, slots)[a], disks[StoredAt(slots)[a]], fs)
  {
    var n := |disks| - 1;
    StoredDisksCount(disks[..n], fs, slots[..n]);
    if a < |StoredAt(slots[..n])| {
      StoredDiskAt(disks[..n], fs, slots[..n], a);
    }
  }

  lemma {:induction false} StoredDisksCount(disks: seq<DiskEntry>, fs: FileSystem, slots: seq<Slot>)
    requires |slots| == |disks|
    requires forall i :: 0 <= i < |disks| && slots[i].verdict == Stored ==> fs(PathOf(disks[i])).Measured?
    ensures |StoredDisks(disks, fs, slots)| == |StoredAt(slots)|
  {
    if disks != [] {
      StoredDisksCount(disks[..|disks| - 1], fs, slots[..|disks| - 1]);
    }
  }

  /**
   In every interleaving, with distinct names, the listing is the stored disks, all of them, in
   configuration order, each with its configured mount path and description and with what its own
   mount path measures.
   */
  lemma ListingIsExact(disks: seq<DiskEntry>, fs: FileSystem, s: State)
    requires Reachable(disks, fs, s) && DistinctNames(disks)
    ensures |s.slots| == |disks|
    ensures var listing, at := ListOf(disks, s.results), StoredAt(s.slots);
      && |listing| == |at|
      && (forall a :: 0 <= a < |at| ==> at[a] < |disks| && Describes(listing[a], disks[at[a]], fs))
      && (forall a, b :: 0 <= a < b < |at| ==> at[a] < at[b])
      && (forall i :: 0 <= i < |disks| ==> (i in at <==> s.slots[i].verdict == Stored))
  {
    StoredInOrder(disks, fs, s);
    var listing, at := ListOf(disks, s.results), StoredAt(s.slots);
    PositionsInOrder(s.slots);
    forall i | 0 <= i < |disks|
      ensures i in at <==> s.slots[i].verdict == Stored
      ensures s.slots[i].verdict == Stored ==> fs(PathOf(disks[i])).Measured?
    {
      PositionIsStored(s.slots, i);
      EachDiskItsOwn(disks, fs, s, i);
    }
    StoredDisksCount(disks, fs, s.slots);
    forall a | 0 <= a < |at| ensures at[a] < |disks| && Describes(listing[a], disks[at[a]], fs) {
      StoredDiskAt(disks, fs, s.slots, a);
    }
  }

  /** Disk `i` is listed only if it was stored, and then with its own usage. */
  ghost predicate ListedRightly(disks: seq<DiskEntry>, fs: FileSystem, s: State, i: int)
    requires 0 <= i < |disks| == |s.slots|
  {
    disks[i].name in s.results ==>
      s.slots[i].verdict == Stored && fs(PathOf(disks[i])) == Measured(s.results[disks[i].name])
  }

  /** Disk `i` shares the fate of every stored disk of its name. */
  ghost predicate AgreesWithNamesakes(disks: seq<DiskEntry>, fs: FileSystem, slots: seq<Slot>, i: int)
    requires 0 <= i < |disks| == |slots|
  {
    forall j :: 0 <= j < |disks| && slots[j].verdict == Stored && disks[j].name == disks[i].name ==>
      slots[i].verdict == Stored && fs(PathOf(disks[i])) == fs(PathOf(disks[j]))
  }

  /** One run lists rightly exactly when the disks it stored agree with all their namesakes. */
  lemma RightInOneRun(disks: seq<DiskEntry>, fs: FileSystem, s: State)
    requires Reachable(disks, fs, s)
    ensures |s.slots| == |disks|
    ensures (forall i :: 0 <= i < |disks| ==> ListedRightly(disks, fs, s, i))
      <==> (forall i :: 0 <= i < |disks| ==> AgreesWithNamesakes(disks, fs, s.slots, i))
  {
    ResultsAreExact(disks, fs, s);
    if forall i :: 0 <= i < |disks| ==> ListedRightly(disks, fs, s, i) {
      forall i | 0 <= i < |disks| ensures AgreesWithNamesakes(disks, fs, s.slots, i) {
        forall j | 0 <= j < |disks| && s.slots[j].verdict == Stored && disks[j].name == disks[i].name
          ensures s.slots[i].verdict == Stored && fs(PathOf(disks[i])) == fs(PathOf(disks[j]))
        {
          assert ListedRightly(disks, fs, s, i) && ListedRightly(disks, fs, s, j);
        }
      }
    }
    if forall i :: 0 <= i < |disks| ==> AgreesWithNamesakes(disks, fs, s.slots, i) {
      forall i | 0 <= i < |disks| ensures ListedRightly(disks, fs, s, i) {
        assert AgreesWithNamesakes(disks, fs, s.slots, i);
        if disks[i].name in s.results {
          var j :| Explains(disks, fs, s.slots, disks[i].name, s.results[disks[i].name], j);
        }
      }
    }
  }

  ghost predicate AllListedRightly(disks: seq<DiskEntry>, fs: FileSystem, s: State) {
    |s.slots| == |disks| && forall i :: 0 <= i < |disks| ==> ListedRightly(disks, fs, s, i)
  }

  /** Whenever the request has returned, each listed disk shows its own measurement. */
  ghost predicate AlwaysListedRightly(disks: seq<DiskEntry>, fs: FileSystem) {
    forall s :: Reachable(disks, fs, s) && s.main.Returned? ==> AllListedRightly(disks, fs, s)
  }

  /** No disk that shares its name with another can be measured. */
  ghost predicate NamesakesFail(disks: seq<DiskEntry>, fs: FileSystem) {
    forall i, j :: 0 <= i < |disks| && 0 <= j < |disks| && i != j && disks[i].name == disks[j].name ==>
      fs(PathOf(disks[j])).Failed?
  }

  /**
   The configuration check lets two disks have one name. Every run then lists rightly if and only
   if no disk that shares its name can be measured at all: one that can be is shown for its
   namesake as soon as the namesake times out.
   */
  lemma DuplicateNames(disks: seq<DiskEntry>, fs: FileSystem)
    ensures AlwaysListedRightly(disks, fs) <==> NamesakesFail(disks, fs)
  {
    if NamesakesFail(disks, fs) {
      forall s | Reachable(disks, fs, s) && s.main.Returned? ensures AllListedRightly(disks, fs, s) {
        FailingNamesakesDoNoHarm(disks, fs, s);
      }
    } else {
      var i, j :| 0 <= i < |disks| && 0 <= j < |disks| && i != j && disks[i].name == disks[j].name
        && fs(PathOf(disks[j])).Measured?;
      var s := ShownForANamesake(disks, fs, i, j);
      assert !AllListedRightly(disks, fs, s);
    }
  }

  /** The check that is missing: only distinct names make the listing right on every file system. */
  lemma DistinctNamesAreNeeded(disks: seq<DiskEntry>)
    ensures (forall fs: FileSystem :: AlwaysListedRightly(disks, fs)) <==> DistinctNames(disks)
  {
    if DistinctNames(disks) {
      forall fs: FileSystem ensures AlwaysListedRightly(disks, fs) {
        DuplicateNames(disks, fs);
      }
    } else {
      var i, j :| 0 <= i < j < |disks| && disks[i].name == disks[j].name;
      var usage := Usage(0, 0, 0, None);
      var fs: FileSystem := path => Measured(usage);
      assert fs(PathOf(disks[j])).Measured?;
      DuplicateNames(disks, fs);
    }
  }

  lemma FailingNamesakesDoNoHarm(disks: seq<DiskEntry>, fs: FileSystem, s: State)
    requires NamesakesFail(disks, fs) && Reachable(disks, fs, s) && s.main.Returned?
    ensures AllListedRightly(disks, fs, s)
  {
    ResultsAreExact(disks, fs, s);
    forall i | 0 <= i < |disks| ensures AgreesWithNamesakes(disks, fs, s.slots, i) {
    }
    RightInOneRun(disks, fs, s);
  }

  /** The failing run: disk `j` is stored, its namesake `i` times out and is listed all the same. */
  lemma ShownForANamesake(disks: seq<DiskEntry>, fs: FileSystem, i: nat, j: nat) returns (s: State)
    requires i < |disks| && j < |disks| && i != j && disks[i].name == disks[j].name && fs(PathOf(disks[j])).Measured?
    ensures Reachable(disks, fs, s) && s.main.Returned? && |s.slots| == |disks|
    ensures s.slots[i].verdict == TimedOut && disks[i].name in s.results
    ensures !ListedRightly(disks, fs, s, i)
  {
    s := StoredAndTimedOut(disks, fs, j, i);
    ResultsAreExact(disks, fs, s);
  }

  /** Even two entries for one and the same mount path go wrong. */
  lemma SameDiskTwice()
    ensures exists disks: seq<DiskEntry>, fs: FileSystem, s: State ::
      && |disks| == 2 && disks[0] == disks[1]
      && Reachable(disks, fs, s) && s.main.Returned? && |s.slots| == 2
      && s.slots[1].verdict == TimedOut && disks[1].name in s.results
  {
    var disk := DiskEntry("data", "/data", "");
    var disks, usage := [disk, disk], Usage(0, 0, 0, None);
    var fs: FileSystem := path => Measured(usage);
    var s := ShownForANamesake(disks, fs, 1, 0);
    assert disks[0] == disks[1];
  }

  // ---- One disk ----

  /** The module manager and the gateway both strip the resource prefix this way. */
  function StripPrefix(name: string): string {
    if |name| > 6 && name[..6] == "disks/" then name[6..] else name
  }

  /** Listing names can be asked for; a bare name means itself unless it looks like a resource name. */
  lemma StripUndoesListing(name: string)
    ensures name != "" <==> StripPrefix("disks/" + name) == name
    ensures StripPrefix(name) == name <==> !(|name| > 6 && name[..6] == "disks/")
  {
    assert ("disks/" + name)[..6] == "disks/" && ("disks/" + name)[6..] == name;
  }

  ghost predicate IsFirst(disks: seq<DiskEntry>, name: string, i: int) {
    0 <= i < |disks| && disks[i].name == name && forall j :: 0 <= j < i ==> disks[j].name != name
  }

  /** `timely` says whether the answer beats the caller's context. */
  method GetDiskUsage(disks: seq<DiskEntry>, fs: FileSystem, diskName: string, timely: bool) returns (r: Option<Usage>)
    ensures forall i :: IsFirst(disks, diskName, i) ==>
      r == if timely && Measures(fs, disks[i]).Measured? then Some(Measures(fs, disks[i]).usage) else None
    ensures forall i :: IsFirst(disks, diskName, i) && r.Some? ==>
      fs(if disks[i].mountPath == "" then "/" else disks[i].mountPath) == Measured(r.value)
    ensures (forall i :: 0 <= i < |disks| ==> disks[i].name != diskName) ==> r == None
  {
    var target: Option<DiskEntry> := None;
    for i := 0 to |disks|
      invariant target == None
      invariant forall j :: 0 <= j < i ==> disks[j].name != diskName
    {
      if disks[i].name == diskName {
        target := Some(disks[i]);
        break;
      }
    }
    if target == None {
      return None;
    }
    var probe := fs(PathOf(target.value));
    if !timely || probe.Failed? {
      return None;
    }
    return Some(probe.usage);
  }

  method GetDisk(enabled: bool, disks: seq<DiskEntry>, fs: FileSystem, name: string, timely: bool)
    returns (r: Result<Disk, Status>)
    ensures !enabled ==> r == Err(Unimplemented)
    ensures enabled && (forall i :: 0 <= i < |disks| ==> disks[i].name != StripPrefix(name)) ==> r == Err(NotFound)
    ensures enabled ==> forall i :: IsFirst(disks, StripPrefix(name), i) ==>
      r == if timely && Measures(fs, disks[i]).Measured?
           then Ok(Disk("disks/" + StripPrefix(name), "", Measures(fs, disks[i]).usage, disks[i].description))
           else Err(NotFound)
    ensures forall i :: IsFirst(disks, StripPrefix(name), i) && r.Ok? ==>
      fs(if disks[i].mountPath == "" then "/" else disks[i].mountPath) == Measured(r.value.usage)
  {
    if !enabled {
      return Err(Unimplemented);
    }
    var diskName := name;
    if |diskName| > 6 && diskName[..6] == "disks/" {
      diskName := diskName[6..];
    }
    var usage := GetDiskUsage(disks, fs, diskName, timely);
    if usage == None {
      SomebodyIsFirst(disks, diskName);
      return Err(NotFound);
    }
    var description := "";
    for i := 0 to |disks|
      invariant description == ""
      invariant forall j :: 0 <= j < i ==> disks[j].name != diskName
    {
      if disks[i].name == diskName {
        description := disks[i].description;
        break;
      }
    }
    return Ok(Disk("disks/" + diskName, "", usage.value, description));
  }

  lemma {:induction false} SomebodyIsFirst(disks: seq<DiskEntry>, name: string)
    ensures (exists i :: IsFirst(disks, name, i)) <==> exists j :: 0 <= j < |disks| && disks[j].name == name
  {
    if j :| 0 <= j < |disks| && disks[j].name == name {
      var k := 0;
      while disks[k].name != name
        invariant 0 <= k <= j
        invariant forall i :: 0 <= i < k ==> disks[i].name != name
        decreases j - k
      {
        k := k + 1;
      }
      assert IsFirst(disks, name, k);
    }
  }

  /** Asking for a listed disk by the listed name gives the same disk, but for the mount path that is left empty. */
  method AskForListed(disks: seq<DiskEntry>, fs: FileSystem, usages: map<string, Usage>, i: nat) returns (r: Result<Disk, Status>)
    requires i < |disks| && DistinctNames(disks) && disks[i].name != ""
    requires disks[i].name in usages && Measures(fs, disks[i]) == Measured(usages[disks[i].name])
    ensures r == Ok(Disk("disks/" + disks[i].name, "", usages[disks[i].name], disks[i].description))
  {
    StripUndoesListing(disks[i].name);
    assert IsFirst(disks, disks[i].name, i);
    r := GetDisk(true, disks, fs, Listed(disks[i], usages[disks[i].name]).name, true);
  }

  // ---- The legacy call and the configuration ----

  /** The legacy call takes the first configured disk without looking whether there is one. */
  method GetPrimaryDiskUsage(enabled: bool, disks: seq<DiskEntry>, fs: FileSystem, timely: bool) returns (r: Result<Usage, Status>)
    ensures r == Err(Panic) <==> enabled && disks == []
    ensures enabled && disks != [] ==>
      r == if timely && Measures(fs, disks[0]).Measured? then Ok(Measures(fs, disks[0]).usage) else Err(Internal)
    ensures r.Ok? ==> disks != [] && fs(if disks[0].mountPath == "" then "/" else disks[0].mountPath) == Measured(r.value)
  {
    if !enabled {
      return Err(Unimplemented);
    }
    if |disks| == 0 {
      return Err(Panic);
    }
    assert IsFirst(disks, disks[0].name, 0);
    var usage := GetDiskUsage(disks, fs, disks[0].name, timely);
    if usage == None {
      return Err(Internal);
    }
    return Ok(usage.value);
  }

  predicate ValidPort(port: int) {
    1 <= port <= 65535
  }

  predicate Complete(d: DiskEntry) {
    d.name != "" && d.mountPath != ""
  }

  class ModuleConfig {
    var port: int
    var diskEnabled: bool
    var monitorPath: string
    var disks: seq<DiskEntry>

    /** The configuration in force when no file is given or found: it is never validated. */
    constructor Default()
      ensures port == 50051 && diskEnabled && monitorPath == "/" && disks == []
    {
      port, diskEnabled, monitorPath, disks := 50051, true, "/", [];
    }

    /** What an accepted configuration promises the disk calls. */
    predicate Usable()
      reads this
    {
      ValidPort(port) && (diskEnabled ==> disks != [] && forall d :: d in disks ==> Complete(d))
    }

    /** Accepts exactly the configurations that are usable once the deprecated path is taken over. */
    method Validate() returns (ok: bool)
      modifies this`disks
      ensures ok <==> Usable()
      ensures ok ==> 1 <= port <= 65535 && (diskEnabled ==> disks != [] && forall d :: d in disks ==> d.name != "" && d.mountPath != "")
      ensures !ok ==> port < 1 || port > 65535 || (diskEnabled && (disks == [] || exists d :: d in disks && (d.name == "" || d.mountPath == "")))
      ensures disks == if 1 <= port <= 65535 && diskEnabled && old(disks) == [] && monitorPath != ""
                       then [DiskEntry("root", monitorPath, "Primary Disk")] else old(disks)
    {
      if port < 1 || port > 65535 {
        return false;
      }
      if diskEnabled {
        if |disks| == 0 && monitorPath != "" {
          disks := [DiskEntry("root", monitorPath, "Primary Disk")];
        }
        if |disks| == 0 {
          return false;
        }
        for i := 0 to |disks|
          invariant forall j :: 0 <= j < i ==> Complete(disks[j])
        {
          if disks[i].name == "" || disks[i].mountPath == "" {
            assert disks[i] in disks && !Complete(disks[i]);
            return false;
          }
        }
      }
      return true;
    }
  }

  /** A validated configuration serves the legacy call; the unvalidated default makes it panic. */
  method LegacyCallNeedsValidation(config: ModuleConfig, fs: FileSystem)
    returns (loaded: Result<Usage, Status>, default: Result<Usage, Status>, accepted: bool)
    modifies config
    ensures accepted ==> loaded != Err(Panic)
    ensures default == Err(Panic)
  {
    accepted := config.Validate();
    loaded := GetPrimaryDiskUsage(config.diskEnabled, config.disks, fs, true);
    var fallback := new ModuleConfig.Default();
    default := GetPrimaryDiskUsage(fallback.diskEnabled, fallback.disks, fs, true);
  }
}
