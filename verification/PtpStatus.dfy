/** The PTP status of the fleet: read by each module manager, collected and converted by the gateway. */
module PtpStatus {
  import opened Common
  import opened WorkerPool
  import opened FanIn

  datatype TimeStatus = TimeStatus(
    clockId: string, masterOffset: int, ingressTime: int, gmPresent: bool, gmIdentity: string)

  // ---- The module manager ----

  datatype Device = Device(name: string, ipAddress: string)

  datatype RemoteStatus = RemoteStatus(
    deviceName: string, ipAddress: string, isReachable: bool, status: Option<TimeStatus>, errorMessage: string)

  /** A protocol message, in which a part may be missing. */
  datatype PtpResponse = PtpResponse(local: Option<TimeStatus>, remotes: seq<RemoteStatus>)

  datatype Code = Unimplemented | Internal

  /** What asking one remote device comes to. */
  type Check = string -> Result<TimeStatus, string>

  /** A remote device's entry: its status if it could be read, and else the error. */
  ghost predicate Reports(remote: RemoteStatus, device: Device, read: Result<TimeStatus, string>) {
    && remote.deviceName == device.name && remote.ipAddress == device.ipAddress
    && (read.Ok? ==> remote.isReachable && remote.status == Some(read.value) && remote.errorMessage == "")
    && (read.Err? ==> !remote.isReachable && remote.status == None && remote.errorMessage == read.error)
  }

  method ReadPtpStatus(
      enabled: bool, local: Result<TimeStatus, string>, devices: seq<Device>, check: Check, includeRemote: bool)
    returns (r: Result<PtpResponse, Code>)
    ensures r == Err(Unimplemented) <==> !enabled
    ensures r.Ok? <==> enabled && local.Ok?
    ensures r.Ok? ==> r.value.local == Some(local.value)
    ensures r.Ok? ==> |r.value.remotes| == if includeRemote then |devices| else 0
    ensures r.Ok? && includeRemote ==>
      forall i :: 0 <= i < |devices| ==> Reports(r.value.remotes[i], devices[i], check(devices[i].ipAddress))
  {
    if !enabled {
      return Err(Unimplemented);
    }
    if local.Err? {
      return Err(Internal);
    }
    var remotes: seq<RemoteStatus> := [];
    if includeRemote {
      for k := 0 to |devices|
        invariant |remotes| == k
        invariant forall i :: 0 <= i < k ==> Reports(remotes[i], devices[i], check(devices[i].ipAddress))
      {
        var device := devices[k];
        var remote := RemoteStatus(device.name, device.ipAddress, false, None, "");
        match check(device.ipAddress) {
          case Err(error) => remote := remote.(isReachable := false, errorMessage := error);
          case Ok(status) => remote := remote.(isReachable := true, status := Some(status));
        }
        remotes := remotes + [remote];
      }
    }
    return Ok(PtpResponse(Some(local.value), remotes));
  }

  // ---- The gateway ----

  datatype LocalInfo = LocalInfo(clockId: string, masterOffset: int, gmPresent: bool)

  datatype RemoteInfo = RemoteInfo(
    deviceName: string, ipAddress: string, isReachable: bool, status: Option<LocalInfo>, errorMessage: string)

  datatype ModuleStatus = ModuleStatus(hostname: string, local: LocalInfo, remotes: seq<RemoteInfo>)

  /** What one module answers when asked for its PTP status. */
  datatype PtpOutcome = Unreachable | NoAnswer | Answer(response: PtpResponse)

  function InfoOf(status: TimeStatus): LocalInfo {
    LocalInfo(status.clockId, status.masterOffset, status.gmPresent)
  }

  function RemoteInfoOf(remote: RemoteStatus): RemoteInfo {
    if remote.isReachable && remote.status.Some? then
      RemoteInfo(remote.deviceName, remote.ipAddress, remote.isReachable, Some(InfoOf(remote.status.value)), "")
    else RemoteInfo(remote.deviceName, remote.ipAddress, remote.isReachable, None, remote.errorMessage)
  }

  function StatusOf(hostname: string, response: PtpResponse): ModuleStatus
    requires response.local.Some?
  {
    ModuleStatus(hostname, InfoOf(response.local.value), Apply(RemoteInfoOf, response.remotes))
  }

  ghost predicate ShowsTime(info: LocalInfo, t: TimeStatus) {
    info.clockId == t.clockId && info.masterOffset == t.masterOffset && info.gmPresent == t.gmPresent
  }

  /** A remote device as shown: with its status if it is reachable and has one, and else with its error. */
  ghost predicate ShowsRemote(info: RemoteInfo, remote: RemoteStatus) {
    && info.deviceName == remote.deviceName && info.ipAddress == remote.ipAddress && info.isReachable == remote.isReachable
    && (remote.isReachable && remote.status.Some? ==>
         info.status.Some? && ShowsTime(info.status.value, remote.status.value) && info.errorMessage == "")
    && (!remote.isReachable || remote.status.None? ==> info.status.None? && info.errorMessage == remote.errorMessage)
  }

  ghost predicate ShowsModule(status: ModuleStatus, hostname: string, response: PtpResponse)
    requires response.local.Some?
  {
    && status.hostname == hostname && ShowsTime(status.local, response.local.value)
    && |status.remotes| == |response.remotes|
    && forall i :: 0 <= i < |status.remotes| ==> ShowsRemote(status.remotes[i], response.remotes[i])
  }

  /** The converted status shows what was answered, and nothing else does. */
  lemma ConversionIsExact(x: ModuleStatus, hostname: string, response: PtpResponse)
    requires response.local.Some?
    ensures x == StatusOf(hostname, response) <==> ShowsModule(x, hostname, response)
  {
    var status := StatusOf(hostname, response);
    if ShowsModule(x, hostname, response) {
      assert x.local == status.local;
      forall i | 0 <= i < |x.remotes| ensures x.remotes[i] == status.remotes[i] {
        assert ShowsRemote(x.remotes[i], response.remotes[i]);
      }
      assert x.remotes == status.remotes;
    }
  }

  method ConvertStatus(hostname: string, response: PtpResponse) returns (status: ModuleStatus)
    requires response.local.Some?
    ensures status == StatusOf(hostname, response)
    ensures ShowsModule(status, hostname, response)
  {
    status := ModuleStatus(hostname, InfoOf(response.local.value), []);
    for k := 0 to |response.remotes|
      invariant status == ModuleStatus(hostname, InfoOf(response.local.value), status.remotes)
      invariant |status.remotes| == k
      invariant forall i :: 0 <= i < k ==> status.remotes[i] == RemoteInfoOf(response.remotes[i])
    {
      var remote := response.remotes[k];
      var info := RemoteInfo(remote.deviceName, remote.ipAddress, remote.isReachable, None, "");
      if remote.isReachable && remote.status.Some? {
        info := info.(status := Some(InfoOf(remote.status.value)));
      } else {
        info := info.(errorMessage := remote.errorMessage);
      }
      status := status.(remotes := status.remotes + [info]);
    }
    assert status.remotes == Apply(RemoteInfoOf, response.remotes);
  }

  /** A device is shown, in its configured place, with a status if it could be read and with the error if not. */
  ghost predicate ShownAsRead(info: RemoteInfo, device: Device, read: Result<TimeStatus, string>) {
    && info.deviceName == device.name && info.ipAddress == device.ipAddress
    && (info.isReachable <==> read.Ok?)
    && (read.Ok? ==> info.status.Some? && ShowsTime(info.status.value, read.value))
    && (read.Err? ==> info.status.None?)
    && info.errorMessage == (if read.Err? then read.error else "")
  }

  /** Module manager and gateway together, from the reading of the devices to the page. */
  method ShowModule(hostname: string, local: TimeStatus, devices: seq<Device>, check: Check) returns (status: ModuleStatus)
    ensures status.hostname == hostname && ShowsTime(status.local, local) && |status.remotes| == |devices|
    ensures forall i :: 0 <= i < |devices| ==> ShownAsRead(status.remotes[i], devices[i], check(devices[i].ipAddress))
  {
    var response := ReadPtpStatus(true, Ok(local), devices, check, true);
    status := ConvertStatus(hostname, response.value);
    forall i | 0 <= i < |devices| ensures ShownAsRead(status.remotes[i], devices[i], check(devices[i].ipAddress)) {
      assert Reports(response.value.remotes[i], devices[i], check(devices[i].ipAddress));
      assert ShowsRemote(status.remotes[i], response.value.remotes[i]);
    }
  }

  function Enabled(names: seq<string>, ptp: set<string>): seq<string> {
    if names == [] then []
    else
      var init, last := names[..|names| - 1], names[|names| - 1];
      Enabled(init, ptp) + (if last in ptp then [last] else [])
  }

  /** The gateway's goroutines take the local status for granted. */
  ghost predicate Complete(outcome: string -> PtpOutcome) {
    forall h :: outcome(h).Answer? ==> outcome(h).response.local.Some?
  }

  /** Modules that cannot be reached or do not answer are skipped without a word. */
  function PtpJob(outcome: string -> PtpOutcome, host: string): Job<ModuleStatus> {
    match outcome(host)
    case Unreachable => Job(false, None)
    case NoAnswer => Job(true, None)
    case Answer(response) => Job(true, if response.local.Some? then Some(StatusOf(host, response)) else None)
  }

  lemma {:induction false} EnabledExact(names: seq<string>, ptp: set<string>)
    requires Unique(names)
    ensures Unique(Enabled(names, ptp))
    ensures forall h :: h in Enabled(names, ptp) <==> h in names && h in ptp
  {
    if names != [] {
      var init, last := names[..|names| - 1], names[|names| - 1];
      assert names == init + [last];
      EnabledExact(init, ptp);
      assert last !in init;
    }
  }

  /** `x` is what its host answered. */
  predicate Said(outcome: string -> PtpOutcome, x: ModuleStatus) {
    match outcome(x.hostname)
    case Answer(response) => response.local.Some? && x == StatusOf(x.hostname, response)
    case _ => false
  }

  /** `x` shows what its host answered. */
  ghost predicate Told(outcome: string -> PtpOutcome, x: ModuleStatus) {
    match outcome(x.hostname)
    case Answer(response) => response.local.Some? && ShowsModule(x, x.hostname, response)
    case _ => false
  }

  lemma ToldIsSaid(outcome: string -> PtpOutcome, x: ModuleStatus)
    ensures Told(outcome, x) <==> Said(outcome, x)
  {
    if outcome(x.hostname).Answer? && outcome(x.hostname).response.local.Some? {
      ConversionIsExact(x, x.hostname, outcome(x.hostname).response);
    }
  }

  method GetPtpStatus(names: seq<string>, ptp: set<string>, outcome: string -> PtpOutcome)
    returns (statuses: seq<ModuleStatus>)
    requires Unique(names) && Complete(outcome)
    ensures forall x: ModuleStatus ::
      multiset(statuses)[x] == (if x.hostname in names && x.hostname in ptp && Told(outcome, x) then 1 else 0)
  {
    var enabled := [];
    for i := 0 to |names|
      invariant enabled == Enabled(names[..i], ptp)
    {
      assert names[..i + 1][..i] == names[..i];
      if names[i] in ptp {
        enabled := enabled + [names[i]];
      }
    }
    assert names[..|names|] == names;
    var jobs := Apply(h => PtpJob(outcome, h), enabled);
    statuses := Collect(jobs, |enabled|);
    EnabledExact(names, ptp);
    forall x: ModuleStatus
      ensures Messages(jobs)[x] == PtpCount(enabled, outcome, x)
      ensures Told(outcome, x) <==> Said(outcome, x)
    {
      ToldIsSaid(outcome, x);
      PtpMessage(enabled, outcome, jobs, x);
    }
  }

  function PtpCount(hosts: seq<string>, outcome: string -> PtpOutcome, x: ModuleStatus): nat {
    if x.hostname in hosts && Said(outcome, x) then 1 else 0
  }

  lemma PtpContribution(outcome: string -> PtpOutcome, host: string, x: ModuleStatus)
    ensures Contribution(PtpJob(outcome, host), Finished)[x] == if host == x.hostname && Said(outcome, x) then 1 else 0
  {
  }

  /** Among the messages of all modules, a status of host `h` is there once if `h` was asked and said so. */
  lemma PtpMessage(hosts: seq<string>, outcome: string -> PtpOutcome, jobs: seq<Job<ModuleStatus>>, x: ModuleStatus)
    requires Unique(hosts) && |jobs| == |hosts|
    requires forall i :: 0 <= i < |hosts| ==> jobs[i] == PtpJob(outcome, hosts[i])
    ensures Messages(jobs)[x] == PtpCount(hosts, outcome, x)
  {
    var items := FinalContributions(jobs);
    var k := -1;
    if x.hostname in hosts {
      k :| 0 <= k < |hosts| && hosts[k] == x.hostname;
    }
    forall i | 0 <= i < |items|
      ensures items[i][x] == if i == k then PtpCount(hosts, outcome, x) else 0
    {
      PtpContribution(outcome, hosts[i], x);
    }
    TotalAt(items, x, k);
  }
}
