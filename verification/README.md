# Verified model of the DRS API services

A Dafny model of the parts of the data recording system's API where goroutines, caches and small
loops have to work together: the API gateway, the module manager that runs on every host, the
ROS 2 bridge, and the size formatting of the command line tool. `dafny verify dfyconfig.toml`
checks the whole project.

Concurrent code is modelled as a step system: a state, a function from an actor to the next state
(or to nothing while the actor is blocked), and runs that are arbitrary sequences of actors. What
a remote call, a `systemctl` command or a system call returns is an arbitrary input, and so is
every timeout, dialing result and order in which a map is visited. Loops and objects keep their
form: each is a method or a class proved against a specification, and theorems are proved about
the specification.

| files | subject |
|---|---|
| `WorkerPool`, `FleetOperation`, `FleetTheorems`, `SystemControl`, `Numerals` | restarting or shutting down the fleet in two phases, down to the minute each host goes down |
| `FanIn`, `PtpStatus` | collecting from many modules with a separate closing goroutine; the PTP status of the fleet |
| `ConnectionStore`, `ClientManager`, `ClientRuns`, `GatewayClients` | the double-checked connection cache under its read-write lock |
| `PtpChecker`, `GoStrings` | picking one device's answer out of `pmc` output, and the clock identity made from its MAC address (section 7.5.2.2 of IEEE 1588-2008) |
| `DiskUsage`, `DiskFanOut`, `DiskSchedules`, `DiskService` | measuring disks concurrently with timeouts, and listing them |
| `ServiceControl`, `ServiceListing`, `ServiceReading`, `ServiceHandlers`, `UnitRace` | the `systemctl` commands behind the service calls, and the race between a stop and a timer |
| `GatewayStatus`, `GatewayVerdict`, `GatewayRecording` | what the gateway shows of services, modules and recorders |
| `RecorderCache`, `TopicFilter`, `RecordingHandler` | the recorder status cache of the ROS 2 bridge and its filters |
| `FormatBytes` | byte counts in units |
| `Common` | shared vocabulary |

## Where the code departs from its intent

The model follows the code; each departure is stated with the exact condition under which it
shows, or without any where it always shows, and with a failing input where it depends on one.

- The five seconds meant to hold back the gateway host are lost when delays are cut to whole
  minutes (`NoCushion`, `CushionNeedsAMinute`).
- A negative delay is refused by every module but the gateway host, which alone goes down
  (`FleetOutcome`, `HealthyFleet`, `GatewayGoesDownAlone`).
- The filter `hardware_id:=x` cuts 12 characters off a prefix of 13, so it selects the identifier
  `=x`; listing with a filter and looking up agree only for `hardware_id:` plus an identifier that
  itself starts with an equals sign (`ListingMeetsLookup`, `FilterMissesItsRecorder`). Listing also
  ignores staleness.
- The filter `topic_name:=` without a pattern asks for the last character of an empty string
  (`UndefinedExactly`, `BarePrefixIsUndefined`).
- The `gmIdentity` line inside an answer counts as the start of another answer, so the
  grandmaster's identity is never captured (`NoGrandmasterLine`); an address without five colons
  gives an empty clock identity, which captures every device's answer (`EmptyIdKeepsAll`).
- The default configuration skips validation and makes the legacy disk call panic
  (`LegacyCallNeedsValidation`).
- Validation accepts repeated disk names. A disk that times out is then listed with the
  measurement of its namesake, and only distinct names rule that out (`DuplicateNames`,
  `DistinctNamesAreNeeded`, `ShownForANamesake`).
- Stopping the triggered unit before its timer leaves a window in which the timer starts it again
  (`StopWithSecondary`); it is open if and only if the timer is active at the call (`TimerDecides`).
- A reachable module without services and with a nearly full disk is answered with "not found"
  (`NotFoundExactly`, `FullDiskHidesModule`).
- A module whose identifier and host name both belong to recorders in different states is shown
  with either state, depending on the order of a hash map (`OrderShowsExactly`,
  `TwoRecordersOneModule`).
- A service whose configured identifier contains a slash is listed but cannot be asked for
  (`ListedCanBeAsked`, `SlashedServiceIsRefused`), and topics that differ only by slashes in place
  of underscores share a resource name (`TopicNamesCollide`, `TwoTopicsOneName`).

## Model

| member | source | states |
|---|---|---|
| `FleetOperation.Partition` | services/api-gateway/internal/rest/system_handlers.go:181-191 | the loop splits the names into the gateway host, if configured, and the other modules in their order |
| `FleetOperation.OthersExact` | services/api-gateway/internal/rest/system_handlers.go:185-191 | phase 1 is, as a multiset, every configured name except the gateway host |
| `FleetOperation.PartitionIsExact` | services/api-gateway/internal/rest/system_handlers.go:181-191 | each configured module is commanded in exactly one phase, the gateway host in the second and nobody else |
| `WorkerPool.WorkerStepIsSound` | services/api-gateway/internal/rest/system_handlers.go:196-249 | a step of any goroutine keeps the pool invariant (counter equals the goroutines alive, messages in the channel and taken out of it are those sent, no panic) and uses up work |
| `WorkerPool.ReceiveIsSound` | services/api-gateway/internal/rest/system_handlers.go:323-328 | receiving a message conserves the multiset of messages sent |
| `WorkerPool.WaitMeansFinished` | services/api-gateway/internal/rest/system_handlers.go:251-252 | when the wait returns, every goroutine started has finished |
| `WorkerPool.FinishedMeansDelivered` | services/api-gateway/internal/rest/system_handlers.go:214-247 | once all have finished, the channel has carried each goroutine's message exactly once |
| `WorkerPool.SenderFindsRoom` | services/api-gateway/internal/rest/system_handlers.go:193-194 | a goroutine about to send finds fewer messages in the channel than there are goroutines |
| `FleetOperation.StepKeepsInv` | services/api-gateway/internal/rest/system_handlers.go:178-345 | every step of the handler or of a goroutine keeps the protocol invariant and lowers the measure |
| `FleetOperation.RunKeepsInv` | services/api-gateway/internal/rest/system_handlers.go:178-345 | so does every run, and no run is longer than the initial measure |
| `FleetTheorems.GatewayIsCommandedLast` | services/api-gateway/internal/rest/system_handlers.go:251-315 | in every reachable state a command to the gateway host is the last one sent, and by then every other module's goroutine has finished and its reply is deposited or drained |
| `FleetTheorems.NeverPanics` | services/api-gateway/internal/rest/system_handlers.go:251-318 | no send reaches a closed channel, the channel is closed once, the wait counter never goes negative |
| `FleetTheorems.RunsAreBounded` | services/api-gateway/internal/rest/system_handlers.go:178-345 | whatever the schedule, a request takes at most ten steps per module and six more |
| `FleetTheorems.StuckMeansAnswered` | services/api-gateway/internal/rest/system_handlers.go:193-328 | with room for one message per module the only states nobody can leave are answered requests |
| `FleetTheorems.UndersizedNeverCloses` | services/api-gateway/internal/rest/system_handlers.go:193-318 | with less room no run ever gets past the waits to closing the channel |
| `FleetTheorems.MaximalRun` | services/api-gateway/internal/rest/system_handlers.go:178-345 | every invariant state leads to a state nobody can leave |
| `FleetTheorems.CapacityIsSharp` | services/api-gateway/internal/rest/system_handlers.go:193-194 | every complete run ends in an answer if and only if the capacity is at least the number of modules; with less, every complete run hangs before the close |
| `FleetTheorems.CommandCount` | services/api-gateway/internal/rest/system_handlers.go:202-234 | each module that can be looked up is sent exactly one command, any other host none |
| `FleetTheorems.OnlyOwedCommands` | services/api-gateway/internal/rest/system_handlers.go:214-234 | every command sent goes to a configured module and carries the operation and delay asked for, with a minimum of 5 for the gateway host |
| `FleetTheorems.SuccessIsUnanimous` | services/api-gateway/internal/rest/system_handlers.go:320-328 | all drained replies are successes if and only if every configured module accepted |
| `FleetTheorems.DrainedEverything` | services/api-gateway/internal/rest/system_handlers.go:320-328 | what an answered request has drained is one reply per configured module |
| `FleetTheorems.MessagesAreSaid` | services/api-gateway/internal/rest/system_handlers.go:203-311 | each module contributes its error, or its own text, which carries the remark about the delay if and only if the module is the gateway host |
| `FleetTheorems.AnswerIsScheduleFree` | services/api-gateway/internal/rest/system_handlers.go:320-344 | every complete run ends in the same answer: success if and only if all accepted, the messages equal as a multiset, the same commands sent |
| `FleetTheorems.PerformSystemOperation` | services/api-gateway/internal/rest/system_handlers.go:178-345 | the handler under an arbitrary scheduler terminates with that answer, the gateway's command last |
| `SystemControl.NoCushion` | services/module-manager/internal/system/manager.go:16-44 | for a non-negative delay the gateway host, asked for at least 5 s, goes down at the same offset as everybody else, less than 60 s before the delay reported |
| `SystemControl.CushionNeedsAMinute` | services/module-manager/internal/system/manager.go:25-25 | a minimum delay postpones the gateway host for some request if and only if it is at least 60 s |
| `SystemControl.HostOutcome` | services/module-manager/internal/system/manager.go:16-44 | a host goes down if and only if it can be reached, allows the operation, can run its command, and the delay is not negative or it is the gateway host; exactly then it accepts; the command run brings it up again if and only if the operation is a restart, after the whole minutes of the delay |
| `SystemControl.HostSays` | services/module-manager/internal/service/system_control_service.go:29-71 | the answer of a host that obeys names the operation and the seconds it was asked for, and any other reachable host fails |
| `Numerals.DecimalIsRead` | services/module-manager/internal/service/system_control_service.go:46-46 | the digits of an answer are read back as the number, without leading zeros |
| `SystemControl.FleetOutcome` | services/api-gateway/internal/rest/system_handlers.go:178-345 | fleet and module managers together, whatever hosts are unreachable, forbid the operation or fail: every complete run reports success if and only if every module goes down, to come up again if and only if asked to restart; each reachable module is sent one command, and all go down at one offset |
| `SystemControl.HealthyFleet` | services/api-gateway/internal/rest/system_handlers.go:272-344 | on a healthy fleet the answer is success if and only if the delay is non-negative or the gateway is the only module; a negative delay takes down the gateway host alone, at once |
| `SystemControl.GatewayGoesDownAlone` | services/api-gateway/internal/rest/system_handlers.go:272-276 | a healthy fleet of two of which a delay of minus one takes down the gateway host only |
| `FanIn.StepKeepsInv` | services/api-gateway/internal/rest/recording_handlers.go:126-195 | every step of handler, goroutine, direct handoff or closing goroutine keeps the collector's invariant and lowers its measure |
| `FanIn.EverythingIsCollected` | services/api-gateway/internal/rest/module_handlers.go:33-55 | for every capacity, zero included, every complete run ends with each message received exactly once |
| `FanIn.Collect` | services/api-gateway/internal/rest/module_handlers.go:33-55 | the collecting handler under an arbitrary scheduler terminates with all messages |
| `FanIn.GetAllModules` | services/api-gateway/internal/rest/module_handlers.go:29-60 | the answer lists the status of each configured module once |
| `PtpStatus.GetPtpStatus` | services/api-gateway/internal/rest/recording_handlers.go:114-200 | the answer holds once what each PTP-enabled configured module answered, converted, and nothing else; silent modules are left out |
| `PtpStatus.ConvertStatus` | services/api-gateway/internal/rest/recording_handlers.go:152-181 | the loop converts a module's answer, its remote devices in order |
| `PtpStatus.ConversionIsExact` | services/api-gateway/internal/rest/recording_handlers.go:152-181 | a status is the converted answer if and only if it shows the answer's identity, offset and grandmaster flag, and each remote device's status or error |
| `PtpStatus.ReadPtpStatus` | services/module-manager/internal/service/monitoring_service.go:148-204 | the module manager answers with its local status and, if asked, one entry for each configured remote device in order; the local status is never missing |
| `PtpStatus.ShowModule` | services/api-gateway/internal/rest/recording_handlers.go:152-181 | module manager and gateway together: each device is shown in its place, with its status if it could be read and otherwise with the error |
| `FanIn.ServicesRestart` | services/api-gateway/internal/rest/system_handlers.go:90-175 | an unknown module and disabled services are answered as such; otherwise the restart succeeds if and only if restarting `services/drs_sensor` did, and else reports its error |
| `ConnectionStore.DialKeepsInv` | services/api-gateway/internal/grpc/client.go:67-85 | the double check under the write lock keeps a target from being dialed twice in one period |
| `ConnectionStore.CreateKeepsInv` | services/api-gateway/internal/grpc/client.go:63-97 | the whole creating section keeps the invariant |
| `ConnectionStore.CreateReturnsItsOwn` | services/api-gateway/internal/grpc/client.go:63-97 | clients are returned if and only if some were stored or the target is configured and can be dialed; they are those stored under the target asked for, over a connection opened for it in this period, and the answer is recorded; a target is dialed only if nothing was stored |
| `ConnectionStore.CloseConnKeepsInv` | services/api-gateway/internal/grpc/client.go:104-115 | closing one stored connection counts for that connection only |
| `ConnectionStore.TearDownKeepsInv` | services/api-gateway/internal/grpc/client.go:110-120 | closing the bridge and resetting the four fields keeps the invariant |
| `ConnectionStore.ClosedUnlessStored` | services/api-gateway/internal/grpc/client.go:100-121 | between sections a connection has been closed once if it is not stored and never if it is |
| `ConnectionStore.TornDown` | services/api-gateway/internal/grpc/client.go:104-120 | a whole `Close` adds one close for exactly the connections stored |
| `ClientManager.StepKeepsInv` | services/api-gateway/internal/grpc/client.go:48-170 | every lock-level step of any goroutine keeps the system invariant |
| `ClientManager.RunKeepsInv` | services/api-gateway/internal/grpc/client.go:48-170 | so does every interleaving of lookups and `Close` calls |
| `ClientManager.MutualExclusion` | services/api-gateway/internal/grpc/client.go:23-23 | nobody reads or writes beside the holder of the write lock |
| `ClientManager.ConnectionsAreConserved` | services/api-gateway/internal/grpc/client.go:63-121 | no connection is ever closed twice; whenever the write lock is free, a connection is unclosed if and only if it is stored, and then under the target it was opened for |
| `ClientManager.OnlyOpenedIsClosed` | services/api-gateway/internal/grpc/client.go:104-115 | only opened connections are closed |
| `ClientManager.FieldsAgree` | services/api-gateway/internal/grpc/client.go:93-94 | whenever the write lock is free, both maps have the same keys, all configured, each stub belongs to the stored connection, and the bridge stub is set if and only if its connection is |
| `ClientManager.OneConnectionPerEpoch` | services/api-gateway/internal/grpc/client.go:49-96 | between two `Close` calls a host gets one connection, two successful lookups give the same clients if and only if they were for one host in one period, and clients of an earlier period sit on a closed connection |
| `ClientManager.NoDeadlock` | services/api-gateway/internal/grpc/client.go:50-170 | if anybody is inside a call, somebody can move |
| `ClientManager.FastPathAnswers` | services/api-gateway/internal/grpc/client.go:50-56 | the read-locked fast path finds clients if and only if some are stored, and then those of the target asked for |
| `ClientRuns.UndisturbedLookup` | services/api-gateway/internal/grpc/client.go:49-97 | a lookup that meets nobody runs through the lock steps and leaves exactly what the creating section computes |
| `ClientRuns.UndisturbedClose` | services/api-gateway/internal/grpc/client.go:100-121 | a `Close` that meets nobody empties the four fields, begins a new period and closes once more exactly the connections stored |
| `ClientManager.CreateIsAtomic` | services/api-gateway/internal/grpc/client.go:63-97 | from the double check on, no interleaving changes what the creating section will have stored |
| `ClientManager.CloseIsAtomic` | services/api-gateway/internal/grpc/client.go:100-121 | when `Close` gets the lock it is bound for empty fields, a new period and one more close for exactly the connections stored at that moment, and no step of anybody changes that |
| `GatewayClients.ClientManager.CreateModuleClients` | services/api-gateway/internal/grpc/client.go:63-97 | field by field, a goroutine alone in the section does what `Create` says: it returns clients if and only if some were stored or the module is configured and dialed, and then those stored under this module over its own connection |
| `GatewayClients.ClientManager.GetModuleClients` | services/api-gateway/internal/grpc/client.go:49-60 | the read-locked fast path gives the same result as creating, the module's own clients |
| `GatewayClients.ClientManager.GetRos2BridgeClients` | services/api-gateway/internal/grpc/client.go:134-170 | consulting the configuration before the lock gives the same result as creating, the bridge's own clients |
| `GatewayClients.ClientManager.Close` | services/api-gateway/internal/grpc/client.go:100-121 | closes exactly the stored connections, each once, and forgets them |
| `PtpChecker.FilterResponse` | services/module-manager/internal/ptp/checker.go:61-87 | the capture loop returns the captured lines, each with a line feed, or the error if there are none |
| `PtpChecker.AnswerIsCaptured` | services/module-manager/internal/ptp/checker.go:65-81 | a device's answer, its header behind tabs and blanks and the lines up to the next header, is captured as a whole, whatever stands before and after it |
| `PtpChecker.IndentedHeaderMatches` | services/module-manager/internal/ptp/checker.go:69-71 | a line with the identity behind tabs and blanks is a header that matches it |
| `PtpChecker.TextIsCutBack` | services/module-manager/internal/ptp/checker.go:77-80 | cutting the returned text at its line feeds gives back the captured lines |
| `GoStrings.TrimSpaceIsExact` | services/module-manager/internal/ptp/checker.go:70-70 | trimming cuts white space only and leaves none at either end |
| `GoStrings.TrimSpaceDrops` | services/module-manager/internal/ptp/checker.go:70-70 | what is between white space and neither starts nor ends with any is what trimming leaves |
| `GoStrings.ContainsExactly` | services/module-manager/internal/ptp/checker.go:69-69 | a line contains a part if and only if it is the part with something before and after |
| `PtpChecker.BlocksCover` | services/module-manager/internal/ptp/checker.go:65-81 | the blocks are the lines from the first header on, cut before each header |
| `PtpChecker.CaptureIsSelect` | services/module-manager/internal/ptp/checker.go:61-81 | the one-flag loop keeps exactly the blocks whose header line, trimmed, starts with the clock identity |
| `PtpChecker.CaptureIsIdempotent` | services/module-manager/internal/ptp/checker.go:61-81 | filtering captured lines again changes nothing |
| `PtpChecker.NoLineForTwo` | services/module-manager/internal/ptp/checker.go:68-80 | no line is captured for two different identities of one length |
| `PtpChecker.OffUntilNextMatch` | services/module-manager/internal/ptp/checker.go:69-75 | capture stays off from a foreign header to the next header of the device |
| `PtpChecker.GmIdentityIsLost` | services/module-manager/internal/ptp/checker.go:69-75 | a `gmIdentity` line with a clock identity in it counts as a header and is never captured for an identity that does not start with g |
| `PtpChecker.EmptyIdKeepsAll` | services/module-manager/internal/ptp/checker.go:69-80 | with an empty clock identity everything from the first header on is captured |
| `PtpChecker.ClockIdExists` | services/module-manager/internal/ptp/checker.go:155-166 | a 17-character address has an identity if and only if it has five colons; the identity has 18 characters, the infix in the middle and the lower-cased digits around it |
| `PtpChecker.ClockIdDigits` | services/module-manager/internal/ptp/checker.go:155-166 | the identity has the address's twelve hexadecimal digits by value and in order, written in lower case |
| `PtpChecker.ClockIdRoundTrip` | services/module-manager/internal/ptp/checker.go:155-166 | decoding the identity of a colon-separated MAC address gives the address in lower case |
| `PtpChecker.ClockIdIsInjective` | services/module-manager/internal/ptp/checker.go:155-166 | two such addresses share an identity if and only if they differ in letter case only |
| `PtpChecker.DevicesNeverShareALine` | services/module-manager/internal/ptp/checker.go:50-81 | codec and loop together: no line is captured for two devices |
| `PtpChecker.MatchIsHeader` | services/module-manager/internal/ptp/checker.go:69-71 | a line that starts with a device's identity, however indented, is taken for a header |
| `PtpChecker.NoGrandmasterLine` | services/module-manager/internal/ptp/checker.go:69-80 | no device's captured text contains its grandmaster identity line |
| `DiskUsage.FiguresModulo` | services/module-manager/internal/storage/manager.go:114-123 | total, free and used are the true byte counts modulo 2^64, and the percentage is undefined if and only if the total is zero |
| `DiskUsage.UsedPlusFree` | services/module-manager/internal/storage/manager.go:114-116 | used and free add up to the total or to 2^64 more, for all counters |
| `DiskUsage.UsageIsExact` | services/module-manager/internal/storage/manager.go:114-123 | where the byte counts fit and the disk is not empty, total and free are the true byte counts and the percentage relates used to total; the figures balance exactly, and the percentage lies between 0 and 100, if and only if no more blocks are free than there are |
| `DiskFanOut.StepKeepsInv` | services/module-manager/internal/storage/manager.go:49-79 | every step of a worker, its prober, a timeout or the handler keeps the invariant and lowers the measure |
| `DiskFanOut.RunKeepsInv` | services/module-manager/internal/storage/manager.go:49-79 | so does every run, and no run is longer than the initial measure |
| `DiskFanOut.ProberNeverBlocks` | services/module-manager/internal/storage/manager.go:93-127 | a prober that wants to send always can, even after its caller has timed out |
| `DiskFanOut.HungDisksDoNotBlock` | services/module-manager/internal/storage/manager.go:59-62 | until the request has returned somebody can move who is not in a system call, so a hung disk never blocks it |
| `DiskFanOut.StuckMeansDone` | services/module-manager/internal/storage/manager.go:77-134 | the only states nobody can leave have returned, with every worker and every prober gone |
| `DiskFanOut.ResultsAreExact` | services/module-manager/internal/storage/manager.go:49-79 | the map holds the names of the disks stored, each with what a stored disk of that name measured; after the wait a disk was stored unless it failed or timed out |
| `DiskFanOut.EachDiskItsOwn` | services/module-manager/internal/storage/manager.go:64-73 | with distinct names each stored disk is in the map with what its own mount path measures, or the root for an empty one |
| `DiskFanOut.GetAllDiskUsages` | services/module-manager/internal/storage/manager.go:49-79 | under an arbitrary scheduler, which also decides the timeouts, the request terminates in a reachable final state whose map it returns, with exactly the disks that succeeded and did not time out in it |
| `DiskSchedules.StoredAndTimedOut` | services/module-manager/internal/storage/manager.go:59-73 | any disk that can be measured may be stored while any other one times out |
| `DiskService.ListDisks` | services/module-manager/internal/service/monitoring_service.go:107-146 | the loop lists the configured disks found in the map, in configuration order |
| `DiskService.ListingIsExact` | services/module-manager/internal/service/monitoring_service.go:121-141 | in every interleaving, with distinct names, the listing is the stored disks, all of them, in configuration order, each with its configured name, mount path and description and with what its own mount path measures |
| `DiskService.DuplicateNames` | services/module-manager/internal/config/config.go:188-195 | names may repeat; every run then lists each disk with its own measurement if and only if no disk that shares its name can be measured |
| `DiskService.DistinctNamesAreNeeded` | services/module-manager/internal/config/config.go:188-195 | the listing is right on every file system if and only if the names are distinct |
| `DiskService.ShownForANamesake` | services/module-manager/internal/service/monitoring_service.go:121-141 | the run that goes wrong: a disk that timed out is listed with its namesake's measurement |
| `DiskService.SameDiskTwice` | services/module-manager/internal/config/config.go:188-195 | it goes wrong even for one entry configured twice |
| `DiskService.StripUndoesListing` | services/api-gateway/internal/rest/module_handlers.go:121-124 | stripping the prefix gives back every listed name but the empty one, and leaves alone exactly the names that do not carry it |
| `DiskService.GetDiskUsage` | services/module-manager/internal/storage/manager.go:32-46 | answers for the first disk of the name with what its own mount path measures, if it can be measured in time |
| `DiskService.GetDisk` | services/module-manager/internal/service/monitoring_service.go:62-105 | answers with the description of the first disk of the stripped name and what its own mount path measures |
| `DiskService.AskForListed` | services/module-manager/internal/service/monitoring_service.go:129-141 | asking for a listed disk by its listed name gives the listed entry without its mount path |
| `DiskService.GetPrimaryDiskUsage` | services/module-manager/internal/service/monitoring_service.go:33-60 | the legacy call panics if and only if monitoring is enabled without a disk, and otherwise answers for the first disk |
| `DiskService.ModuleConfig.Default` | services/module-manager/internal/config/config.go:63-104 | the default configuration enables monitoring with an empty list of disks |
| `DiskService.ModuleConfig.Validate` | services/module-manager/internal/config/config.go:164-199 | accepts exactly the configurations with a port from 1 to 65535 and, where monitoring is enabled, at least one disk and no disk without name or path, after the deprecated path is taken over, and changes nothing else |
| `DiskService.LegacyCallNeedsValidation` | services/module-manager/internal/config/config.go:106-114 | an accepted configuration keeps the legacy call from panicking, the unvalidated default makes it panic |
| `ServiceControl.ParseIsExact` | services/module-manager/internal/config/config.go:217-224 | a name parses into two parts if and only if it is the two slash-free parts with a slash between |
| `ServiceControl.MappingIsExact` | services/module-manager/internal/config/config.go:236-254 | a resource is known if and only if it is `services/` and a configured identifier, and its own unit is on the allowlist |
| `ServiceControl.ManageFollowsPlan` | services/module-manager/internal/service/service_manager_service.go:145-325 | whatever the commands come to, a request runs exactly its planned mutating commands in order; a refused plan runs nothing and fails |
| `ServiceControl.SuccessMeansPrimaryRan` | services/module-manager/internal/service/service_manager_service.go:203-217 | a handler answers with a service only if its primary command succeeded |
| `ServiceControl.PlanIsAllowed` | services/module-manager/internal/config/config.go:206-215 | every planned command names a configured unit, the last one that of the service asked for |
| `ServiceControl.HistoryIsPlanned` | services/module-manager/internal/service/service_manager_service.go:29-325 | over any sequence of requests and any outcome of commands, the mutating commands are the plans one after the other, and each names a configured unit |
| `ServiceControl.ReadingMutatesNothing` | services/module-manager/internal/service/service_manager_service.go:29-83 | reading a service runs no mutating command |
| `ServiceHandlers.Handlers.ManageService` | services/module-manager/internal/system/manager.go:91-108 | each known action runs its one command, an unknown one none |
| `ServiceHandlers.Handlers.GetServiceInfo` | services/module-manager/internal/system/manager.go:110-134 | runs the status, enablement, description and, for active units, uptime commands in this order and reads the answers as `ServiceInfo` says |
| `ServiceHandlers.Handlers.GetService` | services/module-manager/internal/service/service_manager_service.go:29-83 | the handler does what the specification function says, error codes included |
| `ServiceHandlers.Handlers.StartService` | services/module-manager/internal/service/service_manager_service.go:145-175 | the handler runs and answers what `Manage` says for a start |
| `ServiceHandlers.Handlers.StopService` | services/module-manager/internal/service/service_manager_service.go:177-218 | the handler runs and answers what `Manage` says for a stop: the allowed secondary unit first, the primary even if that fails |
| `ServiceHandlers.Handlers.RestartService` | services/module-manager/internal/service/service_manager_service.go:220-261 | the same for a restart |
| `ServiceHandlers.Handlers.EnableService` | services/module-manager/internal/service/service_manager_service.go:263-293 | the same for enabling, without a secondary unit |
| `ServiceHandlers.Handlers.DisableService` | services/module-manager/internal/service/service_manager_service.go:295-325 | the same for disabling, without a secondary unit |
| `ServiceHandlers.Handlers.ListServices` | services/module-manager/internal/service/service_manager_service.go:85-143 | what is run and listed is that of a visit of all configured services in some order |
| `ServiceListing.ListingMutatesNothing` | services/module-manager/internal/service/service_manager_service.go:85-143 | listing runs no mutating command |
| `ServiceListing.EntriesAreAnswers` | services/module-manager/internal/service/service_manager_service.go:98-138 | an entry is listed if and only if it is what was read of some visited service at its turn |
| `ServiceListing.NamesAreUnique` | services/module-manager/internal/service/service_manager_service.go:131-137 | no service is listed twice |
| `ServiceListing.ListedExactly` | services/module-manager/internal/service/service_manager_service.go:98-138 | a configured service is listed if and only if its status could be read at its turn, and then as read |
| `ServiceListing.ListedCanBeAsked` | services/module-manager/internal/service/service_manager_service.go:38-52 | asking for a service by its listed name reads the entry a listing would show, unless its identifier contains a slash, and then is refused |
| `ServiceListing.SlashedServiceIsRefused` | services/module-manager/internal/service/service_manager_service.go:38-46 | a service configured as `a/b` is listed under a name that is refused |
| `ServiceReading.StatusIsRead` | services/module-manager/internal/system/manager.go:236-259 | a status is read if and only if its command exits well or prints inactive, failed, activating or deactivating, and the state is the one printed |
| `ServiceReading.InfoIsRead` | services/module-manager/internal/system/manager.go:110-134 | reading a unit runs the status command, and if that can be read the enablement, description and, for active units, uptime commands; name, description, state and enablement are those configured and printed |
| `ServiceReading.GetServiceAnswers` | services/module-manager/internal/service/service_manager_service.go:29-58 | which error is answered when: disabled, no such kind of name, not configured, or not readable |
| `ServiceReading.GetServiceReads` | services/module-manager/internal/service/service_manager_service.go:54-83 | a configured service is answered as `systemctl` prints it |
| `ServiceReading.ListingReads` | services/module-manager/internal/service/service_manager_service.go:98-138 | every entry of a listing is as `systemctl` prints it at its turn, and a service is missing only if it cannot be read then |
| `ServiceReading.ManageAnswers` | services/module-manager/internal/service/service_manager_service.go:145-325 | a changing call answers with the service, as printed after the primary command, if and only if its secondary unit is not refused, the primary command succeeds and the status can be read; else with an internal error |
| `ServiceReading.ManageRejects` | services/module-manager/internal/service/service_manager_service.go:145-190 | the errors for a disabled interface and for names that are not a configured service's, with nothing run |
| `ServiceReading.StoppedIsAnswered` | services/module-manager/internal/service/service_manager_service.go:203-217 | the ordinary stop, after which the status command fails and prints inactive, is answered with the inactive service |
| `UnitRace.AfterUnit` | services/module-manager/internal/service/service_manager_service.go:192-207 | a unit is active after some events if and only if its last event is an activation, or it was active and none concerns it |
| `UnitRace.StopWithSecondary` | services/module-manager/internal/service/service_manager_service.go:192-207 | if both commands of a stop or restart succeed, the primary unit ends as asked, and the secondary one inactive if and only if the environment does not leave it activated between the two commands |
| `UnitRace.TimerCanWin` | services/module-manager/internal/config/config.go:85-89 | where the primary unit is an active timer, the handler's order admits a run that ends with the triggered unit active |
| `UnitRace.TimerDecides` | services/module-manager/internal/service/service_manager_service.go:192-207 | a succeeding stop can leave the triggered unit running if and only if its timer is active at the call |
| `UnitRace.NothingTriggersAgain` | services/module-manager/internal/config/config.go:85-93 | once the timer is inactive nothing starts the triggered unit again |
| `GatewayStatus.GetServiceStatus` | services/api-gateway/internal/rest/module_handlers.go:185-218 | the loop shows for each known service the state of its last entry, and all unknown without a listing |
| `GatewayStatus.ShownIsAnEntry` | services/api-gateway/internal/rest/module_handlers.go:200-212 | a state is shown if and only if some entry has the name, and it is that entry's |
| `GatewayStatus.StatusShows` | services/api-gateway/internal/rest/module_handlers.go:200-231 | which field shows which service, in which words, from the last entry of its name, and unknown without one |
| `GatewayStatus.WordSurvives` | services/api-gateway/internal/rest/module_handlers.go:298-313 | module manager and gateway together keep the five known words and turn every other into unknown |
| `GatewayStatus.ShownAsRead` | services/api-gateway/internal/rest/module_handlers.go:198-216 | from `systemctl` to the page: what is shown of a configured service is what was read of it at its turn |
| `GatewayStatus.StatusIsOrderFree` | services/module-manager/internal/service/service_manager_service.go:95-98 | as long as the units hold still, the order in which the services are visited does not show |
| `GatewayVerdict.NotFoundExactly` | services/api-gateway/internal/rest/module_handlers.go:62-79 | the gateway answers not found for unreachable modules and for exactly those reachable ones without services, in time, with a disk over 90 percent |
| `GatewayVerdict.VerdictExactly` | services/api-gateway/internal/rest/module_handlers.go:315-345 | error, warning and OK each if and only if: by failed services, the clock offset, idle services and the disk |
| `GatewayVerdict.FullDiskHidesModule` | services/api-gateway/internal/rest/module_handlers.go:62-79 | a reachable module with a disk 95 percent full that is answered with not found |
| `GatewayVerdict.SensorIsNamed` | services/api-gateway/internal/rest/module_handlers.go:189-218 | a module with services never shows an empty sensor state |
| `RecordingHandler.RecordingHandler.constructor` | services/ros2-bridge/src/recording_handler.cpp:12-26 | a new handler agrees with the empty history |
| `RecordingHandler.RecordingHandler.RecorderStatusCallback` | services/ros2-bridge/src/recording_handler.cpp:154-165 | a message extends the history, and both maps still hold exactly the last message of each recorder and its arrival |
| `RecordingHandler.RecordingHandler.GetRecording` | services/ros2-bridge/src/recording_handler.cpp:28-55 | answers what the history says, error codes included |
| `RecordingHandler.RecordingHandler.ListRecordings` | services/ros2-bridge/src/recording_handler.cpp:57-74 | lists the passing recorders' last messages in the order of some visit |
| `RecordingHandler.RecordingHandler.ListTopicStatuses` | services/ros2-bridge/src/recording_handler.cpp:76-101 | answers with the passing topics of the last message, error codes included |
| `RecorderCache.LastIsLast` | services/ros2-bridge/src/recording_handler.cpp:159-160 | the cached message of a recorder is its last one, and none is cached if and only if none came |
| `RecorderCache.AnsweredIffHeard` | services/ros2-bridge/src/recording_handler.cpp:34-54 | on a steady clock a recorder is answered for if and only if it was heard of less than 11 s ago, with its last message, and not found if and only if it never was |
| `RecorderCache.MessageIsShown` | services/ros2-bridge/src/recording_handler.cpp:167-247 | an answered recording has the identifier, flag, error level and topics of its message, each topic its name, type, rate, rate status and resource name |
| `RecorderCache.ListingShowsLast` | services/ros2-bridge/src/recording_handler.cpp:63-71 | whatever the filter, each recording listed shows the last message of its recorder |
| `RecorderCache.UnfilteredListsAll` | services/ros2-bridge/src/recording_handler.cpp:63-71 | without a recognised filter every recorder ever heard of is listed once, whatever its age |
| `RecorderCache.FilterSelectsTheWrongId` | services/ros2-bridge/src/recording_handler.cpp:257-268 | the filter for an identifier lists the recorder named by that identifier with an equals sign in front, and never the one asked for |
| `RecorderCache.ListingMeetsLookup` | services/ros2-bridge/src/recording_handler.cpp:257-268 | filtered listing and lookup give the same single record if and only if the filter is `hardware_id:` followed by the identifier or, for a filter not recognised, no other recorder was heard of |
| `RecorderCache.FilterMissesItsRecorder` | services/ros2-bridge/src/recording_handler.cpp:257-268 | a recorder just heard of that its own filter does not list |
| `RecorderCache.TopicNamesCollide` | services/ros2-bridge/src/recording_handler.cpp:206-211 | two topics get one resource name if and only if they differ only by slashes in place of underscores |
| `RecorderCache.TwoTopicsOneName` | services/ros2-bridge/src/recording_handler.cpp:206-211 | two topics with one resource name |
| `TopicFilter.PatternMeaning` | services/ros2-bridge/src/recording_handler.cpp:270-288 | a pattern ending in a star means starts-with, any other non-empty pattern equality |
| `TopicFilter.KeepsAll` | services/ros2-bridge/src/recording_handler.cpp:270-288 | a lone star, an empty filter and any filter in another language select every topic |
| `TopicFilter.KeptIsExact` | services/ros2-bridge/src/recording_handler.cpp:90-98 | the selected topics are those at the passing positions, all of them, in their order |
| `TopicFilter.AnswerIsExact` | services/ros2-bridge/src/recording_handler.cpp:81-101 | an answer holds exactly the topics of the last message that the filter denotes, in their order, each as reported |
| `TopicFilter.UnknownIsNotFound` | services/ros2-bridge/src/recording_handler.cpp:83-88 | the recorder is not found if and only if it was never heard of |
| `TopicFilter.UndefinedExactly` | services/ros2-bridge/src/recording_handler.cpp:276-279 | the behaviour is undefined if and only if the filter is the bare prefix and the recorder is known with topics |
| `TopicFilter.BarePrefixIsUndefined` | services/ros2-bridge/src/recording_handler.cpp:276-279 | a recorder with one topic on which the bare prefix is undefined |
| `GatewayRecording.FindRecording` | services/api-gateway/internal/rest/module_handlers.go:259-293 | the loop shows the first recording under one of the module's two names, or stopped |
| `GatewayRecording.DisplayedIsLast` | services/api-gateway/internal/rest/module_handlers.go:252-293 | gateway and bridge together: a module known under one name shows that recorder's last message, however old |
| `GatewayRecording.DisplayedWords` | services/api-gateway/internal/rest/module_handlers.go:261-285 | the words shown for that message's flag and severity |
| `GatewayRecording.OrderShowsExactly` | services/api-gateway/internal/rest/module_handlers.go:257-260 | the order of the bridge's hash map shows if and only if both names of the module are known with different states |
| `GatewayRecording.TwoRecordersOneModule` | services/api-gateway/internal/rest/module_handlers.go:257-260 | two recorders between which the map's order decides what a module shows |
| `FormatBytes.FormatBytes` | tools/drs-cli/cmd/monitoring.go:171-182 | for every 64-bit count from 1024 on the loop ends with the divisor a power of 1024 of at most 2^60, count/1024 below it and not above the count, the index of the unit at most 5, its letter the right one and the number shown the nearest tenth |
| `FormatBytes.UnitIsMonotone` | tools/drs-cli/cmd/monitoring.go:176-181 | a larger count is never shown in a smaller unit, so the unit is unique |
| `FormatBytes.SixUnitsSuffice` | tools/drs-cli/cmd/monitoring.go:181-181 | every 64-bit count fits one of the six unit letters |
| `FormatBytes.Fits` | tools/drs-cli/cmd/monitoring.go:176-179 | the 64-bit product of the loop is the true one |
| `FormatBytes.ProductWraps` | tools/drs-cli/cmd/monitoring.go:178-178 | the 64-bit product is the true one modulo 2^64 in two's complement |
| `FormatBytes.LetterIsRight` | tools/drs-cli/cmd/monitoring.go:181-181 | each unit letter names its own range of powers of two |
| `FormatBytes.TenthsAreNearest` | tools/drs-cli/cmd/monitoring.go:181-181 | the number shown is the nearest tenth of the quotient, the even one of two |
| `FormatBytes.ConversionError` | tools/drs-cli/cmd/monitoring.go:181-181 | counts below 2^53 are converted to floating point exactly, larger ones to within half the distance of neighbours |
| `FormatBytes.ConversionKeepsUnit` | tools/drs-cli/cmd/monitoring.go:181-181 | the converted count stays between the powers of 1024 around the count |
| `FormatBytes.ShownNumberRange` | tools/drs-cli/cmd/monitoring.go:181-181 | the number shown lies between 1.0 and 1024.0, and is 1024.0 exactly if the converted count is in the last twentieth of a unit below the next power |

## Left out

- The dashboard, the command line client apart from its size formatting, REST routing, request binding and the `main` functions: wiring without state of its own.
- Generated protocol code, gRPC, gin, YAML and ROS 2 internals, and what `conn.Close` does or returns: outcomes are arbitrary inputs, and an error of `conn.Close` is only printed.
- The regular expressions of `parseTimeStatus` and of the ARP table, the time layouts of the uptime, and the token limit of `bufio.Scanner`: the model starts from lines and from a MAC address and carries no uptime.
- `ToLower` outside ASCII: MAC addresses are ASCII.
- IEEE floating point in percentages: they are exact numbers; the percentage of an empty disk is undefined in the model, and NaN and infinity do not occur in `GatewayVerdict`.
- Durations of timeouts and contexts: a timeout may strike at any moment at which the code waits for it.
- Operations other than restart and shutdown in `performSystemOperation`: both callers pass one of the two.
- The start, stop, pause and resume commands of the recorder, `GetRecordingStatus` and `GetTopicStatus` of the gateway, message headers and time stamps: single remote calls or copies.
- A PTP answer without a local status, which would stop the gateway: `GetPtpStatus` asks for complete answers, and `ReadPtpStatus` shows that module managers give no others.
- The environment, disk and PTP parts of `getModuleStatus`: inputs of `GatewayVerdict`, which takes the offset and the percentage as obtained.
- Restarting a single module, `HealthCheck`, the DRS and recorder commands of the module manager's older interface: single calls.
- The log lines and the wording of error messages, except where a reply carries them.
- GatewayClients.ClientManager.Close: here a goroutine runs alone inside the section, as `MutualExclusion`, `CreateIsAtomic` and `CloseIsAtomic` justify.
- UnitRace.ReverseOrderIsSafe: models no code, but the order the code does not use, to show what the order it uses gives away.
- DiskService.GetDisk: takes the context's decision as an input instead of running the two goroutines again, which `DiskFanOut` does.
