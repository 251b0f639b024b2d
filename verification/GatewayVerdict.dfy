/** The overall verdict on a module, and when the gateway denies knowing the module at all. */
module GatewayVerdict {
  import opened Common
  import opened ServiceControl
  import opened GatewayStatus

  /** What the gateway learns of a module; an offset or usage it cannot get stays zero. */
  datatype Facts = Facts(
    reachable: bool, servicesEnabled: bool, listing: Option<seq<Service>>, ptpOffset: int, usagePercentage: real)

  datatype Summary = Summary(status: string, services: ServiceStatus)

  const NO_SERVICES := ServiceStatus("", "", "", "")
  const PTP_OFFSET_THRESHOLD := 1_000_000

  /** `determineOverallStatus` */
  function OverallStatus(s: ServiceStatus, ptpOffset: int, usagePercentage: real): string {
    if s.sensor == "failed" || s.recorder == "failed" || s.transfer == "failed" || s.transferring == "failed" then "ERROR"
    else if ptpOffset > PTP_OFFSET_THRESHOLD || ptpOffset < -PTP_OFFSET_THRESHOLD then "WARN"
    else if s.sensor == "inactive" || s.recorder == "inactive" then "WARN"
    else if usagePercentage > 90.0 then "ERROR"
    else if usagePercentage > 80.0 then "WARN"
    else "OK"
  }

  function ServicesOf(facts: Facts): ServiceStatus {
    if !facts.servicesEnabled then NO_SERVICES
    else Status(if facts.listing.Some? then facts.listing.value else [])
  }

  /** `getModuleStatus` as far as the verdict goes. */
  function SummaryOf(facts: Facts): Summary {
    if !facts.reachable then Summary("ERROR", NO_SERVICES)
    else Summary(OverallStatus(ServicesOf(facts), facts.ptpOffset, facts.usagePercentage), ServicesOf(facts))
  }

  /** The test of `GetModule` for a module that is not there. */
  predicate DeniedAsUnknown(summary: Summary) {
    summary.status == "ERROR" && summary.services.sensor == ""
  }

  /** The verdict on a reachable module, by what is shown of its services, its clock and its disk. */
  lemma VerdictExactly(facts: Facts)
    requires facts.reachable
    ensures var (verdict, s) := (SummaryOf(facts).status, SummaryOf(facts).services);
      var failed := s.sensor == "failed" || s.recorder == "failed" || s.transfer == "failed" || s.transferring == "failed";
      var late := facts.ptpOffset < -1_000_000 || 1_000_000 < facts.ptpOffset;
      var idle := s.sensor == "inactive" || s.recorder == "inactive";
      && (verdict == "ERROR" <==> failed || (!late && !idle && facts.usagePercentage > 90.0))
      && (verdict == "WARN" <==> !failed && (late || idle || 80.0 < facts.usagePercentage <= 90.0))
      && (verdict == "OK" <==> !failed && !late && !idle && facts.usagePercentage <= 80.0)
    ensures !facts.servicesEnabled ==> SummaryOf(facts).services == ServiceStatus("", "", "", "")
    ensures facts.servicesEnabled ==>
      SummaryOf(facts).services == Status(if facts.listing.Some? then facts.listing.value else [])
  {
  }

  lemma SensorIsNamed(listed: seq<Service>)
    ensures Status(listed).sensor != ""
  {
    ShownIsAnEntry(listed, "services/drs_sensor");
  }

  /**
   Besides unreachable modules, the gateway answers "not found" for exactly the reachable ones
   that run no services, are in time, and have a disk more than 90 percent full.
   */
  lemma NotFoundExactly(facts: Facts)
    ensures DeniedAsUnknown(SummaryOf(facts)) <==>
      || !facts.reachable
      || (!facts.servicesEnabled && -1_000_000 <= facts.ptpOffset <= 1_000_000
          && facts.usagePercentage > 90.0)
  {
    if facts.servicesEnabled {
      SensorIsNamed(if facts.listing.Some? then facts.listing.value else []);
    }
  }

  /** The failing input: a module that can be reached, runs no services and has a disk 95 percent full. */
  lemma FullDiskHidesModule()
    ensures exists facts: Facts :: facts.reachable && DeniedAsUnknown(SummaryOf(facts))
  {
    var facts := Facts(true, false, None, 0, 95.0);
    NotFoundExactly(facts);
    assert facts.reachable && DeniedAsUnknown(SummaryOf(facts));
  }
}
