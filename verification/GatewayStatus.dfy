/** What the gateway shows of a module's services, made from a service listing. */
module GatewayStatus {
  import opened Common
  import opened ServiceControl
  import opened ServiceListing

  datatype ServiceStatus = ServiceStatus(sensor: string, recorder: string, transfer: string, transferring: string)

  function Word(state: ServiceState): string {
    match state
    case Active => "active"
    case Inactive => "inactive"
    case FailedState => "failed"
    case Activating => "activating"
    case Deactivating => "deactivating"
    case Unspecified => "unknown"
  }

  function Transferring(word: string): string {
    if word == "active" || word == "activating" then "transferring"
    else if word == "failed" then "failed"
    else "stopped"
  }

  /** The word of the last entry with a name. */
  function Shown(listed: seq<Service>, name: string): Option<string> {
    if listed == [] then None
    else
      var last := listed[|listed| - 1];
      if last.name == name then Some(Word(last.state)) else Shown(listed[..|listed| - 1], name)
  }

  function OrUnknown(word: Option<string>): string {
    if word.Some? then word.value else "unknown"
  }

  function Status(listed: seq<Service>): ServiceStatus {
    ServiceStatus(
      OrUnknown(Shown(listed, "services/drs_sensor")),
      OrUnknown(Shown(listed, "services/drs_recorder")),
      OrUnknown(Shown(listed, "services/drs_transfer")),
      match Shown(listed, "services/drs_transfer_service")
      case Some(word) => Transferring(word)
      case None => "unknown")
  }

  method GetServiceStatus(listing: Option<seq<Service>>) returns (status: ServiceStatus)
    ensures listing.None? ==> status == Status([])
    ensures listing.Some? ==> status == Status(listing.value)
  {
    status := ServiceStatus("unknown", "unknown", "unknown", "unknown");
    if listing.Some? {
      var listed := listing.value;
      var transferService := "";
      for k := 0 to |listed|
        invariant status.sensor == OrUnknown(Shown(listed[..k], "services/drs_sensor"))
        invariant status.recorder == OrUnknown(Shown(listed[..k], "services/drs_recorder"))
        invariant status.transfer == OrUnknown(Shown(listed[..k], "services/drs_transfer"))
        invariant status.transferring == "unknown"
        invariant match Shown(listed[..k], "services/drs_transfer_service")
          case None => transferService == ""
          case Some(word) => transferService == word && word != ""
      {
        assert listed[..k + 1][..k] == listed[..k];
        var service := listed[k];
        if service.name == "services/drs_sensor" {
          status := status.(sensor := Word(service.state));
        } else if service.name == "services/drs_recorder" {
          status := status.(recorder := Word(service.state));
        } else if service.name == "services/drs_transfer" {
          status := status.(transfer := Word(service.state));
        } else if service.name == "services/drs_transfer_service" {
          transferService := Word(service.state);
        }
      }
      assert listed[..|listed|] == listed;
      if transferService != "" {
        status := status.(transferring := Transferring(transferService));
      }
    }
  }

  lemma {:induction false} ShownIsAnEntry(listed: seq<Service>, name: string)
    ensures Shown(listed, name).None? <==> forall i :: 0 <= i < |listed| ==> listed[i].name != name
    ensures Shown(listed, name).Some? ==> exists i ::
      0 <= i < |listed| && listed[i].name == name && Shown(listed, name) == Some(Word(listed[i].state))
  {
    if listed != [] {
      ShownIsAnEntry(listed[..|listed| - 1], name);
    }
  }

  /** How a service's state is spelled. */
  ghost predicate Spells(word: string, state: ServiceState) {
    && (state.Active? ==> word == "active")
    && (state.Inactive? ==> word == "inactive")
    && (state.FailedState? ==> word == "failed")
    && (state.Activating? ==> word == "activating")
    && (state.Deactivating? ==> word == "deactivating")
    && (state.Unspecified? ==> word == "unknown")
  }

  ghost predicate LastNamed(listed: seq<Service>, name: string, k: nat) {
    k < |listed| && listed[k].name == name && forall i :: k < i < |listed| ==> listed[i].name != name
  }

  ghost predicate Unlisted(listed: seq<Service>, name: string) {
    forall i :: 0 <= i < |listed| ==> listed[i].name != name
  }

  lemma {:induction false} ShownIsLast(listed: seq<Service>, name: string, k: nat)
    requires LastNamed(listed, name, k)
    ensures Shown(listed, name).Some? && Spells(Shown(listed, name).value, listed[k].state)
  {
    if k < |listed| - 1 {
      ShownIsLast(listed[..|listed| - 1], name, k);
    }
  }

  /** A field shows the state of the last entry of its service, and `unknown` without one. */
  ghost predicate FieldShows(field: string, listed: seq<Service>, name: string) {
    && (forall k: nat :: LastNamed(listed, name, k) ==> Spells(field, listed[k].state))
    && (Unlisted(listed, name) ==> field == "unknown")
  }

  /** The transfer is running while its unit starts or runs. */
  ghost predicate TransferShows(field: string, listed: seq<Service>) {
    && (forall k: nat :: LastNamed(listed, "services/drs_transfer_service", k) ==>
         && (listed[k].state.Active? || listed[k].state.Activating? ==> field == "transferring")
         && (listed[k].state.FailedState? ==> field == "failed")
         && (!listed[k].state.Active? && !listed[k].state.Activating? && !listed[k].state.FailedState? ==> field == "stopped"))
    && (Unlisted(listed, "services/drs_transfer_service") ==> field == "unknown")
  }

  lemma FieldIsShown(listed: seq<Service>, name: string)
    ensures FieldShows(OrUnknown(Shown(listed, name)), listed, name)
  {
    ShownIsAnEntry(listed, name);
    forall k: nat | LastNamed(listed, name, k) ensures Spells(OrUnknown(Shown(listed, name)), listed[k].state) {
      ShownIsLast(listed, name, k);
    }
  }

  /** Which field shows which service, and in which words. */
  lemma StatusShows(listed: seq<Service>)
    ensures FieldShows(Status(listed).sensor, listed, "services/drs_sensor")
    ensures FieldShows(Status(listed).recorder, listed, "services/drs_recorder")
    ensures FieldShows(Status(listed).transfer, listed, "services/drs_transfer")
    ensures TransferShows(Status(listed).transferring, listed)
  {
    FieldIsShown(listed, "services/drs_sensor");
    FieldIsShown(listed, "services/drs_recorder");
    FieldIsShown(listed, "services/drs_transfer");
    TransferIsShown(listed);
  }

  lemma TransferIsShown(listed: seq<Service>)
    ensures TransferShows(Status(listed).transferring, listed)
  {
    var name := "services/drs_transfer_service";
    ShownIsAnEntry(listed, name);
    forall k: nat | LastNamed(listed, name, k)
      ensures Shown(listed, name).Some? && Spells(Shown(listed, name).value, listed[k].state)
    {
      ShownIsLast(listed, name, k);
    }
  }

  predicate IsKnownWord(word: string) {
    word == "active" || word == "inactive" || word == "failed" || word == "activating" || word == "deactivating"
  }

  /** What systemd was read to say, as shown. */
  function AsRead(answer: Option<Info>): Option<string> {
    if answer.None? then None
    else if IsKnownWord(answer.value.status) then Some(answer.value.status)
    else Some("unknown")
  }

  /** Both translations of the state together keep the five known words. */
  lemma WordSurvives(status: string)
    ensures Word(StateOf(status)) == if IsKnownWord(status) then status else "unknown"
  {
  }

  /**
   From `systemctl` to the page: for a configured service the gateway shows the word systemd
   printed at that service's turn if it is one of the five known ones, "unknown" for any other,
   and nothing if the status could not be read.
   */
  lemma ShownAsRead(cfg: Config, w: World, h: seq<Command>, order: seq<string>, k: nat)
    requires IsVisit(cfg, order) && k < |order|
    ensures Shown(Visit(cfg, w, h, order).1, "services/" + order[k]) == AsRead(AnswerAt(cfg, w, h, order, k))
  {
    var listed, name := Visit(cfg, w, h, order).1, "services/" + order[k];
    ShownIsAnEntry(listed, name);
    if Shown(listed, name).Some? {
      var i :| 0 <= i < |listed| && listed[i].name == name && Shown(listed, name) == Some(Word(listed[i].state));
      EntryShowsAnswer(cfg, w, h, order, k, listed[i]);
    } else {
      UnlistedIsUnread(cfg, w, h, order, k);
    }
  }

  lemma EntryShowsAnswer(cfg: Config, w: World, h: seq<Command>, order: seq<string>, k: nat, e: Service)
    requires IsVisit(cfg, order) && k < |order|
    requires e in Visit(cfg, w, h, order).1 && e.name == "services/" + order[k]
    ensures Some(Word(e.state)) == AsRead(AnswerAt(cfg, w, h, order, k))
  {
    ListedExactly(cfg, w, h, order, k, e);
    WordSurvives(AnswerAt(cfg, w, h, order, k).value.status);
  }

  lemma UnlistedIsUnread(cfg: Config, w: World, h: seq<Command>, order: seq<string>, k: nat)
    requires IsVisit(cfg, order) && k < |order|
    requires forall e :: e in Visit(cfg, w, h, order).1 ==> e.name != "services/" + order[k]
    ensures AnswerAt(cfg, w, h, order, k).None?
  {
    var answer := AnswerAt(cfg, w, h, order, k);
    if answer.Some? {
      ListedExactly(cfg, w, h, order, k, Entry(cfg, order[k], answer.value));
    }
  }

  lemma NotConfiguredNotShown(cfg: Config, w: World, h: seq<Command>, order: seq<string>, name: string)
    requires IsVisit(cfg, order) && forall id :: id in cfg.services ==> "services/" + id != name
    ensures Shown(Visit(cfg, w, h, order).1, name).None?
  {
    var listed := Visit(cfg, w, h, order).1;
    ShownIsAnEntry(listed, name);
    forall i | 0 <= i < |listed| ensures listed[i].name != name {
      EntriesAreAnswers(cfg, w, h, order, listed[i]);
    }
  }

  /** Units hold still: each command's answer depends on the command alone. */
  ghost predicate Still(w: World) {
    forall g: seq<Command>, h: seq<Command>, c: Command :: w(g + [c]) == w(h + [c])
  }

  lemma StillAnswers(w: World, g: seq<Command>, h: seq<Command>, unit: string)
    requires Still(w)
    ensures ServiceInfo(w, g, unit).1 == ServiceInfo(w, h, unit).1
  {
    var g1, h1 := g + [IsActive(unit)], h + [IsActive(unit)];
    assert w(g1) == w(h1);
    assert w(g1 + [IsEnabled(unit)]) == w(h1 + [IsEnabled(unit)]);
  }

  lemma ShownIsOrderFree(cfg: Config, w: World, h: seq<Command>, one: seq<string>, other: seq<string>, name: string)
    requires Still(w) && IsVisit(cfg, one) && IsVisit(cfg, other)
    ensures Shown(Visit(cfg, w, h, one).1, name) == Shown(Visit(cfg, w, h, other).1, name)
  {
    if id :| id in cfg.services && "services/" + id == name {
      var i :| 0 <= i < |one| && one[i] == id;
      var j :| 0 <= j < |other| && other[j] == id;
      ShownAsRead(cfg, w, h, one, i);
      ShownAsRead(cfg, w, h, other, j);
      StillAnswers(w, Visit(cfg, w, h, one[..i]).0, Visit(cfg, w, h, other[..j]).0, cfg.services[id].systemdName);
    } else {
      NotConfiguredNotShown(cfg, w, h, one, name);
      NotConfiguredNotShown(cfg, w, h, other, name);
    }
  }

  /** As long as the units hold still, the order in which Go visits its map does not show. */
  lemma StatusIsOrderFree(cfg: Config, w: World, h: seq<Command>, one: seq<string>, other: seq<string>)
    requires Still(w) && IsVisit(cfg, one) && IsVisit(cfg, other)
    ensures Status(Visit(cfg, w, h, one).1) == Status(Visit(cfg, w, h, other).1)
  {
    ShownIsOrderFree(cfg, w, h, one, other, "services/drs_sensor");
    ShownIsOrderFree(cfg, w, h, one, other, "services/drs_recorder");
    ShownIsOrderFree(cfg, w, h, one, other, "services/drs_transfer");
    ShownIsOrderFree(cfg, w, h, one, other, "services/drs_transfer_service");
  }
}
