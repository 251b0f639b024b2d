/**
 What the service calls answer, told from what `systemctl` prints: independent of how the status
 is classified and translated on the way.
 */
module ServiceReading {
  import opened Common
  import opened GoStrings
  import opened ServiceControl
  import opened ServiceListing

  /** The command prints the word, with white space such as a line feed around it. */
  ghost predicate Says(o: Output, word: string) {
    exists before, after :: AllSpace(before) && AllSpace(after) && o.text == before + word + after
  }

  /** The words that count although `systemctl is-active` exits with an error. */
  ghost predicate SaysTolerated(o: Output) {
    Says(o, "inactive") || Says(o, "failed") || Says(o, "activating") || Says(o, "deactivating")
  }

  ghost predicate StateSaid(o: Output, state: ServiceState) {
    && (Says(o, "active") ==> state.Active?)
    && (Says(o, "inactive") ==> state.Inactive?)
    && (Says(o, "failed") ==> state.FailedState?)
    && (Says(o, "activating") ==> state.Activating?)
    && (Says(o, "deactivating") ==> state.Deactivating?)
    && (!Says(o, "active") && !SaysTolerated(o) ==> state.Unspecified?)
  }

  /** What reading the configured service `id` after the commands `h` has to give. */
  ghost predicate ReadRightly(cfg: Config, w: World, h: seq<Command>, id: string, read: Option<Service>)
    requires id in cfg.services
  {
    var unit := cfg.services[id].systemdName;
    var status, enablement := w(h + [IsActive(unit)]), w(h + [IsActive(unit), IsEnabled(unit)]);
    && (read.Some? <==> status.exitOk || SaysTolerated(status))
    && (read.Some? ==>
         && read.value.name == "services/" + id
         && read.value.description == cfg.services[id].description
         && StateSaid(status, read.value.state)
         && (read.value.enabled <==> enablement.exitOk && Says(enablement, "enabled")))
  }

  /** The commands a reading runs. */
  ghost predicate AsksFor(w: World, h: seq<Command>, unit: string, after: seq<Command>) {
    var status := w(h + [IsActive(unit)]);
    if !status.exitOk && !SaysTolerated(status) then after == h + [IsActive(unit)]
    else if Says(status, "active") then after == h + [IsActive(unit), IsEnabled(unit), Describe(unit), Since(unit)]
    else after == h + [IsActive(unit), IsEnabled(unit), Describe(unit)]
  }

  /** Printing a word is having it left after trimming. */
  lemma SaysTrimmed(o: Output, word: string)
    requires word != "" && !IsSpace(word[0]) && !IsSpace(word[|word| - 1])
    ensures Says(o, word) <==> TrimSpace(o.text) == word
  {
    if TrimSpace(o.text) == word {
      var before, after := TrimSpaceIsExact(o.text);
    }
    forall before, after | AllSpace(before) && AllSpace(after) && o.text == before + word + after
      ensures TrimSpace(o.text) == word
    {
      TrimSpaceDrops(before, word, after);
    }
  }

  lemma KnownWords(o: Output)
    ensures Says(o, "active") <==> TrimSpace(o.text) == "active"
    ensures Says(o, "inactive") <==> TrimSpace(o.text) == "inactive"
    ensures Says(o, "failed") <==> TrimSpace(o.text) == "failed"
    ensures Says(o, "activating") <==> TrimSpace(o.text) == "activating"
    ensures Says(o, "deactivating") <==> TrimSpace(o.text) == "deactivating"
  {
    SaysTrimmed(o, "active");
    SaysTrimmed(o, "inactive");
    SaysTrimmed(o, "failed");
    SaysTrimmed(o, "activating");
    SaysTrimmed(o, "deactivating");
  }

  /** A status is read exactly if its command exits well or prints a tolerated word; the state is the one printed. */
  lemma StatusIsRead(o: Output)
    ensures Classify(o).Some? <==> o.exitOk || SaysTolerated(o)
    ensures Classify(o).Some? ==> StateSaid(o, StateOf(Classify(o).value))
    ensures Classify(o).Some? ==> (Classify(o).value == "active" <==> Says(o, "active"))
  {
    KnownWords(o);
  }

  lemma InfoIsRead(cfg: Config, w: World, h: seq<Command>, id: string)
    requires id in cfg.services
    ensures var (after, info) := ServiceInfo(w, h, cfg.services[id].systemdName);
      && ReadRightly(cfg, w, h, id, if info.Some? then Some(Entry(cfg, id, info.value)) else None)
      && AsksFor(w, h, cfg.services[id].systemdName, after)
  {
    var unit := cfg.services[id].systemdName;
    var status := w(h + [IsActive(unit)]);
    StatusIsRead(status);
    assert h + [IsActive(unit)] + [IsEnabled(unit)] == h + [IsActive(unit), IsEnabled(unit)];
    SaysTrimmed(w(h + [IsActive(unit), IsEnabled(unit)]), "enabled");
    assert h + [IsActive(unit), IsEnabled(unit)] + [Describe(unit)] == h + [IsActive(unit), IsEnabled(unit), Describe(unit)];
    assert h + [IsActive(unit), IsEnabled(unit), Describe(unit)] + [Since(unit)]
        == h + [IsActive(unit), IsEnabled(unit), Describe(unit), Since(unit)];
  }

  ghost predicate Names(name: string, id: string) {
    '/' !in id && name == "services/" + id
  }

  lemma NamedOnce(name: string, id: string, other: string)
    requires Names(name, id) && Names(name, other)
    ensures id == other
  {
    PrefixIsInjective(id, other);
  }

  /** Reading a service: which error when, and otherwise the service as `systemctl` tells it. */
  lemma GetServiceAnswers(cfg: Config, w: World, h: seq<Command>, name: string)
    ensures var (after, r) := GetService(cfg, w, h, name);
      && (r == Err(Unimplemented) <==> !cfg.enabled)
      && (r == Err(InvalidArgument) <==> cfg.enabled && forall id :: !Names(name, id))
      && (r == Err(NotFound) <==> cfg.enabled && exists id :: Names(name, id) && id !in cfg.services)
      && (r.Ok? || r == Err(Internal) <==> cfg.enabled && exists id :: Names(name, id) && id in cfg.services)
  {
    if cfg.enabled {
      if id :| Names(name, id) {
        ParseNamed(name, id);
        forall other | Names(name, other) ensures other == id {
          NamedOnce(name, id, other);
        }
      } else {
        ParseUnnamed(name);
      }
    }
  }

  lemma ParseNamed(name: string, id: string)
    requires Names(name, id)
    ensures ParseResourceName(name) == Some(("services", id))
  {
    assert name == "services" + "/" + id;
    ParseIsExact(name, "services", id);
  }

  lemma ParseUnnamed(name: string)
    requires forall id :: !Names(name, id)
    ensures ParseResourceName(name).Some? ==> ParseResourceName(name).value.0 != "services"
  {
    if ParseResourceName(name).Some? {
      var (kind, id) := ParseResourceName(name).value;
      ParseIsExact(name, kind, id);
      assert kind == "services" ==> Names(name, id);
    }
  }

  /** A configured service is read as `systemctl` tells it. */
  lemma GetServiceReads(cfg: Config, w: World, h: seq<Command>, id: string)
    requires cfg.enabled && id in cfg.services && '/' !in id
    ensures var (after, r) := GetService(cfg, w, h, "services/" + id);
      && ReadRightly(cfg, w, h, id, if r.Ok? then Some(r.value) else None)
      && AsksFor(w, h, cfg.services[id].systemdName, after)
  {
    ListedCanBeAsked(cfg, w, h, id);
    InfoIsRead(cfg, w, h, id);
  }

  /** So is every entry of a listing, and a service is missing exactly if it could not be read at its turn. */
  lemma ListingReads(cfg: Config, w: World, h: seq<Command>, order: seq<string>, k: nat, e: Service)
    requires IsVisit(cfg, order) && k < |order| && e.name == "services/" + order[k]
    ensures e in Visit(cfg, w, h, order).1 ==> ReadRightly(cfg, w, Visit(cfg, w, h, order[..k]).0, order[k], Some(e))
    ensures (forall x :: x in Visit(cfg, w, h, order).1 ==> x.name != e.name) ==>
      ReadRightly(cfg, w, Visit(cfg, w, h, order[..k]).0, order[k], None)
  {
    InfoIsRead(cfg, w, Visit(cfg, w, h, order[..k]).0, order[k]);
    ListedExactly(cfg, w, h, order, k, e);
    var answer := AnswerAt(cfg, w, h, order, k);
    if answer.Some? {
      ListedExactly(cfg, w, h, order, k, Entry(cfg, order[k], answer.value));
    }
  }

  // ---- The calls that change a service ----

  /** The secondary unit is there and not a configured one. */
  ghost predicate Refused(cfg: Config, verb: Verb, id: string)
    requires id in cfg.services
  {
    && (verb.Stop? || verb.Restart?) && cfg.services[id].stopAlso != ""
    && forall other :: other in cfg.services ==> cfg.services[other].systemdName != cfg.services[id].stopAlso
  }

  /** The history up to and including the primary command. */
  ghost function Commanded(cfg: Config, verb: Verb, id: string, h: seq<Command>): seq<Command>
    requires id in cfg.services
  {
    var m := cfg.services[id];
    if (verb.Stop? || verb.Restart?) && m.stopAlso != "" then h + [Mutate(Stop, m.stopAlso), Mutate(verb, m.systemdName)]
    else h + [Mutate(verb, m.systemdName)]
  }

  /**
   A call that changes a service answers with the service, as read after the primary command,
   exactly if it was not refused, that command succeeded and the status could be read.
   */
  lemma ManageAnswers(cfg: Config, w: World, h: seq<Command>, verb: Verb, id: string)
    requires cfg.enabled && id in cfg.services && '/' !in id
    ensures var (after, r) := Manage(cfg, w, h, verb, "services/" + id);
      var h1 := Commanded(cfg, verb, id, h);
      var status := w(h1 + [IsActive(cfg.services[id].systemdName)]);
      && (r.Ok? <==> !Refused(cfg, verb, id) && w(h1).exitOk && (status.exitOk || SaysTolerated(status)))
      && (r.Ok? ==> ReadRightly(cfg, w, h1, id, Some(r.value)))
      && (r.Err? ==> r.error == Internal)
      && (Refused(cfg, verb, id) ==> after == h)
      && (!Refused(cfg, verb, id) ==> h1 <= after)
      && (!Refused(cfg, verb, id) && !w(h1).exitOk ==> after == h1)
  {
    var name, m := "services/" + id, cfg.services[id];
    ParseNamed(name, id);
    var h1 := Commanded(cfg, verb, id, h);
    GetServiceReads(cfg, w, h1, id);
    ReadingMutatesNothing(cfg, w, h1, name);
    if (verb.Stop? || verb.Restart?) && m.stopAlso != "" {
      assert h + [Mutate(Stop, m.stopAlso)] + [Mutate(verb, m.systemdName)] == h1;
    }
  }

  /** The errors for names that are not a configured service's. */
  lemma ManageRejects(cfg: Config, w: World, h: seq<Command>, verb: Verb, name: string)
    requires !cfg.enabled || forall id :: Names(name, id) ==> id !in cfg.services
    ensures Manage(cfg, w, h, verb, name) == (h, Err(if cfg.enabled then NotFound else Unimplemented))
  {
    if cfg.enabled && MappingOf(cfg, name).Some? {
      var (kind, id) := ParseResourceName(name).value;
      ParseIsExact(name, kind, id);
      assert Names(name, id);
      assert false;
    }
  }

  /** The ordinary stop: the unit is stopped, `is-active` fails and prints `inactive`, and the answer shows it. */
  lemma StoppedIsAnswered(cfg: Config, w: World, h: seq<Command>, id: string)
    requires cfg.enabled && id in cfg.services && '/' !in id && !Refused(cfg, Stop, id)
    requires var h1 := Commanded(cfg, Stop, id, h);
      w(h1).exitOk && w(h1 + [IsActive(cfg.services[id].systemdName)]).text == "inactive\n"
    ensures var r := Manage(cfg, w, h, Stop, "services/" + id).1;
      r.Ok? && r.value.state.Inactive? && r.value.name == "services/" + id
  {
    ManageAnswers(cfg, w, h, Stop, id);
    var status := w(Commanded(cfg, Stop, id, h) + [IsActive(cfg.services[id].systemdName)]);
    assert status.text == "" + "inactive" + "\n" && AllSpace("") && AllSpace("\n");
    assert Says(status, "inactive");
  }
}
