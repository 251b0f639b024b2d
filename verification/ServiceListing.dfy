/** Listing the configured services: one status query each, in whatever order Go visits the map. */
module ServiceListing {
  import opened Common
  import opened ServiceControl

  ghost predicate IsVisit(cfg: Config, order: seq<string>) {
    Unique(order) && (forall id :: id in order <==> id in cfg.services)
  }

  function Entry(cfg: Config, id: string, info: Info): Service
    requires id in cfg.services
  {
    Service("services/" + id, StateOf(info.status), info.enabled, cfg.services[id].description)
  }

  predicate Configured(cfg: Config, order: seq<string>) {
    forall id :: id in order ==> id in cfg.services
  }

  /** The history and the listing after visiting `order`; a unit whose status cannot be read is skipped. */
  function Visit(cfg: Config, w: World, h: seq<Command>, order: seq<string>): (seq<Command>, seq<Service>)
    requires Configured(cfg, order)
  {
    if order == [] then (h, [])
    else
      var (h1, listed) := Visit(cfg, w, h, order[..|order| - 1]);
      var id := order[|order| - 1];
      var (h2, info) := ServiceInfo(w, h1, cfg.services[id].systemdName);
      (h2, if info.None? then listed else listed + [Entry(cfg, id, info.value)])
  }

  /** The status read at the turn of position `k`. */
  function AnswerAt(cfg: Config, w: World, h: seq<Command>, order: seq<string>, k: nat): Option<Info>
    requires Configured(cfg, order) && k < |order|
  {
    ServiceInfo(w, Visit(cfg, w, h, order[..k]).0, cfg.services[order[k]].systemdName).1
  }

  lemma {:induction false} ListingMutatesNothing(cfg: Config, w: World, h: seq<Command>, order: seq<string>)
    requires Configured(cfg, order)
    ensures Mutations(Visit(cfg, w, h, order).0) == Mutations(h)
  {
    if order != [] {
      var init, id := order[..|order| - 1], order[|order| - 1];
      ListingMutatesNothing(cfg, w, h, init);
      InfoMutatesNothing(w, Visit(cfg, w, h, init).0, cfg.services[id].systemdName);
    }
  }

  lemma EarlierAnswersStand(cfg: Config, w: World, h: seq<Command>, order: seq<string>, k: nat, e: Service)
    requires Configured(cfg, order) && k < |order| - 1
    ensures AnswersAt(cfg, w, h, order, k, e) <==> AnswersAt(cfg, w, h, order[..|order| - 1], k, e)
  {
    assert order[..|order| - 1][..k] == order[..k];
  }

  lemma OneMoreVisit(cfg: Config, w: World, h: seq<Command>, order: seq<string>, e: Service)
    requires Configured(cfg, order) && order != []
    ensures e in Visit(cfg, w, h, order).1 <==>
      e in Visit(cfg, w, h, order[..|order| - 1]).1 || AnswersAt(cfg, w, h, order, |order| - 1, e)
  {
  }

  ghost predicate AnsweredBy(cfg: Config, w: World, h: seq<Command>, order: seq<string>, e: Service)
    requires Configured(cfg, order)
  {
    exists k :: 0 <= k < |order| && AnswersAt(cfg, w, h, order, k, e)
  }

  /** Every entry answers for the service it names, as read at that service's turn. */
  lemma {:induction false} EntriesAreAnswers(cfg: Config, w: World, h: seq<Command>, order: seq<string>, e: Service)
    requires Configured(cfg, order)
    ensures e in Visit(cfg, w, h, order).1 <==> AnsweredBy(cfg, w, h, order, e)
  {
    if order != [] {
      var init := order[..|order| - 1];
      EntriesAreAnswers(cfg, w, h, init, e);
      OneMoreVisit(cfg, w, h, order, e);
      AnsweredOneMore(cfg, w, h, order, e);
    }
  }

  lemma AnsweredOneMore(cfg: Config, w: World, h: seq<Command>, order: seq<string>, e: Service)
    requires Configured(cfg, order) && order != []
    ensures AnsweredBy(cfg, w, h, order, e) <==>
      AnsweredBy(cfg, w, h, order[..|order| - 1], e) || AnswersAt(cfg, w, h, order, |order| - 1, e)
  {
    var init := order[..|order| - 1];
    if AnsweredBy(cfg, w, h, order, e) {
      var k :| 0 <= k < |order| && AnswersAt(cfg, w, h, order, k, e);
      if k < |init| {
        EarlierAnswersStand(cfg, w, h, order, k, e);
        assert AnsweredBy(cfg, w, h, init, e);
      }
    }
    if AnsweredBy(cfg, w, h, init, e) {
      var k :| 0 <= k < |init| && AnswersAt(cfg, w, h, init, k, e);
      EarlierAnswersStand(cfg, w, h, order, k, e);
    }
  }

  ghost predicate AnswersAt(cfg: Config, w: World, h: seq<Command>, order: seq<string>, k: nat, e: Service)
    requires Configured(cfg, order) && k < |order|
  {
    var answer := AnswerAt(cfg, w, h, order, k);
    answer.Some? && e == Entry(cfg, order[k], answer.value)
  }

  /** No service is listed twice. */
  lemma {:induction false} NamesAreUnique(cfg: Config, w: World, h: seq<Command>, order: seq<string>)
    requires Configured(cfg, order) && Unique(order)
    ensures forall i, j :: 0 <= i < j < |Visit(cfg, w, h, order).1| ==>
      Visit(cfg, w, h, order).1[i].name != Visit(cfg, w, h, order).1[j].name
  {
    if order != [] {
      var init, id := order[..|order| - 1], order[|order| - 1];
      NamesAreUnique(cfg, w, h, init);
      var listed := Visit(cfg, w, h, init).1;
      forall i | 0 <= i < |listed| ensures listed[i].name != "services/" + id {
        EntriesAreAnswers(cfg, w, h, init, listed[i]);
        var k :| 0 <= k < |init| && AnswersAt(cfg, w, h, init, k, listed[i]);
        PrefixIsInjective(init[k], id);
      }
    }
  }

  /** A configured service is listed exactly if its status could be read at its turn, and then as read. */
  lemma ListedExactly(cfg: Config, w: World, h: seq<Command>, order: seq<string>, k: nat, e: Service)
    requires Configured(cfg, order) && Unique(order) && k < |order| && e.name == "services/" + order[k]
    ensures e in Visit(cfg, w, h, order).1 <==> AnswersAt(cfg, w, h, order, k, e)
  {
    EntriesAreAnswers(cfg, w, h, order, e);
    forall m | 0 <= m < |order| && AnswersAt(cfg, w, h, order, m, e) ensures m == k {
      PrefixIsInjective(order[m], order[k]);
    }
  }

  /**
   Asking for a configured service by its listed name reads the very entry a listing would show at
   that moment, unless its identifier contains a slash: such a service is listed but cannot be asked for.
   */
  lemma ListedCanBeAsked(cfg: Config, w: World, h: seq<Command>, id: string)
    requires cfg.enabled && id in cfg.services
    ensures var (after, info) := ServiceInfo(w, h, cfg.services[id].systemdName);
      GetService(cfg, w, h, "services/" + id) ==
        if '/' in id then (h, Err(InvalidArgument))
        else (after, if info.Some? then Ok(Entry(cfg, id, info.value)) else Err(Internal))
  {
    var name := "services/" + id;
    assert name == "services" + "/" + id;
    ParseIsExact(name, "services", id);
    if ParseResourceName(name).Some? {
      var (kind, part) := ParseResourceName(name).value;
      ParseIsExact(name, kind, part);
      SlashFreeParts(kind, part, id);
    }
  }

  /** The failing input: a service configured as `a/b` is listed under a name that is refused. */
  lemma SlashedServiceIsRefused()
    ensures exists cfg: Config, w: World, order: seq<string> :: IsVisit(cfg, order) && ListedButRefused(cfg, w, order, "a/b")
  {
    var cfg := Config(true, map["a/b" := ServiceMapping("ab.service", "", "")]);
    var w: World := h => Output(true, "");
    var order := ["a/b"];
    ListedCanBeAsked(cfg, w, [], "a/b");
    assert "a/b"[1] == '/';
    assert order[..0] == [];
    assert IsVisit(cfg, order);
    var info := ServiceInfo(w, [], "ab.service").1;
    assert Visit(cfg, w, [], order).1 == [Entry(cfg, "a/b", info.value)];
    assert ListedButRefused(cfg, w, order, "a/b");
  }

  ghost predicate ListedButRefused(cfg: Config, w: World, order: seq<string>, id: string)
    requires Configured(cfg, order)
  {
    && (exists e :: e in Visit(cfg, w, [], order).1 && e.name == "services/" + id)
    && GetService(cfg, w, [], "services/" + id).1 == Err(InvalidArgument)
  }

  lemma SlashFreeParts(kind: string, part: string, id: string)
    requires '/' !in kind && '/' !in part && kind + "/" + part == "services/" + id
    ensures kind == "services" && part == id
  {
    var name := kind + "/" + part;
    assert name == "services/" + id;
    assert name[|kind|] == '/' && name[8] == '/';
    assert name[..8] == kind && name[..8] == "services" && name[9..] == part && name[9..] == id;
  }

  lemma PrefixIsInjective(a: string, b: string)
    ensures "services/" + a == "services/" + b ==> a == b
  {
    assert ("services/" + a)[9..] == a && ("services/" + b)[9..] == b;
  }
}
