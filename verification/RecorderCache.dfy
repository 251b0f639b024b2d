/**
 The recorder status cache of the ROS 2 bridge: what the last message of each recorder says, when
 it counts as stale, and what the two filter languages denote.
 */
module RecorderCache {
  import opened Common

  /** The constants of the recorder's messages; the messages carry plain numbers, so others occur. */
  datatype Severity = SeverityOk | SeverityWarn | SeverityError | OtherSeverity(code: int)

  datatype ReportedRate = Normal | Unknown | TooLow | TooHigh | NoMessages | OtherRate(code: int)

  datatype TopicReport = TopicReport(name: string, kind: string, rate: real, rateStatus: ReportedRate)

  datatype Message = Message(hardwareId: string, isRecording: bool, errorLevel: Severity, topics: seq<TopicReport>)

  datatype Level = LevelOk | LevelWarn | LevelError

  datatype RateStatus = RateUnspecified | RateNormal | RateUnknown | RateTooLow | RateTooHigh | RateNoMessages

  datatype Topic = Topic(name: string, topicName: string, kind: string, rate: real, rateStatus: RateStatus)

  datatype Recording = Recording(hardwareId: string, isRecording: bool, level: Level, topics: seq<Topic>)

  /** `Undefined` stands for the behaviour C++ leaves undefined. */
  datatype Code = NotFound | Unavailable | Undefined

  /** A message and when it arrived, in nanoseconds of the steady clock. */
  datatype Arrival = Arrival(msg: Message, at: int)

  const SECOND := 1_000_000_000

  function LevelOf(severity: Severity): Level {
    match severity
    case SeverityWarn => LevelWarn
    case SeverityError => LevelError
    case _ => LevelOk
  }

  function RateStatusOf(rate: ReportedRate): RateStatus {
    match rate
    case Normal => RateNormal
    case Unknown => RateUnknown
    case TooLow => RateTooLow
    case TooHigh => RateTooHigh
    case NoMessages => RateNoMessages
    case OtherRate(_) => RateUnspecified
  }

  function Underscored(name: string): string {
    seq(|name|, i requires 0 <= i < |name| => if name[i] == '/' then '_' else name[i])
  }

  function ToTopic(report: TopicReport): Topic {
    Topic("topic_statuses/" + Underscored(report.name), report.name, report.kind, report.rate, RateStatusOf(report.rateStatus))
  }

  function ToRecording(msg: Message): Recording {
    Recording(msg.hardwareId, msg.isRecording, LevelOf(msg.errorLevel), Apply(ToTopic, msg.topics))
  }

  /** A topic as it is answered against the topic as it was reported. */
  ghost predicate ShowsTopic(report: TopicReport, t: Topic) {
    && t.topicName == report.name && t.kind == report.kind && t.rate == report.rate
    && (t.rateStatus.RateNormal? <==> report.rateStatus.Normal?)
    && (t.rateStatus.RateUnknown? <==> report.rateStatus.Unknown?)
    && (t.rateStatus.RateTooLow? <==> report.rateStatus.TooLow?)
    && (t.rateStatus.RateTooHigh? <==> report.rateStatus.TooHigh?)
    && (t.rateStatus.RateNoMessages? <==> report.rateStatus.NoMessages?)
    && |t.name| == 15 + |report.name| && t.name[..15] == "topic_statuses/"
    && forall i :: 0 <= i < |report.name| ==> t.name[15 + i] == if report.name[i] == '/' then '_' else report.name[i]
  }

  /** A recording as it is answered against the message it comes from; unknown severities count as no error. */
  ghost predicate Shows(msg: Message, r: Recording) {
    && r.hardwareId == msg.hardwareId
    && r.isRecording == msg.isRecording
    && (r.level.LevelWarn? <==> msg.errorLevel.SeverityWarn?)
    && (r.level.LevelError? <==> msg.errorLevel.SeverityError?)
    && |r.topics| == |msg.topics|
    && forall i :: 0 <= i < |r.topics| ==> ShowsTopic(msg.topics[i], r.topics[i])
  }

  lemma TopicIsShown(report: TopicReport)
    ensures ShowsTopic(report, ToTopic(report))
  {
    var t, short := ToTopic(report), Underscored(report.name);
    assert t.name == "topic_statuses/" + short;
    forall i | 0 <= i < |report.name| ensures t.name[15 + i] == short[i] {
    }
  }

  lemma MessageIsShown(msg: Message)
    ensures Shows(msg, ToRecording(msg))
  {
    forall i | 0 <= i < |msg.topics| ensures ShowsTopic(msg.topics[i], ToRecording(msg).topics[i]) {
      TopicIsShown(msg.topics[i]);
    }
  }

  /** Two topics get one resource name exactly if they differ only by slashes in place of underscores. */
  lemma TopicNamesCollide(a: TopicReport, b: TopicReport)
    ensures ToTopic(a).name == ToTopic(b).name <==>
      && |a.name| == |b.name|
      && forall i :: 0 <= i < |a.name| ==>
           a.name[i] == b.name[i] || (a.name[i] in "/_" && b.name[i] in "/_")
  {
    var left, right := Underscored(a.name), Underscored(b.name);
    assert ToTopic(a).name[15..] == left && ToTopic(b).name[15..] == right;
    if ToTopic(a).name == ToTopic(b).name {
      assert |left| == |right|;
      forall i | 0 <= i < |a.name| ensures a.name[i] == b.name[i] || (a.name[i] in "/_" && b.name[i] in "/_") {
        assert left[i] == right[i];
      }
    } else {
      assert left != right;
    }
  }

  /** The failing input: `/a/b` and `/a_b`. */
  lemma TwoTopicsOneName()
    ensures exists a: TopicReport, b: TopicReport :: a.name != b.name && ToTopic(a).name == ToTopic(b).name
  {
    var a := TopicReport("/a/b", "Image", 10.0, Normal);
    var b := a.(name := "/a_b");
    assert a.name[2] != b.name[2];
    TopicNamesCollide(a, b);
    assert ToTopic(a).name == ToTopic(b).name;
  }

  // ---- The last message of a recorder ----

  function Last(arrivals: seq<Arrival>, id: string): Option<Arrival> {
    if arrivals == [] then None
    else
      var a := arrivals[|arrivals| - 1];
      if a.msg.hardwareId == id then Some(a) else Last(arrivals[..|arrivals| - 1], id)
  }

  ghost predicate IsLastAt(arrivals: seq<Arrival>, id: string, k: nat) {
    k < |arrivals| && arrivals[k].msg.hardwareId == id
    && forall j :: k < j < |arrivals| ==> arrivals[j].msg.hardwareId != id
  }

  lemma {:induction false} LastAt(arrivals: seq<Arrival>, id: string) returns (k: nat)
    requires Last(arrivals, id).Some?
    ensures IsLastAt(arrivals, id, k) && Last(arrivals, id).value == arrivals[k]
  {
    var n := |arrivals| - 1;
    if arrivals[n].msg.hardwareId == id {
      k := n;
    } else {
      k := LastAt(arrivals[..n], id);
    }
  }

  lemma {:induction false} NeverHeard(arrivals: seq<Arrival>, id: string)
    requires Last(arrivals, id).None?
    ensures forall k :: 0 <= k < |arrivals| ==> arrivals[k].msg.hardwareId != id
  {
    if arrivals != [] {
      NeverHeard(arrivals[..|arrivals| - 1], id);
    }
  }

  lemma LastIsLast(arrivals: seq<Arrival>, id: string)
    ensures Last(arrivals, id).None? <==> forall k :: 0 <= k < |arrivals| ==> arrivals[k].msg.hardwareId != id
    ensures Last(arrivals, id).Some? ==>
      exists k: nat :: IsLastAt(arrivals, id, k) && Last(arrivals, id).value == arrivals[k]
  {
    if Last(arrivals, id).None? {
      NeverHeard(arrivals, id);
    } else {
      var k := LastAt(arrivals, id);
    }
  }

  /** Whole seconds between two instants, cut off towards zero. */
  function AgeSeconds(now: int, at: int): int {
    if now >= at then (now - at) / SECOND else -((at - now) / SECOND)
  }

  /** `GetRecording`'s answer for a history of messages. */
  function Answer(arrivals: seq<Arrival>, id: string, now: int): Result<Recording, Code> {
    match Last(arrivals, id)
    case None => Err(NotFound)
    case Some(a) => if AgeSeconds(now, a.at) > 10 then Err(Unavailable) else Ok(ToRecording(a.msg))
  }

  ghost predicate Steady(arrivals: seq<Arrival>) {
    forall i, j :: 0 <= i <= j < |arrivals| ==> arrivals[i].at <= arrivals[j].at
  }

  ghost predicate HeardAt(arrivals: seq<Arrival>, id: string, now: int, k: nat) {
    k < |arrivals| && arrivals[k].msg.hardwareId == id && now - arrivals[k].at < 11_000_000_000
  }

  /** On a steady clock a recorder is answered for exactly if it was heard of less than 11 s ago. */
  lemma AnsweredIffHeard(arrivals: seq<Arrival>, id: string, now: int)
    requires Steady(arrivals)
    ensures Answer(arrivals, id, now).Ok? <==> exists k: nat :: HeardAt(arrivals, id, now, k)
    ensures Answer(arrivals, id, now) == Err(NotFound) <==> forall k :: 0 <= k < |arrivals| ==> arrivals[k].msg.hardwareId != id
    ensures Answer(arrivals, id, now).Ok? || Answer(arrivals, id, now) in {Err(NotFound), Err(Unavailable)}
    ensures Answer(arrivals, id, now).Ok? ==> exists k: nat ::
      IsLastAt(arrivals, id, k) && Shows(arrivals[k].msg, Answer(arrivals, id, now).value)
  {
    LastIsLast(arrivals, id);
    if Last(arrivals, id).Some? {
      var k: nat :| IsLastAt(arrivals, id, k) && Last(arrivals, id).value == arrivals[k];
      if Answer(arrivals, id, now).Ok? {
        assert HeardAt(arrivals, id, now, k);
        MessageIsShown(arrivals[k].msg);
      }
      forall j: nat | HeardAt(arrivals, id, now, j) ensures Answer(arrivals, id, now).Ok? {
        assert j <= k;
        assert arrivals[j].at <= arrivals[k].at;
      }
    }
  }

  // ---- Listing with a filter ----

  const ID_PREFIX := "hardware_id:="

  /** The prefix has 13 characters, and 12 are cut off. */
  predicate MatchesRecording(id: string, filter: string) {
    if ID_PREFIX <= filter then id == filter[12..] else true
  }

  predicate Listable(id: string, filter: string) {
    filter == "" || MatchesRecording(id, filter)
  }

  ghost predicate IsVisit(arrivals: seq<Arrival>, order: seq<string>) {
    Unique(order) && forall id :: id in order <==> Last(arrivals, id).Some?
  }

  predicate Known(arrivals: seq<Arrival>, order: seq<string>) {
    forall id :: id in order ==> Last(arrivals, id).Some?
  }

  function Record(arrivals: seq<Arrival>, id: string): Recording
    requires Last(arrivals, id).Some?
  {
    ToRecording(Last(arrivals, id).value.msg)
  }

  /** `ListRecordings` when the hash map is visited in the given order. */
  function Listing(arrivals: seq<Arrival>, order: seq<string>, filter: string): seq<Recording>
    requires Known(arrivals, order)
  {
    if order == [] then []
    else
      var id := order[|order| - 1];
      Listing(arrivals, order[..|order| - 1], filter) + if Listable(id, filter) then [Record(arrivals, id)] else []
  }

  lemma RecordCarriesItsId(arrivals: seq<Arrival>, id: string)
    requires Last(arrivals, id).Some?
    ensures Record(arrivals, id).hardwareId == id
  {
    LastIsLast(arrivals, id);
  }

  lemma {:induction false} ListedAll(arrivals: seq<Arrival>, order: seq<string>, filter: string)
    requires Known(arrivals, order) && forall id :: id in order ==> Listable(id, filter)
    ensures |Listing(arrivals, order, filter)| == |order|
    ensures forall i :: 0 <= i < |order| ==> Listing(arrivals, order, filter)[i] == Record(arrivals, order[i])
  {
    if order != [] {
      ListedAll(arrivals, order[..|order| - 1], filter);
    }
  }

  /** A filter that lets only one identifier through lists that recorder, if known, and nothing else. */
  lemma {:induction false} ListedOne(arrivals: seq<Arrival>, order: seq<string>, filter: string, target: string)
    requires Known(arrivals, order) && Unique(order)
    requires forall id :: Listable(id, filter) <==> id == target
    ensures target in order ==> Listing(arrivals, order, filter) == [Record(arrivals, target)]
    ensures target !in order ==> Listing(arrivals, order, filter) == []
  {
    if order != [] {
      var init, id := order[..|order| - 1], order[|order| - 1];
      ListedOne(arrivals, init, filter, target);
      assert order == init + [id];
      assert id !in init;
    }
  }

  /** Without a recognised filter every recorder ever heard of is listed once, in the order visited. */
  lemma UnfilteredListsAll(arrivals: seq<Arrival>, order: seq<string>, filter: string)
    requires IsVisit(arrivals, order) && !("hardware_id:=" <= filter)
    ensures |Listing(arrivals, order, filter)| == |order|
    ensures forall i :: 0 <= i < |order| ==>
      Listing(arrivals, order, filter)[i] == Record(arrivals, order[i])
  {
    ListedAll(arrivals, order, filter);
  }

  /** Whatever the filter, each recording listed shows the last message of its recorder. */
  lemma {:induction false} ListingShowsLast(arrivals: seq<Arrival>, order: seq<string>, filter: string, r: Recording)
    requires Known(arrivals, order) && r in Listing(arrivals, order, filter)
    ensures exists k: nat :: IsLastAt(arrivals, r.hardwareId, k) && Shows(arrivals[k].msg, r)
  {
    var init, id := order[..|order| - 1], order[|order| - 1];
    if r in Listing(arrivals, init, filter) {
      ListingShowsLast(arrivals, init, filter, r);
    } else {
      assert r == Record(arrivals, id);
      RecordCarriesItsId(arrivals, id);
      var k := LastAt(arrivals, id);
      MessageIsShown(arrivals[k].msg);
    }
  }

  /** Filtering for an identifier answers for the identifier with an equals sign in front. */
  lemma FilterSelectsTheWrongId(arrivals: seq<Arrival>, order: seq<string>, id: string)
    requires IsVisit(arrivals, order)
    ensures Listing(arrivals, order, "hardware_id:=" + id) ==
      if Last(arrivals, "=" + id).Some? then [Record(arrivals, "=" + id)] else []
    ensures forall r :: r in Listing(arrivals, order, "hardware_id:=" + id) ==> r.hardwareId != id
  {
    var filter := ID_PREFIX + id;
    assert filter[12..] == "=" + id;
    ListedOne(arrivals, order, filter, "=" + id);
    if Last(arrivals, "=" + id).Some? {
      RecordCarriesItsId(arrivals, "=" + id);
      assert |"=" + id| != |id|;
    }
  }

  /**
   When filtered listing and single lookup agree: with a recognised filter, exactly if the filter
   is "hardware_id:" followed by the identifier, which therefore starts with an equals sign; with
   any other filter, exactly if this is the only recorder ever heard of.
   */
  lemma ListingMeetsLookup(arrivals: seq<Arrival>, order: seq<string>, filter: string, id: string, now: int)
    requires IsVisit(arrivals, order) && Answer(arrivals, id, now).Ok?
    ensures Listing(arrivals, order, filter) == [Answer(arrivals, id, now).value] <==>
      if "hardware_id:=" <= filter then filter == "hardware_id:" + id else order == [id]
  {
    RecordCarriesItsId(arrivals, id);
    if ID_PREFIX <= filter {
      FilteredMeetsLookup(arrivals, order, filter, id);
    } else {
      UnfilteredListsAll(arrivals, order, filter);
      if |order| == 1 {
        RecordCarriesItsId(arrivals, order[0]);
      }
    }
  }

  lemma FilteredMeetsLookup(arrivals: seq<Arrival>, order: seq<string>, filter: string, id: string)
    requires IsVisit(arrivals, order) && ID_PREFIX <= filter && Last(arrivals, id).Some?
    ensures Listing(arrivals, order, filter) == [Record(arrivals, id)] <==> filter == "hardware_id:" + id
  {
    var target := filter[12..];
    assert filter == "hardware_id:" + target;
    ListedOne(arrivals, order, filter, target);
    RecordCarriesItsId(arrivals, id);
    if Last(arrivals, target).Some? {
      RecordCarriesItsId(arrivals, target);
    }
    assert filter == "hardware_id:" + id ==> filter[12..] == id;
  }

  /** A recorder just heard of, looked up with success and missing from its own filtered listing. */
  lemma FilterMissesItsRecorder()
    ensures exists arrivals: seq<Arrival>, id, now, order ::
      && IsVisit(arrivals, order)
      && Answer(arrivals, id, now).Ok?
      && Listing(arrivals, order, "hardware_id:=" + id) == []
  {
    var id := "main_ecu";
    var a := Arrival(Message(id, true, SeverityOk, []), 0);
    var arrivals, order := [a], [id];
    assert arrivals[..0] == [];
    assert forall other :: Last(arrivals, other).Some? <==> other == id;
    assert IsVisit(arrivals, order);
    FilterSelectsTheWrongId(arrivals, order, id);
    assert Answer(arrivals, id, 0).Ok?;
    assert "=" + id != id by {
      assert |"=" + id| == |id| + 1;
    }
    assert Listing(arrivals, order, ID_PREFIX + id) == [];
  }
}
