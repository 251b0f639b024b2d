/** The topic filter of the recording service and the sublist of topics it selects. */
module TopicFilter {
  import opened Common
  import opened RecorderCache

  const TOPIC_PREFIX := "topic_name:="

  /** `matchesTopicFilter`; on the prefix alone C++ asks for the last character of an empty string. */
  predicate MatchesTopic(name: string, filter: string)
    requires filter != TOPIC_PREFIX
  {
    if TOPIC_PREFIX <= filter then
      var pattern := filter[12..];
      assert |TOPIC_PREFIX| == 12;
      if pattern[|pattern| - 1] == '*' then pattern[..|pattern| - 1] <= name else name == pattern
    else true
  }

  predicate Passes(report: TopicReport, filter: string) {
    filter != TOPIC_PREFIX && (filter == "" || MatchesTopic(report.name, filter))
  }

  function Kept(reports: seq<TopicReport>, filter: string): seq<TopicReport> {
    if reports == [] then []
    else
      var last := reports[|reports| - 1];
      Kept(reports[..|reports| - 1], filter) + if Passes(last, filter) then [last] else []
  }

  function TopicAnswer(arrivals: seq<Arrival>, id: string, filter: string): Result<seq<Topic>, Code> {
    match Last(arrivals, id)
    case None => Err(NotFound)
    case Some(a) =>
      if filter == TOPIC_PREFIX && a.msg.topics != [] then Err(Undefined)
      else Ok(Apply(ToTopic, Kept(a.msg.topics, filter)))
  }

  lemma KeptStep(reports: seq<TopicReport>, filter: string, k: nat)
    requires k < |reports|
    ensures Kept(reports[..k + 1], filter) ==
      Kept(reports[..k], filter) + if Passes(reports[k], filter) then [reports[k]] else []
  {
    assert reports[..k + 1][..k] == reports[..k];
  }

  /** Where the passing topics stand, in order. */
  ghost function Positions(reports: seq<TopicReport>, filter: string): seq<nat> {
    if reports == [] then []
    else
      Positions(reports[..|reports| - 1], filter)
      + if Passes(reports[|reports| - 1], filter) then [|reports| - 1] else []
  }

  ghost predicate Increasing(positions: seq<nat>, bound: nat) {
    (forall i, j :: 0 <= i < j < |positions| ==> positions[i] < positions[j])
    && forall i :: 0 <= i < |positions| ==> positions[i] < bound
  }

  lemma {:induction false} PositionsIncrease(reports: seq<TopicReport>, filter: string)
    ensures Increasing(Positions(reports, filter), |reports|)
  {
    if reports != [] {
      PositionsIncrease(reports[..|reports| - 1], filter);
    }
  }

  lemma {:induction false} PositionsPass(reports: seq<TopicReport>, filter: string, k: nat)
    requires k < |reports|
    ensures k in Positions(reports, filter) <==> Passes(reports[k], filter)
  {
    var init := reports[..|reports| - 1];
    PositionsIncrease(init, filter);
    if k < |init| {
      PositionsPass(init, filter, k);
    }
  }

  lemma {:induction false} KeptAt(reports: seq<TopicReport>, filter: string, i: nat)
    requires i < |Positions(reports, filter)|
    ensures Positions(reports, filter)[i] < |reports| && |Kept(reports, filter)| == |Positions(reports, filter)|
    ensures Kept(reports, filter)[i] == reports[Positions(reports, filter)[i]]
  {
    var init := reports[..|reports| - 1];
    KeptLength(init, filter);
    if i < |Positions(init, filter)| {
      KeptAt(init, filter, i);
    }
  }

  lemma {:induction false} KeptLength(reports: seq<TopicReport>, filter: string)
    ensures |Kept(reports, filter)| == |Positions(reports, filter)|
  {
    if reports != [] {
      KeptLength(reports[..|reports| - 1], filter);
    }
  }

  /** The selected topics are those at the passing positions, all of them, in their order. */
  lemma {:induction false} KeptIsExact(reports: seq<TopicReport>, filter: string)
    ensures var at := Positions(reports, filter);
      && Increasing(at, |reports|)
      && (forall k :: 0 <= k < |reports| ==> (k in at <==> Passes(reports[k], filter)))
      && |Kept(reports, filter)| == |at|
      && forall i :: 0 <= i < |at| ==> Kept(reports, filter)[i] == reports[at[i]]
  {
    var at := Positions(reports, filter);
    PositionsIncrease(reports, filter);
    KeptLength(reports, filter);
    forall k | 0 <= k < |reports| ensures k in at <==> Passes(reports[k], filter) {
      PositionsPass(reports, filter, k);
    }
    forall i | 0 <= i < |at| ensures Kept(reports, filter)[i] == reports[at[i]] {
      KeptAt(reports, filter, i);
    }
  }

  /** A pattern ending in a star means "starts with", any other non-empty pattern equality. */
  lemma PatternMeaning(report: TopicReport, pattern: string)
    requires pattern != ""
    ensures Passes(report, "topic_name:=" + pattern) <==>
      || (report.name == pattern && pattern[|pattern| - 1] != '*')
      || exists start: string, rest: string :: pattern == start + "*" && report.name == start + rest
  {
    var filter := TOPIC_PREFIX + pattern;
    assert filter[12..] == pattern;
    var init := pattern[..|pattern| - 1];
    if pattern[|pattern| - 1] == '*' {
      assert pattern == init + "*";
      if init <= report.name {
        assert report.name == init + report.name[|init|..];
      }
    }
    forall start: string, rest: string | pattern == start + "*" && report.name == start + rest
      ensures init == start && init <= report.name && pattern[|pattern| - 1] == '*'
    {
      assert (start + "*")[..|pattern| - 1] == start;
    }
  }

  /** A lone star, an empty filter and a filter in another language all select every topic. */
  lemma {:induction false} KeepsAll(reports: seq<TopicReport>, filter: string)
    requires !("topic_name:=" <= filter) || filter == "topic_name:=" + "*"
    ensures Kept(reports, filter) == reports
  {
    if reports != [] {
      KeepsAll(reports[..|reports| - 1], filter);
      assert filter == TOPIC_PREFIX + "*" ==> filter[12..] == "*";
    }
  }

  ghost predicate Fits(name: string, pattern: string) {
    || (name == pattern && pattern != "" && pattern[|pattern| - 1] != '*')
    || exists start: string, rest: string :: pattern == start + "*" && name == start + rest
  }

  /** What a filter means for a topic's name; without the prefix it lets everything pass. */
  ghost predicate Denotes(filter: string, name: string) {
    forall pattern :: filter == "topic_name:=" + pattern ==> Fits(name, pattern)
  }

  lemma PassesDenoted(report: TopicReport, filter: string)
    requires filter != "topic_name:="
    ensures Passes(report, filter) <==> Denotes(filter, report.name)
  {
    if "topic_name:=" <= filter {
      PatternMeaning(report, filter[12..]);
      assert filter == "topic_name:=" + filter[12..];
      assert Passes(report, filter) <==> Fits(report.name, filter[12..]);
    }
    forall pattern: string | filter == "topic_name:=" + pattern ensures pattern == filter[12..] {
    }
  }

  /**
   An answer holds exactly the topics of the recorder's last message that the filter denotes, in
   their order; there is none only for an unknown recorder and where the behaviour is undefined.
   */
  lemma AnswerIsExact(arrivals: seq<Arrival>, id: string, filter: string, k: nat)
    requires IsLastAt(arrivals, id, k) && filter != "topic_name:="
    ensures var r, reports := TopicAnswer(arrivals, id, filter), arrivals[k].msg.topics;
      var at := Positions(reports, filter);
      && r.Ok? && |r.value| == |at|
      && (forall i, j :: 0 <= i < j < |at| ==> at[i] < at[j])
      && (forall i :: 0 <= i < |at| ==> at[i] < |reports| && ShowsTopic(reports[at[i]], r.value[i]))
      && (forall i :: 0 <= i < |reports| ==> (i in at <==> Denotes(filter, reports[i].name)))
  {
    LastIsLast(arrivals, id);
    assert Last(arrivals, id).Some?;
    var reports := arrivals[k].msg.topics;
    assert Last(arrivals, id).value == arrivals[k] by {
      var j: nat :| IsLastAt(arrivals, id, j) && Last(arrivals, id).value == arrivals[j];
      assert j == k;
    }
    KeptIsExact(reports, filter);
    var at, kept := Positions(reports, filter), Kept(reports, filter);
    forall i | 0 <= i < |at| ensures ShowsTopic(reports[at[i]], Apply(ToTopic, kept)[i]) {
      TopicIsShown(kept[i]);
    }
    forall i | 0 <= i < |reports| ensures i in at <==> Denotes(filter, reports[i].name) {
      PassesDenoted(reports[i], filter);
    }
  }

  lemma UnknownIsNotFound(arrivals: seq<Arrival>, id: string, filter: string)
    ensures TopicAnswer(arrivals, id, filter) == Err(NotFound) <==>
      forall k :: 0 <= k < |arrivals| ==> arrivals[k].msg.hardwareId != id
  {
    LastIsLast(arrivals, id);
  }

  /** The behaviour is undefined exactly for the bare prefix on a known recorder with topics. */
  lemma UndefinedExactly(arrivals: seq<Arrival>, id: string, filter: string)
    ensures TopicAnswer(arrivals, id, filter) == Err(Undefined) <==>
      filter == "topic_name:=" && exists k: nat :: IsLastAt(arrivals, id, k) && arrivals[k].msg.topics != []
  {
    LastIsLast(arrivals, id);
    if Last(arrivals, id).Some? {
      var k: nat :| IsLastAt(arrivals, id, k) && Last(arrivals, id).value == arrivals[k];
      forall j: nat | IsLastAt(arrivals, id, j) ensures j == k {
      }
    }
  }

  /** The failing input: the bare prefix on a recorder with one topic. */
  lemma BarePrefixIsUndefined()
    ensures exists arrivals: seq<Arrival>, id :: TopicAnswer(arrivals, id, "topic_name:=") == Err(Undefined)
  {
    var report := TopicReport("/sensing/camera", "Image", 10.0, Normal);
    var a := Arrival(Message("main_ecu", true, SeverityOk, [report]), 0);
    assert Last([a], "main_ecu") == Some(a);
    assert TopicAnswer([a], "main_ecu", "topic_name:=") == Err(Undefined);
  }
}
