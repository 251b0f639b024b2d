/** The recorder state the gateway shows of a module, found by either of the module's two names. */
module GatewayRecording {
  import opened Common
  import opened RecorderCache

  datatype RecordingInfo = RecordingInfo(status: string, dataStatus: string)

  const NOT_FOUND_INFO := RecordingInfo("stopped", "OK")

  function InfoOf(r: Recording): RecordingInfo {
    RecordingInfo(
      if r.isRecording then "recording" else "stopped",
      match r.level case LevelOk => "OK" case LevelWarn => "WARN" case LevelError => "ERROR")
  }

  /** The first recording under one of the two names. */
  method FindRecording(recordings: seq<Recording>, moduleId: string, hostname: string) returns (info: RecordingInfo)
    ensures (exists i: nat :: IsFirst(recordings, moduleId, hostname, i) && info == InfoOf(recordings[i]))
         || (info == NOT_FOUND_INFO && forall i :: 0 <= i < |recordings| ==> recordings[i].hardwareId !in {moduleId, hostname})
    ensures info == Found(recordings, moduleId, hostname)
  {
    for i := 0 to |recordings|
      invariant forall j :: 0 <= j < i ==> recordings[j].hardwareId !in {moduleId, hostname}
      invariant Found(recordings, moduleId, hostname) == Found(recordings[i..], moduleId, hostname)
    {
      var recording := recordings[i];
      assert recordings[i..][1..] == recordings[i + 1..];
      if recording.hardwareId == moduleId || recording.hardwareId == hostname {
        assert IsFirst(recordings, moduleId, hostname, i);
        return InfoOf(recording);
      }
    }
    return NOT_FOUND_INFO;
  }

  ghost predicate IsFirst(recordings: seq<Recording>, moduleId: string, hostname: string, i: nat) {
    && i < |recordings| && recordings[i].hardwareId in {moduleId, hostname}
    && forall j :: 0 <= j < i ==> recordings[j].hardwareId !in {moduleId, hostname}
  }

  function Found(recordings: seq<Recording>, moduleId: string, hostname: string): RecordingInfo {
    if recordings == [] then NOT_FOUND_INFO
    else if recordings[0].hardwareId == moduleId || recordings[0].hardwareId == hostname then InfoOf(recordings[0])
    else Found(recordings[1..], moduleId, hostname)
  }

  /** What the gateway shows when the bridge visits its hash map in the given order. */
  function Displayed(arrivals: seq<Arrival>, order: seq<string>, moduleId: string, hostname: string): RecordingInfo
    requires Known(arrivals, order)
  {
    Found(Listing(arrivals, order, ""), moduleId, hostname)
  }

  lemma {:induction false} FoundFirst(recordings: seq<Recording>, moduleId: string, hostname: string, i: nat)
    requires IsFirst(recordings, moduleId, hostname, i)
    ensures Found(recordings, moduleId, hostname) == InfoOf(recordings[i])
  {
    if i > 0 {
      FoundFirst(recordings[1..], moduleId, hostname, i - 1);
    }
  }

  lemma {:induction false} NothingFound(recordings: seq<Recording>, moduleId: string, hostname: string)
    requires forall i :: 0 <= i < |recordings| ==> recordings[i].hardwareId !in {moduleId, hostname}
    ensures Found(recordings, moduleId, hostname) == NOT_FOUND_INFO
  {
    if recordings != [] {
      NothingFound(recordings[1..], moduleId, hostname);
    }
  }

  ghost predicate VisitedFirst(order: seq<string>, moduleId: string, hostname: string, i: nat) {
    && i < |order| && order[i] in {moduleId, hostname}
    && forall j :: 0 <= j < i ==> order[j] !in {moduleId, hostname}
  }

  lemma DisplayedFirst(arrivals: seq<Arrival>, order: seq<string>, moduleId: string, hostname: string, i: nat)
    requires IsVisit(arrivals, order) && VisitedFirst(order, moduleId, hostname, i)
    ensures Displayed(arrivals, order, moduleId, hostname) == InfoOf(Record(arrivals, order[i]))
  {
    UnfilteredListsAll(arrivals, order, "");
    forall j | 0 <= j < |order| ensures Record(arrivals, order[j]).hardwareId == order[j] {
      RecordCarriesItsId(arrivals, order[j]);
    }
    FoundFirst(Listing(arrivals, order, ""), moduleId, hostname, i);
  }

  lemma {:induction false} SomebodyIsFirst(order: seq<string>, moduleId: string, hostname: string, k: nat) returns (i: nat)
    requires k < |order| && order[k] in {moduleId, hostname}
    ensures VisitedFirst(order, moduleId, hostname, i) && i <= k
  {
    if j: nat :| j < k && order[j] in {moduleId, hostname} {
      i := SomebodyIsFirst(order, moduleId, hostname, j);
    } else {
      i := k;
    }
  }

  /**
   A module known under one name shows its recorder's last message, in whatever order the map is
   visited and however old that message is; one known under neither shows the default.
   */
  lemma DisplayedIsLast(
      arrivals: seq<Arrival>, order: seq<string>, moduleId: string, hostname: string, id: string)
    requires IsVisit(arrivals, order) && id in {moduleId, hostname}
    requires forall other :: other in {moduleId, hostname} && other != id ==> Last(arrivals, other).None?
    ensures Displayed(arrivals, order, moduleId, hostname) ==
      if Last(arrivals, id).Some? then InfoOf(ToRecording(Last(arrivals, id).value.msg)) else RecordingInfo("stopped", "OK")
  {
    if Last(arrivals, id).Some? {
      var k :| 0 <= k < |order| && order[k] == id;
      var i := SomebodyIsFirst(order, moduleId, hostname, k);
      DisplayedFirst(arrivals, order, moduleId, hostname, i);
    } else {
      UnfilteredListsAll(arrivals, order, "");
      forall j | 0 <= j < |order| ensures Record(arrivals, order[j]).hardwareId !in {moduleId, hostname} {
        RecordCarriesItsId(arrivals, order[j]);
      }
      NothingFound(Listing(arrivals, order, ""), moduleId, hostname);
    }
  }

  /** The words shown of a module known under one name. */
  lemma DisplayedWords(
      arrivals: seq<Arrival>, order: seq<string>, moduleId: string, hostname: string, id: string, k: nat)
    requires IsVisit(arrivals, order) && id in {moduleId, hostname} && IsLastAt(arrivals, id, k)
    requires forall other, j :: other in {moduleId, hostname} && other != id ==> !IsLastAt(arrivals, other, j)
    ensures var info, msg := Displayed(arrivals, order, moduleId, hostname), arrivals[k].msg;
      && info.status == (if msg.isRecording then "recording" else "stopped")
      && (msg.errorLevel.SeverityWarn? ==> info.dataStatus == "WARN")
      && (msg.errorLevel.SeverityError? ==> info.dataStatus == "ERROR")
      && (!msg.errorLevel.SeverityWarn? && !msg.errorLevel.SeverityError? ==> info.dataStatus == "OK")
  {
    forall other | other in {moduleId, hostname} && other != id ensures Last(arrivals, other).None? {
      if Last(arrivals, other).Some? {
        var j := LastAt(arrivals, other);
        assert false;
      }
    }
    LastIsLast(arrivals, id);
    var j := LastAt(arrivals, id);
    assert j == k;
    DisplayedIsLast(arrivals, order, moduleId, hostname, id);
  }

  function ToFront(order: seq<string>, k: nat): seq<string>
    requires k < |order|
  {
    [order[k]] + order[..k] + order[k + 1..]
  }

  lemma ToFrontIsVisit(arrivals: seq<Arrival>, order: seq<string>, k: nat)
    requires IsVisit(arrivals, order) && k < |order|
    ensures IsVisit(arrivals, ToFront(order, k)) && ToFront(order, k)[0] == order[k]
  {
    var moved := ToFront(order, k);
    forall id ensures id in moved <==> id in order {
      assert order == order[..k] + [order[k]] + order[k + 1..];
    }
  }

  /** Whether the order of the hash map can show. */
  ghost predicate Ambiguous(arrivals: seq<Arrival>, moduleId: string, hostname: string) {
    && Last(arrivals, moduleId).Some? && Last(arrivals, hostname).Some?
    && InfoOf(Record(arrivals, moduleId)) != InfoOf(Record(arrivals, hostname))
  }

  ghost predicate OrderShows(arrivals: seq<Arrival>, moduleId: string, hostname: string) {
    exists one, other :: IsVisit(arrivals, one) && IsVisit(arrivals, other)
      && Displayed(arrivals, one, moduleId, hostname) != Displayed(arrivals, other, moduleId, hostname)
  }

  lemma AmbiguityShows(arrivals: seq<Arrival>, order: seq<string>, moduleId: string, hostname: string)
    requires IsVisit(arrivals, order) && Ambiguous(arrivals, moduleId, hostname)
    ensures OrderShows(arrivals, moduleId, hostname)
  {
    var i :| 0 <= i < |order| && order[i] == moduleId;
    var j :| 0 <= j < |order| && order[j] == hostname;
    ToFrontIsVisit(arrivals, order, i);
    ToFrontIsVisit(arrivals, order, j);
    DisplayedFirst(arrivals, ToFront(order, i), moduleId, hostname, 0);
    DisplayedFirst(arrivals, ToFront(order, j), moduleId, hostname, 0);
  }

  lemma UnambiguousIsOrderFree(
      arrivals: seq<Arrival>, one: seq<string>, other: seq<string>, moduleId: string, hostname: string)
    requires IsVisit(arrivals, one) && IsVisit(arrivals, other) && !Ambiguous(arrivals, moduleId, hostname)
    ensures Displayed(arrivals, one, moduleId, hostname) == Displayed(arrivals, other, moduleId, hostname)
  {
    if Last(arrivals, moduleId).Some? && Last(arrivals, hostname).Some? {
      var k1 :| 0 <= k1 < |one| && one[k1] == moduleId;
      var k2 :| 0 <= k2 < |other| && other[k2] == moduleId;
      var i := SomebodyIsFirst(one, moduleId, hostname, k1);
      var j := SomebodyIsFirst(other, moduleId, hostname, k2);
      DisplayedFirst(arrivals, one, moduleId, hostname, i);
      DisplayedFirst(arrivals, other, moduleId, hostname, j);
    } else {
      var id := if Last(arrivals, moduleId).Some? then moduleId else hostname;
      DisplayedIsLast(arrivals, one, moduleId, hostname, id);
      DisplayedIsLast(arrivals, other, moduleId, hostname, id);
    }
  }

  /**
   The hash map's order shows exactly if the module's identifier and its host name are both known
   and their recorders differ in what is shown of them.
   */
  lemma OrderShowsExactly(arrivals: seq<Arrival>, order: seq<string>, moduleId: string, hostname: string)
    requires IsVisit(arrivals, order)
    ensures OrderShows(arrivals, moduleId, hostname) <==> Ambiguous(arrivals, moduleId, hostname)
  {
    if Ambiguous(arrivals, moduleId, hostname) {
      AmbiguityShows(arrivals, order, moduleId, hostname);
    } else {
      forall one, other | IsVisit(arrivals, one) && IsVisit(arrivals, other)
        ensures Displayed(arrivals, one, moduleId, hostname) == Displayed(arrivals, other, moduleId, hostname)
      {
        UnambiguousIsOrderFree(arrivals, one, other, moduleId, hostname);
      }
    }
  }

  /** The failing input: two recorders, one recording and one stopped, under the two names of a module. */
  lemma TwoRecordersOneModule()
    ensures exists arrivals: seq<Arrival> :: OrderShows(arrivals, "main_ecu", "ecu0")
  {
    var a := Arrival(Message("main_ecu", true, SeverityOk, []), 0);
    var b := Arrival(Message("ecu0", false, SeverityOk, []), 0);
    var arrivals, order := [a, b], ["main_ecu", "ecu0"];
    assert "main_ecu" != "ecu0" by {
      assert |"main_ecu"| != |"ecu0"|;
    }
    assert arrivals[..1] == [a] && [a][..0] == [];
    assert Last(arrivals, "ecu0") == Some(b) && Last(arrivals, "main_ecu") == Last([a], "main_ecu") == Some(a);
    forall id ensures Last(arrivals, id).Some? <==> id in order {
      LastIsLast(arrivals, id);
    }
    assert IsVisit(arrivals, order);
    AmbiguityShows(arrivals, order, "main_ecu", "ecu0");
  }
}
