/** The recording service of the ROS 2 bridge: its two maps, updated by messages and read by requests. */
module RecordingHandler {
  import opened Common
  import opened RecorderCache
  import opened TopicFilter

  class RecordingHandler {
    var recordings: map<string, Message>
    var lastUpdates: map<string, int>

    /** Every message received so far. */
    ghost var arrivals: seq<Arrival>

    /** Both maps hold exactly the recorders heard of, each with its last message and its arrival. */
    ghost predicate Valid()
      reads this
    {
      && (forall id :: id in recordings <==> Last(arrivals, id).Some?)
      && recordings.Keys == lastUpdates.Keys
      && forall id :: id in recordings ==> Last(arrivals, id) == Some(Arrival(recordings[id], lastUpdates[id]))
    }

    constructor ()
      ensures Valid() && arrivals == []
    {
      recordings, lastUpdates, arrivals := map[], map[], [];
    }

    method RecorderStatusCallback(msg: Message, now: int)
      requires Valid()
      modifies this
      ensures Valid() && arrivals == old(arrivals) + [Arrival(msg, now)]
    {
      recordings := recordings[msg.hardwareId := msg];
      lastUpdates := lastUpdates[msg.hardwareId := now];
      arrivals := arrivals + [Arrival(msg, now)];
      assert arrivals[..|arrivals| - 1] == old(arrivals);
    }

    method GetRecording(id: string, now: int) returns (r: Result<Recording, Code>)
      requires Valid()
      ensures r == Answer(arrivals, id, now)
    {
      if id !in recordings {
        return Err(NotFound);
      }
      if id in lastUpdates {
        var age := AgeSeconds(now, lastUpdates[id]);
        if age > 10 {
          return Err(Unavailable);
        }
      }
      return Ok(ToRecording(recordings[id]));
    }

    /** The hash map is visited in an order of its own. */
    method ListRecordings(filter: string) returns (r: seq<Recording>)
      requires Valid()
      ensures exists order :: IsVisit(arrivals, order) && r == Listing(arrivals, order, filter)
    {
      r := [];
      var remaining := recordings.Keys;
      ghost var order: seq<string> := [];
      while remaining != {}
        invariant remaining <= recordings.Keys
        invariant Unique(order)
        invariant forall id :: id in order <==> id in recordings && id !in remaining
        invariant r == Listing(arrivals, order, filter)
      {
        var id :| id in remaining;
        assert (order + [id])[..|order|] == order;
        order := order + [id];
        remaining := remaining - {id};
        if filter != "" && !MatchesRecording(id, filter) {
          continue;
        }
        r := r + [ToRecording(recordings[id])];
      }
      assert IsVisit(arrivals, order);
    }

    method ListTopicStatuses(id: string, filter: string) returns (r: Result<seq<Topic>, Code>)
      requires Valid()
      ensures r == TopicAnswer(arrivals, id, filter)
    {
      if id !in recordings {
        return Err(NotFound);
      }
      var reports := recordings[id].topics;
      var topics: seq<Topic> := [];
      for k := 0 to |reports|
        invariant topics == Apply(ToTopic, Kept(reports[..k], filter))
        invariant k > 0 ==> filter != TOPIC_PREFIX
      {
        KeptStep(reports, filter, k);
        if filter != "" {
          if filter == TOPIC_PREFIX {
            return Err(Undefined);
          }
          if !MatchesTopic(reports[k].name, filter) {
            continue;
          }
        }
        ApplyAppend(ToTopic, Kept(reports[..k], filter), reports[k]);
        topics := topics + [ToTopic(reports[k])];
      }
      assert reports[..|reports|] == reports;
      return Ok(topics);
    }
  }
}
