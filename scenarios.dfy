/** Whole runs of the callback followed by a relabelling, on concrete message sequences. */
module Scenarios {
  import opened Wrappers
  import opened Strings
  import opened Prediction
  import opened Timeline

  /** The log the dashboard shows after `events`, relabelled as the script does before drawing. */
  function Shown(events: seq<Stamped>): seq<Row>
  {
    Relabel(ApplyAll([], events))
  }

  /** A calm status followed by a reading of 15 cm and motion: one row, labelled nearby activity. */
  lemma NearbyScenario()
    ensures var log := Shown([Stamped(StatusChanged("Aman"), 0), Stamped(DistanceReading(15.0), 1),
                              Stamped(MotionReading(1), 2)]);
            && |log| == 1 && log[0].distance == Some(15.0) && log[0].pir == Some(1)
            && log[0].prediction == Labelled(NearbyActivity)
  {
    var log := ApplyAll([], [Stamped(StatusChanged("Aman"), 0), Stamped(DistanceReading(15.0), 1),
                             Stamped(MotionReading(1), 2)]);
    assert log == [Row(0, "Aman", Some(15.0), Some(1), Waiting, Waiting, Unprocessed)];
    assert !Occurs(BreachMarker, log[0].status) && !Occurs(SafeOpenMarker, log[0].status) by {
      assert !Contains(log[0].status, BreachMarker) && !Contains(log[0].status, SafeOpenMarker);
    }
  }

  /** A forced-open status is a breach even when the face classifier recognises the owner. */
  lemma BreachScenario()
    ensures var log := Shown([Stamped(StatusChanged(BreachMarker), 0), Stamped(FaceResult("ANGGI_FACES"), 1)]);
            && |log| == 1 && log[0].face == "ANGGI_FACES" && log[0].prediction == Labelled(Breached)
  {
    var events := [Stamped(StatusChanged(BreachMarker), 0), Stamped(FaceResult("ANGGI_FACES"), 1)];
    var first := ApplyToLog([], events[0].event, 0);
    assert first == [NewEpisode(BreachMarker, 0)];
    var second := ApplyToLog(first, events[1].event, 1);
    assert second == [NewEpisode(BreachMarker, 0).(face := "ANGGI_FACES")];
    assert events[1..][1..] == [];
    assert ApplyAll(first, events[1..]) == ApplyAll(second, []);
    var log := ApplyAll([], events);
    assert log == [Row(0, BreachMarker, None, None, "ANGGI_FACES", Waiting, Unprocessed)];
    assert OccursAt(BreachMarker, log[0].status, 0);
  }

  /** A classifier result before any status message is dropped. */
  lemma EarlyResultScenario()
    ensures Shown([Stamped(FaceResult("X"), 0)]) == []
  {
  }

  /** A calm status followed by a foreign face: one row, labelled suspicious. */
  lemma SuspiciousScenario()
    ensures var log := Shown([Stamped(StatusChanged("Aman"), 0), Stamped(FaceResult(OtherFaces), 1)]);
            && |log| == 1 && log[0].prediction == Labelled(Suspicious)
  {
    var events := [Stamped(StatusChanged("Aman"), 0), Stamped(FaceResult(OtherFaces), 1)];
    var first := ApplyToLog([], events[0].event, 0);
    assert first == [NewEpisode("Aman", 0)];
    var second := ApplyToLog(first, events[1].event, 1);
    assert second == [NewEpisode("Aman", 0).(face := OtherFaces)];
    assert events[1..][1..] == [];
    assert ApplyAll(first, events[1..]) == ApplyAll(second, []);
    var log := ApplyAll([], events);
    assert log == [Row(0, "Aman", None, None, OtherFaces, Waiting, Unprocessed)];
    assert !Contains(log[0].status, BreachMarker);
  }
}
