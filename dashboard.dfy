/** The dashboard's session state and what one run of the script and one MQTT callback do to it. */
module Dashboard {
  import opened Wrappers
  import opened Prediction
  import opened Timeline
  import opened ResultLog

  /** The picture shown before any photo link has arrived. */
  const PhotoPlaceholder := "https://via.placeholder.com/640x480?text=No+Photo+Yet"

  /** The high-water mark of a sub-log is the timestamp of the last entry copied into the dashboard's
      table, and is unset while that table is empty. */
  ghost predicate MarkTracksLog(log: seq<Entry>, mark: Option<int>)
  {
    if log == [] then mark == None else mark == Some(log[|log| - 1].timestamp)
  }

  /** Appending the admitted entries to a table and moving its mark keeps the mark on the table's last entry. */
  lemma MarkFollowsTable(table: seq<Entry>, mark: Option<int>, entries: seq<Entry>)
    requires MarkTracksLog(table, mark)
    ensures MarkTracksLog(table + NewerThan(entries, mark), NextMark(entries, mark))
  {
    var admitted := NewerThan(entries, mark);
    if admitted == [] {
      assert table + admitted == table;
    } else {
      assert (table + admitted)[|table + admitted| - 1] == admitted[|admitted| - 1];
    }
  }

  /** `st.session_state`: the vault log, the face and voice tables, their marks and the two links. */
  class Session {
    var brankas: seq<Row>
    var faceLog: seq<Entry>
    var voiceLog: seq<Entry>
    var lastFaceTime: Option<int>
    var lastVoiceTime: Option<int>
    var photoUrl: string
    var audioUrl: Option<string>

    ghost predicate Valid()
      reads this
    {
      MarkTracksLog(faceLog, lastFaceTime) && MarkTracksLog(voiceLog, lastVoiceTime)
    }

    /** Lines 32-51: empty tables, no marks, the placeholder picture and no audio. */
    constructor ()
      ensures Valid()
      ensures brankas == [] && faceLog == [] && voiceLog == []
      ensures lastFaceTime == None && lastVoiceTime == None
      ensures photoUrl == PhotoPlaceholder && audioUrl == None
    {
      brankas, faceLog, voiceLog := [], [], [];
      lastFaceTime, lastVoiceTime := None, None;
      photoUrl, audioUrl := PhotoPlaceholder, None;
    }

    /** The branches of `on_mqtt_message` after decoding: a status opens a row, a reading or a
        classifier result overwrites one cell of the latest row (or is dropped when there is none),
        a link replaces the stored link. */
    method Apply(e: Event, now: nat)
      requires Valid()
      modifies this`brankas, this`photoUrl, this`audioUrl
      ensures Valid()
      ensures brankas == ApplyToLog(old(brankas), e, now)
      ensures photoUrl == if e.PhotoUrl? then CacheBust(e.url, now) else old(photoUrl)
      ensures audioUrl == if e.AudioUrl? then Some(CacheBust(e.url, now)) else old(audioUrl)
    {
      match e
      case StatusChanged(text) =>
        brankas := brankas + [NewEpisode(text, now)];
      case PhotoUrl(url) =>
        photoUrl := CacheBust(url, now);
      case AudioUrl(url) =>
        audioUrl := Some(CacheBust(url, now));
      case _ =>
        if brankas != [] {
          var last := |brankas| - 1;
          brankas := brankas[last := Patch(brankas[last], e)];
          assert brankas == old(brankas)[..last] + [Patch(old(brankas)[last], e)];
        }
    }

    /** `on_mqtt_message`: a message on an unknown topic, or a distance or PIR payload that does not
        parse, changes nothing; any other message is applied as its event. */
    method Receive(topic: string, raw: string, now: nat)
      requires Valid()
      modifies this`brankas, this`photoUrl, this`audioUrl
      ensures Valid()
      ensures Decode(topic, raw).None? ==>
                brankas == old(brankas) && photoUrl == old(photoUrl) && audioUrl == old(audioUrl)
      ensures Decode(topic, raw).Some? ==>
                var e := Decode(topic, raw).value;
                && brankas == ApplyToLog(old(brankas), e, now)
                && photoUrl == (if e.PhotoUrl? then CacheBust(e.url, now) else old(photoUrl))
                && audioUrl == (if e.AudioUrl? then Some(CacheBust(e.url, now)) else old(audioUrl))
    {
      var decoded := Decode(topic, raw);
      if decoded.Some? {
        Apply(decoded.value, now);
      }
    }

    /** Line 225, the "refresh picture" button: keep the link up to its first '?' and stamp it anew. */
    method RefreshPhoto(now: nat)
      modifies this`photoUrl
      ensures photoUrl == RefreshUrl(old(photoUrl), now)
    {
      photoUrl := RefreshUrl(photoUrl, now);
    }

    /** Lines 200-204: relabel every row of the vault log from its current cells. */
    method RecomputeLabels()
      modifies this`brankas
      ensures brankas == Relabel(old(brankas))
    {
      if brankas != [] {
        brankas := Relabel(brankas);
      }
    }

    /** `load_new_ml_results`: `file` is None when "results.json" does not exist. Each sub-log is
        filtered past its own mark, and each mark moves to the last entry admitted from its sub-log. */
    method LoadNewMlResults(file: Option<ResultsFile>) returns (newFace: seq<Entry>, newVoice: seq<Entry>)
      modifies this`lastFaceTime, this`lastVoiceTime
      ensures file.None? ==>
                && newFace == [] && newVoice == []
                && lastFaceTime == old(lastFaceTime) && lastVoiceTime == old(lastVoiceTime)
      ensures file.Some? ==>
                && newFace == NewerThan(file.value.face, old(lastFaceTime))
                && newVoice == NewerThan(file.value.voice, old(lastVoiceTime))
                && lastFaceTime == NextMark(file.value.face, old(lastFaceTime))
                && lastVoiceTime == NextMark(file.value.voice, old(lastVoiceTime))
    {
      if file.None? {
        return [], [];
      }
      newFace := FilterNewer(file.value.face, lastFaceTime);
      newVoice := FilterNewer(file.value.voice, lastVoiceTime);
      if newFace != [] {
        lastFaceTime := Some(newFace[|newFace| - 1].timestamp);
      }
      if newVoice != [] {
        lastVoiceTime := Some(newVoice[|newVoice| - 1].timestamp);
      }
    }

    /** Lines 190-193: append `items` to the face table one entry at a time. */
    method AppendFace(items: seq<Entry>)
      modifies this`faceLog
      ensures faceLog == old(faceLog) + items
    {
      var i := 0;
      while i < |items|
        invariant i <= |items|
        invariant faceLog == old(faceLog) + items[..i]
      {
        faceLog := faceLog + [items[i]];
        i := i + 1;
      }
      assert items[..i] == items;
    }

    /** Lines 195-198: append `items` to the voice table one entry at a time. */
    method AppendVoice(items: seq<Entry>)
      modifies this`voiceLog
      ensures voiceLog == old(voiceLog) + items
    {
      var i := 0;
      while i < |items|
        invariant i <= |items|
        invariant voiceLog == old(voiceLog) + items[..i]
      {
        voiceLog := voiceLog + [items[i]];
        i := i + 1;
      }
      assert items[..i] == items;
    }

    /** Lines 188-198: load what is new in the result logs and copy it into the face and voice tables. */
    method IngestResults(file: Option<ResultsFile>)
      requires Valid()
      modifies this`faceLog, this`voiceLog, this`lastFaceTime, this`lastVoiceTime
      ensures Valid()
      ensures file.None? ==> faceLog == old(faceLog) && voiceLog == old(voiceLog)
      ensures file.Some? ==>
                && faceLog == old(faceLog) + NewerThan(file.value.face, old(lastFaceTime))
                && voiceLog == old(voiceLog) + NewerThan(file.value.voice, old(lastVoiceTime))
    {
      var newFace, newVoice := LoadNewMlResults(file);
      AppendFace(newFace);
      AppendVoice(newVoice);
      if file.Some? {
        MarkFollowsTable(old(faceLog), old(lastFaceTime), file.value.face);
        MarkFollowsTable(old(voiceLog), old(lastVoiceTime), file.value.voice);
      }
    }

    /** One run of the script before drawing: ingest the result logs, then relabel the vault log.
        Afterwards every row carries the label its cells call for. */
    method Rerun(file: Option<ResultsFile>)
      requires Valid()
      modifies this`faceLog, this`voiceLog, this`lastFaceTime, this`lastVoiceTime, this`brankas
      ensures Valid()
      ensures file.None? ==> faceLog == old(faceLog) && voiceLog == old(voiceLog)
      ensures file.Some? ==>
                && faceLog == old(faceLog) + NewerThan(file.value.face, old(lastFaceTime))
                && voiceLog == old(voiceLog) + NewerThan(file.value.voice, old(lastVoiceTime))
      ensures brankas == Relabel(old(brankas))
      ensures |brankas| == |old(brankas)|
      ensures forall i :: 0 <= i < |brankas| ==> SameReadings(old(brankas)[i], brankas[i]) && IsCurrent(brankas[i])
    {
      IngestResults(file);
      RecomputeLabels();
    }
  }
}
