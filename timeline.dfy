/** `on_mqtt_message`: decoding a message into an event and applying it to the vault log. */
module Timeline {
  import opened Wrappers
  import opened Strings
  import opened Numbers
  import opened Prediction

  /** The subscribed topics. */
  const TopicStatus := "data/status/kontrol"
  const TopicDistance := "data/dist/kontrol"
  const TopicPir := "data/pir/kontrol"
  const TopicFace := "ai/face/result"
  const TopicVoice := "ai/voice/result"
  const TopicPhoto := "/iot/camera/photo"
  const TopicAudio := "data/audio/link"

  /** A message after its payload has been stripped and, where numeric, parsed. */
  datatype Event =
    | StatusChanged(text: string)
    | DistanceReading(cm: real)
    | MotionReading(flag: int)
    | FaceResult(face: string)
    | VoiceResult(voice: string)
    | PhotoUrl(url: string)
    | AudioUrl(url: string)

  /** Events that overwrite one cell of the latest row. */
  predicate IsPatch(e: Event)
  {
    e.DistanceReading? || e.MotionReading? || e.FaceResult? || e.VoiceResult?
  }

  /** `on_mqtt_message` on an already UTF-8-decoded payload: strip it, then dispatch on the topic. */
  function Decode(topic: string, raw: string): (r: Option<Event>)
    ensures r.Some? ==> Encode(r.value).0 == topic
    ensures r.Some? && !r.value.DistanceReading? && !r.value.MotionReading? ==> Encodable(r.value)
  {
    Dispatch(topic, Strip(raw))
  }

  /** The topic dispatch on a stripped payload: None when the topic is not one of the seven, or when a
      distance or PIR payload does not parse. */
  function Dispatch(topic: string, payload: string): (r: Option<Event>)
    ensures r.Some? ==> Encode(r.value).0 == topic
    ensures r.Some? && !r.value.DistanceReading? && !r.value.MotionReading? ==> Encode(r.value).1 == payload
  {
    if topic == TopicStatus then Some(StatusChanged(payload))
    else if topic == TopicDistance then
      match ParseDecimal(payload)
      case None => None
      case Some(cm) => Some(DistanceReading(cm))
    else if topic == TopicPir then
      match ParseInt(payload)
      case None => None
      case Some(flag) => Some(MotionReading(flag))
    else if topic == TopicFace then Some(FaceResult(payload))
    else if topic == TopicVoice then Some(VoiceResult(payload))
    else if topic == TopicPhoto then Some(PhotoUrl(payload))
    else if topic == TopicAudio then Some(AudioUrl(payload))
    else None
  }

  /** The message a publisher sends for an event, with a whole number of centimetres for a distance. */
  function Encode(e: Event): (string, string)
  {
    match e
    case StatusChanged(text) => (TopicStatus, text)
    case DistanceReading(cm) => (TopicDistance, IntToString(cm.Floor))
    case MotionReading(flag) => (TopicPir, IntToString(flag))
    case FaceResult(face) => (TopicFace, face)
    case VoiceResult(voice) => (TopicVoice, voice)
    case PhotoUrl(url) => (TopicPhoto, url)
    case AudioUrl(url) => (TopicAudio, url)
  }

  /** Events that survive the trip through a message: text without surrounding white space,
      a distance in whole centimetres. */
  predicate Encodable(e: Event)
  {
    match e
    case StatusChanged(text) => IsStripped(text)
    case DistanceReading(cm) => cm == cm.Floor as real
    case MotionReading(_) => true
    case FaceResult(face) => IsStripped(face)
    case VoiceResult(voice) => IsStripped(voice)
    case PhotoUrl(url) => IsStripped(url)
    case AudioUrl(url) => IsStripped(url)
  }

  /** The seven topics are pairwise different strings. */
  lemma TopicsDistinct()
    ensures TopicStatus != TopicDistance && TopicStatus != TopicPir && TopicStatus != TopicFace
    ensures TopicStatus != TopicVoice && TopicStatus != TopicPhoto && TopicStatus != TopicAudio
    ensures TopicDistance != TopicPir && TopicDistance != TopicFace && TopicDistance != TopicVoice
    ensures TopicDistance != TopicPhoto && TopicDistance != TopicAudio
    ensures TopicPir != TopicFace && TopicPir != TopicVoice && TopicPir != TopicPhoto && TopicPir != TopicAudio
    ensures TopicFace != TopicVoice && TopicFace != TopicPhoto && TopicFace != TopicAudio
    ensures TopicVoice != TopicPhoto && TopicVoice != TopicAudio && TopicPhoto != TopicAudio
  {
    assert TopicDistance[0] != TopicPhoto[0];
    assert TopicVoice[0] != TopicAudio[0];
  }

  /** Which branch each topic takes: every topic reaches its own event, and a numeric topic only when
      its payload parses. */
  lemma DispatchByTopic(payload: string)
    ensures Dispatch(TopicStatus, payload) == Some(StatusChanged(payload))
    ensures Dispatch(TopicDistance, payload)
              == if ParseDecimal(payload).Some? then Some(DistanceReading(ParseDecimal(payload).value)) else None
    ensures Dispatch(TopicPir, payload)
              == if ParseInt(payload).Some? then Some(MotionReading(ParseInt(payload).value)) else None
    ensures Dispatch(TopicFace, payload) == Some(FaceResult(payload))
    ensures Dispatch(TopicVoice, payload) == Some(VoiceResult(payload))
    ensures Dispatch(TopicPhoto, payload) == Some(PhotoUrl(payload))
    ensures Dispatch(TopicAudio, payload) == Some(AudioUrl(payload))
  {
    TopicsDistinct();
  }

  /** Decoding the message of an event gives the event back. */
  lemma DecodeEncode(e: Event)
    requires Encodable(e)
    ensures Decode(Encode(e).0, Encode(e).1) == Some(e)
  {
    match e
    case StatusChanged(text) =>
      StripTrimmed(text);
      DispatchByTopic(text);
    case DistanceReading(cm) =>
      var digits := IntToString(cm.Floor);
      StripInt(cm.Floor);
      IntRoundTrip(cm.Floor);
      DecimalExtendsInt(digits);
      DispatchByTopic(digits);
    case MotionReading(flag) =>
      StripInt(flag);
      IntRoundTrip(flag);
      DispatchByTopic(IntToString(flag));
    case FaceResult(face) =>
      StripTrimmed(face);
      DispatchByTopic(face);
    case VoiceResult(voice) =>
      StripTrimmed(voice);
      DispatchByTopic(voice);
    case PhotoUrl(url) =>
      StripTrimmed(url);
      DispatchByTopic(url);
    case AudioUrl(url) =>
      StripTrimmed(url);
      DispatchByTopic(url);
  }

  /** `str(n)` has no white space to strip. */
  lemma StripInt(n: int)
    ensures Strip(IntToString(n)) == IntToString(n)
  {
    var s := IntToString(n);
    var digits := NatToString(if n < 0 then -n else n);
    assert s[|s| - 1] == digits[|digits| - 1];
    assert !IsSpace(s[0]) by {
      if n >= 0 {
        assert IsDigit(digits[0]);
      }
    }
    StripTrimmed(s);
  }

  /** A distance with a fractional part, as the ultrasonic sensor sends it, is read as the digits
      scaled down by ten for every digit after the point. */
  lemma DecodeFractionalDistance(w: string, f: string)
    requires AllDigits(w) && AllDigits(f) && |w| + |f| > 0
    ensures Decode(TopicDistance, w + "." + f) == Some(DistanceReading(Scaled(DigitsValue(w + f), |f|)))
  {
    var s := w + "." + f;
    assert IsStripped(s) by {
      assert s[|s| - 1] == if f == [] then '.' else f[|f| - 1];
      if w != [] {
        assert s[0] == w[0];
      }
    }
    StripTrimmed(s);
    ParseDecimalFraction(w, f);
    DispatchByTopic(s);
  }

  /** A payload that is not a number never reaches the log. */
  lemma MalformedDistanceDropped(raw: string, i: nat)
    requires i < |Strip(raw)|
    requires FloatNeverAccepts(Strip(raw)[i])
    ensures Decode(TopicDistance, raw) == None
  {
    DecimalRefusesText(Strip(raw), i);
    DispatchByTopic(Strip(raw));
  }

  /** The row a status message opens: sensor cells empty, both classifier cells waiting. */
  function NewEpisode(status: string, now: int): Row
  {
    Row(now, status, None, None, Waiting, Waiting, Unprocessed)
  }

  /** The cell a patch event overwrites. */
  function Patch(row: Row, e: Event): (r: Row)
    requires IsPatch(e)
    ensures r.timestamp == row.timestamp && r.status == row.status && r.prediction == row.prediction
  {
    match e
    case DistanceReading(cm) => row.(distance := Some(cm))
    case MotionReading(flag) => row.(pir := Some(flag))
    case FaceResult(face) => row.(face := face)
    case VoiceResult(voice) => row.(voice := voice)
  }

  /** The effect of one event on the vault log. */
  function ApplyToLog(log: seq<Row>, e: Event, now: int): (r: seq<Row>)
    ensures |r| == |log| + (if e.StatusChanged? then 1 else 0)
    ensures log != [] ==> r[..|log| - 1] == log[..|log| - 1]
  {
    if e.StatusChanged? then
      assert (log + [NewEpisode(e.text, now)])[..|log|] == log;
      log + [NewEpisode(e.text, now)]
    else if IsPatch(e) && log != [] then log[..|log| - 1] + [Patch(log[|log| - 1], e)]
    else log
  }

  /** A status message appends exactly one row with the waiting defaults and keeps every earlier row. */
  lemma StatusOpensEpisode(log: seq<Row>, text: string, now: int)
    ensures var r := ApplyToLog(log, StatusChanged(text), now);
            && |r| == |log| + 1 && r[..|log|] == log
            && r[|log|].status == text && r[|log|].timestamp == now
            && r[|log|].distance == None && r[|log|].pir == None
            && r[|log|].face == Waiting && r[|log|].voice == Waiting
            && r[|log|].prediction == Unprocessed
  {
    assert (log + [NewEpisode(text, now)])[..|log|] == log;
  }

  /** A sensor or classifier event overwrites its one cell of the latest row and nothing else. */
  lemma PatchTouchesOnlyLatest(log: seq<Row>, e: Event, now: int)
    requires IsPatch(e) && log != []
    ensures var r := ApplyToLog(log, e, now);
            && |r| == |log| && r[..|log| - 1] == log[..|log| - 1]
            && var latest, was := r[|r| - 1], log[|log| - 1];
            && latest.timestamp == was.timestamp && latest.status == was.status && latest.prediction == was.prediction
            && latest.distance == (if e.DistanceReading? then Some(e.cm) else was.distance)
            && latest.pir == (if e.MotionReading? then Some(e.flag) else was.pir)
            && latest.face == (if e.FaceResult? then e.face else was.face)
            && latest.voice == (if e.VoiceResult? then e.voice else was.voice)
  {
    var r := ApplyToLog(log, e, now);
    assert r[..|log| - 1] == log[..|log| - 1];
  }

  /** Before the first status message there is no row to patch, and the event is dropped. */
  lemma PatchOnEmptyLogDropped(e: Event, now: int)
    requires !e.StatusChanged?
    ensures ApplyToLog([], e, now) == []
  {
  }

  /** Photo and audio links leave the log alone. */
  lemma LinksIgnoreLog(log: seq<Row>, e: Event, now: int)
    requires e.PhotoUrl? || e.AudioUrl?
    ensures ApplyToLog(log, e, now) == log
  {
  }

  /** An event together with the time the callback handled it. */
  datatype Stamped = Stamped(event: Event, at: int)

  /** The log after handling `events` one at a time, in order. */
  function ApplyAll(log: seq<Row>, events: seq<Stamped>): seq<Row>
    decreases |events|
  {
    if events == [] then log
    else ApplyAll(ApplyToLog(log, events[0].event, events[0].at), events[1..])
  }

  function CountStatus(events: seq<Stamped>): nat
  {
    if events == [] then 0
    else (if events[0].event.StatusChanged? then 1 else 0) + CountStatus(events[1..])
  }

  /** One row per status message: the log grows by exactly the number of status messages. */
  lemma {:induction false} RowsCountStatusMessages(log: seq<Row>, events: seq<Stamped>)
    ensures |ApplyAll(log, events)| == |log| + CountStatus(events)
    decreases |events|
  {
    if events != [] {
      RowsCountStatusMessages(ApplyToLog(log, events[0].event, events[0].at), events[1..]);
    }
  }

  /** Messages that arrive before any status message leave the log empty. */
  lemma {:induction false} NoStatusNoEpisode(events: seq<Stamped>)
    requires CountStatus(events) == 0
    ensures ApplyAll([], events) == []
    decreases |events|
  {
    if events != [] {
      NoStatusNoEpisode(events[1..]);
    }
  }

  /** Rows before the latest one are history: no later event changes them. */
  lemma {:induction false} HistoryIsFrozen(log: seq<Row>, events: seq<Stamped>)
    requires log != []
    ensures |ApplyAll(log, events)| >= |log|
    ensures ApplyAll(log, events)[..|log| - 1] == log[..|log| - 1]
    decreases |events|
  {
    if events != [] {
      var next := ApplyToLog(log, events[0].event, events[0].at);
      assert |next| >= |log| && next[..|log| - 1] == log[..|log| - 1];
      HistoryIsFrozen(next, events[1..]);
      assert ApplyAll(next, events[1..])[..|log| - 1] == ApplyAll(next, events[1..])[..|next| - 1][..|log| - 1];
    }
  }

  /** Python's `f"{url}?t={t}"`: a link made unique by the time it was received. */
  function CacheBust(url: string, t: nat): string
  {
    url + "?t=" + NatToString(t)
  }

  /** Line 225: `f"{url.split('?')[0]}?t={t}"`, the "refresh picture" button. */
  function RefreshUrl(url: string, t: nat): (r: string)
    ensures BeforeFirst(r, '?') == BeforeFirst(url, '?')
    ensures r[|BeforeFirst(url, '?')|..] == "?t=" + NatToString(t)
  {
    var link, query := BeforeFirst(url, '?'), "?t=" + NatToString(t);
    assert CacheBust(link, t) == link + query;
    BeforeFirstConcat(link, query, '?');
    CacheBust(link, t)
  }

  /** Refreshing a link received without a query string keeps the link and renews only the time. */
  lemma RefreshRenewsTime(url: string, t: nat, t': nat)
    requires '?' !in url
    ensures RefreshUrl(CacheBust(url, t), t') == CacheBust(url, t')
  {
    assert CacheBust(url, t) == url + ("?t=" + NatToString(t));
    BeforeFirstConcat(url, "?t=" + NatToString(t), '?');
  }

  /** Refreshing twice is the same as refreshing once with the later time. */
  lemma RefreshTwice(url: string, t: nat, t': nat)
    ensures RefreshUrl(RefreshUrl(url, t), t') == RefreshUrl(url, t')
  {
    RefreshRenewsTime(BeforeFirst(url, '?'), t, t');
  }
}
