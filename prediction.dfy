/** The fusion rule `generate_final_prediction` and the relabelling of the vault log. */
module Prediction {
  import opened Wrappers
  import opened Strings

  /** Status text the controller sends when the vault is forced open. */
  const BreachMarker := "Brangkas Dibuka Paksa"
  /** Status text the controller sends when the vault is opened legitimately. */
  const SafeOpenMarker := "Terbuka Secara Aman"
  /** Face labels of the face classifier that mean "not an authorised person". */
  const UnknownFace := "Unknown"
  const OtherFaces := "OTHER_FACES"
  /** Voice label of the voice classifier that means "not the authorised user". */
  const NotUser := "Not_User"
  /** Face and voice cells of a new row, until a classifier result arrives. */
  const Waiting := "Menunggu..."
  /** Distances strictly between 0 and this many centimetres count as nearby activity. */
  const NearLimit: real := 25.0

  /** The six labels the rule can give, in priority order. */
  datatype Verdict = Breached | Suspicious | SafeOpened | NearbyActivity | MotionDetected | Safe

  /** The text shown in the "Label Prediksi" column. */
  function VerdictText(v: Verdict): string
  {
    match v
    case Breached => "⚠ Dibobol!"
    case Suspicious => "🚨 Mencurigakan!"
    case SafeOpened => "✅ Sah & Aman"
    case NearbyActivity => "👀 Aktivitas Dekat"
    case MotionDetected => "👀 Gerakan Terdeteksi"
    case Safe => "✅ Aman"
  }

  /** The stored label of a row: "Belum Diproses" when the row is created, a verdict once relabelled. */
  datatype Label = Unprocessed | Labelled(verdict: Verdict)

  /** One row of the vault log ("df_brankas"): an access episode opened by a status message.
      `distance` and `pir` are None where the DataFrame holds NaN. */
  datatype Row = Row(
    timestamp: int,
    status: string,
    distance: Option<real>,
    pir: Option<int>,
    face: string,
    voice: string,
    prediction: Label)

  /** The identity signals that make an episode suspicious. */
  predicate IsSuspect(face: string, voice: string)
  {
    face == UnknownFace || voice == NotUser || face == OtherFaces
  }

  /** Priority of each rule: a lower rank is tried first. */
  function Rank(v: Verdict): nat
  {
    match v
    case Breached => 0
    case Suspicious => 1
    case SafeOpened => 2
    case NearbyActivity => 3
    case MotionDetected => 4
    case Safe => 5
  }

  /** The condition of each rule taken on its own, regardless of the other rules. */
  ghost predicate Fires(v: Verdict, row: Row)
  {
    match v
    case Breached => Occurs(BreachMarker, row.status)
    case Suspicious => IsSuspect(row.face, row.voice)
    case SafeOpened => Occurs(SafeOpenMarker, row.status)
    case NearbyActivity => row.distance.Some? && 0.0 < row.distance.value < NearLimit
    case MotionDetected => row.pir == Some(1)
    case Safe => true
  }

  /** The verdict is the first rule, in priority order, whose condition holds. */
  ghost predicate FirstMatch(v: Verdict, row: Row)
  {
    Fires(v, row) && forall w :: Rank(w) < Rank(v) ==> !Fires(w, row)
  }

  /** `generate_final_prediction`: first match wins over the status, identity and sensor cells. */
  function Classify(row: Row): (v: Verdict)
    ensures FirstMatch(v, row)
  {
    if Contains(row.status, BreachMarker) then Breached
    else if IsSuspect(row.face, row.voice) then Suspicious
    else if Contains(row.status, SafeOpenMarker) then SafeOpened
    else if row.distance.Some? && 0.0 < row.distance.value && row.distance.value < NearLimit then NearbyActivity
    else if row.pir.Some? && row.pir.value == 1 then MotionDetected
    else Safe
  }

  /** The first-match verdict is unique, so Classify is the only function meeting its contract. */
  lemma FirstMatchUnique(v: Verdict, row: Row)
    requires FirstMatch(v, row)
    ensures v == Classify(row)
  {
  }

  /** The six label texts are pairwise different, so the stored text determines the verdict. */
  lemma VerdictTextInjective(v: Verdict, w: Verdict)
    requires VerdictText(v) == VerdictText(w)
    ensures v == w
  {
  }

  /** A forced-open status wins over every identity and sensor reading. */
  lemma BreachDominates(row: Row, other: Row)
    requires Occurs(BreachMarker, row.status) && other.status == row.status
    ensures Classify(row) == Breached && Classify(other) == Breached
  {
  }

  /** Without a breach, an unknown face or a foreign voice is suspicious even when the vault was opened safely. */
  lemma SuspicionBeatsSafeOpen(row: Row)
    requires !Occurs(BreachMarker, row.status)
    requires row.face == UnknownFace || row.face == OtherFaces || row.voice == NotUser
    ensures Classify(row) == Suspicious
  {
  }

  /** Nearby activity is reported exactly when no stronger rule holds and 0 < distance < 25. */
  lemma NearbyExactly(row: Row)
    ensures Classify(row) == NearbyActivity <==>
              && !Occurs(BreachMarker, row.status)
              && !IsSuspect(row.face, row.voice)
              && !Occurs(SafeOpenMarker, row.status)
              && row.distance.Some? && 0.0 < row.distance.value < NearLimit
  {
  }

  /** A zero reading (the sensor's failure value) and a reading of exactly 25 cm are never nearby activity. */
  lemma DistanceBoundsExclusive(row: Row)
    requires row.distance == Some(0.0) || row.distance == Some(NearLimit) || row.distance == None
    ensures Classify(row) != NearbyActivity
  {
  }

  /** Motion is reported only when the PIR cell holds 1 and no stronger rule holds; otherwise the row is safe. */
  lemma MotionAndDefault(row: Row)
    ensures Classify(row) == MotionDetected <==>
              && !Fires(Breached, row) && !Fires(Suspicious, row) && !Fires(SafeOpened, row)
              && !Fires(NearbyActivity, row) && row.pir == Some(1)
    ensures Classify(row) == Safe <==> forall w :: w != Safe ==> !Fires(w, row)
  {
  }

  /** The stored label of `row` is the verdict the rule gives for its current cells. */
  predicate IsCurrent(row: Row)
  {
    row.prediction == Labelled(Classify(row))
  }

  /** `row` and `row'` agree on every cell except the label. */
  predicate SameReadings(row: Row, row': Row)
  {
    row'.(prediction := row.prediction) == row
  }

  /** Lines 201-204: every row of the log gets the label the rule gives for it. */
  function Relabel(rows: seq<Row>): (r: seq<Row>)
    ensures |r| == |rows|
    ensures forall i :: 0 <= i < |r| ==> SameReadings(rows[i], r[i]) && IsCurrent(r[i])
  {
    seq(|rows|, i requires 0 <= i < |rows| => rows[i].(prediction := Labelled(Classify(rows[i]))))
  }

  /** Relabelling a relabelled log changes nothing. */
  lemma RelabelIdempotent(rows: seq<Row>)
    ensures Relabel(Relabel(rows)) == Relabel(rows)
  {
    var once := Relabel(rows);
    var twice := Relabel(once);
    forall i | 0 <= i < |rows|
      ensures twice[i] == once[i]
    {
      assert SameReadings(once[i], twice[i]) && IsCurrent(twice[i]) && IsCurrent(once[i]);
      assert Classify(twice[i]) == Classify(once[i]);
    }
  }
}
