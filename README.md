# Vault monitoring dashboard: event engine model

A Dafny model of the event engine inside `dashboard.py`, the Streamlit dashboard that watches a
vault ("brankas"). The vault has an ultrasonic distance sensor, a PIR motion sensor, a camera, a
microphone, and two classifiers, one for faces and one for voices. Their results arrive as MQTT
messages. The dashboard keeps a log of access episodes ("df_brankas"). A status message opens a
row. Later readings and classifier results fill in cells of the latest row. Every row gets a
fused label from a first-match-wins rule. Separately, the dashboard backfills its face and voice
tables from a result file. A per-sub-log high-water mark stops it from admitting the same entry
twice.

Modules:

- `Wrappers` (`wrappers.dfy`): `Option`. A NaN cell and an unset mark are `None`.
- `Strings` (`strings.dfy`): Python's `pat in s`, `s.strip()` and `s.split(sep)[0]`.
- `Numbers` (`numbers.dfy`): `int(s)`, `float(s)` on plain decimals (read as exact decimals), and `str(n)`.
- `Prediction` (`prediction.dfy`): the row record, the six verdicts, `generate_final_prediction`
  (`Classify`) and the relabelling of lines 200-204 (`Relabel`).
- `Timeline` (`timeline.dfy`): topics, the decoded `Event`, the dispatch of `on_mqtt_message`
  (`Decode`), its effect on the log (`ApplyToLog`, folded over a sequence by `ApplyAll`), and the
  cache-busted photo and audio links.
- `ResultLog` (`result_log.dfy`): result-log entries, the strictly-newer filter, the mark update,
  and the filtering loop of `load_new_ml_results`.
- `Dashboard` (`dashboard.dfy`): `Session`, a class standing for `st.session_state`. Its methods
  change its fields in place, as the callback and the script do.
- `Scenarios` (`scenarios.dfy`): concrete message sequences applied to the model.

Parameters that stand for I/O:

- The current time is a `nat` of seconds. It is used for `datetime.now()` in a new row and for
  `int(time.time())` in a link.
- The parsed `results.json` is an `Option<ResultsFile>`. `None` means the file does not exist.
- A payload arrives already decoded from UTF-8.

The model follows the code as written:

- The MQTT callback changes the session state directly, message by message (`dashboard.py:78-127`).
  The model applies messages one at a time.
- Each run of the script relabels every row of the log (`dashboard.py:200-204`).
- A new row's face and voice cells hold "Menunggu..." (`dashboard.py:91-92`).
- The status markers and the 25 cm limit are literals in `generate_final_prediction`
  (`dashboard.py:64-71`).
- Motion means the PIR cell equals 1 (`dashboard.py:73`). A PIR payload of 2 is stored but is not
  motion.
- Photo and audio links are stored even before any row exists (`dashboard.py:123-127`). Row updates
  on an empty log are dropped (`dashboard.py:102, 110, 116, 120`).
- The backfill catches only a missing file (`dashboard.py:161-165`). Any other read failure is not
  handled.

## Model

| member | source | states |
|---|---|---|
| `Strings.Contains` | dashboard.py:64 | the executable substring test holds exactly when the pattern occurs as a contiguous slice (Python `in`) |
| `Strings.SkipSpace` | dashboard.py:81 | the left end of the kept part is the first position holding no whitespace, or the end of the string |
| `Strings.SkipSpaceSkipsOnlySpace` | dashboard.py:81 | every character passed over on the left is whitespace |
| `Strings.BackOverSpace` | dashboard.py:81 | the right end of the kept part follows the last character that is not whitespace, or meets the left end |
| `Strings.BackOverSpaceSkipsOnlySpace` | dashboard.py:81 | every character passed over on the right is whitespace |
| `Strings.Strip` | dashboard.py:81 | what `strip()` keeps has no whitespace at either end |
| `Strings.StripIsMaximalTrim` | dashboard.py:81 | `strip()` keeps one contiguous middle slice and removes only whitespace on either side of it |
| `Strings.StripTrimmed` | dashboard.py:81 | a payload with no surrounding whitespace is unchanged by `strip()` |
| `Strings.StripIdempotent` | dashboard.py:81 | stripping twice equals stripping once |
| `Strings.BeforeFirst` | dashboard.py:225 | `split(sep)[0]` is a prefix without `sep`, followed in the input by `sep` or by nothing |
| `Strings.BeforeFirstConcat` | dashboard.py:225 | splitting `a + b` where `a` has no separator keeps all of `a` |
| `Numbers.NatToString` | dashboard.py:124 | `str(n)` is a non-empty digit string with no leading zero |
| `Numbers.DigitsRoundTrip` | dashboard.py:124 | reading back the digits of `str(n)` gives `n` |
| `Numbers.IntToString` | dashboard.py:124 | `str(n)` starts with a minus sign exactly when `n` is negative, and the rest is digits |
| `Numbers.ParseDigitsOfNat` | dashboard.py:109 | the digits of `str(n)` parse back to `n` |
| `Numbers.LeadingZeroIgnored` | dashboard.py:109 | a leading zero does not change the value read, as `int("007") == 7` |
| `Numbers.DigitsValueConcat` | dashboard.py:101 | the value of two digit runs written together is the first shifted by the second's length plus the second |
| `Numbers.ParseInt` | dashboard.py:109 | `int()` accepts exactly an optional sign followed by one or more digits, of any length, and a negative value only after '-' |
| `Numbers.IntRoundTrip` | dashboard.py:109 | `int(str(n)) == n` for every integer |
| `Numbers.ParseDecimal` | dashboard.py:101 | `float()` accepts exactly plain decimal notation (an optional sign, then digits and at most one point, with at least one digit), and a negative value comes only after '-'; values are exact decimals, not rounded to a double |
| `Numbers.ParseDecimalFraction` | dashboard.py:101 | exact-decimal reading: `float()` of digits, a point and digits is the digits read as one number divided by ten per digit after the point |
| `Numbers.SignedFraction` | dashboard.py:101 | exact-decimal reading: a '-' in front of digits, a point and digits negates the value, and a '+' keeps it |
| `Numbers.SignInFront` | dashboard.py:101 | for any payload that starts with no sign, a '-' put in front negates the value `float()` reads and a '+' keeps it |
| `Numbers.DecimalExtendsInt` | dashboard.py:101 | exact-decimal reading: `float(s)` accepts every payload `int(s)` accepts, with the same (unrounded) value |
| `Numbers.TwoPointsRefused` | dashboard.py:100-105 | a payload with two decimal points is refused, as `float("1.2.3")` raises and the message is dropped |
| `Numbers.DecimalRefusesText` | dashboard.py:100-105 | a payload holding a character Python's `float()` accepts nowhere (ASCII, and not a digit, whitespace, sign, point, exponent mark, underscore or letter of "inf", "infinity" or "nan") is refused |
| `Prediction.Classify` | dashboard.py:57-75 | the verdict's rule holds, and no rule of higher priority holds (first match wins) |
| `Prediction.FirstMatchUnique` | dashboard.py:57-75 | any verdict meeting the first-match condition is the one `Classify` returns |
| `Prediction.VerdictTextInjective` | dashboard.py:65-75 | the six label texts are pairwise different |
| `Prediction.BreachDominates` | dashboard.py:64-65 | a status containing "Brangkas Dibuka Paksa" is "⚠ Dibobol!" whatever the face, voice, distance and PIR |
| `Prediction.SuspicionBeatsSafeOpen` | dashboard.py:64-70 | without the breach marker, "Unknown", "OTHER_FACES" or "Not_User" gives "🚨 Mencurigakan!" even on "Terbuka Secara Aman" |
| `Prediction.NearbyExactly` | dashboard.py:71-72 | "👀 Aktivitas Dekat" holds exactly when no earlier rule holds and the distance is present with 0 < d < 25 |
| `Prediction.DistanceBoundsExclusive` | dashboard.py:71 | a distance of 0, of 25 or NaN never gives nearby activity |
| `Prediction.MotionAndDefault` | dashboard.py:73-75 | motion exactly when no earlier rule holds and PIR is 1; "✅ Aman" exactly when no other rule holds |
| `Prediction.Relabel` | dashboard.py:200-204 | same number of rows, every cell except the label kept, every label equal to the rule's verdict for its row |
| `Prediction.RelabelIdempotent` | dashboard.py:200-204 | relabelling an already relabelled log changes nothing |
| `Timeline.Decode` | dashboard.py:78-127 | a decoded event belongs to the topic it arrived on, and a text event carries a stripped payload |
| `Timeline.Dispatch` | dashboard.py:85-127 | an event comes only from its own topic, and a text event carries the payload unchanged |
| `Timeline.DispatchByTopic` | dashboard.py:85-127 | each of the seven topics takes its own branch on the stripped payload; numeric topics drop unparsable payloads |
| `Timeline.DecodeEncode` | dashboard.py:78-127 | decoding the message a publisher sends for an event gives that event back, for text, PIR and whole-centimetre distance events |
| `Timeline.DecodeFractionalDistance` | dashboard.py:99-105 | exact-decimal reading: a distance payload with a fractional part, such as "24.99", is stored as that decimal value |
| `Timeline.StripInt` | dashboard.py:81 | `str(n)` has nothing to strip |
| `Timeline.MalformedDistanceDropped` | dashboard.py:99-105 | a distance payload holding a character Python's `float()` accepts nowhere decodes to no event |
| `Timeline.Patch` | dashboard.py:99-121 | a cell update keeps the row's timestamp, status and label |
| `Timeline.ApplyToLog` | dashboard.py:85-127 | a status message adds one row and any other message none, and no row before the last changes |
| `Timeline.StatusOpensEpisode` | dashboard.py:85-97 | a status message appends exactly one row: given status and time, no distance, no PIR, both classifier cells "Menunggu...", label unprocessed; earlier rows unchanged |
| `Timeline.PatchTouchesOnlyLatest` | dashboard.py:99-121 | a distance, PIR, face or voice event keeps the row count and every earlier row, and changes only its own cell of the last row |
| `Timeline.PatchOnEmptyLogDropped` | dashboard.py:99-121 | on an empty log every non-status event leaves the log empty |
| `Timeline.LinksIgnoreLog` | dashboard.py:123-127 | photo and audio links leave the log unchanged |
| `Timeline.RowsCountStatusMessages` | dashboard.py:85-121 | after any message sequence the row count grows by exactly the number of status messages |
| `Timeline.NoStatusNoEpisode` | dashboard.py:99-121 | messages arriving before any status message leave the log empty |
| `Timeline.HistoryIsFrozen` | dashboard.py:99-121 | no later message changes a row before the latest one |
| `Timeline.RefreshUrl` | dashboard.py:225 | the refreshed link keeps the part before the first '?' and continues with "?t=" and the new time |
| `Timeline.RefreshRenewsTime` | dashboard.py:225 | refreshing a link received without a query keeps the link and replaces only its time stamp |
| `Timeline.RefreshTwice` | dashboard.py:225 | refreshing twice equals refreshing once with the later time |
| `ResultLog.NewerThan` | dashboard.py:170-178 | admits no more entries than the input holds |
| `ResultLog.NewerThanMembers` | dashboard.py:170-178 | an entry is admitted exactly when it is in the sub-log and strictly later than the mark, or there is no mark |
| `ResultLog.NewerThanConcat` | dashboard.py:170-178 | the filter distributes over concatenation, so admitted entries keep their input order |
| `ResultLog.FilterNewer` | dashboard.py:170-178 | the loop returns exactly the strictly-newer entries in input order |
| `ResultLog.NextMark` | dashboard.py:180-183 | the mark is unset after a pass exactly when it was unset and nothing was admitted |
| `ResultLog.MarkAdvances` | dashboard.py:180-183 | the mark never moves back, and it moves strictly forward when anything is admitted |
| `ResultLog.NextMarkBoundsAll` | dashboard.py:180-183 | on a sorted sub-log the new mark is the last entry's timestamp and bounds every entry |
| `ResultLog.NoneNewer` | dashboard.py:170-178 | a sub-log with every entry at or before the mark admits nothing |
| `ResultLog.BackfillIdempotent` | dashboard.py:170-183 | on a sorted sub-log a second pass admits nothing and leaves the mark unchanged |
| `ResultLog.CatchUpAdmitsOnlyAppended` | dashboard.py:170-183 | after a pass over a sorted sub-log, a pass over the grown log admits only from the appended part |
| `ResultLog.SameSecondResultSkipped` | dashboard.py:170-183 | a result stamped in the same second as the last one admitted is never admitted, though both are admitted when they arrive in one pass |
| `ResultLog.UnsortedLogReadmits` | dashboard.py:170-183 | on a log whose timestamps go backwards the mark is the last admitted timestamp, so the next pass admits an earlier entry again |
| `ResultLog.LaterMarkAdmitsSubsequence` | dashboard.py:170-178 | a later mark admits no more entries, and only entries an earlier mark also admits |
| `Dashboard.MarkFollowsTable` | dashboard.py:180-198 | after appending the admitted entries and moving the mark, the mark is again the table's last timestamp |
| `Dashboard.Session.constructor` | dashboard.py:32-51 | empty tables, unset marks, the placeholder photo and no audio link |
| `Dashboard.Session.Apply` | dashboard.py:85-128 | the log becomes `ApplyToLog` of the event; a photo or audio link is replaced by the cache-busted link; nothing else changes |
| `Dashboard.Session.Receive` | dashboard.py:78-128 | an undecodable message changes nothing; otherwise the decoded event is applied |
| `Dashboard.Session.RefreshPhoto` | dashboard.py:224-225 | the photo link becomes its part before '?' followed by the new time stamp |
| `Dashboard.Session.RecomputeLabels` | dashboard.py:200-204 | the log becomes its relabelling |
| `Dashboard.Session.LoadNewMlResults` | dashboard.py:158-185 | a missing file returns nothing and keeps the marks; otherwise each sub-log's strictly-newer entries are returned and its mark moves to the last one |
| `Dashboard.Session.AppendFace` | dashboard.py:190-193 | the face table gains exactly the given entries, in order |
| `Dashboard.Session.AppendVoice` | dashboard.py:195-198 | the voice table gains exactly the given entries, in order |
| `Dashboard.Session.IngestResults` | dashboard.py:188-198 | each table gains exactly its sub-log's strictly-newer entries; each mark stays equal to its table's last timestamp |
| `Dashboard.Session.Rerun` | dashboard.py:188-204 | after a script run each table has gained exactly its sub-log's strictly-newer entries, and the log is its relabelling: every row keeps its cells and carries the label the rule gives for them |
| `Scenarios.NearbyScenario` | dashboard.py:57-113 | a calm status, 15 cm and motion give one row labelled "👀 Aktivitas Dekat" |
| `Scenarios.BreachScenario` | dashboard.py:57-117 | a forced-open status stays "⚠ Dibobol!" after a recognised face |
| `Scenarios.EarlyResultScenario` | dashboard.py:115-117 | a face result before any status leaves the log empty |
| `Scenarios.SuspiciousScenario` | dashboard.py:57-117 | a calm status followed by "OTHER_FACES" gives "🚨 Mencurigakan!" |

## Left out

- MQTT client setup, subscription and the `loop_forever` thread (`dashboard.py:134-152`). This is network I/O and threading. The code sits at module level, and the script re-runs about every 2 seconds (`dashboard.py:250-251`). So every run creates, connects and subscribes another client and starts another daemon thread, and none is ever stopped. With several live clients, one published message can reach the callback several times. The model hands each message to the callback once, one message at a time, with no interleaving against a script run.
- Publishing the camera trigger and the alarm command (`dashboard.py:216-222`). They are fire-and-forget calls with no logic.
- The Streamlit UI: tabs, images, the `tail(10)` tables, the audio player, `st.info` in the callback, and `sleep` plus `rerun` (`dashboard.py:128, 209-251`). These only render.
- Opening and parsing `results.json` (`dashboard.py:161-165`). The parsed lists are passed in, and `None` stands for a missing file. A malformed file or an entry without a "Timestamp" raises in the source and is not modelled.
- `datetime.now()`, `time.time()` and `strptime`. Times are integer seconds passed as parameters, and a row's formatted timestamp string is an integer.
- UTF-8 decoding of payloads (`dashboard.py:80-83`). A payload arrives as a string, so undecodable payloads are not modelled.
- Numbers.ParseDecimal: accepts only plain decimal notation. Python's `float()` also accepts exponents, `inf`, `nan`, digit-group underscores and non-ASCII digits. The model drops such a message and keeps the previous reading. The source stores the value instead. A "nan" payload stores NaN, which the rule reads as an absent distance. So 15 cm followed by "nan" gives "👀 Aktivitas Dekat" in the model and "✅ Aman" in the source.
- Numbers.ParseDecimal: reads the exact decimal value, where Python's `float()` rounds to the nearest double. The two differ near the rule's bounds. Python reads "24.99999999999999999" as 25.0. So after status "Aman", that distance gives "✅ Aman" in the source. The model reads a value below 25 and gives "👀 Aktivitas Dekat". Likewise "0." followed by 330 zeros and a "1" is 0.0 in Python, so the source does not call it nearby, but the model reads a positive value and does.
- Numbers.ParseDecimalFraction: states the exact decimal value, not the nearest double Python's `float()` returns. The two agree only when the decimal is a double, and they differ for payloads such as "24.99999999999999999" (25.0 in Python).
- Numbers.SignedFraction: states the exact decimal value with its sign, not the nearest double, for the same reason as `ParseDecimalFraction`.
- Numbers.DecimalExtendsInt: the "same value" holds for the exact reading only. Python's `float()` rounds integers beyond 2^53, so `float("9007199254740993") == 9007199254740992.0` while `int()` keeps the value.
- Timeline.DecodeFractionalDistance: stores the exact decimal value, where the source stores the nearest double. Near 25 cm this can change the label, as the `Numbers.ParseDecimal` line above shows.
- Numbers.ParseInt: does not accept digit-group underscores or non-ASCII digits, which Python's `int()` accepts. It also has no limit on length. From CPython 3.11 and the 2022 security releases (3.7.14, 3.8.14, 3.9.14, 3.10.7), `int()` raises `ValueError` on more than 4300 digits. At `dashboard.py:109-113` the bare `except` then drops a PIR message of 4301 '1's, so the PIR cell keeps its old value: a row with PIR 1 stays "👀 Gerakan Terdeteksi". The model accepts that payload, stores PIR 1111…, and the row becomes "✅ Aman". The limit depends on the Python version, which the source does not fix.
- Numbers.IntRoundTrip: holds for every integer in the model. In Python 3.11 and later it holds only up to 4300 digits, since beyond that `str(n)` and `int(s)` raise.
- Numbers.ParseDigitsOfNat: holds for every `n` in the model. In Python 3.11 and later `int()` reads back `str(n)` only up to 4300 digits.
- pandas mechanics: `concat`, `.loc` and `apply` become sequence operations. Column dtype changes, such as PIR stored as a float once NaN is present, do not affect the comparisons the rule makes.
- `web_server.py`, `predict_picture.py` and `predict_voice.py` are not part of this model. They are file I/O and floating-point classifiers.
