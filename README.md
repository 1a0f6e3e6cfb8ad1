# Verified model of the two-factor attendance check-in engine

This project models the check-in engine of a face-plus-marker attendance system. A student stands in front of a camera and two ultrasonic range sensors. The engine wakes from standby when both sensors see someone between 10 and 45 cm. It waits until exactly one face has held still. It recognises that face against the roster. It then asks for the student's ArUco marker. When exactly one marker is seen and it is the recognised student's, the engine checks that the student has no attendance record for today and writes one.

The model has these parts, one Dafny module each:

- `Ultrasonic`: the inclusive range test of one sensor reading.
- `FaceDetector`: the exactly-one-face rule, the 20-pixel margin crop clamped to the frame, and the 80-pixel minimum size.
- `Recognition`: the best-match scan over the roster, with a similarity threshold. The earliest of equal scores wins.
- `Ledger`: the `students` and `attendance` tables as an object whose fields are sequences of rows. The UNIQUE constraints are its invariant.
- `EngineModel`: the seven-state machine as functions from a `Session` (the engine's fields) and a `Tick` (one frame's inputs) to the next session, the reply and the write request.
- `Engine`: the class `AttendanceEngine`. Its methods update its fields in place, branch for branch as in the source. Each method is proved to produce exactly the session computed by `EngineModel`. `ProcessFrame` and `RunAttendanceCheck` also keep the invariant `EngineModel.Inv`. The helper methods are proved to compute exactly the matching `EngineModel` step.
- `EngineProperties`: lemmas about the state machine, runs over sequences of ticks, and a complete check-in scenario.

Timing follows the code literally. A countdown written `int(t - elapsed) > 0` truncates toward zero. So the face-stability wait ends once more than 1.5 s have passed, not 2.5 s. The marker instruction wait ends after more than 4 s, not 5 s. Both are proved as stated (`RecognitionStartsWhenSteady`, `MarkerPromptCountdown`). Every other timeout uses a strict `>`, and the message holds use `<`.

## Model

| member | source | states |
|---|---|---|
| `Ultrasonic.CheckPresence` | hardware/ultrasonic.py:108-115 | A failed reading (None) is never presence. Otherwise presence holds iff min <= distance <= max. |
| `Ultrasonic.BoundsInclusive` | hardware/ultrasonic.py:113 | Both ends of a non-empty range count as present. |
| `Ultrasonic.EmptyRangeNeverPresent` | hardware/ultrasonic.py:113 | When min > max, no reading is ever present. |
| `Ultrasonic.WideningKeepsPresence` | hardware/ultrasonic.py:113 | Widening the range never turns presence into absence. |
| `Ultrasonic.DefaultRange` | hardware/ultrasonic.py:97 | The default range is [30, 100] cm, inclusive. |
| `FaceDetector.MarginCrop` | ai/face_detector.py:73-78 | The margin crop stays inside the frame: 0 <= x1, x2 <= W, 0 <= y1, y2 <= H. A box inside the frame is contained in its crop. |
| `FaceDetector.GetSingleFace` | ai/face_detector.py:65-87 | The result is None unless exactly one box is detected. An accepted face returns the detector's own box. Its crop is the clamped margin crop, at least 80 x 80 and inside the frame. A crop under 80 in either direction is rejected. |
| `FaceDetector.SingleFaceAccepted` | ai/face_detector.py:65-87 | One in-frame box whose crop is large enough is accepted, and its crop contains it. |
| `Recognition.CompareEmbeddings` | ai/face_recognition.py:55-75 | Returns the pair's similarity. The match flag is true iff that similarity >= threshold. |
| `Recognition.RecognizeFace` | ai/face_recognition.py:77-111 | No embedding gives no match. A match is some roster entry's (id, name, aruco_id) with its own similarity. That similarity is >= threshold and > 0. It is >= every matching entry's similarity and > every earlier matching entry's (first wins ties). No match means no entry reaches both the threshold and 0. |
| `Ledger.Recorded` | database/db_manager.py:225-233 | The scan is true iff some row has this student id and date. |
| `Ledger.FirstWithAruco` | database/db_manager.py:160-173 | Returns a row holding the marker, or None exactly when no row holds it. |
| `Ledger.FirstWithId` | database/db_manager.py:132-145 | Returns a row with the id, or None exactly when no row has it. |
| `Ledger.JoinedIndices` | database/db_manager.py:248-252 | Lists, in strictly increasing table order, only positions of records dated that day whose student exists. |
| `Ledger.JoinedIndicesComplete` | database/db_manager.py:248-252 | Every record dated that day whose student exists has its position listed. |
| `Ledger.JoinDay` | database/db_manager.py:248-252 | The inner join: one report row per joined record, in table order. Row k is the k-th joined record's (student name, time, status). |
| `Ledger.JoinDayComplete` | database/db_manager.py:248-252 | The join is complete: every record dated that day whose student exists gives its report row. |
| `Ledger.InsertByTime` | database/db_manager.py:253 | Inserting into a time-ordered list keeps it ordered. The multiset gains exactly the new entry. |
| `Ledger.SortByTime` | database/db_manager.py:253 | The result is ordered by time and is a permutation of the input. |
| `Ledger.DatabaseManager.constructor` | database/db_manager.py:25-57 | On a new database file, the tables are created empty, the next id is 1, and the constraints hold. |
| `Ledger.DatabaseManager.AddStudent` | database/db_manager.py:59-94 | A marker already in use, or a store failure, gives None and changes nothing. Otherwise one row is appended. Its id is the next AUTOINCREMENT id, above every existing id, and the count rises by one. The constraints are kept. |
| `Ledger.DatabaseManager.GetAllStudents` | database/db_manager.py:96-117 | Returns every roster row, in table order. |
| `Ledger.DatabaseManager.GetStudentById` | database/db_manager.py:119-145 | Returns the unique row with that id, or None when there is none. |
| `Ledger.DatabaseManager.GetStudentByAruco` | database/db_manager.py:147-173 | Returns the unique student holding the marker, or None when nobody holds it. |
| `Ledger.DatabaseManager.MarkAttendance` | database/db_manager.py:175-208 | Succeeds iff the store does not fail and (student, date) is not yet recorded. On success it appends exactly (student, date, time, status), status defaulting to "Present", and the student then reads as marked. On failure the table is unchanged. At most one record per (student, date) is kept. |
| `Ledger.DatabaseManager.CheckAttendanceToday` | database/db_manager.py:210-233 | True iff a record (student, today) exists. |
| `Ledger.DatabaseManager.GetAttendanceByDate` | database/db_manager.py:235-259 | Returns the report rows ordered by time. Every record of that date whose student exists is reported, and nothing else is. There is exactly one row per such record: a permutation of the join. It requires the table constraints, under which student ids are unique, so a record joins at most one student. |
| `Ledger.DatabaseManager.GetStudentCount` | database/db_manager.py:261-275 | Equals the number of roster rows. |
| `EngineModel.TruncPositive` | attendance_engine.py:173-178 | A truncated countdown `int(x)` is positive iff x >= 1. |
| `EngineModel.CheckPresence` | attendance_engine.py:79-98 | With sensing disabled, presence is assumed. Otherwise both sensors must read inside the range (AND). |
| `EngineModel.InitialInv` | attendance_engine.py:49-73 | The engine starts in IDLE with no student, and the invariant holds. |
| `EngineModel.FullResetInv` | attendance_engine.py:101-121 | A full reset yields WAITING_FOR_FACE with no student and restores the invariant from any session. |
| `EngineModel.ProcessFrameInv` | attendance_engine.py:123-436 | `process_frame` keeps the invariant. The retry count stays in 0..3 and is 0 before recognition and < 3 while seeking a marker. The student is held exactly in the two marker states and the two message states. `displaying_message` is set exactly in the two message states. The detection timer is set in the two detecting states. |
| `EngineModel.RunAttendanceCheckInv` | attendance_engine.py:438-489 | `run_attendance_check` keeps the same invariant. |
| `Engine.AttendanceEngine.constructor` | attendance_engine.py:22-73 | Starts in IDLE with every tracking field cleared and the retry count 0. |
| `Engine.AttendanceEngine.ResetState` | attendance_engine.py:101-121 | A full reset sets WAITING_FOR_FACE and clears the student, the retry count, the message flag and both stability fields. A partial reset sets WAITING_FOR_ARUCO and keeps the student and the retry count. Both restart the state timer, clear the detection timer and leave the presence time alone. |
| `Engine.AttendanceEngine.ProcessFrame` | attendance_engine.py:123-436 | The new fields, the reply and the write request are exactly `EngineModel.ProcessFrame` of the old fields. The invariant is kept. |
| `Engine.AttendanceEngine.WaitForStableFace` | attendance_engine.py:153-215 | Updates the stability fields and the state as `EngineModel.WaitingForFaceStep` does. |
| `Engine.AttendanceEngine.DetectFace` | attendance_engine.py:217-280 | Updates the fields and the message as `EngineModel.DetectingFaceStep` does. |
| `Engine.AttendanceEngine.DetectAruco` | attendance_engine.py:308-408 | Updates the fields and gives the success flag, message and write request as `EngineModel.DetectingArucoStep` does. |
| `Engine.AttendanceEngine.ShowMessage` | attendance_engine.py:410-434 | Within the hold time nothing changes and the frozen picture is returned. After it, a full reset and the raw frame. |
| `Engine.AttendanceEngine.RunAttendanceCheck` | attendance_engine.py:438-489 | The new fields, the reply and the write request are exactly `EngineModel.RunAttendanceCheck` of the old fields. The invariant is kept. |
| `EngineProperties.StandbyWakesOnPresence` | attendance_engine.py:137-151 | IDLE always replies "idle". It moves to WAITING_FOR_FACE iff `check_presence(10, 45)` holds, and then stamps the presence time. Otherwise nothing changes. |
| `EngineProperties.AbsenceEntersStandby` | attendance_engine.py:469-487 | No presence for more than 10 s outside IDLE and message display returns to IDLE. The student, the retry count and the presence time are cleared, and the reply is "entering_idle". |
| `EngineProperties.StandbyOnlyAfterAbsence` | attendance_engine.py:469-487 | An active engine reaches IDLE only through that timeout. |
| `EngineProperties.PresenceRefreshes` | attendance_engine.py:470-475 | Presence outside IDLE and message display sets the presence time to now. |
| `EngineProperties.SuccessHeldThenReset` | attendance_engine.py:451-459 | SHOW_SUCCESS returns the frozen picture unchanged while under 5 s, before any presence check. After that it gives exactly the fully reset session and "success_displayed". That session is WAITING_FOR_FACE with no student, retry count 0, no message flag, both stability fields and the detection timer cleared, and the state timer restarted. |
| `EngineProperties.ErrorHeldThenReset` | attendance_engine.py:460-467 | SHOW_ERROR returns the frozen picture unchanged while under 3 s. After that it gives exactly the fully reset session and "error_displayed". |
| `EngineProperties.WaitingForFaceOutcome` | attendance_engine.py:154-215 | WAITING_FOR_FACE always replies "waiting_for_stable_face", never writes, and moves at most to DETECTING_FACE. |
| `EngineProperties.NoFaceClearsTracking` | attendance_engine.py:206-209 | No single face clears both stability fields and changes nothing else. |
| `EngineProperties.MoveRestartsTimer` | attendance_engine.py:191-205 | A first sighting, or a move of L1 distance >= 30, clears the stability start and records the new box without a transition. |
| `EngineProperties.RecognitionStartsWhenSteady` | attendance_engine.py:162-190 | DETECTING_FACE is entered iff the single face is within 30 of the last one and a stability start more than 1.5 s old exists. The detection timer is then set to now. |
| `EngineProperties.RecognitionNeedsSingleFace` | attendance_engine.py:224-280 | Without a single usable face, the recognizer's answer changes nothing, and WAITING_FOR_ARUCO is not entered. |
| `EngineProperties.RecognitionStoresStudent` | attendance_engine.py:249-264 | A recognised face stores the student and enters WAITING_FOR_ARUCO. It clears the detection timer and sets the retry count to 0. |
| `EngineProperties.FaceWindowThenReset` | attendance_engine.py:240-280 | Without a recognised face, nothing changes within 5 s. After more than 5 s it gives exactly the fully reset session. That clears the stability fields set in DETECTING_FACE, so the next face must be steady again. |
| `EngineProperties.MarkerPromptCountdown` | attendance_engine.py:283-306 | WAITING_FOR_ARUCO moves to DETECTING_ARUCO iff more than 4 s have passed since the state started. Otherwise nothing changes. |
| `EngineProperties.WriteOnlyOnExactMarker` | attendance_engine.py:326-378 | On any tick, a write is asked for only in DETECTING_ARUCO, only when the markers are exactly [expected id], only when not already marked, and only for the held student. Success is reported iff that write succeeded, and then the state is SHOW_SUCCESS. |
| `EngineProperties.ExactMarkerWrites` | attendance_engine.py:356-378 | The exact marker when not already marked always asks for the write. Its outcome gives SHOW_SUCCESS with (name, marker) or SHOW_ERROR with "database_error". |
| `EngineProperties.AlreadyMarkedResets` | attendance_engine.py:348-354 | Already marked today: no write and exactly the fully reset session (WAITING_FOR_FACE) with "already_marked". There is no error screen. |
| `EngineProperties.AmbiguousMarkersNeverCommit` | attendance_engine.py:379-408 | Zero or several markers never write, never succeed and never reach SHOW_SUCCESS. |
| `EngineProperties.RetryRisesOnlyOnMarkerTimeout` | attendance_engine.py:337-406 | The retry count rises only in DETECTING_ARUCO after more than 5 s without the exact marker, and then by one. |
| `EngineProperties.MarkerTimeoutRetries` | attendance_engine.py:337-406 | A timeout with retries left is a partial reset that keeps the student. |
| `EngineProperties.MismatchExhaustionResets` | attendance_engine.py:337-346 | The third mismatch timeout gives exactly the fully reset session (WAITING_FOR_FACE, retry count 0) with "mismatch". There is no error screen. |
| `EngineProperties.MissingMarkerExhaustionShowsError` | attendance_engine.py:388-402 | The third no-marker timeout enters SHOW_ERROR with "aruco_timeout". It keeps the student and sets the retry count to 3. |
| `EngineProperties.Run` | attendance_engine.py:438-489 | Over any sequence of ticks, the invariant holds at the end: retries in 0..3, and the student is held exactly in the marker and message states. |
| `EngineProperties.RunFollows` | attendance_engine.py:438-489 | A run whose every tick moves session i to session i + 1 ends in the last session, with those replies and writes. |
| `EngineProperties.HappySteps` | attendance_engine.py:137-434 | Each tick of a complete check-in moves to the expected session and reply. |
| `EngineProperties.HappyPath` | attendance_engine.py:137-434 | A complete check-in writes exactly once, for the recognised student. It replies (True, (name, marker)) on the commit tick and ends in WAITING_FOR_FACE with no student. |

## Left out

- Drawing is not modelled: `cv2.putText`, rectangles, frame copies and marker overlays. A reply says which picture is returned (the annotated copy, the frozen message picture or the raw frame), not its pixels. The `display_message_frame` field is therefore not kept.
- Clock reads and sleeps are not modelled. Each tick gets one `now`, which stands for every `time.time()` read in that tick, including the one inside `reset_state`. The `time.sleep(2)` on the already-marked path is dropped. The state timer it shifts is not read again before it is reset.
- Face detection, embedding generation, preprocessing, quality checks and cosine similarity are not modelled (Haar cascade, DeepFace, numpy). The detector's boxes are inputs. The query embedding is an Option (None when it could not be generated). The similarity is an arbitrary function parameter. Float scores and times are exact reals.
- The engine does not run the recognizer itself. Each tick carries the recognizer's answer for that frame, which the engine reads only when a single face was found. So the roster the engine loads at start-up (`students_db`) is not part of the engine model.
- Marker detection (ai/aruco_detector.py) is not modelled. Each frame carries the list of marker ids it holds.
- The engine does not call the ledger directly. Each tick carries the store's answers: already marked today, and whether the insert succeeded. The engine reports the student id it would pass to `mark_attendance`. `Ledger.DatabaseManager.MarkAttendance` models what the store does with it.
- Sensor timing is not modelled: `measure_distance` is GPIO echo timing, or a random value in PC mode. Each tick carries the two readings. `ULTRASONIC_ENABLED` is a constructor parameter, because the configuration file does not define it.
- SQL text, pickle serialisation, file and directory creation, and `datetime.now()` are not modelled. Dates and times are passed in. A time of day is seconds since midnight, which orders like the zero-padded "%H:%M:%S" text.
- Store failures other than constraint violations are a `storeFault` flag on each write. Foreign keys are not enforced, as in SQLite by default, so attendance can be marked for an unknown id. The date report's inner join then drops that record.
- `Ledger.SortByTime`: SQL leaves the order of equal times open. The model fixes one order, but its contract promises only "ordered by time, same entries".
- The unused `detected_aruco_id` field is not modelled. The "unknown_state" reply cannot occur, because the seven states form a closed type.
- The hardware drivers (camera, LCD, buzzer), the Flask dashboard, the enrolment and management scripts, and the main loop are not modelled. This includes the main loop's own `check_presence()` gate at 30-100 cm.
