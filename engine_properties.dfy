/**
 * What the check-in state machine promises, stated over EngineModel:
 * presence and standby, the face-stability debounce, recognition, the marker
 * retry policy, the duplicate guard before the write, message holds, and the
 * invariant along any run of ticks.
 */
module EngineProperties {
  import opened Wrappers
  import opened FaceDetector
  import opened Recognition
  import opened EngineModel

  // ---------------------------------------------------------------- presence

  /** In standby the reply is always "idle"; the engine wakes exactly when both sensors read 10..45 cm. */
  lemma StandbyWakesOnPresence(s: Session, t: Tick, now: real, ultrasonicEnabled: bool)
    requires Inv(s) && s.state.Idle?
    ensures var tr := RunAttendanceCheck(s, t, now, ultrasonicEnabled);
      var present := CheckPresence(ultrasonicEnabled, t.distance1, t.distance2, PresenceMinDistance, PresenceDistance);
      && tr.reply == Reply(false, Tag("idle"), Annotated) && tr.markRequest.None?
      && (tr.next.state == WaitingForFace <==> present)
      && (!present ==> tr.next == s)
      && (present ==> tr.next.lastPresenceTime == Some(now) && tr.next.stateStartTime == now && tr.next.recognized.None?)
  {
  }

  /** More than idle_timeout seconds without presence outside standby and message display returns to standby, forgetting the student. */
  lemma AbsenceEntersStandby(s: Session, t: Tick, now: real, ultrasonicEnabled: bool)
    requires Inv(s) && !s.state.Idle? && !s.state.ShowsMessage()
    requires !CheckPresence(ultrasonicEnabled, t.distance1, t.distance2, PresenceMinDistance, PresenceDistance)
    requires s.lastPresenceTime.Some? && now - s.lastPresenceTime.value > IdleTimeout
    ensures var tr := RunAttendanceCheck(s, t, now, ultrasonicEnabled);
      && tr.next.state == Idle && tr.next.recognized.None? && tr.next.arucoRetryCount == 0
      && tr.next.lastPresenceTime.None? && !tr.next.displayingMessage
      && tr.reply == Reply(false, Tag("entering_idle"), Raw) && tr.markRequest.None?
  {
  }

  /** Standby is entered from an active state only by that timeout. */
  lemma StandbyOnlyAfterAbsence(s: Session, t: Tick, now: real, ultrasonicEnabled: bool)
    requires Inv(s) && !s.state.Idle?
    requires RunAttendanceCheck(s, t, now, ultrasonicEnabled).next.state.Idle?
    ensures !s.state.ShowsMessage()
    ensures !CheckPresence(ultrasonicEnabled, t.distance1, t.distance2, PresenceMinDistance, PresenceDistance)
    ensures s.lastPresenceTime.Some? && now - s.lastPresenceTime.value > IdleTimeout
    ensures RunAttendanceCheck(s, t, now, ultrasonicEnabled).reply.message == Tag("entering_idle")
  {
  }

  /** With presence confirmed outside standby and message display, the presence time is refreshed to now. */
  lemma PresenceRefreshes(s: Session, t: Tick, now: real, ultrasonicEnabled: bool)
    requires Inv(s) && !s.state.Idle? && !s.state.ShowsMessage()
    requires CheckPresence(ultrasonicEnabled, t.distance1, t.distance2, PresenceMinDistance, PresenceDistance)
    ensures RunAttendanceCheck(s, t, now, ultrasonicEnabled).next.lastPresenceTime == Some(now)
  {
  }

  // -------------------------------------------------------- message display

  /** SHOW_SUCCESS holds the frozen picture for under five seconds, whatever the sensors say, then starts over. */
  lemma SuccessHeldThenReset(s: Session, t: Tick, now: real, ultrasonicEnabled: bool)
    requires Inv(s) && s.state.ShowSuccess?
    ensures var tr := RunAttendanceCheck(s, t, now, ultrasonicEnabled);
      && (now - s.stateStartTime < MessageDisplayTime ==>
            tr == Transition(s, Reply(false, Tag("showing_success"), HeldMessage), None))
      && (now - s.stateStartTime >= MessageDisplayTime ==>
            && tr.next == FullReset(s, now)
            && tr.next.state == WaitingForFace && tr.next.recognized.None? && tr.next.arucoRetryCount == 0
            && !tr.next.displayingMessage && tr.reply == Reply(false, Tag("success_displayed"), Raw))
  {
  }

  /** SHOW_ERROR holds the frozen picture for under three seconds, whatever the sensors say, then starts over. */
  lemma ErrorHeldThenReset(s: Session, t: Tick, now: real, ultrasonicEnabled: bool)
    requires Inv(s) && s.state.ShowError?
    ensures var tr := RunAttendanceCheck(s, t, now, ultrasonicEnabled);
      && (now - s.stateStartTime < ErrorDisplayTime ==>
            tr == Transition(s, Reply(false, Tag("showing_error"), HeldMessage), None))
      && (now - s.stateStartTime >= ErrorDisplayTime ==>
            && tr.next == FullReset(s, now)
            && tr.next.state == WaitingForFace && tr.next.recognized.None? && tr.next.arucoRetryCount == 0
            && !tr.next.displayingMessage && tr.reply == Reply(false, Tag("error_displayed"), Raw))
  {
  }

  // ------------------------------------------------------ stability debounce

  /** WAITING_FOR_FACE always answers "waiting_for_stable_face", writes nothing, and moves at most to DETECTING_FACE. */
  lemma WaitingForFaceOutcome(s: Session, t: Tick, now: real, ultrasonicEnabled: bool)
    requires Inv(s) && s.state.WaitingForFace?
    ensures var tr := ProcessFrame(s, t, now, ultrasonicEnabled);
      && tr.reply == Reply(false, Tag("waiting_for_stable_face"), Annotated) && tr.markRequest.None?
      && (tr.next.state.WaitingForFace? || tr.next.state.DetectingFace?)
      && tr.next.recognized.None?
  {
  }

  /** No single face clears both stability fields. */
  lemma NoFaceClearsTracking(s: Session, t: Tick, now: real, ultrasonicEnabled: bool)
    requires Inv(s) && s.state.WaitingForFace?
    requires GetSingleFace(t.frame.faces, t.frame.width, t.frame.height).None?
    ensures ProcessFrame(s, t, now, ultrasonicEnabled).next == s.(faceStableStart := None, lastFacePosition := None)
  {
  }

  /** A first sighting, or a move of at least position_tolerance, restarts the timer and never transitions. */
  lemma MoveRestartsTimer(s: Session, t: Tick, now: real, ultrasonicEnabled: bool)
    requires Inv(s) && s.state.WaitingForFace?
    requires var face := GetSingleFace(t.frame.faces, t.frame.width, t.frame.height);
      face.Some? && (s.lastFacePosition.None? || Moved(face.value.bbox, s.lastFacePosition.value) >= PositionTolerance)
    ensures var tr := ProcessFrame(s, t, now, ultrasonicEnabled);
      && tr.next.state.WaitingForFace? && tr.next.faceStableStart.None?
      && tr.next.lastFacePosition == Some(GetSingleFace(t.frame.faces, t.frame.width, t.frame.height).value.bbox)
  {
  }

  /**
   * Recognition starts exactly when the single face is within position_tolerance
   * of the last one and has been held since a stability start more than 1.5 s
   * ago (the truncated countdown int(2.5 - elapsed) has reached zero).
   */
  lemma RecognitionStartsWhenSteady(s: Session, t: Tick, now: real, ultrasonicEnabled: bool)
    requires Inv(s) && s.state.WaitingForFace?
    ensures var tr := ProcessFrame(s, t, now, ultrasonicEnabled);
      var face := GetSingleFace(t.frame.faces, t.frame.width, t.frame.height);
      && (tr.next.state.DetectingFace? <==>
            && face.Some? && s.lastFacePosition.Some?
            && Moved(face.value.bbox, s.lastFacePosition.value) < PositionTolerance
            && s.faceStableStart.Some? && now - s.faceStableStart.value > 1.5)
      && (tr.next.state.DetectingFace? ==> tr.next.detectionStartTime == Some(now))
  {
    var face := GetSingleFace(t.frame.faces, t.frame.width, t.frame.height);
    if face.Some? && s.lastFacePosition.Some? && Moved(face.value.bbox, s.lastFacePosition.value) < PositionTolerance {
      var start := if s.faceStableStart.None? then now else s.faceStableStart.value;
      TruncPositive(FaceStabilityThreshold - (now - start));
    }
  }

  // ------------------------------------------------------------ recognition

  /** Recognition is consulted only when exactly one usable face is found: otherwise its answer changes nothing. */
  lemma RecognitionNeedsSingleFace(s: Session, t: Tick, other: Option<Match>, now: real, ultrasonicEnabled: bool)
    requires Inv(s) && s.state.DetectingFace?
    requires GetSingleFace(t.frame.faces, t.frame.width, t.frame.height).None?
    ensures ProcessFrame(s, t, now, ultrasonicEnabled) == ProcessFrame(s, t.(recognition := other), now, ultrasonicEnabled)
    ensures !ProcessFrame(s, t, now, ultrasonicEnabled).next.state.WaitingForAruco?
  {
  }

  /** A recognised single face stores the student and moves to WAITING_FOR_ARUCO with a fresh retry budget. */
  lemma RecognitionStoresStudent(s: Session, t: Tick, m: Match, now: real, ultrasonicEnabled: bool)
    requires Inv(s) && s.state.DetectingFace?
    requires GetSingleFace(t.frame.faces, t.frame.width, t.frame.height).Some? && t.recognition == Some(m)
    ensures var tr := ProcessFrame(s, t, now, ultrasonicEnabled);
      && tr.next == s.(recognized := Some(m), state := WaitingForAruco, stateStartTime := now,
                       detectionStartTime := None, arucoRetryCount := 0)
      && tr.reply == Reply(false, Tag("face_recognized"), Annotated)
  {
  }

  /** Without a recognised single face, DETECTING_FACE waits out face_wait_time and then resets fully. */
  lemma FaceWindowThenReset(s: Session, t: Tick, now: real, ultrasonicEnabled: bool)
    requires Inv(s) && s.state.DetectingFace?
    requires GetSingleFace(t.frame.faces, t.frame.width, t.frame.height).None? || t.recognition.None?
    ensures var tr := ProcessFrame(s, t, now, ultrasonicEnabled);
      && (now - s.detectionStartTime.value <= FaceWaitTime ==> tr.next == s)
      && (now - s.detectionStartTime.value > FaceWaitTime ==>
            && tr.next == FullReset(s, now)
            && tr.next.state.WaitingForFace? && tr.next.recognized.None? && tr.next.arucoRetryCount == 0
            && tr.next.faceStableStart.None? && tr.next.lastFacePosition.None?)
      && !tr.reply.success && tr.markRequest.None?
  {
  }

  // ---------------------------------------------------------------- markers

  /** The instruction countdown int(5 - elapsed) ends once more than four seconds have passed. */
  lemma MarkerPromptCountdown(s: Session, t: Tick, now: real, ultrasonicEnabled: bool)
    requires Inv(s) && s.state.WaitingForAruco?
    ensures var tr := ProcessFrame(s, t, now, ultrasonicEnabled);
      && (tr.next.state.DetectingAruco? <==> now - s.stateStartTime > 4.0)
      && (now - s.stateStartTime > 4.0 ==> tr.next == s.(state := DetectingAruco, detectionStartTime := Some(now)))
      && (now - s.stateStartTime <= 4.0 ==> tr.next == s)
  {
    TruncPositive(ArucoWaitTime - (now - s.stateStartTime));
  }

  /**
   * `mark_attendance` is asked for only in DETECTING_ARUCO, only for exactly one
   * marker equal to the student's, only when not already marked today, and only
   * for the recognised student; the reply reports success only for a write that succeeded.
   */
  lemma WriteOnlyOnExactMarker(s: Session, t: Tick, now: real, ultrasonicEnabled: bool)
    requires Inv(s)
    ensures var tr := RunAttendanceCheck(s, t, now, ultrasonicEnabled);
      && (tr.markRequest.Some? ==>
            && s.state.DetectingAruco? && t.frame.markers == [s.recognized.value.arucoId]
            && !t.alreadyMarked && tr.markRequest.value == s.recognized.value.studentId)
      && (tr.reply.success <==> tr.markRequest.Some? && t.commitOk)
      && (tr.reply.success ==> tr.next.state.ShowSuccess?)
  {
  }

  /** One marker equal to the student's, not yet marked: the write is asked for; its outcome decides success or "database_error". */
  lemma ExactMarkerWrites(s: Session, t: Tick, now: real, ultrasonicEnabled: bool)
    requires Inv(s) && s.state.DetectingAruco?
    requires t.frame.markers == [s.recognized.value.arucoId] && !t.alreadyMarked
    ensures var tr := ProcessFrame(s, t, now, ultrasonicEnabled);
      && tr.markRequest == Some(s.recognized.value.studentId)
      && tr.next.recognized == s.recognized && tr.next.displayingMessage
      && (t.commitOk ==>
            && tr.next.state.ShowSuccess?
            && tr.reply == Reply(true, StudentInfo(s.recognized.value.name, s.recognized.value.arucoId), Annotated))
      && (!t.commitOk ==> tr.next.state.ShowError? && tr.reply == Reply(false, Tag("database_error"), Annotated))
  {
  }

  /** Already marked today: no write, no error screen, straight to a full reset. */
  lemma AlreadyMarkedResets(s: Session, t: Tick, now: real, ultrasonicEnabled: bool)
    requires Inv(s) && s.state.DetectingAruco?
    requires t.frame.markers == [s.recognized.value.arucoId] && t.alreadyMarked
    ensures var tr := ProcessFrame(s, t, now, ultrasonicEnabled);
      && tr.markRequest.None? && tr.next == FullReset(s, now)
      && tr.next.state.WaitingForFace? && tr.next.recognized.None?
      && tr.reply == Reply(false, Tag("already_marked"), Annotated)
  {
  }

  /** Zero or several markers never lead to a write or to SHOW_SUCCESS. */
  lemma AmbiguousMarkersNeverCommit(s: Session, t: Tick, now: real, ultrasonicEnabled: bool)
    requires Inv(s) && s.state.DetectingAruco? && |t.frame.markers| != 1
    ensures var tr := ProcessFrame(s, t, now, ultrasonicEnabled);
      tr.markRequest.None? && !tr.reply.success && !tr.next.state.ShowSuccess?
  {
  }

  /** The retry count rises only on a marker timeout in DETECTING_ARUCO, and by one. */
  lemma RetryRisesOnlyOnMarkerTimeout(s: Session, t: Tick, now: real, ultrasonicEnabled: bool)
    requires Inv(s)
    requires RunAttendanceCheck(s, t, now, ultrasonicEnabled).next.arucoRetryCount > s.arucoRetryCount
    ensures s.state.DetectingAruco? && now - s.detectionStartTime.value > ArucoWaitTime
    ensures t.frame.markers != [s.recognized.value.arucoId]
    ensures RunAttendanceCheck(s, t, now, ultrasonicEnabled).next.arucoRetryCount == s.arucoRetryCount + 1
  {
  }

  /** A marker timeout with retries left goes back to WAITING_FOR_ARUCO, keeping the student. */
  lemma MarkerTimeoutRetries(s: Session, t: Tick, now: real, ultrasonicEnabled: bool)
    requires Inv(s) && s.state.DetectingAruco? && s.arucoRetryCount + 1 < MaxArucoRetries
    requires t.frame.markers != [s.recognized.value.arucoId] && now - s.detectionStartTime.value > ArucoWaitTime
    ensures var tr := ProcessFrame(s, t, now, ultrasonicEnabled);
      && tr.next == PartialReset(s.(arucoRetryCount := s.arucoRetryCount + 1), now)
      && tr.next.recognized == s.recognized && tr.markRequest.None?
  {
  }

  /** The last mismatch timeout resets fully, skipping the error screen. */
  lemma MismatchExhaustionResets(s: Session, t: Tick, now: real, ultrasonicEnabled: bool)
    requires Inv(s) && s.state.DetectingAruco? && s.arucoRetryCount == MaxArucoRetries - 1
    requires |t.frame.markers| == 1 && t.frame.markers[0] != s.recognized.value.arucoId
    requires now - s.detectionStartTime.value > ArucoWaitTime
    ensures var tr := ProcessFrame(s, t, now, ultrasonicEnabled);
      && tr.next == FullReset(s, now)
      && tr.next.state.WaitingForFace? && tr.next.recognized.None? && tr.next.arucoRetryCount == 0
      && tr.reply == Reply(false, Tag("mismatch"), Annotated)
  {
  }

  /** The last no-marker timeout shows "aruco_timeout" on SHOW_ERROR, keeping the student until the display ends. */
  lemma MissingMarkerExhaustionShowsError(s: Session, t: Tick, now: real, ultrasonicEnabled: bool)
    requires Inv(s) && s.state.DetectingAruco? && s.arucoRetryCount == MaxArucoRetries - 1
    requires |t.frame.markers| != 1 && now - s.detectionStartTime.value > ArucoWaitTime
    ensures var tr := ProcessFrame(s, t, now, ultrasonicEnabled);
      && tr.next.state.ShowError? && tr.next.recognized == s.recognized
      && tr.next.arucoRetryCount == MaxArucoRetries && tr.next.displayingMessage
      && tr.reply == Reply(false, Tag("aruco_timeout"), Annotated)
  {
  }

  // ------------------------------------------------------------------- runs

  /** The outcome of feeding ticks (each with its clock reading) to `run_attendance_check` in turn. */
  datatype Trace = Trace(final: Session, replies: seq<Reply>, writes: seq<int>)

  function WritesOf(m: Option<int>): seq<int> {
    if m.Some? then [m.value] else []
  }

  /** A run of ticks keeps the invariant, so 0 <= retries <= 3 and the student is held exactly in the four marker and message states throughout. */
  function Run(s: Session, ticks: seq<(Tick, real)>, ultrasonicEnabled: bool): (r: Trace)
    requires Inv(s)
    ensures Inv(r.final) && |r.replies| == |ticks| && |r.writes| <= |ticks|
    ensures 0 <= r.final.arucoRetryCount <= MaxArucoRetries
    ensures r.final.recognized.Some? <==> r.final.state.HoldsStudent()
    decreases |ticks|
  {
    if ticks == [] then Trace(s, [], [])
    else
      var tr := RunAttendanceCheck(s, ticks[0].0, ticks[0].1, ultrasonicEnabled);
      RunAttendanceCheckInv(s, ticks[0].0, ticks[0].1, ultrasonicEnabled);
      var rest := Run(tr.next, ticks[1..], ultrasonicEnabled);
      Trace(rest.final, [tr.reply] + rest.replies, WritesOf(tr.markRequest) + rest.writes)
  }

  /** The marker writes of a sequence of ticks, in order. */
  function Flatten(marks: seq<Option<int>>): seq<int> {
    if marks == [] then [] else WritesOf(marks[0]) + Flatten(marks[1..])
  }

  /** Each tick takes session i to session i + 1 with reply i and write request i. */
  predicate Follows(ss: seq<Session>, ticks: seq<(Tick, real)>, replies: seq<Reply>, marks: seq<Option<int>>,
                    ultrasonicEnabled: bool)
  {
    && |ss| == |ticks| + 1 && |replies| == |ticks| && |marks| == |ticks|
    && (forall i :: 0 <= i < |ss| ==> Inv(ss[i]))
    && forall i :: 0 <= i < |ticks| ==>
         RunAttendanceCheck(ss[i], ticks[i].0, ticks[i].1, ultrasonicEnabled) == Transition(ss[i + 1], replies[i], marks[i])
  }

  /** A run is determined step by step: if every tick is accounted for, so is the whole run. */
  lemma {:induction false} RunFollows(ss: seq<Session>, ticks: seq<(Tick, real)>, replies: seq<Reply>,
                                      marks: seq<Option<int>>, ultrasonicEnabled: bool)
    requires Follows(ss, ticks, replies, marks, ultrasonicEnabled)
    ensures Run(ss[0], ticks, ultrasonicEnabled) == Trace(ss[|ticks|], replies, Flatten(marks))
  {
    if ticks != [] {
      assert Follows(ss[1..], ticks[1..], replies[1..], marks[1..], ultrasonicEnabled) by {
        forall i | 0 <= i < |ticks| - 1
          ensures RunAttendanceCheck(ss[1..][i], ticks[1..][i].0, ticks[1..][i].1, ultrasonicEnabled)
                  == Transition(ss[1..][i + 1], replies[1..][i], marks[1..][i])
        {
          assert ss[1..][i] == ss[i + 1] && ss[1..][i + 1] == ss[i + 2] && ticks[1..][i] == ticks[i + 1];
        }
      }
      RunFollows(ss[1..], ticks[1..], replies[1..], marks[1..], ultrasonicEnabled);
      assert replies == [replies[0]] + replies[1..];
    }
  }

  /**
   * The check-in of one student end to end, tick by tick: presence wakes the
   * engine; the face is seen, held still and recognised (marker 7, similarity
   * 0.8); after the instruction countdown the single marker 7 is shown, the
   * store has no record and the write succeeds; after five seconds of success
   * display the engine waits for the next face.
   */
  function HappyTicks(): seq<(Tick, real)> {
    var frame := Frame(640, 480, [HappyFace()], []);
    var near := Some(30.0);
    [(Tick(frame.(faces := []), near, near, None, false, true), 1.0),
     (Tick(frame, near, near, None, false, true), 2.0),
     (Tick(frame, near, near, None, false, true), 3.0),
     (Tick(frame, near, near, None, false, true), 5.0),
     (Tick(frame, near, near, Some(HappyStudent()), false, true), 5.5),
     (Tick(frame, near, near, None, false, true), 10.5),
     (Tick(frame.(markers := [7]), near, near, None, false, true), 11.0),
     (Tick(frame, near, near, None, false, true), 16.0)]
  }

  function HappyFace(): BBox { BBox(200, 150, 160, 160) }
  function HappyStudent(): Match { Match(1, "Ana", 7, 0.8) }

  /** The sessions the happy path passes through. */
  function HappySessions(): seq<Session> {
    var f, ana := Some(HappyFace()), Some(HappyStudent());
    [Initial(0.0),
     Session(WaitingForFace, None, 0, None, None, 1.0, None, Some(1.0), false),
     Session(WaitingForFace, None, 0, None, f, 1.0, None, Some(2.0), false),
     Session(WaitingForFace, None, 0, Some(3.0), f, 1.0, None, Some(3.0), false),
     Session(DetectingFace, None, 0, Some(3.0), f, 1.0, Some(5.0), Some(5.0), false),
     Session(WaitingForAruco, ana, 0, Some(3.0), f, 5.5, None, Some(5.5), false),
     Session(DetectingAruco, ana, 0, Some(3.0), f, 5.5, Some(10.5), Some(10.5), false),
     Session(ShowSuccess, ana, 0, Some(3.0), f, 11.0, Some(10.5), Some(11.0), true),
     Session(WaitingForFace, None, 0, None, None, 16.0, None, Some(11.0), false)]
  }

  function HappyReplies(): seq<Reply> {
    [Reply(false, Tag("idle"), Annotated),
     Reply(false, Tag("waiting_for_stable_face"), Annotated),
     Reply(false, Tag("waiting_for_stable_face"), Annotated),
     Reply(false, Tag("waiting_for_stable_face"), Annotated),
     Reply(false, Tag("face_recognized"), Annotated),
     Reply(false, Tag("start_detecting_aruco"), Annotated),
     Reply(true, StudentInfo("Ana", 7), Annotated),
     Reply(false, Tag("success_displayed"), Raw)]
  }

  function HappyMarks(): seq<Option<int>> {
    [None, None, None, None, None, None, Some(1), None]
  }

  /** Each tick of the happy path, one at a time. */
  lemma HappySteps(i: nat)
    requires i < 8
    ensures Inv(HappySessions()[i])
    ensures RunAttendanceCheck(HappySessions()[i], HappyTicks()[i].0, HappyTicks()[i].1, true)
            == Transition(HappySessions()[i + 1], HappyReplies()[i], HappyMarks()[i])
  {
    var ss, ticks := HappySessions(), HappyTicks();
    if i == 2 {
      assert Trunc(2.5) == 2;
    } else if i == 3 {
      assert Trunc(0.5) == 0;
    } else if i == 5 {
      assert Trunc(0.0) == 0;
    }
  }

  /** The whole happy path as one run: one write, for student 1, and back to waiting for a face. */
  lemma HappyPath()
    ensures var r := Run(Initial(0.0), HappyTicks(), true);
      && r.writes == [1]
      && r.replies == HappyReplies()
      && r.replies[6] == Reply(true, StudentInfo("Ana", 7), Annotated)
      && r.final.state.WaitingForFace? && r.final.recognized.None?
  {
    var ss, ticks := HappySessions(), HappyTicks();
    forall i | 0 <= i < 8
      ensures Inv(ss[i])
      ensures RunAttendanceCheck(ss[i], ticks[i].0, ticks[i].1, true) == Transition(ss[i + 1], HappyReplies()[i], HappyMarks()[i])
    {
      HappySteps(i);
    }
    assert Inv(ss[8]);
    assert Follows(ss, ticks, HappyReplies(), HappyMarks(), true);
    RunFollows(ss, ticks, HappyReplies(), HappyMarks(), true);
    assert Flatten(HappyMarks()) == [1] by {
      var m := HappyMarks();
      assert m[1..][1..][1..][1..][1..][1..] == [Some(1), None];
    }
  }
}
