/**
 * The check-in state machine of attendance_engine.py as functions on values.
 * A `Session` holds the fields `AttendanceEngine` updates tick by tick; a
 * `Tick` holds what the collaborators report for one camera frame. Each
 * function returns the next session, the reply (success flag, message, which
 * picture is shown) and the student id passed to `mark_attendance`, if any.
 * The class in engine.dfy is proved to update its fields exactly as these say.
 */
module EngineModel {
  import opened Wrappers
  import opened FaceDetector
  import opened Recognition
  import Ultrasonic

  datatype State =
    | Idle | WaitingForFace | DetectingFace | WaitingForAruco | DetectingAruco | ShowSuccess | ShowError
  {
    /** The states in which a recognised student is held. */
    predicate HoldsStudent() { WaitingForAruco? || DetectingAruco? || ShowSuccess? || ShowError? }
    /** The states that freeze a success or error message on screen. */
    predicate ShowsMessage() { ShowSuccess? || ShowError? }
    /** The states timed from `detection_start_time`. */
    predicate Detecting() { DetectingFace? || DetectingAruco? }
    /** The states that wait for the student's marker. */
    predicate SeekingMarker() { WaitingForAruco? || DetectingAruco? }
  }

  /** The engine's mutable fields. */
  datatype Session = Session(
    state: State,
    recognized: Option<Match>,
    arucoRetryCount: int,
    faceStableStart: Option<real>,
    lastFacePosition: Option<BBox>,
    stateStartTime: real,
    detectionStartTime: Option<real>,
    lastPresenceTime: Option<real>,
    displayingMessage: bool)

  /** What the face detector and the marker detector find in one camera frame. */
  datatype Frame = Frame(width: nat, height: nat, faces: seq<BBox>, markers: seq<int>)

  /**
   * One tick's inputs: the frame, the two range readings, what the recogniser
   * returns for the face, and the store's answers to "already marked today?"
   * and "did the insert succeed?" (each consulted only on the path that asks).
   */
  datatype Tick = Tick(frame: Frame, distance1: Option<real>, distance2: Option<real>,
                       recognition: Option<Match>, alreadyMarked: bool, commitOk: bool)

  /** The second element of the reply: an outcome tag, or (name, marker id) after a commit. */
  datatype Message = Tag(text: string) | StudentInfo(name: string, arucoId: int)

  /** Which picture is returned: the annotated copy, the frozen message, or the raw frame. */
  datatype Shown = Annotated | HeldMessage | Raw

  datatype Reply = Reply(success: bool, message: Message, shown: Shown)

  datatype Transition = Transition(next: Session, reply: Reply, markRequest: Option<int>)

  const PresenceMinDistance: real := 10.0
  const PresenceDistance: real := 45.0
  const IdleTimeout: real := 10.0
  const FaceWaitTime: real := 5.0
  const ArucoWaitTime: real := 5.0
  const MessageDisplayTime: real := 5.0
  const ErrorDisplayTime: real := 3.0
  const FaceStabilityThreshold: real := 2.5
  const PositionTolerance: int := 30
  const MaxArucoRetries: int := 3

  /** Python's `int()` of a float: truncation toward zero. */
  function Trunc(x: real): int {
    if x >= 0.0 then x.Floor else -((-x).Floor)
  }

  /** A truncated countdown is positive exactly when at least one whole unit is left. */
  lemma TruncPositive(x: real)
    ensures Trunc(x) > 0 <==> x >= 1.0
  {
  }

  function Abs(n: int): nat { if n < 0 then -n else n }

  /** Manhattan distance between the top-left corners of two boxes. */
  function Moved(a: BBox, b: BBox): nat {
    Abs(a.x - b.x) + Abs(a.y - b.y)
  }

  /**
   * `AttendanceEngine.check_presence`: presence is assumed when the sensors are
   * disabled; otherwise both sensors must see the subject in range.
   */
  function CheckPresence(ultrasonicEnabled: bool, distance1: Option<real>, distance2: Option<real>,
                         minDistance: real := Ultrasonic.DefaultMinDistance,
                         maxDistance: real := Ultrasonic.DefaultMaxDistance): (present: bool)
    ensures !ultrasonicEnabled ==> present
    ensures ultrasonicEnabled ==>
              (present <==> && distance1.Some? && minDistance <= distance1.value <= maxDistance
                            && distance2.Some? && minDistance <= distance2.value <= maxDistance)
  {
    if !ultrasonicEnabled then true
    else
      var presence1 := Ultrasonic.CheckPresence(distance1, minDistance, maxDistance);
      var presence2 := Ultrasonic.CheckPresence(distance2, minDistance, maxDistance);
      presence1 && presence2
  }

  /** The session `__init__` creates: standby, nothing recognised. */
  function Initial(now: real): Session {
    Session(Idle, None, 0, None, None, now, None, None, false)
  }

  /** `reset_state(full_reset=True)` */
  function FullReset(s: Session, now: real): Session {
    s.(state := WaitingForFace, recognized := None, arucoRetryCount := 0, displayingMessage := false,
       faceStableStart := None, lastFacePosition := None, stateStartTime := now, detectionStartTime := None)
  }

  /** `reset_state(full_reset=False)` */
  function PartialReset(s: Session, now: real): Session {
    s.(state := WaitingForAruco, stateStartTime := now, detectionStartTime := None)
  }

  /** What `process_frame` needs of the session so as not to fail on a missing field. */
  predicate WellFormed(s: Session) {
    && (s.state.Detecting() ==> s.detectionStartTime.Some?)
    && (s.state.SeekingMarker() ==> s.recognized.Some?)
  }

  /** The invariant the engine keeps between ticks. */
  predicate Inv(s: Session) {
    && 0 <= s.arucoRetryCount <= MaxArucoRetries
    && (s.state.Idle? || s.state.WaitingForFace? || s.state.DetectingFace? ==> s.arucoRetryCount == 0)
    && (s.state.SeekingMarker() ==> s.arucoRetryCount < MaxArucoRetries)
    && (s.recognized.Some? <==> s.state.HoldsStudent())
    && (s.displayingMessage <==> s.state.ShowsMessage())
    && (s.state.Detecting() ==> s.detectionStartTime.Some?)
    && (s.state.Idle? || s.state.WaitingForFace? || s.state.WaitingForAruco? ==> s.detectionStartTime.None?)
  }

  function Say(s: Session, tag: string): Transition {
    Transition(s, Reply(false, Tag(tag), Annotated), None)
  }

  /** STATE 0, IDLE: wake on presence in [10, 45] cm. */
  function IdleStep(s: Session, t: Tick, now: real, ultrasonicEnabled: bool): Transition {
    if CheckPresence(ultrasonicEnabled, t.distance1, t.distance2, PresenceMinDistance, PresenceDistance) then
      Say(s.(state := WaitingForFace, lastPresenceTime := Some(now), stateStartTime := now), "idle")
    else
      Say(s, "idle")
  }

  /** STATE 1, WAITING_FOR_FACE: the stability debounce. */
  function WaitingForFaceStep(s: Session, t: Tick, now: real): Transition {
    var face := GetSingleFace(t.frame.faces, t.frame.width, t.frame.height);
    if face.None? then
      Say(s.(faceStableStart := None, lastFacePosition := None), "waiting_for_stable_face")
    else
      var b := face.value.bbox;
      var s1 :=
        if s.lastFacePosition.None? then s.(faceStableStart := None)
        else if Moved(b, s.lastFacePosition.value) < PositionTolerance then
          var start := if s.faceStableStart.None? then now else s.faceStableStart.value;
          var remaining := Trunc(FaceStabilityThreshold - (now - start));
          if remaining > 0 then s.(faceStableStart := Some(start))
          else s.(faceStableStart := Some(start), state := DetectingFace, detectionStartTime := Some(now))
        else s.(faceStableStart := None);
      Say(s1.(lastFacePosition := Some(b)), "waiting_for_stable_face")
  }

  /** STATE 2, DETECTING_FACE: recognise exactly one face within face_wait_time. */
  function DetectingFaceStep(s: Session, t: Tick, now: real): Transition
    requires s.detectionStartTime.Some?
  {
    var elapsed := now - s.detectionStartTime.value;
    var face := GetSingleFace(t.frame.faces, t.frame.width, t.frame.height);
    if face.Some? then
      match t.recognition
      case None =>
        Say(if elapsed > FaceWaitTime then FullReset(s, now) else s, "not_recognized")
      case Some(m) =>
        Say(s.(recognized := Some(m), state := WaitingForAruco, stateStartTime := now,
               detectionStartTime := None, arucoRetryCount := 0), "face_recognized")
    else if elapsed > FaceWaitTime then
      Say(FullReset(s, now), "face_timeout")
    else
      Say(s, "no_face")
  }

  /** STATE 3, WAITING_FOR_ARUCO: the instruction countdown. */
  function WaitingForArucoStep(s: Session, now: real): Transition {
    var elapsed := now - s.stateStartTime;
    var remaining := Trunc(ArucoWaitTime - elapsed);
    if remaining > 0 then
      Say(s, "waiting_aruco_instruction")
    else
      Say(s.(state := DetectingAruco, detectionStartTime := Some(now)), "start_detecting_aruco")
  }

  /** STATE 4, DETECTING_ARUCO: exactly one marker, the expected one, then the duplicate check and the write. */
  function DetectingArucoStep(s: Session, t: Tick, now: real): Transition
    requires s.detectionStartTime.Some? && s.recognized.Some?
  {
    var elapsed := now - s.detectionStartTime.value;
    var student := s.recognized.value;
    var markers := t.frame.markers;
    if |markers| == 1 then
      if markers[0] != student.arucoId then
        if elapsed > ArucoWaitTime then
          var retried := s.(arucoRetryCount := s.arucoRetryCount + 1);
          if retried.arucoRetryCount >= MaxArucoRetries then Say(FullReset(retried, now), "mismatch")
          else Say(PartialReset(retried, now), "mismatch")
        else
          Say(s, "mismatch")
      else if t.alreadyMarked then
        Say(FullReset(s, now), "already_marked")
      else if t.commitOk then
        Transition(s.(displayingMessage := true, state := ShowSuccess, stateStartTime := now),
                   Reply(true, StudentInfo(student.name, student.arucoId), Annotated), Some(student.studentId))
      else
        Transition(s.(displayingMessage := true, state := ShowError, stateStartTime := now),
                   Reply(false, Tag("database_error"), Annotated), Some(student.studentId))
    else if elapsed > ArucoWaitTime then
      var retried := s.(arucoRetryCount := s.arucoRetryCount + 1);
      if retried.arucoRetryCount >= MaxArucoRetries then
        Say(retried.(displayingMessage := true, state := ShowError, stateStartTime := now), "aruco_timeout")
      else
        Say(PartialReset(retried, now), "aruco_retry")
    else
      Say(s, "no_aruco")
  }

  /** STATE 5, SHOW_SUCCESS: hold the frozen picture, then start over. */
  function HoldSuccess(s: Session, now: real): Transition {
    if now - s.stateStartTime < MessageDisplayTime then
      Transition(s, Reply(false, Tag("showing_success"), HeldMessage), None)
    else
      Transition(FullReset(s.(displayingMessage := false), now), Reply(false, Tag("success_displayed"), Raw), None)
  }

  /** STATE 6, SHOW_ERROR: hold the frozen picture for three seconds, then start over. */
  function HoldError(s: Session, now: real): Transition {
    if now - s.stateStartTime < ErrorDisplayTime then
      Transition(s, Reply(false, Tag("showing_error"), HeldMessage), None)
    else
      Transition(FullReset(s.(displayingMessage := false), now), Reply(false, Tag("error_displayed"), Raw), None)
  }

  /** `process_frame`: one tick of the state in force. */
  function ProcessFrame(s: Session, t: Tick, now: real, ultrasonicEnabled: bool): Transition
    requires WellFormed(s)
  {
    match s.state
    case Idle => IdleStep(s, t, now, ultrasonicEnabled)
    case WaitingForFace => WaitingForFaceStep(s, t, now)
    case DetectingFace => DetectingFaceStep(s, t, now)
    case WaitingForAruco => WaitingForArucoStep(s, now)
    case DetectingAruco => DetectingArucoStep(s, t, now)
    case ShowSuccess => HoldSuccess(s, now)
    case ShowError => HoldError(s, now)
  }

  /** The return to standby after idle_timeout seconds without presence. */
  function EnterIdle(s: Session, now: real): Transition {
    Transition(FullReset(s.(state := Idle), now).(state := Idle, lastPresenceTime := None),
               Reply(false, Tag("entering_idle"), Raw), None)
  }

  /**
   * `run_attendance_check`: a frozen message is held before anything else;
   * outside standby the presence reading refreshes `last_presence_time` or,
   * once it is more than idle_timeout old, sends the engine to standby;
   * otherwise the frame is processed.
   */
  function RunAttendanceCheck(s: Session, t: Tick, now: real, ultrasonicEnabled: bool): Transition
    requires WellFormed(s)
  {
    if s.displayingMessage && s.state.ShowSuccess? then HoldSuccess(s, now)
    else if s.displayingMessage && s.state.ShowError? then HoldError(s, now)
    else if s.state.Idle? then ProcessFrame(s, t, now, ultrasonicEnabled)
    else if CheckPresence(ultrasonicEnabled, t.distance1, t.distance2, PresenceMinDistance, PresenceDistance) then
      ProcessFrame(s.(lastPresenceTime := Some(now)), t, now, ultrasonicEnabled)
    else if s.lastPresenceTime.Some? && now - s.lastPresenceTime.value > IdleTimeout then
      EnterIdle(s, now)
    else
      ProcessFrame(s, t, now, ultrasonicEnabled)
  }

  /** The engine starts in standby, and the invariant holds there. */
  lemma InitialInv(now: real)
    ensures Inv(Initial(now)) && Initial(now).state == Idle && Initial(now).recognized.None?
  {
  }

  /** A full reset recovers the invariant from any session whatsoever. */
  lemma FullResetInv(s: Session, now: real)
    ensures Inv(FullReset(s, now))
    ensures FullReset(s, now).state == WaitingForFace && FullReset(s, now).recognized.None?
  {
  }

  /** Every tick of `process_frame` keeps the invariant. */
  lemma ProcessFrameInv(s: Session, t: Tick, now: real, ultrasonicEnabled: bool)
    requires Inv(s)
    ensures Inv(ProcessFrame(s, t, now, ultrasonicEnabled).next)
  {
  }

  /** Every tick of `run_attendance_check` keeps the invariant. */
  lemma RunAttendanceCheckInv(s: Session, t: Tick, now: real, ultrasonicEnabled: bool)
    requires Inv(s)
    ensures Inv(RunAttendanceCheck(s, t, now, ultrasonicEnabled).next)
  {
    if !(s.displayingMessage && s.state.ShowsMessage()) && !s.state.Idle? {
      ProcessFrameInv(s.(lastPresenceTime := Some(now)), t, now, ultrasonicEnabled);
    }
    ProcessFrameInv(s, t, now, ultrasonicEnabled);
  }
}
