/**
 * `AttendanceEngine` (attendance_engine.py): one object whose fields are
 * updated in place once per camera tick. Each method is proved to leave the
 * fields exactly as the matching function of EngineModel computes from the
 * old fields. `ProcessFrame` and `RunAttendanceCheck` also keep the invariant
 * EngineModel.Inv (through `Valid`); the helper methods are proved only to
 * compute exactly the matching EngineModel step.
 * Drawing is left out: a method reports which picture it would return.
 */
module Engine {
  import opened Wrappers
  import opened FaceDetector
  import opened Recognition
  import opened EngineModel

  class AttendanceEngine {
    /** `ULTRASONIC_ENABLED` from the configuration. */
    const ultrasonicEnabled: bool

    var currentState: State
    var recognizedStudent: Option<Match>
    var arucoRetryCount: int
    var faceStableStart: Option<real>
    var lastFacePosition: Option<BBox>
    var stateStartTime: real
    var detectionStartTime: Option<real>
    var lastPresenceTime: Option<real>
    var displayingMessage: bool

    /** The fields as a value. */
    function Snapshot(): Session
      reads this
    {
      Session(currentState, recognizedStudent, arucoRetryCount, faceStableStart, lastFacePosition,
              stateStartTime, detectionStartTime, lastPresenceTime, displayingMessage)
    }

    ghost predicate Valid()
      reads this
    {
      Inv(Snapshot())
    }

    /** `__init__`: the engine starts in standby. */
    constructor (ultrasonicEnabled: bool, now: real)
      ensures Valid()
      ensures this.ultrasonicEnabled == ultrasonicEnabled
      ensures currentState == Idle && recognizedStudent.None? && arucoRetryCount == 0
      ensures faceStableStart.None? && lastFacePosition.None? && detectionStartTime.None?
      ensures lastPresenceTime.None? && !displayingMessage && stateStartTime == now
    {
      this.ultrasonicEnabled := ultrasonicEnabled;
      currentState := Idle;
      recognizedStudent := None;
      displayingMessage := false;
      stateStartTime := now;
      detectionStartTime := None;
      lastPresenceTime := None;
      faceStableStart := None;
      lastFacePosition := None;
      arucoRetryCount := 0;
    }

    /**
     * `reset_state`: a full reset starts the attempt over at WAITING_FOR_FACE;
     * a partial reset goes back to WAITING_FOR_ARUCO keeping the student and
     * the retry count. Both restart the state timer and clear the detection timer.
     */
    method ResetState(fullReset: bool, now: real)
      modifies this
      ensures fullReset ==>
                && currentState == WaitingForFace && recognizedStudent.None? && arucoRetryCount == 0
                && !displayingMessage && faceStableStart.None? && lastFacePosition.None?
      ensures !fullReset ==>
                && currentState == WaitingForAruco && recognizedStudent == old(recognizedStudent)
                && arucoRetryCount == old(arucoRetryCount) && displayingMessage == old(displayingMessage)
                && faceStableStart == old(faceStableStart) && lastFacePosition == old(lastFacePosition)
      ensures stateStartTime == now && detectionStartTime.None? && lastPresenceTime == old(lastPresenceTime)
      ensures Snapshot() == if fullReset then FullReset(old(Snapshot()), now) else PartialReset(old(Snapshot()), now)
    {
      if fullReset {
        currentState := WaitingForFace;
        recognizedStudent := None;
        arucoRetryCount := 0;
        displayingMessage := false;
        faceStableStart := None;
        lastFacePosition := None;
      } else {
        currentState := WaitingForAruco;
      }
      stateStartTime := now;
      detectionStartTime := None;
    }

    /** `process_frame`: one tick of the state machine at time `now`. */
    method ProcessFrame(tick: Tick, now: real) returns (success: bool, message: Message, shown: Shown, markRequest: Option<int>)
      requires Valid()
      modifies this
      ensures Valid()
      ensures var tr := EngineModel.ProcessFrame(old(Snapshot()), tick, now, ultrasonicEnabled);
        Snapshot() == tr.next && Reply(success, message, shown) == tr.reply && markRequest == tr.markRequest
    {
      ProcessFrameInv(Snapshot(), tick, now, ultrasonicEnabled);
      success, shown, markRequest := false, Annotated, None;
      match currentState {
        case Idle =>
          if CheckPresence(ultrasonicEnabled, tick.distance1, tick.distance2, PresenceMinDistance, PresenceDistance) {
            currentState := WaitingForFace;
            lastPresenceTime := Some(now);
            stateStartTime := now;
          }
          message := Tag("idle");
        case WaitingForFace =>
          WaitForStableFace(tick, now);
          message := Tag("waiting_for_stable_face");
        case DetectingFace =>
          message := DetectFace(tick, now);
        case WaitingForAruco =>
          var elapsed := now - stateStartTime;
          var remaining := Trunc(ArucoWaitTime - elapsed);
          if remaining > 0 {
            message := Tag("waiting_aruco_instruction");
          } else {
            currentState := DetectingAruco;
            detectionStartTime := Some(now);
            message := Tag("start_detecting_aruco");
          }
        case DetectingAruco =>
          success, message, markRequest := DetectAruco(tick, now);
        case ShowSuccess =>
          message, shown := ShowMessage(MessageDisplayTime, "showing_success", "success_displayed", now);
        case ShowError =>
          message, shown := ShowMessage(ErrorDisplayTime, "showing_error", "error_displayed", now);
      }
    }

    /** STATE 1 of `process_frame`: track the face position and start recognition once it has held still. */
    method WaitForStableFace(tick: Tick, now: real)
      requires currentState == WaitingForFace
      modifies this
      ensures Snapshot() == WaitingForFaceStep(old(Snapshot()), tick, now).next
    {
      var face := GetSingleFace(tick.frame.faces, tick.frame.width, tick.frame.height);
      if face.Some? {
        var b := face.value.bbox;
        if lastFacePosition.Some? {
          var distance := Moved(b, lastFacePosition.value);
          if distance < PositionTolerance {
            if faceStableStart.None? {
              faceStableStart := Some(now);
            }
            var elapsed := now - faceStableStart.value;
            var remaining := Trunc(FaceStabilityThreshold - elapsed);
            if remaining <= 0 {
              currentState := DetectingFace;
              detectionStartTime := Some(now);
            }
          } else {
            faceStableStart := None;
          }
        } else {
          faceStableStart := None;
        }
        lastFacePosition := Some(b);
      } else {
        faceStableStart := None;
        lastFacePosition := None;
      }
    }

    /** STATE 2 of `process_frame`: recognise the single face, or give up after face_wait_time. */
    method DetectFace(tick: Tick, now: real) returns (message: Message)
      requires currentState == DetectingFace && detectionStartTime.Some?
      modifies this
      ensures var tr := DetectingFaceStep(old(Snapshot()), tick, now);
        Snapshot() == tr.next && message == tr.reply.message
    {
      var elapsed := now - detectionStartTime.value;
      var face := GetSingleFace(tick.frame.faces, tick.frame.width, tick.frame.height);
      if face.Some? {
        if tick.recognition.None? {
          if elapsed > FaceWaitTime {
            ResetState(true, now);
          }
          return Tag("not_recognized");
        }
        recognizedStudent := tick.recognition;
        currentState := WaitingForAruco;
        stateStartTime := now;
        detectionStartTime := None;
        arucoRetryCount := 0;
        return Tag("face_recognized");
      } else {
        if elapsed > FaceWaitTime {
          ResetState(true, now);
          return Tag("face_timeout");
        }
        return Tag("no_face");
      }
    }

    /** STATE 4 of `process_frame`: check the marker, retry on timeout, and commit on a match. */
    method DetectAruco(tick: Tick, now: real) returns (success: bool, message: Message, markRequest: Option<int>)
      requires currentState == DetectingAruco && detectionStartTime.Some? && recognizedStudent.Some?
      modifies this
      ensures var tr := DetectingArucoStep(old(Snapshot()), tick, now);
        && Snapshot() == tr.next && success == tr.reply.success && message == tr.reply.message
        && tr.reply.shown == Annotated && markRequest == tr.markRequest
    {
      var elapsed := now - detectionStartTime.value;
      var student := recognizedStudent.value;
      var markerIds := tick.frame.markers;
      success, markRequest := false, None;
      var detected: Option<int> := None;
      if |markerIds| == 1 {
        detected := Some(markerIds[0]);
      }
      if detected.Some? {
        if detected.value != student.arucoId {
          if elapsed > ArucoWaitTime {
            arucoRetryCount := arucoRetryCount + 1;
            if arucoRetryCount >= MaxArucoRetries {
              ResetState(true, now);
            } else {
              ResetState(false, now);
            }
          }
          return false, Tag("mismatch"), None;
        }
        if tick.alreadyMarked {
          ResetState(true, now);
          return false, Tag("already_marked"), None;
        }
        markRequest := Some(student.studentId);
        if tick.commitOk {
          displayingMessage := true;
          currentState := ShowSuccess;
          stateStartTime := now;
          return true, StudentInfo(student.name, student.arucoId), markRequest;
        } else {
          displayingMessage := true;
          currentState := ShowError;
          stateStartTime := now;
          return false, Tag("database_error"), markRequest;
        }
      } else {
        if elapsed > ArucoWaitTime {
          arucoRetryCount := arucoRetryCount + 1;
          if arucoRetryCount >= MaxArucoRetries {
            displayingMessage := true;
            currentState := ShowError;
            stateStartTime := now;
            return false, Tag("aruco_timeout"), None;
          } else {
            ResetState(false, now);
            return false, Tag("aruco_retry"), None;
          }
        }
        return false, Tag("no_aruco"), None;
      }
    }

    /** STATES 5 and 6: hold the frozen message for `hold` seconds, then reset fully. */
    method ShowMessage(hold: real, holding: string, done: string, now: real) returns (message: Message, shown: Shown)
      modifies this
      ensures now - old(stateStartTime) < hold ==>
                Snapshot() == old(Snapshot()) && message == Tag(holding) && shown == HeldMessage
      ensures now - old(stateStartTime) >= hold ==>
                && Snapshot() == FullReset(old(Snapshot()).(displayingMessage := false), now)
                && message == Tag(done) && shown == Raw
    {
      var elapsed := now - stateStartTime;
      if elapsed < hold {
        return Tag(holding), HeldMessage;
      }
      displayingMessage := false;
      ResetState(true, now);
      return Tag(done), Raw;
    }

    /**
     * `run_attendance_check`: hold a frozen message, else refresh presence or
     * fall back to standby after idle_timeout, else process the frame.
     */
    method RunAttendanceCheck(tick: Tick, now: real) returns (success: bool, message: Message, shown: Shown, markRequest: Option<int>)
      requires Valid()
      modifies this
      ensures Valid()
      ensures var tr := EngineModel.RunAttendanceCheck(old(Snapshot()), tick, now, ultrasonicEnabled);
        Snapshot() == tr.next && Reply(success, message, shown) == tr.reply && markRequest == tr.markRequest
    {
      RunAttendanceCheckInv(Snapshot(), tick, now, ultrasonicEnabled);
      if displayingMessage {
        if currentState == ShowSuccess {
          message, shown := ShowMessage(MessageDisplayTime, "showing_success", "success_displayed", now);
          return false, message, shown, None;
        } else if currentState == ShowError {
          message, shown := ShowMessage(ErrorDisplayTime, "showing_error", "error_displayed", now);
          return false, message, shown, None;
        }
      }
      if currentState != Idle {
        var presence := CheckPresence(ultrasonicEnabled, tick.distance1, tick.distance2, PresenceMinDistance, PresenceDistance);
        if presence {
          lastPresenceTime := Some(now);
        } else if lastPresenceTime.Some? {
          var idleElapsed := now - lastPresenceTime.value;
          if idleElapsed > IdleTimeout {
            currentState := Idle;
            ResetState(true, now);
            currentState := Idle;
            lastPresenceTime := None;
            return false, Tag("entering_idle"), Raw, None;
          }
        }
      }
      success, message, shown, markRequest := ProcessFrame(tick, now);
    }
  }
}
