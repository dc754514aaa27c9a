/**
  The frame loop of drowsiness_detector.py and the session state it updates.

  The module-level SCORE, the log file and the alert sound become the fields
  of a Session object. Each captured frame either has no face, or the two
  eyes' landmark distances; the camera, the face mesh and the display are
  outside the model, and the frame stream is a finite sequence whose end is
  the camera's failed read.
*/
module Detector {
  import opened Wrappers
  import opened Ear
  import opened LogStore
  import opened Scoring

  /** What the face mesh found in a frame. */
  datatype Landmarks = NoLandmarks | Eyes(left: Eye, right: Eye)

  /** One successfully read frame: its landmarks, the clock reading taken
      when it is logged, and whether ESC was pressed after it was shown. */
  datatype Capture = Capture(landmarks: Landmarks, clock: string, escPressed: bool)

  /** Why the frame loop ended: the camera read failed (or the stream
      ended), ESC was pressed, or a zero-width eye raised ZeroDivisionError. */
  datatype Exit = ReadFailed | EscPressed | ZeroDivisionError

  /** The frame's reading, or None when computing its EAR divides by zero. */
  function Measure(c: Capture): (m: Option<Reading>)
    ensures m == Some(NoFace) <==> c.landmarks.NoLandmarks?
    ensures m.None? <==> c.landmarks.Eyes? &&
                         (c.landmarks.left.horizontal == 0.0 || c.landmarks.right.horizontal == 0.0)
    ensures m.Some? && m.value.Face? ==> m.value.time == c.clock && m.value.ear >= 0.0
    ensures m.Some? && m.value.Face? ==> Some(m.value.ear) == FrameEar(c.landmarks.left, c.landmarks.right)
  {
    match c.landmarks
    case NoLandmarks => Some(NoFace)
    case Eyes(left, right) =>
      match FrameEar(left, right)
      case None => None
      case Some(ear) => Some(Face(ear, c.clock))
  }

  /** The readings of the frames the loop processes before it ends. */
  function Processed(frames: seq<Capture>): (r: seq<Reading>)
    ensures |r| <= |frames|
    decreases |frames|
  {
    if frames == [] then []
    else
      match Measure(frames[0])
      case None => []
      case Some(r) => [r] + (if frames[0].escPressed then [] else Processed(frames[1..]))
  }

  /** How the loop ends on the given frames. */
  function ExitOf(frames: seq<Capture>): (e: Exit)
    ensures e == ReadFailed ==> forall i :: 0 <= i < |frames| ==> Measure(frames[i]).Some? && !frames[i].escPressed
    decreases |frames|
  {
    if frames == [] then ReadFailed
    else if Measure(frames[0]).None? then ZeroDivisionError
    else if frames[0].escPressed then EscPressed
    else ExitOf(frames[1..])
  }

  /** The loop processes a prefix of the frames, in order; it stops after
      the first frame with ESC, before the first frame whose EAR divides by
      zero, or at the end of the stream. */
  lemma {:induction false} ProcessedPrefix(frames: seq<Capture>)
    ensures |Processed(frames)| <= |frames|
    ensures forall i :: 0 <= i < |Processed(frames)| ==> Measure(frames[i]) == Some(Processed(frames)[i])
    ensures forall i :: 0 <= i < |Processed(frames)| - 1 ==> !frames[i].escPressed
    ensures ExitOf(frames) == ReadFailed ==> |Processed(frames)| == |frames| &&
                                             (frames == [] || !frames[|frames| - 1].escPressed)
    ensures ExitOf(frames) == EscPressed ==> Processed(frames) != [] &&
                                             frames[|Processed(frames)| - 1].escPressed
    ensures ExitOf(frames) == ZeroDivisionError ==> |Processed(frames)| < |frames| &&
                                                    Measure(frames[|Processed(frames)|]).None? &&
                                                    (Processed(frames) == [] ||
                                                     !frames[|Processed(frames)| - 1].escPressed)
    decreases |frames|
  {
    if frames != [] && Measure(frames[0]).Some? && !frames[0].escPressed {
      var rest := frames[1..];
      ProcessedPrefix(rest);
      assert forall i :: 1 <= i < |frames| ==> frames[i] == rest[i - 1];
    }
  }

  /** The first frame of a non-empty stream decides whether the loop
      stops there or continues with the rest. */
  lemma ProcessedHead(t: seq<Capture>)
    requires t != []
    ensures Measure(t[0]).None? ==> Processed(t) == [] && ExitOf(t) == ZeroDivisionError
    ensures Measure(t[0]).Some? && t[0].escPressed ==>
              Processed(t) == [Measure(t[0]).value] && ExitOf(t) == EscPressed
    ensures Measure(t[0]).Some? && !t[0].escPressed ==>
              Processed(t) == [Measure(t[0]).value] + Processed(t[1..]) && ExitOf(t) == ExitOf(t[1..])
  {
  }

  /** What one turn of the frame loop does to the run still ahead: with
      done processed so far and frame i next, the loop exits on a division
      by zero with done, exits on ESC with done plus frame i, or goes on to
      frame i + 1. */
  lemma LoopTurn(frames: seq<Capture>, i: nat, done: seq<Reading>)
    requires i < |frames|
    requires done + Processed(frames[i..]) == Processed(frames)
    requires ExitOf(frames[i..]) == ExitOf(frames)
    ensures Measure(frames[i]).None? ==> done == Processed(frames) && ExitOf(frames) == ZeroDivisionError
    ensures Measure(frames[i]).Some? && frames[i].escPressed ==>
              done + [Measure(frames[i]).value] == Processed(frames) && ExitOf(frames) == EscPressed
    ensures Measure(frames[i]).Some? && !frames[i].escPressed ==>
              (done + [Measure(frames[i]).value]) + Processed(frames[i + 1..]) == Processed(frames) &&
              ExitOf(frames[i + 1..]) == ExitOf(frames)
  {
    var t := frames[i..];
    assert t[0] == frames[i];
    assert t[1..] == frames[i + 1..];
    ProcessedHead(t);
    var m := Measure(frames[i]);
    if m.None? {
      assert done + [] == done;
    } else if !frames[i].escPressed {
      var rest := Processed(frames[i + 1..]);
      assert done + ([m.value] + rest) == (done + [m.value]) + rest;
    }
  }

  class Session {
    /** The drowsiness score (SCORE). */
    var score: int
    /** The log file drowsiness_log.csv. */
    var file: LogFile
    /** How many times the alert sound was asked to play. */
    var soundRequests: nat

    ghost predicate Valid()
      reads this
    {
      score >= 0
    }

    /** A session starts with score 0, no sound played, and the log file as
        it is found on disk. */
    constructor(existing: LogFile)
      ensures Valid()
      ensures score == 0 && file == existing && soundRequests == 0
    {
      score := 0;
      file := existing;
      soundRequests := 0;
    }

    /** Creates the log with its header when it does not exist yet. */
    method InitLog()
      modifies this
      ensures file == Initialized(old(file))
      ensures score == old(score) && soundRequests == old(soundRequests)
    {
      if file.Missing? {
        file := Present([Header(Columns)]);
      }
    }

    /** Appends one record as a row at the end of the log. */
    method AppendRecord(entry: Record)
      modifies this
      ensures file == Appended(old(file), [entry])
      ensures score == old(score) && soundRequests == old(soundRequests)
    {
      file := Present(LinesOf(file) + [Row(entry)]);
    }

    /** The work the loop does for one frame after its EAR is known: a frame
        without a face changes nothing; a frame with one updates the score,
        plays the sound when the score is above the threshold, and logs one
        record. */
    method Step(r: Reading)
      requires Valid()
      modifies this
      ensures Valid()
      ensures score == StepScore(old(score), r)
      ensures file == Appended(old(file), FrameRecords(old(score), r))
      ensures soundRequests == old(soundRequests) + AlertCount(FrameRecords(old(score), r))
    {
      match r
      case NoFace =>
      case Face(ear, time) =>
        if ear < EarThreshold {
          score := score + 1;
        } else {
          score := score - 1;
          if score < 0 {
            score := 0;
          }
        }
        var alertTriggered := false;
        if score > ScoreThreshold {
          soundRequests := soundRequests + 1;
          alertTriggered := true;
        }
        var entry := Record(time, Round3(ear), score, AlertField(alertTriggered));
        assert [entry][..0] == [];
        AppendRecord(entry);
    }

    /** The session holds what the specification functions give after the
        readings done, from score s0, log f0 and sound count sounds0. */
    ghost predicate Tracks(s0: nat, f0: LogFile, sounds0: nat, done: seq<Reading>)
      reads this
    {
      score == ScoreAfter(s0, done) &&
      file == Appended(f0, Records(s0, done)) &&
      soundRequests == sounds0 + AlertCount(Records(s0, done))
    }

    /** The body of the frame loop for one captured frame: the EAR is
        computed and, unless that divides by zero, the frame is scored and
        logged by Step. */
    method HandleFrame(capture: Capture, ghost s0: nat, ghost f0: LogFile, ghost sounds0: nat,
                       ghost done: seq<Reading>) returns (m: Option<Reading>)
      requires Valid() && Tracks(s0, f0, sounds0, done)
      modifies this
      ensures Valid()
      ensures m == Measure(capture)
      ensures m.None? ==> Tracks(s0, f0, sounds0, done)
      ensures m.Some? ==> Tracks(s0, f0, sounds0, done + [m.value])
    {
      m := Measure(capture);
      if m.Some? {
        ghost var w := score;
        Step(m.value);
        RunExtends(s0, f0, sounds0, done, m.value, w, file, soundRequests);
      }
    }

    /** The frame loop: processes frames in order until the stream ends, a
        zero-width eye aborts it, or ESC is pressed. The score, the log and
        the sound count afterwards are those the specification functions give
        for the processed frames. */
    method Monitor(frames: seq<Capture>) returns (exit: Exit)
      requires Valid()
      modifies this
      ensures Valid()
      ensures exit == ExitOf(frames)
      ensures score == ScoreAfter(old(score), Processed(frames))
      ensures file == Appended(old(file), Records(old(score), Processed(frames)))
      ensures soundRequests == old(soundRequests) + AlertCount(Records(old(score), Processed(frames)))
    {
      ghost var s0: nat, f0, sounds0 := score, file, soundRequests;
      ghost var done: seq<Reading> := [];
      var i := 0;
      while i < |frames|
        invariant 0 <= i <= |frames| && Valid() && Tracks(s0, f0, sounds0, done)
        invariant done + Processed(frames[i..]) == Processed(frames) && ExitOf(frames[i..]) == ExitOf(frames)
        decreases |frames| - i
      {
        var capture := frames[i];
        LoopTurn(frames, i, done);
        var m := HandleFrame(capture, s0, f0, sounds0, done);
        if m.None? {
          return ZeroDivisionError;
        }
        done := done + [m.value];
        i := i + 1;
        if capture.escPressed {
          return EscPressed;
        }
      }
      assert frames[i..] == [];
      assert done + [] == done;
      return ReadFailed;
    }
  }

  /** The bookkeeping of one turn of the frame loop: a session that tracked
      the readings done and then takes one Step tracks done + [r]. */
  lemma RunExtends(s0: nat, f0: LogFile, sounds0: nat, done: seq<Reading>, r: Reading,
                   w: nat, f: LogFile, sounds: nat)
    requires w == ScoreAfter(s0, done)
    requires f == Appended(Appended(f0, Records(s0, done)), FrameRecords(w, r))
    requires sounds == sounds0 + AlertCount(Records(s0, done)) + AlertCount(FrameRecords(w, r))
    ensures StepScore(w, r) == ScoreAfter(s0, done + [r])
    ensures f == Appended(f0, Records(s0, done + [r]))
    ensures sounds == sounds0 + AlertCount(Records(s0, done + [r]))
  {
    Snoc(s0, done, r);
    AppendedTwice(f0, Records(s0, done), FrameRecords(w, r));
    AlertCountConcat(Records(s0, done), FrameRecords(w, r));
  }

  /** The whole program on a stream of frames: a fresh session, the log
      initialised, then the frame loop. */
  method RunDetector(existing: LogFile, frames: seq<Capture>) returns (session: Session, exit: Exit)
    ensures fresh(session) && session.Valid()
    ensures exit == ExitOf(frames)
    ensures session.score == ScoreAfter(0, Processed(frames))
    ensures session.file == Appended(Initialized(existing), Records(0, Processed(frames)))
    ensures session.soundRequests == AlertCount(Records(0, Processed(frames)))
  {
    session := new Session(existing);
    session.InitLog();
    exit := session.Monitor(frames);
  }
}
