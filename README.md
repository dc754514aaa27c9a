# Driver drowsiness detector: the scoring, alert and logging core

This project models in Dafny the per-frame core of a webcam drowsiness
monitor (`drowsiness_detector.py`). For each captured frame in which the
face mesh finds a face, the detector computes the eye aspect ratio (EAR) of
both eyes and takes their mean. It then updates a drowsiness score, which
works as a leaky bucket: +1 when the EAR is below 0.25, otherwise −1 with a
floor of 0. It plays an alarm when the score is strictly above 15, and it
appends one row (Time, EAR, Score, Alert) to `drowsiness_log.csv`. Before
the loop starts, the log is created with a `Time,EAR,Score,Alert` header,
but only if it does not exist yet.

Modules:

- `Ear` (ear.dfy): `calculate_EAR` over the three landmark distances of one
  eye, and the per-frame mean of the two eyes.
- `LogStore` (log_store.dfy): the log file, which is missing or holds a
  sequence of header and row lines. It has header initialisation,
  append-only appending and reading the records back.
- `Scoring` (scoring.dfy): the score, the alert and the records as
  functions of the frames seen so far. These functions specify the session
  object. The lemmas state the leaky-bucket properties.
- `Detector` (detector.dfy): a `Session` class. Its fields are the score
  (the module-level `SCORE`), the log file and a count of alarm play
  requests. `Step` handles one frame and `Monitor` is the `while True`
  frame loop. `RunDetector` is the whole program: a new session, log
  initialisation, then the loop.
- `Wrappers` (wrappers.dfy): an `Option` type.

Inputs that come from outside the program become parameters:

- The camera stream is a finite sequence of `Capture` values. The end of
  the sequence stands for `cap.read()` failing.
- Each capture gives the face-mesh result as the three distances per eye,
  the clock reading used for the timestamp, and whether ESC was pressed
  after the frame was shown.
- The log file that exists at start-up is a parameter of the constructor.

The model keeps the code's behaviour where a more defensive design might
be expected:

- A zero-width eye (corner distance 0) makes `calculate_EAR` divide by
  zero. The code does not catch this: the `ZeroDivisionError` ends the
  program before that frame is scored or logged. The model ends the loop
  with `Exit.ZeroDivisionError` and changes nothing for that frame; it does
  not skip the frame and carry on.
- No alarm cooldown exists: the alarm is requested on every frame whose
  score is above 15.

## Model

| member | source | states |
|---|---|---|
| Ear.CalculateEar | drowsiness_detector.py:19-23 | The ratio is defined exactly when the corner distance is non-zero, and otherwise the division fails. When defined, it is non-negative and times 2C gives A + B. |
| Ear.ScaleInvariant | drowsiness_detector.py:19-23 | A uniform rescaling, with all three distances multiplied by the same positive factor, leaves the ratio unchanged. |
| Ear.MeanEar | drowsiness_detector.py:56 | The frame signal lies midway between the left and right ratios. |
| Ear.FrameEar | drowsiness_detector.py:54-56 | The frame EAR exists exactly when both eyes have non-zero width. Its value is the mean of the two eyes' ratios: twice it equals their sum. It is non-negative and lies between them. |
| Scoring.UpdateScore | drowsiness_detector.py:59-64 | An EAR below 0.25 gives exactly old score + 1. An EAR of 0.25 or above gives old − 1, or stays 0 at 0. The result is never negative. |
| Scoring.AlertThreshold | drowsiness_detector.py:71-72 | The alert is strict: 15 does not alert and 16 does. The alert is monotone in the score. |
| Scoring.ShouldAlert | drowsiness_detector.py:72 | The alert condition: the score is strictly above 15. |
| Scoring.StepScore | drowsiness_detector.py:47-64 | One frame moves the score by at most one. The score stays put only for a frame without a face, or for an open-eye frame at score 0. |
| Scoring.FrameRecords | drowsiness_detector.py:78-83 | A frame with a face gives exactly one record, and a frame without one gives none. That record holds the frame's time, Round3(EAR) and the updated score, and says "Yes" exactly when that score is above 15. |
| Scoring.AlertField | drowsiness_detector.py:82 | The Alert column is "Yes" exactly when the alert fired, and "No" otherwise. |
| Scoring.Round3 | drowsiness_detector.py:80 | The logged EAR is within 0.0005 of the EAR and is a whole number of thousandths. At an exact tie it is the even number of thousandths. |
| Scoring.Round3Idempotent | drowsiness_detector.py:80 | Rounding an already rounded EAR changes nothing. |
| Scoring.StepIsClamp | drowsiness_detector.py:59-64 | A frame adds +1 (closed eyes), −1 (open eyes) or 0 (no face) to the score, then clamps the result at zero. |
| Scoring.Snoc | drowsiness_detector.py:39-84 | One more frame takes one score step, and its records go after all earlier records. |
| Scoring.Compose | drowsiness_detector.py:39-84 | Two stretches of frames run back to back equal their concatenation. The score carries over and the log only grows at the end. |
| Scoring.LowRunCountsUp | drowsiness_detector.py:59-60 | N consecutive closed-eye frames from score s give s + N with no cap, and the i-th record holds s + i + 1. |
| Scoring.HighRunDrains | drowsiness_detector.py:61-64 | N consecutive open-eye frames from s give max(s − N, 0), so from 0 the score stays 0. |
| Scoring.NoFaceIgnored | drowsiness_detector.py:47 | Frames without a face change neither the score nor the records. |
| Scoring.ScoreBounds | drowsiness_detector.py:59-64 | The score is at most s plus the number of closed-eye frames, and at least s minus the number of open-eye frames. |
| Scoring.AlertNeedsSustainedClosure | drowsiness_detector.py:59-72 | From a fresh session, an alert needs more than 15 closed-eye frames. |
| Scoring.NetOfSuffix | drowsiness_detector.py:59-64 | Adding a frame to the end adds its ±1/0 contribution to the unfloored sum of every suffix. |
| Scoring.ScoreIsLargestSuffixSum | drowsiness_detector.py:59-64 | In closed form, the score is the maximum of s + the unfloored sum and the unfloored sums of all suffixes (Lindley's recursion). |
| Scoring.RecordsFaithful | drowsiness_detector.py:78-84 | There is one record per frame with a face, in arrival order. Record i holds the time and Round3(EAR) of the i-th frame with a face. Each record's Alert is "Yes" exactly when its score exceeds 15. The last face frame's record holds the final score. |
| Scoring.AlertCountConcat | drowsiness_detector.py:72-75 | The alarm count over a concatenation of records is the sum of the counts of the parts. |
| Scoring.SixteenClosedFramesAlert | drowsiness_detector.py:59-84 | One open frame followed by sixteen closed frames logs scores 0 through 16, and only the 16 row says "Yes". |
| LogStore.Rows | drowsiness_detector.py:84 | Each record becomes exactly one row, in the same order. |
| LogStore.Initialized | drowsiness_detector.py:32-35 | A missing log becomes a file with exactly the Time, EAR, Score, Alert header. An existing log is left untouched. |
| LogStore.InitializedIdempotent | drowsiness_detector.py:32-35 | Initialising twice gives the same file as initialising once. |
| LogStore.Appended | drowsiness_detector.py:84 | Appending puts the new rows after all existing lines and rewrites nothing. Appending to a missing file creates it. |
| LogStore.AppendedTwice | drowsiness_detector.py:84 | Appending in two batches equals appending their concatenation. |
| LogStore.HeaderCountConcat | drowsiness_detector.py:32-35 | The header count of a concatenation is the sum of the parts' header counts. |
| LogStore.DataRecordsConcat | drowsiness_detector.py:84 | Reading back a concatenation gives the records of both parts, in order. |
| LogStore.RowsRoundTrip | drowsiness_detector.py:78-84 | Rows contain no header, and reading them back yields the records with every field identical. |
| LogStore.FreshLog | drowsiness_detector.py:32-35 | A log created by the session holds one header in front, then one row per record, and reads back to the records. |
| Detector.Measure | drowsiness_detector.py:47-56 | A frame without a face gives no reading. A frame with a zero-width eye fails. Otherwise the reading carries the frame EAR of the two eyes (FrameEar) and the frame's clock. |
| Detector.Processed | drowsiness_detector.py:39-93 | The loop processes at most as many frames as the stream holds. |
| Detector.ExitOf | drowsiness_detector.py:39-93 | The loop ends on a failed read only when every frame's EAR was computed and no frame had ESC. |
| Detector.ProcessedPrefix | drowsiness_detector.py:39-93 | The loop processes frames in order up to the exit. ReadFailed means every frame was processed. EscPressed means the last processed frame had ESC. ZeroDivisionError means the next frame's EAR failed. |
| Detector.ProcessedHead | drowsiness_detector.py:39-93 | The stream's first frame decides whether the loop stops there (division by zero, before processing it; ESC, after processing it) or continues with the rest. |
| Detector.LoopTurn | drowsiness_detector.py:39-93 | One loop turn: the frame's EAR is computed. A division by zero ends the loop before the frame is processed. ESC ends it after the frame is processed. Otherwise the loop continues with the next frame. |
| Detector.RunExtends | drowsiness_detector.py:39-84 | After one Step, the session state equals the specification functions applied to one more reading. |
| Detector.Session.constructor | drowsiness_detector.py:27 | A session starts with score 0, no alarm requested, and the log file as found. |
| Detector.Session.InitLog | drowsiness_detector.py:32-35 | The file becomes Initialized(old file). Score and alarm count are unchanged. |
| Detector.Session.AppendRecord | drowsiness_detector.py:84 | The log gets one row at the end. Nothing else changes. |
| Detector.Session.Step | drowsiness_detector.py:47-84 | Keeps the score non-negative. The new score is StepScore(old). The log gets exactly that frame's records. The alarm count rises by one exactly when the record says "Yes". A frame without a face changes nothing. |
| Detector.Session.HandleFrame | drowsiness_detector.py:47-84 | Computes the frame's EAR. On success it steps the session, which then tracks one more reading. On a division by zero nothing changes. |
| Detector.Session.Monitor | drowsiness_detector.py:39-93 | The loop's exit reason is ExitOf(frames). The final score, log and alarm count are those of the processed readings, appended after the old log. |
| Detector.RunDetector | drowsiness_detector.py:32-93 | The whole run: the score starts at 0, the log is initialised, then all processed frames are appended and the alarms are counted. |

## Left out

- Camera capture, BGR-to-RGB conversion and the MediaPipe face mesh are foreign library calls. A capture gives the detector's result directly. The same goes for the landmark-index selection and the `int()` pixel scaling.
- The Euclidean `dist` (a floating-point square root) is an external numeric routine. Each eye is given as its three distances, as exact non-negative reals.
- Floating point is not modelled. EAR is an exact real.
- Round3: rounds the exact real half-to-even, which can differ from Python's `round` on a binary float near a tie.
- `pygame` playback is an external side effect. It is modelled as a count of play requests.
- The pandas CSV text format is I/O encoding. A line holds the values it would contain, and reading back is `DataRecords`.
- A pre-existing log that is empty or malformed makes `pd.read_csv` raise an error other than `FileNotFoundError`, which ends the program. This is not modelled: any existing file is kept as it is.
- `datetime.now()` and its formatting are a clock read. They are an opaque string in each capture.
- `cv2.putText`, the eye circles, `imshow`, `cap.release` and `destroyAllWindows` are display and teardown. The ESC key press is kept only as a boolean that ends the loop.
- `cam.py` is a separate camera smoke test with no scoring logic.
- Failures of the sound and file libraries are not modelled. In the source, an exception ends the program. This happens when `alarm.wav` cannot be loaded (line 10), when playback fails (line 74), or when `to_csv` fails while creating (line 35) or appending to (line 84) the log. The model's playback and log writes never fail. No invalid-signal handling exists in the code either.
- Ear.ScaleInvariant: the source scales x by the frame width and y by the frame height, then truncates with `int()` (lines 51-52). On a non-square frame, or through truncation, the pixel-space EAR therefore differs from the normalised one. The lemma covers only a uniform rescaling.
