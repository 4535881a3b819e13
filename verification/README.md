# Best-frame selection of the enrollment capture session

This project models the enrollment capture session of the Smart Attendance
System. It covers `VideoCapture`, its state (`best_frame`, `max_accuracy`) and
its `capture_frames` loop. The loop reads `duration` frames from the camera
and scores each frame by the number of face regions the cascade detector finds
in it. It keeps a private copy of a frame only when that frame's score is
strictly greater than the best score so far. Scores of 0 therefore never win,
ties keep the earlier frame, and with no face ever seen nothing is kept. The
fields are not reset between calls, so a later call carries on from the
earlier calls' best.

Modules:

- `Optional`: the `Option` type (`None` stands for Python's `None`).
- `Selection`: the specification on the sequence of scores.
  - `Peak` is the kept score, written as the fold the loop performs.
  - `Winner` is the position of the kept frame.
  - Lemmas state what these two are: the maximum of 0 and all scores, and
    the first position where a positive maximum is reached.
  - Lemmas also cover one iteration, monotonicity, and how a later call
    composes with earlier ones.
- `Device`: the external collaborators.
  - `Camera` delivers a finite feed of frames and writes each successful
    read into the one buffer it owns.
  - `Detector` is a pure function from a frame and the fixed detection
    parameters (scale factor 1.1, 5 neighbours, minimum size 30x30) to a
    sequence of regions. The grayscale conversion is folded into it.
- `UserRegistration`: `Score`, `CopyFrame` (`frame.copy()`) and the class
  `VideoCapture`.
  - `Valid()` ties the fields to `Peak`/`Winner` over a ghost history of
    every frame read so far, across all calls.
  - `Valid()` keeps the kept frame in a buffer distinct from the camera's.
  - `SampleOnce` is one pass of the loop body; `CaptureFrames` is the loop.

The camera and the detector are passed to the constructor. The source opens
device 0 and loads the cascade file inside `__init__`, and both are external.

A read on an exhausted camera returns `ret = False` and no frame. The source
ignores `ret` and hands the missing frame to the colour conversion, which
raises. A failed read therefore raises; the session does not end quietly with
its best result. `CaptureFrames` models that exception by returning
`completed = false`. The state is then what the earlier reads of that call
left; the loop does not go on. The code records no video and does not count
detector errors as zero regions, so the model does neither.

`duration` counts loop iterations, that is frames read (`range(duration)`).
The docstring of `capture_frames` calls it "integer time in seconds". The code
counts frames, with a 20 ms pause after each one, and the model follows the
code: it counts frames, not seconds.

The camera is modelled as reusing one buffer for every read. This is
conservative: it is the situation in which `frame.copy()` is needed. The
proofs show that the kept frame's contents survive every later read.

## Model

| member | source | states |
|---|---|---|
| `UserRegistration.VideoCapture.constructor` | src/user_registration.py:23-27 | a new session keeps no frame, its kept score is 0, and it has seen no frame; the session invariant holds |
| `UserRegistration.VideoCapture.CaptureFrames` | src/user_registration.py:29-47 | exactly `duration` reads when `duration` is positive and none otherwise, in which case nothing changes; the frames seen are the next ones of the camera's feed, appended to those of earlier calls; the invariant ties the kept score to the maximum of 0 and every score seen and the kept frame to the first frame reaching it; the kept score never decreases; the kept frame changes only when the score strictly rises, and then to a freshly allocated copy; an unchanged kept frame keeps its contents; an exhausted camera ends the call (the raise) with `completed` false |
| `UserRegistration.VideoCapture.SampleOnce` | src/user_registration.py:37-44 | one iteration: reads the next frame, appends it to the history and preserves the invariant; the kept frame is replaced, by a fresh copy, only on a strictly greater score; with no frame available nothing changes |
| `UserRegistration.TrackFrame` | src/user_registration.py:40-44 | scoring a frame by its region count and updating only on a strictly greater score keeps the kept score equal to the maximum of all scores and the kept frame equal to the first frame reaching it |
| `UserRegistration.Score` | src/user_registration.py:40 | the score is the number of detected regions, a natural number, and it is 0 exactly when no region was detected |
| `UserRegistration.CopyFrame` | src/user_registration.py:44 | the copy is a newly allocated buffer with the same contents as the frame, so it aliases nothing that existed before |
| `Device.Camera.constructor` | src/user_registration.py:24 | a device whose feed is the given frames, none read yet, with a fresh buffer of the frame size |
| `Device.Camera.Read` | src/user_registration.py:37 | a read succeeds exactly when the feed has frames left; it then advances by one and the buffer holds that frame; otherwise it yields no frame and changes nothing |
| `Selection.Peak` | src/user_registration.py:27-43 | the kept score after a sequence of scores, as the loop computes it: 0 at the start, raised only by a strictly greater score; `Selection.PeakIsMaximum` proves it is the maximum of 0 and all scores |
| `UserRegistration.VideoCapture.KeptFrameScoresMaxAccuracy` | src/user_registration.py:26-44 | in every valid state a frame is kept exactly when the kept score is positive, and the kept frame's score (its region count) equals the kept score |
| `Selection.Winner` | src/user_registration.py:42-44 | the kept position, when there is one, is the position of a frame that was seen |
| `Selection.PeakIsMaximum` | src/user_registration.py:26-43 | the kept score bounds every score seen and is either 0 (the initial value) or one of the scores |
| `Selection.WinnerIsFirstMaximum` | src/user_registration.py:26-44 | a frame is kept exactly when some score is positive; the kept frame reaches the maximum, that maximum is positive, and every earlier frame scored strictly less |
| `Selection.WinnerExactlyFirstMaximum` | src/user_registration.py:42-44 | both directions: position `i` is the kept one if and only if it is the first position of the maximum and its score is positive |
| `Selection.NoFaceNoWinner` | src/user_registration.py:26-42 | when no frame has a face, no frame is kept and the kept score stays 0 |
| `Selection.Step` | src/user_registration.py:42-44 | one frame raises the kept score to its own only when strictly greater and then becomes the kept frame; a tie or a lower score changes neither |
| `Selection.PeakMonotone` | src/user_registration.py:42-43 | the kept score after a prefix of the frames is at most the kept score after a longer prefix |
| `Selection.PeakConcat` | src/user_registration.py:29-43 | across calls, the kept score is the larger of the earlier calls' maximum and the later call's maximum |
| `Selection.WinnerConcat` | src/user_registration.py:29-44 | a later call keeps the earlier kept frame unless its own maximum is strictly greater; then the kept frame is the later call's first frame reaching that maximum |
| `Selection.TiesKeepTheEarlierFrame` | src/user_registration.py:42-44 | for scores 0, 2, 1, 2, 0 the kept score is 2 and the kept frame is the second one, not the fourth |

## Left out

- `User` and `User.save_profile_image` (src/user_registration.py:9-19) and `AttendanceSystem.create_user_table` (src/main.py:15-32) are left out. They only run SQL through the sqlite3 library, and the id is assigned inside SQLite.
- `cv2.cvtColor` and `detectMultiScale` (src/user_registration.py:38-39) are external library calls. Together they form the `Detector` function value. Only the number of regions it returns is used.
- `cv2.imshow` and `cv2.waitKey` (src/user_registration.py:46-47) are left out. They only display the frame and pause; they change no state.
- `VideoCapture.release` (src/user_registration.py:49-56) is left out. It only closes the device and the windows.
- `main` (src/user_registration.py:59-69 and src/main.py:58-76) is left out. It is prompt-driven glue with wall-clock timing. The call `VideoCapture(user)` at src/main.py:65 does not match the constructor's signature. The model's constructor takes no `user`. It takes the camera and the detector, which the source creates inside `__init__` (src/user_registration.py:24-25).
- `AttendanceSystem.detect_faces` (src/main.py:34-56) is left out. It is an interactive display loop that ends on a key press and keeps no state.
- The detector's exceptions are not modelled: the detector is total in the model. A detector that raised would end the call the way the failed read does.
- The rest of the system is not part of this model: the constants module (cascade file path, database path), video recording and per-user media directories.
