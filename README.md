# QC_Preview stepping core in Dafny

QC_Preview is a quality-check helper for DaVinci Resolve. Its worker reads
the playhead's timecode. It then walks the clips of video track 1 one edit
point at a time. At each edit point it parks the playhead on the first frame
of the next clip, then one frame before it, so that the operator sees both
sides of the cut. When no edit point is left, it puts a completion message
on a queue for the UI. The operator can stop it at any time with a stop flag.

The model has four modules, plus `Wrappers` (`wrappers.dfy`) for the optional result:

- `Timecode` (`timecode.dfy`): non-drop-frame timecode arithmetic.
  - `TimecodeToFrames` parses `HH:MM:SS:FF` text with an explicit model of
    `str.split(':')` and `int()` on digit strings.
  - `FramesToTimecode` writes a frame count back as zero-padded text, by
    successive floor division by 3600·fr, 60·fr and fr.
  - The two round trips between them are proved.
- `EditPoints` (`edit_points.dfy`): `get_next_edit_point`.
  - The host's item collection is the sequence of the items' start frames,
    in the host's iteration order.
  - The scan is a method with a loop, proved against the function
    `FirstAbove`.
- `Stepper` (`stepper.dfy`): the `process` loop with the host abstracted.
  - The starting timecode is a parameter.
  - The stop flag is the sequence of values it holds each time the loop
    tests it.
  - The playhead moves are the log of timecodes passed to
    `SetCurrentTimecode`.
  - The message queue is the sequence of messages put on it.
  - `Process` and `StepEdits` are the imperative loop, proved against the
    recursive specification `Run` and `Expected`.
- `Scenarios` (`scenarios.dfy`): worked examples on concrete tracks.

The loop keeps one quirk of the source. `get_next_edit_point` is called with
`next_frame_to_check` as its `current_frames` argument, which it never reads.
The threshold it does compare against is `current_frames`, the previous edit
point E, with a strict `>`. One could read the loop as moving the threshold
to E+1. On integer frames, `start > E` and `start >= E+1` select the same
items, so the two readings agree. The model follows the code.

## Model

| member | source | states |
|---|---|---|
| Timecode.Split | QC_Preview.py:25 | `str.split(':')`: at least one piece, no piece holds the separator, and joining the pieces gives the input back |
| Timecode.SplitJoin | QC_Preview.py:25 | splitting undoes joining for separator-free parts, so a rendered timecode splits into exactly its four fields |
| Timecode.ParseField | QC_Preview.py:25 | `int()` on one field succeeds exactly on non-empty digit strings |
| Timecode.ParseFields | QC_Preview.py:25 | unpacking into h, m, s, f succeeds exactly when the text splits on ':' into four non-empty digit strings |
| Timecode.TimecodeToFrames | QC_Preview.py:24-26 | succeeds exactly when the text splits on ':' into four numerals (otherwise the unpacking or `int()` raises); the count is non-negative for a non-negative rate |
| Timecode.TimecodeToFramesValue | QC_Preview.py:26 | the count is (h·3600 + m·60 + s)·fr + f of the four numerals |
| Timecode.DigitsReadBack | QC_Preview.py:35 | the decimal numeral of n reads back as n, with one digit below 10 and two below 100 |
| Timecode.Pad2 | QC_Preview.py:35 | `{n:02}`: the decimal numeral of n, zero-padded to two digits; Pad2ReadBack and Pad2OfTwoDigits state its meaning |
| Timecode.Pad2ReadBack | QC_Preview.py:35 | `{n:02}` has at least two digits, exactly two below 100, and reads back as n |
| Timecode.Pad2OfTwoDigits | QC_Preview.py:35 | a two-digit field is exactly what `{n:02}` writes for its value |
| Timecode.FieldsOf | QC_Preview.py:29-34 | the successive `//` and `%=` by 3600·fr, 60·fr and fr as four fields; FieldsOfCorrect proves them in range and worth exactly the input |
| Timecode.FieldsOfCorrect | QC_Preview.py:28-34 | the computed fields satisfy m < 60, s < 60 and f < fr, and together are worth exactly the input frame count |
| Timecode.FieldsOfToFrames | QC_Preview.py:28-34 | every in-range tuple comes back from its frame count |
| Timecode.FieldsOfOnlyInRange | QC_Preview.py:28-34 | a tuple that comes back from its frame count is in range, so in-range tuples are the only ones that do |
| Timecode.HoursBelowHundred | QC_Preview.py:29 | below 100 hours of frames the hour field stays under 100 |
| Timecode.Render | QC_Preview.py:35 | the four padded fields joined by ':' (RenderIsJoin); ParseRender shows parsing gives the fields back |
| Timecode.FramesToTimecode | QC_Preview.py:28-35 | successive `//` and `%=` by 3600·fr, 60·fr and fr, each place written by Pad2; equal to Render(FieldsOf(n)) (FramesToTimecodeFields), inverted by TimecodeToFrames (FramesRoundTrip) |
| Timecode.FramesToTimecodeFields | QC_Preview.py:28-35 | the text written is the four fields of FieldsOf, each zero-padded, separated by ':' |
| Timecode.FramesToTimecodeShape | QC_Preview.py:35 | the output splits into four digit fields of at least two digits; it has 11 characters while the hours stay below 100 and the rate is at most 100 |
| Timecode.ParseRender | QC_Preview.py:24-26 | parsing rendered fields gives those fields and their frame count back |
| Timecode.FramesRoundTrip | QC_Preview.py:24-35 | timecode_to_frames(frames_to_timecode(n)) == n for every n >= 0 and rate > 0 |
| Timecode.TimecodeRoundTrip | QC_Preview.py:24-35 | a two-digit-per-field timecode with m, s < 60 and f < fr comes back unchanged from frames_to_timecode(timecode_to_frames(tc)) |
| EditPoints.FirstAbove | QC_Preview.py:55-63 | None exactly when no start frame exceeds skip_frame; otherwise a start frame of the track strictly above skip_frame |
| EditPoints.FirstAboveIsFirst | QC_Preview.py:58-62 | the first item in iteration order whose start exceeds skip_frame is the one returned, whatever follows it |
| EditPoints.FirstAboveSortedIsLeast | QC_Preview.py:58-62 | on a track in timeline order, the returned start is the smallest start above skip_frame |
| EditPoints.NextEditPoint | QC_Preview.py:55-63 | the scan with early `break` returns exactly FirstAbove(starts, skip_frame); its current_frames argument plays no part |
| Stepper.Run | QC_Preview.py:77-98 | the loop never ends with a parse failure, and a stop flag seen at an iteration boundary ends it there with no further edit |
| Stepper.RunEdits | QC_Preview.py:79-95 | the visited edits are start frames of the track, all after the starting frame, strictly increasing, and no more numerous than the items ahead |
| Stepper.RunEnds | QC_Preview.py:77-98 | on a track in any order, the run stops exactly when the flag is set at the boundary after its last edit, and when it finishes no item starts after the last edit visited |
| Stepper.StopBound | QC_Preview.py:77-98 | a stop flag set at iteration j lets the run from iteration k visit at most j - k edits |
| Stepper.CountAboveDecreases | QC_Preview.py:94-95 | moving the threshold onto the edit found leaves strictly fewer items ahead, so the loop terminates |
| Stepper.Expected | QC_Preview.py:71-98 | the run fails before the loop exactly when the playhead's timecode does not parse; every visited edit is at frame 1 or later |
| Stepper.MoveLog | QC_Preview.py:83-89 | two playhead moves per visited edit |
| Stepper.Messages | QC_Preview.py:96-98 | at most one message, present exactly when the loop ran out of edit points, and then it is the completion message |
| Stepper.Process | QC_Preview.py:71-98 | the outcome, the moves and the messages are exactly those of Expected for the starting timecode |
| Stepper.StepEdits | QC_Preview.py:75-98 | the while loop from the parsed frame moves the playhead exactly as Run visits edits, and queues the message exactly when Run finishes |
| Stepper.MoveOntoEdit | QC_Preview.py:83-89 | one iteration's two moves: onto the edit, then onto the frame before it |
| Stepper.LogStep | QC_Preview.py:83-89 | the log of a run is the logs of its parts, one after the other |
| Stepper.RunSoFar | QC_Preview.py:79-95 | an iteration that finds an edit keeps the loop invariant: the run so far plus the rest of the run is the whole run |
| Stepper.RunDone | QC_Preview.py:77-98 | when the loop stops or runs out of edits, the edits visited are the whole run |
| Stepper.MoveLogReadsBack | QC_Preview.py:83-89 | every logged timecode reads back as its edit E or as E-1, and E-1 is never negative |
| Stepper.RunFinishesUnlessStopped | QC_Preview.py:77-98 | with the stop flag never set, the loop always ends with the completion message |
| Stepper.RunVisitsEveryEdit | QC_Preview.py:77-98 | on a strictly sorted track with the stop flag never set, the loop visits every start after the starting frame, in order, and then finishes |
| Scenarios.FieldsExamples | QC_Preview.py:28-34 | 150 frames at 25 fps are 0:0:6:0, 86400 at 24 fps are 1:0:0:0, 299 at 25 fps are 0:0:11:24 |
| Scenarios.RenderExamples | QC_Preview.py:35 | those fields are written "00:00:06:00", "01:00:00:00" and "00:00:11:24" |
| Scenarios.ParseSixSeconds | QC_Preview.py:24-26 | "00:00:06:00" at 25 fps is frame 150 |
| Scenarios.ParseOneHour | QC_Preview.py:24-26 | "01:00:00:00" at 24 fps is frame 86400 |
| Scenarios.ParseLastFrame | QC_Preview.py:24-26 | "00:00:11:24" at 25 fps is frame 299 |
| Scenarios.FormatExamples | QC_Preview.py:28-35 | 150 frames at 25 fps are written "00:00:06:00", 0 at 30 fps "00:00:00:00", 299 at 25 fps "00:00:11:24" |
| Scenarios.SearchExamples | QC_Preview.py:55-63 | on starts [0, 120, 300, 600] the next edit after 120 is 300 and there is none after 600 |
| Scenarios.SortedTrack | QC_Preview.py:77-98 | from frame 0 on starts [120, 300] the loop visits 120 then 300 and finishes |
| Scenarios.StoppedTrack | QC_Preview.py:77 | a stop flag set before the second iteration ends the run after the first edit, with no message |
| Scenarios.UnsortedTrack | QC_Preview.py:58-62 | on starts [300, 120] only 300 is visited: the scan follows iteration order, not timeline order |

## Left out

- The Tkinter UI (`App`), the worker thread, and the start and stop buttons are not modelled. The stop event is the sequence of values it holds at each loop test. A stop raised between the two moves of an iteration only takes effect at the next test, as in the source.
- `get_resolve`, `get_current_timeline`, the `sys.path` setup, and `sys.exit` on a missing host are not modelled. They are environment setup: the model starts from a timeline that exists.
- The host timeline is abstracted as the start frames of its items, in the host's iteration order. The track type and index are fixed to the source's defaults, video track 1. The source reads the track's items again on every iteration; the model fixes them for the whole run, so edits to the timeline during a run are not modelled.
- `time.sleep(interval)` and the float interval are left out. They only pace the moves.
- The `print` calls are left out. They produce console output only.
- The message queue's thread-safe put is modelled as appending to a sequence.
- Timecode.ParseField: `int()` also accepts surrounding whitespace, a sign, underscores and non-ASCII digits. The model treats those fields as the error case. Negative fields therefore never parse.
- Timecode.FramesToTimecode: takes only non-negative counts and a positive rate. Python's floor division of negative counts is not modelled. The loop never passes a negative count: MoveLogReadsBack shows E-1 >= 0.
- Stepper.Process: requires a positive frame rate. In the source, a zero rate raises ZeroDivisionError at the first move, and a negative rate formats with Python's floor semantics.
- An exception in the worker is modelled by the `BadTimecode` outcome, which covers the unparsable starting timecode. The host calls raising exceptions are not modelled.
