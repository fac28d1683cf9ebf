/**
 * The stepping loop of QC_Preview.py (process): from the playhead's current
 * timecode, repeatedly find the next edit point after the cursor, park the
 * playhead on it and then one frame before it, and advance the cursor, until
 * no edit point is left (one completion message) or the stop flag is seen
 * set at an iteration boundary (no message).
 *
 * The host is abstracted: the track is the sequence of its items' start
 * frames, the playhead's starting timecode is a parameter, the stop flag is
 * the value it has at each iteration boundary, the playhead moves are the
 * log of timecodes passed to SetCurrentTimecode, and the message queue is
 * the sequence of messages put on it.
 */
module Stepper {
  import opened Wrappers
  import opened Timecode
  import opened EditPoints

  /** The completion message put on the queue when no edit point is left. */
  const FinishedMessage: string := "结束啦！"

  /**
   * How a run ends: the starting timecode did not parse (the exception ends
   * the worker before the loop), the stop flag was seen, or no edit was left.
   */
  datatype Outcome = BadTimecode | Stopped | Finished

  /** The edit points a run visits, in order, and how it ends. */
  datatype Session = Session(edits: seq<int>, outcome: Outcome)

  /** Whether the stop flag is set when the loop tests it before iteration k; unset past the end of the sequence. */
  predicate StopRequested(stopFlags: seq<bool>, k: nat)
  {
    k < |stopFlags| && stopFlags[k]
  }

  /** How many items start strictly after the cursor: the loop's variant. */
  function CountAbove(starts: seq<int>, cursor: int): nat
    decreases |starts|
  {
    if starts == [] then 0
    else (if starts[0] > cursor then 1 else 0) + CountAbove(starts[1..], cursor)
  }

  lemma {:induction false} CountAboveMonotone(starts: seq<int>, lo: int, hi: int)
    requires lo <= hi
    ensures CountAbove(starts, hi) <= CountAbove(starts, lo)
    decreases |starts|
  {
    if starts != [] {
      CountAboveMonotone(starts[1..], lo, hi);
    }
  }

  /** Moving the cursor onto an item that starts after it leaves strictly fewer items ahead. */
  lemma {:induction false} CountAboveDecreases(starts: seq<int>, cursor: int, edit: int)
    requires cursor < edit && edit in starts
    ensures CountAbove(starts, edit) < CountAbove(starts, cursor)
    decreases |starts|
  {
    if starts[0] == edit {
      CountAboveMonotone(starts[1..], cursor, edit);
    } else {
      assert edit in starts[1..];
      CountAboveDecreases(starts[1..], cursor, edit);
    }
  }

  /**
   * The loop from iteration k on, with the effective threshold (current_frames)
   * at cursor. It terminates because each visited edit leaves fewer items
   * ahead of the cursor; RunEdits states what it visits.
   */
  function Run(starts: seq<int>, cursor: int, stopFlags: seq<bool>, k: nat): (r: Session)
    ensures r.outcome != BadTimecode
    ensures StopRequested(stopFlags, k) ==> r == Session([], Stopped)
    decreases CountAbove(starts, cursor)
  {
    if StopRequested(stopFlags, k) then Session([], Stopped)
    else
      match FirstAbove(starts, cursor)
      case None => Session([], Finished)
      case Some(edit) =>
        CountAboveDecreases(starts, cursor, edit);
        var rest := Run(starts, edit, stopFlags, k + 1);
        Session([edit] + rest.edits, rest.outcome)
  }

  /** The effective threshold after visiting edits from cursor: the last edit, or cursor when there is none. */
  function Last(cursor: int, edits: seq<int>): int
  {
    if edits == [] then cursor else edits[|edits| - 1]
  }

  /**
   * How a run ends, on a track in any order: it stops exactly when the flag
   * is set at the boundary after its last edit, and when it finishes no item
   * starts after the last edit visited.
   */
  lemma {:induction false} RunEnds(starts: seq<int>, cursor: int, stopFlags: seq<bool>, k: nat)
    ensures var r := Run(starts, cursor, stopFlags, k);
      && (r.outcome == Stopped <==> StopRequested(stopFlags, k + |r.edits|))
      && (r.outcome == Finished ==> forall i :: 0 <= i < |starts| ==> starts[i] <= Last(cursor, r.edits))
    decreases CountAbove(starts, cursor)
  {
    var next := FirstAbove(starts, cursor);
    if !StopRequested(stopFlags, k) && next.Some? {
      CountAboveDecreases(starts, cursor, next.value);
      RunEnds(starts, next.value, stopFlags, k + 1);
      var rest := Run(starts, next.value, stopFlags, k + 1);
      assert Last(cursor, [next.value] + rest.edits) == Last(next.value, rest.edits);
    }
  }

  /**
   * A stop flag set at iteration j bounds the run from iteration k <= j to
   * at most j - k edits: each iteration before j visits at most one.
   */
  lemma {:induction false} StopBound(starts: seq<int>, cursor: int, stopFlags: seq<bool>, k: nat, j: nat)
    requires k <= j && StopRequested(stopFlags, j)
    ensures |Run(starts, cursor, stopFlags, k).edits| <= j - k
    decreases j - k
  {
    if !StopRequested(stopFlags, k) {
      var next := FirstAbove(starts, cursor);
      if next.Some? {
        CountAboveDecreases(starts, cursor, next.value);
        StopBound(starts, next.value, stopFlags, k + 1, j);
      }
    }
  }

  /**
   * The edits a run visits strictly increase from after the cursor, each is
   * an item's start frame, and there are no more of them than items ahead of
   * the cursor.
   */
  lemma {:induction false} RunEdits(starts: seq<int>, cursor: int, stopFlags: seq<bool>, k: nat)
    ensures var r := Run(starts, cursor, stopFlags, k);
      && (forall i :: 0 <= i < |r.edits| ==> r.edits[i] > cursor && r.edits[i] in starts)
      && (forall i, j :: 0 <= i < j < |r.edits| ==> r.edits[i] < r.edits[j])
      && |r.edits| <= CountAbove(starts, cursor)
    decreases CountAbove(starts, cursor)
  {
    var next := FirstAbove(starts, cursor);
    if !StopRequested(stopFlags, k) && next.Some? {
      var edit := next.value;
      CountAboveDecreases(starts, cursor, edit);
      RunEdits(starts, edit, stopFlags, k + 1);
      var rest := Run(starts, edit, stopFlags, k + 1);
      var r := Run(starts, cursor, stopFlags, k);
      assert r.edits == [edit] + rest.edits;
      forall i | 0 <= i < |r.edits| ensures r.edits[i] > cursor && r.edits[i] in starts {
        if i > 0 {
          assert r.edits[i] == rest.edits[i - 1];
        }
      }
      forall i, j | 0 <= i < j < |r.edits| ensures r.edits[i] < r.edits[j] {
        assert r.edits[j] == rest.edits[j - 1];
        if i > 0 {
          assert r.edits[i] == rest.edits[i - 1];
        }
      }
    }
  }

  /** What process does for a starting timecode: no loop at all if the timecode does not parse. */
  function Expected(starts: seq<int>, currentTimecode: string, frameRate: int, stopFlags: seq<bool>): (s: Session)
    requires frameRate > 0
    ensures s.outcome == BadTimecode <==> TimecodeToFrames(currentTimecode, frameRate).None?
    ensures Positive(s.edits)
  {
    match TimecodeToFrames(currentTimecode, frameRate)
    case None => Session([], BadTimecode)
    case Some(cursor) =>
      RunEdits(starts, cursor, stopFlags, 0);
      Run(starts, cursor, stopFlags, 0)
  }

  /** Every visited edit lies at frame 1 or later, so the frame before it is a valid position. */
  predicate Positive(edits: seq<int>)
  {
    forall i :: 0 <= i < |edits| ==> edits[i] >= 1
  }

  /** The timecodes passed to SetCurrentTimecode for the visited edits: each edit, then the frame before it. */
  function MoveLog(edits: seq<int>, frameRate: int): (r: seq<string>)
    requires frameRate > 0 && Positive(edits)
    ensures |r| == 2 * |edits|
  {
    seq(2 * |edits|, i requires 0 <= i < 2 * |edits| => FramesToTimecode(edits[i / 2] - i % 2, frameRate))
  }

  /** The messages put on the queue: the completion message once, and only when no edit was left. */
  function Messages(outcome: Outcome): (r: seq<string>)
    ensures |r| <= 1
    ensures |r| == 1 <==> outcome == Finished
    ensures outcome == Finished ==> r == [FinishedMessage]
  {
    if outcome == Finished then [FinishedMessage] else []
  }

  /**
   * process: reads the playhead's timecode and runs the stepping loop from
   * it. It moves the playhead exactly as Expected says, puts the completion
   * message on the queue only when it ran out of edit points, and does
   * nothing at all when the starting timecode fails to parse.
   */
  method Process(starts: seq<int>, currentTimecode: string, frameRate: int, stopFlags: seq<bool>)
    returns (outcome: Outcome, moves: seq<string>, messages: seq<string>)
    requires frameRate > 0
    ensures var s := Expected(starts, currentTimecode, frameRate, stopFlags);
      outcome == s.outcome && moves == MoveLog(s.edits, frameRate) && messages == Messages(outcome)
  {
    var parsed := TimecodeToFrames(currentTimecode, frameRate);
    if parsed.None? {
      return BadTimecode, [], [];
    }
    outcome, moves, messages := StepEdits(starts, parsed.value, frameRate, stopFlags);
  }

  /**
   * The while loop of process, from the cursor the playhead's timecode gives:
   * it parks the playhead on each edit the run visits and then one frame
   * before it, and ends with the completion message exactly when it ran out
   * of edit points, with no message when the stop flag was seen.
   */
  method StepEdits(starts: seq<int>, start: nat, frameRate: int, stopFlags: seq<bool>)
    returns (outcome: Outcome, moves: seq<string>, messages: seq<string>)
    requires frameRate > 0
    ensures var s := Run(starts, start, stopFlags, 0);
      Positive(s.edits) && outcome == s.outcome && moves == MoveLog(s.edits, frameRate)
      && messages == Messages(outcome)
  {
    var currentFrames := start;
    var nextFrameToCheck := currentFrames;
    ghost var visited: seq<int> := [];
    var k := 0;
    outcome, moves, messages := Stopped, [], [];
    while !StopRequested(stopFlags, k)
      invariant currentFrames >= start
      invariant Positive(visited)
      invariant moves == MoveLog(visited, frameRate)
      invariant VisitedSoFar(starts, start, visited, currentFrames, stopFlags, k)
      invariant outcome == Stopped && messages == []
      decreases CountAbove(starts, currentFrames)
    {
      var nextEditFrame := NextEditPoint(starts, nextFrameToCheck, currentFrames);
      if nextEditFrame.Some? {
        var edit := nextEditFrame.value;
        var pair := MoveOntoEdit(edit, frameRate);
        moves := moves + pair;
        assert CountAbove(starts, edit) < CountAbove(starts, currentFrames) by {
          CountAboveDecreases(starts, currentFrames, edit);
        }
        assert VisitedSoFar(starts, start, visited + [edit], edit, stopFlags, k + 1) by {
          RunSoFar(starts, start, visited, currentFrames, stopFlags, k, edit);
        }
        assert Positive(visited + [edit]) && moves == MoveLog(visited + [edit], frameRate) by {
          LogStep(visited, [edit], frameRate);
        }
        visited := visited + [edit];
        nextFrameToCheck := edit + 1;
        currentFrames := edit;
        k := k + 1;
      } else {
        messages := messages + [FinishedMessage];
        outcome := Finished;
        assert Run(starts, start, stopFlags, 0) == Session(visited, Finished) by {
          RunDone(starts, start, visited, currentFrames, stopFlags, k);
        }
        return;
      }
    }
    assert Run(starts, start, stopFlags, 0) == Session(visited, Stopped) by {
      RunDone(starts, start, visited, currentFrames, stopFlags, k);
    }
  }

  /**
   * The loop invariant: the whole run from the starting cursor is the edits
   * visited so far followed by the run from the current cursor at iteration k.
   */
  ghost predicate VisitedSoFar(starts: seq<int>, start: int, visited: seq<int>, cursor: int, stopFlags: seq<bool>, k: nat)
  {
    var rest := Run(starts, cursor, stopFlags, k);
    Run(starts, start, stopFlags, 0) == Session(visited + rest.edits, rest.outcome)
  }

  /** When the loop ends, the edits visited so far are the whole run. */
  lemma RunDone(starts: seq<int>, start: int, visited: seq<int>, cursor: int, stopFlags: seq<bool>, k: nat)
    requires VisitedSoFar(starts, start, visited, cursor, stopFlags, k)
    requires StopRequested(stopFlags, k) || FirstAbove(starts, cursor).None?
    ensures Run(starts, start, stopFlags, 0) == Session(visited, Run(starts, cursor, stopFlags, k).outcome)
  {
    assert visited + [] == visited;
  }

  /** One iteration that finds an edit keeps the loop invariant, with the edit appended and the cursor moved onto it. */
  lemma RunSoFar(starts: seq<int>, start: int, visited: seq<int>, cursor: int, stopFlags: seq<bool>, k: nat, edit: int)
    requires VisitedSoFar(starts, start, visited, cursor, stopFlags, k)
    requires !StopRequested(stopFlags, k) && FirstAbove(starts, cursor) == Some(edit)
    ensures VisitedSoFar(starts, start, visited + [edit], edit, stopFlags, k + 1)
  {
    var rest := Run(starts, edit, stopFlags, k + 1);
    assert Run(starts, cursor, stopFlags, k) == Session([edit] + rest.edits, rest.outcome);
    assert visited + ([edit] + rest.edits) == visited + [edit] + rest.edits;
  }

  /** The playhead log of a run is the logs of its parts, one after the other. */
  lemma LogStep(visited: seq<int>, more: seq<int>, frameRate: int)
    requires frameRate > 0 && Positive(visited) && Positive(more)
    ensures Positive(visited + more)
    ensures MoveLog(visited + more, frameRate) == MoveLog(visited, frameRate) + MoveLog(more, frameRate)
  {
    var whole, parts := MoveLog(visited + more, frameRate), MoveLog(visited, frameRate) + MoveLog(more, frameRate);
    forall i | 0 <= i < |whole| ensures whole[i] == parts[i] {
      if i >= 2 * |visited| {
        var j := i - 2 * |visited|;
        assert j / 2 == i / 2 - |visited| && j % 2 == i % 2;
        assert (visited + more)[i / 2] == more[j / 2];
      } else {
        assert (visited + more)[i / 2] == visited[i / 2];
      }
    }
  }

  /** The two playhead moves of one iteration: onto the edit, then one frame back. */
  method MoveOntoEdit(edit: int, frameRate: int) returns (pair: seq<string>)
    requires frameRate > 0 && edit >= 1
    ensures Positive([edit]) && pair == MoveLog([edit], frameRate)
  {
    var here := FramesToTimecode(edit, frameRate);
    var previousFrame := edit - 1;
    var before := FramesToTimecode(previousFrame, frameRate);
    pair := [here, before];
  }

  /** With the stop flag never set, a run always ends on the completion message. */
  lemma {:induction false} RunFinishesUnlessStopped(starts: seq<int>, cursor: int, stopFlags: seq<bool>, k: nat)
    requires forall j :: 0 <= j < |stopFlags| ==> !stopFlags[j]
    ensures Run(starts, cursor, stopFlags, k).outcome == Finished
    decreases CountAbove(starts, cursor)
  {
    var next := FirstAbove(starts, cursor);
    if next.Some? {
      CountAboveDecreases(starts, cursor, next.value);
      RunFinishesUnlessStopped(starts, next.value, stopFlags, k + 1);
    }
  }

  /** The start frames strictly after the cursor, in track order. */
  function After(starts: seq<int>, cursor: int): seq<int>
    decreases |starts|
  {
    if starts == [] then []
    else if starts[0] > cursor then [starts[0]] + After(starts[1..], cursor)
    else After(starts[1..], cursor)
  }

  lemma {:induction false} AfterAll(starts: seq<int>, cursor: int)
    requires forall i :: 0 <= i < |starts| ==> starts[i] > cursor
    ensures After(starts, cursor) == starts
    decreases |starts|
  {
    if starts != [] {
      AfterAll(starts[1..], cursor);
    }
  }

  /** On a sorted track the next edit point is the first of the starts after the cursor, and the rest follow it. */
  lemma {:induction false} AfterStep(starts: seq<int>, cursor: int)
    requires StrictlySorted(starts) && FirstAbove(starts, cursor).Some?
    ensures var edit := FirstAbove(starts, cursor).value;
      After(starts, cursor) == [edit] + After(starts, edit)
    decreases |starts|
  {
    var edit := FirstAbove(starts, cursor).value;
    if starts[0] > cursor {
      AfterAll(starts[1..], cursor);
      AfterAll(starts[1..], edit);
    } else {
      AfterStep(starts[1..], cursor);
    }
  }

  /**
   * On a strictly sorted track with the stop flag never set, the loop visits
   * every edit point after the cursor exactly once, in timeline order, and
   * then finishes.
   */
  lemma {:induction false} RunVisitsEveryEdit(starts: seq<int>, cursor: int, stopFlags: seq<bool>, k: nat)
    requires StrictlySorted(starts)
    requires forall j :: 0 <= j < |stopFlags| ==> !stopFlags[j]
    ensures Run(starts, cursor, stopFlags, k) == Session(After(starts, cursor), Finished)
    decreases CountAbove(starts, cursor)
  {
    var next := FirstAbove(starts, cursor);
    if next.Some? {
      CountAboveDecreases(starts, cursor, next.value);
      RunVisitsEveryEdit(starts, next.value, stopFlags, k + 1);
      AfterStep(starts, cursor);
    } else {
      assert After(starts, cursor) == [] by {
        AfterNone(starts, cursor);
      }
    }
  }

  lemma {:induction false} AfterNone(starts: seq<int>, cursor: int)
    requires forall i :: 0 <= i < |starts| ==> starts[i] <= cursor
    ensures After(starts, cursor) == []
    decreases |starts|
  {
    if starts != [] {
      AfterNone(starts[1..], cursor);
    }
  }

  /**
   * Entry k of the playhead log reads back, through timecode_to_frames, as
   * the frame it was written from: edit k/2 itself for even k, the frame
   * before it for odd k, never a negative frame.
   */
  lemma MoveLogReadsBack(edits: seq<int>, frameRate: int, k: nat)
    requires frameRate > 0 && Positive(edits) && k < 2 * |edits|
    ensures edits[k / 2] - k % 2 >= 0
    ensures TimecodeToFrames(MoveLog(edits, frameRate)[k], frameRate) == Some(edits[k / 2] - k % 2)
  {
    var frames := edits[k / 2] - k % 2;
    assert MoveLog(edits, frameRate)[k] == FramesToTimecode(frames, frameRate);
    FramesRoundTrip(frames, frameRate);
  }
}
