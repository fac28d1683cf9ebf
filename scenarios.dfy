/**
 * Worked examples: the fields of a few frame counts, the text they are
 * written as, the edit-point search, and the stepping loop on a two-item
 * track, sorted and unsorted, with and without the stop flag.
 */
module Scenarios {
  import opened Wrappers
  import opened Timecode
  import opened EditPoints
  import opened Stepper

  /** 150 frames at 25 fps are six seconds; 86400 frames at 24 fps are one hour; 299 at 25 fps are 11 s 24 f. */
  lemma FieldsExamples()
    ensures FieldsOf(150, 25) == Fields(0, 0, 6, 0)
    ensures FieldsOf(86400, 24) == Fields(1, 0, 0, 0)
    ensures FieldsOf(299, 25) == Fields(0, 0, 11, 24)
  {
    FieldsOfToFrames(Fields(0, 0, 6, 0), 25);
    FieldsOfToFrames(Fields(1, 0, 0, 0), 24);
    FieldsOfToFrames(Fields(0, 0, 11, 24), 25);
  }

  /** Fields are written as two-digit numerals separated by ':'. */
  lemma RenderExamples()
    ensures Render(Fields(0, 0, 6, 0)) == "00:00:06:00"
    ensures Render(Fields(1, 0, 0, 0)) == "01:00:00:00"
    ensures Render(Fields(0, 0, 11, 24)) == "00:00:11:24"
  {
    assert Digits(0) == "0" && Digits(1) == "1" && Digits(6) == "6";
    assert Digits(11) == "11" && Digits(24) == "24";
  }

  /** "00:00:06:00" at 25 fps is frame 150. */
  lemma ParseSixSeconds()
    ensures TimecodeToFrames("00:00:06:00", 25) == Some(150)
  {
    RenderExamples();
    ParseRender(Fields(0, 0, 6, 0), 25);
  }

  /** "01:00:00:00" at 24 fps is frame 86400. */
  lemma ParseOneHour()
    ensures TimecodeToFrames("01:00:00:00", 24) == Some(86400)
  {
    RenderExamples();
    ParseRender(Fields(1, 0, 0, 0), 24);
  }

  /** "00:00:11:24" at 25 fps is frame 299. */
  lemma ParseLastFrame()
    ensures TimecodeToFrames("00:00:11:24", 25) == Some(299)
  {
    RenderExamples();
    ParseRender(Fields(0, 0, 11, 24), 25);
  }

  /** Writing a frame count: 150 at 25 fps is six seconds, 0 at 30 fps is zero, 299 at 25 fps is 11 s 24 f. */
  lemma FormatExamples()
    ensures FramesToTimecode(150, 25) == "00:00:06:00"
    ensures FramesToTimecode(0, 30) == "00:00:00:00"
    ensures FramesToTimecode(299, 25) == "00:00:11:24"
  {
    FieldsExamples();
    RenderExamples();
    FramesToTimecodeFields(150, 25);
    FramesToTimecodeFields(0, 30);
    FramesToTimecodeFields(299, 25);
    assert FieldsOf(0, 30) == Fields(0, 0, 0, 0) by {
      FieldsOfToFrames(Fields(0, 0, 0, 0), 30);
    }
  }

  /** The first start after 120 is 300; nothing starts after 600. */
  lemma SearchExamples()
    ensures FirstAbove([0, 120, 300, 600], 120) == Some(300)
    ensures FirstAbove([0, 120, 300, 600], 600) == None
    ensures FirstAbove([300, 120], 0) == Some(300)
  {
    FirstAboveIsFirst([0, 120, 300, 600], 120, 2);
    FirstAboveIsFirst([300, 120], 0, 0);
  }

  /** From frame 0 on a track whose items start at 120 and 300, the loop visits both and reports completion. */
  lemma SortedTrack()
    ensures Run([120, 300], 0, [], 0) == Session([120, 300], Finished)
  {
    RunVisitsEveryEdit([120, 300], 0, [], 0);
    AfterAll([120, 300], 0);
  }

  /** A stop flag seen before the second iteration ends the run after the first edit, with no message. */
  lemma StoppedTrack()
    ensures Run([120, 300], 0, [false, true], 0) == Session([120], Stopped)
  {
    FirstAboveIsFirst([120, 300], 0, 0);
  }

  /**
   * On an unsorted track the loop keeps to iteration order: after visiting
   * 300 nothing later in the list starts after it, so 120 is never visited.
   */
  lemma UnsortedTrack()
    ensures Run([300, 120], 0, [], 0) == Session([300], Finished)
  {
    SearchExamples();
    assert FirstAbove([300, 120], 300) == None;
  }
}
