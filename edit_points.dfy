/**
 * The edit-point locator of QC_Preview.py (get_next_edit_point): the host's
 * item collection for one track is abstracted as the sequence of the items'
 * start frames, in the order the host iterates them.
 */
module EditPoints {
  import opened Wrappers

  /**
   * The first start frame, in iteration order, strictly after skipFrame; None
   * exactly when no start frame exceeds it.
   */
  function FirstAbove(starts: seq<int>, skipFrame: int): (r: Option<int>)
    ensures r.None? <==> forall i :: 0 <= i < |starts| ==> starts[i] <= skipFrame
    ensures r.Some? ==> r.value > skipFrame && r.value in starts
    decreases |starts|
  {
    if starts == [] then None
    else if starts[0] > skipFrame then Some(starts[0])
    else FirstAbove(starts[1..], skipFrame)
  }

  /** The first start frame past the threshold wins, whatever comes after it. */
  lemma {:induction false} FirstAboveIsFirst(starts: seq<int>, skipFrame: int, k: nat)
    requires k < |starts| && starts[k] > skipFrame
    requires forall j :: 0 <= j < k ==> starts[j] <= skipFrame
    ensures FirstAbove(starts, skipFrame) == Some(starts[k])
    decreases k
  {
    if k > 0 {
      FirstAboveIsFirst(starts[1..], skipFrame, k - 1);
    }
  }

  /** Start frames in non-decreasing order, the order the host is assumed to return. */
  predicate Sorted(starts: seq<int>)
  {
    forall i, j :: 0 <= i < j < |starts| ==> starts[i] <= starts[j]
  }

  /**
   * Start frames strictly increasing: no two items start on the same frame.
   * The loop visits each distinct start once, so listing every start after
   * the cursor as the loop's visits needs this stronger order.
   */
  predicate StrictlySorted(starts: seq<int>)
  {
    forall i, j :: 0 <= i < j < |starts| ==> starts[i] < starts[j]
  }

  /** On a sorted track the first start frame past the threshold is also the smallest one. */
  lemma {:induction false} FirstAboveSortedIsLeast(starts: seq<int>, skipFrame: int)
    requires Sorted(starts)
    requires FirstAbove(starts, skipFrame).Some?
    ensures forall i :: 0 <= i < |starts| && starts[i] > skipFrame ==>
      FirstAbove(starts, skipFrame).value <= starts[i]
    decreases |starts|
  {
    if starts[0] <= skipFrame {
      FirstAboveSortedIsLeast(starts[1..], skipFrame);
      forall i | 0 <= i < |starts| && starts[i] > skipFrame
        ensures FirstAbove(starts, skipFrame).value <= starts[i]
      {
        assert starts[i] == starts[1..][i - 1];
      }
    }
  }

  /**
   * get_next_edit_point: scans the items in order and stops at the first
   * whose start frame is strictly greater than skipFrame. As in the source,
   * the currentFrames parameter takes no part in the search.
   */
  method NextEditPoint(starts: seq<int>, currentFrames: int, skipFrame: int) returns (nextEditFrame: Option<int>)
    ensures nextEditFrame == FirstAbove(starts, skipFrame)
  {
    nextEditFrame := None;
    for i := 0 to |starts|
      invariant nextEditFrame == None
      invariant forall j :: 0 <= j < i ==> starts[j] <= skipFrame
    {
      var startFrame := starts[i];
      if startFrame > skipFrame {
        FirstAboveIsFirst(starts, skipFrame, i);
        nextEditFrame := Some(startFrame);
        break;
      }
    }
  }
}
