/** The per-frame callback's state machine: the remembered histogram, the area
    of the last match, the count of consecutive frames without candidates, and
    whether the remembered histogram may be compared against. */
module Tracking {
  import opened Geometry
  import opened CandidateFilter
  import opened Matching
  import opened Motion

  /** Consecutive empty frames after which the remembered histogram is dropped. */
  const FRAMES_TO_FORGET: int := 5

  datatype Option<T> = None | Some(value: T)

  /** The tracker's fields, as a value. */
  datatype TrackerState = TrackerState(
    prevArea: real,
    previousMatch: Signature,
    lossCount: int,
    matrixValid: bool)

  /** What the constructor sets: no area yet (-1.0), an empty histogram, the
      counter at FRAMES_TO_FORGET and no valid reference. */
  function Initial(): TrackerState {
    TrackerState(-1.0, [], FRAMES_TO_FORGET, false)
  }

  /** The reference is valid exactly while fewer than FRAMES_TO_FORGET empty
      frames have followed the last match. */
  predicate Consistent(s: TrackerState) {
    s.lossCount >= 0 && (s.matrixValid <==> s.lossCount < FRAMES_TO_FORGET)
  }

  /** The score of each candidate: its histogram compared with the reference. */
  function Scores(reference: Signature, cands: seq<Rect>, hist: Rect -> Signature,
                  compare: (Signature, Signature) -> real): seq<real>
  {
    seq(|cands|, i requires 0 <= i < |cands| => compare(reference, hist(cands[i])))
  }

  /** Index p is the candidate the matcher picks in state s: the first one on a
      cold start, otherwise the first strict best score above 0 (or 0). */
  predicate Chosen(s: TrackerState, cands: seq<Rect>, hist: Rect -> Signature,
                   compare: (Signature, Signature) -> real, p: int) {
    0 <= p < |cands| &&
    if s.matrixValid then IsFirstBest(Scores(s.previousMatch, cands, hist, compare), p)
    else p == 0
  }

  /** The new state after a frame whose filtered list is non-empty and whose
      chosen candidate has histogram sig: the histogram is adopted only on a
      cold start. */
  function AfterMatch(s: TrackerState, chosen: Rect, sig: Signature): TrackerState {
    TrackerState(Area(chosen) as real,
                 if s.matrixValid then s.previousMatch else sig,
                 0, true)
  }

  /** The new state after a frame with no candidate left. */
  function AfterEmpty(s: TrackerState): TrackerState {
    var count := s.lossCount + 1;
    TrackerState(s.prevArea, s.previousMatch, count,
                 if count >= FRAMES_TO_FORGET then false else s.matrixValid)
  }

  /** The state after k consecutive empty frames. */
  function EmptyFrames(s: TrackerState, k: nat): TrackerState {
    if k == 0 then s else AfterEmpty(EmptyFrames(s, k - 1))
  }

  /** Both transitions keep Consistent, and the initial state has it. */
  lemma ConsistentInvariant(s: TrackerState, chosen: Rect, sig: Signature)
    ensures Consistent(Initial())
    ensures Consistent(s) ==> Consistent(AfterMatch(s, chosen, sig)) && Consistent(AfterEmpty(s))
  {
  }

  /** k empty frames add exactly k to the counter, never clamped; they leave
      the area and the histogram alone; and the reference survives them only
      if it was valid and the counter stays below FRAMES_TO_FORGET. */
  lemma {:induction false} EmptyFramesSpec(s: TrackerState, k: nat)
    ensures EmptyFrames(s, k).lossCount == s.lossCount + k
    ensures EmptyFrames(s, k).prevArea == s.prevArea
    ensures EmptyFrames(s, k).previousMatch == s.previousMatch
    ensures k > 0 ==>
      (EmptyFrames(s, k).matrixValid <==> s.matrixValid && s.lossCount + k < FRAMES_TO_FORGET)
  {
    if k > 0 {
      EmptyFramesSpec(s, k - 1);
    }
  }

  /** After a match, the reference stays valid for 4 empty frames and is
      dropped from the 5th on; the stale area of the match is kept, so the next
      cold start still compares against it. */
  lemma ForgetAfterMatch(s: TrackerState, chosen: Rect, sig: Signature, k: nat)
    ensures EmptyFrames(AfterMatch(s, chosen, sig), k).matrixValid <==> k < FRAMES_TO_FORGET
    ensures EmptyFrames(AfterMatch(s, chosen, sig), k).prevArea == Area(chosen) as real
  {
    EmptyFramesSpec(AfterMatch(s, chosen, sig), k);
  }

  /** The worked example: a 640-column frame, a cold-start match on
      (x 280, width 100, height 200) gives a zero command and remembers area
      20000; a following match on (x 280, width 120, height 210) gives a zero
      yaw and a forward term of 0.75 * 5200 / 20000. */
  lemma WorkedExample(hist: Rect -> Signature, compare: (Signature, Signature) -> real)
    ensures var a := Rect(280, 0, 100, 200);
      var b := Rect(280, 0, 120, 210);
      var s1 := AfterMatch(Initial(), a, hist(a));
      Chosen(Initial(), [a], hist, compare, 0) &&
      CommandFor(a, Initial().prevArea, 640) == Command(0.0, 0.0) &&
      s1.prevArea == 20000.0 && s1.previousMatch == hist(a) && s1.matrixValid &&
      CommandFor(b, s1.prevArea, 640) == Command(0.75 * 5200.0 / 20000.0, 0.0)
  {
  }

  class Tracker {
    var prevArea: real
    var previousMatch: Signature
    var lossCount: int
    var matrixValid: bool

    function State(): TrackerState
      reads this
    {
      TrackerState(prevArea, previousMatch, lossCount, matrixValid)
    }

    ghost predicate Valid()
      reads this
    {
      Consistent(State())
    }

    constructor ()
      ensures State() == Initial() && Valid()
    {
      prevArea := -1.0;
      previousMatch := [];
      lossCount := FRAMES_TO_FORGET;
      matrixValid := false;
    }

    /** Picks a candidate from a non-empty list. With a valid reference it
        scores every candidate and keeps the first strict best; otherwise it
        takes the first candidate and remembers that candidate's histogram. */
    method FindBestMatch(foundRects: seq<Rect>, hist: Rect -> Signature,
                         compare: (Signature, Signature) -> real)
      returns (best: Rect)
      requires |foundRects| > 0
      modifies this`previousMatch
      ensures exists p :: Chosen(old(State()), foundRects, hist, compare, p) && best == foundRects[p]
      ensures previousMatch == if old(matrixValid) then old(previousMatch) else hist(foundRects[0])
    {
      var position := 0;
      if matrixValid {
        position := SelectBest(Scores(previousMatch, foundRects, hist, compare));
      } else {
        previousMatch := hist(foundRects[0]);
      }
      best := foundRects[position];
      assert Chosen(old(State()), foundRects, hist, compare, position);
    }

    /** One frame: filter the detector's rectangles, then either match and
        return the motion command, or count a frame without candidates. The
        image enters as its width and as the histogram of each region. */
    method ProcessFrame(found: seq<Rect>, cols: int, hist: Rect -> Signature,
                        compare: (Signature, Signature) -> real)
      returns (cmd: Option<Command>)
      requires cols > 0 && Valid()
      modifies this
      ensures Valid()
      ensures var filtered := Filtered(found);
        if filtered == [] then
          cmd == None && State() == AfterEmpty(old(State()))
        else
          exists p :: Chosen(old(State()), filtered, hist, compare, p) &&
            cmd == Some(CommandFor(filtered[p], old(prevArea), cols)) &&
            State() == AfterMatch(old(State()), filtered[p], hist(filtered[p]))
    {
      var filtered := Filter(found);
      if filtered != [] {
        ghost var before := State();
        var bestFit := FindBestMatch(filtered, hist, compare);
        var rectangleCenter := bestFit.x + Half(bestFit.width);
        var rectangleArea := bestFit.width * bestFit.height;
        var yaw := Yaw(rectangleCenter, cols);
        var nextX := Forward(rectangleArea, prevArea);
        cmd := Some(Command(nextX, yaw));
        prevArea := rectangleArea as real;
        lossCount := 0;
        matrixValid := true;
        ghost var p :| Chosen(before, filtered, hist, compare, p) && bestFit == filtered[p];
        assert !before.matrixValid ==> p == 0;
        assert State() == AfterMatch(before, filtered[p], hist(filtered[p]));
      } else {
        lossCount := lossCount + 1;
        if lossCount >= FRAMES_TO_FORGET {
          matrixValid := false;
        }
        cmd := None;
      }
    }
  }
}
