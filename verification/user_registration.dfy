/**
 * The enrollment capture session: `VideoCapture` samples a number of frames
 * from the camera, scores each by the number of faces the detector finds in
 * it, and keeps a private copy of the first frame reaching the best score.
 */
module UserRegistration {
  import opened Optional
  import opened Device
  import opened Selection

  /** The score of a frame: the number of face regions found in it. */
  function Score(faces: seq<Region>): (r: nat)
    ensures r == 0 <==> faces == []
  {
    |faces|
  }

  /** `frame.copy()`: a new buffer with the same contents. */
  method CopyFrame(frame: array<Byte>) returns (copy: array<Byte>)
    ensures fresh(copy) && copy[..] == frame[..]
  {
    copy := new Byte[frame.Length];
    var i := 0;
    while i < frame.Length
      invariant 0 <= i <= frame.Length
      invariant forall j :: 0 <= j < i ==> copy[j] == frame[j]
    {
      copy[i] := frame[i];
      i := i + 1;
    }
  }

  /**
   * What the session state means, on values: `scores` are the scores of
   * `frames`, `maxAccuracy` is the largest of 0 and all of them, and `best`
   * (the kept frame's contents) is absent exactly when no face was ever seen
   * and otherwise is the first frame reaching that maximum.
   */
  ghost predicate Tracks(detect: Detector, frames: seq<seq<Byte>>, scores: seq<nat>,
                         maxAccuracy: nat, best: Option<seq<Byte>>)
  {
    |scores| == |frames| &&
    (forall i :: 0 <= i < |frames| ==> scores[i] == Score(detect(frames[i], CascadeParams))) &&
    maxAccuracy == Peak(scores) &&
    (best.None? <==> Winner(scores).None?) &&
    (best.Some? ==> Winner(scores).Some? && best.value == frames[Winner(scores).value])
  }

  /**
   * One pass of the loop body keeps `Tracks`: the frame's score replaces the
   * kept maximum, and the frame the kept frame, only when it is strictly
   * greater.
   */
  lemma TrackFrame(detect: Detector, frames: seq<seq<Byte>>, scores: seq<nat>,
                   maxAccuracy: nat, best: Option<seq<Byte>>, frame: seq<Byte>)
    requires Tracks(detect, frames, scores, maxAccuracy, best)
    ensures var accuracy := Score(detect(frame, CascadeParams));
      Tracks(detect, frames + [frame], scores + [accuracy],
             if accuracy > maxAccuracy then accuracy else maxAccuracy,
             if accuracy > maxAccuracy then Some(frame) else best)
  {
    Step(scores, Score(detect(frame, CascadeParams)));
  }

  class VideoCapture {
    const cap: Camera
    const detect: Detector
    var bestFrame: Option<array<Byte>>
    var maxAccuracy: nat
    /** Every frame read so far, by this and earlier calls, and its score. */
    ghost var frames: seq<seq<Byte>>
    ghost var scores: seq<nat>

    /** The contents of the kept frame, if there is one. */
    ghost function Best(): Option<seq<Byte>>
      reads this, if bestFrame.Some? then {bestFrame.value} else {}
    {
      if bestFrame.Some? then Some(bestFrame.value[..]) else None
    }

    /**
     * The session state tracks every frame seen so far, and the kept frame
     * lives in a buffer of its own, never the camera's.
     */
    ghost predicate Valid()
      reads this, cap, if bestFrame.Some? then {bestFrame.value} else {}
    {
      cap.Valid() &&
      Tracks(detect, frames, scores, maxAccuracy, Best()) &&
      (bestFrame.Some? ==> bestFrame.value != cap.buffer)
    }

    /**
     * The invariant in the source's own terms: a frame is kept exactly when
     * the kept score is positive, and the kept frame scores exactly that.
     */
    lemma KeptFrameScoresMaxAccuracy()
      requires Valid()
      ensures bestFrame.Some? <==> maxAccuracy > 0
      ensures bestFrame.Some? ==> Score(detect(bestFrame.value[..], CascadeParams)) == maxAccuracy
    {
      WinnerIsFirstMaximum(scores);
      PeakIsMaximum(scores);
    }

    constructor (device: Camera, detector: Detector)
      requires device.Valid()
      ensures Valid()
      ensures cap == device && detect == detector
      ensures bestFrame == None && maxAccuracy == 0 && frames == []
    {
      cap := device;
      detect := detector;
      bestFrame := None;
      maxAccuracy := 0;
      frames := [];
      scores := [];
    }

    /**
     * One pass of the loop body of `capture_frames`: read a frame, score it,
     * and keep a copy of it if its score is strictly greater than the kept
     * one.  `got` is false when the camera is exhausted; nothing changes then
     * (the source goes on to raise in the colour conversion).
     */
    method SampleOnce() returns (got: bool)
      requires Valid()
      modifies this, cap, cap.buffer
      ensures Valid()
      ensures got == (old(cap.pos) < |cap.feed|)
      ensures got ==> cap.pos == old(cap.pos) + 1 && frames == old(frames) + [cap.feed[old(cap.pos)]]
      ensures !got ==> cap.pos == old(cap.pos) && frames == old(frames)
      ensures maxAccuracy >= old(maxAccuracy)
      ensures maxAccuracy == old(maxAccuracy) ==> bestFrame == old(bestFrame)
      ensures maxAccuracy > old(maxAccuracy) ==> bestFrame.Some? && fresh(bestFrame.value)
      ensures bestFrame == old(bestFrame) && bestFrame.Some? ==> bestFrame.value[..] == old(bestFrame.value[..])
    {
      ghost var before := Best();
      var ret, frame := cap.Read();
      if frame.None? {
        return false;
      }
      assert Best() == before;
      var accuracy := Score(detect(frame.value[..], CascadeParams));
      TrackFrame(detect, frames, scores, maxAccuracy, before, frame.value[..]);
      if accuracy > maxAccuracy {
        maxAccuracy := accuracy;
        var copy := CopyFrame(frame.value);
        bestFrame := Some(copy);
      }
      frames := frames + [frame.value[..]];
      scores := scores + [accuracy];
      return true;
    }

    /**
     * `capture_frames(duration)`: `duration` reads (none when it is 0 or
     * negative).  `completed` is false when a read finds the camera exhausted:
     * the source then passes `None` to the colour conversion, which raises,
     * and the call ends with the state the earlier reads left.
     */
    method CaptureFrames(duration: int) returns (completed: bool)
      requires Valid()
      modifies this, cap, cap.buffer
      ensures Valid()
      ensures var wanted := if duration > 0 then duration else 0;
        completed == (old(cap.pos) + wanted <= |cap.feed|) &&
        cap.pos == (if completed then old(cap.pos) + wanted else |cap.feed|)
      ensures frames == old(frames) + cap.feed[old(cap.pos)..cap.pos]
      ensures maxAccuracy >= old(maxAccuracy)
      ensures maxAccuracy == old(maxAccuracy) ==> bestFrame == old(bestFrame)
      ensures maxAccuracy > old(maxAccuracy) ==> bestFrame.Some? && fresh(bestFrame.value)
      ensures bestFrame == old(bestFrame) && bestFrame.Some? ==> bestFrame.value[..] == old(bestFrame.value[..])
      ensures duration <= 0 ==>
        completed && cap.pos == old(cap.pos) && frames == old(frames) && scores == old(scores) &&
        maxAccuracy == old(maxAccuracy) && bestFrame == old(bestFrame)
    {
      var wanted := if duration > 0 then duration else 0;
      var k := 0;
      while k < wanted
        invariant 0 <= k <= wanted
        invariant Valid()
        invariant cap.pos == old(cap.pos) + k
        invariant frames == old(frames) + cap.feed[old(cap.pos)..cap.pos]
        invariant maxAccuracy >= old(maxAccuracy)
        invariant maxAccuracy == old(maxAccuracy) ==> bestFrame == old(bestFrame)
        invariant maxAccuracy > old(maxAccuracy) ==> bestFrame.Some? && fresh(bestFrame.value)
        invariant bestFrame == old(bestFrame) && bestFrame.Some? ==> bestFrame.value[..] == old(bestFrame.value[..])
      {
        var got := SampleOnce();
        if !got {
          return false;
        }
        assert cap.feed[old(cap.pos)..cap.pos] == cap.feed[old(cap.pos)..cap.pos - 1] + [cap.feed[cap.pos - 1]];
        k := k + 1;
      }
      return true;
    }
  }
}
