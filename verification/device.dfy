/**
 * The external collaborators of the capture loop: the camera, which hands
 * out frames one read at a time, and the cascade face detector, which is a
 * pure function from a frame to the face regions it finds in it.
 */
module Device {
  import opened Optional

  /** One channel value of a frame's pixel buffer. */
  newtype Byte = b: int | 0 <= b < 256

  /** A detected face: its top-left corner, width and height. */
  datatype Region = Region(x: int, y: int, w: int, h: int)

  /** The fixed tuning of the cascade detector. */
  datatype DetectionParams = DetectionParams(scaleFactor: real, minNeighbors: nat, minWidth: nat, minHeight: nat)

  /** Scale step 1.1, at least 5 neighbouring detections, regions at least 30 by 30 pixels. */
  const CascadeParams := DetectionParams(1.1, 5, 30, 30)

  /** The grayscale conversion followed by the cascade's multi-scale detection. */
  type Detector = (seq<Byte>, DetectionParams) -> seq<Region>

  /**
   * A capture device.  `feed` is what it will deliver, read after read; every
   * successful read overwrites the one frame buffer the device owns, so a
   * frame a caller wants to keep must be copied out of it.
   */
  class Camera {
    const feed: seq<seq<Byte>>
    const buffer: array<Byte>
    var pos: nat

    ghost predicate Valid()
      reads this
    {
      pos <= |feed| && forall i :: 0 <= i < |feed| ==> |feed[i]| == buffer.Length
    }

    constructor (frames: seq<seq<Byte>>, size: nat)
      requires forall i :: 0 <= i < |frames| ==> |frames[i]| == size
      ensures Valid() && fresh(buffer)
      ensures feed == frames && pos == 0 && buffer.Length == size
    {
      feed := frames;
      buffer := new Byte[size];
      pos := 0;
    }

    /** `ret, frame = cap.read()`: `frame` is `None` once the feed is exhausted. */
    method Read() returns (ret: bool, frame: Option<array<Byte>>)
      requires Valid()
      modifies this, buffer
      ensures Valid()
      ensures ret == (old(pos) < |feed|)
      ensures ret ==> frame == Some(buffer) && pos == old(pos) + 1 && buffer[..] == feed[old(pos)]
      ensures !ret ==> frame == None && pos == old(pos) && buffer[..] == old(buffer[..])
    {
      if pos < |feed| {
        forall i | 0 <= i < buffer.Length {
          buffer[i] := feed[pos][i];
        }
        pos := pos + 1;
        ret, frame := true, Some(buffer);
      } else {
        ret, frame := false, None;
      }
    }
  }
}
