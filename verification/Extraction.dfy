/** `extract_face_encoding`: locate faces, keep the largest one, encode it.
    Face location and encoding are library calls; an `Image` carries what
    they return for it. */
module Extraction {
  import opened Wrappers
  import opened Aggregation
  import opened Liveness

  /** A face location as the detector reports it: (top, right, bottom, left). */
  datatype Box = Box(top: int, right: int, bottom: int, left: int)

  /** The selection key `(x[2]-x[0])*(x[1]-x[3])`. */
  function Area(b: Box): int {
    (b.bottom - b.top) * (b.right - b.left)
  }

  /** Everything the libraries report for one decoded image. */
  datatype Image = Image(
    frame: Frame,               // what the liveness step sees
    locateRaised: bool,         // colour conversion or face location raised
    faces: seq<Box>,            // the face locations, in detector order
    encodeRaised: bool,         // the encoder raised
    encoded: map<Box, Encoding>) // encoding of a location; absent: no encoding returned

  datatype ExtractError = NoFaceFound | NoFeatures | Raised

  /** Python's `max(..., key=area)` scan: `best` is the first box of largest
      area among `boxes[..i]`, and only a strictly larger box replaces it. */
  function LargestFrom(boxes: seq<Box>, i: nat, best: nat): (k: nat)
    requires best < i <= |boxes|
    requires forall j :: 0 <= j < i ==> Area(boxes[j]) <= Area(boxes[best])
    requires forall j :: 0 <= j < best ==> Area(boxes[j]) < Area(boxes[best])
    ensures k < |boxes|
    ensures forall j :: 0 <= j < |boxes| ==> Area(boxes[j]) <= Area(boxes[k])
    ensures forall j :: 0 <= j < k ==> Area(boxes[j]) < Area(boxes[k])
    decreases |boxes| - i
  {
    if i == |boxes| then best
    else if Area(boxes[i]) > Area(boxes[best]) then LargestFrom(boxes, i + 1, i)
    else LargestFrom(boxes, i + 1, best)
  }

  /** Index of the box `max(boxes, key=area)` returns: of largest area, and
      the first such box on ties. */
  function LargestFaceIndex(boxes: seq<Box>): (k: nat)
    requires |boxes| > 0
    ensures k < |boxes|
    ensures forall j :: 0 <= j < |boxes| ==> Area(boxes[j]) <= Area(boxes[k])
    ensures forall j :: 0 <= j < k ==> Area(boxes[j]) < Area(boxes[k])
  {
    LargestFrom(boxes, 1, 0)
  }

  /** The one face location that gets encoded: a single location is kept as
      it is, among several the largest (first on ties) is taken. */
  function SelectFace(boxes: seq<Box>): (b: Box)
    requires |boxes| > 0
    ensures b in boxes
    ensures forall x :: x in boxes ==> Area(x) <= Area(b)
    ensures exists k :: 0 <= k < |boxes| && boxes[k] == b
                        && forall j :: 0 <= j < k ==> Area(boxes[j]) < Area(b)
    ensures |boxes| == 1 ==> b == boxes[0]
  {
    if |boxes| > 1 then boxes[LargestFaceIndex(boxes)] else boxes[0]
  }

  /** The encoding of the selected face, or why there is none. */
  function ExtractFaceEncoding(img: Image): (r: Result<Encoding, ExtractError>)
    ensures r.Success? <==>
      !img.locateRaised && |img.faces| > 0 && !img.encodeRaised && SelectFace(img.faces) in img.encoded
    ensures r.Success? ==> r.value == img.encoded[SelectFace(img.faces)]
    ensures r == Failure(NoFaceFound) <==> !img.locateRaised && |img.faces| == 0
  {
    if img.locateRaised then Failure(Raised)
    else if |img.faces| == 0 then Failure(NoFaceFound)
    else
      var chosen := SelectFace(img.faces);
      if img.encodeRaised then Failure(Raised)
      else if chosen !in img.encoded then Failure(NoFeatures)
      else Success(img.encoded[chosen])
  }
}
