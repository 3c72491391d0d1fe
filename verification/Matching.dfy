/** The matching decision of `recognize_face`: the first enrolled encoding of
    least distance to the probe wins, confidence is one minus that distance,
    and the match is accepted only above the recognition threshold. The
    distance itself (`face_distance`) is a library call, passed in. */
module Matching {
  import opened Wrappers
  import opened Aggregation
  import opened Extraction

  /** `recognition_threshold`. */
  const RecognitionThreshold: real := 0.25

  /** A distance between a stored encoding and the probe. */
  type Distance = (Encoding, Encoding) -> real

  function Distances(encodings: seq<Encoding>, probe: Encoding, dist: Distance): (ds: seq<real>)
    ensures |ds| == |encodings|
    ensures forall i :: 0 <= i < |ds| ==> ds[i] == dist(encodings[i], probe)
  {
    seq(|encodings|, i requires 0 <= i < |encodings| => dist(encodings[i], probe))
  }

  /** `np.argmin` scan: `best` is the first index of least value among
      `ds[..i]`, and only a strictly smaller value replaces it. */
  function ArgMinFrom(ds: seq<real>, i: nat, best: nat): (k: nat)
    requires best < i <= |ds|
    requires forall j :: 0 <= j < i ==> ds[best] <= ds[j]
    requires forall j :: 0 <= j < best ==> ds[best] < ds[j]
    ensures k < |ds|
    ensures forall j :: 0 <= j < |ds| ==> ds[k] <= ds[j]
    ensures forall j :: 0 <= j < k ==> ds[k] < ds[j]
    decreases |ds| - i
  {
    if i == |ds| then best
    else if ds[i] < ds[best] then ArgMinFrom(ds, i + 1, i)
    else ArgMinFrom(ds, i + 1, best)
  }

  /** `np.argmin`: the first index of the least value. */
  function FirstArgMin(ds: seq<real>): (k: nat)
    requires |ds| > 0
    ensures k < |ds|
    ensures forall j :: 0 <= j < |ds| ==> ds[k] <= ds[j]
    ensures forall j :: 0 <= j < k ==> ds[k] < ds[j]
  {
    ArgMinFrom(ds, 1, 0)
  }

  /** The outcome of `recognize_face`. */
  datatype Recognition =
    | NoEnrolledFaces
    | NoEncoding(error: ExtractError)
    | Recognized(name: string, confidence: real)
    | Unknown(confidence: real)
  {
    /** The first element of the returned tuple. */
    function Name(): Option<string> {
      match this
      case Recognized(n, _) => Some(n)
      case Unknown(_) => Some("Unknown")
      case _ => None
    }

    /** The second element of the returned tuple. */
    function Confidence(): real {
      match this
      case Recognized(_, c) => c
      case Unknown(c) => c
      case _ => 0.0
    }

    /** The fourth element of the returned tuple: the match was accepted. */
    predicate Accepted() {
      Recognized?
    }
  }

  /** Nearest-neighbour decision against a non-empty registry. */
  function MatchProbe(names: seq<string>, encodings: seq<Encoding>, probe: Encoding, dist: Distance): (r: Recognition)
    requires |names| == |encodings| > 0
    ensures r.Recognized? || r.Unknown?
    ensures r.Accepted() <==> r.confidence > RecognitionThreshold
    ensures forall i :: 0 <= i < |encodings| ==> 1.0 - dist(encodings[i], probe) <= r.confidence
    ensures exists k :: (0 <= k < |encodings|
                         && r.confidence == 1.0 - dist(encodings[k], probe)
                         && (forall j :: 0 <= j < k ==> 1.0 - dist(encodings[j], probe) < r.confidence)
                         && (r.Recognized? ==> r.name == names[k]))
  {
    var ds := Distances(encodings, probe, dist);
    var best := FirstArgMin(ds);
    var confidence := 1.0 - ds[best];
    if confidence > RecognitionThreshold then Recognized(names[best], confidence)
    else Unknown(confidence)
  }

  /** A probe identical to an enrolled encoding gets the highest confidence
      there is (distance zero) and is accepted, when the distance is a
      non-negative function that is zero on equal encodings. */
  lemma IdenticalProbeIsAccepted(names: seq<string>, encodings: seq<Encoding>, probe: Encoding, dist: Distance, i: nat)
    requires |names| == |encodings| && i < |encodings| && encodings[i] == probe
    requires forall x, y :: dist(x, y) >= 0.0
    requires forall x :: dist(x, x) == 0.0
    ensures MatchProbe(names, encodings, probe, dist).Recognized?
    ensures MatchProbe(names, encodings, probe, dist).confidence == 1.0
  {
    var r := MatchProbe(names, encodings, probe, dist);
    assert 1.0 - dist(encodings[i], probe) <= r.confidence;
    var k :| 0 <= k < |encodings| && r.confidence == 1.0 - dist(encodings[k], probe);
    assert dist(encodings[k], probe) >= 0.0;
  }

  /** When every distance exceeds 0.75 the probe is "Unknown", with a
      confidence below the threshold. */
  lemma DistantProbeIsUnknown(names: seq<string>, encodings: seq<Encoding>, probe: Encoding, dist: Distance)
    requires |names| == |encodings| > 0
    requires forall i :: 0 <= i < |encodings| ==> dist(encodings[i], probe) > 0.75
    ensures MatchProbe(names, encodings, probe, dist).Unknown?
    ensures MatchProbe(names, encodings, probe, dist).confidence < RecognitionThreshold
  {
    var r := MatchProbe(names, encodings, probe, dist);
    var k :| 0 <= k < |encodings| && r.confidence == 1.0 - dist(encodings[k], probe);
  }

  /** Confidence is at most 1 for a non-negative distance; no lower bound is
      imposed, it is not clamped. */
  lemma ConfidenceAtMostOne(names: seq<string>, encodings: seq<Encoding>, probe: Encoding, dist: Distance)
    requires |names| == |encodings| > 0
    requires forall i :: 0 <= i < |encodings| ==> dist(encodings[i], probe) >= 0.0
    ensures MatchProbe(names, encodings, probe, dist).confidence <= 1.0
  {
    var r := MatchProbe(names, encodings, probe, dist);
    var k :| 0 <= k < |encodings| && r.confidence == 1.0 - dist(encodings[k], probe);
  }
}
