/** Liveness scoring of `FaceRecognitionSystem.detect_liveness`.

    The face mesh, the Laplacian variance and the Canny edge density come
    from image libraries; a `Frame` carries what they report for one image.
    The landmark geometry (eye aspect ratio, face box ratio), the additive
    score, the ordered reasons and the message are modelled here. */
module Liveness {
  import opened Wrappers
  import opened Decimal

  /** A normalised mesh landmark. */
  datatype Point = Point(x: real, y: real)

  /** What the image libraries report for one frame. */
  datatype Frame = Frame(
    width: nat,                    // image.shape[1]
    height: nat,                   // image.shape[0]
    meshRaised: bool,              // colour conversion or the face mesh raised
    landmarks: Option<seq<Point>>, // None: the mesh found no face
    filtersRaised: bool,           // the Laplacian or the edge detector raised
    textureVariance: real,         // variance of the Laplacian
    edgeDensity: real)             // share of edge pixels in the frame

  const LeftEyePoints: seq<nat> := [33, 160, 158, 133, 153, 144]
  const RightEyePoints: seq<nat> := [362, 385, 387, 263, 373, 380]

  function Abs(r: real): (a: real)
    ensures a >= 0.0 && (a == r || a == -r)
  {
    if r < 0.0 then -r else r
  }

  predicate IndicesIn(eye: seq<nat>, lms: seq<Point>) {
    forall i :: 0 <= i < |eye| ==> eye[i] < |lms|
  }

  /** `calculate_ear`: two vertical distances over twice the horizontal one.
      None where Python raises: a landmark index out of range, or a zero
      horizontal distance (float division by zero). */
  function EyeAspectRatio(eye: seq<nat>, lms: seq<Point>): (r: Option<real>)
    requires |eye| == 6
    ensures r.Some? <==> IndicesIn(eye, lms) && lms[eye[0]].x != lms[eye[3]].x
    ensures r.Some? ==> r.value >= 0.0
  {
    if !IndicesIn(eye, lms) then None
    else
      var h1 := Abs(lms[eye[1]].y - lms[eye[5]].y);
      var h2 := Abs(lms[eye[2]].y - lms[eye[4]].y);
      var w := Abs(lms[eye[0]].x - lms[eye[3]].x);
      if w == 0.0 then None else Some((h1 + h2) / (2.0 * w))
  }

  function MinOf(xs: seq<real>): (m: real)
    requires |xs| > 0
    ensures m in xs && forall i :: 0 <= i < |xs| ==> m <= xs[i]
  {
    if |xs| == 1 then xs[0]
    else
      var rest := MinOf(xs[1..]);
      if xs[0] <= rest then xs[0] else rest
  }

  function MaxOf(xs: seq<real>): (m: real)
    requires |xs| > 0
    ensures m in xs && forall i :: 0 <= i < |xs| ==> xs[i] <= m
  {
    if |xs| == 1 then xs[0]
    else
      var rest := MaxOf(xs[1..]);
      if xs[0] >= rest then xs[0] else rest
  }

  function Xs(lms: seq<Point>): (xs: seq<real>)
    ensures |xs| == |lms|
  {
    seq(|lms|, i requires 0 <= i < |lms| => lms[i].x)
  }

  function Ys(lms: seq<Point>): (ys: seq<real>)
    ensures |ys| == |lms|
  {
    seq(|lms|, i requires 0 <= i < |lms| => lms[i].y)
  }

  /** Area of the pixel box around all landmarks over the image area. None
      where Python divides by a zero image area. The ratio does not depend
      on the image size: it is the area of the normalised landmark box. */
  function FaceRatio(lms: seq<Point>, width: nat, height: nat): (r: Option<real>)
    requires |lms| > 0
    ensures r.Some? <==> width * height != 0
    ensures r.Some? ==>
      r.value == BoxArea(MinOf(Xs(lms)), MinOf(Ys(lms)), MaxOf(Xs(lms)), MaxOf(Ys(lms)))
  {
    if width * height == 0 then None
    else
      Some(PixelBoxRatio(MinOf(Xs(lms)), MinOf(Ys(lms)), MaxOf(Xs(lms)), MaxOf(Ys(lms)), width, height))
  }

  /** Area of the box with corners (x0, y0) and (x1, y1). */
  function BoxArea(x0: real, y0: real, x1: real, y1: real): real {
    (x1 - x0) * (y1 - y0)
  }

  /** The normalised box (x0, y0)-(x1, y1) scaled to a width x height image,
      its area divided by the image area: the scaling cancels out. */
  function PixelBoxRatio(x0: real, y0: real, x1: real, y1: real, width: nat, height: nat): (r: real)
    requires width * height != 0
    ensures r == BoxArea(x0, y0, x1, y1)
  {
    var w, h := width as real, height as real;
    var left, top, right, bottom := x0 * w, y0 * h, x1 * w, y1 * h;
    var area := (right - left) * (bottom - top);
    assert right - left == (x1 - x0) * w;
    assert bottom - top == (y1 - y0) * h;
    assert area == ((x1 - x0) * (y1 - y0)) * (w * h);
    assert (width * height) as real == w * h;
    area / (width * height) as real
  }

  /** The four numbers the score is computed from. */
  datatype Measurements = Measurements(
    ear: real, textureVariance: real, edgeDensity: real, faceRatio: real)

  /** Everything `detect_liveness` computes after finding landmarks and before
      scoring. None where any step raises. */
  function Measure(f: Frame): (m: Option<Measurements>)
    requires f.landmarks.Some?
    ensures m.Some? ==> m.value.ear >= 0.0
    ensures m.Some? ==> (m.value.textureVariance == f.textureVariance
                         && m.value.edgeDensity == f.edgeDensity)
    ensures m.Some? <==>
      EyeAspectRatio(LeftEyePoints, f.landmarks.value).Some?
      && EyeAspectRatio(RightEyePoints, f.landmarks.value).Some?
      && !f.filtersRaised && f.width * f.height != 0
    ensures m.Some? ==>
      m.value.ear == (EyeAspectRatio(LeftEyePoints, f.landmarks.value).value
                      + EyeAspectRatio(RightEyePoints, f.landmarks.value).value) / 2.0
      && Some(m.value.faceRatio) == FaceRatio(f.landmarks.value, f.width, f.height)
  {
    var lms := f.landmarks.value;
    var left := EyeAspectRatio(LeftEyePoints, lms);
    var right := EyeAspectRatio(RightEyePoints, lms);
    if left.None? || right.None? || f.filtersRaised then None
    else
      assert LeftEyePoints[0] < |lms|;
      match FaceRatio(lms, f.width, f.height)
      case None => None
      case Some(q) =>
        Some(Measurements((left.value + right.value) / 2.0, f.textureVariance, f.edgeDensity, q))
  }

  /** The four sub-checks, in the order the source evaluates them. */
  datatype Check = EyeOpenness | Texture | EdgeDensity | FaceSize

  const Checks: seq<Check> := [EyeOpenness, Texture, EdgeDensity, FaceSize]
  const DetectionBonus: nat := 20
  const PassScore: nat := 40

  function Points(c: Check): nat {
    match c
    case EyeOpenness => 20
    case Texture => 25
    case EdgeDensity => 20
    case FaceSize => 15
  }

  function Rank(c: Check): nat {
    match c
    case EyeOpenness => 0
    case Texture => 1
    case EdgeDensity => 2
    case FaceSize => 3
  }

  /** The measured value a check looks at. */
  function Observed(c: Check, m: Measurements): real {
    match c
    case EyeOpenness => m.ear
    case Texture => m.textureVariance
    case EdgeDensity => m.edgeDensity
    case FaceSize => m.faceRatio
  }

  predicate Holds(c: Check, m: Measurements) {
    var v := Observed(c, m);
    match c
    case EyeOpenness => 0.08 < v < 0.50
    case Texture => v > 40.0
    case EdgeDensity => 0.01 < v < 0.25
    case FaceSize => v > 0.02
  }

  /** A failed check together with the value it saw. */
  datatype Reason = Reason(check: Check, value: real)

  /** Points earned by the checks in `cs` that hold. */
  function Earned(cs: seq<Check>, m: Measurements): nat {
    if cs == [] then 0
    else (if Holds(cs[0], m) then Points(cs[0]) else 0) + Earned(cs[1..], m)
  }

  /** One reason per failing check of `cs`, in the order of `cs`. */
  function Failed(cs: seq<Check>, m: Measurements): seq<Reason> {
    if cs == [] then []
    else (if Holds(cs[0], m) then [] else [Reason(cs[0], Observed(cs[0], m))]) + Failed(cs[1..], m)
  }

  function TotalPoints(cs: seq<Check>): nat {
    if cs == [] then 0 else Points(cs[0]) + TotalPoints(cs[1..])
  }

  function PointsOf(rs: seq<Reason>): nat {
    if rs == [] then 0 else Points(rs[0].check) + PointsOf(rs[1..])
  }

  function Kinds(rs: seq<Reason>): (ks: seq<Check>)
    ensures |ks| == |rs|
    ensures forall i :: 0 <= i < |rs| ==> ks[i] == rs[i].check
  {
    if rs == [] then [] else [rs[0].check] + Kinds(rs[1..])
  }

  /** The liveness score: the detection bonus plus the points of every check
      that holds. */
  function Score(m: Measurements): (s: nat)
    ensures DetectionBonus <= s <= 100
  {
    EarnedChecks(m);
    DetectionBonus + Earned(Checks, m)
  }

  function Reasons(m: Measurements): seq<Reason> {
    Failed(Checks, m)
  }

  lemma ChecksTails()
    ensures Checks[1..] == [Texture, EdgeDensity, FaceSize]
    ensures Checks[1..][1..] == [EdgeDensity, FaceSize]
    ensures Checks[1..][1..][1..] == [FaceSize]
    ensures Checks[1..][1..][1..][1..] == []
  {
  }

  lemma EarnedChecks(m: Measurements)
    ensures Earned(Checks, m) ==
      (if Holds(EyeOpenness, m) then 20 else 0) + (if Holds(Texture, m) then 25 else 0)
      + (if Holds(EdgeDensity, m) then 20 else 0) + (if Holds(FaceSize, m) then 15 else 0)
  {
    ChecksTails();
    var c1, c2, c3 := Checks[1..], Checks[1..][1..], Checks[1..][1..][1..];
    assert Earned(c3, m) == (if Holds(FaceSize, m) then 15 else 0) + Earned(c3[1..], m);
    assert Earned(c2, m) == (if Holds(EdgeDensity, m) then 20 else 0) + Earned(c3, m);
    assert Earned(c1, m) == (if Holds(Texture, m) then 25 else 0) + Earned(c2, m);
  }

  lemma FailedChecks(m: Measurements)
    ensures Reasons(m) ==
      (if Holds(EyeOpenness, m) then [] else [Reason(EyeOpenness, m.ear)])
      + (if Holds(Texture, m) then [] else [Reason(Texture, m.textureVariance)])
      + (if Holds(EdgeDensity, m) then [] else [Reason(EdgeDensity, m.edgeDensity)])
      + (if Holds(FaceSize, m) then [] else [Reason(FaceSize, m.faceRatio)])
  {
    ChecksTails();
    var c1, c2, c3 := Checks[1..], Checks[1..][1..], Checks[1..][1..][1..];
    assert Failed(c3[1..], m) == [];
    assert Failed(c3, m) == (if Holds(FaceSize, m) then [] else [Reason(FaceSize, m.faceRatio)]);
    assert Failed(c2, m) == (if Holds(EdgeDensity, m) then [] else [Reason(EdgeDensity, m.edgeDensity)]) + Failed(c3, m);
    assert Failed(c1, m) == (if Holds(Texture, m) then [] else [Reason(Texture, m.textureVariance)]) + Failed(c2, m);
  }

  /** Every point is either earned or stands behind exactly one reason. */
  lemma {:induction false} EarnedPlusFailed(cs: seq<Check>, m: Measurements)
    ensures Earned(cs, m) + PointsOf(Failed(cs, m)) == TotalPoints(cs)
  {
    if cs != [] {
      EarnedPlusFailed(cs[1..], m);
      var head := if Holds(cs[0], m) then [] else [Reason(cs[0], Observed(cs[0], m))];
      PointsOfAppend(head, Failed(cs[1..], m));
    }
  }

  lemma {:induction false} PointsOfAppend(a: seq<Reason>, b: seq<Reason>)
    ensures PointsOf(a + b) == PointsOf(a) + PointsOf(b)
  {
    if a == [] {
      assert a + b == b;
    } else {
      assert (a + b)[1..] == a[1..] + b;
      PointsOfAppend(a[1..], b);
    }
  }

  /** The score plus the points of the reported reasons is always 100. */
  lemma ScoreAccountsForReasons(m: Measurements)
    ensures Score(m) + PointsOf(Reasons(m)) == 100
  {
    EarnedPlusFailed(Checks, m);
    ChecksTails();
  }

  /** Every reason of `cs` is a failing check of `cs` with its own value. */
  lemma {:induction false} FailedFrom(cs: seq<Check>, m: Measurements)
    ensures forall r :: r in Failed(cs, m) ==> r.check in cs && !Holds(r.check, m)
    ensures forall r :: r in Failed(cs, m) ==> r.value == Observed(r.check, m)
  {
    if cs != [] {
      FailedFrom(cs[1..], m);
      var head := if Holds(cs[0], m) then [] else [Reason(cs[0], Observed(cs[0], m))];
      assert Failed(cs, m) == head + Failed(cs[1..], m);
    }
  }

  /** The reasons of `cs` name exactly its failing checks. */
  lemma {:induction false} FailedKinds(cs: seq<Check>, m: Measurements)
    ensures forall c :: c in Kinds(Failed(cs, m)) <==> c in cs && !Holds(c, m)
  {
    if cs != [] {
      FailedKinds(cs[1..], m);
      var tail := Failed(cs[1..], m);
      var head := if Holds(cs[0], m) then [] else [Reason(cs[0], Observed(cs[0], m))];
      assert Failed(cs, m) == head + tail;
      KindsAppend(head, tail);
    }
  }

  /** Reasons come in the order of `cs` when `cs` is ordered by rank. */
  lemma {:induction false} FailedInOrder(cs: seq<Check>, m: Measurements)
    requires forall i, j :: 0 <= i < j < |cs| ==> Rank(cs[i]) < Rank(cs[j])
    ensures forall i, j :: 0 <= i < j < |Failed(cs, m)| ==>
      Rank(Failed(cs, m)[i].check) < Rank(Failed(cs, m)[j].check)
  {
    if cs != [] {
      FailedInOrder(cs[1..], m);
      FailedFrom(cs[1..], m);
      var tail := Failed(cs[1..], m);
      var head := if Holds(cs[0], m) then [] else [Reason(cs[0], Observed(cs[0], m))];
      assert Failed(cs, m) == head + tail;
      forall i | 0 <= i < |tail|
        ensures Rank(cs[0]) < Rank(tail[i].check)
      {
        assert tail[i] in tail;
        var k :| 0 <= k < |cs[1..]| && cs[1..][k] == tail[i].check;
        assert cs[k + 1] == tail[i].check;
      }
    }
  }

  lemma {:induction false} KindsAppend(a: seq<Reason>, b: seq<Reason>)
    ensures Kinds(a + b) == Kinds(a) + Kinds(b)
  {
    if a == [] {
      assert a + b == b;
    } else {
      assert (a + b)[1..] == a[1..] + b;
      KindsAppend(a[1..], b);
    }
  }

  /** The reasons list of one scored frame: one entry per failed check, in
      the fixed order eye, texture, edge, face size. */
  lemma ReasonsOrdered(m: Measurements)
    ensures forall c :: c in Kinds(Reasons(m)) <==> !Holds(c, m)
    ensures forall r :: r in Reasons(m) ==> r.value == Observed(r.check, m)
    ensures forall i, j :: 0 <= i < j < |Reasons(m)| ==>
      Rank(Reasons(m)[i].check) < Rank(Reasons(m)[j].check)
  {
    FailedFrom(Checks, m);
    FailedKinds(Checks, m);
    FailedInOrder(Checks, m);
    forall c ensures c in Checks {
      match c
      case EyeOpenness => assert Checks[0] == c;
      case Texture => assert Checks[1] == c;
      case EdgeDensity => assert Checks[2] == c;
      case FaceSize => assert Checks[3] == c;
    }
  }

  /** A frame passes exactly when the eye, texture or edge check holds: the
      face-size check alone (20 + 15 = 35) never reaches 40. */
  lemma PassesIff(m: Measurements)
    ensures Score(m) >= PassScore <==>
      Holds(EyeOpenness, m) || Holds(Texture, m) || Holds(EdgeDensity, m)
  {
    EarnedChecks(m);
  }

  /** What the liveness step decided for one frame. */
  datatype LivenessVerdict = NoFaceDetected | Scored(score: nat, reasons: seq<Reason>) | Skipped {
    predicate Passed() {
      match this
      case NoFaceDetected => false
      case Scored(s, _) => s >= PassScore
      case Skipped => true
    }
  }

  /** The decision `detect_liveness` reaches: any exception fails open. */
  function Assess(f: Frame): (v: LivenessVerdict)
    ensures v.Scored? <==> !f.meshRaised && f.landmarks.Some? && Measure(f).Some?
    ensures v.Scored? ==> DetectionBonus <= v.score <= 100
    ensures !v.Passed() <==>
      !f.meshRaised && (f.landmarks.None? || (Measure(f).Some? && Score(Measure(f).value) < PassScore))
  {
    if f.meshRaised then Skipped
    else if f.landmarks.None? then NoFaceDetected
    else
      match Measure(f)
      case None => Skipped
      case Some(m) => Scored(Score(m), Reasons(m))
  }

  /** Exceptions fail open, a frame without landmarks fails, and a scored
      frame passes iff its score is at least 40, in [20, 100]. */
  lemma AssessOutcomes(f: Frame)
    ensures f.meshRaised ==> Assess(f) == Skipped && Assess(f).Passed()
    ensures !f.meshRaised && f.landmarks.None? ==> Assess(f) == NoFaceDetected && !Assess(f).Passed()
    ensures !f.meshRaised && f.landmarks.Some? && f.filtersRaised ==> Assess(f) == Skipped
    ensures Assess(f).Scored? ==>
      f.landmarks.Some? && DetectionBonus <= Assess(f).score <= 100
      && (Assess(f).Passed() <==> Assess(f).score >= PassScore)
  {
  }

  /** `f"{x:.Nf}"`: text of a real with N decimals, supplied by the caller. */
  type Formatter = (real, nat) -> string

  function Label(c: Check): string {
    match c
    case EyeOpenness => "Eye ratio: "
    case Texture => "Low texture: "
    case EdgeDensity => "Edge density: "
    case FaceSize => "Face too small: "
  }

  function Decimals(c: Check): nat {
    match c
    case Texture => 1
    case _ => 3
  }

  function ReasonText(r: Reason, fmt: Formatter): string {
    Label(r.check) + fmt(r.value, Decimals(r.check))
  }

  /** `"; ".join(...)` of the texts of `rs`: empty only for no reasons, and
      starting with the text of the first reason. */
  function JoinReasons(rs: seq<Reason>, fmt: Formatter): (text: string)
    ensures text == "" <==> rs == []
    ensures rs != [] ==> ReasonText(rs[0], fmt) <= text
    ensures |rs| == 1 ==> text == ReasonText(rs[0], fmt)
    ensures |rs| == 2 ==> text == ReasonText(rs[0], fmt) + "; " + ReasonText(rs[1], fmt)
  {
    if rs == [] then ""
    else if |rs| == 1 then ReasonText(rs[0], fmt)
    else ReasonText(rs[0], fmt) + "; " + JoinReasons(rs[1..], fmt)
  }

  /** `reasons[:2]`. */
  function FirstTwo(rs: seq<Reason>): (shown: seq<Reason>)
    ensures |shown| <= 2 && shown <= rs
    ensures |rs| <= 2 ==> shown == rs
    ensures |rs| > 2 ==> shown == [rs[0], rs[1]]
  {
    if |rs| <= 2 then rs else rs[..2]
  }

  const NoFaceMessage: string := "No face detected"
  const SkippedMessage: string := "Liveness check skipped - assuming live"

  function LiveMessage(score: nat): string {
    "Live face detected (score: " + Digits(score) + "/100)"
  }

  function FakeMessage(score: nat, shown: seq<Reason>, fmt: Formatter): string {
    "Possible fake detected (score: " + Digits(score) + "/100) - " + JoinReasons(shown, fmt)
  }

  /** The message `detect_liveness` returns with its verdict. */
  function Message(v: LivenessVerdict, fmt: Formatter): string {
    match v
    case NoFaceDetected => NoFaceMessage
    case Skipped => SkippedMessage
    case Scored(s, rs) => if s >= PassScore then LiveMessage(s) else FakeMessage(s, FirstTwo(rs), fmt)
  }

  /** The four checks of `detect_liveness`, accumulated one after the other:
      the score with the detection bonus, and the reasons of the failed
      checks in check order. */
  method ScoreChecks(m: Measurements) returns (score: nat, reasons: seq<Reason>)
    ensures score == Score(m) && reasons == Reasons(m)
  {
    var ear, textureVariance, edgeDensity, faceRatio := m.ear, m.textureVariance, m.edgeDensity, m.faceRatio;
    score := 0;
    reasons := [];
    if 0.08 < ear < 0.50 {
      score := score + 20;
    } else {
      reasons := reasons + [Reason(EyeOpenness, ear)];
    }
    if textureVariance > 40.0 {
      score := score + 25;
    } else {
      reasons := reasons + [Reason(Texture, textureVariance)];
    }
    if 0.01 < edgeDensity < 0.25 {
      score := score + 20;
    } else {
      reasons := reasons + [Reason(EdgeDensity, edgeDensity)];
    }
    if faceRatio > 0.02 {
      score := score + 15;
    } else {
      reasons := reasons + [Reason(FaceSize, faceRatio)];
    }
    score := score + 20;
    EarnedChecks(m);
    FailedChecks(m);
  }

  /** `detect_liveness`: the early exits, the checks, then the verdict of
      `Assess` and its message. */
  method DetectLiveness(frame: Frame, fmt: Formatter) returns (passed: bool, message: string)
    ensures passed == Assess(frame).Passed()
    ensures message == Message(Assess(frame), fmt)
  {
    if frame.meshRaised {
      return true, SkippedMessage;
    }
    if frame.landmarks.None? {
      return false, NoFaceMessage;
    }
    var measured := Measure(frame);
    if measured.None? {
      return true, SkippedMessage;
    }
    var score, reasons := ScoreChecks(measured.value);
    if score >= 40 {
      passed, message := true, LiveMessage(score);
    } else {
      passed, message := false, FakeMessage(score, FirstTwo(reasons), fmt);
    }
  }
}
