# Face recognition server core, in Dafny

`pythonAI_server.py` runs a face recognition service. Its `FaceRecognitionSystem`
keeps a registry of enrolled faces: the parallel lists `known_face_names` and
`known_face_encodings`, and a `faces` table keyed by name. It scores how "live"
a camera frame looks, picks the largest face in an image and encodes it, enrolls
a name from several uploads, recognises a probe face by its nearest enrolled
encoding, and deletes names. In front of it, HTTP routes prepare the uploads,
grade a recognition with a security level, and validate a posted ESP32 camera
address.

This project models that core and proves properties of it:

- `Liveness`: the landmark geometry (eye aspect ratio, face-box ratio), the
  four additive checks with their 20-point detection bonus, the pass mark of 40,
  the ordered reasons, the messages, and the fail-open behaviour on exceptions.
  `DetectLiveness` is the method; `Assess`, `Score` and `Reasons` specify it.
- `Decimal` and `ScorePattern`: printing a score in decimal, and reading it back
  with the `score: (\d+)/100` search that enrollment uses, defaulting to 50.
- `Extraction`: the `max(..., key=area)` choice among several face locations and
  the error cases of `extract_face_encoding`.
- `Aggregation`: the element-wise mean of the collected encodings.
- `Matching`: the first-minimum `argmin` over face distances, confidence as one
  minus the distance, and acceptance above the 0.25 threshold.
- `Registry`: the class `FaceRegistry`, whose fields are the two lists and the
  table (a map from name to row), with the methods `Enroll` and `Delete` and the
  function `Recognize`.
- `Routes`: image duplication and zero-image rejection in `/enroll`, the security
  level and reply of `/recognize`, and the IP pattern of `/config/esp32_ip`.

The image libraries are outside the model. MediaPipe, OpenCV, `face_recognition`
and `face_distance` appear as data: a `Frame` or `Image` carries what the
libraries report for it, including whether they raise. The distance is a
function parameter. Float formatting (`f"{x:.3f}"`) is a `Formatter` parameter.
Whether a database statement raises is a boolean parameter of `Enroll` and
`Delete`. Floats are modelled as mathematical reals.

Three behaviours of the code worth knowing:

- With no detectable face the liveness message holds no score, so enrollment
  records the default score 50 for that image, not 0 (`RecordedScore`,
  `SecurityScoreOfMessage`).
- The fourth value `recognize_face` returns is whether the match was accepted
  above the threshold (`Recognition.Accepted`). It is not a liveness result:
  recognition never runs the liveness check.
- The address is stripped before it is matched, and the pattern's `$` also
  accepts a single trailing newline (`DottedText`).

## Model

| member | source | states |
|---|---|---|
| Liveness.EyeAspectRatio | pythonAI_server.py:176-180 | defined exactly when all six landmark indices exist and the horizontal distance is non-zero (otherwise Python raises); never negative |
| Liveness.FaceRatio | pythonAI_server.py:196-203 | defined exactly when the image area is non-zero; equals the area of the normalised landmark box, so the image size cancels out |
| Liveness.PixelBoxRatio | pythonAI_server.py:196-203 | the pixel box area over the image area equals the normalised box area |
| Liveness.Measure | pythonAI_server.py:172-203 | measurements exist exactly when both eye ratios are defined, the filters do not raise and the image area is non-zero; the eye ratio is the mean of the two ratios (non-negative), the face ratio is `FaceRatio`, texture and edge values are the filters' outputs |
| Liveness.Holds | pythonAI_server.py:210-228 | the four thresholds: 0.08 < ear < 0.50, texture variance > 40, 0.01 < edge density < 0.25, face ratio > 0.02; `EarnedChecks` and `FailedChecks` state the points and reasons they decide |
| Liveness.Score | pythonAI_server.py:205-234 | the liveness score always lies between the detection bonus 20 and 100 |
| Liveness.EarnedChecks | pythonAI_server.py:209-231 | the earned points are 20, 25, 20 and 15 for the eye, texture, edge and face-size checks that hold |
| Liveness.FailedChecks | pythonAI_server.py:207-231 | the reasons are one entry per failing check, in eye, texture, edge, face-size order, each with its observed value |
| Liveness.EarnedPlusFailed | pythonAI_server.py:209-231 | for any list of checks, earned points plus the points behind the reasons equal the total points |
| Liveness.Reasons | pythonAI_server.py:207-231 | the `reasons` list; `FailedChecks` gives it exactly and `ReasonsOrdered` proves one entry per failing check, in check order, with observed values |
| Liveness.ScoreAccountsForReasons | pythonAI_server.py:205-234 | the score plus the points of the reported reasons is exactly 100 |
| Liveness.FailedFrom | pythonAI_server.py:207-231 | every reason names a failing check of the list and carries that check's observed value |
| Liveness.FailedKinds | pythonAI_server.py:207-231 | a check appears among the reasons if and only if it is in the list and fails |
| Liveness.FailedInOrder | pythonAI_server.py:207-231 | reasons keep the order of the checks that produced them |
| Liveness.ReasonsOrdered | pythonAI_server.py:207-231 | a check has a reason exactly when it fails; reasons carry the observed values, in strictly increasing check order |
| Liveness.PassesIff | pythonAI_server.py:233-239 | a frame reaches 40 exactly when the eye, texture or edge check holds (face size alone gives only 35) |
| Liveness.Assess | pythonAI_server.py:152-247 | a frame is scored exactly when nothing raises and landmarks are found, with a score in [20, 100]; it fails exactly when no face is found or its score is below 40 (exceptions fail open) |
| Liveness.JoinReasons | pythonAI_server.py:242 | the joined text is empty only for no reasons and starts with the text of the first reason; one reason gives its text, two give both texts separated by "; " (with `FirstTwo`, the failure message joins the first two reasons) |
| Liveness.Label | pythonAI_server.py:213-231 | the prefixes "Eye ratio: ", "Low texture: ", "Edge density: ", "Face too small: " of the four reason texts |
| Liveness.Decimals | pythonAI_server.py:213-231 | one decimal for the texture value, three for the others |
| Liveness.ReasonText | pythonAI_server.py:213-231 | the label followed by the formatted value; `JoinReasons` states how the texts are joined |
| Liveness.LiveMessage | pythonAI_server.py:240 | the passing message; `LiveMessageScore` proves its score is read back |
| Liveness.FakeMessage | pythonAI_server.py:242-243 | the failing message with the joined reasons; `FakeMessageScore` proves its score is read back whatever reasons follow |
| Liveness.Message | pythonAI_server.py:239-247 | the message of a verdict; `SecurityScoreOfMessage` proves a scored frame's message carries its score and the others carry none |
| Liveness.AssessOutcomes | pythonAI_server.py:152-247 | a raising mesh fails open; no landmarks fails; raising filters are skipped; a scored frame lies in [20, 100] and passes iff it reaches 40 |
| Liveness.FirstTwo | pythonAI_server.py:242 | `reasons[:2]`: a prefix of at most two reasons, all of them when there are at most two, exactly the first two otherwise |
| Liveness.ScoreChecks | pythonAI_server.py:205-234 | the four checks, applied one after another, give exactly `Score` and `Reasons` |
| Liveness.DetectLiveness | pythonAI_server.py:152-247 | the verdict is `Assess(frame).Passed()` and the message is `Message` of that verdict |
| Decimal.Digits | pythonAI_server.py:240 | `str(n)`: a non-empty run of digits with no leading zero; `ValueOfDigits` proves `Value` reads it back |
| Decimal.Value | pythonAI_server.py:295 | `int` of a digit run; `ValueOfDigits` proves it inverts `Digits` |
| Decimal.ValueOfDigits | pythonAI_server.py:240 | reading back the decimal text of a score gives the score |
| Decimal.LeadingDigits | pythonAI_server.py:294 | the greedy `\d+` run: a digit prefix not followed by a digit |
| Decimal.LeadingDigitsOf | pythonAI_server.py:294 | a digit string followed by a non-digit is exactly the run that is read |
| ScorePattern.MatchAt | pythonAI_server.py:294 | a match at a position needs the colon of "score:" there; `MatchAtExact` gives the accepted texts |
| ScorePattern.MatchAtExact | pythonAI_server.py:294-295 | the anchored pattern matches exactly "score: ", one or more digits, "/100", and the group read is the whole digit run |
| ScorePattern.TagAtMatches | pythonAI_server.py:294-295 | a text of that form matches, with its digits as the group |
| ScorePattern.Search | pythonAI_server.py:294 | `re.search`; `FirstSomeIsLeftmost` proves it returns the leftmost match |
| ScorePattern.FirstSomeIsLeftmost | pythonAI_server.py:294 | the `re.search` scan finds nothing iff no position matches, and otherwise returns the match at the leftmost matching position |
| ScorePattern.NoColonNoScore | pythonAI_server.py:294-295 | a message without a colon holds no score |
| ScorePattern.NoMatchInPrefix | pythonAI_server.py:294 | no match starts inside a colon-free prefix that precedes the tag |
| ScorePattern.TagMatch | pythonAI_server.py:294-295 | the pattern matches at "score: " followed by a printed number and "/100", and reads that number |
| ScorePattern.FirstMatchAfterPrefix | pythonAI_server.py:294 | when the tag follows a colon-free prefix and matches, the search returns that match |
| ScorePattern.ScoreFound | pythonAI_server.py:294-295 | a colon-free prefix followed by "score: N/100" yields N |
| ScorePattern.LiveMessageScore | pythonAI_server.py:240 | the score is read back out of a passing message |
| ScorePattern.FakeMessageScore | pythonAI_server.py:243 | the score is read back out of a failing message, whatever reasons follow it |
| ScorePattern.SecurityScore | pythonAI_server.py:294-295 | the group of the first match, 50 without one; `SecurityScoreOfMessage` states what it gives for each liveness message |
| ScorePattern.SecurityScoreOfMessage | pythonAI_server.py:294-295 | the recorded score is the liveness score for a scored frame and 50 when the message carries none |
| Extraction.Area | pythonAI_server.py:262 | the `max` key `(x[2]-x[0])*(x[1]-x[3])` over (top, right, bottom, left); `LargestFaceIndex` and `SelectFace` state the choice it drives |
| Extraction.LargestFaceIndex | pythonAI_server.py:262 | the index of a box of largest area, the first one on ties |
| Extraction.SelectFace | pythonAI_server.py:257-262 | the encoded face is one of the locations, of largest area, the first such one; a single location is kept |
| Extraction.ExtractFaceEncoding | pythonAI_server.py:249-274 | succeeds iff nothing raises, there is a face and the selected face has an encoding; returns that encoding; "no face" iff no location was found |
| Aggregation.Mean | pythonAI_server.py:313 | `np.mean(axis=0)`; `MeanOrderInvariant`, `MeanWithinBounds` and `MeanOfCopies` state its properties |
| Aggregation.Aggregate | pythonAI_server.py:309-313 | one encoding kept, several averaged; `AggregateIsMean` proves it always equals the mean |
| Aggregation.ColumnSumOfCopies | pythonAI_server.py:309-313 | summing component j over n copies of e gives n times e[j] |
| Aggregation.MeanOfCopies | pythonAI_server.py:309-313 | the mean of copies of one encoding is that encoding |
| Aggregation.AggregateIsMean | pythonAI_server.py:309-313 | keeping a single encoding equals its mean, so the stored encoding is always the mean |
| Aggregation.ColumnSumRemove | pythonAI_server.py:313 | a column sum splits into one element plus the sum of the rest |
| Aggregation.MultisetRemove | pythonAI_server.py:313 | removing one position removes one occurrence from the multiset |
| Aggregation.ColumnSumPermutation | pythonAI_server.py:313 | column sums depend only on the multiset of encodings |
| Aggregation.MeanOrderInvariant | pythonAI_server.py:313 | the mean does not depend on the order of the images |
| Aggregation.ColumnSumBounds | pythonAI_server.py:313 | a column sum lies between n times the lower and n times the upper bound |
| Aggregation.MeanWithinBounds | pythonAI_server.py:313 | each component of the mean lies between the bounds of that component |
| Matching.FirstArgMin | pythonAI_server.py:364 | `np.argmin`: an index of least distance, with every earlier distance strictly larger |
| Matching.MatchProbe | pythonAI_server.py:363-378 | recognised or unknown; accepted iff confidence exceeds 0.25; confidence is one minus the least distance, from the first best index, and a recognised name is the name at that index |
| Matching.IdenticalProbeIsAccepted | pythonAI_server.py:363-371 | a probe equal to an enrolled encoding is recognised with confidence 1 (for a non-negative distance that is zero on equal encodings) |
| Matching.DistantProbeIsUnknown | pythonAI_server.py:368-378 | when every distance exceeds 0.75 the probe is unknown, below the threshold |
| Matching.ConfidenceAtMostOne | pythonAI_server.py:365 | confidence never exceeds 1 for non-negative distances |
| Registry.IndexOf | pythonAI_server.py:331 | `list.index`: the first position of the name |
| Registry.IndexOfIsFirst | pythonAI_server.py:331 | the first occurrence is the position `list.index` returns |
| Registry.Drop | pythonAI_server.py:399-400 | `del s[k]`: one element shorter, later elements shift down by one |
| Registry.Upsert | pythonAI_server.py:329-335 | the lists act as a dictionary write: the name maps to the new encoding and every other name is unchanged; an existing name is updated in place at its first position, every other position keeps its encoding, a new one is appended; distinct names stay distinct |
| Registry.AppendLookup | pythonAI_server.py:334-335 | appending a new name maps it to its encoding and leaves the other names alone |
| Registry.Remove | pythonAI_server.py:396-400 | the first entry of the name is dropped from both lists and the rest keep their order; every other name keeps its encoding; with distinct names the deleted one is gone; the lists shrink by one, or stay as they are when the name is absent |
| Registry.DropKeepsLookup | pythonAI_server.py:396-400 | dropping a position leaves the lookup of every other name alone |
| Registry.DropKeepsDistinct | pythonAI_server.py:396-400 | dropping a position from distinct names keeps them distinct and removes the dropped name |
| Registry.Extracted | pythonAI_server.py:287-303 | at most one encoding per image |
| Registry.ExtractedFrom | pythonAI_server.py:298-306 | nothing is collected iff every extraction fails; every collected encoding is the encoding of one of the images |
| Registry.ExtractedStep | pythonAI_server.py:298-303 | one more image adds its own encoding, if it has one |
| Registry.RecordedScore | pythonAI_server.py:290-296 | the recorded score is within [20, 100], and it is the liveness score of a scored frame |
| Registry.MessageScoreIsRecorded | pythonAI_server.py:290-295 | the score read back out of the liveness message is the recorded score |
| Registry.Scores | pythonAI_server.py:296 | `security_scores`, one per image; `Collect` builds it in the loop and `AverageSecurityBounds` bounds its mean |
| Registry.ScoresStep | pythonAI_server.py:296 | one more image appends its recorded score |
| Registry.SumBounds | pythonAI_server.py:316 | a sum of values in [lo, hi] lies between n times lo and n times hi |
| Registry.SumAppend | pythonAI_server.py:316 | appending a value adds it to the sum |
| Registry.DivBounds | pythonAI_server.py:316 | a sum bounded by n times lo and n times hi, divided by n, lies in [lo, hi] |
| Registry.AverageSecurity | pythonAI_server.py:316 | the average recorded score, 50 without images; `AverageSecurityBounds` bounds it |
| Registry.AverageSecurityBounds | pythonAI_server.py:316 | the average security score lies in [20, 100] |
| Registry.ReadSecurityScore | pythonAI_server.py:290-295 | the score read from the liveness message of a frame is its recorded score |
| Registry.Collect | pythonAI_server.py:287-303 | the loop collects exactly the successful encodings in image order and one recorded score per image |
| Registry.UpsertAgrees | pythonAI_server.py:322-335 | writing the same row to the table and the lists keeps them describing the same name-to-encoding map |
| Registry.RemoveAgrees | pythonAI_server.py:390-400 | deleting a name from the table and from distinct lists keeps them in agreement |
| Registry.FaceRegistry.constructor | pythonAI_server.py:119-131 | the registry starts from the loaded lists and the table rows |
| Registry.FaceRegistry.Enroll | pythonAI_server.py:276-348 | fewer than two images, no encodings and a failed write are refused without change; otherwise the table row and the lists both hold the mean of the encodings, with the count and average security reported; distinctness and agreement of lists and table are preserved |
| Registry.FaceRegistry.Delete | pythonAI_server.py:384-410 | succeeds iff the name has a row and the delete does not raise; then the row and the first list entry of the name go, the other entries keeping their order; otherwise nothing changes; agreement is preserved and the name is no longer found |
| Registry.FaceRegistry.Recognize | pythonAI_server.py:351-382 | an empty registry gives no match; a failed extraction gives its error; otherwise the nearest-neighbour decision over the lists, whose recognised name and confidence come from one enrolled entry |
| Routes.PrepareEnrollImages | pythonAI_server.py:526-531 | no images is refused; one image is doubled; two or more are kept; the result holds at least two images, all of them uploads |
| Routes.SingleUploadEnrollment | pythonAI_server.py:526-531 | enrolling one upload stores its own encoding and records its own security score as the average |
| Routes.LevelOf | pythonAI_server.py:583 | high iff the confidence exceeds 0.6; low iff it is at most 0.4 |
| Routes.LevelMonotone | pythonAI_server.py:583 | a higher confidence never gets a lower level |
| Routes.Reply | pythonAI_server.py:575-597 | success iff the match was accepted and its name is not "Unknown"; otherwise the name is reported, an absent or empty one as "Unknown", with the confidence |
| Routes.IdentifiedAboveThreshold | pythonAI_server.py:575 | an identified reply has a confidence above 0.25 and the name of an enrolled face |
| Routes.GreedyRun | pythonAI_server.py:741 | the `\d{1,3}` run: at most three leading digits, and as many as there are |
| Routes.GroupsSound | pythonAI_server.py:741-742 | every text the matcher accepts has the dotted-group form of the pattern |
| Routes.GroupsComplete | pythonAI_server.py:741-742 | every text of the dotted-group form is accepted by the matcher |
| Routes.MatchesIpPattern | pythonAI_server.py:741-742 | `re.match` of the address pattern; `IpPatternExact` proves it accepts exactly the dotted quads |
| Routes.IpPatternExact | pythonAI_server.py:741-742 | the matcher accepts a text iff it is four dot-separated groups of one to three digits (with an optional final newline) |
| Routes.LargeGroupsAccepted | pythonAI_server.py:741-742 | "999.999.999.999" is accepted: the pattern does not check octet ranges |
| Routes.ThreeGroupsRejected | pythonAI_server.py:741-742 | "1.2.3" is rejected |
| Routes.LongGroupRejected | pythonAI_server.py:741-742 | "1234.1.1.1" is rejected |
| Routes.ValidateIp | pythonAI_server.py:739-745 | an address is stored iff it has the dotted-quad form; otherwise "Invalid IP format" |

## Left out

- The SQLite statements, connections, commits and the `IntegrityError` branch: the table is a map, and a raising statement is a boolean parameter.
- `save_encodings` and the pickle I/O of `load_encodings`: the constructor takes the loaded lists. A failed save is logged and ignored by the source, so it changes nothing here.
- Logging, `log_recognition` and `log_domain_access`: they write log tables only.
- The image libraries (MediaPipe, OpenCV, `face_recognition`) and the distance: their outputs are data or parameters of the model.
- Float arithmetic and `f"{x:.Nf}"` formatting: numbers are reals and formatting is a parameter.
- `\d` in the patterns is taken as an ASCII digit; Python also accepts other Unicode digits.
- Flask request handling: decoding uploads, the loop over file keys, JSON replies, HTTP status codes and the `OPTIONS` answers.
- The name `strip` and the empty-name check of `/enroll` and `/delete`.
- The exception fallbacks `Enrollment failed: ...` and `Recognition failed: ...` for unexpected errors, apart from a raising store and the extraction errors.
- Result message texts of enrollment, deletion and recognition: they are outcome datatypes.
- Concurrency: Flask may serve requests in parallel; the model runs one operation at a time.
- The ESP32 proxy routes, the list, logs and statistics routes, the environment variable write and the connection test after an address update.
- Registry.FaceRegistry.Recognize: the model returns no message text, only the outcome.
- Routes.ValidateIp: takes the already stripped address.
