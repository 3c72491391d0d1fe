/** The face registry of `FaceRecognitionSystem`: the parallel in-memory lists
    `known_face_names` / `known_face_encodings`, and the `faces` table of the
    database, abstracted as a map from name to row. Enrollment, deletion and
    recognition read and update them. */
module Registry {
  import opened Wrappers
  import opened Aggregation
  import opened Liveness
  import opened ScorePattern
  import opened Extraction
  import opened Matching

  /** No name occurs twice. */
  predicate Distinct(names: seq<string>) {
    forall i, j :: 0 <= i < j < |names| ==> names[i] != names[j]
  }

  /** `list.index`: the first position of `name`. */
  function IndexOf(names: seq<string>, name: string): (k: nat)
    requires name in names
    ensures k < |names| && names[k] == name
    ensures forall j :: 0 <= j < k ==> names[j] != name
  {
    if names[0] == name then 0 else 1 + IndexOf(names[1..], name)
  }

  /** The first position is the only position with no earlier occurrence. */
  lemma IndexOfIsFirst(names: seq<string>, name: string, k: nat)
    requires k < |names| && names[k] == name
    requires forall j :: 0 <= j < k ==> names[j] != name
    ensures IndexOf(names, name) == k
  {
    var f := IndexOf(names, name);
    assert names[f] == name && names[k] == name;
  }

  /** `del s[k]`. */
  function Drop<T>(s: seq<T>, k: nat): (r: seq<T>)
    requires k < |s|
    ensures |r| == |s| - 1
    ensures forall i :: 0 <= i < |r| ==> r[i] == s[if i < k then i else i + 1]
  {
    s[..k] + s[k + 1..]
  }

  /** The encoding the parallel lists associate with `name`: the one at the
      first position of the name, as the lookups of the server go. */
  function Lookup(names: seq<string>, encodings: seq<Encoding>, name: string): Option<Encoding>
    requires |names| == |encodings|
  {
    if name in names then Some(encodings[IndexOf(names, name)]) else None
  }

  /** The in-memory update of `enroll_face`: replace the encoding of a known
      name in place, or append the name and its encoding. Behaves as a
      dictionary write. */
  function Upsert(names: seq<string>, encodings: seq<Encoding>, name: string, e: Encoding)
    : (r: (seq<string>, seq<Encoding>))
    requires |names| == |encodings|
    ensures |r.0| == |r.1|
    ensures forall n :: Lookup(r.0, r.1, n) == if n == name then Some(e) else Lookup(names, encodings, n)
    ensures |r.0| == if name in names then |names| else |names| + 1
    ensures r.0[..|names|] == names
    ensures forall i :: 0 <= i < |encodings| && (name !in names || i != IndexOf(names, name)) ==>
      r.1[i] == encodings[i]
    ensures Distinct(names) ==> Distinct(r.0)
  {
    if name in names then (names, encodings[IndexOf(names, name) := e])
    else
      AppendLookup(names, encodings, name, e);
      (names + [name], encodings + [e])
  }

  lemma AppendLookup(names: seq<string>, encodings: seq<Encoding>, name: string, e: Encoding)
    requires |names| == |encodings| && name !in names
    ensures forall n :: Lookup(names + [name], encodings + [e], n) ==
                        if n == name then Some(e) else Lookup(names, encodings, n)
  {
    var rn := names + [name];
    forall n
      ensures Lookup(rn, encodings + [e], n) == if n == name then Some(e) else Lookup(names, encodings, n)
    {
      if n == name {
        IndexOfIsFirst(rn, name, |names|);
      } else if n in names {
        IndexOfIsFirst(rn, n, IndexOf(names, n));
      } else {
        assert n !in rn;
      }
    }
  }

  /** The in-memory update of `delete_face`: drop the first entry of `name`
      from both lists, keeping the order of the others (`Drop` shifts every
      later entry down by one). Every other name keeps its encoding, and a
      name that occurred once is gone. */
  function Remove(names: seq<string>, encodings: seq<Encoding>, name: string)
    : (r: (seq<string>, seq<Encoding>))
    requires |names| == |encodings|
    ensures |r.0| == |r.1|
    ensures forall n :: n != name ==> Lookup(r.0, r.1, n) == Lookup(names, encodings, n)
    ensures Distinct(names) ==> Distinct(r.0) && Lookup(r.0, r.1, name).None?
    ensures name in names ==> |r.0| == |names| - 1
    ensures name in names ==>
      r == (Drop(names, IndexOf(names, name)), Drop(encodings, IndexOf(names, name)))
    ensures name !in names ==> r == (names, encodings)
  {
    if name in names then
      var k := IndexOf(names, name);
      forall n | n != name
        ensures Lookup(Drop(names, k), Drop(encodings, k), n) == Lookup(names, encodings, n)
      {
        DropKeepsLookup(names, encodings, k, n);
      }
      DropKeepsDistinct(names, k);
      (Drop(names, k), Drop(encodings, k))
    else (names, encodings)
  }

  /** Dropping position `k` leaves the lookup of every other name alone. */
  lemma DropKeepsLookup(names: seq<string>, encodings: seq<Encoding>, k: nat, n: string)
    requires |names| == |encodings| && k < |names| && names[k] != n
    ensures Lookup(Drop(names, k), Drop(encodings, k), n) == Lookup(names, encodings, n)
  {
    var rn := Drop(names, k);
    if n in names {
      var j := IndexOf(names, n);
      if j < k {
        assert rn[j] == n;
        IndexOfIsFirst(rn, n, j);
      } else {
        assert rn[j - 1] == names[j];
        forall i | 0 <= i < j - 1 ensures rn[i] != n {
          assert rn[i] == names[if i < k then i else i + 1];
        }
        IndexOfIsFirst(rn, n, j - 1);
      }
    } else {
      assert n !in rn by {
        forall i | 0 <= i < |rn| ensures rn[i] != n {
          assert rn[i] == names[if i < k then i else i + 1];
        }
      }
    }
  }

  /** Dropping a position from distinct names keeps them distinct and removes
      the dropped name. */
  lemma DropKeepsDistinct(names: seq<string>, k: nat)
    requires k < |names|
    ensures Distinct(names) ==> Distinct(Drop(names, k)) && names[k] !in Drop(names, k)
  {
    var rn := Drop(names, k);
    if Distinct(names) {
      forall i | 0 <= i < |rn| ensures rn[i] != names[k] {
        assert rn[i] == names[if i < k then i else i + 1];
      }
    }
  }

  /** A row of the `faces` table. */
  datatype Row = Row(encoding: Encoding, imagesCount: nat)

  /** The encodings `enroll_face` collects, in image order: one for every
      image whose extraction succeeds. */
  function Extracted(images: seq<Image>): (es: seq<Encoding>)
    ensures |es| <= |images|
  {
    if images == [] then []
    else
      var front := images[..|images| - 1];
      var last := images[|images| - 1];
      assert forall i :: 0 <= i < |front| ==> front[i] == images[i];
      var r := ExtractFaceEncoding(last);
      if r.Success? then Extracted(front) + [r.value] else Extracted(front)
  }

  /** The security score `enroll_face` records for one image: the liveness
      score of a scored frame, 50 when the message carries none. */
  function RecordedScore(f: Frame): (s: nat)
    ensures DetectionBonus <= s <= 100
    ensures Assess(f).Scored? ==> s == Assess(f).score
  {
    AssessOutcomes(f);
    match Assess(f)
    case Scored(s, _) => s
    case _ => DefaultSecurityScore
  }

  function Scores(images: seq<Image>): seq<nat> {
    seq(|images|, i requires 0 <= i < |images| => RecordedScore(images[i].frame))
  }

  function Sum(xs: seq<nat>): nat {
    if xs == [] then 0 else xs[0] + Sum(xs[1..])
  }

  lemma {:induction false} SumBounds(xs: seq<nat>, lo: nat, hi: nat)
    requires forall i :: 0 <= i < |xs| ==> lo <= xs[i] <= hi
    ensures |xs| * lo <= Sum(xs) <= |xs| * hi
  {
    if xs != [] {
      var n := |xs| - 1;
      SumBounds(xs[1..], lo, hi);
      assert |xs| * lo == n * lo + lo && |xs| * hi == n * hi + hi;
    }
  }

  lemma {:induction false} SumAppend(xs: seq<nat>, x: nat)
    ensures Sum(xs + [x]) == Sum(xs) + x
  {
    if xs == [] {
      assert xs + [x] == [x];
    } else {
      assert (xs + [x])[1..] == xs[1..] + [x];
      SumAppend(xs[1..], x);
    }
  }

  /** `sum(security_scores) / len(security_scores)`, 50 for no scores. */
  function AverageSecurity(images: seq<Image>): real {
    if |images| == 0 then 50.0 else Sum(Scores(images)) as real / |images| as real
  }

  lemma DivBounds(s: real, n: real, lo: real, hi: real)
    requires n > 0.0 && n * lo <= s <= n * hi
    ensures lo <= s / n <= hi
  {
    assert (s - n * lo) / n == s / n - lo;
    assert (n * hi - s) / n == hi - s / n;
  }

  /** The recorded average security lies within the liveness score range. */
  lemma AverageSecurityBounds(images: seq<Image>)
    ensures DetectionBonus as real <= AverageSecurity(images) <= 100.0
  {
    if |images| > 0 {
      SumBounds(Scores(images), DetectionBonus, 100);
      var n := |images| as real;
      var s := Sum(Scores(images)) as real;
      assert n * DetectionBonus as real <= s <= n * 100.0;
      DivBounds(s, n, DetectionBonus as real, 100.0);
    }
  }

  /** One more image extends the collected encodings by its own, if any. */
  lemma ExtractedStep(images: seq<Image>, i: nat)
    requires i < |images|
    ensures Extracted(images[..i + 1]) ==
      Extracted(images[..i]) + match ExtractFaceEncoding(images[i])
                               case Success(e) => [e]
                               case Failure(_) => []
  {
    assert images[..i + 1][..i] == images[..i];
  }

  /** Nothing is collected exactly when every extraction fails, and whatever
      is collected is the encoding of one of the images. */
  lemma {:induction false} ExtractedFrom(images: seq<Image>)
    ensures |Extracted(images)| == 0 <==>
      forall i :: 0 <= i < |images| ==> ExtractFaceEncoding(images[i]).Failure?
    ensures forall e :: e in Extracted(images) ==>
      exists i :: 0 <= i < |images| && ExtractFaceEncoding(images[i]) == Success(e)
  {
    if images != [] {
      var n := |images| - 1;
      var front := images[..n];
      ExtractedFrom(front);
      assert forall i :: 0 <= i < n ==> front[i] == images[i];
      forall e | e in Extracted(images)
        ensures exists i :: 0 <= i < |images| && ExtractFaceEncoding(images[i]) == Success(e)
      {
        if e !in Extracted(front) {
          assert ExtractFaceEncoding(images[n]) == Success(e);
        }
      }
    }
  }

  lemma ScoresStep(images: seq<Image>, i: nat)
    requires i < |images|
    ensures Scores(images[..i + 1]) == Scores(images[..i]) + [RecordedScore(images[i].frame)]
  {
  }

  /** The score read back out of the liveness message is the recorded one. */
  lemma MessageScoreIsRecorded(f: Frame, fmt: Formatter)
    ensures SecurityScore(Message(Assess(f), fmt)) == RecordedScore(f)
  {
    SecurityScoreOfMessage(Assess(f), fmt);
  }

  /** The security score `enroll_face` reads for one image: the liveness
      message of its frame, searched for `score: N/100`. */
  method ReadSecurityScore(f: Frame, fmt: Formatter) returns (score: nat)
    ensures score == RecordedScore(f)
  {
    var _, message := DetectLiveness(f, fmt);
    MessageScoreIsRecorded(f, fmt);
    score := SecurityScore(message);
  }

  /** The loop of `enroll_face`: for every image, the security score read
      out of its liveness message, and its encoding when extraction works. */
  method Collect(images: seq<Image>, fmt: Formatter) returns (found: seq<Encoding>, scores: seq<nat>)
    ensures found == Extracted(images)
    ensures scores == Scores(images)
  {
    found := [];
    scores := [];
    var i := 0;
    while i < |images|
      invariant 0 <= i <= |images|
      invariant found == Extracted(images[..i])
      invariant scores == Scores(images[..i])
    {
      var score := ReadSecurityScore(images[i].frame, fmt);
      ScoresStep(images, i);
      scores := scores + [score];
      var r := ExtractFaceEncoding(images[i]);
      ExtractedStep(images, i);
      if r.Success? {
        found := found + [r.value];
      }
      i := i + 1;
    }
    assert images[..|images|] == images;
  }

  /** The parallel lists and the table describe the same name-to-encoding map. */
  ghost predicate Agrees(names: seq<string>, encodings: seq<Encoding>, table: map<string, Row>)
    requires |names| == |encodings|
  {
    forall n :: Lookup(names, encodings, n) == if n in table then Some(table[n].encoding) else None
  }

  /** Writing the same row to the table and the lists keeps them in agreement. */
  lemma UpsertAgrees(names: seq<string>, encodings: seq<Encoding>, table: map<string, Row>, name: string, row: Row)
    requires |names| == |encodings| && Agrees(names, encodings, table)
    ensures Agrees(Upsert(names, encodings, name, row.encoding).0,
                   Upsert(names, encodings, name, row.encoding).1,
                   table[name := row])
  {
  }

  /** Deleting a name from the table and from distinct lists keeps them in
      agreement. */
  lemma RemoveAgrees(names: seq<string>, encodings: seq<Encoding>, table: map<string, Row>, name: string)
    requires |names| == |encodings| && Distinct(names) && Agrees(names, encodings, table)
    ensures Agrees(Remove(names, encodings, name).0, Remove(names, encodings, name).1, table - {name})
  {
  }

  datatype EnrollOutcome =
    | NeedTwoImages
    | NoValidEncodings
    | StoreFailed
    | Enrolled(name: string, imagesUsed: nat, averageSecurity: real)

  datatype DeleteOutcome = Deleted | NotFound | DeleteFailed

  class FaceRegistry {
    var names: seq<string>
    var encodings: seq<Encoding>
    /** The `faces` table, keyed by its UNIQUE `name` column. */
    var table: map<string, Row>

    /** The two lists run in parallel. */
    predicate Valid()
      reads this
    {
      |names| == |encodings|
    }

    /** The lists and the table describe the same name-to-encoding map. */
    ghost predicate InLockstep()
      reads this
      requires Valid()
    {
      Agrees(names, encodings, table)
    }

    /** The state `load_encodings` leaves: the lists of the pickle file (or
        empty ones), next to the table as the database holds it. */
    constructor (loadedNames: seq<string>, loadedEncodings: seq<Encoding>, rows: map<string, Row>)
      requires |loadedNames| == |loadedEncodings|
      ensures Valid()
      ensures names == loadedNames && encodings == loadedEncodings && table == rows
    {
      names := loadedNames;
      encodings := loadedEncodings;
      table := rows;
    }

    /** `enroll_face`. `storeRaised` says whether writing the table row
        raises; nothing is changed then. */
    method Enroll(images: seq<Image>, name: string, fmt: Formatter, storeRaised: bool)
      returns (ok: bool, outcome: EnrollOutcome)
      requires Valid()
      modifies this
      ensures Valid()
      ensures ok == outcome.Enrolled?
      ensures |images| < 2 ==> outcome == NeedTwoImages
      ensures |images| >= 2 && |Extracted(images)| == 0 ==> outcome == NoValidEncodings
      ensures |images| >= 2 && |Extracted(images)| > 0 && storeRaised ==> outcome == StoreFailed
      ensures ok <==> |images| >= 2 && |Extracted(images)| > 0 && !storeRaised
      ensures ok ==>
        outcome == Enrolled(name, |Extracted(images)|, AverageSecurity(images))
        && table == old(table)[name := Row(Aggregate(Extracted(images)), |Extracted(images)|)]
        && (names, encodings) == Upsert(old(names), old(encodings), name, Aggregate(Extracted(images)))
      ensures !ok ==> names == old(names) && encodings == old(encodings) && table == old(table)
      ensures old(Distinct(names)) ==> Distinct(names)
      ensures old(InLockstep()) ==> InLockstep()
    {
      if |images| < 2 {
        return false, NeedTwoImages;
      }
      var found, scores := Collect(images, fmt);
      if |found| < 1 {
        return false, NoValidEncodings;
      }
      var average := if |found| == 1 then found[0] else Mean(found);
      var averageSecurity := if |scores| > 0 then Sum(scores) as real / |scores| as real else 50.0;
      if storeRaised {
        return false, StoreFailed;
      }
      ghost var before := (names, encodings, table);
      table := table[name := Row(average, |found|)];
      if name in names {
        var idx := IndexOf(names, name);
        encodings := encodings[idx := average];
      } else {
        names := names + [name];
        encodings := encodings + [average];
      }
      if Agrees(before.0, before.1, before.2) {
        UpsertAgrees(before.0, before.1, before.2, name, Row(average, |found|));
      }
      return true, Enrolled(name, |found|, averageSecurity);
    }

    /** `delete_face`. `storeRaised` says whether the table delete raises;
        nothing is changed then. A name without a row is not found, and the
        lists are left alone. */
    method Delete(name: string, storeRaised: bool) returns (ok: bool, outcome: DeleteOutcome)
      requires Valid()
      modifies this
      ensures Valid()
      ensures ok == (outcome == Deleted)
      ensures ok <==> !storeRaised && name in old(table)
      ensures storeRaised ==> outcome == DeleteFailed
      ensures !storeRaised && name !in old(table) ==> outcome == NotFound
      ensures ok ==> table == old(table) - {name}
                     && (names, encodings) == Remove(old(names), old(encodings), name)
      ensures !ok ==> names == old(names) && encodings == old(encodings) && table == old(table)
      ensures old(Distinct(names)) ==> Distinct(names)
      ensures old(Distinct(names) && InLockstep()) ==> InLockstep()
      ensures old(Distinct(names) && InLockstep()) && ok ==> Lookup(names, encodings, name).None?
    {
      if storeRaised {
        return false, DeleteFailed;
      }
      if name !in table {
        return false, NotFound;
      }
      ghost var before := (names, encodings, table);
      table := table - {name};
      if name in names {
        var idx := IndexOf(names, name);
        names := names[..idx] + names[idx + 1..];
        encodings := encodings[..idx] + encodings[idx + 1..];
      }
      if Distinct(before.0) && Agrees(before.0, before.1, before.2) {
        RemoveAgrees(before.0, before.1, before.2, name);
      }
      return true, Deleted;
    }

    /** `recognize_face`: an empty registry first, then extraction, then the
        nearest-neighbour decision over the parallel lists. */
    function Recognize(img: Image, dist: Distance): (r: Recognition)
      reads this
      requires Valid()
      ensures |encodings| == 0 ==> r == NoEnrolledFaces
      ensures r.Recognized? ==>
        (ExtractFaceEncoding(img).Success? &&
         exists k :: 0 <= k < |names| && names[k] == r.name
                     && r.confidence == 1.0 - dist(encodings[k], ExtractFaceEncoding(img).value))
      ensures r.NoEncoding? <==> |encodings| > 0 && ExtractFaceEncoding(img).Failure?
      ensures r.NoEncoding? ==> r.error == ExtractFaceEncoding(img).error
      ensures |encodings| > 0 && ExtractFaceEncoding(img).Success? ==>
        r == MatchProbe(names, encodings, ExtractFaceEncoding(img).value, dist)
    {
      if |encodings| == 0 then NoEnrolledFaces
      else
        match ExtractFaceEncoding(img)
        case Failure(e) => NoEncoding(e)
        case Success(probe) => MatchProbe(names, encodings, probe, dist)
    }
  }
}
