/** The request rules of the HTTP routes that sit in front of the registry:
    how `/enroll` prepares its images, how `/recognize` turns a recognition
    into a reply with a security level, and which texts `/config/esp32_ip`
    accepts as an address. */
module Routes {
  import opened Wrappers
  import opened Decimal
  import opened Aggregation
  import opened Extraction
  import opened Matching
  import opened Registry

  // ---------------------------------------------------------------- /enroll

  /** The decoded uploads are rejected when there are none, a single one is
      doubled, and two or more are passed on as they are. */
  function PrepareEnrollImages(images: seq<Image>): (r: Option<seq<Image>>)
    ensures r.None? <==> |images| == 0
    ensures r.Some? ==> |r.value| >= 2 && |r.value| >= |images|
    ensures r.Some? ==> forall x :: x in r.value <==> x in images
    ensures |images| == 1 ==> r == Some([images[0], images[0]])
    ensures |images| >= 2 ==> r == Some(images)
  {
    if |images| == 0 then None
    else if |images| == 1 then Some([images[0], images[0]])
    else Some(images)
  }

  /** Enrolling from one upload stores exactly its own encoding, from two
      copies, and records its own security score as the average. */
  lemma SingleUploadEnrollment(img: Image)
    requires ExtractFaceEncoding(img).Success?
    ensures PrepareEnrollImages([img]).Some?
    ensures Extracted(PrepareEnrollImages([img]).value) ==
      [ExtractFaceEncoding(img).value, ExtractFaceEncoding(img).value]
    ensures Aggregate(Extracted(PrepareEnrollImages([img]).value)) == ExtractFaceEncoding(img).value
    ensures AverageSecurity(PrepareEnrollImages([img]).value) == RecordedScore(img.frame) as real
  {
    var e := ExtractFaceEncoding(img).value;
    var pair := [img, img];
    assert PrepareEnrollImages([img]).value == pair;
    assert pair[..1] == [img] && [img][..0] == [];
    assert Extracted(pair) == [e, e];
    assert [e, e] == seq(2, _ => e);
    MeanOfCopies(e, 2);
    var s := RecordedScore(img.frame);
    assert Scores(pair) == [s, s];
    assert Sum([s, s]) == s + s by {
      assert [] + [s] == [s] && [s] + [s] == [s, s];
      SumAppend([], s);
      SumAppend([s], s);
    }
  }

  // ------------------------------------------------------------- /recognize

  datatype SecurityLevel = Low | Medium | High

  /** `"high" if confidence > 0.6 else "medium" if confidence > 0.4 else "low"`. */
  function LevelOf(confidence: real): (l: SecurityLevel)
    ensures l == High <==> confidence > 0.6
    ensures l == Low <==> confidence <= 0.4
  {
    if confidence > 0.6 then High else if confidence > 0.4 then Medium else Low
  }

  function LevelRank(l: SecurityLevel): nat {
    match l
    case Low => 0
    case Medium => 1
    case High => 2
  }

  /** A higher confidence never gets a lower security level. */
  lemma LevelMonotone(a: real, b: real)
    requires a <= b
    ensures LevelRank(LevelOf(a)) <= LevelRank(LevelOf(b))
  {
    if LevelOf(a) == High {
      assert b > 0.6;
    } else if LevelOf(a) == Medium {
      assert b > 0.4;
    }
  }

  /** The JSON reply of `/recognize`. */
  datatype RecognizeReply =
    | Identified(name: string, confidence: real, level: SecurityLevel)
    | NotIdentified(name: string, confidence: real)

  /** The route reports success only for an accepted match whose name is not
      "Unknown"; otherwise it reports the name (an absent or empty one as
      "Unknown") and the confidence. */
  function Reply(r: Recognition): (reply: RecognizeReply)
    ensures reply.Identified? <==> r.Recognized? && r.name != "Unknown"
    ensures reply.Identified? ==>
      reply.name == r.name && reply.confidence == r.confidence && reply.level == LevelOf(r.confidence)
    ensures reply.NotIdentified? ==> reply.confidence == r.Confidence()
    ensures reply.NotIdentified? ==>
      (reply.name == "Unknown" <==> r.Name().None? || r.Name().value == "" || r.Name().value == "Unknown")
    ensures reply.NotIdentified? && r.Name().Some? && r.Name().value != "" ==> reply.name == r.Name().value
  {
    var name := r.Name();
    if name.Some? && name.value != "Unknown" && r.Accepted() then
      Identified(name.value, r.Confidence(), LevelOf(r.Confidence()))
    else
      NotIdentified(if name.Some? && name.value != "" then name.value else "Unknown", r.Confidence())
  }

  /** An identified face was accepted above the recognition threshold. */
  lemma IdentifiedAboveThreshold(r: Recognition, names: seq<string>, encodings: seq<Encoding>,
                                 probe: Encoding, dist: Distance)
    requires |names| == |encodings| > 0 && r == MatchProbe(names, encodings, probe, dist)
    ensures Reply(r).Identified? ==> Reply(r).confidence > RecognitionThreshold && Reply(r).name in names
  {
    if r.Recognized? {
      var k :| 0 <= k < |encodings| && r.confidence == 1.0 - dist(encodings[k], probe)
               && (forall j :: 0 <= j < k ==> 1.0 - dist(encodings[j], probe) < r.confidence)
               && (r.Recognized? ==> r.name == names[k]);
      assert names[k] == r.name;
    }
  }

  // ------------------------------------------------------- /config/esp32_ip

  /** The first `k` characters of `s` are digits. */
  predicate DigitRun(s: string, k: nat) {
    k <= |s| && AllDigits(s[..k])
  }

  /** The grammar of `(\d{1,3}\.){n}\d{1,3}$` at the start of `s`: some
      run of one to three digits, then either a dot and `n - 1` more groups or,
      for the last group, the end of the text or the single final newline `$`
      lets through. Group values are not checked against 255. */
  ghost predicate DottedText(s: string, n: nat)
    decreases n
  {
    exists k {:trigger DigitRun(s, k)} :: 1 <= k <= 3 && DigitRun(s, k) &&
      if n == 0 then s[k..] == "" || s[k..] == "\n"
      else k < |s| && s[k] == '.' && DottedText(s[k + 1..], n - 1)
  }

  /** Four dot-separated groups of one to three digits, optionally followed
      by one newline. */
  ghost predicate DottedQuadText(s: string) {
    DottedText(s, 3)
  }

  /** What the greedy `\d{1,3}` takes: as many leading digits as there are,
      up to three. */
  function GreedyRun(s: string): (k: nat)
    ensures k <= 3 && DigitRun(s, k)
    ensures k < 3 && k < |s| ==> !IsDigit(s[k])
  {
    if |s| > 0 && IsDigit(s[0]) then
      if |s| > 1 && IsDigit(s[1]) then
        if |s| > 2 && IsDigit(s[2]) then 3 else 2
      else 1
    else 0
  }

  /** `re.match(r'^(\d{1,3}\.){3}\d{1,3}$', s)` read left to right: the
      greedy run of one to three digits, then a dot while `n` groups remain,
      then the end of the text or a final newline. Backtracking to a shorter
      run cannot help, since that run is followed by a digit. */
  function Groups(s: string, n: nat): bool
    decreases n
  {
    var k := GreedyRun(s);
    1 <= k &&
    if n == 0 then s[k..] == "" || s[k..] == "\n"
    else k < |s| && s[k] == '.' && Groups(s[k + 1..], n - 1)
  }

  function MatchesIpPattern(s: string): bool {
    Groups(s, 3)
  }

  /** A greedy match is a match of the grammar. */
  lemma {:induction false} GroupsSound(s: string, n: nat)
    requires Groups(s, n)
    ensures DottedText(s, n)
    decreases n
  {
    var k := GreedyRun(s);
    if n > 0 {
      GroupsSound(s[k + 1..], n - 1);
    }
    assert 1 <= k <= 3 && DigitRun(s, k) &&
      if n == 0 then s[k..] == "" || s[k..] == "\n"
      else k < |s| && s[k] == '.' && DottedText(s[k + 1..], n - 1);
  }

  /** The greedy run stops exactly where a grammar group ends, when the group
      is followed by the end of the text or by a character that is not a
      digit. */
  lemma GreedyRunEndsGroup(s: string, k: nat)
    requires 1 <= k <= 3 && DigitRun(s, k)
    requires k == |s| || !IsDigit(s[k])
    ensures GreedyRun(s) == k
  {
  }

  /** A match of the grammar is found by the greedy reading. */
  lemma {:induction false} GroupsComplete(s: string, n: nat)
    requires DottedText(s, n)
    ensures Groups(s, n)
    decreases n
  {
    var k :| 1 <= k <= 3 && DigitRun(s, k) &&
      if n == 0 then s[k..] == "" || s[k..] == "\n"
      else k < |s| && s[k] == '.' && DottedText(s[k + 1..], n - 1);
    if k < |s| {
      assert s[k..][0] == s[k];
    }
    GreedyRunEndsGroup(s, k);
    if n > 0 {
      GroupsComplete(s[k + 1..], n - 1);
    }
  }

  /** The address pattern accepts exactly the dotted quads. */
  lemma IpPatternExact(s: string)
    ensures MatchesIpPattern(s) <==> DottedQuadText(s)
  {
    if MatchesIpPattern(s) {
      GroupsSound(s, 3);
    }
    if DottedQuadText(s) {
      GroupsComplete(s, 3);
    }
  }

  /** Group values above 255 are accepted. */
  lemma LargeGroupsAccepted()
    ensures MatchesIpPattern("999.999.999.999")
  {
    var s := "999.999.999.999";
    assert GreedyRun(s) == 3 && s[4..] == "999.999.999";
    assert GreedyRun(s[4..]) == 3 && s[4..][4..] == "999.999";
    assert GreedyRun("999.999") == 3 && "999.999"[4..] == "999";
    assert GreedyRun("999") == 3 && "999"[3..] == "";
  }

  /** Three groups are too few. */
  lemma ThreeGroupsRejected()
    ensures !MatchesIpPattern("1.2.3")
  {
    var s := "1.2.3";
    assert GreedyRun(s) == 1 && s[2..] == "2.3";
    assert GreedyRun("2.3") == 1 && "2.3"[2..] == "3";
    assert GreedyRun("3") == 1 && |"3"| == 1;
  }

  /** A group of four digits is too long. */
  lemma LongGroupRejected()
    ensures !MatchesIpPattern("1234.1.1.1")
  {
    assert GreedyRun("1234.1.1.1") == 3 && "1234.1.1.1"[3] == '4';
  }

  /** The new address when `ip` is posted: kept when it matches the pattern,
      "Invalid IP format" otherwise. */
  function ValidateIp(ip: string): (r: Result<string, string>)
    ensures r.Success? <==> DottedQuadText(ip)
    ensures r.Success? ==> r.value == ip
    ensures r.Failure? ==> r.error == "Invalid IP format"
  {
    IpPatternExact(ip);
    if MatchesIpPattern(ip) then Success(ip) else Failure("Invalid IP format")
  }
}
