/** How enrollment reads a per-image security score back out of the liveness
    message: `re.search(r'score: (\d+)/100', message)`, then `int` of the
    group, and 50 when nothing matches. `\d` is taken as an ASCII digit. */
module ScorePattern {
  import opened Wrappers
  import opened Decimal
  import opened Liveness

  const ScoreTag: string := "score: "
  const ScoreSuffix: string := "/100"
  const DefaultSecurityScore: nat := 50

  predicate NoColon(s: string) {
    forall i :: 0 <= i < |s| ==> s[i] != ':'
  }

  /** The pattern anchored at the start of `s`. Backtracking into the digit
      run cannot help: a shorter run is followed by a digit, never by '/'. */
  function MatchAt(s: string): (r: Option<nat>)
    ensures r.Some? ==> |s| > 5 && s[5] == ':'
  {
    if |s| < |ScoreTag| || s[..|ScoreTag|] != ScoreTag then None
    else
      var d := LeadingDigits(s[|ScoreTag|..]);
      var rest := s[|ScoreTag| + |d|..];
      if |d| > 0 && |rest| >= |ScoreSuffix| && rest[..|ScoreSuffix|] == ScoreSuffix
      then Some(Value(d)) else None
  }

  /** `s` starts with "score: ", then `k >= 1` digits, then "/100": the
      texts the anchored pattern accepts, with `k` the length of the group. */
  predicate TagAt(s: string, k: nat) {
    k >= 1 && |s| >= |ScoreTag| + k + |ScoreSuffix|
    && s[..|ScoreTag|] == ScoreTag
    && AllDigits(s[|ScoreTag|..|ScoreTag| + k])
    && s[|ScoreTag| + k..|ScoreTag| + k + |ScoreSuffix|] == ScoreSuffix
  }

  /** The anchored pattern matches exactly the texts of the form `TagAt`, and
      its group is the whole digit run, read as a number: giving back part of
      the run never helps, as a digit is never '/'. */
  lemma MatchAtExact(s: string)
    ensures MatchAt(s).Some? <==> exists k :: TagAt(s, k)
    ensures forall k :: TagAt(s, k) ==> MatchAt(s) == Some(Value(s[|ScoreTag|..|ScoreTag| + k]))
  {
    var n := |ScoreTag|;
    if MatchAt(s).Some? {
      var d := LeadingDigits(s[n..]);
      assert s[n..][..|d|] == d;
      assert s[n..n + |d|] == s[n..][..|d|];
      assert s[n + |d|..n + |d| + |ScoreSuffix|] == s[n + |d|..][..|ScoreSuffix|];
      assert TagAt(s, |d|);
    }
    forall k | TagAt(s, k) ensures MatchAt(s) == Some(Value(s[n..n + k])) {
      TagAtMatches(s, k);
    }
  }

  /** A text of the form `TagAt(s, k)` matches, with the `k` digits as group. */
  lemma TagAtMatches(s: string, k: nat)
    requires TagAt(s, k)
    ensures MatchAt(s) == Some(Value(s[|ScoreTag|..|ScoreTag| + k]))
  {
    var n := |ScoreTag|;
    var t := s[n..];
    var d := s[n..n + k];
    assert t == d + t[k..];
    assert t[k..][0] == s[n + k] == '/';
    LeadingDigitsOf(d, t[k..]);
    assert s[n + k..][..|ScoreSuffix|] == s[n + k..n + k + |ScoreSuffix|];
  }

  /** The pattern anchored at every position of `s`, end of text included. */
  function Matches(s: string): (ms: seq<Option<nat>>)
    ensures |ms| == |s| + 1
    ensures forall i :: 0 <= i <= |s| ==> ms[i] == MatchAt(s[i..])
  {
    seq(|s| + 1, i requires 0 <= i <= |s| => MatchAt(s[i..]))
  }

  /** The first result present in `ms` from position `i` on. */
  function FirstSome(ms: seq<Option<nat>>, i: nat): Option<nat>
    requires i <= |ms|
    decreases |ms| - i
  {
    if i == |ms| then None
    else if ms[i].Some? then ms[i]
    else FirstSome(ms, i + 1)
  }

  /** `re.search`: the match at the leftmost position where there is one. */
  function Search(s: string): Option<nat> {
    FirstSome(Matches(s), 0)
  }

  /** The scan from `i` finds nothing exactly when no position from `i` on
      has a result, and otherwise returns the result at the leftmost one. */
  lemma {:induction false} FirstSomeIsLeftmost(ms: seq<Option<nat>>, i: nat)
    requires i <= |ms|
    ensures FirstSome(ms, i).None? <==> forall j :: i <= j < |ms| ==> ms[j].None?
    ensures forall k :: i <= k < |ms| && ms[k].Some? && (forall j :: i <= j < k ==> ms[j].None?)
                        ==> FirstSome(ms, i) == ms[k]
    decreases |ms| - i
  {
    if i < |ms| && ms[i].None? {
      FirstSomeIsLeftmost(ms, i + 1);
    }
  }

  /** The score enrollment records for one image. */
  function SecurityScore(message: string): nat {
    match Search(message)
    case Some(n) => n
    case None => DefaultSecurityScore
  }

  /** A text without a colon holds no match. */
  lemma NoColonNoScore(s: string)
    requires NoColon(s)
    ensures Search(s).None?
  {
    forall i | 0 <= i <= |s| ensures MatchAt(s[i..]).None? {
      if i + 5 < |s| {
        assert s[i..][5] == s[i + 5];
      }
    }
    FirstSomeIsLeftmost(Matches(s), 0);
  }

  /** No position inside a colon-free prefix starts a match: the colon of
      the pattern would fall in the prefix or in "score". */
  lemma NoMatchInPrefix(prefix: string, rest: string, j: nat)
    requires NoColon(prefix) && j < |prefix| && |rest| >= |ScoreTag| && rest[..|ScoreTag|] == ScoreTag
    ensures MatchAt((prefix + rest)[j..]).None?
  {
    var s := prefix + rest;
    var k := |prefix|;
    if j + 5 < |s| {
      assert s[j..][5] == s[j + 5];
      if j + 5 < k {
        assert s[j + 5] == prefix[j + 5];
      } else {
        assert s[j + 5] == rest[j + 5 - k] == ScoreTag[j + 5 - k];
      }
    }
  }

  /** The score printed after a colon-free prefix is the one found. */
  lemma ScoreFound(prefix: string, n: nat, tail: string)
    requires NoColon(prefix)
    ensures Search(prefix + ScoreTag + Digits(n) + ScoreSuffix + tail) == Some(n)
  {
    var rest := ScoreSuffix + tail;
    var at := ScoreTag + (Digits(n) + rest);
    Regroup(prefix, ScoreTag, Digits(n), ScoreSuffix, tail);
    StartsWith(ScoreTag, Digits(n) + rest);
    StartsWith(ScoreSuffix, tail);
    TagMatch(n, rest);
    FirstMatchAfterPrefix(prefix, at);
  }

  lemma Regroup(a: string, b: string, c: string, d: string, e: string)
    ensures a + b + c + d + e == a + (b + (c + (d + e)))
  {
  }

  lemma StartsWith(a: string, b: string)
    ensures |a + b| >= |a| && (a + b)[..|a|] == a
  {
  }

  /** When the text after a colon-free prefix starts with the tag and
      matches, the search returns that match. */
  lemma FirstMatchAfterPrefix(prefix: string, at: string)
    requires NoColon(prefix) && |at| >= |ScoreTag| && at[..|ScoreTag|] == ScoreTag
    requires MatchAt(at).Some?
    ensures Search(prefix + at) == MatchAt(at)
  {
    var s := prefix + at;
    var ms := Matches(s);
    assert s[|prefix|..] == at;
    forall j | 0 <= j < |prefix| ensures ms[j].None? {
      NoMatchInPrefix(prefix, at, j);
    }
    FirstSomeIsLeftmost(ms, 0);
  }

  /** The pattern matches at the tag and reads the printed number. */
  lemma TagMatch(n: nat, rest: string)
    requires |rest| >= |ScoreSuffix| && rest[..|ScoreSuffix|] == ScoreSuffix
    ensures MatchAt(ScoreTag + (Digits(n) + rest)) == Some(n)
  {
    var at := ScoreTag + (Digits(n) + rest);
    assert at[..|ScoreTag|] == ScoreTag;
    assert at[|ScoreTag|..] == Digits(n) + rest;
    LeadingDigitsOf(Digits(n), rest);
    assert at[|ScoreTag| + |Digits(n)|..] == rest;
    ValueOfDigits(n);
  }

  /** A passing message yields its score. */
  lemma LiveMessageScore(score: nat)
    ensures SecurityScore(LiveMessage(score)) == score
  {
    var prefix := "Live face detected (";
    assert NoColon(prefix);
    assert LiveMessage(score) == prefix + ScoreTag + Digits(score) + ScoreSuffix + ")";
    ScoreFound(prefix, score, ")");
  }

  /** A failing message yields its score, whatever reasons follow it. */
  lemma FakeMessageScore(score: nat, shown: seq<Reason>, fmt: Formatter)
    ensures SecurityScore(FakeMessage(score, shown, fmt)) == score
  {
    var prefix := "Possible fake detected (";
    var tail := ") - " + JoinReasons(shown, fmt);
    assert NoColon(prefix);
    assert FakeMessage(score, shown, fmt) == prefix + ScoreTag + Digits(score) + ScoreSuffix + tail;
    ScoreFound(prefix, score, tail);
  }

  /** What enrollment records for a liveness verdict: the score when the
      frame was scored, 50 when no face was found or the check was skipped
      (neither message carries a score). */
  lemma SecurityScoreOfMessage(v: LivenessVerdict, fmt: Formatter)
    ensures SecurityScore(Message(v, fmt)) ==
      match v
      case Scored(s, _) => s
      case _ => DefaultSecurityScore
  {
    match v
    case NoFaceDetected =>
      assert NoColon(NoFaceMessage);
      NoColonNoScore(NoFaceMessage);
    case Skipped =>
      assert NoColon(SkippedMessage);
      NoColonNoScore(SkippedMessage);
    case Scored(s, rs) =>
      if s >= PassScore {
        LiveMessageScore(s);
      } else {
        FakeMessageScore(s, FirstTwo(rs), fmt);
      }
  }
}
