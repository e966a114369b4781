/**
 * Worked cases of the resolver of build/python/src/Latest_Image_Manager.py,
 * evaluated on concrete tags: the override of the highest key by a tag that
 * contains the GitLab tag's I.M.B.D, the unanchored release-candidate test,
 * and the text (not numeric) nature of the override test.
 */
module ResolverCases {
  import opened Wrappers
  import opened Decimal
  import opened TagPattern
  import opened Ranking
  import opened LatestImage

  /** The text 1.14.0.0_RC1 sits at position o of s and ends it. */
  predicate SampleAt(s: string, o: nat) {
    o + 12 == |s| && forall k :: 0 <= k < 12 ==> s[o + k] == Sample[k]
  }

  const Sample: string := "1.14.0.0_RC1"

  lemma SampleChars(s: string, o: nat)
    requires SampleAt(s, o)
    ensures s[o + 11..o + 12] == "1" && s[o + 8..o + 11] == "_RC" && s[o + 7..o + 8] == "0"
    ensures s[o + 6..o + 7] == "." && s[o + 5..o + 6] == "0" && s[o + 4..o + 5] == "."
    ensures s[o + 2..o + 4] == "14" && s[o + 1..o + 2] == "." && s[o..o + 1] == "1"
    ensures DigitRunEnd(s, o + 11) == o + 12 && DigitRunEnd(s, o + 7) == o + 8 && DigitRunEnd(s, o + 5) == o + 6
  {
    var w := s[o..];
    assert w == Sample;
    assert s[o + 11..o + 12] == w[11..12];
    assert s[o + 8..o + 11] == w[8..11];
    assert s[o + 7..o + 8] == w[7..8];
    assert s[o + 6..o + 7] == w[6..7];
    assert s[o + 5..o + 6] == w[5..6];
    assert s[o + 4..o + 5] == w[4..5];
    assert s[o + 2..o + 4] == w[2..4];
    assert s[o + 1..o + 2] == w[1..2];
    assert s[o..o + 1] == w[0..1];
  }

  lemma RcTailMatch(s: string, o: nat)
    requires SampleAt(s, o)
    ensures MatchAt(RcTail, s, o + 5) ==
            Some((["0", "0", "1"], o + 12))
  {
    SampleChars(s, o);
    var p8: Pattern := [Digits];
    var p7 := [Literal("_RC", false)] + p8;
    var p6 := [Digits] + p7;
    var p5 := [Literal(".", false)] + p6;
    var p4 := [Digits] + p5;
    assert p4 == [Digits, Literal(".", false), Digits, Literal("_RC", false), Digits];
    assert MatchAt([], s, o + 12) == Some(([], o + 12));
    DigitsStep([], s, o + 11, o + 12, [], o + 12);
    assert [Digits] + [] == p8;
    assert [s[o + 11..o + 12]] + [] == ["1"];
    LiteralStep("_RC", false, p8, s, o + 8, ["1"], o + 12);
    DigitsStep(p7, s, o + 7, o + 8, ["1"], o + 12);
    assert [s[o + 7..o + 8]] + ["1"] == ["0", "1"];
    LiteralStep(".", false, p6, s, o + 6, ["0", "1"], o + 12);
    DigitsStep(p5, s, o + 5, o + 6, ["0", "1"], o + 12);
    assert [s[o + 5..o + 6]] + ["0", "1"] == ["0", "0", "1"];
  }

  // regex_for_release_candidate_within_specific_release for release 1.14, built from its tail.
  const RcTail: Pattern := [Digits, Literal(".", false), Digits, Literal("_RC", false), Digits]
  const RcFrom3: Pattern := [Literal(".", false)] + RcTail
  const RcFrom2: Pattern := [Literal("14", true)] + RcFrom3
  const RcFrom1: Pattern := [Literal(".", false)] + RcFrom2
  const Release114Pattern: Pattern := [Literal("1", true)] + RcFrom1

  lemma Release114PatternIs()
    ensures ReleaseCandidatePattern(1, 14) == Release114Pattern
  {
    SmallNumbers();
  }

  lemma RcFullMatch(s: string, o: nat)
    requires SampleAt(s, o)
    ensures MatchAt(Release114Pattern, s, o) == Some((["1", "14", "0", "0", "1"], o + 12))
  {
    SampleChars(s, o);
    RcTailMatch(s, o);
    assert ["14"] + ["0", "0", "1"] == ["14", "0", "0", "1"];
    assert ["1"] + ["14", "0", "0", "1"] == ["1", "14", "0", "0", "1"];
    LiteralStep(".", false, RcTail, s, o + 4, ["0", "0", "1"], o + 12);
    LiteralStep("14", true, RcFrom3, s, o + 2, ["0", "0", "1"], o + 12);
    LiteralStep(".", false, RcFrom2, s, o + 1, ["14", "0", "0", "1"], o + 12);
    LiteralStep("1", true, RcFrom1, s, o, ["14", "0", "0", "1"], o + 12);
  }

  lemma SmallNumbers()
    ensures Show(0) == "0" && Show(1) == "1" && Show(14) == "14"
    ensures ParseDecimal("0") == 0 && ParseDecimal("1") == 1 && ParseDecimal("14") == 14
  {
  }

  lemma SampleSearch(s: string, o: nat)
    requires SampleAt(s, o)
    requires forall q :: 0 <= q < o ==> MatchAt(Release114Pattern, s, q).None?
    ensures Search(ReleaseCandidatePattern(1, 14), s, 0) == Some((o, ["1", "14", "0", "0", "1"], o + 12))
  {
    RcFullMatch(s, o);
    SearchAtFirst(Release114Pattern, s, 0, o, ["1", "14", "0", "0", "1"], o + 12);
    Release114PatternIs();
  }

  lemma SampleKey(s: string, o: nat)
    requires Search(ReleaseCandidatePattern(1, 14), s, 0) == Some((o, ["1", "14", "0", "0", "1"], o + 12))
    ensures ParseReleaseCandidate(s, 1, 14) == Some([1, 14, 0, 0, 1])
  {
    ParseReleaseCandidateAt(s, 1, 14, o, ["1", "14", "0", "0", "1"], o + 12);
    SmallNumbers();
  }

  /** A tag ending in 1.14.0.0_RC1 with no earlier match is kept with the key [1, 14, 0, 0, 1]. */
  lemma CandidateKeptAt(s: string, o: nat)
    requires SampleAt(s, o)
    requires forall q :: 0 <= q < o ==> MatchAt(Release114Pattern, s, q).None?
    ensures ParseReleaseCandidate(s, 1, 14) == Some([1, 14, 0, 0, 1])
  {
    SampleSearch(s, o);
    SampleKey(s, o);
  }

  /**
   * The release-candidate test is not anchored: 21.14.0.0_RC1 is kept for
   * release 1.14, with the key of the 1.14.0.0_RC1 inside it.
   */
  lemma UnanchoredCandidateKept(s: string)
    requires SampleAt(s, 1) && s[0] == '2'
    ensures ParseReleaseCandidate(s, 1, 14) == Some([1, 14, 0, 0, 1])
  {
    assert MatchAt(Release114Pattern, s, 0).None?;
    CandidateKeptAt(s, 1);
  }

  /** None of the other three tags contains 1.14.0.0: every window differs from it somewhere. */
  lemma OthersLackSampleText()
    ensures !ContainsText("1.14.0.1_RC2", "1.14.0.0")
    ensures !ContainsText("1.14.0.1_RC1", "1.14.0.0")
    ensures !ContainsText("2.0.0.0_RC1", "1.14.0.0")
  {
    var t := "1.14.0.0";
    var s1 := "1.14.0.1_RC2";
    forall p | 0 <= p <= |s1|
      ensures !HasSubstringAt(s1, t, p)
    {
      if p + |t| <= |s1| {
        var w := s1[p..p + |t|];
        if p == 0 { assert w[7] != t[7]; }
        else if p == 2 { assert w[1] != t[1]; }
        else { assert w[0] != t[0]; }
      }
    }
    var s2 := "1.14.0.1_RC1";
    forall p | 0 <= p <= |s2|
      ensures !HasSubstringAt(s2, t, p)
    {
      if p + |t| <= |s2| {
        var w := s2[p..p + |t|];
        if p == 0 { assert w[7] != t[7]; }
        else if p == 2 { assert w[1] != t[1]; }
        else { assert w[0] != t[0]; }
      }
    }
    var s3 := "2.0.0.0_RC1";
    forall p | 0 <= p <= |s3|
      ensures !HasSubstringAt(s3, t, p)
    {
      if p + |t| <= |s3| {
        assert s3[p..p + |t|][0] != t[0];
      }
    }
  }

  lemma SampleText()
    ensures GitlabTagText(Version(1, 14, 0, 0)) == "1.14.0.0"
    ensures GitlabTagText(Version(1, 14, 0, 1)) == "1.14.0.1"
  {
    SmallNumbers();
  }

  lemma OnlyFirstHasSampleText(images: seq<Option<string>>, t: string)
    requires |images| == 4
    requires images[0] == Some("1.14.0.0_RC1") && images[1] == Some("1.14.0.1_RC2")
    requires images[2] == Some("1.14.0.1_RC1") && images[3] == Some("2.0.0.0_RC1")
    requires Some(t) in images && ContainsText(t, "1.14.0.0")
    ensures t == "1.14.0.0_RC1"
  {
    OthersLackSampleText();
    var i :| 0 <= i < |images| && images[i] == Some(t);
  }

  lemma FirstRetained(images: seq<Option<string>>)
    requires |images| == 4 && images[0].Some? && SampleAt(images[0].value, 0)
    ensures Candidate([1, 14, 0, 0, 1], images[0].value) in ReleaseCandidates(images, 1, 14)
  {
    CandidateKeptAt(images[0].value, 0);
    ReleaseCandidatesMembers(images, 1, 14, Candidate([1, 14, 0, 0, 1], images[0].value));
  }

  lemma FirstHasSampleText(t: string)
    requires t == "1.14.0.0_RC1"
    ensures ContainsText(t, GitlabTagText(Version(1, 14, 0, 0)))
  {
    SampleText();
    assert HasSubstringAt(t, "1.14.0.0", 0);
  }

  /** The GitLab tag v1.14.0.0, character by character. */
  predicate GitlabSampleAt(s: string) {
    |s| == 9 && s[0] == 'v' && forall k :: 0 <= k < 8 ==> s[1 + k] == GitlabSample[k]
  }

  const GitlabSample: string := "1.14.0.0"

  lemma GitlabSampleChars(s: string)
    requires GitlabSampleAt(s)
    ensures !IsDigit(s[0])
    ensures s[8..9] == "0" && s[7..8] == "." && s[6..7] == "0" && s[5..6] == "."
    ensures s[3..5] == "14" && s[2..3] == "." && s[1..2] == "1"
    ensures DigitRunEnd(s, 8) == 9 && DigitRunEnd(s, 6) == 7
    ensures DigitRunEnd(s, 3) == 5 && DigitRunEnd(s, 1) == 2
  {
    var w := s[1..];
    assert w == GitlabSample;
    assert s[8..9] == w[7..8];
    assert s[7..8] == w[6..7];
    assert s[6..7] == w[5..6];
    assert s[5..6] == w[4..5];
    assert s[3..5] == w[2..4];
    assert s[2..3] == w[1..2];
    assert s[1..2] == w[0..1];
    assert DigitRunEnd(s, 2) == 2 && DigitRunEnd(s, 4) == 5;
  }

  // SEMANTIC_VERSION_REGEX, built from its tail.
  const SvFrom6: Pattern := [Digits]
  const SvFrom5: Pattern := [Literal(".", false)] + SvFrom6
  const SvFrom4: Pattern := [Digits] + SvFrom5
  const SvFrom3: Pattern := [Literal(".", false)] + SvFrom4
  const SvFrom2: Pattern := [Digits] + SvFrom3
  const SvFrom1: Pattern := [Literal(".", false)] + SvFrom2

  lemma GitlabSampleMatch(s: string)
    requires GitlabSampleAt(s)
    ensures MatchAt(SemanticVersionPattern, s, 1) == Some((["1", "14", "0", "0"], 9))
  {
    GitlabSampleChars(s);
    assert MatchAt([], s, 9) == Some(([], 9));
    DigitsStep([], s, 8, 9, [], 9);
    assert [Digits] + [] == SvFrom6;
    assert [s[8..9]] + [] == ["0"];
    LiteralStep(".", false, SvFrom6, s, 7, ["0"], 9);
    DigitsStep(SvFrom5, s, 6, 7, ["0"], 9);
    assert [s[6..7]] + ["0"] == ["0", "0"];
    LiteralStep(".", false, SvFrom4, s, 5, ["0", "0"], 9);
    DigitsStep(SvFrom3, s, 3, 5, ["0", "0"], 9);
    assert [s[3..5]] + ["0", "0"] == ["14", "0", "0"];
    LiteralStep(".", false, SvFrom2, s, 2, ["14", "0", "0"], 9);
    DigitsStep(SvFrom1, s, 1, 2, ["14", "0", "0"], 9);
    assert [s[1..2]] + ["14", "0", "0"] == ["1", "14", "0", "0"];
    assert [Digits] + SvFrom1 == SemanticVersionPattern;
  }

  /**
   * normalize_gitlab_tag("v1.14.0.0") is 1.14.0.0: the 'v' starts no match,
   * and the leftmost match, at position 1, captures 1, 14, 0 and 0.
   */
  lemma NormalizeSample(s: string)
    requires GitlabSampleAt(s)
    ensures NormalizeGitlabTag(s) == Success(Version(1, 14, 0, 0))
  {
    GitlabSampleChars(s);
    GitlabSampleMatch(s);
    assert MatchAt(SemanticVersionPattern, s, 0).None?;
    SearchAtFirst(SemanticVersionPattern, s, 0, 1, ["1", "14", "0", "0"], 9);
    SmallNumbers();
  }

  /**
   * Source tag v1.14.0.0 against the registry tags 1.14.0.0_RC1, 1.14.0.1_RC2,
   * 1.14.0.1_RC1 and 2.0.0.0_RC1: 1.14.0.1_RC2 has the highest key, but
   * 1.14.0.0_RC1 contains 1.14.0.0 and overrides it.
   */
  lemma OverrideExample(images: seq<Option<string>>)
    requires |images| == 4
    requires images[0] == Some("1.14.0.0_RC1") && images[1] == Some("1.14.0.1_RC2")
    requires images[2] == Some("1.14.0.1_RC1") && images[3] == Some("2.0.0.0_RC1")
    ensures LatestImage.LatestImage(Version(1, 14, 0, 0), images) == Success("1.14.0.0_RC1")
  {
    var v := Version(1, 14, 0, 0);
    var c1 := Candidate([1, 14, 0, 0, 1], images[0].value);
    assert SampleAt(images[0].value, 0);
    FirstRetained(images);
    FirstHasSampleText(c1.tagName);
    SampleText();
    forall c | c in ReleaseCandidates(images, 1, 14) && ContainsText(c.tagName, GitlabTagText(v))
      ensures c.tagName == c1.tagName
    {
      ReleaseCandidatesMembers(images, 1, 14, c);
      OnlyFirstHasSampleText(images, c.tagName);
    }
    SoleOverride(v, images, c1);
  }

  /**
   * The whole resolution: the GitLab tag v1.14.0.0 normalises to 1.14.0.0,
   * and against the four registry tags above it resolves to 1.14.0.0_RC1.
   */
  lemma ResolveExample(gitlabTag: string, images: seq<Option<string>>)
    requires gitlabTag == "v1.14.0.0"
    requires |images| == 4
    requires images[0] == Some("1.14.0.0_RC1") && images[1] == Some("1.14.0.1_RC2")
    requires images[2] == Some("1.14.0.1_RC1") && images[3] == Some("2.0.0.0_RC1")
    ensures NormalizeGitlabTag(gitlabTag) == Success(Version(1, 14, 0, 0))
    ensures LatestImage.LatestImage(NormalizeGitlabTag(gitlabTag).value, images) == Success("1.14.0.0_RC1")
  {
    assert GitlabSampleAt(gitlabTag);
    NormalizeSample(gitlabTag);
    OverrideExample(images);
  }

  /**
   * The override is a text test: for source 1.14.0.1 the tag 1.14.0.10_RC1
   * overrides, although its docker patch is 10, and 1.14.0.01_RC1 does not,
   * although its docker patch is 1.
   */
  lemma TextOverrideExample(c: Candidate, d: Candidate)
    requires c.tagName == "1.14.0.10_RC1" && d.tagName == "1.14.0.01_RC1"
    ensures Overrides(Version(1, 14, 0, 1), c)
    ensures !Overrides(Version(1, 14, 0, 1), d)
  {
    var v := Version(1, 14, 0, 1);
    SampleText();
    assert HasSubstringAt(c.tagName, "1.14.0.1", 0);
    LeadingZeroLacksText(d.tagName);
  }

  lemma LeadingZeroLacksText(s: string)
    requires s == "1.14.0.01_RC1"
    ensures !ContainsText(s, "1.14.0.1")
  {
    var t := "1.14.0.1";
    forall p | 0 <= p <= |s|
      ensures !HasSubstringAt(s, t, p)
    {
      if p + |t| <= |s| {
        var w := s[p..p + |t|];
        if p == 0 { assert w[7] != t[7]; }
        else if p == 2 { assert w[1] != t[1]; }
        else { assert w[0] != t[0]; }
      }
    }
  }
}
