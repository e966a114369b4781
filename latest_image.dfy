/**
 * The release-candidate tag resolver of build/python/src/Latest_Image_Manager.py.
 *
 * Given a GitLab tag such as "v1.14.0.0" and the image tags of a registry
 * repository, it picks the tag of the current release candidate of that
 * release line (infrastructure version . beluga major version):
 *   1. the leftmost N.N.N.N run of the GitLab tag gives the four version numbers;
 *   2. every registry tag that contains I.M.<n>.<n>_RC<n> (I and M spliced in as
 *      decimal text) gives a key [I, M, base patch, docker patch, rc];
 *   3. the keys are sorted from highest to lowest; the first one is the default,
 *      overridden by the first sorted tag whose text contains I.M.B.D of the
 *      GitLab tag.
 * The registry listing is a parameter: a sequence of optional tag strings, one
 * per image detail, None where the detail has no imageTag.
 */
module LatestImage {
  import opened Wrappers
  import opened Decimal
  import opened TagPattern
  import opened Ranking

  /** The four numbers of a GitLab tag, in the order the constructor stores them. */
  datatype Version = Version(
    infrastructure: nat,
    belugaMajor: nat,
    pingCloudBasePatch: nat,
    pingCloudDockerPatch: nat)

  /** The two exceptions the resolver raises. */
  datatype Error =
    | InvalidGitlabTagName(tagName: string)
    | NoReleaseCandidate(infrastructure: nat, belugaMajor: nat)

  /** The text of the raised exception. */
  function Message(e: Error): (m: string)
    ensures e.NoReleaseCandidate? ==>
      ContainsText(m, Show(e.infrastructure) + "." + Show(e.belugaMajor) + " release")
    ensures e.InvalidGitlabTagName? ==> ContainsText(m, e.tagName)
  {
    match e
    case InvalidGitlabTagName(t) =>
      var prefix := "Unexpected Results: Invalid Gitlab tag name - ";
      assert HasSubstringAt(prefix + t, t, |prefix|);
      prefix + t
    case NoReleaseCandidate(i, m) =>
      var prefix := "No release candidate image was found within ";
      var release := Show(i) + "." + Show(m) + " release";
      assert HasSubstringAt(prefix + release, release, |prefix|);
      prefix + release
  }

  /** SEMANTIC_VERSION_REGEX: ([0-9]+)\.([0-9]+)\.([0-9]+)\.([0-9]+) */
  const SemanticVersionPattern: Pattern :=
    [Digits, Literal(".", false), Digits, Literal(".", false), Digits, Literal(".", false), Digits]

  /** regex_for_release_candidate_within_specific_release: (I)\.(M)\.([0-9]+)\.([0-9]+)_RC([0-9]+) */
  function ReleaseCandidatePattern(infrastructure: nat, belugaMajor: nat): (pat: Pattern)
    ensures WellFormed(pat)
  {
    [Literal(Show(infrastructure), true), Literal(".", false), Literal(Show(belugaMajor), true),
     Literal(".", false), Digits, Literal(".", false), Digits, Literal("_RC", false), Digits]
  }

  /** The literal text I.M.B.D of a version. */
  function GitlabTagText(v: Version): string {
    Show(v.infrastructure) + "." + Show(v.belugaMajor) + "." +
    Show(v.pingCloudBasePatch) + "." + Show(v.pingCloudDockerPatch)
  }

  /**
   * regex_for_gitlab_tag: (I)\.(M)\.(B)\.(D), every group a literal number.
   * It has no digit runs: it spells out exactly I.M.B.D.
   */
  function GitlabTagPattern(v: Version): (pat: Pattern)
    ensures forall i :: 0 <= i < |pat| ==> pat[i].Literal?
    ensures LiteralText(pat) == GitlabTagText(v)
  {
    var i, m := Show(v.infrastructure), Show(v.belugaMajor);
    var b, d := Show(v.pingCloudBasePatch), Show(v.pingCloudDockerPatch);
    var p6: Pattern := [Literal(d, true)];
    LiteralTextCons(d, true, []);
    var p5 := [Literal(".", false)] + p6;
    LiteralTextCons(".", false, p6);
    var p4 := [Literal(b, true)] + p5;
    LiteralTextCons(b, true, p5);
    var p3 := [Literal(".", false)] + p4;
    LiteralTextCons(".", false, p4);
    var p2 := [Literal(m, true)] + p3;
    LiteralTextCons(m, true, p3);
    var p1 := [Literal(".", false)] + p2;
    LiteralTextCons(".", false, p2);
    LiteralTextCons(i, true, p1);
    Regroup(i, ".", m, ".", b, ".", d);
    [Literal(i, true)] + p1
  }

  /** Concatenation nested to the right is concatenation from the left. */
  lemma Regroup(a: string, b: string, c: string, d: string, e: string, f: string, g: string)
    ensures a + (b + (c + (d + (e + (f + g))))) == a + b + c + d + e + f + g
  {
  }

  /** SEMANTIC_VERSION_REGEX has each digit run followed by a dot, or last. */
  lemma SemanticVersionWellFormed()
    ensures WellFormed(SemanticVersionPattern)
  {
  }

  lemma SemanticVersionGroups(gs: seq<string>)
    requires GroupShape(SemanticVersionPattern, gs)
    ensures |gs| == 4 && AllDigits(gs[0]) && AllDigits(gs[1]) && AllDigits(gs[2]) && AllDigits(gs[3])
    ensures |gs[0]| > 0 && |gs[1]| > 0 && |gs[2]| > 0 && |gs[3]| > 0
  {
  }

  lemma ReleaseCandidateGroups(infrastructure: nat, belugaMajor: nat, gs: seq<string>)
    requires GroupShape(ReleaseCandidatePattern(infrastructure, belugaMajor), gs)
    ensures |gs| == 5 && gs[0] == Show(infrastructure) && gs[1] == Show(belugaMajor)
    ensures AllDigits(gs[2]) && AllDigits(gs[3]) && AllDigits(gs[4])
    ensures |gs[2]| > 0 && |gs[3]| > 0 && |gs[4]| > 0
  {
    var p := ReleaseCandidatePattern(infrastructure, belugaMajor);
    assert GroupShape(p[1..], gs[1..]);
    assert GroupShape(p[2..], gs[1..]);
    assert GroupShape(p[3..], gs[2..]);
    assert GroupShape(p[4..], gs[2..]);
    assert GroupShape(p[5..], gs[3..]);
    assert GroupShape(p[6..], gs[3..]);
    assert GroupShape(p[7..], gs[4..]);
    assert GroupShape(p[8..], gs[4..]);
    assert GroupShape(p[9..], gs[5..]);
  }

  /**
   * normalize_gitlab_tag: the four numbers of the leftmost N.N.N.N run, or
   * the "Invalid Gitlab tag name" exception.
   */
  function NormalizeGitlabTag(tagName: string): (r: Result<Version, Error>)
    ensures r.Failure? <==> !AnyMatch(SemanticVersionPattern, tagName)
    ensures r.Failure? ==> r.error == InvalidGitlabTagName(tagName)
  {
    SemanticVersionWellFormed();
    SearchFailsIffNoMatch(SemanticVersionPattern, tagName);
    match Search(SemanticVersionPattern, tagName, 0)
    case None => Failure(InvalidGitlabTagName(tagName))
    case Some((p, gs, e)) =>
      SearchIsLeftmost(SemanticVersionPattern, tagName);
      SemanticVersionGroups(gs);
      Success(Version(ParseDecimal(gs[0]), ParseDecimal(gs[1]), ParseDecimal(gs[2]), ParseDecimal(gs[3])))
  }

  /**
   * Normalising fails exactly when no position of the tag starts an N.N.N.N
   * run; otherwise its result is the four numbers of the leftmost such run,
   * each run of digits taken in full.
   */
  lemma NormalizeGitlabTagSpec(tagName: string)
    ensures NormalizeGitlabTag(tagName).Failure? <==> !AnyMatch(SemanticVersionPattern, tagName)
    ensures NormalizeGitlabTag(tagName).Failure? ==>
      NormalizeGitlabTag(tagName).error == InvalidGitlabTagName(tagName)
    ensures NormalizeGitlabTag(tagName).Success? ==>
      exists p: nat, gs, e :: LeftmostMatch(SemanticVersionPattern, tagName, p, gs, e) &&
        |gs| == 4 && AllDigits(gs[0]) && AllDigits(gs[1]) && AllDigits(gs[2]) && AllDigits(gs[3]) &&
        NormalizeGitlabTag(tagName).value ==
          Version(ParseDecimal(gs[0]), ParseDecimal(gs[1]), ParseDecimal(gs[2]), ParseDecimal(gs[3]))
  {
    SemanticVersionWellFormed();
    SearchFailsIffNoMatch(SemanticVersionPattern, tagName);
    if Search(SemanticVersionPattern, tagName, 0).Some? {
      var (p, gs, e) := Search(SemanticVersionPattern, tagName, 0).value;
      SearchIsLeftmost(SemanticVersionPattern, tagName);
      SemanticVersionGroups(gs);
      assert LeftmostMatch(SemanticVersionPattern, tagName, p, gs, e);
    }
  }

  /**
   * The key [I, M, base, docker, rc] of a registry tag kept by
   * regex_for_release_candidate_within_specific_release, or None.
   */
  function ParseReleaseCandidate(tagName: string, infrastructure: nat, belugaMajor: nat): (r: Option<seq<nat>>)
    ensures r.Some? <==> AnyMatch(ReleaseCandidatePattern(infrastructure, belugaMajor), tagName)
    ensures r.Some? ==> |r.value| == 5 && r.value[0] == infrastructure && r.value[1] == belugaMajor
  {
    ReleaseCandidateSearch(tagName, infrastructure, belugaMajor);
    var found := Search(ReleaseCandidatePattern(infrastructure, belugaMajor), tagName, 0);
    if found.None? then None else Some(VersionList(found.value.1, infrastructure, belugaMajor))
  }

  /**
   * image_version_list: int() of the five groups. The first two groups are
   * the spliced texts of I and M, so they read back as I and M.
   */
  function VersionList(gs: seq<string>, infrastructure: nat, belugaMajor: nat): (key: seq<nat>)
    requires |gs| == 5 && gs[0] == Show(infrastructure) && gs[1] == Show(belugaMajor)
    requires AllDigits(gs[2]) && AllDigits(gs[3]) && AllDigits(gs[4])
    ensures |key| == 5 && key[0] == infrastructure && key[1] == belugaMajor
  {
    ParsedAsShown(gs[0], infrastructure);
    ParsedAsShown(gs[1], belugaMajor);
    [ParseDecimal(gs[0]), ParseDecimal(gs[1]), ParseDecimal(gs[2]), ParseDecimal(gs[3]), ParseDecimal(gs[4])]
  }

  /** A group that captured str(n) reads back as n. */
  lemma ParsedAsShown(g: string, n: nat)
    requires g == Show(n)
    ensures AllDigits(g) && ParseDecimal(g) == n
  {
    ParseShow(n);
  }

  /** What re.search reports for the release-candidate pattern. */
  lemma ReleaseCandidateSearch(tagName: string, infrastructure: nat, belugaMajor: nat)
    ensures var r := Search(ReleaseCandidatePattern(infrastructure, belugaMajor), tagName, 0);
      && (r.None? <==> !AnyMatch(ReleaseCandidatePattern(infrastructure, belugaMajor), tagName))
      && (r.Some? ==>
            var gs := r.value.1;
            |gs| == 5 && gs[0] == Show(infrastructure) && gs[1] == Show(belugaMajor) &&
            AllDigits(gs[2]) && AllDigits(gs[3]) && AllDigits(gs[4]) &&
            |gs[2]| > 0 && |gs[3]| > 0 && |gs[4]| > 0)
  {
    var pat := ReleaseCandidatePattern(infrastructure, belugaMajor);
    SearchFailsIffNoMatch(pat, tagName);
    if Search(pat, tagName, 0).Some? {
      SearchIsLeftmost(pat, tagName);
      ReleaseCandidateGroups(infrastructure, belugaMajor, Search(pat, tagName, 0).value.1);
    }
  }

  /** The key of a tag whose leftmost release-candidate match captured gs. */
  lemma ParseReleaseCandidateAt(tagName: string, infrastructure: nat, belugaMajor: nat,
                                p: nat, gs: seq<string>, e: nat)
    requires Search(ReleaseCandidatePattern(infrastructure, belugaMajor), tagName, 0) == Some((p, gs, e))
    ensures |gs| == 5 && AllDigits(gs[2]) && AllDigits(gs[3]) && AllDigits(gs[4])
    ensures |gs[2]| > 0 && |gs[3]| > 0 && |gs[4]| > 0
    ensures ParseReleaseCandidate(tagName, infrastructure, belugaMajor) ==
      Some([infrastructure, belugaMajor, ParseDecimal(gs[2]), ParseDecimal(gs[3]), ParseDecimal(gs[4])])
  {
    ReleaseCandidateSearch(tagName, infrastructure, belugaMajor);
    ParseShow(infrastructure);
    ParseShow(belugaMajor);
  }

  /** What one registry entry adds to all_images_within_release: nothing, or one candidate. */
  function Kept(image: Option<string>, infrastructure: nat, belugaMajor: nat): (r: seq<Candidate>)
    ensures |r| <= 1
    ensures r != [] ==> image == Some(r[0].tagName)
  {
    match image
    case None => []
    case Some(t) =>
      match ParseReleaseCandidate(t, infrastructure, belugaMajor)
      case None => []
      case Some(key) => [Candidate(key, t)]
  }

  /** all_images_within_release after the loop over the registry entries. */
  function ReleaseCandidates(images: seq<Option<string>>, infrastructure: nat, belugaMajor: nat): (r: seq<Candidate>)
    ensures |r| <= |images|
  {
    if images == [] then []
    else ReleaseCandidates(images[..|images| - 1], infrastructure, belugaMajor) +
         Kept(images[|images| - 1], infrastructure, belugaMajor)
  }

  lemma ReleaseCandidatesStep(images: seq<Option<string>>, n: nat, infrastructure: nat, belugaMajor: nat)
    requires n < |images|
    ensures ReleaseCandidates(images[..n + 1], infrastructure, belugaMajor) ==
            ReleaseCandidates(images[..n], infrastructure, belugaMajor) + Kept(images[n], infrastructure, belugaMajor)
  {
    assert images[..n + 1][..n] == images[..n];
  }

  /** An entry adds c exactly when it carries c's tag and that tag parses to c's key. */
  lemma KeptMembers(image: Option<string>, infrastructure: nat, belugaMajor: nat, c: Candidate)
    ensures c in Kept(image, infrastructure, belugaMajor) <==>
      image == Some(c.tagName) &&
      ParseReleaseCandidate(c.tagName, infrastructure, belugaMajor) == Some(c.versionList)
  {
  }

  /**
   * A candidate is retained exactly when some registry entry carries its tag
   * and that tag has a release-candidate match for I.M whose parsed key is the
   * candidate's key.
   */
  lemma {:induction false} ReleaseCandidatesMembers(images: seq<Option<string>>, infrastructure: nat, belugaMajor: nat, c: Candidate)
    ensures c in ReleaseCandidates(images, infrastructure, belugaMajor) <==>
      Some(c.tagName) in images &&
      ParseReleaseCandidate(c.tagName, infrastructure, belugaMajor) == Some(c.versionList)
  {
    if images != [] {
      var init := images[..|images| - 1];
      var last := images[|images| - 1];
      var before := ReleaseCandidates(init, infrastructure, belugaMajor);
      var added := Kept(last, infrastructure, belugaMajor);
      ReleaseCandidatesMembers(init, infrastructure, belugaMajor, c);
      KeptMembers(last, infrastructure, belugaMajor, c);
      assert images == init + [last];
      assert Some(c.tagName) in images <==> Some(c.tagName) in init || last == Some(c.tagName);
      assert ReleaseCandidates(images, infrastructure, belugaMajor) == before + added;
      assert c in before + added <==> c in before || c in added;
    }
  }

  /** Every retained key has the shape [I, M, base, docker, rc]. */
  lemma ReleaseCandidateKeys(images: seq<Option<string>>, infrastructure: nat, belugaMajor: nat, c: Candidate)
    requires c in ReleaseCandidates(images, infrastructure, belugaMajor)
    ensures |c.versionList| == 5 && c.versionList[0] == infrastructure && c.versionList[1] == belugaMajor
  {
    ReleaseCandidatesMembers(images, infrastructure, belugaMajor, c);
  }

  /** Without entries that carry a matching tag, nothing is retained. */
  lemma {:induction false} ReleaseCandidatesEmpty(images: seq<Option<string>>, infrastructure: nat, belugaMajor: nat)
    ensures ReleaseCandidates(images, infrastructure, belugaMajor) == [] <==>
      forall i :: 0 <= i < |images| && images[i].Some? ==>
        !AnyMatch(ReleaseCandidatePattern(infrastructure, belugaMajor), images[i].value)
  {
    if images != [] {
      var init := images[..|images| - 1];
      ReleaseCandidatesEmpty(init, infrastructure, belugaMajor);
      assert forall i :: 0 <= i < |init| ==> init[i] == images[i];
    }
  }

  /**
   * The test of line 122: the tag text holds a match of regex_for_gitlab_tag.
   * It is a plain substring test for the text I.M.B.D, not a key comparison.
   */
  predicate Overrides(v: Version, c: Candidate)
    ensures Overrides(v, c) <==> ContainsText(c.tagName, GitlabTagText(v))
  {
    SearchLiteralIsSubstring(GitlabTagPattern(v), c.tagName);
    Search(GitlabTagPattern(v), c.tagName, 0).Some?
  }

  /** The index of the first candidate of s that the GitLab tag overrides to. */
  function FirstOverride(s: seq<Candidate>, v: Version): (r: Option<nat>)
    ensures r.Some? ==> r.value < |s| && Overrides(v, s[r.value])
    ensures r.Some? ==> forall i :: 0 <= i < r.value ==> !Overrides(v, s[i])
    ensures r.None? ==> forall i :: 0 <= i < |s| ==> !Overrides(v, s[i])
  {
    if s == [] then None
    else if Overrides(v, s[0]) then Some(0)
    else match FirstOverride(s[1..], v)
      case None => None
      case Some(i) => Some(i + 1)
  }

  /** The scan stops at m exactly when FirstOverride says so. */
  lemma FirstOverrideUnique(s: seq<Candidate>, v: Version, m: nat)
    requires m <= |s|
    requires forall i :: 0 <= i < m ==> !Overrides(v, s[i])
    ensures m < |s| && Overrides(v, s[m]) ==> FirstOverride(s, v) == Some(m)
    ensures m == |s| ==> FirstOverride(s, v) == None
  {
  }

  /** highest_release_candidate after the scan of the sorted list. */
  function Choose(sorted: seq<Candidate>, v: Version): (c: Candidate)
    requires sorted != []
    ensures c in sorted
    ensures (exists i :: 0 <= i < |sorted| && Overrides(v, sorted[i])) ==> Overrides(v, c)
    ensures (forall i :: 0 <= i < |sorted| ==> !Overrides(v, sorted[i])) ==> c == sorted[0]
  {
    match FirstOverride(sorted, v)
    case Some(i) => sorted[i]
    case None => sorted[0]
  }

  /** get_latest_image, on the registry listing `images`, for the normalised GitLab tag v. */
  function LatestImage(v: Version, images: seq<Option<string>>): (r: Result<string, Error>)
    ensures r.Failure? ==> r.error == NoReleaseCandidate(v.infrastructure, v.belugaMajor)
    ensures r.Success? ==>
      exists c :: c in ReleaseCandidates(images, v.infrastructure, v.belugaMajor) && c.tagName == r.value
  {
    var candidates := ReleaseCandidates(images, v.infrastructure, v.belugaMajor);
    if candidates == [] then Failure(NoReleaseCandidate(v.infrastructure, v.belugaMajor))
    else
      var chosen := Choose(SortDescending(candidates), v);
      assert chosen in multiset(SortDescending(candidates));
      assert chosen in candidates;
      Success(chosen.tagName)
  }

  // A reference definition of the selection that does not sort.

  predicate AnyOverride(cs: seq<Candidate>, v: Version) {
    exists c :: c in cs && Overrides(v, c)
  }

  /** The candidates the selection draws from: the overriding ones if there are any, else all. */
  predicate Eligible(cs: seq<Candidate>, v: Version, c: Candidate) {
    !AnyOverride(cs, v) || Overrides(v, c)
  }

  /** An eligible candidate with no eligible candidate of a greater key. */
  predicate Preferred(cs: seq<Candidate>, v: Version, c: Candidate) {
    Eligible(cs, v, c) &&
    forall d :: d in cs && Eligible(cs, v, d) ==> !KeyLess(c.versionList, d.versionList)
  }

  /** The first eligible candidate of s. */
  function FirstEligible(s: seq<Candidate>, cs: seq<Candidate>, v: Version): Option<Candidate> {
    if s == [] then None
    else if Eligible(cs, v, s[0]) then Some(s[0])
    else FirstEligible(s[1..], cs, v)
  }

  /**
   * When s[idx] is the first eligible candidate with key k, it is also the
   * first eligible one among the candidates of s with key k.
   */
  lemma {:induction false} FirstEligibleWithKey(s: seq<Candidate>, idx: nat, cs: seq<Candidate>, v: Version)
    requires idx < |s| && Eligible(cs, v, s[idx])
    requires forall i :: 0 <= i < idx && s[i].versionList == s[idx].versionList ==> !Eligible(cs, v, s[i])
    ensures FirstEligible(WithKey(s, s[idx].versionList), cs, v) == Some(s[idx])
  {
    var k := s[idx].versionList;
    if idx > 0 {
      FirstEligibleWithKey(s[1..], idx - 1, cs, v);
      if s[0].versionList == k {
        assert WithKey(s, k) == [s[0]] + WithKey(s[1..], k);
      } else {
        assert WithKey(s, k) == WithKey(s[1..], k);
      }
    } else {
      assert WithKey(s, k) == [s[0]] + WithKey(s[1..], k);
    }
  }

  lemma FirstPreferredIndex(cs: seq<Candidate>, v: Version, i0: nat) returns (j: nat)
    requires i0 < |cs| && Preferred(cs, v, cs[i0])
    ensures j <= i0 && Preferred(cs, v, cs[j])
    ensures forall i :: 0 <= i < j ==> !Preferred(cs, v, cs[i])
  {
    j := 0;
    while !Preferred(cs, v, cs[j])
      invariant j <= i0
      decreases i0 - j
      invariant forall i :: 0 <= i < j ==> !Preferred(cs, v, cs[i])
    {
      j := j + 1;
    }
  }

  lemma SortSameMembers(cs: seq<Candidate>)
    ensures forall c :: c in SortDescending(cs) <==> c in cs
  {
    forall c
      ensures c in SortDescending(cs) <==> c in cs
    {
      assert c in SortDescending(cs) <==> c in multiset(SortDescending(cs));
      assert c in cs <==> c in multiset(cs);
    }
  }

  /**
   * In a descending arrangement s of cs, the scan of line 121-124 stops at a
   * preferred candidate, and every candidate before it is ineligible.
   */
  lemma ScanFindsPreferred(s: seq<Candidate>, cs: seq<Candidate>, v: Version) returns (idx: nat)
    requires s != [] && SortedDescending(s)
    requires forall c :: c in s <==> c in cs
    ensures idx < |s| && Choose(s, v) == s[idx] && Preferred(cs, v, s[idx])
    ensures forall i :: 0 <= i < idx ==> !Eligible(cs, v, s[i])
  {
    if AnyOverride(cs, v) {
      var c :| c in cs && Overrides(v, c);
      assert c in s;
      idx := FirstOverride(s, v).value;
    } else {
      idx := 0;
    }
    var x := s[idx];
    forall d | d in cs && Eligible(cs, v, d)
      ensures !KeyLess(x.versionList, d.versionList)
    {
      assert d in s;
      var m :| 0 <= m < |s| && s[m] == d;
      if m == idx {
        assert !KeyLess(x.versionList, x.versionList);
      }
    }
  }

  /**
   * Sorting and scanning selects, among the retained candidates, the first one
   * in retrieval order whose key is highest among the candidates that contain
   * the GitLab tag's I.M.B.D, or highest among all when none does.
   */
  lemma ChooseIsFirstPreferred(cs: seq<Candidate>, v: Version)
    requires cs != []
    ensures exists j :: 0 <= j < |cs| && Choose(SortDescending(cs), v) == cs[j] &&
                        Preferred(cs, v, cs[j]) && forall i :: 0 <= i < j ==> !Preferred(cs, v, cs[i])
  {
    var s := SortDescending(cs);
    SortIsSorted(cs);
    SortSameMembers(cs);
    var idx := ScanFindsPreferred(s, cs, v);
    var x := s[idx];
    var k := x.versionList;
    assert x in cs;
    var i0 :| 0 <= i0 < |cs| && cs[i0] == x;
    var j := FirstPreferredIndex(cs, v, i0);
    assert cs[j].versionList == k by {
      KeyLessTotal(cs[j].versionList, k);
    }
    forall i | 0 <= i < j && cs[i].versionList == k
      ensures !Eligible(cs, v, cs[i])
    {
      if Eligible(cs, v, cs[i]) {
        assert Preferred(cs, v, cs[i]);
      }
    }
    FirstEligibleWithKey(cs, j, cs, v);
    FirstEligibleWithKey(s, idx, cs, v);
    SortIsStable(cs, k);
    assert cs[j] == x;
  }

  /**
   * get_latest_image fails exactly when no entry is retained, with the error
   * naming the I.M release; otherwise it returns the tag of a retained
   * candidate: the first in retrieval order among the highest-keyed candidates
   * containing I.M.B.D if any candidate contains it, else among the
   * highest-keyed candidates overall.
   */
  lemma LatestImageSpec(v: Version, images: seq<Option<string>>)
    ensures var cs := ReleaseCandidates(images, v.infrastructure, v.belugaMajor);
      && (LatestImage(v, images).Failure? <==> cs == [])
      && (LatestImage(v, images).Failure? ==>
            LatestImage(v, images).error == NoReleaseCandidate(v.infrastructure, v.belugaMajor))
      && (LatestImage(v, images).Success? ==>
            exists j :: 0 <= j < |cs| && cs[j].tagName == LatestImage(v, images).value &&
              Preferred(cs, v, cs[j]) && forall i :: 0 <= i < j ==> !Preferred(cs, v, cs[i]))
  {
    var cs := ReleaseCandidates(images, v.infrastructure, v.belugaMajor);
    if cs != [] {
      ChooseIsFirstPreferred(cs, v);
    }
  }

  /**
   * The two cases of the selection spelled out: a candidate containing
   * I.M.B.D wins over every candidate that does not, and otherwise the result
   * carries the greatest key of all.
   */
  lemma LatestImageCases(v: Version, images: seq<Option<string>>)
    requires LatestImage(v, images).Success?
    ensures var cs := ReleaseCandidates(images, v.infrastructure, v.belugaMajor);
      exists c :: c in cs && c.tagName == LatestImage(v, images).value &&
        (AnyOverride(cs, v) ==>
           && ContainsText(c.tagName, GitlabTagText(v))
           && forall d :: d in cs && ContainsText(d.tagName, GitlabTagText(v)) ==>
                !KeyLess(c.versionList, d.versionList)) &&
        (!AnyOverride(cs, v) ==> forall d :: d in cs ==> !KeyLess(c.versionList, d.versionList))
  {
    var cs := ReleaseCandidates(images, v.infrastructure, v.belugaMajor);
    LatestImageSpec(v, images);
    var j :| 0 <= j < |cs| && cs[j].tagName == LatestImage(v, images).value &&
      Preferred(cs, v, cs[j]) && forall i :: 0 <= i < j ==> !Preferred(cs, v, cs[i]);
    var c := cs[j];
    forall d | d in cs
      ensures Overrides(v, d) <==> ContainsText(d.tagName, GitlabTagText(v))
    {
    }
    assert c in cs;
  }

  /** When exactly one retained tag contains I.M.B.D, that tag is the result. */
  lemma SoleOverride(v: Version, images: seq<Option<string>>, c1: Candidate)
    requires c1 in ReleaseCandidates(images, v.infrastructure, v.belugaMajor)
    requires ContainsText(c1.tagName, GitlabTagText(v))
    requires forall c ::
      c in ReleaseCandidates(images, v.infrastructure, v.belugaMajor) && ContainsText(c.tagName, GitlabTagText(v))
      ==> c.tagName == c1.tagName
    ensures LatestImage(v, images) == Success(c1.tagName)
  {
    var cs := ReleaseCandidates(images, v.infrastructure, v.belugaMajor);
    assert AnyOverride(cs, v);
    LatestImageSpec(v, images);
    LatestImageCases(v, images);
  }

  /** Latest_Image_Manager: the GitLab tag, the repository and the tag's four numbers. */
  class LatestImageManager {
    const origGitlabTagName: string
    const repositoryName: string
    const version: Version

    /** The part of __init__ that runs when the GitLab tag normalises. */
    constructor (origGitlabTagName: string, repositoryName: string)
      requires NormalizeGitlabTag(origGitlabTagName).Success?
      ensures this.origGitlabTagName == origGitlabTagName && this.repositoryName == repositoryName
      ensures version == NormalizeGitlabTag(origGitlabTagName).value
    {
      this.origGitlabTagName := origGitlabTagName;
      this.repositoryName := repositoryName;
      version := NormalizeGitlabTag(origGitlabTagName).value;
    }

    /**
     * get_latest_image over the registry listing `images` (what
     * get_all_images_in_detail returns, as the optional imageTag of each entry).
     */
    method GetLatestImage(images: seq<Option<string>>) returns (r: Result<string, Error>)
      ensures r == LatestImage(version, images)
    {
      var allImagesWithinRelease := CollectReleaseCandidates(images);
      if |allImagesWithinRelease| == 0 {
        return Failure(NoReleaseCandidate(version.infrastructure, version.belugaMajor));
      }
      allImagesWithinRelease := SortDescending(allImagesWithinRelease);
      var highestReleaseCandidate := ScanForOverride(allImagesWithinRelease);
      return Success(highestReleaseCandidate.tagName);
    }

    /** The loop of lines 79-109: all_images_within_release, in registry order. */
    method CollectReleaseCandidates(images: seq<Option<string>>) returns (allImagesWithinRelease: seq<Candidate>)
      ensures allImagesWithinRelease == ReleaseCandidates(images, version.infrastructure, version.belugaMajor)
    {
      allImagesWithinRelease := [];
      var n := 0;
      while n < |images|
        invariant n <= |images|
        invariant allImagesWithinRelease ==
          ReleaseCandidates(images[..n], version.infrastructure, version.belugaMajor)
      {
        var origImageTagName := images[n];
        if origImageTagName.Some? {
          var imageVersionList := ParseReleaseCandidate(origImageTagName.value, version.infrastructure, version.belugaMajor);
          if imageVersionList.Some? {
            allImagesWithinRelease := allImagesWithinRelease + [Candidate(imageVersionList.value, origImageTagName.value)];
          }
        }
        ReleaseCandidatesStep(images, n, version.infrastructure, version.belugaMajor);
        n := n + 1;
      }
      assert images[..n] == images;
    }

    /** Lines 118-124: the default, then the first sorted candidate the GitLab tag overrides to. */
    method ScanForOverride(sorted: seq<Candidate>) returns (highestReleaseCandidate: Candidate)
      requires sorted != []
      ensures highestReleaseCandidate == Choose(sorted, version)
    {
      highestReleaseCandidate := sorted[0];
      var m := 0;
      while m < |sorted|
        invariant m <= |sorted|
        invariant forall i :: 0 <= i < m ==> !Overrides(version, sorted[i])
        invariant highestReleaseCandidate == sorted[0]
      {
        if Overrides(version, sorted[m]) {
          highestReleaseCandidate := sorted[m];
          break;
        }
        m := m + 1;
      }
      FirstOverrideUnique(sorted, version, m);
    }
  }

  /**
   * Latest_Image_Manager(ORIG_GITLAB_TAG_NAME, REPOSITORY_NAME): raises the
   * "Invalid Gitlab tag name" exception when the tag has no N.N.N.N run.
   */
  method NewLatestImageManager(origGitlabTagName: string, repositoryName: string)
    returns (r: Result<LatestImageManager, Error>)
    ensures r.Failure? <==> !AnyMatch(SemanticVersionPattern, origGitlabTagName)
    ensures r.Failure? ==> r.error == InvalidGitlabTagName(origGitlabTagName)
    ensures r.Success? ==>
      && fresh(r.value)
      && r.value.origGitlabTagName == origGitlabTagName
      && r.value.repositoryName == repositoryName
      && NormalizeGitlabTag(origGitlabTagName).Success?
      && r.value.version == NormalizeGitlabTag(origGitlabTagName).value
  {
    NormalizeGitlabTagSpec(origGitlabTagName);
    match NormalizeGitlabTag(origGitlabTagName)
    case Failure(e) =>
      r := Failure(e);
    case Success(_) =>
      var manager := new LatestImageManager(origGitlabTagName, repositoryName);
      r := Success(manager);
  }
}
