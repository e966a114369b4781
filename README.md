# Release-candidate tag resolution and image-tag existence check

This project models two parts of the repository's Python build tooling:

- **`build/python/src/Latest_Image_Manager.py`** maps a GitLab tag such as
  `v1.14.0.0` to the registry image tag of the newest release candidate of the
  same release line. Its steps are:
  - normalise the GitLab tag to four numbers I.M.B.D;
  - keep every registry tag that holds I.M.<n>.<n>_RC<n>, keyed by
    `[I, M, base patch, docker patch, rc]`;
  - sort the keys from highest to lowest;
  - return the first sorted tag whose text contains I.M.B.D, or the highest tag
    when none contains it.
- **`build/python/src/check_image.py`** checks that an image tag does not yet
  exist in a public or private ECR repository. The process exit status is:
  - `GOOD_EXIT` (0) when the registry answers "image not found";
  - `BAD_EXIT` (1) when the tag exists or the registry answers with another
    error;
  - as the code is written, also status 0 when the lookup raises an exception
    that is not a `ClientError` (see Findings).

Modules:

- `Wrappers`: `Option` and `Result`.
- `Decimal`: Python's `int()` on digit text and `str()` on non-negative ints,
  with round trips in both directions.
- `TagPattern`: the resolver's regular expressions as explicit matchers.
  - `Search` is `re.search`: the leftmost greedy match.
  - `Spans` is an engine-independent relational meaning of a pattern.
  - For the well-formed patterns used here, `Search` is proved to return
    exactly the leftmost match with maximal digit runs.
  - For literal-only patterns, `Search` is a substring test.
- `Ranking`: Python's `<` on int lists, and the stable descending
  `list.sort(key=..., reverse=True)`.
  - The sort is proved sorted, a permutation, and stable.
  - It is also proved to be the only stable descending arrangement, so any
    stable sort (Timsort included) gives the same list.
- `LatestImage`: the resolver. It has:
  - pure specification functions;
  - a sort-free reference definition of which candidate wins;
  - the class `LatestImageManager`, whose methods run the source's two loops
    and are proved equal to the specification.
- `ImageCheck`: the repository-type branch of the constructor,
  `check_tag_does_not_exist` as written, `handle_exit` (its argument, None
  included, recorded in a field instead of ending the process) and the
  script's main block.
- `ResolverCases`: the resolver evaluated on concrete tags.

The registry listing, the ECR lookup outcome and `sys.argv` are parameters:
- `get_all_images_in_detail()` becomes a `seq<Option<string>>` holding the
  optional `imageTag` of each entry;
- `describe_images` becomes a `LookupOutcome`.

Three consequences of the code are worth stating, each proved on concrete tags:
- **The override beats a higher key.** For `v1.14.0.0` and the tags
  `1.14.0.0_RC1, 1.14.0.1_RC2, 1.14.0.1_RC1, 2.0.0.0_RC1`, the result is
  `1.14.0.0_RC1`. `1.14.0.1_RC2` has the highest key, but `1.14.0.0_RC1`
  contains `1.14.0.0` (`ResolverCases.OverrideExample`; the normalisation of
  `v1.14.0.0` to 1.14.0.0 is `ResolverCases.NormalizeSample`, and the two are
  chained in `ResolverCases.ResolveExample`).
- **The override test is a substring test.** It is an unanchored `re.search`
  on literal text, not a comparison of patch numbers: for `1.14.0.1`, the tag
  `1.14.0.10_RC1` overrides and `1.14.0.01_RC1` does not
  (`ResolverCases.TextOverrideExample`).
- **The release-candidate search is unanchored.** `21.14.0.0_RC1` is kept for
  release 1.14 (`ResolverCases.UnanchoredCandidateKept`).

## Model

| member | source | states |
|---|---|---|
| Decimal.ParseDecimal | build/python/src/Latest_Image_Manager.py:49-52 | int() of a digit run, leading zeros allowed; the value is 0 exactly when every digit is '0' |
| Decimal.ParseShow | build/python/src/Latest_Image_Manager.py:36-40 | int(str(n)) == n for every non-negative n, so the numbers spliced into the f-string patterns are read back as themselves |
| Decimal.ShowParse | build/python/src/Latest_Image_Manager.py:49-52 | str(int(s)) == s exactly for canonical digit text (no leading zero); the decimal representation of a number is unique |
| Decimal.Show | build/python/src/Latest_Image_Manager.py:37 | str(n), as an f-string splices n in, is canonical digit text, one character long exactly when n < 10 |
| TagPattern.MatchAt | build/python/src/Latest_Image_Manager.py:43 | greedy matching at one start position; a match ends within the text, after its start |
| TagPattern.Search | build/python/src/Latest_Image_Manager.py:43 | re.search from a position returns the first start at which the greedy matcher succeeds, and None only when it succeeds nowhere |
| TagPattern.SearchFailsIffNoMatch | build/python/src/Latest_Image_Manager.py:83 | re.search on a well-formed pattern returns None exactly when no start position admits any match, under any choice of digit-run lengths |
| TagPattern.SearchIsLeftmost | build/python/src/Latest_Image_Manager.py:43-52 | a successful re.search returns the match at the leftmost start position that admits any match, with every digit run maximal, and its groups have the pattern's shape |
| TagPattern.SearchLiteralIsSubstring | build/python/src/Latest_Image_Manager.py:122 | for a pattern of literals only, re.search succeeds exactly when the text contains the pattern's literal text |
| LatestImage.SemanticVersionWellFormed | build/python/src/Latest_Image_Manager.py:20 | in SEMANTIC_VERSION_REGEX every digit run is followed by a dot or is last, so greedy matching is exact for it |
| LatestImage.SemanticVersionGroups | build/python/src/Latest_Image_Manager.py:49-52 | a match of SEMANTIC_VERSION_REGEX captures exactly four non-empty digit runs, so the four int() calls apply |
| LatestImage.ReleaseCandidatePattern | build/python/src/Latest_Image_Manager.py:39-40 | for every I.M, regex_for_release_candidate_within_specific_release has every digit run followed by a non-digit literal or last |
| LatestImage.ReleaseCandidateGroups | build/python/src/Latest_Image_Manager.py:92-96 | a match of the release-candidate pattern captures five groups: the texts of I and M, then three non-empty digit runs |
| LatestImage.GitlabTagPattern | build/python/src/Latest_Image_Manager.py:36-37 | regex_for_gitlab_tag consists of literals only and spells out exactly the text I.M.B.D |
| LatestImage.NormalizeGitlabTag | build/python/src/Latest_Image_Manager.py:42-46 | normalising fails exactly when the tag has no N.N.N.N run, and then with the "Invalid Gitlab tag name" error naming the tag |
| LatestImage.NormalizeGitlabTagSpec | build/python/src/Latest_Image_Manager.py:42-55 | on success the result is int() of the four groups of the leftmost N.N.N.N run, each digit run taken in full |
| LatestImage.VersionList | build/python/src/Latest_Image_Manager.py:92-104 | image_version_list has five entries, and its first two, int() of the spliced texts of I and M, are I and M again |
| LatestImage.ParseReleaseCandidate | build/python/src/Latest_Image_Manager.py:83-104 | a registry tag yields a key exactly when it admits a match of (I)\.(M)\.([0-9]+)\.([0-9]+)_RC([0-9]+); the key has five entries and starts with I and M |
| LatestImage.ParseReleaseCandidateAt | build/python/src/Latest_Image_Manager.py:92-104 | when the leftmost match has groups gs, the key is [I, M, int(gs[2]), int(gs[3]), int(gs[4])] |
| LatestImage.Kept | build/python/src/Latest_Image_Manager.py:80-109 | one registry entry adds at most one candidate, and only one carrying the entry's own tag |
| LatestImage.KeptMembers | build/python/src/Latest_Image_Manager.py:82-109 | an entry adds c exactly when it carries c's tag and that tag parses to c's key; an entry without an imageTag adds nothing |
| LatestImage.ReleaseCandidates | build/python/src/Latest_Image_Manager.py:78-109 | all_images_within_release has at most one candidate per registry entry |
| LatestImage.ReleaseCandidatesMembers | build/python/src/Latest_Image_Manager.py:78-109 | a candidate is in all_images_within_release exactly when some entry carries its tag and that tag parses to its key |
| LatestImage.ReleaseCandidateKeys | build/python/src/Latest_Image_Manager.py:98-104 | every retained key has five entries beginning with the release's I and M |
| LatestImage.ReleaseCandidatesEmpty | build/python/src/Latest_Image_Manager.py:79-111 | the list of candidates is empty exactly when no entry's tag admits a release-candidate match |
| LatestImage.Overrides | build/python/src/Latest_Image_Manager.py:122 | the override test succeeds exactly when the tag contains the text I.M.B.D; it is a substring test, not a key comparison |
| LatestImage.FirstOverride | build/python/src/Latest_Image_Manager.py:121-124 | the index at which the scan stops is an overriding candidate with no overriding candidate before it; None means no candidate overrides |
| LatestImage.Choose | build/python/src/Latest_Image_Manager.py:117-124 | highest_release_candidate is one of the sorted candidates; it overrides whenever some candidate does, and it is the first sorted candidate when none does |
| LatestImage.LatestImage | build/python/src/Latest_Image_Manager.py:111-126 | get_latest_image fails only with the "No release candidate" error for I.M, and otherwise returns the tag of a retained candidate |
| LatestImage.ChooseIsFirstPreferred | build/python/src/Latest_Image_Manager.py:115-126 | sorting then scanning selects the first candidate in retrieval order that has the highest key among the eligible ones; eligible means containing I.M.B.D if any candidate does, every candidate otherwise |
| LatestImage.LatestImageSpec | build/python/src/Latest_Image_Manager.py:74-126 | get_latest_image fails exactly when no entry is retained; otherwise it returns the tag of the first preferred retained candidate |
| LatestImage.LatestImageCases | build/python/src/Latest_Image_Manager.py:115-126 | the result is a retained tag: if any tag contains I.M.B.D, it contains it too and has the highest key among those that do; otherwise it has the highest key of all |
| LatestImage.SoleOverride | build/python/src/Latest_Image_Manager.py:117-126 | when exactly one retained tag contains I.M.B.D, that tag is returned whatever the keys |
| LatestImage.Message | build/python/src/Latest_Image_Manager.py:46 | the invalid-tag message contains the tag name; the no-candidate message (line 112) contains "I.M release" |
| LatestImage.LatestImageManager.GetLatestImage | build/python/src/Latest_Image_Manager.py:74-126 | get_latest_image, built from the two loops, returns exactly LatestImage of the manager's version and the listing |
| LatestImage.LatestImageManager.CollectReleaseCandidates | build/python/src/Latest_Image_Manager.py:78-109 | the filtering loop ends with exactly ReleaseCandidates of the listing, in registry order |
| LatestImage.LatestImageManager.ScanForOverride | build/python/src/Latest_Image_Manager.py:117-124 | the default-then-scan loop over the sorted list ends with exactly Choose of that list |
| LatestImage.NewLatestImageManager | build/python/src/Latest_Image_Manager.py:10-29 | construction fails with the invalid-tag error exactly when the GitLab tag has no N.N.N.N run; otherwise the manager stores the tag, the repository and the normalised version |
| Ranking.KeyLess | build/python/src/Latest_Image_Manager.py:115 | Python's list < on int lists is irreflexive |
| Ranking.KeyLessTotal | build/python/src/Latest_Image_Manager.py:115 | Python's list < is total on int lists: two keys are equal or one is smaller |
| Ranking.KeyLessTransitive | build/python/src/Latest_Image_Manager.py:115 | Python's list < is transitive |
| Ranking.SortDescending | build/python/src/Latest_Image_Manager.py:115 | the sort is a permutation of its input (same multiset) |
| Ranking.SortIsSorted | build/python/src/Latest_Image_Manager.py:115 | after the sort no candidate has a smaller key than a later one |
| Ranking.SortIsStable | build/python/src/Latest_Image_Manager.py:115 | for every key, the candidates with that key keep their relative order |
| Ranking.SortIsOnlyStableOrder | build/python/src/Latest_Image_Manager.py:115 | every descending arrangement that keeps each key's candidates in input order equals the modelled sort |
| ImageCheck.ClientFor | build/python/src/check_image.py:24-36 | a client exists exactly for "public" (ECR Public in us-east-1) and "private" (ECR); any other repo type exits with BAD_EXIT |
| ImageCheck.NewCheckImage | build/python/src/check_image.py:24-36 | construction fails with BAD_EXIT exactly for an unknown repo type; otherwise the object stores its arguments and the chosen client, with no exit recorded |
| ImageCheck.ProcessStatus | build/python/src/check_image.py:43 | sys.exit(code) ends the process with the code, and sys.exit(None) with status 0 = GOOD_EXIT |
| ImageCheck.ExitCodeAsWritten | build/python/src/check_image.py:53-73 | the argument of handle_exit: GOOD_EXIT exactly for a ClientError with code ImageNotFoundException; the initial None exactly when a non-ClientError exception is raised; BAD_EXIT otherwise |
| ImageCheck.CheckImage.HandleExit | build/python/src/check_image.py:38-43 | handle_exit records exactly one call, with its argument, None included |
| ImageCheck.CheckImage.CheckTagDoesNotExist | build/python/src/check_image.py:45-73 | the check calls handle_exit exactly once, with ExitCodeAsWritten of the lookup outcome |
| ImageCheck.ScriptStatus | build/python/src/check_image.py:76-88 | the script's status is GOOD_EXIT or BAD_EXIT; with too few arguments or an unknown repo type it is BAD_EXIT |
| ImageCheck.ScriptStatusSpec | build/python/src/check_image.py:79-88 | as written, the script's status is GOOD_EXIT exactly when it has three arguments, the repo type is public or private, and the lookup either answers "not found" or raises an exception that is not a ClientError |
| ImageCheck.RunScript | build/python/src/check_image.py:79-88 | the main block (argument check, construction, check) ends with the status of the recorded handle_exit call, which is ScriptStatus of argv and the lookup outcome |
| ImageCheck.UnexpectedExceptionExitsGood | build/python/src/check_image.py:53-73 | as written, an unexpected exception leaves exit_code None, handle_exit(None) exits with status 0 = GOOD_EXIT, and the script ends with GOOD_EXIT where BAD_EXIT is documented |
| ImageCheck.ExitCode | build/python/src/check_image.py:45-52 | the documented exit code: GOOD_EXIT exactly when the registry answers ImageNotFoundException, BAD_EXIT otherwise (tag found, other or missing error code, other exception) |
| ImageCheck.ExitCodeCorrectsAsWritten | build/python/src/check_image.py:58-71 | the documented and the as-written codes agree on every outcome except an unexpected exception, and there the process status differs |
| ImageCheck.IntendedScriptStatus | build/python/src/check_image.py:47-51 | the documented script status: GOOD_EXIT exactly with three arguments, a known repo type and a "not found" answer |
| ImageCheck.ScriptStatusDiffers | build/python/src/check_image.py:72-73 | the script as written and as documented end differently exactly when the arguments are valid and the lookup raises an exception that is not a ClientError |
| ResolverCases.NormalizeSample | build/python/src/Latest_Image_Manager.py:42-55 | normalize_gitlab_tag of v1.14.0.0 is [1, 14, 0, 0]: the 'v' starts no match and the leftmost match begins after it |
| ResolverCases.ResolveExample | build/python/src/Latest_Image_Manager.py:42-126 | the GitLab tag v1.14.0.0 normalises to 1.14.0.0 and, against the four tags of OverrideExample, resolves to 1.14.0.0_RC1 |
| ResolverCases.OverrideExample | build/python/src/Latest_Image_Manager.py:74-126 | for v1.14.0.0 and the tags 1.14.0.0_RC1, 1.14.0.1_RC2, 1.14.0.1_RC1, 2.0.0.0_RC1, the result is 1.14.0.0_RC1 |
| ResolverCases.UnanchoredCandidateKept | build/python/src/Latest_Image_Manager.py:83 | 21.14.0.0_RC1 is kept for release 1.14, with key [1, 14, 0, 0, 1], because the search is not anchored |
| ResolverCases.TextOverrideExample | build/python/src/Latest_Image_Manager.py:122 | for source 1.14.0.1, the tag 1.14.0.10_RC1 overrides and 1.14.0.01_RC1 does not |

## Left out

- The boto3 session, the ECR and ECR Public clients, and their calls (`describe_image_tags`, `describe_images`). They are network I/O, so their results are parameters.
- `utils` (`get_boto_session`, `set_up_logger`) and all logging. They have no effect on results.
- `AWS_ACCOUNT_ID` and the `maxResults=1000` cap of `get_all_images_in_detail`. The listing is a parameter, so pagination and truncation to 1000 entries are not modelled.
- The `__main__` demo block of `Latest_Image_Manager.py`. It only prints the result for a fixed tag.
- Process termination. `sys.exit` in `handle_exit` and in the constructor is recorded instead of stopping the program.
- Python's `re` in general. Only the shapes of the resolver's three patterns are modelled: digit runs and literal texts, some captured.
- The sort algorithm. Python's Timsort is replaced by an insertion sort, justified by `Ranking.SortIsOnlyStableOrder`: any stable descending sort has the same result.
- Decimal.ParseDecimal: does not model the digit-length limit of `int()`. Since CPython 3.10.7, `int()` raises `ValueError` on a digit run longer than 4300 characters; the model returns the number instead.
- The exceptions' text is modelled only as far as `LatestImage.Message` states it.

## Findings

| source | as written | input that shows it | evidently intended | confidence | as-written member | corrected member |
|---|---|---|---|---|---|---|
| build/python/src/check_image.py:53-73 | `exit_code` starts as None and is set only on return or on a ClientError; the `finally` block calls `handle_exit(None)`, and `sys.exit(None)` exits with status 0 | `describe_images` raises an exception that is not a ClientError (for example a connection error), with argv `[_, "public", repo, tag]` | BAD_EXIT, as the docstring says for every case except "tag does not exist" | medium, not executed | ImageCheck.UnexpectedExceptionExitsGood | ImageCheck.IntendedScriptStatus |
