# Release retention for a GitHub Action, in Dafny

This project models the core of `ghaction-rm-releases`, a GitHub Action that
deletes old releases of a repository together with their tags. It also proves
properties of that model.

- **`src/github.ts`.** `getReleases` lists the repository's releases. It keeps
  those whose tag matches a name pattern and sorts them newest first.
  `rmReleases` then drops the releases an exclude pattern matches. It keeps a
  release when it is among the `releasesToKeep` newest, or when it is at most
  `daysToKeep` days old. Every other release is deleted, first the release
  and then its `tags/<tag>` reference, unless the run is a dry run.
- **`src/utils.ts`.** `getInputs` validates the two count inputs and converts
  the boolean flags.

Modules, one per component:

| file | module | models |
|---|---|---|
| `wrappers.dfy` | `Wrappers` | `Option`, `Result`, `Outcome` |
| `decimal.dfy` | `Decimal` | `Number.prototype.toString` on integers, and canonical decimal strings |
| `inputs.dfy` | `Inputs` | `getInputs`: `parseInt`, the count validation, the flags |
| `releases.dfy` | `Releases` | the `Release` record, the name filter, the sort, the exclude filter, `getReleases` on a listing |
| `retention.dfy` | `Retention` | the partition loop of `rmReleases` and its properties |
| `remote.dfy` | `Remote` | the hosting API as a `Gateway` class holding releases, tag references, a call log and injected failures |
| `github.dfy` | `GitHub` | `getReleases`, `deleteRelease`, `deleteTag`, `deleteReleaseAndTag`, `rmReleases` against a `Gateway` |

Modelling choices:

- **Collaborators become parameters.** The regular-expression engine is a
  `RegexEngine` value. It says which patterns compile, what `test` answers and
  what `SyntaxError` text an invalid pattern gives. The clock is the `now`
  argument, in milliseconds. The API is the `Gateway` object.
- **Dates.** `created_at` is `Option<int>` milliseconds, and `None` means the
  date does not parse. The age test `ageInDays <= daysToKeep` becomes
  `now - createdAt <= daysToKeep * 86400000`. For a positive `daysToKeep`
  this is the same test as the division.
- **Missing tags.** A missing, `null`, `undefined` or empty `tag_name` is
  written `""`. All four are falsy in `!release?.tag_name`, and the code
  treats them the same way. A `null` entry in the listing is `None`.
- **Errors.** A thrown value is `Thrown`: either an `Error` object, whose
  `message` is reported, or another value, reported as `String(value)`.
  Errors travel as their message strings, with the source's exact prefixes.
- **`Promise.all`.** `map` runs each async callback synchronously up to its
  first `await`. So every `deleteRelease` request is issued, in list order,
  before any callback goes on. A callback then goes on to `deleteTag` only if
  its release deletion succeeded. The model fixes one timing, in which the
  answers arrive in list order. It has two phases. First all release
  deletions are run, in list order. Then come the tag deletions of the
  candidates whose release went, in list order. The result is the first
  failed release deletion in list order, or else the first failed tag
  deletion.

Points about the source's behaviour:

- An unparseable date sorts as time 0, not as "earliest". So it sorts after
  every release dated after 1970, but before releases dated before 1970.
- Equal times keep their listing order, because the sort is stable.
- `rmReleases` has no draft-only, prerelease-only or target-branch options.

## Model

| member | source | states |
|---|---|---|
| `Inputs.ParseCount` | src/utils.ts:18-30 | a successful count is never negative, and every rejection carries exactly `<FIELD> must be a non-negative integer.` |
| `Inputs.ParseCountCharacterized` | src/utils.ts:18-30 | blank input gives 0; any other input is accepted iff it is the canonical decimal form of a natural number (no sign, no leading zero, no white space, nothing after the digits), and then it is that number |
| `Inputs.CountRoundTrip` | src/utils.ts:19-27 | the decimal string of every natural number is accepted as that number |
| `Inputs.SignRejected` | src/utils.ts:20-26 | `-1`, `-0` and `+5` are rejected |
| `Inputs.LeadingZeroRejected` | src/utils.ts:20-26 | `007` is rejected |
| `Inputs.WhitespaceRejected` | src/utils.ts:20-26 | ` 7` and `7 ` are rejected: the text must equal the printed number |
| `Inputs.FractionRejected` | src/utils.ts:20-26 | `2.5` and `3a` are rejected: nothing may follow the digits |
| `Inputs.HexRejected` | src/utils.ts:20-26 | `0x10` is rejected, because `16` is not its text |
| `Inputs.IsBlank` | src/utils.ts:18 | a value is blank (empty or only white space, so `trim()` gives `""`) iff nothing is left once leading white space is skipped |
| `Inputs.ParseInt` | src/utils.ts:19 | a blank value gives `NaN`; a negative result comes only from a value whose first non-space character is `-` |
| `Inputs.NonDigitRejected` | src/utils.ts:18-26 | a value that does not start with white space and holds any character other than a digit is rejected with the field's message |
| `Inputs.ParseIntReadsHex` | src/utils.ts:19 | `parseInt("0x10")` is 16 |
| `Inputs.ParseIntSkipsLeadingSpace` | src/utils.ts:19 | `parseInt(" 7")` is 7 |
| `Inputs.ParseIntStopsAtTrailingText` | src/utils.ts:19 | `parseInt("7 ")` is 7 |
| `Inputs.ParseIntTruncatesFraction` | src/utils.ts:19 | `parseInt("2.5")` is 2 |
| `Inputs.DecimalIsRadixTen` | src/utils.ts:19 | on a digit string, `parseInt`'s radix-10 value is its decimal value |
| `Inputs.ParseIntCanonical` | src/utils.ts:19 | `parseInt` reads a canonical decimal string as its value |
| `Inputs.GetInputs` | src/utils.ts:14-64 | `RELEASES_TO_KEEP` is checked before `DAYS_TO_KEEP`, and the first failure is the result; when both counts are valid the call succeeds; on success both counts are the validated non-negative values, each flag is true iff its raw text is exactly `true`, and the strings pass through |
| `Inputs.FlagIsExact` | src/utils.ts:51-55 | `true` sets a flag; `True`, `1`, `""` and ` true` do not |
| `Decimal.NatToString` | src/utils.ts:23 | `toString` of a natural number is a canonical decimal string denoting that number |
| `Decimal.CanonicalRoundTrip` | src/utils.ts:23 | printing the value of a canonical decimal string gives the string back |
| `Decimal.LeadingDigitBound` | src/utils.ts:23 | a digit string denotes at least its leading digit |
| `Releases.Eligible` | src/github.ts:48-54 | a release with a missing or empty tag is never selected, whatever the pattern |
| `Releases.MatchingReleases` | src/github.ts:47-54 | every kept entry is a listed release with a non-empty tag that the pattern matches, and every listed release with such a tag is kept |
| `Releases.SortNewestFirst` | src/github.ts:55-64 | the result is newest first by creation time (an unparseable date counts as 0), and it is a permutation of the input |
| `Releases.SortIsStable` | src/github.ts:55-64 | releases with the same creation time keep their input order |
| `Releases.UnparseableSortsAsZero` | src/github.ts:55-64 | in the sorted list, a release whose date does not parse sits where time 0 would: every dated release after it is dated at or before 1970, and every dated release before it at or after 1970 |
| `Releases.InsertKeepsTies` | src/github.ts:55-64 | inserting one release keeps the order among equal times |
| `Releases.ReleasesMatching` | src/github.ts:28-70 | an empty pattern gives `[]`; a listing failure gives `Unable to list release: <message or String(value)>`; an invalid pattern gives `Unable to list release: <SyntaxError text>`; otherwise the result is newest first and a permutation of the matching releases |
| `Releases.ListErrorNamesTheCause` | src/github.ts:66-68 | the listing error keeps its cause: different causes give different messages |
| `Releases.SelectedAreExactlyTheMatching` | src/github.ts:47-54 | a release is in the result iff it is listed with a non-empty matching tag; no release with an empty tag is ever in it |
| `Releases.SelectedTiesInListingOrder` | src/github.ts:55-64 | in the result, releases of equal time appear in the order they were listed |
| `Releases.WithoutExcluded` | src/github.ts:133-136 | no remaining tag matches the exclude pattern, and every release it does not match remains |
| `Releases.ExcludedNeverRemain` | src/github.ts:133-136 | a release remains iff it was there and its tag does not match the exclude pattern |
| `Retention.KeptByAge` | src/github.ts:148-153 | a release is kept by age only when `daysToKeep` is given and positive and the release has a date |
| `Retention.DeletedIndices` | src/github.ts:141-158 | index `i` is listed for deletion iff the release at `i` is kept neither by count (`i < releasesToKeep`) nor by age; the indices are increasing |
| `Retention.KeptIndices` | src/github.ts:141-158 | index `i` is listed as kept iff the release at `i` is kept by count or by age; the indices are increasing |
| `Retention.PartitionForDeletion` | src/github.ts:138-158 | the loop's `releasesToDelete` is the releases at the deletion indices, in list order: an order-preserving subsequence |
| `Retention.PartitionIsExact` | src/github.ts:141-161 | every index is in exactly one part, and the two parts together have as many releases as the list |
| `Retention.KeptCount` | src/github.ts:160-161 | `matches - releasesToDelete.length` is the number of releases kept |
| `Retention.NothingDeletedWhenAllKept` | src/github.ts:155-157 | when every release is kept, nothing is deleted |
| `Retention.NewestAreKept` | src/github.ts:147 | the first `min(releasesToKeep, n)` releases are never deleted, so `releasesToKeep >= n` deletes nothing |
| `Retention.KeptIsDownwardClosed` | src/github.ts:141-153 | in a newest-first list with parseable dates, a kept release has only kept releases before it: the kept releases form a prefix |
| `Retention.BoundaryAgeIsKept` | src/github.ts:143-153 | a release exactly `daysToKeep` days old is kept |
| `Retention.JustOlderIsNotKeptByAge` | src/github.ts:143-153 | a release one millisecond older than `daysToKeep` days is not kept by age |
| `Retention.AgeRetentionOff` | src/github.ts:148-153 | with `daysToKeep` undefined or not positive, the deleted indices are exactly those from `releasesToKeep` (clamped) to the end |
| `Retention.DeletesAllButNewest` | src/github.ts:148-153 | with age retention off, `releasesToDelete` is the list without its first `releasesToKeep` releases |
| `Retention.UnparseableDateNotKeptByAge` | src/github.ts:143-153 | a release whose date does not parse is deleted iff its index is at least `releasesToKeep` |
| `Retention.IncreasingIndexBound` | src/github.ts:141 | in an increasing index list the `j`-th index is at least `j` |
| `Retention.PartitionIsIdempotent` | src/github.ts:141-158 | partitioning the kept releases again deletes nothing |
| `Retention.FourDaysScenario` | src/github.ts:141-158 | releases 2, 5 and 10 days old with `daysToKeep` 4 and nothing kept by count: the 5- and 10-day-old ones are deleted |
| `Remote.WithoutRelease` | src/github.ts:78-81 | removing a release by id keeps exactly the entries without that id |
| `Remote.Gateway.ListReleases` | src/github.ts:40-45 | one listing call is logged, and the answer is the injected failure or the releases held |
| `Remote.Gateway.DeleteReleaseById` | src/github.ts:78-81 | one call is logged; an injected failure changes nothing else, and success removes the release |
| `Remote.Gateway.DeleteRef` | src/github.ts:95-98 | one call is logged; an injected failure changes nothing else, and success removes the reference |
| `GitHub.GetReleases` | src/github.ts:28-70 | an empty pattern contacts nobody; otherwise exactly one listing call is made; the result is `ReleasesMatching` of what the gateway lists |
| `GitHub.DeleteRelease` | src/github.ts:72-87 | one `deleteRelease` call by id; a failure returns `Unable to delete release <id>: <cause>` and leaves the releases unchanged; success removes the release |
| `GitHub.ReleaseErrorNamesTheRelease` | src/github.ts:83-85 | a release error names its release and its cause: equal messages mean the same id and the same cause text |
| `Decimal.IntToStringInjective` | src/github.ts:84 | distinct ids are written differently, and an id's text holds only a sign and digits |
| `GitHub.DeleteTag` | src/github.ts:89-104 | one `deleteRef` call on `tags/<tagName>`; a failure returns `Unable to delete tag <tagName>: <cause>` and leaves the references unchanged; success removes the reference |
| `GitHub.TagErrorNamesTheTag` | src/github.ts:100-102 | a tag error names its tag and its cause, for tag names without `:` (which Git forbids) |
| `GitHub.DeleteReleaseAndTag` | src/github.ts:106-112 | the release is deleted first; if that fails no tag call is made; if the tag deletion fails the release stays deleted and the tag error is returned |
| `GitHub.RequestReleaseDeletions` | src/github.ts:182-186 | every candidate's `deleteRelease` is requested in list order; it reports which succeeded, removes exactly those releases, and returns the first failure in list order |
| `GitHub.RequestTagDeletions` | src/github.ts:182-186 | in list order, `deleteTag` is requested for exactly the candidates whose release was deleted; it removes the references whose deletion succeeds and returns the first tag failure in list order |
| `GitHub.DeleteAll` | src/github.ts:182-186 | all release deletions are requested first, then the tag deletions of the candidates whose release went; the call log, the releases left, the references left and the result (the first release failure, else the first tag failure) are those of that timing |
| `GitHub.FirstFailIsSomeFailure` | src/github.ts:182-186 | the first failure of one phase exists iff some candidate fails in that phase, and it is that candidate's error |
| `GitHub.Plan` | src/github.ts:123-161 | an empty name pattern plans nothing (unless the exclude pattern is invalid); a listing failure fails with `Unable to list release: <cause>`; an invalid name pattern fails as `getReleases` does; an invalid exclude pattern fails with its unwrapped `SyntaxError` text; otherwise the plan is exactly the releases at the deletion indices of the candidates (the sorted matches, less the excluded ones), in order; every planned release was listed, has a non-empty tag matching the name pattern, and is not matched by a non-empty exclude pattern |
| `GitHub.RmReleases` | src/github.ts:123-187 | on an error, or with nothing to delete, or in dry-run mode, no deletion call is made and nothing is deleted; otherwise the log, releases and references are those of deleting every planned release and then its tag, and the result is the first failure |
| `GitHub.PickedAreFromTheList` | src/github.ts:156 | every release pushed to `releasesToDelete` comes from the list |
| `GitHub.FailsIffSomePairFails` | src/github.ts:182-186 | the run fails iff some candidate's `deleteReleaseAndTag` fails (its release deletion, or else its tag deletion), and it fails with one of those errors |
| `GitHub.TagDeletedOnlyAfterItsRelease` | src/github.ts:106-112 | every release deletion call comes before every tag deletion call; each tag call is for a candidate whose release deletion was requested earlier and succeeded, and it names that candidate's `tags/<tag>` |
| `GitHub.TagCallsAreOfReleasedCandidates` | src/github.ts:110-111 | the tag calls are all `deleteRef` calls, each for a candidate whose release was deleted, and every such candidate's tag call is made |
| `GitHub.EveryCandidateIsAttempted` | src/github.ts:182-186 | every candidate's release deletion is requested, in list position; a failure skips none; every candidate whose release went has its tag deletion requested |
| `GitHub.ReleasesLeft` | src/github.ts:106-112 | afterwards exactly the entries whose id was deleted are gone, including those whose tag deletion failed |
| `GitHub.RefsLeft` | src/github.ts:106-112 | afterwards exactly the references of candidates whose release and tag deletions both succeeded are gone |
| `GitHub.ScenarioMatching` | src/github.ts:47-64 | two releases with equal dates that both match `.*` are returned in their listed order |
| `GitHub.ScenarioAgedOut` | src/github.ts:141-157 | a 50-day-old release is deleted under a 30-day limit with nothing kept by count |
| `GitHub.ExcludeScenario` | src/github.ts:131-161 | two 50-day-old releases, one matching `.*-rc$`, with `daysToKeep` 30 and `.*-rc$` excluded: only the other is deleted |

## Left out

- `getMyOctokit` and src/main.ts: the token check, client construction and `setFailed` wiring. src/main.ts calls `rmReleases` with positional arguments, which do not match the options object it takes. That call is plumbing, not part of this model.
- The regular-expression engine and `Date` parsing are abstract: patterns are judged by a `RegexEngine` parameter, and dates arrive already parsed as `Option<int>` milliseconds.
- Floating-point age arithmetic: the age test uses exact integer milliseconds. The `typeof daysToKeep === "number"` guard is modelled as `daysToKeep` being present. A `NaN` `daysToKeep` is not modelled.
- The concurrency of `Promise.all`. The model fixes one timing: all release deletions are requested first, in list order, as `map` does, and the answers arrive in list order. In reality the order of the tag calls, and of the errors, depends on when the answers arrive. When several candidates fail, the error that surfaces is the first rejection in time. The model reports the first failed release deletion in list order, or else the first failed tag deletion.
- Draft-only, prerelease-only and target-branch filtering: `rmReleases` takes no such options. Their inputs pass through `GetInputs` unchanged, or as flags.
- The informational `info` messages, including the per-release dry-run lines and the summary counts. Only the count of kept releases is stated, by `Retention.KeptCount`.
- The input library's `getInput` itself, including its `required` check and any trimming it does. A missing input is modelled as `""`.
- Pagination of the listing: the gateway returns the full list in one call.
- The gateway deletes a missing release or reference without error unless a failure is injected. The real API's "not found" answers are failures a caller must inject.
- `releasesToKeep` and `daysToKeep` are `int`. The source's options accept any JavaScript `number`, so a fractional `daysToKeep` such as 0.5 is not modelled. `getInputs` only yields integers.
- `GitHub.TagErrorNamesTheTag`: requires tag names without `:`. With a `:` in a tag name, two different tag and cause pairs can give the same message.
- `Inputs.ParseCount`: uses exact integers, so a digit string beyond 2^53 is accepted as its exact value. In the source, `parseInt` rounds such a string to a nearby floating-point value, and the `toString` comparison then rejects most of them.
