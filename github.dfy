/**
 * The release-retention engine of src/github.ts: `getReleases`,
 * `deleteRelease`, `deleteTag`, `deleteReleaseAndTag` and `rmReleases`,
 * working against a `Gateway`.
 */
module GitHub {
  import opened Wrappers
  import opened Decimal
  import opened Releases
  import opened Retention
  import opened Remote

  /** `Unable to delete release <id>: <cause>` */
  function ReleaseError(id: int, cause: Thrown): string {
    "Unable to delete release " + (IntToString(id) + (": " + Describe(cause)))
  }

  /** `a + b` splits back into `a` and `b` when `a` holds no colon and `b` starts with one. */
  lemma SplitAtColon(a: string, b: string, c: string, d: string)
    requires forall k :: 0 <= k < |a| ==> a[k] != ':'
    requires forall k :: 0 <= k < |c| ==> c[k] != ':'
    requires |b| > 0 && b[0] == ':' && |d| > 0 && d[0] == ':'
    requires a + b == c + d
    ensures a == c && b == d
  {
    assert forall k :: 0 <= k < |a| ==> (a + b)[k] != ':';
    assert forall k :: 0 <= k < |c| ==> (c + d)[k] != ':';
    assert (a + b)[|a|] == ':' && (c + d)[|c|] == ':';
    assert |a| == |c|;
    assert a == (a + b)[..|a|] && c == (c + d)[..|c|];
    assert b == (a + b)[|a|..] && d == (c + d)[|c|..];
  }

  /** The release-deletion error identifies its release: equal messages come from equal ids and causes. */
  lemma ReleaseErrorNamesTheRelease(id1: int, cause1: Thrown, id2: int, cause2: Thrown)
    requires ReleaseError(id1, cause1) == ReleaseError(id2, cause2)
    ensures id1 == id2 && Describe(cause1) == Describe(cause2)
  {
    var prefix := "Unable to delete release ";
    var s1, s2 := IntToString(id1), IntToString(id2);
    var t1, t2 := ": " + Describe(cause1), ": " + Describe(cause2);
    assert s1 + t1 == (prefix + (s1 + t1))[|prefix|..];
    assert s2 + t2 == (prefix + (s2 + t2))[|prefix|..];
    IntToStringInjective(id1, id2);
    IntToStringInjective(id2, id1);
    SplitAtColon(s1, t1, s2, t2);
    assert Describe(cause1) == t1[2..] && Describe(cause2) == t2[2..];
  }

  /** `Unable to delete tag <tagName>: <cause>` */
  function TagError(tagName: string, cause: Thrown): string {
    "Unable to delete tag " + (tagName + (": " + Describe(cause)))
  }

  /**
   * A tag error names its tag and its cause. Git forbids `:` in reference
   * names, so the first `: ` of the message ends the tag name.
   */
  lemma TagErrorNamesTheTag(tag1: string, cause1: Thrown, tag2: string, cause2: Thrown)
    requires forall k :: 0 <= k < |tag1| ==> tag1[k] != ':'
    requires forall k :: 0 <= k < |tag2| ==> tag2[k] != ':'
    requires TagError(tag1, cause1) == TagError(tag2, cause2)
    ensures tag1 == tag2 && Describe(cause1) == Describe(cause2)
  {
    var prefix := "Unable to delete tag ";
    var t1, t2 := ": " + Describe(cause1), ": " + Describe(cause2);
    assert tag1 + t1 == (prefix + (tag1 + t1))[|prefix|..];
    assert tag2 + t2 == (prefix + (tag2 + t2))[|prefix|..];
    SplitAtColon(tag1, t1, tag2, t2);
    assert Describe(cause1) == t1[2..] && Describe(cause2) == t2[2..];
  }

  /** The reference a tag lives under. */
  function TagRef(tagName: string): string {
    "tags/" + tagName
  }

  /** The calls `getReleases` makes: none for an empty pattern, else one listing. */
  function ListCalls(pattern: string): seq<Call> {
    if pattern == "" then [] else [ListReleasesCall]
  }

  /**
   * `getReleases`: an empty pattern is `[]` and contacts nobody; otherwise
   * list, then compile the pattern, then filter and sort.
   */
  method GetReleases(gw: Gateway, engine: RegexEngine, pattern: string) returns (r: Result<seq<Release>, string>)
    modifies gw`log
    ensures gw.log == old(gw.log) + ListCalls(pattern)
    ensures r == ReleasesMatching(engine, pattern, Listing(gw.faults, gw.releases))
  {
    if pattern == "" {
      return Success([]);
    }
    var listing := gw.ListReleases();
    match listing
    case Failure(e) =>
      r := Failure(ListError(Describe(e)));
    case Success(listed) =>
      if !engine.compiles(pattern) {
        r := Failure(ListError(engine.syntaxError(pattern)));
      } else {
        r := Success(SortNewestFirst(MatchingReleases(engine, pattern, listed)));
      }
  }

  /** `deleteRelease`: one call by id; a failure is wrapped with the id. */
  method DeleteRelease(gw: Gateway, release: Release) returns (r: Outcome<string>)
    modifies gw`releases, gw`log
    ensures gw.log == old(gw.log) + [DeleteReleaseCall(release.id)]
    ensures r == ReleaseFailure(gw.faults, release)
    ensures release.id in gw.faults.releaseDeletes ==> gw.releases == old(gw.releases)
    ensures release.id !in gw.faults.releaseDeletes ==> gw.releases == WithoutRelease(old(gw.releases), release.id)
  {
    var outcome := gw.DeleteReleaseById(release.id);
    match outcome
    case Fail(e) => r := Fail(ReleaseError(release.id, e));
    case Pass => r := Pass;
  }

  /** `deleteTag`: one call on `tags/<tagName>`; a failure is wrapped with the tag name. */
  method DeleteTag(gw: Gateway, tagName: string) returns (r: Outcome<string>)
    modifies gw`refs, gw`log
    ensures gw.log == old(gw.log) + [DeleteRefCall(TagRef(tagName))]
    ensures TagRef(tagName) in gw.faults.refDeletes ==>
      r == Fail(TagError(tagName, gw.faults.refDeletes[TagRef(tagName)])) && gw.refs == old(gw.refs)
    ensures TagRef(tagName) !in gw.faults.refDeletes ==>
      r == Pass && gw.refs == old(gw.refs) - {TagRef(tagName)}
  {
    var outcome := gw.DeleteRef(TagRef(tagName));
    match outcome
    case Fail(e) => r := Fail(TagError(tagName, e));
    case Pass => r := Pass;
  }

  // ---------------------------------------------------------------------
  // What deleting one release and its tag does, given the injected faults

  /** The calls `deleteReleaseAndTag` makes: the release first, its tag only if that succeeded. */
  function PairCalls(faults: Faults, release: Release): seq<Call> {
    if release.id in faults.releaseDeletes then [DeleteReleaseCall(release.id)]
    else [DeleteReleaseCall(release.id), DeleteRefCall(TagRef(release.tagName))]
  }

  /** The outcome of `deleteReleaseAndTag`: the release error, else the tag error, else success. */
  function PairOutcome(faults: Faults, release: Release): Outcome<string> {
    match ReleaseFailure(faults, release)
    case Fail(e) => Fail(e)
    case Pass => TagFailure(faults, release)
  }

  /**
   * `deleteReleaseAndTag`. When the tag deletion fails the release stays
   * deleted: nothing is rolled back.
   */
  method DeleteReleaseAndTag(gw: Gateway, release: Release) returns (r: Outcome<string>)
    modifies gw`releases, gw`refs, gw`log
    ensures gw.log == old(gw.log) + PairCalls(gw.faults, release)
    ensures r == PairOutcome(gw.faults, release)
    ensures release.id in gw.faults.releaseDeletes ==>
      gw.releases == old(gw.releases) && gw.refs == old(gw.refs)
    ensures release.id !in gw.faults.releaseDeletes ==>
      && gw.releases == WithoutRelease(old(gw.releases), release.id)
      && gw.refs == old(gw.refs) - (if TagRef(release.tagName) in gw.faults.refDeletes then {} else {TagRef(release.tagName)})
  {
    r := DeleteRelease(gw, release);
    if r.Fail? {
      return;
    }
    r := DeleteTag(gw, release.tagName);
  }

  // ---------------------------------------------------------------------
  // What deleting a list of candidates does
  //
  // `releasesToDelete.map` runs each callback up to its first `await`, which
  // is the `deleteRelease` request: every release deletion is requested, in
  // list order, before any tag deletion. Each callback resumes when its answer
  // arrives and then requests its tag deletion. The model takes the timing in
  // which the answers arrive in list order, so the tag deletions follow in
  // list order too, and the first rejection `Promise.all` sees is the first
  // failed release deletion, else the first failed tag deletion.

  /** The release deletions requested for the candidates `rs`, in list order. */
  function ReleaseCalls(rs: seq<Release>): (calls: seq<Call>)
    ensures |calls| == |rs|
    ensures forall i :: 0 <= i < |rs| ==> calls[i] == DeleteReleaseCall(rs[i].id)
  {
    if rs == [] then []
    else ReleaseCalls(rs[..|rs| - 1]) + [DeleteReleaseCall(rs[|rs| - 1].id)]
  }

  /** The tag deletions that follow: one for each candidate whose release deletion succeeded. */
  function TagCalls(faults: Faults, rs: seq<Release>): seq<Call> {
    if rs == [] then []
    else
      var last := rs[|rs| - 1];
      TagCalls(faults, rs[..|rs| - 1]) +
        (if last.id in faults.releaseDeletes then [] else [DeleteRefCall(TagRef(last.tagName))])
  }

  /** All calls made for the candidates `rs`. */
  function DeletionCalls(faults: Faults, rs: seq<Release>): seq<Call> {
    ReleaseCalls(rs) + TagCalls(faults, rs)
  }

  /** The releases left once every candidate of `rs` has been tried. */
  function ReleasesAfter(faults: Faults, listed: seq<Option<Release>>, rs: seq<Release>): seq<Option<Release>> {
    if rs == [] then listed
    else
      var before := ReleasesAfter(faults, listed, rs[..|rs| - 1]);
      var last := rs[|rs| - 1];
      if last.id in faults.releaseDeletes then before else WithoutRelease(before, last.id)
  }

  /** The references left once every candidate of `rs` has been tried. */
  function RefsAfter(faults: Faults, refs: set<string>, rs: seq<Release>): set<string> {
    if rs == [] then refs
    else
      var before := RefsAfter(faults, refs, rs[..|rs| - 1]);
      var last := rs[|rs| - 1];
      if last.id !in faults.releaseDeletes && TagRef(last.tagName) !in faults.refDeletes
      then before - {TagRef(last.tagName)}
      else before
  }

  /** Whether each candidate's release deletion succeeded. */
  function Released(faults: Faults, rs: seq<Release>): (b: seq<bool>)
    ensures |b| == |rs|
    ensures forall j :: 0 <= j < |rs| ==> (b[j] <==> rs[j].id !in faults.releaseDeletes)
  {
    if rs == [] then [] else Released(faults, rs[..|rs| - 1]) + [rs[|rs| - 1].id !in faults.releaseDeletes]
  }

  /** What the `deleteRelease` half of a candidate's callback settles to. */
  function ReleaseFailure(faults: Faults, release: Release): Outcome<string> {
    if release.id in faults.releaseDeletes then Fail(ReleaseError(release.id, faults.releaseDeletes[release.id]))
    else Pass
  }

  /** What the `deleteTag` half settles to; it only runs once the release is deleted. */
  function TagFailure(faults: Faults, release: Release): Outcome<string> {
    if release.id !in faults.releaseDeletes && TagRef(release.tagName) in faults.refDeletes then
      Fail(TagError(release.tagName, faults.refDeletes[TagRef(release.tagName)]))
    else Pass
  }

  /** The two halves of a candidate's callback: before and after its first `await`. */
  datatype Half = ReleaseHalf | TagHalf

  function HalfOutcome(faults: Faults, half: Half, release: Release): Outcome<string> {
    match half
    case ReleaseHalf => ReleaseFailure(faults, release)
    case TagHalf => TagFailure(faults, release)
  }

  /** The first failure of the given half among the candidates `rs`, in list order. */
  function FirstFail(faults: Faults, half: Half, rs: seq<Release>): Outcome<string> {
    if rs == [] then Pass
    else match FirstFail(faults, half, rs[..|rs| - 1])
      case Fail(e) => Fail(e)
      case Pass => HalfOutcome(faults, half, rs[|rs| - 1])
  }

  /** A failure `FirstFail` reports is the failure of some candidate's half. */
  lemma {:induction false} FirstFailComesFromACandidate(faults: Faults, half: Half, rs: seq<Release>)
    ensures FirstFail(faults, half, rs).Fail? ==>
      exists i :: 0 <= i < |rs| && FirstFail(faults, half, rs) == HalfOutcome(faults, half, rs[i])
    decreases |rs|
  {
    if rs != [] {
      var p := rs[..|rs| - 1];
      FirstFailComesFromACandidate(faults, half, p);
      if FirstFail(faults, half, p).Fail? {
        var i :| 0 <= i < |p| && FirstFail(faults, half, p) == HalfOutcome(faults, half, p[i]);
        assert p[i] == rs[i];
        assert FirstFail(faults, half, rs) == HalfOutcome(faults, half, rs[i]);
      } else {
        assert FirstFail(faults, half, rs) == HalfOutcome(faults, half, rs[|rs| - 1]);
      }
    }
  }

  /** When `FirstFail` passes, every candidate's half passes. */
  lemma {:induction false} FirstFailPassesOnlyIfAllPass(faults: Faults, half: Half, rs: seq<Release>)
    ensures FirstFail(faults, half, rs).Pass? ==> forall i :: 0 <= i < |rs| ==> HalfOutcome(faults, half, rs[i]).Pass?
    decreases |rs|
  {
    if rs != [] {
      var p := rs[..|rs| - 1];
      FirstFailPassesOnlyIfAllPass(faults, half, p);
      if FirstFail(faults, half, rs).Pass? {
        assert FirstFail(faults, half, p).Pass?;
        forall i | 0 <= i < |rs| - 1 ensures HalfOutcome(faults, half, rs[i]).Pass? {
          assert rs[i] == p[i];
        }
      }
    }
  }

  /** `FirstFail` fails exactly when some candidate's half fails, and then with that failure. */
  lemma FirstFailIsSomeFailure(faults: Faults, half: Half, rs: seq<Release>)
    ensures FirstFail(faults, half, rs).Fail? <==> exists i :: 0 <= i < |rs| && HalfOutcome(faults, half, rs[i]).Fail?
    ensures FirstFail(faults, half, rs).Fail? ==>
      exists i :: 0 <= i < |rs| && FirstFail(faults, half, rs) == HalfOutcome(faults, half, rs[i])
  {
    FirstFailComesFromACandidate(faults, half, rs);
    FirstFailPassesOnlyIfAllPass(faults, half, rs);
  }

  /** The error `Promise.all` rejects with: a failed release deletion first, else a failed tag deletion. */
  function FirstFailure(faults: Faults, rs: seq<Release>): Outcome<string> {
    match FirstFail(faults, ReleaseHalf, rs)
    case Fail(e) => Fail(e)
    case Pass => FirstFail(faults, TagHalf, rs)
  }

  /** How the release-phase functions above grow by one candidate. */
  lemma ReleasePhaseGrows(faults: Faults, listed: seq<Option<Release>>, rs: seq<Release>, i: nat)
    requires i < |rs|
    ensures var done, next := rs[..i], rs[..i + 1];
      && Released(faults, next) == Released(faults, done) + [rs[i].id !in faults.releaseDeletes]
      && ReleasesAfter(faults, listed, next) ==
           (if rs[i].id in faults.releaseDeletes then ReleasesAfter(faults, listed, done)
            else WithoutRelease(ReleasesAfter(faults, listed, done), rs[i].id))
      && ReleaseCalls(next) == ReleaseCalls(done) + [DeleteReleaseCall(rs[i].id)]
      && FirstFail(faults, ReleaseHalf, next) ==
           (if FirstFail(faults, ReleaseHalf, done).Fail? then FirstFail(faults, ReleaseHalf, done) else ReleaseFailure(faults, rs[i]))
  {
    assert rs[..i + 1][..i] == rs[..i];
  }

  /** How the tag-phase functions above grow by one candidate. */
  lemma TagPhaseGrows(faults: Faults, refs: set<string>, rs: seq<Release>, i: nat)
    requires i < |rs|
    ensures var done, next := rs[..i], rs[..i + 1];
      && RefsAfter(faults, refs, next) ==
           (if rs[i].id !in faults.releaseDeletes && TagRef(rs[i].tagName) !in faults.refDeletes
            then RefsAfter(faults, refs, done) - {TagRef(rs[i].tagName)}
            else RefsAfter(faults, refs, done))
      && TagCalls(faults, next) ==
           TagCalls(faults, done) + (if rs[i].id in faults.releaseDeletes then [] else [DeleteRefCall(TagRef(rs[i].tagName))])
      && FirstFail(faults, TagHalf, next) ==
           (if FirstFail(faults, TagHalf, done).Fail? then FirstFail(faults, TagHalf, done) else TagFailure(faults, rs[i]))
  {
    assert rs[..i + 1][..i] == rs[..i];
  }

  /**
   * The callbacks up to their first `await`: each candidate's release
   * deletion, in list order. `released[j]` records whether the release of
   * `releasesToDelete[j]` went.
   */
  method RequestReleaseDeletions(gw: Gateway, releasesToDelete: seq<Release>)
    returns (released: seq<bool>, failure: Outcome<string>)
    modifies gw`releases, gw`log
    ensures released == Released(gw.faults, releasesToDelete)
    ensures gw.log == old(gw.log) + ReleaseCalls(releasesToDelete)
    ensures gw.releases == ReleasesAfter(gw.faults, old(gw.releases), releasesToDelete)
    ensures failure == FirstFail(gw.faults, ReleaseHalf, releasesToDelete)
  {
    released := [];
    failure := Pass;
    var i := 0;
    while i < |releasesToDelete|
      invariant 0 <= i <= |releasesToDelete|
      invariant released == Released(gw.faults, releasesToDelete[..i])
      invariant gw.log == old(gw.log) + ReleaseCalls(releasesToDelete[..i])
      invariant gw.releases == ReleasesAfter(gw.faults, old(gw.releases), releasesToDelete[..i])
      invariant failure == FirstFail(gw.faults, ReleaseHalf, releasesToDelete[..i])
    {
      var release := releasesToDelete[i];
      var outcome := DeleteRelease(gw, release);
      released := released + [outcome.Pass?];
      ReleasePhaseGrows(gw.faults, old(gw.releases), releasesToDelete, i);
      if failure.Pass? {
        failure := outcome;
      }
      i := i + 1;
    }
    assert releasesToDelete[..i] == releasesToDelete;
  }

  /** The callbacks after their first `await`: the tag deletion of each candidate whose release went. */
  method RequestTagDeletions(gw: Gateway, releasesToDelete: seq<Release>, released: seq<bool>)
    returns (failure: Outcome<string>)
    requires released == Released(gw.faults, releasesToDelete)
    modifies gw`refs, gw`log
    ensures gw.log == old(gw.log) + TagCalls(gw.faults, releasesToDelete)
    ensures gw.refs == RefsAfter(gw.faults, old(gw.refs), releasesToDelete)
    ensures failure == FirstFail(gw.faults, TagHalf, releasesToDelete)
  {
    failure := Pass;
    var i := 0;
    while i < |releasesToDelete|
      invariant 0 <= i <= |releasesToDelete|
      invariant gw.log == old(gw.log) + TagCalls(gw.faults, releasesToDelete[..i])
      invariant gw.refs == RefsAfter(gw.faults, old(gw.refs), releasesToDelete[..i])
      invariant failure == FirstFail(gw.faults, TagHalf, releasesToDelete[..i])
    {
      var release := releasesToDelete[i];
      TagPhaseGrows(gw.faults, old(gw.refs), releasesToDelete, i);
      if released[i] {
        var outcome := DeleteTag(gw, release.tagName);
        assert outcome == TagFailure(gw.faults, release);
        if failure.Pass? {
          failure := outcome;
        }
      }
      i := i + 1;
    }
    assert releasesToDelete[..i] == releasesToDelete;
  }

  /**
   * `Promise.all(releasesToDelete.map(deleteReleaseAndTag))`: every candidate
   * is attempted, and the result is the first failure.
   */
  method DeleteAll(gw: Gateway, releasesToDelete: seq<Release>) returns (r: Outcome<string>)
    modifies gw`releases, gw`refs, gw`log
    ensures gw.log == old(gw.log) + DeletionCalls(gw.faults, releasesToDelete)
    ensures gw.releases == ReleasesAfter(gw.faults, old(gw.releases), releasesToDelete)
    ensures gw.refs == RefsAfter(gw.faults, old(gw.refs), releasesToDelete)
    ensures r == FirstFailure(gw.faults, releasesToDelete)
  {
    var released, releaseFailure := RequestReleaseDeletions(gw, releasesToDelete);
    var tagFailure := RequestTagDeletions(gw, releasesToDelete, released);
    r := if releaseFailure.Fail? then releaseFailure else tagFailure;
  }

  // ---------------------------------------------------------------------
  // rmReleases

  /**
   * The options of `rmReleases`; the caller supplies `""` and `false` where
   * the source destructures a missing `excludePattern` or `dryRun`.
   */
  datatype RmReleasesOptions = RmReleasesOptions(
    releasePattern: string,
    releasesToKeep: int,
    daysToKeep: Option<int>,
    excludePattern: string,
    dryRun: bool)

  /** The releases left once a non-empty exclude pattern has been applied. */
  function Candidates(engine: RegexEngine, excludePattern: string, matched: seq<Release>): seq<Release> {
    if excludePattern == "" then matched else WithoutExcluded(engine, excludePattern, matched)
  }

  /**
   * The releases `rmReleases` decides to delete, or the error it stops
   * with before deleting anything: the listing error, or the exclude
   * pattern's `SyntaxError`, which is not wrapped.
   */
  function Plan(engine: RegexEngine, options: RmReleasesOptions, now: int, listing: Result<seq<Option<Release>>, Thrown>)
    : (r: Result<seq<Release>, string>)
    ensures options.releasePattern == "" && (options.excludePattern == "" || engine.compiles(options.excludePattern)) ==>
      r == Success([])
    ensures listing.Failure? && options.releasePattern != "" ==>
      r == Failure(ListError(Describe(listing.error)))
    ensures ReleasesMatching(engine, options.releasePattern, listing).Failure? ==>
      r == Failure(ReleasesMatching(engine, options.releasePattern, listing).error)
    ensures ReleasesMatching(engine, options.releasePattern, listing).Success? &&
            options.excludePattern != "" && !engine.compiles(options.excludePattern) ==>
      r == Failure(engine.syntaxError(options.excludePattern))
    ensures ReleasesMatching(engine, options.releasePattern, listing).Success? &&
            (options.excludePattern == "" || engine.compiles(options.excludePattern)) ==>
      && r.Success?
      && var c := Candidates(engine, options.excludePattern, ReleasesMatching(engine, options.releasePattern, listing).value);
         var rules := KeepRules(options.releasesToKeep, options.daysToKeep, now);
         r.value == Pick(c, DeletedIndices(c, rules, |c|))
    ensures r.Success? && listing.Success? ==> forall x :: x in r.value ==>
      && Some(x) in listing.value
      && Eligible(engine, options.releasePattern, x)
      && (options.excludePattern != "" ==> !engine.test(options.excludePattern, x.tagName))
  {
    match ReleasesMatching(engine, options.releasePattern, listing)
    case Failure(e) => Failure(e)
    case Success(matched) =>
      if options.excludePattern != "" && !engine.compiles(options.excludePattern) then
        Failure(engine.syntaxError(options.excludePattern))
      else
        var candidates := Candidates(engine, options.excludePattern, matched);
        var rules := KeepRules(options.releasesToKeep, options.daysToKeep, now);
        var doomed := ReleasesToDelete(candidates, rules);
        assert options.releasePattern != "" ==> forall x :: x in matched ==>
          Some(x) in listing.value && Eligible(engine, options.releasePattern, x) by {
          if options.releasePattern != "" {
            SelectedAreExactlyTheMatching(engine, options.releasePattern, listing.value);
          }
        }
        PickedAreFromTheList(candidates, DeletedIndices(candidates, rules, |candidates|));
        Success(doomed)
  }

  /**
   * `rmReleases`: select, exclude, partition; then do nothing when there is
   * nothing to delete or in dry-run mode, and otherwise delete every
   * candidate's release and then its tag.
   */
  method RmReleases(gw: Gateway, engine: RegexEngine, options: RmReleasesOptions, now: int) returns (r: Outcome<string>)
    modifies gw`releases, gw`refs, gw`log
    ensures var plan := Plan(engine, options, now, Listing(gw.faults, old(gw.releases)));
      && (plan.Failure? ==>
            && r == Fail(plan.error)
            && gw.log == old(gw.log) + ListCalls(options.releasePattern)
            && gw.releases == old(gw.releases) && gw.refs == old(gw.refs))
      && (plan.Success? && (plan.value == [] || options.dryRun) ==>
            && r == Pass
            && gw.log == old(gw.log) + ListCalls(options.releasePattern)
            && gw.releases == old(gw.releases) && gw.refs == old(gw.refs))
      && (plan.Success? && plan.value != [] && !options.dryRun ==>
            && r == FirstFailure(gw.faults, plan.value)
            && gw.log == old(gw.log) + [ListReleasesCall] + DeletionCalls(gw.faults, plan.value)
            && gw.releases == ReleasesAfter(gw.faults, old(gw.releases), plan.value)
            && gw.refs == RefsAfter(gw.faults, old(gw.refs), plan.value))
  {
    var listed := GetReleases(gw, engine, options.releasePattern);
    if listed.Failure? {
      return Fail(listed.error);
    }
    var releases := listed.value;
    if options.excludePattern != "" {
      if !engine.compiles(options.excludePattern) {
        return Fail(engine.syntaxError(options.excludePattern));
      }
      releases := WithoutExcluded(engine, options.excludePattern, releases);
    }
    var releasesToDelete := PartitionForDeletion(releases, KeepRules(options.releasesToKeep, options.daysToKeep, now));
    if |releasesToDelete| == 0 {
      return Pass;
    }
    if options.dryRun {
      return Pass;
    }
    assert options.releasePattern != "";
    r := DeleteAll(gw, releasesToDelete);
  }

  // ---------------------------------------------------------------------
  // Properties of the deletion of a list of candidates

  /** Every element of `Pick(rs, d)` comes from `rs`. */
  lemma PickedAreFromTheList(rs: seq<Release>, d: seq<nat>)
    requires forall j :: 0 <= j < |d| ==> d[j] < |rs|
    ensures |Pick(rs, d)| == |d|
    ensures forall x :: x in Pick(rs, d) ==> x in rs
  {
    forall x | x in Pick(rs, d) ensures x in rs {
      var j :| 0 <= j < |d| && Pick(rs, d)[j] == x;
      assert x == rs[d[j]];
    }
  }

  /** The run fails exactly when some candidate's release or tag deletion fails, with that candidate's error. */
  lemma FailsIffSomePairFails(faults: Faults, rs: seq<Release>)
    ensures FirstFailure(faults, rs).Fail? <==> exists i :: 0 <= i < |rs| && PairOutcome(faults, rs[i]).Fail?
    ensures FirstFailure(faults, rs).Fail? ==>
      exists i :: 0 <= i < |rs| && FirstFailure(faults, rs) == PairOutcome(faults, rs[i])
  {
    FirstFailIsSomeFailure(faults, ReleaseHalf, rs);
    FirstFailIsSomeFailure(faults, TagHalf, rs);
    if FirstFail(faults, ReleaseHalf, rs).Fail? {
      var i :| 0 <= i < |rs| && FirstFail(faults, ReleaseHalf, rs) == HalfOutcome(faults, ReleaseHalf, rs[i]);
      assert FirstFailure(faults, rs) == PairOutcome(faults, rs[i]);
    } else if FirstFail(faults, TagHalf, rs).Fail? {
      var i :| 0 <= i < |rs| && FirstFail(faults, TagHalf, rs) == HalfOutcome(faults, TagHalf, rs[i]);
      assert ReleaseFailure(faults, rs[i]).Pass?;
      assert FirstFailure(faults, rs) == PairOutcome(faults, rs[i]);
    } else {
      forall i | 0 <= i < |rs| ensures PairOutcome(faults, rs[i]).Pass? {
        assert HalfOutcome(faults, ReleaseHalf, rs[i]).Pass? && HalfOutcome(faults, TagHalf, rs[i]).Pass?;
      }
    }
  }

  /**
   * The tag deletions requested are exactly those of the candidates whose
   * release deletion succeeded.
   */
  lemma {:induction false} TagCallsAreOfReleasedCandidates(faults: Faults, rs: seq<Release>)
    ensures forall c :: c in TagCalls(faults, rs) ==>
      c.DeleteRefCall? &&
      exists i :: 0 <= i < |rs| && rs[i].id !in faults.releaseDeletes && c.ref == TagRef(rs[i].tagName)
    ensures forall i :: 0 <= i < |rs| && rs[i].id !in faults.releaseDeletes ==>
      DeleteRefCall(TagRef(rs[i].tagName)) in TagCalls(faults, rs)
    decreases |rs|
  {
    if rs != [] {
      var p := rs[..|rs| - 1];
      var last := |rs| - 1;
      TagCallsAreOfReleasedCandidates(faults, p);
      assert forall i :: 0 <= i < |p| ==> p[i] == rs[i];
      assert TagCalls(faults, rs) == TagCalls(faults, p) +
        (if rs[last].id in faults.releaseDeletes then [] else [DeleteRefCall(TagRef(rs[last].tagName))]);
    }
  }

  /**
   * Every release deletion is requested before any tag deletion, in list
   * order, and every tag deletion is that of a candidate whose release
   * deletion was requested earlier and succeeded.
   */
  lemma TagDeletedOnlyAfterItsRelease(faults: Faults, rs: seq<Release>)
    ensures var calls := DeletionCalls(faults, rs);
      && (forall k :: 0 <= k < |calls| ==> (calls[k].DeleteReleaseCall? <==> k < |rs|))
      && (forall k :: 0 <= k < |calls| && calls[k].DeleteRefCall? ==>
            exists i :: 0 <= i < |rs| && i < k && calls[i] == DeleteReleaseCall(rs[i].id) &&
              rs[i].id !in faults.releaseDeletes && calls[k].ref == TagRef(rs[i].tagName))
  {
    var calls := DeletionCalls(faults, rs);
    var tags := TagCalls(faults, rs);
    TagCallsAreOfReleasedCandidates(faults, rs);
    forall k | 0 <= k < |calls|
      ensures calls[k].DeleteReleaseCall? <==> k < |rs|
      ensures calls[k].DeleteRefCall? ==>
        exists i :: 0 <= i < |rs| && i < k && calls[i] == DeleteReleaseCall(rs[i].id) &&
          rs[i].id !in faults.releaseDeletes && calls[k].ref == TagRef(rs[i].tagName)
    {
      if k >= |rs| {
        assert calls[k] == tags[k - |rs|];
        assert calls[k] in tags;
        var i :| 0 <= i < |rs| && rs[i].id !in faults.releaseDeletes && calls[k].ref == TagRef(rs[i].tagName);
        assert calls[i] == DeleteReleaseCall(rs[i].id);
      }
    }
  }

  /** Every candidate's release deletion is requested, and so is the tag deletion of every candidate whose release went. */
  lemma EveryCandidateIsAttempted(faults: Faults, rs: seq<Release>)
    ensures forall i :: 0 <= i < |rs| ==> DeletionCalls(faults, rs)[i] == DeleteReleaseCall(rs[i].id)
    ensures forall i :: 0 <= i < |rs| && rs[i].id !in faults.releaseDeletes ==>
      DeleteRefCall(TagRef(rs[i].tagName)) in DeletionCalls(faults, rs)
  {
    TagCallsAreOfReleasedCandidates(faults, rs);
  }

  /** The ids whose release deletion succeeds. */
  function DeletedIds(faults: Faults, rs: seq<Release>): set<int> {
    set x | x in rs && x.id !in faults.releaseDeletes :: x.id
  }

  /** The references whose deletion succeeds: those of the candidates whose release and tag both go. */
  function DeletedRefs(faults: Faults, rs: seq<Release>): set<string> {
    set x | x in rs && x.id !in faults.releaseDeletes && TagRef(x.tagName) !in faults.refDeletes :: TagRef(x.tagName)
  }

  /**
   * Afterwards the repository holds exactly the listed entries whose id was
   * not deleted: a release whose tag deletion failed stays deleted, and a
   * release whose own deletion failed stays.
   */
  lemma {:induction false} ReleasesLeft(faults: Faults, listed: seq<Option<Release>>, rs: seq<Release>)
    ensures forall e :: e in ReleasesAfter(faults, listed, rs) <==>
      e in listed && !(e.Some? && e.value.id in DeletedIds(faults, rs))
    decreases |rs|
  {
    if rs != [] {
      var p := rs[..|rs| - 1];
      var last := rs[|rs| - 1];
      ReleasesLeft(faults, listed, p);
      assert rs == p + [last];
      assert DeletedIds(faults, rs) == DeletedIds(faults, p) + (if last.id in faults.releaseDeletes then {} else {last.id});
    }
  }

  /** Afterwards the repository holds exactly the references that were not deleted. */
  lemma {:induction false} RefsLeft(faults: Faults, refs: set<string>, rs: seq<Release>)
    ensures RefsAfter(faults, refs, rs) == refs - DeletedRefs(faults, rs)
    decreases |rs|
  {
    if rs != [] {
      var p := rs[..|rs| - 1];
      var last := rs[|rs| - 1];
      RefsLeft(faults, refs, p);
      assert rs == p + [last];
      assert DeletedRefs(faults, rs) == DeletedRefs(faults, p) +
        (if last.id !in faults.releaseDeletes && TagRef(last.tagName) !in faults.refDeletes
         then {TagRef(last.tagName)} else {});
    }
  }

  /**
   * Two releases 50 days old, one tagged as a release candidate; with 30
   * days kept by age and the candidates excluded, only the other is deleted.
   */
lemma ExcludeScenario(engine: RegexEngine, now: int, rc: Release, final: Release)
    requires rc.tagName == "v1.0.0-rc" && final.tagName == "v2.0.0"
    requires rc.createdAt == Some(now - 50 * MsPerDay) && final.createdAt == Some(now - 50 * MsPerDay)
    requires engine.compiles(".*") && engine.compiles(".*-rc$")
    requires engine.test(".*", rc.tagName) && engine.test(".*", final.tagName)
    requires engine.test(".*-rc$", rc.tagName) && !engine.test(".*-rc$", final.tagName)
    ensures Plan(engine, RmReleasesOptions(".*", 0, Some(30), ".*-rc$", false), now, Success([Some(rc), Some(final)]))
      == Success([final])
  {
    var options := RmReleasesOptions(".*", 0, Some(30), ".*-rc$", false);
    var listing: Result<seq<Option<Release>>, Thrown> := Success([Some(rc), Some(final)]);
    ScenarioMatching(engine, now, rc, final);
    var matched := [rc, final];
    assert ReleasesMatching(engine, options.releasePattern, listing).value == matched;
    assert matched[1..] == [final];
    assert WithoutExcluded(engine, ".*-rc$", matched[1..]) == [final];
    assert Candidates(engine, options.excludePattern, matched) == [final];
    ScenarioAgedOut(now, final);
  }

  /** A 50-day-old release is past a 30-day age limit, with no count kept. */
  lemma ScenarioAgedOut(now: int, final: Release)
    requires final.createdAt == Some(now - 50 * MsPerDay)
    ensures Pick([final], DeletedIndices([final], KeepRules(0, Some(30), now), 1)) == [final]
  {
    var rules := KeepRules(0, Some(30), now);
    assert !Kept([final], 0, rules);
    assert DeletedIndices([final], rules, 1) == [0];
  }

  /** Both releases of the scenario above match `.*`, and have equal dates, so they keep their listed order. */
  lemma ScenarioMatching(engine: RegexEngine, now: int, rc: Release, final: Release)
    requires rc.tagName == "v1.0.0-rc" && final.tagName == "v2.0.0"
    requires rc.createdAt == Some(now - 50 * MsPerDay) && final.createdAt == Some(now - 50 * MsPerDay)
    requires engine.compiles(".*")
    requires engine.test(".*", rc.tagName) && engine.test(".*", final.tagName)
    ensures ReleasesMatching(engine, ".*", Success([Some(rc), Some(final)])) == Success([rc, final])
  {
    var listed := [Some(rc), Some(final)];
    assert listed[1..] == [Some(final)] && listed[1..][1..] == [];
    assert MatchingReleases(engine, ".*", listed[1..]) == [final];
    var matched := MatchingReleases(engine, ".*", listed);
    assert matched == [rc, final];
    assert matched[1..] == [final];
    assert SortNewestFirst(matched[1..]) == [final];
    assert SortNewestFirst(matched) == [rc, final];
  }
}
