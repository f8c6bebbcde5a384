/**
 * Releases as the hosting API lists them, and the pure selection steps of
 * src/github.ts: keeping the releases whose tag matches the name pattern,
 * sorting them newest first, and dropping those the exclude pattern matches.
 */
module Releases {
  import opened Wrappers

  /**
   * One release. `tagName` is "" when the listing gave no usable tag (the
   * field missing, `null`, `undefined` or empty: all of these are falsy and
   * are treated alike). `createdAt` is the creation time in milliseconds
   * since the epoch, `None` when the date does not parse.
   */
  datatype Release = Release(
    id: int,
    name: string,
    tagName: string,
    body: string,
    draft: bool,
    prerelease: bool,
    createdAt: Option<int>)

  /**
   * A value thrown by a collaborator: an `Error` object, whose `message` is
   * reported, or anything else, which is reported as `String(value)`.
   */
  datatype Thrown = ErrorObject(message: string) | NonError(asString: string)

  /** `error instanceof Error ? error.message : String(error)` */
  function Describe(t: Thrown): string {
    match t
    case ErrorObject(m) => m
    case NonError(s) => s
  }

  /**
   * The JavaScript regular-expression engine, left abstract: which pattern
   * strings `new RegExp` accepts, `regex.test(s)` for an accepted pattern,
   * and the message of the `SyntaxError` it throws for the others.
   */
  datatype RegexEngine = RegexEngine(
    compiles: string -> bool,
    test: (string, string) -> bool,
    syntaxError: string -> string)

  /** The `releaseFilter` of `getReleases`: a present release with a truthy tag that the pattern matches. */
  predicate Eligible(engine: RegexEngine, pattern: string, r: Release)
    ensures r.tagName == "" ==> !Eligible(engine, pattern, r)
  {
    r.tagName != "" && engine.test(pattern, r.tagName)
  }

  /** `releases.filter(releaseFilter)`, where a listed entry may be `null`. */
  function MatchingReleases(engine: RegexEngine, pattern: string, listed: seq<Option<Release>>): (rs: seq<Release>)
    ensures |rs| <= |listed|
    ensures forall r :: r in rs ==> Eligible(engine, pattern, r) && Some(r) in listed
    ensures forall i :: 0 <= i < |listed| && listed[i].Some? && Eligible(engine, pattern, listed[i].value) ==>
      listed[i].value in rs
  {
    if listed == [] then []
    else
      var rest := MatchingReleases(engine, pattern, listed[1..]);
      assert forall i :: 1 <= i < |listed| ==> listed[i] == listed[1..][i - 1];
      match listed[0]
      case None => rest
      case Some(r) => if Eligible(engine, pattern, r) then [r] + rest else rest
  }

  /** The sort key of `getReleases`: the creation time, or 0 for a date that does not parse. */
  function Time(r: Release): int {
    match r.createdAt
    case None => 0
    case Some(t) => t
  }

  /** The order `(a, b) => timeB - timeA` sorts into. */
  predicate NewestFirst(rs: seq<Release>) {
    forall i, j :: 0 <= i < j < |rs| ==> Time(rs[i]) >= Time(rs[j])
  }

  /**
   * In a newest-first list a release whose date does not parse sits where
   * time 0 would: everything after it is dated at or before the epoch, and
   * everything before it at or after the epoch.
   */
  lemma UnparseableSortsAsZero(rs: seq<Release>, k: nat)
    requires NewestFirst(rs) && k < |rs| && rs[k].createdAt.None?
    ensures forall j :: k < j < |rs| && rs[j].createdAt.Some? ==> rs[j].createdAt.value <= 0
    ensures forall j :: 0 <= j < k && rs[j].createdAt.Some? ==> rs[j].createdAt.value >= 0
  {
    assert Time(rs[k]) == 0;
  }

  /** The releases of `rs` created at time `t`, in their order in `rs`. */
  function CreatedAt(rs: seq<Release>, t: int): (out: seq<Release>)
    ensures forall r :: r in out ==> r in rs && Time(r) == t
  {
    if rs == [] then []
    else if Time(rs[0]) == t then [rs[0]] + CreatedAt(rs[1..], t)
    else CreatedAt(rs[1..], t)
  }

  /** A release no older than the head of a newest-first list may go in front of it. */
  lemma ConsNewestFirst(h: Release, rs: seq<Release>)
    requires NewestFirst(rs) && (rs != [] ==> Time(h) >= Time(rs[0]))
    ensures NewestFirst([h] + rs)
  {
    var out := [h] + rs;
    forall i, j | 0 <= i < j < |out| ensures Time(out[i]) >= Time(out[j]) {
      assert out[j] == rs[j - 1];
      if i > 0 { assert out[i] == rs[i - 1]; }
    }
  }

  /** Puts `x` in front of the first release of `rs` that is not newer than it. */
  function InsertNewestFirst(x: Release, rs: seq<Release>): (out: seq<Release>)
    requires NewestFirst(rs)
    ensures NewestFirst(out)
    ensures multiset(out) == multiset(rs) + multiset{x}
    ensures out[0] == x || (rs != [] && out[0] == rs[0])
  {
    if rs == [] || Time(rs[0]) <= Time(x) then
      ConsNewestFirst(x, rs);
      [x] + rs
    else
      assert rs == [rs[0]] + rs[1..];
      var tail := InsertNewestFirst(x, rs[1..]);
      assert rs[1..] != [] ==> rs[1..][0] == rs[1];
      ConsNewestFirst(rs[0], tail);
      [rs[0]] + tail
  }

  /** The stable sort `Array.prototype.sort` performs, by time, newest first. */
  function SortNewestFirst(rs: seq<Release>): (out: seq<Release>)
    ensures NewestFirst(out)
    ensures multiset(out) == multiset(rs)
  {
    if rs == [] then []
    else
      assert rs == [rs[0]] + rs[1..];
      InsertNewestFirst(rs[0], SortNewestFirst(rs[1..]))
  }

  lemma {:induction false} InsertKeepsTies(x: Release, rs: seq<Release>, t: int)
    requires NewestFirst(rs)
    ensures CreatedAt(InsertNewestFirst(x, rs), t) == CreatedAt([x] + rs, t)
    decreases |rs|
  {
    assert ([x] + rs)[1..] == rs;
    if rs != [] && Time(rs[0]) > Time(x) {
      var tail := InsertNewestFirst(x, rs[1..]);
      assert ([rs[0]] + tail)[1..] == tail;
      InsertKeepsTies(x, rs[1..], t);
      assert ([x] + rs[1..])[1..] == rs[1..];
    }
  }

  /**
   * The sort is stable: the releases that share a creation time (those
   * whose dates do not parse among them) keep their relative order.
   */
  lemma {:induction false} SortIsStable(rs: seq<Release>, t: int)
    ensures CreatedAt(SortNewestFirst(rs), t) == CreatedAt(rs, t)
    decreases |rs|
  {
    if rs != [] {
      var sorted := SortNewestFirst(rs[1..]);
      InsertKeepsTies(rs[0], sorted, t);
      SortIsStable(rs[1..], t);
      assert ([rs[0]] + sorted)[1..] == sorted;
    }
  }

  /** An exclude filter `releases.filter(r => !excludeRegex.test(r.tag_name))`. */
  function WithoutExcluded(engine: RegexEngine, excludePattern: string, rs: seq<Release>): (out: seq<Release>)
    ensures |out| <= |rs|
    ensures forall r :: r in out ==> r in rs && !engine.test(excludePattern, r.tagName)
    ensures forall i :: 0 <= i < |rs| && !engine.test(excludePattern, rs[i].tagName) ==> rs[i] in out
  {
    if rs == [] then []
    else
      var rest := WithoutExcluded(engine, excludePattern, rs[1..]);
      assert forall i :: 1 <= i < |rs| ==> rs[i] == rs[1..][i - 1];
      if engine.test(excludePattern, rs[0].tagName) then rest else [rs[0]] + rest
  }

  /** The message every failure of `getReleases` is wrapped in. */
  function ListError(cause: string): string {
    "Unable to list release: " + cause
  }

  /** A listing error keeps its cause: different causes give different messages. */
  lemma ListErrorNamesTheCause(cause1: string, cause2: string)
    requires ListError(cause1) == ListError(cause2)
    ensures cause1 == cause2
  {
    var n := |"Unable to list release: "|;
    assert cause1 == ListError(cause1)[n..] && cause2 == ListError(cause2)[n..];
  }

  /**
   * `getReleases` given the outcome of listing: an empty pattern is `[]`; a
   * listing failure or a pattern `new RegExp` refuses fails with
   * `Unable to list release: <cause>`; otherwise the matching releases,
   * newest first.
   */
  function ReleasesMatching(engine: RegexEngine, pattern: string, listing: Result<seq<Option<Release>>, Thrown>)
    : (r: Result<seq<Release>, string>)
    ensures pattern == "" ==> r == Success([])
    ensures pattern != "" && listing.Failure? ==> r == Failure(ListError(Describe(listing.error)))
    ensures pattern != "" && listing.Success? && !engine.compiles(pattern) ==>
      r == Failure(ListError(engine.syntaxError(pattern)))
    ensures pattern != "" && listing.Success? && engine.compiles(pattern) ==>
      && r.Success?
      && NewestFirst(r.value)
      && multiset(r.value) == multiset(MatchingReleases(engine, pattern, listing.value))
  {
    if pattern == "" then Success([])
    else match listing
      case Failure(e) => Failure(ListError(Describe(e)))
      case Success(listed) =>
        if !engine.compiles(pattern) then Failure(ListError(engine.syntaxError(pattern)))
        else Success(SortNewestFirst(MatchingReleases(engine, pattern, listed)))
  }

  /**
   * What `getReleases` returns, release by release: exactly the listed
   * releases whose tag is non-empty and matches the pattern.
   */
  lemma SelectedAreExactlyTheMatching(engine: RegexEngine, pattern: string, listed: seq<Option<Release>>)
    requires pattern != "" && engine.compiles(pattern)
    ensures var r := ReleasesMatching(engine, pattern, Success(listed));
      && r.Success?
      && (forall x :: x in r.value <==> Some(x) in listed && Eligible(engine, pattern, x))
      && (forall x: Release :: x.tagName == "" ==> x !in r.value)
  {
    var r := ReleasesMatching(engine, pattern, Success(listed));
    var m := MatchingReleases(engine, pattern, listed);
    forall x ensures x in r.value <==> Some(x) in listed && Eligible(engine, pattern, x) {
      assert x in r.value <==> x in multiset(r.value);
      assert x in m <==> x in multiset(m);
      if Some(x) in listed && Eligible(engine, pattern, x) {
        var i :| 0 <= i < |listed| && listed[i] == Some(x);
      }
    }
  }

  /** The sorted result holds, for every time, the matching releases of that time in listing order. */
  lemma SelectedTiesInListingOrder(engine: RegexEngine, pattern: string, listed: seq<Option<Release>>, t: int)
    requires pattern != "" && engine.compiles(pattern)
    ensures var r := ReleasesMatching(engine, pattern, Success(listed));
      r.Success? && CreatedAt(r.value, t) == CreatedAt(MatchingReleases(engine, pattern, listed), t)
  {
    SortIsStable(MatchingReleases(engine, pattern, listed), t);
  }

  /** After a non-empty exclude pattern is applied, no remaining tag matches it, and nothing else is dropped. */
  lemma ExcludedNeverRemain(engine: RegexEngine, excludePattern: string, rs: seq<Release>)
    ensures forall x :: x in WithoutExcluded(engine, excludePattern, rs) <==>
      x in rs && !engine.test(excludePattern, x.tagName)
  {
    forall x | x in rs && !engine.test(excludePattern, x.tagName)
      ensures x in WithoutExcluded(engine, excludePattern, rs)
    {
      var i :| 0 <= i < |rs| && rs[i] == x;
    }
  }
}
