/**
 * The keep-or-delete partition of `rmReleases` (src/github.ts): a release
 * at index `i` of the newest-first list is kept when `i < releasesToKeep`
 * or, with `daysToKeep > 0`, when it is at most `daysToKeep` days old;
 * every other release is to be deleted.
 */
module Retention {
  import opened Wrappers
  import opened Releases

  /** `1000 * 60 * 60 * 24`: milliseconds in a day. */
  const MsPerDay: int := 86_400_000

  /**
   * The retention rules of one run. `daysToKeep` is `None` when the option is
   * `undefined`; `now` is the clock reading in milliseconds.
   */
  datatype KeepRules = KeepRules(releasesToKeep: int, daysToKeep: Option<int>, now: int)

  /** `shouldKeepByCount`. */
  predicate KeptByCount(i: int, rules: KeepRules) {
    i < rules.releasesToKeep
  }

  /**
   * `shouldKeepByAge`: `ageInDays <= daysToKeep` with `ageInDays` the elapsed
   * milliseconds divided by `MsPerDay`, which for a positive `daysToKeep` is
   * `now - createdAt <= daysToKeep * MsPerDay`. A date that does not parse
   * gives a `NaN` age, which no comparison accepts.
   */
  predicate KeptByAge(r: Release, rules: KeepRules)
    ensures KeptByAge(r, rules) ==>
      rules.daysToKeep.Some? && rules.daysToKeep.value > 0 && r.createdAt.Some?
  {
    match rules.daysToKeep
    case None => false
    case Some(days) =>
      days > 0 &&
      match r.createdAt
      case None => false
      case Some(t) => rules.now - t <= days * MsPerDay
  }

  predicate Kept(rs: seq<Release>, i: int, rules: KeepRules)
    requires 0 <= i < |rs|
  {
    KeptByCount(i, rules) || KeptByAge(rs[i], rules)
  }

  predicate StrictlyIncreasing(d: seq<nat>) {
    forall a, b :: 0 <= a < b < |d| ==> d[a] < d[b]
  }

  /** The indices below `n` of the releases to delete, in increasing order. */
  function DeletedIndices(rs: seq<Release>, rules: KeepRules, n: nat): (d: seq<nat>)
    requires n <= |rs|
    ensures forall j :: 0 <= j < |d| ==> d[j] < n
    ensures StrictlyIncreasing(d)
    ensures forall i :: 0 <= i < n ==> (i in d <==> !Kept(rs, i, rules))
  {
    if n == 0 then []
    else if Kept(rs, n - 1, rules) then DeletedIndices(rs, rules, n - 1)
    else DeletedIndices(rs, rules, n - 1) + [n - 1]
  }

  /** The indices below `n` of the releases kept, in increasing order. */
  function KeptIndices(rs: seq<Release>, rules: KeepRules, n: nat): (k: seq<nat>)
    requires n <= |rs|
    ensures forall j :: 0 <= j < |k| ==> k[j] < n
    ensures StrictlyIncreasing(k)
    ensures forall i :: 0 <= i < n ==> (i in k <==> Kept(rs, i, rules))
  {
    if n == 0 then []
    else if Kept(rs, n - 1, rules) then KeptIndices(rs, rules, n - 1) + [n - 1]
    else KeptIndices(rs, rules, n - 1)
  }

  /** `k` forced into `0..n`. */
  function Clamp(k: int, n: nat): (m: nat)
    ensures m <= n
  {
    if k < 0 then 0 else if k > n then n else k
  }

  /** The releases at the indices `d`, in that order. */
  function Pick(rs: seq<Release>, d: seq<nat>): seq<Release>
    requires forall j :: 0 <= j < |d| ==> d[j] < |rs|
  {
    seq(|d|, j requires 0 <= j < |d| => rs[d[j]])
  }

  /** `releasesToDelete` as the loop of `rmReleases` leaves it. */
  function ReleasesToDelete(rs: seq<Release>, rules: KeepRules): seq<Release> {
    Pick(rs, DeletedIndices(rs, rules, |rs|))
  }

  /** The releases the loop does not push, in their order. */
  function ReleasesKept(rs: seq<Release>, rules: KeepRules): seq<Release> {
    Pick(rs, KeptIndices(rs, rules, |rs|))
  }

  /**
   * The partition loop of `rmReleases`: walk the newest-first list by index
   * and push every release that is kept neither by count nor by age.
   */
  method PartitionForDeletion(releases: seq<Release>, rules: KeepRules) returns (releasesToDelete: seq<Release>)
    ensures releasesToDelete == ReleasesToDelete(releases, rules)
  {
    releasesToDelete := [];
    var i := 0;
    while i < |releases|
      invariant 0 <= i <= |releases|
      invariant releasesToDelete == Pick(releases, DeletedIndices(releases, rules, i))
    {
      var release := releases[i];
      var shouldKeepByCount := i < rules.releasesToKeep;
      var shouldKeepByAge :=
        rules.daysToKeep.Some? && rules.daysToKeep.value > 0 &&
        release.createdAt.Some? && rules.now - release.createdAt.value <= rules.daysToKeep.value * MsPerDay;
      if !shouldKeepByCount && !shouldKeepByAge {
        releasesToDelete := releasesToDelete + [release];
      }
      i := i + 1;
    }
  }

  // ---------------------------------------------------------------------
  // Properties of the partition

  /**
   * Every release is in exactly one of the two parts, the parts together
   * have as many releases as the list, and each part keeps the list order.
   */
  lemma {:induction false} PartitionIsExact(rs: seq<Release>, rules: KeepRules, n: nat)
    requires n <= |rs|
    ensures |DeletedIndices(rs, rules, n)| + |KeptIndices(rs, rules, n)| == n
    ensures forall i :: 0 <= i < n ==> (i in DeletedIndices(rs, rules, n) <==> i !in KeptIndices(rs, rules, n))
  {
    if n > 0 {
      PartitionIsExact(rs, rules, n - 1);
    }
  }

  /** `matches - releasesToDelete.length` is the number of releases kept. */
  lemma KeptCount(rs: seq<Release>, rules: KeepRules)
    ensures |rs| - |ReleasesToDelete(rs, rules)| == |ReleasesKept(rs, rules)|
  {
    PartitionIsExact(rs, rules, |rs|);
  }

  /** When every release is kept, nothing is deleted. */
  lemma {:induction false} NothingDeletedWhenAllKept(rs: seq<Release>, rules: KeepRules, n: nat)
    requires n <= |rs|
    requires forall i :: 0 <= i < n ==> Kept(rs, i, rules)
    ensures DeletedIndices(rs, rules, n) == []
  {
    if n > 0 {
      NothingDeletedWhenAllKept(rs, rules, n - 1);
    }
  }

  /** The `min(releasesToKeep, n)` newest releases are never deleted. */
  lemma NewestAreKept(rs: seq<Release>, rules: KeepRules)
    ensures forall i :: 0 <= i < |rs| && i < rules.releasesToKeep ==> i !in DeletedIndices(rs, rules, |rs|)
    ensures rules.releasesToKeep >= |rs| ==> ReleasesToDelete(rs, rules) == []
  {
    if rules.releasesToKeep >= |rs| {
      NothingDeletedWhenAllKept(rs, rules, |rs|);
    }
  }

  /**
   * In a newest-first list whose dates all parse, whatever is kept has every
   * newer release kept too: the count keeps a prefix, and a release newer
   * than one young enough is young enough.
   */
  lemma KeptIsDownwardClosed(rs: seq<Release>, rules: KeepRules, i: nat, j: nat)
    requires NewestFirst(rs) && forall k :: 0 <= k < |rs| ==> rs[k].createdAt.Some?
    requires j < i < |rs| && Kept(rs, i, rules)
    ensures Kept(rs, j, rules)
  {
    assert Time(rs[j]) >= Time(rs[i]);
    assert rs[j].createdAt.Some?;
  }

  /** A release exactly `daysToKeep` days old is kept: the age test is `<=`. */
  lemma BoundaryAgeIsKept(r: Release, days: int, now: int, keep: int)
    requires days > 0 && r.createdAt == Some(now - days * MsPerDay)
    ensures KeptByAge(r, KeepRules(keep, Some(days), now))
  {
  }

  /** A release one millisecond older than `daysToKeep` days is not kept by age. */
  lemma JustOlderIsNotKeptByAge(r: Release, days: int, now: int, keep: int)
    requires days > 0 && r.createdAt == Some(now - days * MsPerDay - 1)
    ensures !KeptByAge(r, KeepRules(keep, Some(days), now))
  {
  }

  /** The indices `lo, lo + 1, …, hi - 1`. */
  function Span(lo: nat, hi: nat): (d: seq<nat>)
    ensures |d| == if hi <= lo then 0 else hi - lo
    ensures forall j :: 0 <= j < |d| ==> d[j] == lo + j
  {
    if hi <= lo then [] else Span(lo, hi - 1) + [hi - 1]
  }

  /**
   * An undefined or non-positive `daysToKeep` turns age retention off: the
   * releases to delete are then exactly those after the first `releasesToKeep`.
   */
  lemma {:induction false} AgeRetentionOff(rs: seq<Release>, rules: KeepRules, n: nat)
    requires n <= |rs|
    requires rules.daysToKeep.None? || rules.daysToKeep.value <= 0
    ensures DeletedIndices(rs, rules, n) == Span(Clamp(rules.releasesToKeep, n), n)
  {
    if n > 0 {
      AgeRetentionOff(rs, rules, n - 1);
      if n - 1 >= rules.releasesToKeep {
        assert !Kept(rs, n - 1, rules);
        assert Clamp(rules.releasesToKeep, n - 1) == Clamp(rules.releasesToKeep, n);
      } else {
        assert Kept(rs, n - 1, rules);
      }
    }
  }

  /** With age retention off, `releasesToDelete` is the list without its first `releasesToKeep` releases. */
  lemma DeletesAllButNewest(rs: seq<Release>, rules: KeepRules)
    requires rules.daysToKeep.None? || rules.daysToKeep.value <= 0
    requires 0 <= rules.releasesToKeep <= |rs|
    ensures ReleasesToDelete(rs, rules) == rs[rules.releasesToKeep..]
  {
    AgeRetentionOff(rs, rules, |rs|);
    assert Clamp(rules.releasesToKeep, |rs|) == rules.releasesToKeep;
  }

  /** A release whose date does not parse is never kept by age, whatever `daysToKeep` is. */
  lemma UnparseableDateNotKeptByAge(rs: seq<Release>, rules: KeepRules, i: nat)
    requires i < |rs| && rs[i].createdAt.None?
    ensures i in DeletedIndices(rs, rules, |rs|) <==> i >= rules.releasesToKeep
  {
  }

  /** The `j`-th element of a strictly increasing index list is at least `j`. */
  lemma {:induction false} IncreasingIndexBound(d: seq<nat>, j: nat)
    requires StrictlyIncreasing(d) && j < |d|
    ensures d[j] >= j
  {
    if j > 0 {
      IncreasingIndexBound(d, j - 1);
    }
  }

  /**
   * Running the partition again on what it kept deletes nothing: a release
   * kept by count moves no further back, and one kept by age stays as old.
   */
  lemma PartitionIsIdempotent(rs: seq<Release>, rules: KeepRules)
    ensures ReleasesToDelete(ReleasesKept(rs, rules), rules) == []
  {
    var k := KeptIndices(rs, rules, |rs|);
    var kept := ReleasesKept(rs, rules);
    forall j | 0 <= j < |kept| ensures Kept(kept, j, rules) {
      IncreasingIndexBound(k, j);
      assert kept[j] == rs[k[j]];
      assert k[j] in k;
    }
    NothingDeletedWhenAllKept(kept, rules, |kept|);
  }

  /**
   * Three releases 2, 5 and 10 days old, newest first, with 0 kept by count
   * and 4 days kept by age: the two older ones are deleted.
   */
  lemma FourDaysScenario(now: int, a: Release, b: Release, c: Release)
    requires a.createdAt == Some(now - 2 * MsPerDay)
    requires b.createdAt == Some(now - 5 * MsPerDay)
    requires c.createdAt == Some(now - 10 * MsPerDay)
    ensures ReleasesToDelete([a, b, c], KeepRules(0, Some(4), now)) == [b, c]
  {
    var rs := [a, b, c];
    var rules := KeepRules(0, Some(4), now);
    assert Kept(rs, 0, rules) && !Kept(rs, 1, rules) && !Kept(rs, 2, rules);
    assert DeletedIndices(rs, rules, 3) == [1, 2];
  }
}
