/**
 * The hosting API as the release-retention code sees it: a repository
 * holding releases and tag references, answering a listing call and two
 * deletion calls, any of which a test double may make fail.
 */
module Remote {
  import opened Wrappers
  import opened Releases

  /** One call made to the API, as a test double records it. */
  datatype Call =
    | ListReleasesCall                 // paginate(rest.repos.listReleases)
    | DeleteReleaseCall(releaseId: int) // rest.repos.deleteRelease({release_id})
    | DeleteRefCall(ref: string)       // rest.git.deleteRef({ref})

  /**
   * The failures injected into the API: the value the listing throws, if
   * any, and the value thrown when deleting a given release id or ref.
   */
  datatype Faults = Faults(
    listing: Option<Thrown>,
    releaseDeletes: map<int, Thrown>,
    refDeletes: map<string, Thrown>)

  /** The listing with every release of the given id removed. */
  function WithoutRelease(listed: seq<Option<Release>>, id: int): (out: seq<Option<Release>>)
    ensures |out| <= |listed|
    ensures forall e :: e in out <==> e in listed && !(e.Some? && e.value.id == id)
  {
    if listed == [] then []
    else
      var rest := WithoutRelease(listed[1..], id);
      assert forall e :: e in listed <==> e == listed[0] || e in listed[1..];
      if listed[0].Some? && listed[0].value.id == id then rest else [listed[0]] + rest
  }

  /** What a listing call gives back: the injected failure, or the releases held. */
  function Listing(faults: Faults, releases: seq<Option<Release>>): Result<seq<Option<Release>>, Thrown> {
    match faults.listing
    case Some(e) => Failure(e)
    case None => Success(releases)
  }

  class Gateway {
    /** The releases the repository holds, in listing order; an entry may be `null`. */
    var releases: seq<Option<Release>>
    /** The git references the repository holds, such as `tags/v1.0.0`. */
    var refs: set<string>
    /** Every call made so far, oldest first. */
    var log: seq<Call>
    const faults: Faults

    constructor (releases: seq<Option<Release>>, refs: set<string>, faults: Faults)
      ensures this.releases == releases && this.refs == refs && this.faults == faults
      ensures log == []
    {
      this.releases := releases;
      this.refs := refs;
      this.faults := faults;
      this.log := [];
    }

    /** Lists every release (all pages); changes nothing but the log. */
    method ListReleases() returns (r: Result<seq<Option<Release>>, Thrown>)
      modifies this`log
      ensures log == old(log) + [ListReleasesCall]
      ensures r == Listing(faults, releases)
    {
      log := log + [ListReleasesCall];
      r := Listing(faults, releases);
    }

    /** Deletes a release by id; a failed call changes nothing but the log. */
    method DeleteReleaseById(id: int) returns (r: Outcome<Thrown>)
      modifies this`releases, this`log
      ensures log == old(log) + [DeleteReleaseCall(id)]
      ensures id in faults.releaseDeletes ==> r == Fail(faults.releaseDeletes[id]) && releases == old(releases)
      ensures id !in faults.releaseDeletes ==> r == Pass && releases == WithoutRelease(old(releases), id)
    {
      log := log + [DeleteReleaseCall(id)];
      if id in faults.releaseDeletes {
        r := Fail(faults.releaseDeletes[id]);
      } else {
        releases := WithoutRelease(releases, id);
        r := Pass;
      }
    }

    /** Deletes a git reference; a failed call changes nothing but the log. */
    method DeleteRef(ref: string) returns (r: Outcome<Thrown>)
      modifies this`refs, this`log
      ensures log == old(log) + [DeleteRefCall(ref)]
      ensures ref in faults.refDeletes ==> r == Fail(faults.refDeletes[ref]) && refs == old(refs)
      ensures ref !in faults.refDeletes ==> r == Pass && refs == old(refs) - {ref}
    {
      log := log + [DeleteRefCall(ref)];
      if ref in faults.refDeletes {
        r := Fail(faults.refDeletes[ref]);
      } else {
        refs := refs - {ref};
        r := Pass;
      }
    }
  }
}
