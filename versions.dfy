/** Version references: pinned releases and the "latest stable" alias, which
    is resolved online and never equals a pinned version. */
module Versions {
  import opened Wrappers

  /** The id every latest-stable alias reports. */
  const StableId: string := "stable"

  /** A version reference: a release pinned by id, or the alias for whatever
      release is currently the latest stable one. */
  datatype Version = Pinned(id: string) | LatestStable
  {
    /** `getId`: a pinned version's own id; always "stable" for the alias. */
    function GetId(): (r: string)
      ensures LatestStable? ==> r == StableId
      ensures Pinned? ==> r == id
    {
      match this
      case Pinned(i) => i
      case LatestStable => StableId
    }

    /** `setId`: a pinned version takes the new id; the alias ignores it. */
    function SetId(newId: string): (r: Version)
      ensures LatestStable? ==> r == this && r.GetId() == StableId
      ensures Pinned? ==> r.Pinned? && r.GetId() == newId
    {
      match this
      case Pinned(_) => Pinned(newId)
      case LatestStable => this
    }
  }

  /** `LatestStable.thisEquals(other)`: the inherited check, whose outcome is
      `inheritedEquals`, and `other` being a latest-stable alias itself. */
  function StableEquals(other: Version, inheritedEquals: bool): (eq: bool)
    ensures eq <==> inheritedEquals && other.LatestStable?
  {
    inheritedEquals && other.LatestStable?
  }

  /** The alias never equals a pinned version, whatever the inherited check
      says, even a pinned version that shares its id. */
  lemma StableNeverEqualsPinned(id: string, inheritedEquals: bool)
    ensures !StableEquals(Pinned(id), inheritedEquals)
    ensures Pinned(StableId).GetId() == LatestStable.GetId()
  {
  }

  /** What `application.getLatestStable()` did. */
  datatype Lookup = Returned(version: Version) | WasInterrupted | IoFailure(message: string)

  /** The result of `resolveOnline`, with the thread's interrupt flag after it. */
  datatype Resolution = Resolution(result: Result<Version, string>, interruptFlag: bool)

  /** `LatestStable.resolveOnline`: the application's answer, unchanged; an
      interruption sets the thread's interrupt flag again and becomes an
      `IOException("Interrupted")`; an I/O failure passes through. */
  function ResolveOnline(lookup: Lookup, interruptFlag: bool): (r: Resolution)
    ensures lookup.Returned? ==> r.result == Success(lookup.version) && r.interruptFlag == interruptFlag
    ensures lookup.WasInterrupted? ==> r.result == Failure("Interrupted") && r.interruptFlag
    ensures lookup.IoFailure? ==> r.result == Failure(lookup.message) && r.interruptFlag == interruptFlag
    ensures r.result.Failure? <==> !lookup.Returned?
  {
    match lookup
    case Returned(v) => Resolution(Success(v), interruptFlag)
    case WasInterrupted => Resolution(Failure("Interrupted"), true)
    case IoFailure(m) => Resolution(Failure(m), interruptFlag)
  }
}

/** The release list published by the game's servers. */
module Releases {
  import opened Wrappers
  import opened Versions

  /** The ids of the newest snapshot and release. */
  datatype LatestReleases = LatestReleases(snapshot: Option<string>, release: Option<string>)

  datatype ReleaseList = ReleaseList(latest: LatestReleases, versions: seq<Version>)
  {
    /** `find(id)`: the first listed version with that id, or none. */
    function Find(id: string): (r: Option<Version>)
      ensures r == FindIn(versions, id)
      ensures r.None? <==> forall v :: v in versions ==> v.GetId() != id
    {
      FindIn(versions, id)
    }
  }

  /** The first version in `versions` whose id is `id`, or `None` when no
      version has it (that it is the first is `FindIsFirstMatch`). */
  function FindIn(versions: seq<Version>, id: string): (r: Option<Version>)
    ensures r.None? <==> forall i :: 0 <= i < |versions| ==> versions[i].GetId() != id
    ensures r.Some? ==> r.value.GetId() == id
    ensures r.Some? ==> r.value in versions
  {
    if versions == [] then None
    else if versions[0].GetId() == id then Some(versions[0])
    else
      var r := FindIn(versions[1..], id);
      assert forall j :: 1 <= j < |versions| ==> versions[j] == versions[1..][j - 1];
      r
  }

  /** The version found is in the list, carries the id asked for, and comes
      before every other version with that id. */
  lemma {:induction false} FindIsFirstMatch(versions: seq<Version>, id: string, i: nat)
    requires i < |versions| && versions[i].GetId() == id
    ensures FindIn(versions, id).Some?
    ensures FindIn(versions, id).value in versions[..i + 1]
    ensures FindIn(versions, id).value.GetId() == id
  {
    if versions[0].GetId() != id {
      FindIsFirstMatch(versions[1..], id, i - 1);
      assert versions[1..][..i] == versions[1..i + 1];
    }
  }
}
