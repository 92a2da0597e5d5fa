/** The read-only release routes of server.js: the latest release and the list
    of active versions. */
module Queries {
  import opened Types
  import opened Seqs

  /** `.limit(10)` of the versions route. */
  const MaxListed: nat := 10

  /** GET /api/app/latest: among the active releases flagged latest, one with the
      highest versionCode; 404 when there is none. */
  function Latest(rs: seq<Release>): (r: Response<Release>)
    ensures r.Ok? || r.NotFound?
    ensures r.NotFound? <==> forall x :: x in rs ==> !IsCurrent(x)
    ensures r.Ok? ==> r.body in rs && IsCurrent(r.body)
    ensures r.Ok? ==> forall x :: x in rs && IsCurrent(x) ==> x.versionCode <= r.body.versionCode
  {
    var current := Filter(rs, IsCurrent);
    var ranked := SortDesc(current, VersionCodeOf);
    if ranked == [] then
      assert current == [];
      NotFound
    else
      assert ranked[0] in multiset(current);
      assert ranked[0] in current;
      assert forall x :: x in rs && IsCurrent(x) ==> x.versionCode <= ranked[0].versionCode by {
        forall x | x in rs && IsCurrent(x) ensures x.versionCode <= ranked[0].versionCode {
          assert x in multiset(ranked);
          var k :| 0 <= k < |ranked| && ranked[k] == x;
        }
      }
      Ok(ranked[0])
  }

  /** The body of the versions route. */
  datatype VersionList = VersionList(total: nat, releases: seq<Release>)

  /** GET /api/app/versions: the active releases, highest versionCode first, at
      most ten of them; `total` is the length of that list. */
  function Versions(rs: seq<Release>): (r: VersionList)
    ensures r.total == |r.releases| <= MaxListed
    ensures forall x :: x in r.releases ==> x in rs && x.isActive
    ensures multiset(r.releases) <= multiset(Filter(rs, IsActiveRelease))
    ensures SortedDesc(r.releases, VersionCodeOf)
    ensures r.total == if |Filter(rs, IsActiveRelease)| <= MaxListed then |Filter(rs, IsActiveRelease)| else MaxListed
    ensures forall x :: x in rs && x.isActive && x !in r.releases ==>
              forall y :: y in r.releases ==> y.versionCode >= x.versionCode
  {
    var active := Filter(rs, IsActiveRelease);
    var ranked := SortDesc(active, VersionCodeOf);
    var listed := Take(ranked, MaxListed);
    assert forall x :: x in ranked <==> x in active by {
      forall x ensures x in ranked <==> x in active {
        assert x in ranked <==> x in multiset(ranked);
        assert x in active <==> x in multiset(active);
      }
    }
    assert forall x :: x in listed ==> x in ranked;
    assert SortedDesc(listed, VersionCodeOf);
    assert forall x :: x in rs && x.isActive && x !in listed ==>
             forall y :: y in listed ==> y.versionCode >= x.versionCode by {
      forall x | x in rs && x.isActive && x !in listed
        ensures forall y :: y in listed ==> y.versionCode >= x.versionCode {
        TakeKeepsTop(ranked, VersionCodeOf, MaxListed, x);
      }
    }
    VersionList(|listed|, listed)
  }
}
