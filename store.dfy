/** The server's database connection as a mutable object: the Release and
    Download collections and the Cloudinary destroy log, updated in place by the
    create, download and delete routes. Each method performs the route's writes
    in order and ends in exactly the state the matching `Registry` transition
    describes. */
module Store {
  import opened Types
  import Registry

  class ReleaseStore {
    var releases: seq<Release>
    var downloads: seq<Download>
    var destroyed: seq<DestroyCall>
    var nextId: Id

    /** The collections as a value. */
    function State(): Registry.Db
      reads this
    {
      Registry.Db(releases, downloads, destroyed, nextId)
    }

    ghost predicate Valid()
      reads this
    {
      State().Valid()
    }

    /** Empty collections, as after connecting to a fresh database. */
    constructor ()
      ensures Valid() && State() == Registry.EmptyDb
    {
      releases, downloads, destroyed, nextId := [], [], [], 0;
    }

    /** `Release.updateMany({}, {isLatest: false})`, one document at a time. */
    method ClearLatest()
      modifies this
      ensures releases == Registry.ClearLatest(old(releases))
      ensures downloads == old(downloads) && destroyed == old(destroyed) && nextId == old(nextId)
    {
      var i := 0;
      while i < |releases|
        invariant 0 <= i <= |releases| == |old(releases)|
        invariant forall k :: 0 <= k < i ==> releases[k] == old(releases)[k].(isLatest := false)
        invariant forall k :: i <= k < |releases| ==> releases[k] == old(releases)[k]
        invariant downloads == old(downloads) && destroyed == old(destroyed) && nextId == old(nextId)
      {
        releases := releases[i := releases[i].(isLatest := false)];
        i := i + 1;
      }
    }

    /** POST /api/admin/release. */
    method CreateRelease(input: ReleaseInput, now: Time) returns (resp: Response<Release>)
      modifies this
      ensures old(Valid()) ==> Valid()
      ensures (State(), resp) == Registry.Create(old(State()), input, now)
    {
      if Valid() {
        Registry.CreateKeepsValid(State(), input, now);
      }
      ClearLatest();
      var created := Registry.NewRelease(nextId, now, input);
      if created.None? {
        resp := ServerError;
      } else {
        releases := releases + [created.value];
        nextId := nextId + 1;
        resp := Created(created.value);
      }
    }

    /** GET /api/app/download/:releaseId: insert the Download, then
        `release.downloadCount += 1; release.save()`. */
    method Download(releaseId: Id, client: Registry.Client, now: Time) returns (resp: Response<Registry.DownloadBody>)
      modifies this
      ensures old(Valid()) ==> Valid()
      ensures (State(), resp) == Registry.RecordDownload(old(State()), releaseId, client, now)
    {
      if Valid() {
        Registry.DownloadKeepsValid(State(), releaseId, client, now);
      }
      var found := Registry.FindById(releases, releaseId);
      if found.None? {
        return NotFound;
      }
      var i := found.value;
      var rel := releases[i];
      if rel.version == "" {
        return ServerError;
      }
      downloads := downloads + [Types.Download(nextId, releaseId, rel.version, client.ipAddress, client.userAgent, None, now)];
      nextId := nextId + 1;
      releases := releases[i := releases[i].(downloadCount := releases[i].downloadCount + 1)];
      resp := Ok(Registry.DownloadBody(rel.apkUrl, rel.version, rel.apkSize));
    }

    /** The two `cloudinary.uploader.destroy` calls of the delete route: the APK
        when its id is truthy, then the icon when its id is truthy. The call at
        position `failsAt` throws, and nothing after it is issued. */
    method DestroyArtifacts(rel: Release, failsAt: Option<nat>) returns (thrown: bool)
      modifies this
      ensures thrown == Registry.Throws(failsAt, Registry.DestroyCalls(rel))
      ensures thrown ==> destroyed == old(destroyed) + Registry.DestroyCalls(rel)[..failsAt.value + 1]
      ensures !thrown ==> destroyed == old(destroyed) + Registry.DestroyCalls(rel)
      ensures releases == old(releases) && downloads == old(downloads) && nextId == old(nextId)
    {
      ghost var calls := Registry.DestroyCalls(rel);
      ghost var apkCalls := if rel.apkCloudinaryId != "" then [DestroyCall(rel.apkCloudinaryId, Raw)] else [];
      assert calls == apkCalls + if Present(rel.iconCloudinaryId) then [DestroyCall(rel.iconCloudinaryId.value, Image)] else [];
      var issued: nat := 0;
      if rel.apkCloudinaryId != "" {
        destroyed := destroyed + [DestroyCall(rel.apkCloudinaryId, Raw)];
        if failsAt == Some(issued) {
          assert calls[..1] == apkCalls;
          return true;
        }
        issued := issued + 1;
      }
      assert destroyed == old(destroyed) + apkCalls && issued == |apkCalls|;
      if Present(rel.iconCloudinaryId) {
        destroyed := destroyed + [DestroyCall(rel.iconCloudinaryId.value, Image)];
        if failsAt == Some(issued) {
          assert |calls| == issued + 1 && calls[..issued + 1] == calls;
          return true;
        }
      }
      return false;
    }

    /** DELETE /api/admin/release/:releaseId: destroy the APK, then the icon, then
        `findByIdAndDelete`. A destroy that throws ends the route with a 500. */
    method DeleteRelease(releaseId: Id, failsAt: Option<nat>) returns (resp: Response<()>)
      modifies this
      ensures old(Valid()) ==> Valid()
      ensures (State(), resp) == Registry.Delete(old(State()), releaseId, failsAt)
    {
      ghost var before := State();
      if Valid() {
        Registry.DeleteKeepsValid(before, releaseId, failsAt);
      }
      var found := Registry.FindById(releases, releaseId);
      if found.None? {
        return NotFound;
      }
      var i := found.value;
      Registry.DeleteFound(before, releaseId, failsAt, i);
      var thrown := DestroyArtifacts(releases[i], failsAt);
      if thrown {
        return ServerError;
      }
      releases := Registry.RemoveAt(releases, i);
      resp := Ok(());
    }
  }
}
