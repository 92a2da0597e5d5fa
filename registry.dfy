/** The two collections and the mutating routes of server.js (create release,
    download, delete release), each as a transition of the store state that
    returns the handler's outcome. */
module Registry {
  import opened Types

  /** The database as the routes see it, plus the log of Cloudinary destroy calls
      issued so far and the next id the database hands out. */
  datatype Db = Db(
    releases: seq<Release>,
    downloads: seq<Download>,
    destroyed: seq<DestroyCall>,
    nextId: Id)
  {
    /** What every sequence of route calls keeps: unique ids below `nextId`,
        stored releases pass validation, and at most one release is latest. */
    ghost predicate Valid() {
      ReleasesOk(releases, nextId) && DownloadsOk(downloads, nextId) && AtMostOneLatest(releases)
    }
  }

  const EmptyDb := Db([], [], [], 0)

  /** Release ids are distinct and below `bound`; every release passed validation. */
  ghost predicate ReleasesOk(rs: seq<Release>, bound: Id) {
    (forall i :: 0 <= i < |rs| ==> rs[i].id < bound && WellFormed(rs[i])) &&
    (forall i, j :: 0 <= i < j < |rs| ==> rs[i].id != rs[j].id)
  }

  /** Download ids are distinct and below `bound`. */
  ghost predicate DownloadsOk(ds: seq<Download>, bound: Id) {
    (forall i :: 0 <= i < |ds| ==> ds[i].id < bound) &&
    (forall i, j :: 0 <= i < j < |ds| ==> ds[i].id != ds[j].id)
  }

  ghost predicate AtMostOneLatest(rs: seq<Release>) {
    forall i, j :: 0 <= i < |rs| && 0 <= j < |rs| && rs[i].isLatest && rs[j].isLatest ==> i == j
  }

  /** `findById`: the position of the release with id `id`, if any. */
  function FindById(rs: seq<Release>, id: Id): (r: Option<nat>)
    ensures r.None? <==> forall k :: 0 <= k < |rs| ==> rs[k].id != id
    ensures r.Some? ==> r.value < |rs| && rs[r.value].id == id
    ensures r.Some? ==> forall k :: 0 <= k < r.value ==> rs[k].id != id
  {
    if rs == [] then None
    else if rs[0].id == id then Some(0)
    else match FindById(rs[1..], id)
      case None => None
      case Some(k) => Some(k + 1)
  }

  /** `updateMany({}, {isLatest: false})`: every release loses its latest flag,
      nothing else changes. */
  function ClearLatest(rs: seq<Release>): (r: seq<Release>)
    ensures |r| == |rs|
    ensures forall i :: 0 <= i < |r| ==> !r[i].isLatest && r[i] == rs[i].(isLatest := false)
  {
    seq(|rs|, i requires 0 <= i < |rs| => rs[i].(isLatest := false))
  }

  /** `Release.create(...)` of the create route: schema validation, then the
      document with the schema defaults and `isLatest`/`isActive` set. */
  function NewRelease(id: Id, now: Time, input: ReleaseInput): (r: Option<Release>)
    ensures r.Some? <==> HasRequired(input)
    ensures r.Some? ==> WellFormed(r.value) && r.value.id == id && r.value.releaseDate == now
    ensures r.Some? ==> r.value.isLatest && r.value.isActive && r.value.downloadCount == 0
    ensures r.Some? ==> r.value.version == input.version.value && r.value.versionCode == input.versionCode.value
    ensures r.Some? ==> r.value.apkUrl == input.apkUrl.value && r.value.apkCloudinaryId == input.apkCloudinaryId.value
    ensures r.Some? ==> r.value.changelog == input.changelog.GetOr([]) && r.value.features == input.features.GetOr([])
    ensures r.Some? ==> r.value.screenshots == input.screenshots.GetOr([])
    ensures r.Some? ==>
      r.value.apkSize == input.apkSize && r.value.iconUrl == input.iconUrl &&
      r.value.iconCloudinaryId == input.iconCloudinaryId && r.value.permissions == input.permissions.GetOr([])
    ensures r.Some? ==>
      r.value.appName == DefaultAppName && r.value.packageName == DefaultPackageName &&
      r.value.minAndroidVersion == input.minAndroidVersion.GetOr(DefaultMinAndroidVersion) &&
      r.value.targetAndroidVersion == input.targetAndroidVersion.GetOr(DefaultTargetAndroidVersion)
  {
    if !HasRequired(input) then None
    else Some(Release(
      id := id,
      appName := DefaultAppName,
      version := input.version.value,
      versionCode := input.versionCode.value,
      releaseDate := now,
      apkUrl := input.apkUrl.value,
      apkCloudinaryId := input.apkCloudinaryId.value,
      apkSize := input.apkSize,
      changelog := input.changelog.GetOr([]),
      features := input.features.GetOr([]),
      screenshots := input.screenshots.GetOr([]),
      iconUrl := input.iconUrl,
      iconCloudinaryId := input.iconCloudinaryId,
      downloadCount := 0,
      isLatest := true,
      isActive := true,
      minAndroidVersion := input.minAndroidVersion.GetOr(DefaultMinAndroidVersion),
      targetAndroidVersion := input.targetAndroidVersion.GetOr(DefaultTargetAndroidVersion),
      permissions := input.permissions.GetOr([]),
      packageName := DefaultPackageName))
  }

  /** POST /api/admin/release: clear every latest flag, then insert the new
      release. A validation failure happens after the clear, so it leaves the
      store with no latest release at all. */
  function Create(db: Db, input: ReleaseInput, now: Time): (r: (Db, Response<Release>))
    ensures r.1.Created? <==> HasRequired(input)
    ensures r.1.Created? || r.1.ServerError?
    ensures r.0.downloads == db.downloads && r.0.destroyed == db.destroyed
    ensures |r.0.releases| == |db.releases| + (if r.1.Created? then 1 else 0)
    ensures forall i :: 0 <= i < |db.releases| ==> r.0.releases[i] == db.releases[i].(isLatest := false)
    ensures r.1.Created? ==> NewRelease(db.nextId, now, input) == Some(r.1.body) && r.0.nextId == db.nextId + 1
    ensures r.1.Created? ==>
      r.0.releases[|db.releases|] == r.1.body && r.1.body.id == db.nextId &&
      r.1.body.isLatest && r.1.body.isActive && r.1.body.downloadCount == 0
    ensures forall i :: 0 <= i < |r.0.releases| ==> (r.0.releases[i].isLatest <==> r.1.Created? && i == |db.releases|)
  {
    var cleared := ClearLatest(db.releases);
    match NewRelease(db.nextId, now, input)
    case None => (db.(releases := cleared), ServerError)
    case Some(rec) => (db.(releases := cleared + [rec], nextId := db.nextId + 1), Created(rec))
  }

  /** The client side of a download request. */
  datatype Client = Client(ipAddress: Option<string>, userAgent: Option<string>)

  /** The payload of a successful download: where to fetch the APK. */
  datatype DownloadBody = DownloadBody(downloadUrl: string, version: string, size: Option<int>)

  /** GET /api/app/download/:releaseId: record a Download, then bump the
      release's counter. `Download.create` validates a non-empty version; a
      stored release always has one (see `Db.Valid`). `release.save()` also
      re-validates the bumped release and would answer 500 after the Download
      was written; a release that passed validation on create always passes
      again, so in a `Db.Valid` store that failure cannot happen and it is not
      modelled. */
  function RecordDownload(db: Db, releaseId: Id, client: Client, now: Time): (r: (Db, Response<DownloadBody>))
    ensures r.1.NotFound? <==> forall k :: 0 <= k < |db.releases| ==> db.releases[k].id != releaseId
    ensures !r.1.Ok? ==> r.0 == db
    ensures r.1.Ok? || r.1.NotFound? || r.1.ServerError?
    ensures r.1.ServerError? ==> exists i :: 0 <= i < |db.releases| && db.releases[i].id == releaseId && db.releases[i].version == ""
    ensures r.1.Ok? ==>
      exists i :: 0 <= i < |db.releases| && db.releases[i].id == releaseId &&
        r.1.body == DownloadBody(db.releases[i].apkUrl, db.releases[i].version, db.releases[i].apkSize) &&
        r.0.downloads == db.downloads +
          [Download(db.nextId, releaseId, db.releases[i].version, client.ipAddress, client.userAgent, None, now)] &&
        r.0.releases == db.releases[i := db.releases[i].(downloadCount := db.releases[i].downloadCount + 1)]
    ensures r.0.destroyed == db.destroyed
  {
    match FindById(db.releases, releaseId)
    case None => (db, NotFound)
    case Some(i) =>
      var rel := db.releases[i];
      if rel.version == "" then (db, ServerError)
      else
        var d := Download(db.nextId, releaseId, rel.version, client.ipAddress, client.userAgent, None, now);
        var bumped := rel.(downloadCount := rel.downloadCount + 1);
        (db.(downloads := db.downloads + [d], releases := db.releases[i := bumped], nextId := db.nextId + 1),
         Ok(DownloadBody(rel.apkUrl, rel.version, rel.apkSize)))
  }

  /** The destroy calls the delete route issues for a release: the APK (as a raw
      resource) when its id is truthy, then the icon when its id is truthy. */
  function DestroyCalls(rel: Release): (r: seq<DestroyCall>)
    ensures |r| <= 2
    ensures DestroyCall(rel.apkCloudinaryId, Raw) in r <==> rel.apkCloudinaryId != ""
    ensures Present(rel.iconCloudinaryId) ==> DestroyCall(rel.iconCloudinaryId.value, Image) in r
    ensures forall c :: c in r ==> c == DestroyCall(rel.apkCloudinaryId, Raw) ||
                                    (Present(rel.iconCloudinaryId) && c == DestroyCall(rel.iconCloudinaryId.value, Image))
    ensures |r| == 2 <==> rel.apkCloudinaryId != "" && Present(rel.iconCloudinaryId)
    ensures r != [] && rel.apkCloudinaryId != "" ==> r[0] == DestroyCall(rel.apkCloudinaryId, Raw)
  {
    (if rel.apkCloudinaryId != "" then [DestroyCall(rel.apkCloudinaryId, Raw)] else []) +
    (if Present(rel.iconCloudinaryId) then [DestroyCall(rel.iconCloudinaryId.value, Image)] else [])
  }

  /** `rs` without its element at position `i`. */
  function RemoveAt(rs: seq<Release>, i: nat): (r: seq<Release>)
    requires i < |rs|
    ensures |r| == |rs| - 1
    ensures forall k :: 0 <= k < i ==> r[k] == rs[k]
    ensures forall k :: i <= k < |r| ==> r[k] == rs[k + 1]
  {
    rs[..i] + rs[i + 1..]
  }

  /** One of `calls` throws: `failsAt` is the position of the first destroy call
      that throws, if any, and there is a call at that position. */
  predicate Throws(failsAt: Option<nat>, calls: seq<DestroyCall>) {
    failsAt.Some? && failsAt.value < |calls|
  }

  /** DELETE /api/admin/release/:releaseId: destroy the artifacts one after the
      other, then remove the record. The destroy at position `failsAt` throws
      when there is such a call: it has been issued, the ones after it have
      not, and the handler ends with a 500 before the record is removed.
      Downloads are never touched. */
  function Delete(db: Db, releaseId: Id, failsAt: Option<nat>): (r: (Db, Response<()>))
    ensures r.1.NotFound? <==> forall k :: 0 <= k < |db.releases| ==> db.releases[k].id != releaseId
    ensures r.1.NotFound? ==> r.0 == db
    ensures r.1.Ok? || r.1.NotFound? || r.1.ServerError?
    ensures r.0.downloads == db.downloads && r.0.nextId == db.nextId
    ensures failsAt.None? ==> !r.1.ServerError?
    ensures r.1.ServerError? ==>
      exists i :: 0 <= i < |db.releases| && db.releases[i].id == releaseId &&
        Throws(failsAt, DestroyCalls(db.releases[i])) &&
        r.0.releases == db.releases &&
        r.0.destroyed == db.destroyed + DestroyCalls(db.releases[i])[..failsAt.value + 1]
    ensures r.1.Ok? ==>
      exists i :: 0 <= i < |db.releases| && db.releases[i].id == releaseId &&
        !Throws(failsAt, DestroyCalls(db.releases[i])) &&
        r.0.releases == RemoveAt(db.releases, i) &&
        r.0.destroyed == db.destroyed + DestroyCalls(db.releases[i])
  {
    match FindById(db.releases, releaseId)
    case None => (db, NotFound)
    case Some(i) =>
      var calls := DestroyCalls(db.releases[i]);
      if Throws(failsAt, calls) then
        (db.(destroyed := db.destroyed + calls[..failsAt.value + 1]), ServerError)
      else
        (db.(releases := RemoveAt(db.releases, i), destroyed := db.destroyed + calls), Ok(()))
  }

  // ---- Each route keeps `Db.Valid` ----

  lemma ReleasesOkWiden(rs: seq<Release>, n: Id, m: Id)
    requires ReleasesOk(rs, n) && n <= m
    ensures ReleasesOk(rs, m)
  {
  }

  lemma ReleasesOkAppend(rs: seq<Release>, n: Id, x: Release)
    requires ReleasesOk(rs, n) && x.id == n && WellFormed(x)
    ensures ReleasesOk(rs + [x], n + 1)
  {
    var r := rs + [x];
    forall a, b | 0 <= a < b < |r| ensures r[a].id != r[b].id {
      assert r[a] == rs[a];
    }
  }

  /** Replacing a release by one with the same id that also passed validation. */
  lemma ReleasesOkReplace(rs: seq<Release>, n: Id, i: nat, x: Release)
    requires ReleasesOk(rs, n) && i < |rs| && x.id == rs[i].id && WellFormed(x)
    ensures ReleasesOk(rs[i := x], n)
  {
    var r := rs[i := x];
    forall a, b | 0 <= a < b < |r| ensures r[a].id != r[b].id {
      assert r[a].id == rs[a].id && r[b].id == rs[b].id;
    }
  }

  lemma ClearLatestKeepsOk(rs: seq<Release>, n: Id)
    requires ReleasesOk(rs, n)
    ensures ReleasesOk(ClearLatest(rs), n)
  {
    var r := ClearLatest(rs);
    forall a, b | 0 <= a < b < |r| ensures r[a].id != r[b].id {
      assert r[a].id == rs[a].id && r[b].id == rs[b].id;
    }
  }

  lemma DownloadsOkAppend(ds: seq<Download>, n: Id, d: Download)
    requires DownloadsOk(ds, n) && d.id == n
    ensures DownloadsOk(ds + [d], n + 1)
  {
    var r := ds + [d];
    forall a, b | 0 <= a < b < |r| ensures r[a].id != r[b].id {
      assert r[a] == ds[a];
    }
  }

  /** Creating a release keeps a valid store valid. */
  lemma CreateKeepsValid(db: Db, input: ReleaseInput, now: Time)
    requires db.Valid()
    ensures Create(db, input, now).0.Valid()
  {
    var cleared := ClearLatest(db.releases);
    ClearLatestKeepsOk(db.releases, db.nextId);
    match NewRelease(db.nextId, now, input)
    case None =>
    case Some(rec) =>
      ReleasesOkAppend(cleared, db.nextId, rec);
      var r := Create(db, input, now).0;
      assert r.releases == cleared + [rec];
      assert AtMostOneLatest(r.releases);
  }

  /** A download of a stored release in a valid store succeeds, with exactly
      this new state, and keeps the store valid. */
  lemma DownloadAt(db: Db, i: nat, client: Client, now: Time)
    requires db.Valid() && i < |db.releases|
    ensures var r := RecordDownload(db, db.releases[i].id, client, now);
      r.1.Ok? && r.0.Valid() && r.0.nextId == db.nextId + 1 &&
      r.0.releases == db.releases[i := db.releases[i].(downloadCount := db.releases[i].downloadCount + 1)] &&
      r.0.downloads == db.downloads +
        [Download(db.nextId, db.releases[i].id, db.releases[i].version, client.ipAddress, client.userAgent, None, now)]
  {
    var rs := db.releases;
    var rid := rs[i].id;
    assert FindById(rs, rid) == Some(i) by {
      var f := FindById(rs, rid);
      assert f.Some?;
      assert rs[f.value].id == rid;
    }
    assert WellFormed(rs[i]);
    var bumped := rs[i].(downloadCount := rs[i].downloadCount + 1);
    ReleasesOkReplace(rs, db.nextId, i, bumped);
    ReleasesOkWiden(rs[i := bumped], db.nextId, db.nextId + 1);
    var d := Download(db.nextId, rid, rs[i].version, client.ipAddress, client.userAgent, None, now);
    DownloadsOkAppend(db.downloads, db.nextId, d);
    var r := RecordDownload(db, rid, client, now);
    assert r.0 == db.(downloads := db.downloads + [d], releases := rs[i := bumped], nextId := db.nextId + 1);
    assert AtMostOneLatest(r.0.releases) by {
      forall a, b | 0 <= a < |r.0.releases| && 0 <= b < |r.0.releases| && r.0.releases[a].isLatest && r.0.releases[b].isLatest
        ensures a == b {
        assert rs[a].isLatest && rs[b].isLatest;
      }
    }
  }

  /** A download keeps a valid store valid, and in a valid store it never fails
      validation. */
  lemma DownloadKeepsValid(db: Db, releaseId: Id, client: Client, now: Time)
    requires db.Valid()
    ensures RecordDownload(db, releaseId, client, now).0.Valid()
    ensures !RecordDownload(db, releaseId, client, now).1.ServerError?
  {
    match FindById(db.releases, releaseId)
    case None =>
    case Some(i) => DownloadAt(db, i, client, now);
  }

  /** Deleting from a valid store keeps it valid; a successful delete removes
      exactly the release with that id and keeps every other one. */
  lemma DeleteKeepsValid(db: Db, releaseId: Id, failsAt: Option<nat>)
    requires db.Valid()
    ensures Delete(db, releaseId, failsAt).0.Valid()
    ensures Delete(db, releaseId, failsAt).1.Ok? ==>
      forall x :: x in Delete(db, releaseId, failsAt).0.releases <==> x in db.releases && x.id != releaseId
  {
    match FindById(db.releases, releaseId)
    case None =>
    case Some(i) =>
      var r := Delete(db, releaseId, failsAt);
      if r.1.Ok? {
        RemoveAtKeepsOk(db.releases, db.nextId, i);
        assert r.0.releases == RemoveAt(db.releases, i);
      }
  }

  /** Removing one release keeps ids distinct and at most one latest, and the
      result holds exactly the other releases. */
  lemma RemoveAtKeepsOk(rs: seq<Release>, n: Id, i: nat)
    requires ReleasesOk(rs, n) && AtMostOneLatest(rs) && i < |rs|
    ensures ReleasesOk(RemoveAt(rs, i), n) && AtMostOneLatest(RemoveAt(rs, i))
    ensures forall x :: x in RemoveAt(rs, i) <==> x in rs && x.id != rs[i].id
  {
    RemoveAtIds(rs, n, i);
    RemoveAtLatest(rs, i);
    RemoveAtMembers(rs, n, i);
  }

  lemma RemoveAtIds(rs: seq<Release>, n: Id, i: nat)
    requires ReleasesOk(rs, n) && i < |rs|
    ensures ReleasesOk(RemoveAt(rs, i), n)
  {
    var r := RemoveAt(rs, i);
    forall a, b | 0 <= a < b < |r| ensures r[a].id != r[b].id {
      var a', b' := if a < i then a else a + 1, if b < i then b else b + 1;
      assert r[a] == rs[a'] && r[b] == rs[b'];
    }
  }

  lemma RemoveAtLatest(rs: seq<Release>, i: nat)
    requires AtMostOneLatest(rs) && i < |rs|
    ensures AtMostOneLatest(RemoveAt(rs, i))
  {
    var r := RemoveAt(rs, i);
    forall a, b | 0 <= a < |r| && 0 <= b < |r| && r[a].isLatest && r[b].isLatest ensures a == b {
      var a', b' := if a < i then a else a + 1, if b < i then b else b + 1;
      assert r[a] == rs[a'] && r[b] == rs[b'];
    }
  }

  lemma RemoveAtMembers(rs: seq<Release>, n: Id, i: nat)
    requires ReleasesOk(rs, n) && i < |rs|
    ensures forall x :: x in RemoveAt(rs, i) <==> x in rs && x.id != rs[i].id
  {
    var r := RemoveAt(rs, i);
    forall x ensures x in r <==> x in rs && x.id != rs[i].id {
      if x in rs && x.id != rs[i].id {
        var k :| 0 <= k < |rs| && rs[k] == x;
        if k < i { assert r[k] == x; } else { assert r[k - 1] == x; }
      }
      if x in r {
        var k :| 0 <= k < |r| && r[k] == x;
        if k < i { assert rs[k] == x; } else { assert rs[k + 1] == x; }
      }
    }
  }

  /** The outcome of a delete once the release is found at position `i`. */
  lemma DeleteFound(db: Db, releaseId: Id, failsAt: Option<nat>, i: nat)
    requires FindById(db.releases, releaseId) == Some(i)
    ensures Throws(failsAt, DestroyCalls(db.releases[i])) ==>
      Delete(db, releaseId, failsAt) ==
        (db.(destroyed := db.destroyed + DestroyCalls(db.releases[i])[..failsAt.value + 1]), ServerError)
    ensures !Throws(failsAt, DestroyCalls(db.releases[i])) ==>
      Delete(db, releaseId, failsAt) ==
        (db.(releases := RemoveAt(db.releases, i), destroyed := db.destroyed + DestroyCalls(db.releases[i])), Ok(()))
  {
  }

  /** One download request: who asked, and when. */
  datatype Request = Request(client: Client, at: Time)

  /** Successive downloads of the same release, one per request, in order. */
  function DownloadTimes(db: Db, releaseId: Id, reqs: seq<Request>): Db {
    if reqs == [] then db
    else
      var last := reqs[|reqs| - 1];
      RecordDownload(DownloadTimes(db, releaseId, reqs[..|reqs| - 1]), releaseId, last.client, last.at).0
  }

  /** What `n` downloads of release `i` did to `db` to give `db'`. */
  ghost predicate DownloadedTimes(db: Db, db': Db, i: nat, n: nat)
    requires i < |db.releases|
  {
    |db'.releases| == |db.releases| &&
    db'.releases[i] == db.releases[i].(downloadCount := db.releases[i].downloadCount + n) &&
    (forall k :: 0 <= k < |db.releases| && k != i ==> db'.releases[k] == db.releases[k]) &&
    |db'.downloads| == |db.downloads| + n &&
    db'.downloads[..|db.downloads|] == db.downloads &&
    (forall k :: |db.downloads| <= k < |db'.downloads| ==>
       db'.downloads[k].releaseId == db.releases[i].id && db'.downloads[k].version == db.releases[i].version)
  }

  /** One more download extends `DownloadedTimes` from `n` to `n + 1`. */
  lemma DownloadedOneMore(db: Db, prev: Db, next: Db, i: nat, n: nat, d: Download)
    requires i < |db.releases| && DownloadedTimes(db, prev, i, n)
    requires next.releases == prev.releases[i := prev.releases[i].(downloadCount := prev.releases[i].downloadCount + 1)]
    requires next.downloads == prev.downloads + [d]
    requires d.releaseId == prev.releases[i].id && d.version == prev.releases[i].version
    ensures DownloadedTimes(db, next, i, n + 1)
  {
    assert next.downloads[..|db.downloads|] == prev.downloads[..|db.downloads|];
  }

  /** N sequential downloads of a stored release, by any clients at any times,
      raise its counter by exactly N, append exactly N Download records for it,
      and change no other release. */
  lemma {:induction false} DownloadsAddUp(db: Db, i: nat, reqs: seq<Request>)
    requires db.Valid() && i < |db.releases|
    ensures var db' := DownloadTimes(db, db.releases[i].id, reqs);
      db'.Valid() && DownloadedTimes(db, db', i, |reqs|)
  {
    var rid := db.releases[i].id;
    if reqs == [] {
      assert db.downloads[..|db.downloads|] == db.downloads;
    } else {
      var n := |reqs|;
      var last := reqs[n - 1];
      DownloadsAddUp(db, i, reqs[..n - 1]);
      var prev := DownloadTimes(db, rid, reqs[..n - 1]);
      DownloadAt(prev, i, last.client, last.at);
      var d := Download(prev.nextId, rid, prev.releases[i].version, last.client.ipAddress, last.client.userAgent, None, last.at);
      DownloadedOneMore(db, prev, RecordDownload(prev, rid, last.client, last.at).0, i, n - 1, d);
    }
  }
}
