/** The publishing script upload-release.js: check the APK file, upload it to
    Cloudinary, then clear every latest flag and insert the new release, and exit
    with 0 on success or 1 on any failure. The file system and the upload are
    inputs: whether the file exists, its size, and what the upload returned
    (`None` when the upload throws). */
module Publish {
  import opened Types
  import Registry
  import Store

  /** Upload options of the script. */
  const ReleaseFolder := "center-app/releases"
  const ObjectIdPrefix := "center-app-v"
  const UploadTags := ["apk", "android", "center-app"]

  /** The `releaseData` object the script is given. */
  datatype ReleaseData = ReleaseData(
    version: Option<string>,
    versionCode: Option<int>,
    changelog: Option<seq<string>>,
    features: Option<seq<string>>)

  /** The `cloudinary.uploader.upload` call the script makes. */
  datatype UploadRequest = UploadRequest(
    path: string,
    resourceType: ResourceType,
    folder: string,
    publicId: string,
    tags: seq<string>)

  /** The fields of the upload result the script reads. */
  datatype UploadResult = UploadResult(secureUrl: string, publicId: string)

  /** What the script did outside the database: the upload it requested, if it
      got that far, and its exit code. */
  datatype PublishOutcome = PublishOutcome(requested: Option<UploadRequest>, exitCode: int)

  /** A value inside a JavaScript template literal: an absent field reads "undefined". */
  function TemplateText(s: Option<string>): string {
    match s
    case Some(v) => v
    case None => "undefined"
  }

  /** `center-app-v${releaseData.version}`. */
  function ObjectId(data: ReleaseData): (id: string)
    ensures |id| >= |ObjectIdPrefix| && id[..|ObjectIdPrefix|] == ObjectIdPrefix
    ensures data.version.Some? ==> id[|ObjectIdPrefix|..] == data.version.value
    ensures data.version.None? ==> id == "center-app-vundefined"
  {
    ObjectIdPrefix + TemplateText(data.version)
  }

  /** Different versions get different object ids. */
  lemma ObjectIdsDiffer(a: ReleaseData, b: ReleaseData)
    requires a.version.Some? && b.version.Some? && a.version != b.version
    ensures ObjectId(a) != ObjectId(b)
  {
    assert ObjectId(a)[|ObjectIdPrefix|..] != ObjectId(b)[|ObjectIdPrefix|..];
  }

  function UploadRequestFor(apkPath: string, data: ReleaseData): UploadRequest {
    UploadRequest(apkPath, Raw, ReleaseFolder, ObjectId(data), UploadTags)
  }

  /** The document the script passes to `Release.create`: URL and id from the
      upload result, the file size, and `changelog`/`features` defaulted to []. */
  function ReleaseRecord(data: ReleaseData, result: UploadResult, fileSize: nat): (r: ReleaseInput)
    ensures r.version == data.version && r.versionCode == data.versionCode
    ensures r.apkUrl == Some(result.secureUrl) && r.apkCloudinaryId == Some(result.publicId)
    ensures r.apkSize == Some(fileSize as int)
    ensures r.changelog == Some(data.changelog.GetOr([])) && r.features == Some(data.features.GetOr([]))
    ensures data.changelog.None? ==> r.changelog == Some([])
    ensures data.features.None? ==> r.features == Some([])
    ensures r.screenshots.None? && r.iconUrl.None? && r.iconCloudinaryId.None?
    ensures r.minAndroidVersion.None? && r.targetAndroidVersion.None? && r.permissions.None?
  {
    ReleaseInput(
      version := data.version,
      versionCode := data.versionCode,
      apkUrl := Some(result.secureUrl),
      apkCloudinaryId := Some(result.publicId),
      apkSize := Some(fileSize),
      changelog := Some(data.changelog.GetOr([])),
      features := Some(data.features.GetOr([])),
      screenshots := None,
      iconUrl := None,
      iconCloudinaryId := None,
      minAndroidVersion := None,
      targetAndroidVersion := None,
      permissions := None)
  }

  /** `uploadRelease(apkPath, releaseData)`. A missing file fails before any upload
      or database write; a failed upload fails before any database write; after
      the upload the script clears every latest flag before the insert, so a
      failed insert leaves no release latest. */
  function Publish(db: Registry.Db, apkPath: string, fileExists: bool, fileSize: nat,
                   data: ReleaseData, upload: Option<UploadResult>, now: Time): (r: (Registry.Db, PublishOutcome))
    ensures r.1.exitCode == 0 || r.1.exitCode == 1
    ensures !fileExists ==> r.0 == db && r.1 == PublishOutcome(None, 1)
    ensures fileExists ==> r.1.requested == Some(UploadRequest(apkPath, Raw, "center-app/releases", ObjectId(data), UploadTags))
    ensures upload.None? ==> r.0 == db && r.1.exitCode == 1
    ensures r.1.exitCode == 0 <==>
      fileExists && upload.Some? && Present(data.version) && data.versionCode.Some? &&
      upload.value.secureUrl != "" && upload.value.publicId != ""
    ensures |r.0.releases| >= |db.releases|
    ensures fileExists && upload.Some? ==>
      forall i :: 0 <= i < |db.releases| ==> r.0.releases[i] == db.releases[i].(isLatest := false)
    ensures r.1.exitCode == 0 ==>
      |r.0.releases| == |db.releases| + 1 &&
      var rec := r.0.releases[|db.releases|];
      rec.apkUrl == upload.value.secureUrl && rec.apkCloudinaryId == upload.value.publicId &&
      rec.apkSize == Some(fileSize as int) &&
      rec.version == data.version.value && rec.versionCode == data.versionCode.value &&
      rec.changelog == data.changelog.GetOr([]) && rec.features == data.features.GetOr([]) &&
      rec.isLatest && rec.isActive && rec.downloadCount == 0
    ensures r.1.exitCode == 1 && fileExists && upload.Some? ==>
      |r.0.releases| == |db.releases| && forall x :: x in r.0.releases ==> !x.isLatest
    ensures r.0.downloads == db.downloads && r.0.destroyed == db.destroyed
  {
    if !fileExists then (db, PublishOutcome(None, 1))
    else
      var requested := Some(UploadRequestFor(apkPath, data));
      match upload
      case None => (db, PublishOutcome(requested, 1))
      case Some(result) =>
        var (db', resp) := Registry.Create(db, ReleaseRecord(data, result, fileSize), now);
        (db', PublishOutcome(requested, if resp.Created? then 0 else 1))
  }

  /** The script run against the store: the same steps in order, ending in the
      state and outcome `Publish` describes. */
  method UploadRelease(store: Store.ReleaseStore, apkPath: string, fileExists: bool, fileSize: nat,
                       data: ReleaseData, upload: Option<UploadResult>, now: Time)
    returns (requested: Option<UploadRequest>, exitCode: int)
    modifies store
    ensures old(store.Valid()) ==> store.Valid()
    ensures (store.State(), PublishOutcome(requested, exitCode)) ==
            Publish(old(store.State()), apkPath, fileExists, fileSize, data, upload, now)
  {
    if !fileExists {
      return None, 1;
    }
    requested := Some(UploadRequestFor(apkPath, data));
    if upload.None? {
      return requested, 1;
    }
    var resp := store.CreateRelease(ReleaseRecord(data, upload.value, fileSize), now);
    exitCode := if resp.Created? then 0 else 1;
  }
}
