/** Records of the release registry: the two collections (Release, Download),
    the request body of the create route and the outcome of a route handler. */
module Types {

  datatype Option<T> = None | Some(value: T) {
    /** The value, or `default` when absent (JavaScript's `x || default` on an array). */
    function GetOr(default: T): T {
      match this
      case Some(v) => v
      case None => default
    }
  }

  /** Document ids (MongoDB ObjectIds), abstracted to naturals. */
  type Id = nat

  /** Timestamps (`Date.now`), abstracted to naturals supplied by the caller. */
  type Time = nat

  // Schema defaults of the Release collection.
  const DefaultAppName := "Center App"
  const DefaultMinAndroidVersion := "5.0"
  const DefaultTargetAndroidVersion := "14"
  const DefaultPackageName := "com.center.app"

  /** An optional string that is there and not "": what a Mongoose `required`
      String accepts, and also JavaScript truthiness of a string field. */
  predicate Present(s: Option<string>) {
    s.Some? && s.value != ""
  }

  datatype Screenshot = Screenshot(url: Option<string>, cloudinaryId: Option<string>, caption: Option<string>)

  /** One published version of the application. */
  datatype Release = Release(
    id: Id,
    appName: string,
    version: string,
    versionCode: int,
    releaseDate: Time,
    apkUrl: string,
    apkCloudinaryId: string,
    apkSize: Option<int>,
    changelog: seq<string>,
    features: seq<string>,
    screenshots: seq<Screenshot>,
    iconUrl: Option<string>,
    iconCloudinaryId: Option<string>,
    downloadCount: nat,
    isLatest: bool,
    isActive: bool,
    minAndroidVersion: string,
    targetAndroidVersion: string,
    permissions: seq<string>,
    packageName: string)

  /** A stored release passes the schema's required-field validation. */
  predicate WellFormed(r: Release) {
    r.appName != "" && r.version != "" && r.apkUrl != "" && r.apkCloudinaryId != ""
  }

  /** Active and flagged latest: what the latest route looks for. */
  predicate IsCurrent(r: Release) {
    r.isActive && r.isLatest
  }

  /** Visible in the public listing. */
  predicate IsActiveRelease(r: Release) {
    r.isActive
  }

  function VersionCodeOf(r: Release): int {
    r.versionCode
  }

  /** One download event. */
  datatype Download = Download(
    id: Id,
    releaseId: Id,
    version: string,
    ipAddress: Option<string>,
    userAgent: Option<string>,
    country: Option<string>,
    downloadedAt: Time)

  function DownloadedAtOf(d: Download): int {
    d.downloadedAt
  }

  /** The fields the create route reads from its request body; any may be absent. */
  datatype ReleaseInput = ReleaseInput(
    version: Option<string>,
    versionCode: Option<int>,
    apkUrl: Option<string>,
    apkCloudinaryId: Option<string>,
    apkSize: Option<int>,
    changelog: Option<seq<string>>,
    features: Option<seq<string>>,
    screenshots: Option<seq<Screenshot>>,
    iconUrl: Option<string>,
    iconCloudinaryId: Option<string>,
    minAndroidVersion: Option<string>,
    targetAndroidVersion: Option<string>,
    permissions: Option<seq<string>>)

  /** The schema's required fields are all there. */
  predicate HasRequired(input: ReleaseInput) {
    Present(input.version) && input.versionCode.Some? &&
    Present(input.apkUrl) && Present(input.apkCloudinaryId)
  }

  /** The outcome of a route handler: 200, 201, 404 or 500. */
  datatype Response<T> = Ok(body: T) | Created(body: T) | NotFound | ServerError {
    function Status(): (code: int)
      ensures code in {200, 201, 404, 500}
      ensures code < 400 <==> (Ok? || Created?)
    {
      match this
      case Ok(_) => 200
      case Created(_) => 201
      case NotFound => 404
      case ServerError => 500
    }
  }

  /** Cloudinary resource types used by the routes. */
  datatype ResourceType = Raw | Image

  /** One `cloudinary.uploader.destroy` call. */
  datatype DestroyCall = DestroyCall(publicId: string, resourceType: ResourceType)
}
