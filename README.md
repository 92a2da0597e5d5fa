# Release registry and download tracker

A Dafny model of the back end of the Center App store. It has two parts: the
Express/Mongoose server in `server.js` and the publishing script in
`upload-release.js`.

The server keeps two MongoDB collections, `Release` and `Download`. Its routes:

- **latest** returns the active release flagged as latest;
- **versions** lists the active releases;
- **download** records a download and bumps the release's counter;
- **stats** reports download statistics;
- **create** is the admin route that publishes a release;
- **delete** is the admin route that removes a release and its Cloudinary artifacts.

The publishing script uploads an APK to Cloudinary and inserts the release
record itself, using the same steps: clear the latest flags, then insert.

The model is laid out as follows.

- `Types` holds the records:
  - `Release`, with every schema field and its defaults;
  - `Download`;
  - the create route's request body `ReleaseInput`, where every field may be absent;
  - the handler outcome `Response` (200, 201, 404 or 500);
  - the Cloudinary `DestroyCall`.
- `Registry` is the store as a value, `Db`: both collections, the log of destroy
  calls, and the next id the database hands out.
  - Each mutating route is a transition `Db -> (Db, Response)`.
  - `Db.Valid` is the invariant the routes keep. Ids are unique. Every stored
    release passed the schema's required-field validation. At most one release
    is latest.
- `Store.ReleaseStore` is the same store as a mutable object. Its methods do the
  route's writes one at a time:
  - `updateMany` is a loop over the releases;
  - then an append, an in-place counter bump, or a removal.

  Each route method (`CreateRelease`, `Download`, `DeleteRelease`) is proved to
  end in exactly the state, and with exactly the response, of the matching
  `Registry` transition, and to keep `Valid`. The helpers `ClearLatest` and
  `DestroyArtifacts` state exactly what they change.
- `Queries` holds the read-only release routes and `Stats` the statistics route.
  Both are built from a generic filter / sort-descending / take toolkit in `Seqs`.
- `Publish` models `uploadRelease`. The file system and the upload are inputs:
  - whether the APK exists;
  - its size;
  - the upload result, or `None` when the upload throws.
- `Scenarios` relates several route calls:
  - after a create, latest returns the created release;
  - a failed create leaves no latest release;
  - a deleted release can no longer be downloaded;
  - a download shows up in the stats.

Two behaviours of the code are worth knowing:

- **Latest release.** The most recently created release becomes the only
  latest one, whatever its `versionCode` (server.js:237-255).
  `Scenarios.SecondCreateDemotesFirst` proves it.
- **Failed destroy.** The two Cloudinary destroys run one after the other, and
  either can throw. A destroy that throws ends the handler with a 500 before
  `findByIdAndDelete` runs, so the record stays (server.js:280-288, 295-298).
  The record stays even when the APK destroy succeeded and only the icon
  destroy threw, although the APK it points to is then gone. The model takes
  the position of the first destroy that throws as an input (`failsAt`).

## Model

| member | source | states |
|---|---|---|
| Types.Response.Status | server.js:116-125 | every handler outcome is 200, 201, 404 or 500, and it is below 400 exactly for a success |
| Registry.FindById | server.js:152-155 | `findById`: absent exactly when no release has the id; otherwise a position holding that id, the first one |
| Registry.ClearLatest | server.js:237 | `updateMany({}, {isLatest: false})`: same releases in the same order, each with its latest flag cleared and nothing else changed |
| Registry.NewRelease | server.js:239-255 | `Release.create`: a record exists exactly when version, versionCode, apkUrl and apkCloudinaryId are present (non-empty strings). The record is well formed, has the next id and the given date, is latest and active with 0 downloads. It copies version, versionCode, apkUrl, apkCloudinaryId, apkSize, iconUrl and iconCloudinaryId from the body. Changelog, features, screenshots and permissions default to []. appName is 'Center App' and packageName 'com.center.app'. minAndroidVersion and targetAndroidVersion come from the body, or default to '5.0' and '14' |
| Registry.Create | server.js:218-267 | 201 exactly when the required fields are present, else 500. Every previous release is kept with its latest flag cleared. On success one record is appended: exactly the `NewRelease` record built from the request with the next id and the given date, so it carries the request's version, versionCode, apkUrl and apkCloudinaryId and is latest and active with downloadCount 0. The id counter moves on by one. Afterwards a release is latest exactly when it is the one just created, so a failed create leaves none latest. Downloads are untouched |
| Registry.CreateKeepsValid | server.js:237-255 | a create keeps ids unique, records well formed and at most one release latest |
| Registry.RecordDownload | server.js:148-182 | an unknown id gives 404 and changes nothing. A known id appends exactly one Download with that release's id and version and the client's ip and user agent. It raises that release's downloadCount by one, leaves every other release as it was, and returns the release's apkUrl, version and apkSize. A 500 comes only from a stored release with an empty version |
| Registry.DownloadAt | server.js:152-176 | in a valid store, downloading a stored release always succeeds, with exactly that new state, and the store stays valid |
| Registry.DownloadKeepsValid | server.js:158-167 | a download keeps the store valid and, in a valid store, never answers 500 |
| Registry.DownloadsAddUp | server.js:158-167 | N sequential downloads of one release, by any clients at any times, raise its downloadCount by exactly N. They append exactly N Download records for it after the old ones, change no other release, and keep the store valid |
| Registry.DestroyCalls | server.js:280-285 | a raw destroy of the APK id is issued exactly when that id is truthy, and it comes first. An image destroy of the icon id is issued when that id is truthy. Nothing else is destroyed |
| Registry.RemoveAt | server.js:288 | the releases before the position stay, and those after it move down by one |
| Registry.Delete | server.js:270-299 | an unknown id gives 404 and changes nothing. If the destroy at position `failsAt` is one of the release's calls, it throws: that call and those before it are logged, the record stays, and 500 is returned. Otherwise every destroy call is logged, the record at that id is removed and 200 is returned. With no destroy throwing there is never a 500. Downloads and the id counter never change |
| Registry.DeleteKeepsValid | server.js:274-288 | a delete keeps the store valid, and a successful one leaves exactly the releases whose id differs from the deleted one |
| Registry.RemoveAtKeepsOk | server.js:288 | removing one release keeps ids unique and at most one latest; the remaining releases are exactly those with another id |
| Seqs.SortDesc | server.js:132-134 | the result is sorted by the key, largest first, and is a permutation of the input |
| Seqs.TakeKeepsTop | server.js:133-134 | after sorting descending and taking a prefix, every element left out has a key no larger than every element kept |
| Queries.Latest | server.js:110-127 | 404 exactly when no release is both active and latest. Otherwise the answer is a stored release that is active and latest, and no such release has a higher versionCode |
| Queries.Versions | server.js:130-145 | only stored active releases, each listed at most as often as it is stored (a sub-multiset of the active releases), sorted by versionCode descending, at most 10. `total` equals the list's length, which is min(10, number of active releases). Every active release left out has a versionCode no higher than any listed one |
| Stats.CountOfAppend | server.js:158-163 | one more Download adds one to its own version's count and leaves every other version's count alone |
| Stats.Bump | server.js:190-193 | `$sum: 1` for one download raises that version's row by one (or adds a row) and leaves every other row's count alone |
| Stats.Tally | server.js:188-194 | the `$group` stage: one row per downloaded version, each with that version's exact number of downloads (positive), and the rows add up to the number of downloads |
| Stats.ByVersion | server.js:188-196 | sorted by count descending; each version listed once, with its exact count; every downloaded version listed; the counts add up to the number of downloads |
| Stats.Populate | server.js:201 | a recent download carries the version and appName of the release it refers to, or nothing exactly when that release no longer exists |
| Stats.Newest | server.js:198-200 | min(10, number of downloads) downloads, newest first, a sub-multiset of the stored downloads, so none is listed twice. Every download left out is no newer than any kept |
| Stats.Recent | server.js:198-201 | min(10, number of downloads) entries. Each is a download populated with its release. The entries' downloads are a sub-multiset of the stored ones, sorted newest first, and every download left out is no newer than any listed |
| Stats.Stats | server.js:185-215 | read-only. `total` is the number of downloads, the byVersion counts add up to it, `recent` has at most 10 entries, and an empty collection gives empty lists. `byVersion` and `recent` are exactly the `ByVersion` grouping and the `Recent` list, with the promises stated in those rows |
| Store.ReleaseStore.constructor | server.js:81-93 | empty Release and Download collections, which satisfy the invariant |
| Store.ReleaseStore.ClearLatest | server.js:237 | the loop clears every latest flag in place and changes nothing else |
| Store.ReleaseStore.CreateRelease | server.js:218-267 | clear, then insert, in place: the new state and the response are those of `Registry.Create`, and the invariant is kept |
| Store.ReleaseStore.Download | server.js:148-182 | insert the Download, then bump the counter in place: the new state and the response are those of `Registry.RecordDownload`, and the invariant is kept |
| Store.ReleaseStore.DestroyArtifacts | server.js:280-285 | the APK destroy, then the icon destroy, each issued only when its id is truthy. The call at position `failsAt` throws, and no call after it is issued. It reports a throw exactly when `failsAt` names one of the calls, and logs the calls issued up to and including the one that threw. The collections are unchanged |
| Store.ReleaseStore.DeleteRelease | server.js:270-299 | destroy the APK, then the icon, then remove the record: the new state and the response are those of `Registry.Delete`, and the invariant is kept |
| Publish.ObjectId | upload-release.js:73 | the Cloudinary public id is "center-app-v" followed by the version, or "center-app-vundefined" when the version is absent |
| Publish.ObjectIdsDiffer | upload-release.js:73 | different versions give different public ids |
| Publish.ReleaseRecord | upload-release.js:84-94 | the record the script inserts takes its version and versionCode from the release data. Its apkUrl and apkCloudinaryId come from the upload result's secure URL and public id, and its apkSize is the file size. Changelog and features are the data's, or [] when absent. Screenshots, icon and the Android fields are left to the schema defaults |
| Publish.Publish | upload-release.js:54-108 | a missing file fails with exit code 1 before any upload or write. The upload asks for the raw APK in center-app/releases under `ObjectId`, with the three tags. A failed upload exits 1 with no write. After the upload every stored release loses its latest flag. The exit code is 0 exactly when the file exists, the upload succeeded and the record has its required fields. The new record then takes its URL and id from the upload result and its size from the file, defaults changelog and features to [], and is latest and active. A failed insert leaves no release latest |
| Publish.UploadRelease | upload-release.js:54-108 | the script's steps against the store end in the state and outcome `Publish` describes, and keep the invariant |
| Scenarios.CreatedReleaseIsLatest | server.js:237-255 | after a successful create, the latest route returns exactly the created record, with the changelog, features and screenshots it was given |
| Scenarios.SecondCreateDemotesFirst | server.js:237-255 | after creating A and then B, latest returns B whatever the two versionCodes are. A is still stored, with only its latest flag cleared |
| Scenarios.FailedCreateLeavesNoLatest | server.js:237-265 | a create missing a required field answers 500 and adds nothing, but the flags were already cleared, so latest answers 404 |
| Scenarios.DeletedReleaseIsGone | server.js:274-288 | once a release is deleted from a valid store, downloading it answers 404 |
| Scenarios.DownloadShowsInStats | server.js:158-163 | a successful download raises the stats total by one and the count of its version by one, and no other version's count changes |

## Left out

- HTTP plumbing:
  - the Express middleware;
  - `app.listen`;
  - the 404 and 500 fallback handlers;
  - response bodies other than the payloads above (`success` flags, messages).

  Handlers are modelled by their outcome (`Response`) only.
- The health check and the database connections in both files. These are I/O state outside the model.
- Failures of the database itself (a lost connection, a failed write). The only 500s modelled come from schema validation and from a Cloudinary destroy that throws.
- The Cloudinary SDK. A destroy becomes an entry appended to a log. Which destroy throws, if any, is a parameter (`failsAt`); how it fails, such as a timeout or a missing object, is not modelled. An upload becomes an input record, or `None` when it throws.
- The file system. Whether the APK exists and its size are parameters.
- `console` logging and the `toFixed` megabyte formatting, which are floating-point display only.
- Concurrency. Routes run one at a time, so the non-atomic clear-then-insert and the read-modify-write of `downloadCount` are modelled sequentially.
- `Date.now` and Mongo-generated ObjectIds. They are naturals: the store hands out ids from a counter, and the caller supplies timestamps.
- `createdAt`/`updatedAt` timestamps and the `country` field. No route sets `country`, so it is always absent.
- JavaScript Numbers. `versionCode`, `apkSize` and `downloadCount` are doubles in the code and unbounded integers in the model. Fractional values, which the schema's `Number` accepts, are not modelled. The counter bump `downloadCount += 1` is exact only below 2^53, so `Registry.DownloadsAddUp`'s "exactly N" holds only while the count stays below that bound.
- Mongoose casting. A malformed id string, a non-numeric `versionCode`, and fields of the wrong type are out of the model: the request body is typed.
- The order among equal keys. This covers releases with the same versionCode, downloads with the same timestamp, and `byVersion` rows with the same count. The code leaves it unspecified, and the model fixes one order without promising it.
- The order in which `$group` lists its rows before the sort. `Stats.Tally` fixes one, and only the sorted result is specified.
- The request-side lookup of the client (`req.ip`, the user-agent header). It is the `Client` input.
- `process.exit` is an output value (`exitCode`) of the publish step. The script's top-level call with its hard-coded release data and APK path is not part of this model.
