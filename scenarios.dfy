/** Properties that relate several route calls of server.js to each other. */
module Scenarios {
  import opened Types
  import Registry
  import Queries
  import Stats

  /** After a successful create, the latest route returns exactly the record
      created, with the changelog, features and screenshots it was given. */
  lemma CreatedReleaseIsLatest(db: Registry.Db, input: ReleaseInput, now: Time)
    requires HasRequired(input)
    ensures var (db', resp) := Registry.Create(db, input, now);
      Queries.Latest(db'.releases) == Ok(resp.body) &&
      resp.body.changelog == input.changelog.GetOr([]) &&
      resp.body.features == input.features.GetOr([]) &&
      resp.body.screenshots == input.screenshots.GetOr([])
  {
    var (db', resp) := Registry.Create(db, input, now);
    var latest := Queries.Latest(db'.releases);
    assert db'.releases[|db.releases|] == resp.body;
    assert resp.body in db'.releases;
    var k :| 0 <= k < |db'.releases| && db'.releases[k] == latest.body;
  }

  /** Create A, then create B: the latest route returns B, whatever the two
      versionCodes are, and A is still stored, unchanged but for its latest flag. */
  lemma SecondCreateDemotesFirst(db: Registry.Db, a: ReleaseInput, b: ReleaseInput, t1: Time, t2: Time)
    requires HasRequired(a) && HasRequired(b)
    ensures var (db1, ra) := Registry.Create(db, a, t1);
      var (db2, rb) := Registry.Create(db1, b, t2);
      Queries.Latest(db2.releases) == Ok(rb.body) &&
      db2.releases[|db.releases|] == ra.body.(isLatest := false) &&
      rb.body.id != ra.body.id
  {
    var (db1, ra) := Registry.Create(db, a, t1);
    CreatedReleaseIsLatest(db1, b, t2);
  }

  /** A create whose input lacks a required field adds no record, but the flags
      were already cleared: the latest route now answers 404. */
  lemma FailedCreateLeavesNoLatest(db: Registry.Db, input: ReleaseInput, now: Time)
    requires !HasRequired(input)
    ensures var (db', resp) := Registry.Create(db, input, now);
      resp == ServerError && resp.Status() == 500 &&
      |db'.releases| == |db.releases| && db'.downloads == db.downloads &&
      Queries.Latest(db'.releases) == NotFound
  {
    var (db', resp) := Registry.Create(db, input, now);
    forall x | x in db'.releases ensures !IsCurrent(x) {
      var k :| 0 <= k < |db'.releases| && db'.releases[k] == x;
    }
  }

  /** Once a release is deleted from a valid store, downloading it answers 404. */
  lemma DeletedReleaseIsGone(db: Registry.Db, releaseId: Id, failsAt: Option<nat>, client: Registry.Client, now: Time)
    requires db.Valid() && Registry.Delete(db, releaseId, failsAt).1.Ok?
    ensures var db' := Registry.Delete(db, releaseId, failsAt).0;
      Registry.RecordDownload(db', releaseId, client, now).1 == NotFound
  {
    var db' := Registry.Delete(db, releaseId, failsAt).0;
    Registry.DeleteKeepsValid(db, releaseId, failsAt);
    forall k | 0 <= k < |db'.releases| ensures db'.releases[k].id != releaseId {
      assert db'.releases[k] in db'.releases;
    }
  }

  /** A successful download raises the stats total by one and the count of that
      release's version by one, and leaves every other version's count alone. */
  lemma DownloadShowsInStats(db: Registry.Db, releaseId: Id, client: Registry.Client, now: Time, v: string)
    requires Registry.RecordDownload(db, releaseId, client, now).1.Ok?
    ensures var (db', resp) := Registry.RecordDownload(db, releaseId, client, now);
      Stats.Stats(db').total == Stats.Stats(db).total + 1 &&
      Stats.CountOf(db'.downloads, v) == Stats.CountOf(db.downloads, v) + (if v == resp.body.version then 1 else 0)
  {
    var (db', resp) := Registry.RecordDownload(db, releaseId, client, now);
    var i :| 0 <= i < |db.releases| && db.releases[i].id == releaseId &&
      resp.body == Registry.DownloadBody(db.releases[i].apkUrl, db.releases[i].version, db.releases[i].apkSize) &&
      db'.downloads == db.downloads +
        [Download(db.nextId, releaseId, db.releases[i].version, client.ipAddress, client.userAgent, None, now)];
    Stats.CountOfAppend(db.downloads, db'.downloads[|db.downloads|], v);
  }
}
