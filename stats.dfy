/** GET /api/stats/downloads of server.js: the number of downloads, the
    downloads grouped by version, and the most recent downloads. */
module Stats {
  import opened Types
  import opened Seqs
  import Registry

  /** `.limit(10)` of the recent-downloads query. */
  const RecentLimit: nat := 10

  /** One row of the `$group` stage: a version and how many downloads it has. */
  datatype VersionCount = VersionCount(version: string, count: nat)

  function VersionTag(e: VersionCount): string {
    e.version
  }

  function EntryCount(e: VersionCount): int {
    e.count
  }

  /** The number of downloads of version `v`. */
  function CountOf(ds: seq<Download>, v: string): nat {
    if ds == [] then 0
    else (if ds[0].version == v then 1 else 0) + CountOf(ds[1..], v)
  }

  /** Appending a download adds one to its own version's count and leaves the
      other versions' counts alone. */
  lemma {:induction false} CountOfAppend(ds: seq<Download>, d: Download, v: string)
    ensures CountOf(ds + [d], v) == CountOf(ds, v) + (if d.version == v then 1 else 0)
  {
    if ds != [] {
      CountOfAppend(ds[1..], d, v);
      assert (ds + [d])[1..] == ds[1..] + [d];
    }
  }

  /** The count a grouping lists for `v`, or 0 when `v` has no row. */
  function CountIn(g: seq<VersionCount>, v: string): (r: nat)
    ensures r != 0 ==> exists i :: 0 <= i < |g| && g[i].version == v
    ensures DistinctBy(g, VersionTag) ==> forall i :: 0 <= i < |g| && g[i].version == v ==> r == g[i].count
  {
    if g == [] then 0
    else if g[0].version == v then g[0].count
    else
      var r := CountIn(g[1..], v);
      assert DistinctBy(g, VersionTag) ==> DistinctBy(g[1..], VersionTag) by {
        if DistinctBy(g, VersionTag) { TailDistinct(g); }
      }
      r
  }

  lemma TailDistinct(g: seq<VersionCount>)
    requires g != [] && DistinctBy(g, VersionTag)
    ensures DistinctBy(g[1..], VersionTag)
  {
    forall i, j | 0 <= i < j < |g[1..]| ensures VersionTag(g[1..][i]) != VersionTag(g[1..][j]) {
      assert g[1..][i] == g[i + 1] && g[1..][j] == g[j + 1];
    }
  }

  /** `$sum: 1` for one more download of version `v`: its row goes up by one, or a
      new row with count 1 is added at the end. */
  function Bump(g: seq<VersionCount>, v: string): (r: seq<VersionCount>)
    ensures forall w :: CountIn(r, w) == CountIn(g, w) + (if w == v then 1 else 0)
    ensures forall i :: 0 <= i < |r| ==> r[i].version == v || exists j :: 0 <= j < |g| && g[j].version == r[i].version
  {
    if g == [] then [VersionCount(v, 1)]
    else if g[0].version == v then [g[0].(count := g[0].count + 1)] + g[1..]
    else
      var rest := Bump(g[1..], v);
      assert ([g[0]] + rest)[1..] == rest;
      [g[0]] + rest
  }

  lemma {:induction false} BumpSum(g: seq<VersionCount>, v: string)
    ensures SumOf(Bump(g, v), EntryCount) == SumOf(g, EntryCount) + 1
  {
    var r := Bump(g, v);
    if g == [] {
    } else if g[0].version == v {
      assert r[1..] == g[1..];
    } else {
      BumpSum(g[1..], v);
      assert r[1..] == Bump(g[1..], v);
    }
  }

  /** Bumping keeps one row per version. */
  lemma {:induction false} BumpKeepsDistinct(g: seq<VersionCount>, v: string)
    requires DistinctBy(g, VersionTag)
    ensures DistinctBy(Bump(g, v), VersionTag)
  {
    if g != [] && g[0].version != v {
      TailDistinct(g);
      var rest := Bump(g[1..], v);
      BumpKeepsDistinct(g[1..], v);
      assert Bump(g, v) == [g[0]] + rest;
      forall j | 0 <= j < |rest| ensures rest[j].version != g[0].version {
        if rest[j].version != v {
          var k :| 0 <= k < |g[1..]| && g[1..][k].version == rest[j].version;
          assert g[k + 1].version == rest[j].version;
        }
      }
    } else if g != [] {
      assert Bump(g, v)[1..] == g[1..];
    }
  }

  /** Bumping keeps every row's count positive. */
  lemma {:induction false} BumpKeepsPositive(g: seq<VersionCount>, v: string)
    requires forall i :: 0 <= i < |g| ==> g[i].count > 0
    ensures forall i :: 0 <= i < |Bump(g, v)| ==> Bump(g, v)[i].count > 0
  {
    if g != [] && g[0].version != v {
      BumpKeepsPositive(g[1..], v);
      assert Bump(g, v) == [g[0]] + Bump(g[1..], v);
    } else if g != [] {
      assert Bump(g, v)[1..] == g[1..];
    }
  }

  /** The `$group: {_id: '$version', count: {$sum: 1}}` stage, before sorting:
      one row per downloaded version, with its number of downloads. */
  function Tally(ds: seq<Download>): (r: seq<VersionCount>)
    ensures DistinctBy(r, VersionTag)
    ensures forall v :: CountIn(r, v) == CountOf(ds, v)
    ensures forall i :: 0 <= i < |r| ==> r[i].count > 0
    ensures SumOf(r, EntryCount) == |ds|
  {
    if ds == [] then []
    else
      var g := Tally(ds[1..]);
      BumpSum(g, ds[0].version);
      BumpKeepsDistinct(g, ds[0].version);
      BumpKeepsPositive(g, ds[0].version);
      Bump(g, ds[0].version)
  }

  /** `byVersion`: the grouping sorted by count, largest first. Each downloaded
      version appears exactly once with its number of downloads, and the counts
      add up to the number of downloads. */
  function ByVersion(ds: seq<Download>): (r: seq<VersionCount>)
    ensures SortedDesc(r, EntryCount)
    ensures DistinctBy(r, VersionTag)
    ensures forall e :: e in r ==> e.count == CountOf(ds, e.version) && e.count > 0
    ensures forall v :: CountOf(ds, v) > 0 ==> exists e :: e in r && e.version == v
    ensures SumOf(r, EntryCount) == |ds|
  {
    var g := Tally(ds);
    var r := SortDesc(g, EntryCount);
    SortKeepsDistinct(g, EntryCount, VersionTag);
    SortKeepsSum(g, EntryCount, EntryCount);
    assert forall e :: e in r ==> e.count == CountOf(ds, e.version) && e.count > 0 by {
      forall e | e in r ensures e.count == CountOf(ds, e.version) && e.count > 0 {
        assert e in multiset(g);
        var i :| 0 <= i < |g| && g[i] == e;
        assert CountIn(g, e.version) == e.count;
      }
    }
    assert forall v :: CountOf(ds, v) > 0 ==> exists e :: e in r && e.version == v by {
      forall v | CountOf(ds, v) > 0 ensures exists e :: e in r && e.version == v {
        assert CountIn(g, v) != 0;
        var i :| 0 <= i < |g| && g[i].version == v;
        assert g[i] in multiset(r);
      }
    }
    r
  }

  /** The populated `releaseId` of a recent download: the fields `version` and
      `appName` of the release it refers to. */
  datatype ReleaseRef = ReleaseRef(id: Id, version: string, appName: string)

  /** One entry of `recent`: the download, with its release when that still exists. */
  datatype RecentEntry = RecentEntry(download: Download, release: Option<ReleaseRef>)

  /** `.populate('releaseId', 'version appName')` for one download: the entry
      carries the `version` and `appName` of the release the download refers to,
      or nothing once that release has been deleted. */
  function Populate(d: Download, rs: seq<Release>): (r: RecentEntry)
    ensures r.download == d
    ensures r.release.None? <==> forall x :: x in rs ==> x.id != d.releaseId
    ensures r.release.Some? ==>
      exists x :: x in rs && x.id == d.releaseId && r.release.value == ReleaseRef(x.id, x.version, x.appName)
  {
    match Registry.FindById(rs, d.releaseId)
    case None => RecentEntry(d, None)
    case Some(i) =>
      assert rs[i] in rs;
      RecentEntry(d, Some(ReleaseRef(rs[i].id, rs[i].version, rs[i].appName)))
  }

  /** `.sort({downloadedAt: -1}).limit(10)`: the ten newest downloads, newest
      first; every download left out is no newer than any kept. */
  function Newest(ds: seq<Download>): (r: seq<Download>)
    ensures |r| == if |ds| <= RecentLimit then |ds| else RecentLimit
    ensures SortedDesc(r, DownloadedAtOf)
    ensures forall d :: d in r ==> d in ds
    ensures multiset(r) <= multiset(ds)
    ensures forall d :: d in ds && d !in r ==> forall e :: e in r ==> e.downloadedAt >= d.downloadedAt
  {
    var ranked := SortDesc(ds, DownloadedAtOf);
    var r := Take(ranked, RecentLimit);
    assert forall d :: d in ds && d !in r ==> forall e :: e in r ==> e.downloadedAt >= d.downloadedAt by {
      forall d | d in ds && d !in r ensures forall e :: e in r ==> e.downloadedAt >= d.downloadedAt {
        assert d in multiset(ranked);
        TakeKeepsTop(ranked, DownloadedAtOf, RecentLimit, d);
      }
    }
    assert forall d :: d in r ==> d in ds by {
      forall d | d in r ensures d in ds {
        assert d in multiset(ranked);
      }
    }
    r
  }

  /** The downloads of a list of populated entries, in order. */
  function DownloadsOf(es: seq<RecentEntry>): (r: seq<Download>)
    ensures |r| == |es|
    ensures forall i :: 0 <= i < |es| ==> r[i] == es[i].download
  {
    seq(|es|, i requires 0 <= i < |es| => es[i].download)
  }

  /** `.populate(...)` over a list of downloads. */
  function PopulateAll(ds: seq<Download>, rs: seq<Release>): (r: seq<RecentEntry>)
    ensures |r| == |ds|
    ensures forall i :: 0 <= i < |r| ==> r[i] == Populate(ds[i], rs) && r[i].download == ds[i]
    ensures DownloadsOf(r) == ds
  {
    if ds == [] then [] else [Populate(ds[0], rs)] + PopulateAll(ds[1..], rs)
  }

  /** `recent`: the ten most recent downloads, newest first, each with its release. */
  function Recent(ds: seq<Download>, rs: seq<Release>): (r: seq<RecentEntry>)
    ensures |r| == if |ds| <= RecentLimit then |ds| else RecentLimit
    ensures forall i :: 0 <= i < |r| ==> r[i] == Populate(r[i].download, rs)
    ensures multiset(DownloadsOf(r)) <= multiset(ds)
    ensures SortedDesc(DownloadsOf(r), DownloadedAtOf)
    ensures forall d :: d in ds && d !in DownloadsOf(r) ==>
              forall e :: e in DownloadsOf(r) ==> e.downloadedAt >= d.downloadedAt
  {
    var newest := Newest(ds);
    var r := PopulateAll(newest, rs);
    assert DownloadsOf(r) == newest;
    r
  }

  /** The `stats` object of the route. */
  datatype DownloadStats = DownloadStats(total: nat, byVersion: seq<VersionCount>, recent: seq<RecentEntry>)

  /** GET /api/stats/downloads: read-only; the per-version counts add up to the
      total, and an empty Downloads collection gives zero aggregates. */
  function Stats(db: Registry.Db): (r: DownloadStats)
    ensures r.total == |db.downloads|
    ensures SumOf(r.byVersion, EntryCount) == r.total
    ensures |r.recent| <= RecentLimit && |r.recent| <= r.total
    ensures r.total == 0 <==> r.byVersion == [] && r.recent == []
    ensures r.byVersion == ByVersion(db.downloads) && r.recent == Recent(db.downloads, db.releases)
  {
    var byVersion := ByVersion(db.downloads);
    assert db.downloads != [] ==> byVersion != [] by {
      if db.downloads != [] {
        assert CountOf(db.downloads, db.downloads[0].version) > 0;
      }
    }
    DownloadStats(|db.downloads|, byVersion, Recent(db.downloads, db.releases))
  }
}
