/** backend/index.js: cleanupExpired, the sweep run at start-up and then every
    minute. It unlinks the file of every record whose expiry lies strictly
    before `now`, then deletes those records in one deleteMany. The timer is
    left to the caller, which passes the sweep's clock reading. */
module Reaper {
  import opened Js
  import opened VaultModel
  import opened Store
  import ViewRoute

  /** `{ expiresAt: { $lt: now } }` */
  predicate Lapsed(v: Vault, now: int) {
    v.expiresAt < now
  }

  function ExpiredIds(m: map<string, Vault>, now: int): (ids: set<string>)
    ensures forall k :: k in ids <==> k in m && Lapsed(m[k], now)
  {
    set k | k in m && Lapsed(m[k], now)
  }

  /** The files the records with ids `ids` point at. */
  function FilesOf(m: map<string, Vault>, ids: set<string>): (files: set<string>) {
    set k, f | k in ids && k in m && f in FileSet(m[k]) :: f
  }

  function ExpiredFiles(m: map<string, Vault>, now: int): set<string> {
    FilesOf(m, ExpiredIds(m, now))
  }

  /** The table after deleteMany: the records that have not lapsed, unchanged. */
  function Live(m: map<string, Vault>, now: int): (r: map<string, Vault>)
    ensures forall k :: k in r <==> k in m && !Lapsed(m[k], now)
    ensures forall k :: k in r ==> r[k] == m[k]
  {
    map k | k in m && !Lapsed(m[k], now) :: m[k]
  }

  /** deleteMany with the expiry filter leaves exactly the live records. */
  lemma LiveIsRemainder(m: map<string, Vault>, now: int)
    ensures m - ExpiredIds(m, now) == Live(m, now)
  {
  }

  lemma FilesOfStep(m: map<string, Vault>, ids: set<string>, k: string)
    requires k in m
    ensures FilesOf(m, ids + {k}) == FilesOf(m, ids) + FileSet(m[k])
  {
  }

  /** A file is unlinked by the sweep exactly when some lapsed record points
      at it. */
  lemma ExpiredFilesExact(m: map<string, Vault>, now: int, f: string)
    ensures f in ExpiredFiles(m, now) <==>
      exists k :: k in m && Lapsed(m[k], now) && HasFile(m[k]) && m[k].filePath.value == f
  {
    var ids := ExpiredIds(m, now);
    if f in ExpiredFiles(m, now) {
      var k :| k in ids && k in m && f in FileSet(m[k]);
      assert Lapsed(m[k], now) && HasFile(m[k]) && m[k].filePath.value == f;
    }
    if exists k :: k in m && Lapsed(m[k], now) && HasFile(m[k]) && m[k].filePath.value == f {
      var k :| k in m && Lapsed(m[k], now) && HasFile(m[k]) && m[k].filePath.value == f;
      assert k in ids && f in FileSet(m[k]);
    }
  }

  /** One sweep: afterwards exactly the unlapsed records remain, and exactly the
      files of the lapsed ones are gone. */
  method CleanupExpired(db: Db, now: int)
    requires db.Valid()
    modifies db
    ensures db.Valid()
    ensures db.vaults == Live(old(db.vaults), now)
    ensures db.blobs == old(db.blobs) - ExpiredFiles(old(db.vaults), now)
    ensures db.users == old(db.users)
  {
    var table := db.vaults;
    var expired := ExpiredIds(table, now);
    var pending := expired;
    ghost var done: set<string> := {};
    while pending != {}
      invariant done + pending == expired
      invariant db.vaults == table && db.users == old(db.users)
      invariant db.blobs == old(db.blobs) - FilesOf(table, done)
      decreases pending
    {
      var k :| k in pending;
      FilesOfStep(table, done, k);
      db.RemoveFile(table[k]);
      done := done + {k};
      pending := pending - {k};
    }
    assert done == expired;
    LiveIsRemainder(table, now);
    db.DeleteMany(expired);
  }

  /** A second sweep at the same instant finds nothing to do. */
  lemma CleanupIdempotent(m: map<string, Vault>, now: int)
    ensures Live(Live(m, now), now) == Live(m, now)
    ensures ExpiredIds(Live(m, now), now) == {}
    ensures ExpiredFiles(Live(m, now), now) == {}
  {
  }

  /** A later sweep removes at least what an earlier one would. */
  lemma LiveShrinks(m: map<string, Vault>, t1: int, t2: int)
    requires t1 <= t2
    ensures Live(m, t2).Keys <= Live(m, t1).Keys
    ensures Live(Live(m, t1), t2) == Live(m, t2)
  {
  }

  /** The sweep and the link handlers agree on what has expired: a record is
      swept at instant `now` exactly when a view or download at `now` would
      answer "Link expired". A record expiring at `now` itself survives both. */
  lemma SweepAgreesWithLink(m: map<string, Vault>, now: int, k: string, s: string, c: (string, string) -> bool)
    requires k in m
    ensures k !in Live(m, now) <==> ViewRoute.ViewCheck(m[k], now, s, c) == Some(ViewRoute.LinkExpired)
    ensures k !in Live(m, now) <==> ViewRoute.DownloadCheck(m[k], now, s, c) == Some(ViewRoute.LinkExpired)
    ensures m[k].expiresAt == now ==> k in Live(m, now)
  {
  }
}
