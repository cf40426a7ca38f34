/** backend/routes/account.js: the signed-in owner's listing of their vaults
    (GET /me/vaults) and deletion of one of them (DELETE /me/vaults/:id). Both
    run behind RequireAuth; `uid` is the id of the claims it stored. */
module Account {
  import opened Js
  import opened VaultModel
  import opened Store

  /** The listed projection of a record. */
  datatype Summary = Summary(
    id: string,
    kind: Kind,
    createdAt: int,
    expiresAt: int,
    oneTime: bool,
    maxViews: Option<int>,
    maxDownloads: Option<int>,
    viewCount: nat,
    downloadCount: nat)

  /** `.select("id type createdAt expiresAt oneTime maxViews maxDownloads viewCount
      downloadCount")`: exactly these nine fields, unchanged. */
  function Summarize(v: Vault): (s: Summary)
    ensures s.id == v.id && s.kind == v.kind && s.createdAt == v.createdAt && s.expiresAt == v.expiresAt
    ensures s.oneTime == v.oneTime && s.maxViews == v.maxViews && s.maxDownloads == v.maxDownloads
    ensures s.viewCount == v.viewCount && s.downloadCount == v.downloadCount
  {
    Summary(v.id, v.kind, v.createdAt, v.expiresAt, v.oneTime, v.maxViews, v.maxDownloads,
            v.viewCount, v.downloadCount)
  }

  /** The listing reveals nothing else: the content, the password hash, the file
      details, the consumption instant and the owner never reach it. */
  lemma SummaryHidesSecrets(v: Vault, content: Option<string>, hash: Option<string>, path: Option<string>,
                            name: Option<string>, size: Option<int>, mime: Option<string>,
                            consumedAt: Option<int>, owner: Option<string>)
    ensures Summarize(v.(content := content, passwordHash := hash, filePath := path, fileName := name,
                         fileSize := size, mimeType := mime, consumedAt := consumedAt, ownerId := owner))
            == Summarize(v)
  {
  }

  /** `sort({ createdAt: -1 })`: newest first (ties in any order). */
  predicate NewestFirst(s: seq<Summary>) {
    forall i, j :: 0 <= i < j < |s| ==> s[i].createdAt >= s[j].createdAt
  }

  /** No summary occurs twice. */
  ghost predicate NoRepeats(s: seq<Summary>) {
    forall y :: multiset(s)[y] <= 1
  }

  /** Places `x` in a newest-first sequence, keeping it newest first. */
  function InsertNewest(s: seq<Summary>, x: Summary): (r: seq<Summary>)
    requires NewestFirst(s)
    ensures NewestFirst(r)
    ensures multiset(r) == multiset(s) + multiset{x}
    decreases |s|
  {
    if s == [] || x.createdAt >= s[0].createdAt then
      InsertFront(s, x);
      [x] + s
    else
      var rest := InsertNewest(s[1..], x);
      InsertBehind(s, x, rest);
      [s[0]] + rest
  }

  /** A newest-first sequence stays so under a head no older than any element. */
  lemma PrependNewest(h: Summary, rest: seq<Summary>)
    requires NewestFirst(rest)
    requires forall y :: y in rest ==> y.createdAt <= h.createdAt
    ensures NewestFirst([h] + rest)
  {
    var r := [h] + rest;
    forall i, j | 0 <= i < j < |r| ensures r[i].createdAt >= r[j].createdAt {
      assert r[j] == rest[j - 1];
      if i > 0 {
        assert r[i] == rest[i - 1];
      }
    }
  }

  /** In a newest-first sequence the head is no older than any element. */
  lemma HeadIsNewest(s: seq<Summary>)
    requires NewestFirst(s) && s != []
    ensures forall y :: y in s ==> y.createdAt <= s[0].createdAt
  {
    forall y | y in s ensures y.createdAt <= s[0].createdAt {
      var j :| 0 <= j < |s| && s[j] == y;
    }
  }

  lemma InsertFront(s: seq<Summary>, x: Summary)
    requires NewestFirst(s) && (s == [] || x.createdAt >= s[0].createdAt)
    ensures NewestFirst([x] + s)
  {
    if s != [] {
      HeadIsNewest(s);
    }
    PrependNewest(x, s);
  }

  lemma InsertBehind(s: seq<Summary>, x: Summary, rest: seq<Summary>)
    requires NewestFirst(s) && s != [] && x.createdAt < s[0].createdAt
    requires NewestFirst(rest) && multiset(rest) == multiset(s[1..]) + multiset{x}
    ensures NewestFirst([s[0]] + rest)
    ensures multiset([s[0]] + rest) == multiset(s) + multiset{x}
  {
    var head, tail := s[0], s[1..];
    HeadIsNewest(s);
    forall y | y in rest ensures y.createdAt <= head.createdAt {
      assert y in multiset(rest);
      assert y == x || y in multiset(tail);
    }
    assert s == [head] + tail;
    PrependNewest(head, rest);
  }

  /** What an insertion adds: x, and nothing else; a new x keeps repeats out. */
  lemma InsertedMembers(s: seq<Summary>, x: Summary, r: seq<Summary>)
    requires multiset(r) == multiset(s) + multiset{x}
    ensures forall y :: y in r <==> y in s || y == x
    ensures NoRepeats(s) && x !in s ==> NoRepeats(r)
  {
    forall y ensures y in r <==> y in s || y == x {
      assert y in r <==> y in multiset(r);
      assert y in s <==> y in multiset(s);
    }
    if NoRepeats(s) && x !in s {
      forall y ensures multiset(r)[y] <= 1 {
        assert multiset(r)[y] == multiset(s)[y] + multiset{x}[y];
        if y == x {
          assert multiset(s)[y] == 0;
        }
      }
    }
  }

  lemma RepeatCounts(s: seq<Summary>, i: nat, j: nat)
    requires i < j < |s| && s[i] == s[j]
    ensures multiset(s)[s[i]] >= 2
  {
    assert s == s[..j] + s[j..];
    assert s[i] in s[..j];
    assert s[j] in s[j..];
  }

  /** Summaries determined by their id, none repeated, have distinct ids. */
  lemma DistinctIds(items: seq<Summary>, m: map<string, Vault>)
    requires NoRepeats(items)
    requires forall y :: y in items ==> y.id in m && y == Summarize(m[y.id])
    ensures forall i, j :: 0 <= i < j < |items| ==> items[i].id != items[j].id
  {
    forall i, j | 0 <= i < j < |items|
      ensures items[i].id != items[j].id
    {
      if items[i].id == items[j].id {
        assert items[i] == items[j];
        RepeatCounts(items, i, j);
      }
    }
  }

  /** The ids of the records `uid` owns (`find({ ownerId: req.user.id })`). */
  function OwnedIds(m: map<string, Vault>, uid: string): (ids: set<string>)
    ensures forall k :: k in ids <==> k in m && m[k].ownerId == Some(uid)
  {
    set k | k in m && m[k].ownerId == Some(uid)
  }

  /** GET /me/vaults: the summaries of exactly the caller's records, each once,
      newest first. The query and sort run in the database; here they are an
      insertion over the owned ids. Nothing changes. */
  method ListOwned(db: Db, uid: string) returns (items: seq<Summary>)
    requires db.Valid()
    ensures NewestFirst(items)
    ensures forall i :: 0 <= i < |items| ==>
      items[i].id in OwnedIds(db.vaults, uid) && items[i] == Summarize(db.vaults[items[i].id])
    ensures forall k :: k in OwnedIds(db.vaults, uid) ==> Summarize(db.vaults[k]) in items
    ensures forall i, j :: 0 <= i < j < |items| ==> items[i].id != items[j].id
  {
    var owned := OwnedIds(db.vaults, uid);
    var pending := owned;
    items := [];
    while pending != {}
      invariant pending <= owned
      invariant NewestFirst(items) && NoRepeats(items)
      invariant forall y :: y in items ==> y.id in owned - pending && y == Summarize(db.vaults[y.id])
      invariant forall k :: k in owned - pending ==> Summarize(db.vaults[k]) in items
      decreases pending
    {
      var k :| k in pending;
      var x := Summarize(db.vaults[k]);
      assert x !in items;
      var next := InsertNewest(items, x);
      InsertedMembers(items, x, next);
      items := next;
      pending := pending - {k};
    }
    DistinctIds(items, db.vaults);
  }

  datatype DeleteReply = Removed | NotFound

  function DeleteStatus(r: DeleteReply): int {
    match r
    case Removed => 200
    case NotFound => 403
  }

  function DeleteMessage(r: DeleteReply): string {
    match r
    case Removed => "ok"
    case NotFound => "Not found"
  }

  /** DELETE /me/vaults/:id: an id that is unknown or owned by someone else is
      "Not found" and changes nothing; the caller's own record is removed with
      its file, whether or not it has expired. */
  method DeleteOwned(db: Db, id: string, uid: string) returns (r: DeleteReply)
    requires db.Valid()
    modifies db
    ensures db.Valid() && db.users == old(db.users)
    ensures id !in OwnedIds(old(db.vaults), uid) ==>
      r == NotFound && db.vaults == old(db.vaults) && db.blobs == old(db.blobs)
    ensures id in OwnedIds(old(db.vaults), uid) ==>
      r == Removed && db.vaults == old(db.vaults) - {id}
      && db.blobs == old(db.blobs) - FileSet(old(db.vaults)[id])
  {
    if id !in db.vaults || db.vaults[id].ownerId != Some(uid) {
      return NotFound;
    }
    var item := db.vaults[id];
    db.RemoveFile(item);
    db.DeleteOne(item.id);
    r := Removed;
  }

  /** Deleting through the account leaves every other owner's listing as it was. */
  lemma DeleteOwnedIsolated(m: map<string, Vault>, id: string, uid: string, other: string)
    requires TableValid(m) && id in OwnedIds(m, uid) && other != uid
    ensures OwnedIds(m - {id}, other) == OwnedIds(m, other)
    ensures OwnedIds(m - {id}, uid) == OwnedIds(m, uid) - {id}
  {
  }
}
