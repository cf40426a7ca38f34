/** backend/routes/view.js: reading a vault through its link (GET /v/:id),
    downloading its file (GET /v/:id/download) and deleting it through the link
    (DELETE /v/:id). The guard chain is a pure decision; the handlers apply it to
    the store. bcrypt.compare is the parameter `compare`. */
module ViewRoute {
  import opened Js
  import opened VaultModel
  import opened Store
  import opened AuthMiddleware

  datatype Denial =
    | InvalidLink
    | LinkExpired
    | AlreadyUsed
    | ViewLimitReached
    | DownloadLimitReached
    | PasswordRequired
    | InvalidPassword
    | NoFile
    | OwnerAuthRequired

  function Status(d: Denial): int {
    match d
    case InvalidLink => 403
    case LinkExpired => 410
    case AlreadyUsed => 410
    case ViewLimitReached => 410
    case DownloadLimitReached => 410
    case PasswordRequired => 401
    case InvalidPassword => 403
    case NoFile => 400
    case OwnerAuthRequired => 401
  }

  function Message(d: Denial): string {
    match d
    case InvalidLink => "Invalid link"
    case LinkExpired => "Link expired"
    case AlreadyUsed => "Link already used"
    case ViewLimitReached => "View limit reached"
    case DownloadLimitReached => "Download limit reached"
    case PasswordRequired => "Password required"
    case InvalidPassword => "Invalid password"
    case NoFile => "No file available"
    case OwnerAuthRequired => "Owner authentication required for this link."
  }

  // ------------------------------------------------------------------ the guard chain

  /** `req.headers["x-linkvault-password"] || req.query.password || ""`: the
      header wins when it is non-empty. */
  function SuppliedPassword(header: Option<string>, query: Option<string>): (p: string)
    ensures header.Some? && header.value != "" ==> p == header.value
    ensures header.None? || header.value == "" ==> p == (if query.Some? then query.value else "")
  {
    if header.Some? && header.value != "" then header.value
    else if query.Some? && query.value != "" then query.value
    else ""
  }

  /** verifyPassword: no hash, no question; a hash and nothing supplied, 401;
      a supplied password that does not match, 403. */
  function CheckPassword(v: Vault, supplied: string, compare: (string, string) -> bool): (d: Option<Denial>)
    ensures d.None? <==> !HasPassword(v) || (supplied != "" && compare(supplied, v.passwordHash.value))
    ensures d == Some(PasswordRequired) <==> HasPassword(v) && supplied == ""
    ensures d.Some? ==> d.value == PasswordRequired || d.value == InvalidPassword
  {
    if !HasPassword(v) then None
    else if supplied == "" then Some(PasswordRequired)
    else if !compare(supplied, v.passwordHash.value) then Some(InvalidPassword)
    else None
  }

  /** `new Date() > item.expiresAt`: strictly after the expiry instant. */
  predicate Expired(v: Vault, now: int) {
    now > v.expiresAt
  }

  predicate UsedUp(v: Vault) {
    v.oneTime && Consumed(v)
  }

  predicate ViewsExhausted(v: Vault) {
    v.maxViews.Some? && v.viewCount >= v.maxViews.value
  }

  predicate DownloadsExhausted(v: Vault) {
    v.maxDownloads.Some? && v.downloadCount >= v.maxDownloads.value
  }

  /** The checks of GET /:id, in their order: expiry, one-time consumed, view
      limit, password. */
  function ViewCheck(v: Vault, now: int, supplied: string, compare: (string, string) -> bool): (d: Option<Denial>)
    ensures d.None? <==> !Expired(v, now) && !UsedUp(v) && !ViewsExhausted(v) && CheckPassword(v, supplied, compare).None?
    ensures Expired(v, now) <==> d == Some(LinkExpired)
    ensures d == Some(PasswordRequired) || d == Some(InvalidPassword) ==>
      !Expired(v, now) && !UsedUp(v) && !ViewsExhausted(v)
    ensures d == Some(AlreadyUsed) <==> !Expired(v, now) && UsedUp(v)
    ensures d == Some(ViewLimitReached) <==> !Expired(v, now) && !UsedUp(v) && ViewsExhausted(v)
    ensures !Expired(v, now) && !UsedUp(v) && !ViewsExhausted(v) ==> d == CheckPassword(v, supplied, compare)
    ensures d.Some? ==> d.value in {LinkExpired, AlreadyUsed, ViewLimitReached, PasswordRequired, InvalidPassword}
  {
    if Expired(v, now) then Some(LinkExpired)
    else if UsedUp(v) then Some(AlreadyUsed)
    else if ViewsExhausted(v) then Some(ViewLimitReached)
    else CheckPassword(v, supplied, compare)
  }

  /** The checks of GET /:id/download: expiry, one-time consumed, download limit,
      password, and only then whether there is a file to send. */
  function DownloadCheck(v: Vault, now: int, supplied: string, compare: (string, string) -> bool): (d: Option<Denial>)
    ensures d.None? <==>
      !Expired(v, now) && !UsedUp(v) && !DownloadsExhausted(v) && CheckPassword(v, supplied, compare).None?
      && v.kind == File && HasFile(v)
    ensures Expired(v, now) <==> d == Some(LinkExpired)
    ensures d == Some(AlreadyUsed) <==> !Expired(v, now) && UsedUp(v)
    ensures d == Some(DownloadLimitReached) <==> !Expired(v, now) && !UsedUp(v) && DownloadsExhausted(v)
    ensures !Expired(v, now) && !UsedUp(v) && !DownloadsExhausted(v) && CheckPassword(v, supplied, compare).Some? ==>
      d == CheckPassword(v, supplied, compare)
    ensures d == Some(NoFile) <==>
      !Expired(v, now) && !UsedUp(v) && !DownloadsExhausted(v) && CheckPassword(v, supplied, compare).None?
      && (v.kind != File || !HasFile(v))
    ensures d.Some? ==> d.value in {LinkExpired, AlreadyUsed, DownloadLimitReached, PasswordRequired, InvalidPassword, NoFile}
  {
    if Expired(v, now) then Some(LinkExpired)
    else if UsedUp(v) then Some(AlreadyUsed)
    else if DownloadsExhausted(v) then Some(DownloadLimitReached)
    else if CheckPassword(v, supplied, compare).Some? then CheckPassword(v, supplied, compare)
    else if v.kind != File || !HasFile(v) then Some(NoFile)
    else None
  }

  /** The update of a successful view: one more view; a one-time text record is
      consumed now, if it was not already. Nothing else changes. */
  function AfterView(v: Vault, now: int): (w: Vault)
    ensures w.viewCount == v.viewCount + 1
    ensures w.(viewCount := v.viewCount, consumedAt := v.consumedAt) == v
    ensures Consumed(v) ==> w.consumedAt == v.consumedAt
    ensures !Consumed(v) ==> (Consumed(w) <==> v.kind == Text && v.oneTime)
    ensures Consumed(w) && !Consumed(v) ==> w.consumedAt == Some(now)
  {
    var consumedAt := if v.kind == Text && v.oneTime && !Consumed(v) then Some(now) else v.consumedAt;
    v.(viewCount := v.viewCount + 1, consumedAt := consumedAt)
  }

  /** The update of a successful download: one more download; a one-time record
      is consumed now, if it was not already. The view count is untouched. */
  function AfterDownload(v: Vault, now: int): (w: Vault)
    ensures w.downloadCount == v.downloadCount + 1
    ensures w.(downloadCount := v.downloadCount, consumedAt := v.consumedAt) == v
    ensures Consumed(v) ==> w.consumedAt == v.consumedAt
    ensures !Consumed(v) ==> (Consumed(w) <==> v.oneTime)
    ensures Consumed(w) && !Consumed(v) ==> w.consumedAt == Some(now)
  {
    var consumedAt := if v.oneTime && !Consumed(v) then Some(now) else v.consumedAt;
    v.(downloadCount := v.downloadCount + 1, consumedAt := consumedAt)
  }

  // ------------------------------------------------------------------ properties of the chain

  /** A consumed or exhausted link is refused before any password is asked for:
      the answer does not depend on what was supplied. */
  lemma RefusalBeforePassword(v: Vault, now: int, s1: string, s2: string, c1: (string, string) -> bool, c2: (string, string) -> bool)
    ensures UsedUp(v) || ViewsExhausted(v) ==> ViewCheck(v, now, s1, c1) == ViewCheck(v, now, s2, c2)
    ensures UsedUp(v) || DownloadsExhausted(v) ==> DownloadCheck(v, now, s1, c1) == DownloadCheck(v, now, s2, c2)
    ensures UsedUp(v) && !Expired(v, now) ==> ViewCheck(v, now, s1, c1) == Some(AlreadyUsed) == DownloadCheck(v, now, s1, c1)
  {
  }

  /** A view never looks at the download policy, and a download never at the
      view policy. */
  lemma PoliciesAreIndependent(v: Vault, now: int, s: string, c: (string, string) -> bool, m: Option<int>, n: nat)
    ensures ViewCheck(v.(maxDownloads := m, downloadCount := n), now, s, c) == ViewCheck(v, now, s, c)
    ensures DownloadCheck(v.(maxViews := m, viewCount := n), now, s, c) == DownloadCheck(v, now, s, c)
  {
    var w := v.(maxDownloads := m, downloadCount := n);
    assert CheckPassword(w, s, c) == CheckPassword(v, s, c);
    var u := v.(maxViews := m, viewCount := n);
    assert CheckPassword(u, s, c) == CheckPassword(v, s, c);
  }

  /** A successful view keeps the record well formed: in particular the view
      count stays within maxViews and consumedAt is set only on one-time
      records. */
  lemma AfterViewKeepsInvariant(v: Vault, now: int, s: string, c: (string, string) -> bool)
    requires WellFormed(v) && ViewCheck(v, now, s, c).None?
    ensures WellFormed(AfterView(v, now))
    ensures v.maxViews.Some? ==> AfterView(v, now).viewCount <= v.maxViews.value
  {
    var w := AfterView(v, now);
    assert w.kind == v.kind && w.content == v.content && w.filePath == v.filePath;
  }

  /** Likewise for a successful download and maxDownloads. */
  lemma AfterDownloadKeepsInvariant(v: Vault, now: int, s: string, c: (string, string) -> bool)
    requires WellFormed(v) && DownloadCheck(v, now, s, c).None?
    ensures WellFormed(AfterDownload(v, now))
    ensures v.maxDownloads.Some? ==> AfterDownload(v, now).downloadCount <= v.maxDownloads.value
  {
    var w := AfterDownload(v, now);
    assert w.kind == v.kind && w.content == v.content && w.filePath == v.filePath;
  }

  /** A one-time link serves once: after the consuming view (of a text) or
      download, every later view and download is refused, whatever the time,
      password or comparison. */
  lemma OneTimeServesOnce(v: Vault, now: int, later: int, s: string, c: (string, string) -> bool)
    requires v.oneTime
    ensures v.kind == Text ==> ViewCheck(AfterView(v, now), later, s, c).Some?
    ensures v.kind == Text ==> DownloadCheck(AfterView(v, now), later, s, c).Some?
    ensures ViewCheck(AfterDownload(v, now), later, s, c).Some?
    ensures DownloadCheck(AfterDownload(v, now), later, s, c).Some?
  {
  }

  /** `k` successful views in a row at the same instant. */
  function Viewed(v: Vault, now: int, k: nat): Vault
    decreases k
  {
    if k == 0 then v else AfterView(Viewed(v, now, k - 1), now)
  }

  /** Without one-time consumption, `k` views only raise the view count by k. */
  lemma {:induction false} ViewedCount(v: Vault, now: int, k: nat)
    requires !v.oneTime || v.kind == File
    ensures Viewed(v, now, k) == v.(viewCount := v.viewCount + k)
  {
    if k > 0 {
      ViewedCount(v, now, k - 1);
    }
  }

  /** With maxViews = n on a fresh, live, reachable link, the first n views are
      admitted and the next one answers "View limit reached". */
  lemma ViewLimitIsExact(v: Vault, now: int, s: string, c: (string, string) -> bool, n: nat)
    requires v.maxViews == Some(n) && v.viewCount == 0
    requires !v.oneTime || v.kind == File
    requires !Expired(v, now) && !UsedUp(v) && CheckPassword(v, s, c).None?
    ensures forall k: nat :: k < n ==> ViewCheck(Viewed(v, now, k), now, s, c).None?
    ensures ViewCheck(Viewed(v, now, n), now, s, c) == Some(ViewLimitReached)
  {
    forall k: nat | k < n
      ensures ViewCheck(Viewed(v, now, k), now, s, c).None?
    {
      ViewedCount(v, now, k);
      assert CheckPassword(Viewed(v, now, k), s, c) == CheckPassword(v, s, c);
    }
    ViewedCount(v, now, n);
    assert CheckPassword(Viewed(v, now, n), s, c) == CheckPassword(v, s, c);
  }

  /** `k` successful downloads in a row at the same instant. */
  function Downloaded(v: Vault, now: int, k: nat): Vault
    decreases k
  {
    if k == 0 then v else AfterDownload(Downloaded(v, now, k - 1), now)
  }

  /** Without one-time consumption, `k` downloads only raise the download count by k. */
  lemma {:induction false} DownloadedCount(v: Vault, now: int, k: nat)
    requires !v.oneTime
    ensures Downloaded(v, now, k) == v.(downloadCount := v.downloadCount + k)
  {
    if k > 0 {
      DownloadedCount(v, now, k - 1);
    }
  }

  /** With maxDownloads = n on a fresh, live, reachable file link, the first n
      downloads are admitted and the next one answers "Download limit reached". */
  lemma DownloadLimitIsExact(v: Vault, now: int, s: string, c: (string, string) -> bool, n: nat)
    requires v.maxDownloads == Some(n) && v.downloadCount == 0 && !v.oneTime
    requires v.kind == File && HasFile(v)
    requires !Expired(v, now) && CheckPassword(v, s, c).None?
    ensures forall k: nat :: k < n ==> DownloadCheck(Downloaded(v, now, k), now, s, c).None?
    ensures DownloadCheck(Downloaded(v, now, n), now, s, c) == Some(DownloadLimitReached)
  {
    forall k: nat | k < n
      ensures DownloadCheck(Downloaded(v, now, k), now, s, c).None?
    {
      DownloadedCount(v, now, k);
      assert CheckPassword(Downloaded(v, now, k), s, c) == CheckPassword(v, s, c);
    }
    DownloadedCount(v, now, n);
  }

  // ------------------------------------------------------------------ responses

  /** path.basename, for paths without a trailing separator: the characters
      after the last "/". */
  function Basename(p: string): string
    decreases |p|
  {
    if p == [] || p[|p| - 1] == '/' then [] else Basename(p[..|p| - 1]) + [p[|p| - 1]]
  }

  /** The basename is a suffix without "/", preceded by "/" unless it is the
      whole path. */
  lemma {:induction false} BasenameIsLastSegment(p: string)
    ensures var b := Basename(p);
      && |b| <= |p| && b == p[|p| - |b|..]
      && (forall i :: 0 <= i < |b| ==> b[i] != '/')
      && (|b| < |p| ==> p[|p| - |b| - 1] == '/')
  {
    if p != [] && p[|p| - 1] != '/' {
      var n := |p|;
      var init := p[..n - 1];
      BasenameIsLastSegment(init);
      var b := Basename(init);
      assert Basename(p) == b + [p[n - 1]];
      assert p[n - 1 - |b|..] == b + [p[n - 1]];
    }
  }

  datatype Reply =
    | Denied(denial: Denial)
    | TextShown(content: Option<string>, expiresAt: int, requiresPassword: bool, oneTime: bool,
                maxViews: Option<int>, viewCount: nat, ownerId: Option<string>)
    | FileShown(fileName: string, fileSize: Option<int>, mimeType: Option<string>, expiresAt: int,
                downloadUrl: string, requiresPassword: bool, oneTime: bool, maxViews: Option<int>,
                viewCount: nat, maxDownloads: Option<int>, downloadCount: nat, ownerId: Option<string>)
    | SendFile(path: string, name: string)
    | DeletedOk

  /** `updatedItem.ownerId || null`: the owner when there is one, else null. */
  function OwnerField(v: Vault): (o: Option<string>)
    ensures o.Some? <==> Owned(v)
    ensures o.Some? ==> o == v.ownerId
  {
    if v.ownerId.Some? && v.ownerId.value != "" then v.ownerId else None
  }

  /** The JSON body of a successful view, built from the updated record. */
  function ViewBody(v: Vault): (r: Reply)
    ensures r.TextShown? <==> v.kind == Text
    ensures r.FileShown? <==> v.kind == File
    ensures r.TextShown? ==>
      && r.content == v.content && r.expiresAt == v.expiresAt && r.requiresPassword == HasPassword(v)
      && r.oneTime == v.oneTime && r.maxViews == v.maxViews && r.viewCount == v.viewCount
      && r.ownerId == OwnerField(v)
    ensures r.FileShown? ==>
      && (v.fileName.Some? && v.fileName.value != "" ==> r.fileName == v.fileName.value)
      && (!(v.fileName.Some? && v.fileName.value != "") ==>
            r.fileName == Basename(if HasFile(v) then v.filePath.value else "file"))
      && r.fileSize == v.fileSize && r.mimeType == v.mimeType && r.expiresAt == v.expiresAt
      && r.downloadUrl == "/v/" + v.id + "/download" && r.requiresPassword == HasPassword(v)
      && r.oneTime == v.oneTime && r.maxViews == v.maxViews && r.viewCount == v.viewCount
      && r.maxDownloads == v.maxDownloads && r.downloadCount == v.downloadCount
      && r.ownerId == OwnerField(v)
  {
    match v.kind
    case Text =>
      TextShown(v.content, v.expiresAt, HasPassword(v), v.oneTime, v.maxViews, v.viewCount, OwnerField(v))
    case File =>
      var name := if v.fileName.Some? && v.fileName.value != "" then v.fileName.value
                  else Basename(if HasFile(v) then v.filePath.value else "file");
      FileShown(name, v.fileSize, v.mimeType, v.expiresAt, "/v/" + v.id + "/download", HasPassword(v),
                v.oneTime, v.maxViews, v.viewCount, v.maxDownloads, v.downloadCount, OwnerField(v))
  }

  /** `item.fileName || path.basename(item.filePath)` */
  function DownloadName(v: Vault): (n: string)
    requires HasFile(v)
    ensures v.fileName.Some? && v.fileName.value != "" ==> n == v.fileName.value
    ensures !(v.fileName.Some? && v.fileName.value != "") ==>
      var p := v.filePath.value;
      && |n| <= |p| && n == p[|p| - |n|..] && '/' !in n
      && (|n| < |p| ==> p[|p| - |n| - 1] == '/')
  {
    if v.fileName.Some? && v.fileName.value != "" then v.fileName.value
    else
      BasenameIsLastSegment(v.filePath.value);
      Basename(v.filePath.value)
  }

  /** The basename of a path ending in "/" and a slash-free name is that name. */
  lemma {:induction false} BasenameAfterSlash(dir: string, name: string)
    requires dir != [] && dir[|dir| - 1] == '/'
    requires '/' !in name
    ensures Basename(dir + name) == name
    decreases |name|
  {
    if name != [] {
      var init := name[..|name| - 1];
      assert (dir + name)[..|dir + name| - 1] == dir + init;
      BasenameAfterSlash(dir, init);
    } else {
      assert dir + name == dir;
    }
  }

  // ------------------------------------------------------------------ handlers

  /** handleExpired: unlink the file (a missing one is ignored), delete the
      record, answer 410. */
  method HandleExpired(db: Db, item: Vault) returns (r: Reply)
    requires db.Valid()
    modifies db
    ensures db.Valid() && r == Denied(LinkExpired)
    ensures db.vaults == old(db.vaults) - {item.id}
    ensures db.blobs == old(db.blobs) - FileSet(item)
    ensures db.users == old(db.users)
  {
    db.RemoveFile(item);
    db.DeleteOne(item.id);
    r := Denied(LinkExpired);
  }

  /** GET /v/:id. An unknown id changes nothing; an expired record is purged
      with its file; any other refusal changes nothing; a successful view
      replaces the record by its updated version and returns it. */
  method GetVault(db: Db, id: string, now: int, header: Option<string>, query: Option<string>,
                  compare: (string, string) -> bool) returns (r: Reply)
    requires db.Valid()
    modifies db
    ensures db.Valid() && db.users == old(db.users)
    ensures id !in old(db.vaults) ==>
      r == Denied(InvalidLink) && db.vaults == old(db.vaults) && db.blobs == old(db.blobs)
    ensures id in old(db.vaults) ==>
      var v := old(db.vaults)[id];
      var d := ViewCheck(v, now, SuppliedPassword(header, query), compare);
      && (d == Some(LinkExpired) ==>
            r == Denied(LinkExpired) && db.vaults == old(db.vaults) - {id} && db.blobs == old(db.blobs) - FileSet(v))
      && (d.Some? && d != Some(LinkExpired) ==>
            r == Denied(d.value) && db.vaults == old(db.vaults) && db.blobs == old(db.blobs))
      && (d.None? ==>
            r == ViewBody(AfterView(v, now)) && db.vaults == old(db.vaults)[id := AfterView(v, now)]
            && db.blobs == old(db.blobs))
  {
    if id !in db.vaults {
      return Denied(InvalidLink);
    }
    var item := db.vaults[id];
    var supplied := SuppliedPassword(header, query);
    var d := ViewCheck(item, now, supplied, compare);
    if d == Some(LinkExpired) {
      r := HandleExpired(db, item);
      return;
    }
    if d.Some? {
      return Denied(d.value);
    }
    var updated := AfterView(item, now);
    AfterViewKeepsInvariant(item, now, supplied, compare);
    InsertKeepsTable(db.vaults, updated);
    db.vaults := db.vaults[id := updated];
    r := ViewBody(updated);
  }

  /** GET /v/:id/download. As GetVault, with the download limit, the "no file"
      refusal after the password, and the file sent on success. */
  method DownloadVault(db: Db, id: string, now: int, header: Option<string>, query: Option<string>,
                       compare: (string, string) -> bool) returns (r: Reply)
    requires db.Valid()
    modifies db
    ensures db.Valid() && db.users == old(db.users)
    ensures id !in old(db.vaults) ==>
      r == Denied(InvalidLink) && db.vaults == old(db.vaults) && db.blobs == old(db.blobs)
    ensures id in old(db.vaults) ==>
      var v := old(db.vaults)[id];
      var d := DownloadCheck(v, now, SuppliedPassword(header, query), compare);
      && (d == Some(LinkExpired) ==>
            r == Denied(LinkExpired) && db.vaults == old(db.vaults) - {id} && db.blobs == old(db.blobs) - FileSet(v))
      && (d.Some? && d != Some(LinkExpired) ==>
            r == Denied(d.value) && db.vaults == old(db.vaults) && db.blobs == old(db.blobs))
      && (d.None? ==>
            r == SendFile(v.filePath.value, DownloadName(v))
            && db.vaults == old(db.vaults)[id := AfterDownload(v, now)] && db.blobs == old(db.blobs))
  {
    if id !in db.vaults {
      return Denied(InvalidLink);
    }
    var item := db.vaults[id];
    var supplied := SuppliedPassword(header, query);
    var d := DownloadCheck(item, now, supplied, compare);
    if d == Some(LinkExpired) {
      r := HandleExpired(db, item);
      return;
    }
    if d.Some? {
      return Denied(d.value);
    }
    var updated := AfterDownload(item, now);
    AfterDownloadKeepsInvariant(item, now, supplied, compare);
    InsertKeepsTable(db.vaults, updated);
    db.vaults := db.vaults[id := updated];
    r := SendFile(item.filePath.value, DownloadName(item));
  }

  /** `item.ownerId` is set. */
  predicate Owned(v: Vault) {
    v.ownerId.Some? && v.ownerId.value != ""
  }

  /** The requester may delete through the link: the record has an owner and
      `req.user.id` equals it. */
  predicate MayDelete(v: Vault, user: UserSlot) {
    Owned(v) && user.Signed? && user.claims.id == v.ownerId.value
  }

  /** An ownerless record can never be deleted through its link, and only its
      owner's identity deletes an owned one. */
  lemma DeleteNeedsOwner(v: Vault, user: UserSlot)
    ensures !Owned(v) ==> !MayDelete(v, user)
    ensures MayDelete(v, user) <==> user.Signed? && v.ownerId == Some(user.claims.id) && user.claims.id != ""
  {
  }

  /** DELETE /v/:id. Expiry and password are not consulted. */
  method DeleteVault(db: Db, id: string, user: UserSlot) returns (r: Reply)
    requires db.Valid()
    modifies db
    ensures db.Valid() && db.users == old(db.users)
    ensures id !in old(db.vaults) ==>
      r == Denied(InvalidLink) && db.vaults == old(db.vaults) && db.blobs == old(db.blobs)
    ensures id in old(db.vaults) && !MayDelete(old(db.vaults)[id], user) ==>
      r == Denied(OwnerAuthRequired) && db.vaults == old(db.vaults) && db.blobs == old(db.blobs)
    ensures id in old(db.vaults) && MayDelete(old(db.vaults)[id], user) ==>
      r == DeletedOk && db.vaults == old(db.vaults) - {id}
      && db.blobs == old(db.blobs) - FileSet(old(db.vaults)[id])
  {
    if id !in db.vaults {
      return Denied(InvalidLink);
    }
    var item := db.vaults[id];
    if !Owned(item) {
      return Denied(OwnerAuthRequired);
    }
    if !user.Signed? || item.ownerId.value != user.claims.id {
      return Denied(OwnerAuthRequired);
    }
    db.RemoveFile(item);
    db.DeleteOne(id);
    r := DeletedOk;
  }
}
