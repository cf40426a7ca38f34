/** Properties that span the handlers: what a record created by POST /upload
    looks like to the link handlers, to the sweep and to deletion by link. */
module Lifecycle {
  import opened Js
  import opened VaultModel
  import opened AuthMiddleware
  import opened Store
  import opened Upload
  import opened ViewRoute
  import Reaper
  import Multer

  /** A text upload without password is shown at any instant up to its expiry,
      with the trimmed text and a view count of one. */
  lemma CreatedTextIsServed(req: UploadRequest, now: int, id: string, user: UserSlot, hash: string -> string,
                            later: int, s: string, c: (string, string) -> bool)
    requires Validate(req, now).Accepted?
    requires req.file.None? && TrimmedString(req.password) == ""
    requires later <= Validate(req, now).value.expiresAt
    ensures var v := BuildVault(Validate(req, now).value, id, OwnerOf(user), hash, now);
      && ViewCheck(v, later, s, c).None?
      && ViewBody(AfterView(v, later)).TextShown?
      && ViewBody(AfterView(v, later)).content == Some(TrimmedString(req.text))
      && ViewBody(AfterView(v, later)).viewCount == 1
      && !ViewBody(AfterView(v, later)).requiresPassword
  {
    var d := Validate(req, now).value;
    var v := BuildVault(d, id, OwnerOf(user), hash, now);
    assert !HasPassword(v);
    assert CheckPassword(v, s, c).None?;
  }

  /** A password-protected upload asks for the password, refuses a wrong one,
      and admits the password it was created with (as stored: trimmed). */
  lemma PasswordGuardsLink(req: UploadRequest, now: int, id: string, user: UserSlot, hash: string -> string,
                           later: int, wrong: string, compare: (string, string) -> bool)
    requires Validate(req, now).Accepted?
    requires TrimmedString(req.password) != "" && hash(TrimmedString(req.password)) != ""
    requires later <= Validate(req, now).value.expiresAt
    ensures var v := BuildVault(Validate(req, now).value, id, OwnerOf(user), hash, now);
      && ViewCheck(v, later, "", compare) == Some(PasswordRequired)
      && (compare(TrimmedString(req.password), hash(TrimmedString(req.password))) ==>
            ViewCheck(v, later, TrimmedString(req.password), compare).None?)
      && (wrong != "" && !compare(wrong, hash(TrimmedString(req.password))) ==>
            ViewCheck(v, later, wrong, compare) == Some(InvalidPassword))
  {
    var d := Validate(req, now).value;
    var p := TrimmedString(req.password);
    var v := BuildVault(d, id, OwnerOf(user), hash, now);
    assert HasPassword(v) && v.passwordHash.value == hash(p);
    assert !Expired(v, later) && !UsedUp(v) && !ViewsExhausted(v);
    ReachedPassword(v, later, "", compare);
    ReachedPassword(v, later, p, compare);
    ReachedPassword(v, later, wrong, compare);
  }

  /** Past the first three checks, a view is decided by the password alone. */
  lemma ReachedPassword(v: Vault, now: int, s: string, c: (string, string) -> bool)
    requires !Expired(v, now) && !UsedUp(v) && !ViewsExhausted(v)
    ensures ViewCheck(v, now, s, c) == CheckPassword(v, s, c)
  {
  }

  /** A file upload without password can be downloaded up to its expiry, under
      its original name; the response to a view carries its download path. */
  lemma CreatedFileIsDownloadable(req: UploadRequest, now: int, id: string, user: UserSlot, hash: string -> string,
                                  later: int, s: string, c: (string, string) -> bool)
    requires Validate(req, now).Accepted?
    requires req.file.Some? && req.file.value.path != "" && req.file.value.originalName != ""
    requires TrimmedString(req.password) == ""
    requires later <= Validate(req, now).value.expiresAt
    ensures var v := BuildVault(Validate(req, now).value, id, OwnerOf(user), hash, now);
      && DownloadCheck(v, later, s, c).None?
      && DownloadName(v) == req.file.value.originalName
      && ViewBody(v).FileShown? && ViewBody(v).downloadUrl == "/v/" + id + "/download"
  {
    var d := Validate(req, now).value;
    var v := BuildVault(d, id, OwnerOf(user), hash, now);
    assert !HasPassword(v) && HasFile(v);
    assert CheckPassword(v, s, c).None?;
  }

  /** A one-time text upload is shown once: after that view every view and
      download of it is refused. */
  lemma OneTimeTextShownOnce(req: UploadRequest, now: int, id: string, user: UserSlot, hash: string -> string,
                             first: int, next: int, s: string, c: (string, string) -> bool)
    requires Validate(req, now).Accepted?
    requires req.file.None? && OneTimeFlag(req.oneTime)
    ensures var v := BuildVault(Validate(req, now).value, id, OwnerOf(user), hash, now);
      && ViewCheck(AfterView(v, first), next, s, c).Some?
      && DownloadCheck(AfterView(v, first), next, s, c).Some?
  {
    var v := BuildVault(Validate(req, now).value, id, OwnerOf(user), hash, now);
    OneTimeServesOnce(v, first, next, s, c);
  }

  /** A fresh record survives every sweep up to and including its expiry
      instant and is removed by every later one. */
  lemma SweepRespectsExpiry(m: map<string, Vault>, req: UploadRequest, now: int, id: string, user: UserSlot,
                            hash: string -> string, t: int)
    requires Validate(req, now).Accepted?
    ensures var v := BuildVault(Validate(req, now).value, id, OwnerOf(user), hash, now);
      && (now <= t <= v.expiresAt ==> id in Reaper.Live(m[id := v], t))
      && (t > v.expiresAt ==> id !in Reaper.Live(m[id := v], t))
      && id in Reaper.Live(m[id := v], now)
  {
  }

  /** A link uploaded anonymously can never be deleted through the link; one
      uploaded by a signed-in user can be deleted by exactly that identity. */
  lemma DeletionBelongsToUploader(req: UploadRequest, now: int, id: string, user: UserSlot,
                                  hash: string -> string, requester: UserSlot)
    requires Validate(req, now).Accepted?
    ensures var v := BuildVault(Validate(req, now).value, id, OwnerOf(user), hash, now);
      && (OwnerOf(user).None? ==> !MayDelete(v, requester))
      && (OwnerOf(user).Some? ==>
            (MayDelete(v, requester) <==> requester.Signed? && requester.claims.id == user.claims.id))
  {
  }

  /** A file stored by multer under a slash-free original name and served
      without a fileName is downloaded under the name it was stored as. */
  lemma StoredPathNamesDownload(v: Vault, timestamp: nat, originalName: string)
    requires '/' !in originalName
    requires v.filePath == Some(Multer.StoredPath(timestamp, originalName))
    requires v.fileName.None? || v.fileName == Some("")
    ensures HasFile(v) && DownloadName(v) == Multer.StoredFileName(timestamp, originalName)
  {
    var digits := NatToDecimal(timestamp);
    var name := Multer.StoredFileName(timestamp, originalName);
    assert name == digits + "-" + originalName;
    assert forall k :: 0 <= k < |digits| ==> digits[k] != '/';
    assert '/' !in name;
    BasenameAfterSlash(Multer.UploadDir, name);
  }

  /** An expired link is purged by the first request that reaches it; the
      next request finds no record and answers "Invalid link". */
  method ExpiredThenInvalid(db: Db, id: string, now: int, later: int, header: Option<string>,
                            query: Option<string>, compare: (string, string) -> bool)
    returns (first: Reply, second: Reply)
    requires db.Valid() && id in db.vaults && now > db.vaults[id].expiresAt
    modifies db
    ensures first == Denied(LinkExpired) && second == Denied(InvalidLink)
    ensures id !in db.vaults
  {
    first := GetVault(db, id, now, header, query, compare);
    second := DownloadVault(db, id, later, header, query, compare);
  }

  /** The owner's delete through the link is final: the next view of the link
      finds no record and answers "Invalid link". */
  method DeletedThenInvalid(db: Db, id: string, user: UserSlot, now: int, header: Option<string>,
                            query: Option<string>, compare: (string, string) -> bool)
    returns (first: Reply, second: Reply)
    requires db.Valid() && id in db.vaults && MayDelete(db.vaults[id], user)
    modifies db
    ensures first == DeletedOk && second == Denied(InvalidLink)
    ensures id !in db.vaults
  {
    first := DeleteVault(db, id, user);
    second := GetVault(db, id, now, header, query, compare);
  }
}
