/** backend/routes/upload.js: the POST handler that creates a vault. The body
    fields are normalised, checked in a fixed order (payload, password, view
    limit, download limit, expiry), and on success one record is inserted
    under the fresh id. bcrypt.hash is the parameter `hash`; nanoid(10) is the
    parameter `id`; `now` is the request's clock reading in milliseconds. */
module Upload {
  import opened Js
  import opened VaultModel
  import opened Store
  import opened AuthMiddleware
  import Multer

  /** req.file as multer leaves it: already stored under `path`. */
  datatype UploadedFile = UploadedFile(path: string, originalName: string, size: int, mimeType: string)

  /** The largest instant a JavaScript Date can hold, in milliseconds. A later
      expiry makes `toDate()` an Invalid Date, which Vault.create refuses. */
  const MaxDateMs: int := 8640000000000000

  /** The time value of a valid JavaScript Date. */
  type DateMs = t: int | -8640000000000000 <= t <= 8640000000000000

  /** The parts of the request the handler reads. `expiresAtParsed` is
      `new Date(expiresAt).getTime()`, None when that is NaN (an unparsable
      string or one past the Date range). */
  datatype UploadRequest = UploadRequest(
    text: Value,
    password: Value,
    expiryMinutes: Value,
    expiresAt: Value,
    expiresAtParsed: Option<DateMs>,
    oneTime: Value,
    maxViews: Value,
    maxDownloads: Value,
    file: Option<UploadedFile>)

  datatype UploadError =
    | EitherTextOrFile
    | PasswordTooShort
    | InvalidMaxViews
    | InvalidMaxDownloads
    | InvalidExpiryDate
    | ExpiryNotFuture
    | InvalidExpiryMinutes

  function ErrorMessage(e: UploadError): string {
    match e
    case EitherTextOrFile => "Provide either text or file (not both)."
    case PasswordTooShort => "Password must be at least 4 characters."
    case InvalidMaxViews => "Invalid max views."
    case InvalidMaxDownloads => "Invalid max downloads."
    case InvalidExpiryDate => "Invalid expiry date/time."
    case ExpiryNotFuture => "Expiry must be in the future."
    case InvalidExpiryMinutes => "Invalid expiry minutes."
  }

  datatype Checked<T> = Accepted(value: T) | Rejected(error: UploadError)

  const MinuteMs: int := 60000
  const DefaultExpiryMinutes: int := 10
  const MinPasswordLength: int := 4

  /** `typeof raw === "string" ? raw.trim() : ""` (after `?? ""`). */
  function TrimmedString(raw: Value): (s: string)
    ensures IsTrimmed(s)
    ensures !raw.Str? ==> s == ""
    ensures raw.Str? ==> s == Trim(raw.s)
  {
    if raw.Str? then Trim(raw.s) else ""
  }

  /** A padded string field reads as its trimmed core. */
  lemma TrimmedStringOfPadded(a: string, t: string, b: string, n: Num)
    requires AllSpace(a) && AllSpace(b) && IsTrimmed(t)
    ensures TrimmedString(Str(a + t + b, n)) == t
  {
    TrimOfPadded(a, t, b);
  }

  /** The four inputs that make a link one-time. */
  predicate OneTimeFlag(raw: Value)
    ensures OneTimeFlag(raw) ==> Truthy(raw)
  {
    raw == Bool(true) || raw == Number(Finite(1)) || (raw.Str? && (raw.s == "true" || raw.s == "1"))
  }

  /** `raw ? Number(raw) : null` */
  function LimitInput(raw: Value): (l: Option<Num>)
    ensures l.None? <==> !Truthy(raw)
    ensures l.Some? ==> l.value == ToNumber(raw)
  {
    if Truthy(raw) then Some(ToNumber(raw)) else None
  }

  /** A non-numeric or non-positive limit field is refused, whatever its
      spelling: "abc" reads as NaN, "-2" as -2, true as 1 and is kept. */
  lemma LimitFieldsRead(s: string, t: string)
    requires s != "" && t != ""
    ensures !LimitAcceptable(LimitInput(Str(s, NaN)))
    ensures !LimitAcceptable(LimitInput(Str(t, Finite(-2))))
    ensures LimitInput(Bool(true)) == Some(Finite(1)) && LimitAcceptable(LimitInput(Bool(true)))
    ensures LimitInput(Null).None? && LimitInput(Str("", NaN)).None?
  {
  }

  /** Absent, or finite and positive. */
  predicate LimitAcceptable(l: Option<Num>) {
    l.None? || (l.value.Finite? && l.value.v > 0)
  }

  function StoredLimit(l: Option<Num>): (m: Option<int>)
    requires LimitAcceptable(l)
    ensures m.None? <==> l.None?
    ensures m.Some? ==> m.value > 0 && m.value == l.value.v
  {
    if l.None? then None else Some(l.value.v)
  }

  /** The expiry: an explicit date wins over a minute offset, and with neither
      the link lives ten minutes. Every accepted expiry is strictly later than
      now. */
  function ResolveExpiry(req: UploadRequest, now: int): (r: Checked<int>)
    ensures r.Accepted? ==> r.value > now
    ensures Truthy(req.expiresAt) ==>
      && (r == Rejected(InvalidExpiryDate) <==> req.expiresAtParsed.None?)
      && (r == Rejected(ExpiryNotFuture) <==> req.expiresAtParsed.Some? && req.expiresAtParsed.value <= now)
      && (r.Accepted? ==> req.expiresAtParsed == Some(r.value))
      && (req.expiresAtParsed.Some? && req.expiresAtParsed.value > now ==>
            r == Accepted(req.expiresAtParsed.value))
    ensures !Truthy(req.expiresAt) && Truthy(req.expiryMinutes) ==>
      var n := ToNumber(req.expiryMinutes);
      && (r.Accepted? <==> n.Finite? && n.v > 0)
      && (r.Accepted? ==> r.value == now + n.v * MinuteMs)
      && (r.Rejected? ==> r.error == InvalidExpiryMinutes)
    ensures !Truthy(req.expiresAt) && !Truthy(req.expiryMinutes) ==> r == Accepted(now + 600000)
  {
    if Truthy(req.expiresAt) then
      match req.expiresAtParsed
      case None => Rejected(InvalidExpiryDate)
      case Some(t) => if t <= now then Rejected(ExpiryNotFuture) else Accepted(t)
    else if Truthy(req.expiryMinutes) then
      var n := ToNumber(req.expiryMinutes);
      if !n.Finite? || n.v <= 0 then Rejected(InvalidExpiryMinutes)
      else Accepted(now + n.v * MinuteMs)
    else Accepted(now + DefaultExpiryMinutes * MinuteMs)
  }

  /** The normalised, validated upload. */
  datatype Draft = Draft(
    text: string,
    file: Option<UploadedFile>,
    password: string,
    oneTime: bool,
    maxViews: Option<int>,
    maxDownloads: Option<int>,
    expiresAt: int)

  /** What every accepted upload satisfies. */
  predicate DraftValid(d: Draft, now: int) {
    && ((d.text != "") <==> d.file.None?)
    && (d.password == "" || |d.password| >= MinPasswordLength)
    && (d.maxViews.Some? ==> d.maxViews.value > 0)
    && (d.maxDownloads.Some? ==> d.maxDownloads.value > 0)
    && d.expiresAt > now
  }

  predicate PayloadOk(req: UploadRequest) {
    (TrimmedString(req.text) != "") != req.file.Some?
  }

  predicate PasswordOk(req: UploadRequest) {
    var p := TrimmedString(req.password);
    p == "" || |p| >= MinPasswordLength
  }

  /** The handler's checks up to the insertion. */
  function Validate(req: UploadRequest, now: int): (r: Checked<Draft>)
    ensures r.Accepted? ==> DraftValid(r.value, now)
    ensures r.Accepted? ==>
      && r.value.text == TrimmedString(req.text)
      && r.value.password == TrimmedString(req.password)
      && r.value.file == req.file
      && r.value.oneTime == OneTimeFlag(req.oneTime)
      && (r.value.maxViews.None? <==> !Truthy(req.maxViews))
      && (r.value.maxDownloads.None? <==> !Truthy(req.maxDownloads))
      && LimitAcceptable(LimitInput(req.maxViews)) && r.value.maxViews == StoredLimit(LimitInput(req.maxViews))
      && LimitAcceptable(LimitInput(req.maxDownloads))
      && r.value.maxDownloads == StoredLimit(LimitInput(req.maxDownloads))
      && ResolveExpiry(req, now) == Accepted(r.value.expiresAt)
  {
    var text := TrimmedString(req.text);
    var password := TrimmedString(req.password);
    var maxViews := LimitInput(req.maxViews);
    var maxDownloads := LimitInput(req.maxDownloads);
    if (text == "") == req.file.None? then Rejected(EitherTextOrFile)
    else if password != "" && |password| < MinPasswordLength then Rejected(PasswordTooShort)
    else if !LimitAcceptable(maxViews) then Rejected(InvalidMaxViews)
    else if !LimitAcceptable(maxDownloads) then Rejected(InvalidMaxDownloads)
    else
      var expiry := ResolveExpiry(req, now);
      if expiry.Rejected? then Rejected(expiry.error)
      else
        var d := Draft(text, req.file, password, OneTimeFlag(req.oneTime),
                       StoredLimit(maxViews), StoredLimit(maxDownloads), expiry.value);
        assert DraftValid(d, now);
        Accepted(d)
  }

  /** The first failing check decides the error: payload, then password, then
      the view limit, then the download limit, then the expiry. */
  lemma CheckOrder(req: UploadRequest, now: int)
    ensures Validate(req, now) == Rejected(EitherTextOrFile) <==> !PayloadOk(req)
    ensures Validate(req, now) == Rejected(PasswordTooShort) <==> PayloadOk(req) && !PasswordOk(req)
    ensures Validate(req, now) == Rejected(InvalidMaxViews) <==>
      PayloadOk(req) && PasswordOk(req) && !LimitAcceptable(LimitInput(req.maxViews))
    ensures Validate(req, now) == Rejected(InvalidMaxDownloads) <==>
      PayloadOk(req) && PasswordOk(req) && LimitAcceptable(LimitInput(req.maxViews))
      && !LimitAcceptable(LimitInput(req.maxDownloads))
    ensures Validate(req, now).Accepted? <==>
      PayloadOk(req) && PasswordOk(req) && LimitAcceptable(LimitInput(req.maxViews))
      && LimitAcceptable(LimitInput(req.maxDownloads)) && ResolveExpiry(req, now).Accepted?
    ensures (PayloadOk(req) && PasswordOk(req) && LimitAcceptable(LimitInput(req.maxViews))
             && LimitAcceptable(LimitInput(req.maxDownloads)) && ResolveExpiry(req, now).Rejected?) ==>
      Validate(req, now) == Rejected(ResolveExpiry(req, now).error)
  {
  }

  /** The record inserted for an accepted upload. Fields the handler does not
      pass keep the schema defaults. */
  function BuildVault(d: Draft, id: string, owner: Option<string>, hash: string -> string, now: int): (v: Vault)
    requires DraftValid(d, now)
    ensures WellFormed(v)
    ensures v.id == id && v.ownerId == owner && v.expiresAt == d.expiresAt && v.createdAt == now
    ensures (v.kind == File) <==> d.file.Some?
    ensures v.kind == Text ==> v.content == Some(d.text) && v.filePath.None?
    ensures v.kind == File ==>
      && v.content.None? && v.filePath == Some(d.file.value.path)
      && v.fileName == Some(d.file.value.originalName) && v.fileSize == Some(d.file.value.size)
      && v.mimeType == Some(d.file.value.mimeType)
    ensures v.kind == Text ==> v.fileName.None? && v.fileSize.None? && v.mimeType.None?
    ensures v.viewCount == 0 && v.downloadCount == 0 && !Consumed(v)
    ensures v.passwordHash.None? <==> d.password == ""
    ensures v.passwordHash.Some? ==> v.passwordHash.value == hash(d.password)
    ensures v.oneTime == d.oneTime && v.maxViews == d.maxViews && v.maxDownloads == d.maxDownloads
    ensures v.expiresAt > v.createdAt
  {
    var base := Defaults(id, if d.file.Some? then File else Text, d.expiresAt, now);
    base.(
      content := if d.text != "" then Some(d.text) else None,
      filePath := if d.file.Some? then Some(d.file.value.path) else None,
      fileName := if d.file.Some? then Some(d.file.value.originalName) else None,
      fileSize := if d.file.Some? then Some(d.file.value.size) else None,
      mimeType := if d.file.Some? then Some(d.file.value.mimeType) else None,
      passwordHash := if d.password != "" then Some(hash(d.password)) else None,
      oneTime := d.oneTime,
      maxViews := d.maxViews,
      maxDownloads := d.maxDownloads,
      ownerId := owner)
  }

  /** The handler's answer: `{ id, apiLink }`, a 400 with the message, a 400 for
      a file multer refused, or a 500 (a duplicate id violates the unique index;
      an expiry past the Date range does not cast). */
  datatype UploadReply = Created(id: string) | Invalid(error: UploadError) | FileRefused(cause: Multer.MulterError) | ServerError

  function ReplyStatus(r: UploadReply): int {
    match r
    case Created(_) => 200
    case Invalid(_) => 400
    case FileRefused(_) => 400
    case ServerError => 500
  }

  /** The messages upload.js:96-101 intends for multer's two errors. */
  function RefusalMessage(e: Multer.MulterError): string {
    match e
    case LimitFileSize => "File exceeds size limit."
    case UnsupportedType => "Unsupported file type."
  }

  /** As written, multer's error reaches no handler of the route: `next(err)`
      skips the handler and its catch, and the default error handler answers 500. */
  function MulterReplyAsWritten(e: Multer.MulterError): (r: UploadReply)
    ensures ReplyStatus(r) == 500
  {
    ServerError
  }

  /** As intended: each multer error is a 400 with its own message. */
  function MulterReply(e: Multer.MulterError): (r: UploadReply)
    ensures ReplyStatus(r) == 400
    ensures r.FileRefused? && RefusalMessage(r.cause) == RefusalMessage(e)
    ensures Multer.ErrorCode(e) == "LIMIT_FILE_SIZE" ==> RefusalMessage(r.cause) == "File exceeds size limit."
    ensures Multer.ErrorCode(e) == "UNSUPPORTED_TYPE" ==> RefusalMessage(r.cause) == "Unsupported file type."
  {
    FileRefused(e)
  }

  /** A file of a refused type answers 500 as written, where 400 "Unsupported
      file type." is meant; likewise an oversized one. */
  lemma MulterErrorsMisrouted(allowedEnv: Option<string>, sizeEnvMb: Option<int>, mimeType: string, size: int)
    requires Multer.Admit(allowedEnv, sizeEnvMb, mimeType, size).Some?
    ensures var e := Multer.Admit(allowedEnv, sizeEnvMb, mimeType, size).value;
      ReplyStatus(MulterReplyAsWritten(e)) == 500 && ReplyStatus(MulterReply(e)) == 400
  {
  }

  /** With ALLOWED_MIME_TYPES and MAX_FILE_SIZE_MB unset, a GIF image is refused
      as UNSUPPORTED_TYPE and an 11 MB PDF as LIMIT_FILE_SIZE, and both answer
      500 as written. */
  lemma MisroutedExamples()
    ensures Multer.Admit(None, None, "image/gif", 1) == Some(Multer.UnsupportedType)
    ensures Multer.Admit(None, None, "application/pdf", 11 * 1048576) == Some(Multer.LimitFileSize)
    ensures ReplyStatus(MulterReplyAsWritten(Multer.UnsupportedType)) == 500
    ensures ReplyStatus(MulterReplyAsWritten(Multer.LimitFileSize)) == 500
  {
    Multer.BlankConfigFallsBack(None);
    GifIsNotDefault();
    assert Multer.FileFilter(None, "image/gif") == Some(Multer.UnsupportedType);
    assert Multer.DefaultAllowedTypes[0] == "application/pdf";
    assert Multer.FileFilter(None, "application/pdf").None?;
  }

  /** No default type is "image/gif": each differs from it in length or in a
      character. */
  lemma GifIsNotDefault()
    ensures "image/gif" !in Multer.DefaultAllowedTypes
  {
    var g := "image/gif";
    assert g != Multer.DefaultAllowedTypes[1] by { assert g[6] != Multer.DefaultAllowedTypes[1][6]; }
    forall t | t in Multer.DefaultAllowedTypes
      ensures t != g
    {
      if t != Multer.DefaultAllowedTypes[1] {
        assert |t| != |g|;
      }
    }
  }

  /** The route handler of POST /upload (backend/routes/upload.js:11-104),
      reached once multer has let the request through. A refusal leaves the
      table as it was; success inserts exactly one record, under the fresh id,
      and touches nothing else. */
  method Handle(db: Db, req: UploadRequest, user: UserSlot, id: string, now: int, hash: string -> string)
    returns (reply: UploadReply)
    requires db.Valid()
    modifies db
    ensures db.Valid()
    ensures db.blobs == old(db.blobs) && db.users == old(db.users)
    ensures var checked := Validate(req, now);
      && (checked.Rejected? ==> reply == Invalid(checked.error) && db.vaults == old(db.vaults))
      && (checked.Accepted? && (id in old(db.vaults) || checked.value.expiresAt > MaxDateMs) ==>
            reply == ServerError && db.vaults == old(db.vaults))
      && (checked.Accepted? && id !in old(db.vaults) && checked.value.expiresAt <= MaxDateMs ==>
            reply == Created(id) && db.vaults == old(db.vaults)[id := BuildVault(checked.value, id, OwnerOf(user), hash, now)])
  {
    var checked := Validate(req, now);
    if checked.Rejected? {
      return Invalid(checked.error);
    }
    if id in db.vaults || checked.value.expiresAt > MaxDateMs {
      return ServerError;
    }
    var owner := OwnerOf(user);
    var d := checked.value;
    assert DraftValid(d, now);
    var v := BuildVault(d, id, owner, hash, now);
    db.Insert(v);
    reply := Created(id);
  }

  /** POST /upload as written: `optionalAuth`, then `upload.single("file")`,
      then the handler. `received` is multer's verdict on the file part. A
      refusal reaches Express's default error handler (a 500) and changes
      nothing; an accepted file is written to disk under its path before the
      handler runs, and stays there whatever the handler answers. */
  method Create(db: Db, req: UploadRequest, received: Option<Multer.MulterError>, user: UserSlot, id: string,
                now: int, hash: string -> string)
    returns (reply: UploadReply)
    requires db.Valid()
    modifies db
    ensures db.Valid() && db.users == old(db.users)
    ensures received.Some? ==>
      reply == MulterReplyAsWritten(received.value) && db.vaults == old(db.vaults) && db.blobs == old(db.blobs)
    ensures received.None? ==>
      && db.blobs == old(db.blobs) + (if req.file.Some? then {req.file.value.path} else {})
      && var checked := Validate(req, now);
      && (checked.Rejected? ==> reply == Invalid(checked.error) && db.vaults == old(db.vaults))
      && (checked.Accepted? && (id in old(db.vaults) || checked.value.expiresAt > MaxDateMs) ==>
            reply == ServerError && db.vaults == old(db.vaults))
      && (checked.Accepted? && id !in old(db.vaults) && checked.value.expiresAt <= MaxDateMs ==>
            reply == Created(id) && db.vaults == old(db.vaults)[id := BuildVault(checked.value, id, OwnerOf(user), hash, now)])
    ensures reply.Created? && req.file.Some? ==> req.file.value.path in db.blobs
  {
    if received.Some? {
      return MulterReplyAsWritten(received.value);
    }
    if req.file.Some? {
      db.StoreFile(req.file.value.path);
    }
    reply := Handle(db, req, user, id, now, hash);
  }

  /** POST /upload as upload.js:96-101 intends it: a multer refusal answers 400
      with its message. Everything else is as in Create. */
  method CreateIntended(db: Db, req: UploadRequest, received: Option<Multer.MulterError>, user: UserSlot,
                        id: string, now: int, hash: string -> string)
    returns (reply: UploadReply)
    requires db.Valid()
    modifies db
    ensures db.Valid() && db.users == old(db.users)
    ensures received.Some? ==>
      reply == MulterReply(received.value) && db.vaults == old(db.vaults) && db.blobs == old(db.blobs)
    ensures received.None? ==>
      && db.blobs == old(db.blobs) + (if req.file.Some? then {req.file.value.path} else {})
      && var checked := Validate(req, now);
      && (checked.Rejected? ==> reply == Invalid(checked.error) && db.vaults == old(db.vaults))
      && (checked.Accepted? && (id in old(db.vaults) || checked.value.expiresAt > MaxDateMs) ==>
            reply == ServerError && db.vaults == old(db.vaults))
      && (checked.Accepted? && id !in old(db.vaults) && checked.value.expiresAt <= MaxDateMs ==>
            reply == Created(id) && db.vaults == old(db.vaults)[id := BuildVault(checked.value, id, OwnerOf(user), hash, now)])
  {
    if received.Some? {
      return MulterReply(received.value);
    }
    if req.file.Some? {
      db.StoreFile(req.file.value.path);
    }
    reply := Handle(db, req, user, id, now, hash);
  }
}
