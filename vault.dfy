/** The vault record of backend/models/Vault.js: its fields, the schema defaults
    and the invariant that the route handlers keep. Timestamps are integers
    (milliseconds); a null field is None. */
module VaultModel {
  import opened Js

  datatype Kind = Text | File

  datatype Vault = Vault(
    id: string,
    kind: Kind,
    content: Option<string>,
    filePath: Option<string>,
    fileName: Option<string>,
    fileSize: Option<int>,
    mimeType: Option<string>,
    passwordHash: Option<string>,
    oneTime: bool,
    consumedAt: Option<int>,
    maxViews: Option<int>,
    maxDownloads: Option<int>,
    viewCount: nat,
    downloadCount: nat,
    ownerId: Option<string>,
    expiresAt: int,
    createdAt: int)

  /** The record the schema gives for the required fields alone: no payload,
      no password, no policy, no owner, counters at zero. */
  function Defaults(id: string, kind: Kind, expiresAt: int, createdAt: int): (v: Vault)
    ensures v.id == id && v.kind == kind && v.expiresAt == expiresAt && v.createdAt == createdAt
    ensures !HasPassword(v) && !v.oneTime && !Consumed(v) && v.ownerId.None?
    ensures Unlimited(v) && WithinLimits(v) && !HasFile(v)
    ensures v.viewCount == 0 && v.downloadCount == 0
    ensures v.content.None? && v.filePath.None? && v.fileName.None? && v.fileSize.None? && v.mimeType.None?
  {
    Vault(id, kind, None, None, None, None, None, None, false, None, None, None, 0, 0, None, expiresAt, createdAt)
  }

  /** `item.passwordHash` is truthy. */
  predicate HasPassword(v: Vault) {
    v.passwordHash.Some? && v.passwordHash.value != ""
  }

  /** `item.filePath` is truthy. */
  predicate HasFile(v: Vault) {
    v.filePath.Some? && v.filePath.value != ""
  }

  predicate Consumed(v: Vault) {
    v.consumedAt.Some?
  }

  predicate Unlimited(v: Vault) {
    v.maxViews.None? && v.maxDownloads.None?
  }

  /** The file a removal of v unlinks: none when filePath is falsy. */
  function FileSet(v: Vault): (s: set<string>)
    ensures |s| <= 1
    ensures HasFile(v) ==> s == {v.filePath.value}
    ensures !HasFile(v) <==> s == {}
  {
    if HasFile(v) then {v.filePath.value} else {}
  }

  predicate WithinLimits(v: Vault) {
    && (v.maxViews.Some? ==> 0 < v.maxViews.value && v.viewCount <= v.maxViews.value)
    && (v.maxDownloads.Some? ==> 0 < v.maxDownloads.value && v.downloadCount <= v.maxDownloads.value)
  }

  /** Exactly one payload: text content, or a file with its metadata. */
  predicate PayloadShape(v: Vault) {
    match v.kind
    case Text => v.content.Some? && v.filePath.None? && v.fileName.None? && v.fileSize.None? && v.mimeType.None?
    case File => v.content.None? && v.filePath.Some? && v.fileName.Some? && v.fileSize.Some? && v.mimeType.Some?
  }

  /** The invariant every stored record satisfies. */
  predicate WellFormed(v: Vault) {
    && PayloadShape(v)
    && WithinLimits(v)
    && (Consumed(v) ==> v.oneTime)
  }
}
