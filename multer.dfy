/** backend/multer.js: the MIME allow-list taken from the environment, the file
    filter, the size limit and the name a stored upload gets. Reading the
    environment is left to the caller: `allowedEnv` is ALLOWED_MIME_TYPES and
    `sizeEnvMb` is MAX_FILE_SIZE_MB already read as a number (None when unset). */
module Multer {
  import opened Js

  const DefaultAllowedTypes: seq<string> := [
    "application/pdf",
    "image/png",
    "image/jpeg",
    "text/plain",
    "application/zip",
    "application/vnd.openxmlformats-officedocument.wordprocessingml.document",
    "application/vnd.ms-excel",
    "application/vnd.openxmlformats-officedocument.spreadsheetml.sheet"
  ]

  const DefaultMaxFileSizeMb: int := 10
  const UploadDir: string := "uploads/"

  /** `.map((type) => type.trim())` */
  function TrimEach(parts: seq<string>): (r: seq<string>)
    ensures |r| == |parts|
    ensures forall i :: 0 <= i < |parts| ==> r[i] == Trim(parts[i])
  {
    seq(|parts|, i requires 0 <= i < |parts| => Trim(parts[i]))
  }

  /** `.filter(Boolean)` on strings: drops the empty ones, keeps the order. */
  function DropEmpty(xs: seq<string>): (r: seq<string>)
    ensures forall x :: x in r <==> x in xs && x != ""
    ensures |r| <= |xs|
  {
    if xs == [] then []
    else (if xs[0] == "" then [] else [xs[0]]) + DropEmpty(xs[1..])
  }

  /** `process.env.ALLOWED_MIME_TYPES || ""` */
  function RawAllowed(allowedEnv: Option<string>): string {
    if allowedEnv.Some? then allowedEnv.value else ""
  }

  /** The configured allow-list: the environment string split on ",", each entry
      trimmed, the empty ones dropped. */
  function ConfiguredTypes(allowedEnv: Option<string>): seq<string> {
    DropEmpty(TrimEach(Split(RawAllowed(allowedEnv), ',')))
  }

  /** Every configured entry is a non-blank, trimmed piece of the string between
      two commas. */
  lemma ConfiguredEntriesSound(allowedEnv: Option<string>, x: string)
    requires x in ConfiguredTypes(allowedEnv)
    ensures x != "" && IsTrimmed(x) && ',' !in x
    ensures exists part :: part in Split(RawAllowed(allowedEnv), ',') && Trim(part) == x
  {
    var parts := Split(RawAllowed(allowedEnv), ',');
    var trimmed := TrimEach(parts);
    assert x in trimmed;
    var i :| 0 <= i < |trimmed| && trimmed[i] == x;
    assert parts[i] in parts;
    assert ',' !in parts[i];
  }

  /** Every non-blank piece between commas is configured, trimmed. */
  lemma ConfiguredEntriesComplete(allowedEnv: Option<string>, part: string)
    requires part in Split(RawAllowed(allowedEnv), ',')
    requires Trim(part) != ""
    ensures Trim(part) in ConfiguredTypes(allowedEnv)
  {
    var parts := Split(RawAllowed(allowedEnv), ',');
    var i :| 0 <= i < |parts| && parts[i] == part;
    assert TrimEach(parts)[i] == Trim(part);
  }

  /** The list the file filter consults. */
  function AllowList(allowedEnv: Option<string>): (r: seq<string>)
    ensures |r| > 0
    ensures ConfiguredTypes(allowedEnv) == [] ==> r == DefaultAllowedTypes
    ensures ConfiguredTypes(allowedEnv) != [] ==> r == ConfiguredTypes(allowedEnv)
  {
    var configured := ConfiguredTypes(allowedEnv);
    if |configured| > 0 then configured else DefaultAllowedTypes
  }

  /** An environment value with no non-blank entry falls back on the defaults. */
  lemma BlankConfigFallsBack(allowedEnv: Option<string>)
    requires allowedEnv.Some? ==> forall part :: part in Split(allowedEnv.value, ',') ==> AllSpace(part)
    ensures AllowList(allowedEnv) == DefaultAllowedTypes
  {
    var raw := RawAllowed(allowedEnv);
    if allowedEnv.None? {
      assert Split(raw, ',') == [""];
    }
    BlankPartsConfigureNothing(raw);
  }

  lemma BlankPartsConfigureNothing(raw: string)
    requires forall part :: part in Split(raw, ',') ==> AllSpace(part)
    ensures DropEmpty(TrimEach(Split(raw, ','))) == []
  {
    var parts := Split(raw, ',');
    var trimmed := TrimEach(parts);
    var r := DropEmpty(trimmed);
    if r != [] {
      var x := r[0];
      assert x in r;
      assert x in trimmed && x != "";
      var i :| 0 <= i < |trimmed| && trimmed[i] == x;
      assert parts[i] in parts;
      TrimEmptyIffBlank(parts[i]);
      assert false;
    }
  }

  datatype MulterError = UnsupportedType | LimitFileSize

  function ErrorCode(e: MulterError): string {
    match e
    case UnsupportedType => "UNSUPPORTED_TYPE"
    case LimitFileSize => "LIMIT_FILE_SIZE"
  }

  /** fileFilter: a file is accepted iff its MIME type is exactly an entry of the
      allow-list; otherwise the error carries code UNSUPPORTED_TYPE. */
  function FileFilter(allowedEnv: Option<string>, mimeType: string): (r: Option<MulterError>)
    ensures r.None? <==>
      (if ConfiguredTypes(allowedEnv) == [] then mimeType in DefaultAllowedTypes
       else mimeType in ConfiguredTypes(allowedEnv))
    ensures r.Some? ==> ErrorCode(r.value) == "UNSUPPORTED_TYPE"
  {
    if mimeType in AllowList(allowedEnv) then None else Some(UnsupportedType)
  }

  /** limits.fileSize: MAX_FILE_SIZE_MB megabytes, in bytes. */
  function MaxFileSizeBytes(sizeEnvMb: Option<int>): (bytes: int)
    ensures sizeEnvMb.None? ==> bytes == 10485760
    ensures sizeEnvMb.Some? ==> bytes == sizeEnvMb.value * 1048576
  {
    (if sizeEnvMb.Some? then sizeEnvMb.value else DefaultMaxFileSizeMb) * 1024 * 1024
  }

  /** Multer's verdict on one uploaded file: the filter runs before any byte is
      stored, so a refused type is reported whatever the file's size. */
  function Admit(allowedEnv: Option<string>, sizeEnvMb: Option<int>, mimeType: string, size: int): (r: Option<MulterError>)
    ensures r == Some(UnsupportedType) <==> FileFilter(allowedEnv, mimeType).Some?
    ensures r == Some(LimitFileSize) <==> FileFilter(allowedEnv, mimeType).None? && size > MaxFileSizeBytes(sizeEnvMb)
    ensures r == None <==> FileFilter(allowedEnv, mimeType).None? && size <= MaxFileSizeBytes(sizeEnvMb)
  {
    var f := FileFilter(allowedEnv, mimeType);
    if f.Some? then f
    else if size > MaxFileSizeBytes(sizeEnvMb) then Some(LimitFileSize)
    else None
  }

  /** `Date.now() + "-" + file.originalname`. */
  function StoredFileName(timestamp: nat, originalName: string): string {
    NatToDecimal(timestamp) + "-" + originalName
  }

  /** The path the disk storage gives an upload. */
  function StoredPath(timestamp: nat, originalName: string): string {
    UploadDir + StoredFileName(timestamp, originalName)
  }

  /** The timestamp has no "-", so the stored name splits back at its first "-"
      into the timestamp and the original name. */
  lemma StoredNameRoundTrip(timestamp: nat, originalName: string)
    ensures var name := StoredFileName(timestamp, originalName);
      && '-' in name
      && var i := IndexOf(name, '-');
      && AllDigits(name[..i]) && DecimalValue(name[..i]) == timestamp
      && name[i + 1..] == originalName
  {
    var digits := NatToDecimal(timestamp);
    var name := StoredFileName(timestamp, originalName);
    assert name[|digits|] == '-';
    assert name[..|digits|] == digits;
    assert forall k :: 0 <= k < |digits| ==> digits[k] != '-';
    assert '-' !in digits;
    IndexOfFirst(name, '-', |digits|);
    assert name[|digits| + 1..] == originalName;
    DecimalRoundTrip(timestamp);
  }
}
