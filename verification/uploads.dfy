/** Direct-to-storage upload initialisation (api/src/lib/uploads.ts): the
    extension a raw upload is stored under, the blob name built from a fresh
    UUID, and the short-lived create/write SAS the browser uploads with. The
    UUID, the clock, the blob URL and the SAS signature are parameters. */
module Uploads {
  import opened Common
  import opened Strings
  import opened Paths
  import opened Sql
  import opened Storage

  /** `allowedExtensions`: the image content types with a known extension. */
  function AllowedExtension(contentType: string): Option<string> {
    if contentType == "image/jpeg" then Some(".jpg")
    else if contentType == "image/png" then Some(".png")
    else if contentType == "image/webp" then Some(".webp")
    else None
  }

  /** The shape every chosen extension has: a dot, then neither dot nor slash,
      and no upper-case letter. */
  predicate IsExtension(ext: string) {
    ext != "" && ext[0] == '.' && '.' !in ext[1..] && '/' !in ext && IsLowerWord(ext)
  }

  /** A non-empty `extname` result, lower-cased, is an extension. */
  lemma LowerExtName(p: string)
    requires ExtName(p) != ""
    ensures IsExtension(ToLower(ExtName(p)))
  {
    var e := ExtName(p);
    assert e[0] == '.' && '.' !in e[1..] && '/' !in e;
    var l := ToLower(e);
    assert l[0] == '.';
    assert l[1..] == ToLower(e[1..]);
    LowerKeepsSymbol(e[1..], '.');
    LowerKeepsSymbol(e, '/');
    assert IsLowerWord(l) by {
      forall i | 0 <= i < |l| ensures !('A' <= l[i] <= 'Z') {
        assert l[i] == LowerChar(e[i]);
      }
    }
  }

  /** resolveExtension: the file name's own extension, lower-cased, when it has
      one; else the extension of a known image content type; else ".bin". */
  function ResolveExtension(fileName: Option<string>, contentType: Option<string>): (ext: string)
    ensures IsExtension(ext)
    ensures Truthy(fileName) && ExtName(fileName.value) != "" ==> ext == ToLower(ExtName(fileName.value))
    ensures !(Truthy(fileName) && ExtName(fileName.value) != "") ==>
      ext == (if contentType.Some? && AllowedExtension(contentType.value).Some? then AllowedExtension(contentType.value).value else ".bin")
  {
    if Truthy(fileName) && ExtName(fileName.value) != "" then
      LowerExtName(fileName.value);
      ToLower(ExtName(fileName.value))
    else
      FallbackExtension(contentType)
  }

  /** The extension of a known image content type, else ".bin". */
  function FallbackExtension(contentType: Option<string>): (ext: string)
    ensures IsExtension(ext)
  {
    KnownExtensions();
    if contentType.Some? && AllowedExtension(contentType.value).Some? then
      AllowedExtension(contentType.value).value
    else ".bin"
  }

  lemma KnownExtensions()
    ensures IsExtension(".jpg") && IsExtension(".png") && IsExtension(".webp") && IsExtension(".bin")
  {
    assert ".jpg"[1..] == "jpg" && ".png"[1..] == "png" && ".webp"[1..] == "webp" && ".bin"[1..] == "bin";
  }

  /** The folder of the raw container that uploads land in. */
  const UploadFolder: string := "recipes"

  /** `recipes/${uuidv4()}${extension}` */
  function UploadBlobName(uuid: string, ext: string): string {
    UploadFolder + "/" + uuid + ext
  }

  /** Reads an upload blob name back into the UUID and the extension: the
      extension starts at the first dot after the folder. */
  function ParseUploadName(name: string): Option<(string, string)> {
    var folder := UploadFolder + "/";
    if !StartsWith(name, folder) then None
    else
      var rest := name[|folder|..];
      var d := IndexOf(rest, '.');
      if d < 0 then None else Some((rest[..d], rest[d..]))
  }

  /** A UUID as `uuidv4()` renders it: non-empty, with neither dot nor slash. */
  predicate UuidText(uuid: string) {
    uuid != "" && '.' !in uuid && '/' !in uuid
  }

  /** The blob name gives back the UUID and the extension it was built from, so
      distinct UUIDs never share a blob. */
  lemma ParseUploadNameRoundTrip(uuid: string, ext: string)
    requires UuidText(uuid) && IsExtension(ext)
    ensures ParseUploadName(UploadBlobName(uuid, ext)) == Some((uuid, ext))
  {
    var name := UploadBlobName(uuid, ext);
    var folder := UploadFolder + "/";
    assert name == folder + (uuid + ext);
    assert name[|folder|..] == uuid + ext;
    assert uuid + ext == uuid + ['.'] + ext[1..];
    IndexOfAfter(uuid, '.', ext[1..]);
  }

  lemma UploadNamesDistinct(uuid1: string, ext1: string, uuid2: string, ext2: string)
    requires UuidText(uuid1) && IsExtension(ext1) && UuidText(uuid2) && IsExtension(ext2)
    requires uuid1 != uuid2
    ensures UploadBlobName(uuid1, ext1) != UploadBlobName(uuid2, ext2)
  {
    ParseUploadNameRoundTrip(uuid1, ext1);
    ParseUploadNameRoundTrip(uuid2, ext2);
  }

  /** A UUID followed by an extension has that extension. */
  lemma StemExt(uuid: string, ext: string)
    requires UuidText(uuid) && IsExtension(ext)
    ensures '/' !in uuid + ext
    ensures ExtName(uuid + ext) == ext
  {
    assert '/' !in ext[1..] by {
      assert forall i :: 0 <= i < |ext| - 1 ==> ext[1..][i] == ext[i + 1];
    }
    assert uuid + ext == uuid + "." + ext[1..];
    ExtNameOf(uuid, ext[1..]);
  }

  /** `extname` of an upload blob name is the extension it was built with. */
  lemma UploadNameExt(uuid: string, ext: string)
    requires UuidText(uuid) && IsExtension(ext)
    ensures ExtName(UploadBlobName(uuid, ext)) == ext
  {
    StemExt(uuid, ext);
    assert UploadBlobName(uuid, ext) == UploadFolder + "/" + (uuid + ext);
    ExtNameInDir(UploadFolder, uuid + ext);
  }

  /** The stored blob keeps the chosen extension: resolving the blob name again
      reproduces it, whatever the content type. */
  lemma ResolveFromBlobName(uuid: string, ext: string, contentType: Option<string>)
    requires UuidText(uuid) && IsExtension(ext)
    ensures ResolveExtension(Some(UploadBlobName(uuid, ext)), contentType) == ext
  {
    UploadNameExt(uuid, ext);
    LowerOfLower(ext);
  }

  datatype SasProtocol = Https | HttpsAndHttp

  /** The parameters `generateBlobSASQueryParameters` signs. */
  datatype SasParams = SasParams(
    containerName: string,
    blobName: string,
    permissions: string,
    startsOn: Time,
    expiresOn: Time,
    protocol: SasProtocol)

  /** Clock values are milliseconds (`Date.now()`). */
  const UploadWindow: int := 10 * 60 * 1000
  const ClockSkew: int := 5 * 1000

  /** The SAS is accepted at time `t`. */
  predicate SasValidAt(p: SasParams, t: Time) {
    p.startsOn <= t <= p.expiresOn
  }

  /** The SAS grants operation `op` (one of the letters of `BlobSASPermissions`). */
  predicate Grants(p: SasParams, op: char) {
    op in p.permissions
  }

  /** The answer of createUploadInit; `expiresOn` is the SAS expiry. */
  datatype UploadInit = UploadInit(blobName: string, rawBlobUrl: string, uploadUrl: string, expiresOn: Time)

  /** The SAS the upload URL carries for `blobName`, issued at `now`: it names
      that container and blob, allows create and write only, over HTTPS only,
      from five seconds before `now` until ten minutes after it. */
  function UploadSas(container: string, blobName: string, now: Time): (p: SasParams)
    ensures p.containerName == container && p.blobName == blobName && p.protocol == Https
    ensures forall t :: SasValidAt(p, t) <==> now - 5000 <= t <= now + 600000
    ensures forall op :: Grants(p, op) <==> op == 'c' || op == 'w'
  {
    SasParams(container, blobName, "cw", now - ClockSkew, now + UploadWindow, Https)
  }

  /** createUploadInit. `uuid` is the fresh `uuidv4()`, `create` the
      container's `createIfNotExists`, `urlOf` the blob client's URL for a
      container and blob, `sign` the SAS serialisation with the account's
      shared-key credential. Opening the raw container throws when storage is
      not configured or the container cannot be created; the credential is
      then read from a configuration already known to be valid. */
  function CreateUploadInit(
    fileName: Option<string>, contentType: Option<string>, env: Env, create: string -> Result<()>,
    uuid: string, now: Time,
    urlOf: (string, string) -> string, sign: SasParams -> string): (r: Result<UploadInit>)
    ensures r.Ok? <==> GetRawContainerClient(env, create).Ok?
    ensures r.Err? ==> r.error == GetRawContainerClient(env, create).error
    ensures r.Ok? ==> r.value.rawBlobUrl == urlOf(RawContainerName(env), r.value.blobName)
    ensures r.Ok? ==> StartsWith(r.value.uploadUrl, r.value.rawBlobUrl + "?")
    ensures r.Ok? ==> r.value.uploadUrl[|r.value.rawBlobUrl| + 1..] == sign(UploadSas(RawContainerName(env), r.value.blobName, now))
  {
    var ext := ResolveExtension(fileName, contentType);
    var blobName := UploadBlobName(uuid, ext);
    var _ :- GetRawContainerClient(env, create);
    var container := RawContainerName(env);
    var url := urlOf(container, blobName);
    // getStorageCredential reads the configuration the open has already accepted
    var sas := sign(UploadSas(container, blobName, now));
    assert (url + "?" + sas)[..|url| + 1] == url + "?";
    Ok(UploadInit(blobName, url, url + "?" + sas, now + UploadWindow))
  }

  /** What an upload initialisation hands out: a blob named after the UUID and
      the resolved extension, a SAS for exactly that blob, and the expiry of
      that SAS as the reported expiry. */
  lemma CreateUploadInitSpec(
    fileName: Option<string>, contentType: Option<string>, env: Env, create: string -> Result<()>,
    uuid: string, now: Time,
    urlOf: (string, string) -> string, sign: SasParams -> string)
    requires UuidText(uuid)
    ensures var r := CreateUploadInit(fileName, contentType, env, create, uuid, now, urlOf, sign);
      r.Ok? ==>
        && ParseUploadName(r.value.blobName) == Some((uuid, ResolveExtension(fileName, contentType)))
        && ExtName(r.value.blobName) == ResolveExtension(fileName, contentType)
        && UploadSas(RawContainerName(env), r.value.blobName, now).expiresOn == r.value.expiresOn
  {
    var r := CreateUploadInit(fileName, contentType, env, create, uuid, now, urlOf, sign);
    if r.Ok? {
      var ext := ResolveExtension(fileName, contentType);
      assert r.value.blobName == UploadBlobName(uuid, ext);
      ParseUploadNameRoundTrip(uuid, ext);
      UploadNameExt(uuid, ext);
    }
  }

  /** Without any storage configuration no upload can be initialised. */
  lemma NoUploadWithoutConfig(
    fileName: Option<string>, contentType: Option<string>, env: Env, create: string -> Result<()>,
    uuid: string, now: Time,
    urlOf: (string, string) -> string, sign: SasParams -> string)
    requires forall v :: v in ["AzureWebJobsStorage", "BLOB_CONNECTION_STRING", "AZURE_STORAGE_CONNECTION_STRING", "BLOB_ACCOUNT"] ==> !IsSet(env, v)
    ensures CreateUploadInit(fileName, contentType, env, create, uuid, now, urlOf, sign) == Err(MissingStorageConfig)
  {
    NoContainerWithoutConfig(env, create, RawContainerName(env));
  }
}
