/** The deploy script of the web front end (web/scripts/upload-to-static-site.mjs):
    every file of the build output is uploaded to the `$web` container under
    its '/'-separated relative path, with a content type chosen by extension
    and a cache policy that never caches HTML and caches content-hashed
    scripts and styles forever. Reading the directory, reading files and the
    uploads are parameters. */
module StaticSite {
  import opened Common
  import opened Strings
  import opened Paths
  import opened Sql
  import opened Storage

  const OctetStream: string := "application/octet-stream"

  /** `CONTENT_TYPES`, keyed by lower-case extension. */
  function KnownContentType(ext: string): Option<string> {
    if ext == ".html" then Some("text/html; charset=utf-8")
    else if ext == ".js" || ext == ".mjs" then Some("application/javascript; charset=utf-8")
    else if ext == ".css" then Some("text/css; charset=utf-8")
    else if ext == ".json" then Some("application/json; charset=utf-8")
    else if ext == ".png" then Some("image/png")
    else if ext == ".jpg" || ext == ".jpeg" then Some("image/jpeg")
    else if ext == ".gif" then Some("image/gif")
    else if ext == ".svg" then Some("image/svg+xml")
    else if ext == ".ico" then Some("image/x-icon")
    else if ext == ".txt" then Some("text/plain; charset=utf-8")
    else if ext == ".map" then Some("application/json")
    else if ext == ".woff" then Some("font/woff")
    else if ext == ".woff2" then Some("font/woff2")
    else if ext == ".ttf" then Some("font/ttf")
    else if ext == ".eot" then Some("application/vnd.ms-fontobject")
    else if ext == ".webp" then Some("image/webp")
    else if ext == ".webm" then Some("video/webm")
    else if ext == ".mp4" then Some("video/mp4")
    else if ext == ".xml" then Some("application/xml")
    else if ext == ".pdf" then Some("application/pdf")
    else None
  }

  /** getContentType: by the lower-cased extension, octet-stream when unknown. */
  function ContentType(name: string): string {
    KnownContentType(ToLower(ExtName(name))).GetOr(OctetStream)
  }

  const NoStore: string := "no-cache, no-store, must-revalidate"
  const Immutable: string := "public, max-age=31536000, immutable"
  const OneDay: string := "public, max-age=86400"

  /** js, css or mjs in any letter case. */
  predicate IsScriptExt(e: string) {
    ToLower(e) in {"js", "css", "mjs"}
  }

  /** One match of `/\.[a-f0-9]{8,}\.(js|css|mjs)$/i`: a dot at `i`, at least
      eight hex digits, a dot at `j`, and a script or style extension running
      to the end of the name. */
  predicate HashMatchAt(name: string, i: int, j: int) {
    && 0 <= i && i + 8 < j < |name|
    && name[i] == '.' && name[j] == '.'
    && (forall k :: i < k < j ==> IsHexDigit(name[k]))
    && IsScriptExt(name[j + 1..])
  }

  /** The hash pattern matches somewhere in the name. */
  ghost predicate HashPattern(name: string) {
    exists i, j :: HashMatchAt(name, i, j)
  }

  /** Where the run of hex digits that ends just before `end` begins. */
  function HexRunStart(s: string, end: int): (start: int)
    requires 0 <= end <= |s|
    ensures 0 <= start <= end
    ensures forall k :: start <= k < end ==> IsHexDigit(s[k])
    ensures start == 0 || !IsHexDigit(s[start - 1])
    decreases end
  {
    if end > 0 && IsHexDigit(s[end - 1]) then HexRunStart(s, end - 1) else end
  }

  /** The test the matcher performs, read from the end: the extension after
      the last dot, then the hex run before that dot, then the dot before the
      run. */
  predicate HashedName(name: string) {
    var j := LastIndexOf(name, '.');
    && j >= 0
    && IsScriptExt(name[j + 1..])
    && var start := HexRunStart(name, j);
       start >= 1 && j - start >= 8 && name[start - 1] == '.'
  }

  /** A run of hex digits bounded by a non-hex character starts right after it. */
  lemma {:induction false} HexRunStartAt(s: string, i: int, end: int)
    requires 0 <= i < end <= |s| && !IsHexDigit(s[i])
    requires forall k :: i < k < end ==> IsHexDigit(s[k])
    ensures HexRunStart(s, end) == i + 1
    decreases end
  {
    if end > i + 1 {
      HexRunStartAt(s, i, end - 1);
    }
  }

  /** A script extension holds neither dot nor slash. */
  lemma ScriptExtPlain(e: string)
    requires IsScriptExt(e)
    ensures '.' !in e && '/' !in e
  {
    LowerKeepsSymbol(e, '.');
    LowerKeepsSymbol(e, '/');
  }

  /** In a match, the second dot is the last dot of the name. */
  lemma MatchEndsAtLastDot(name: string, i: int, j: int)
    requires HashMatchAt(name, i, j)
    ensures LastIndexOf(name, '.') == j
  {
    ScriptExtPlain(name[j + 1..]);
    assert name == name[..j] + ['.'] + name[j + 1..];
    LastIndexOfAfter(name[..j], '.', name[j + 1..]);
  }

  /** The end-first scan accepts exactly the names the pattern matches. */
  lemma HashedNameIff(name: string)
    ensures HashedName(name) <==> HashPattern(name)
  {
    if HashPattern(name) {
      PatternIsHashed(name);
    }
    if HashedName(name) {
      HashedIsPattern(name);
    }
  }

  lemma PatternIsHashed(name: string)
    requires HashPattern(name)
    ensures HashedName(name)
  {
    var i, j :| HashMatchAt(name, i, j);
    MatchIsHashed(name, i, j);
  }

  /** The scan finds the match's second dot, then its hex run, then its first dot. */
  lemma MatchIsHashed(name: string, i: int, j: int)
    requires HashMatchAt(name, i, j)
    ensures HashedName(name)
  {
    MatchEndsAtLastDot(name, i, j);
    assert !IsHexDigit(name[i]);
    HexRunStartAt(name, i, j);
    assert HexRunStart(name, LastIndexOf(name, '.')) == i + 1;
  }

  lemma HashedIsPattern(name: string)
    requires HashedName(name)
    ensures HashPattern(name)
  {
    var j := LastIndexOf(name, '.');
    assert HashMatchAt(name, HexRunStart(name, j) - 1, j);
  }

  /** getCacheControl */
  function CacheControl(name: string): (c: string)
    ensures ToLower(ExtName(name)) == ".html" ==> c == NoStore
    ensures ToLower(ExtName(name)) != ".html" ==> (c == Immutable <==> HashPattern(name))
    ensures ToLower(ExtName(name)) != ".html" && !HashPattern(name) ==> c == OneDay
  {
    HashedNameIff(name);
    if ToLower(ExtName(name)) == ".html" then NoStore
    else if HashedName(name) then Immutable
    else OneDay
  }

  /** Lower-casing leaves a leading symbol in place. */
  lemma LowerAfterSymbol(c: char, e: string)
    requires !('A' <= c <= 'Z')
    ensures ToLower([c] + e) == [c] + ToLower(e)
  {
    assert forall k :: 0 <= k < |e| ==> ([c] + e)[k + 1] == e[k];
  }

  lemma DottedScriptExt(y: string)
    requires y in {"js", "css", "mjs"}
    ensures ['.'] + y in {".js", ".css", ".mjs"}
  {
    if y == "js" {
      assert ['.'] + y == ".js";
    } else if y == "css" {
      assert ['.'] + y == ".css";
    } else {
      assert ['.'] + y == ".mjs";
    }
  }

  /** The extension of a content-hashed name is that of a script or a style. */
  lemma HashedExt(name: string)
    requires HashPattern(name)
    ensures ToLower(ExtName(name)) in {".js", ".css", ".mjs"}
  {
    var i, j :| HashMatchAt(name, i, j);
    var e := name[j + 1..];
    MatchExt(name, i, j);
    LowerAfterSymbol('.', e);
    DottedScriptExt(ToLower(e));
  }

  /** In a match, the extension is the dot at `j` and what follows it. */
  lemma MatchExt(name: string, i: int, j: int)
    requires HashMatchAt(name, i, j)
    ensures ExtName(name) == ['.'] + name[j + 1..]
  {
    ScriptExtPlain(name[j + 1..]);
    assert IsHexDigit(name[j - 1]);
    ExtNameAt(name, j);
    assert name[j..] == ['.'] + name[j + 1..];
  }

  /** A content-hashed asset is served as a script or a style and cached
      forever: its extension is never ".html", so the HTML rule cannot
      shadow the hash rule. */
  lemma HashedAsset(name: string)
    requires HashPattern(name)
    ensures CacheControl(name) == Immutable
    ensures ContentType(name) in {"application/javascript; charset=utf-8", "text/css; charset=utf-8"}
  {
    HashedExt(name);
    var x := ToLower(ExtName(name));
    if x == ".js" {
    } else if x == ".css" {
    } else {
      assert x == ".mjs";
    }
  }

  /** `relativePath.split("\\").join("/")` */
  function BlobName(rel: string): (b: string)
    ensures b == ReplaceChar(rel, '\\', '/')
    ensures '\\' !in b
  {
    SplitJoinReplaces(rel, '\\', '/');
    Join(Split(rel, '\\'), '/')
  }

  /** A separator absent from every piece is absent from their join by another separator. */
  lemma {:induction false} JoinAvoids(parts: seq<string>, c: char, x: char)
    requires x != c && forall p :: p in parts ==> x !in p
    ensures x !in Join(parts, c)
  {
    if |parts| > 1 {
      assert forall p :: p in parts[1..] ==> p in parts;
      JoinAvoids(parts[1..], c, x);
      assert parts[0] in parts;
    }
  }

  /** Whichever separator the platform's relative path uses, the blob name is
      the path's names joined by '/'. */
  lemma BlobNameOfSegments(names: seq<string>, sep: char)
    requires |names| >= 1 && (sep == '/' || sep == '\\')
    requires forall n :: n in names ==> '/' !in n && '\\' !in n
    ensures BlobName(Join(names, sep)) == Join(names, '/')
  {
    if sep == '\\' {
      SplitJoin(names, '\\');
    } else {
      JoinAvoids(names, '/', '\\');
      ReplaceCharAbsent(Join(names, '/'), '\\', '/');
    }
  }

  /** A stored blob's HTTP headers. */
  datatype Asset = Asset(contentType: string, cacheControl: string)

  function AssetFor(blobName: string): Asset {
    Asset(ContentType(blobName), CacheControl(blobName))
  }

  /** How many of the files fail to be read or uploaded. */
  function FailureCount(files: seq<string>, put: string -> bool): (n: nat)
    ensures n <= |files|
  {
    if |files| == 0 then 0
    else FailureCount(files[..|files| - 1], put) + (if put(files[|files| - 1]) then 0 else 1)
  }

  /** The blob names of the files that are read and uploaded. */
  function UploadedBlobs(files: seq<string>, put: string -> bool): set<string> {
    if |files| == 0 then {}
    else
      var last := files[|files| - 1];
      UploadedBlobs(files[..|files| - 1], put) + (if put(last) then {BlobName(last)} else {})
  }

  /** A blob is uploaded exactly when some file that succeeds is named by it. */
  lemma {:induction false} UploadedBlobsSpec(files: seq<string>, put: string -> bool, b: string)
    ensures b in UploadedBlobs(files, put) <==> exists f :: f in files && put(f) && BlobName(f) == b
    decreases |files|
  {
    if |files| > 0 {
      var init := files[..|files| - 1];
      UploadedBlobsSpec(init, put, b);
      assert forall f :: f in files <==> f in init || f == files[|files| - 1];
    }
  }

  /** What one more file adds to the tallies. */
  lemma UploadStep(files: seq<string>, i: int, put: string -> bool)
    requires 0 <= i < |files|
    ensures UploadedBlobs(files[..i + 1], put) == UploadedBlobs(files[..i], put) + (if put(files[i]) then {BlobName(files[i])} else {})
    ensures FailureCount(files[..i + 1], put) == FailureCount(files[..i], put) + (if put(files[i]) then 0 else 1)
  {
    assert files[..i + 1][..i] == files[..i];
  }

  /** Storing one more blob keeps every stored blob's properties. */
  lemma StorePut(store: map<string, Asset>, blobs: set<string>, name: string)
    requires store.Keys == blobs && forall b :: b in store ==> store[b] == AssetFor(b)
    ensures store[name := AssetFor(name)].Keys == blobs + {name}
    ensures forall b :: b in store[name := AssetFor(name)] ==> store[name := AssetFor(name)][b] == AssetFor(b)
  {
  }

  /** The upload loop over relative paths; `put` says whether reading and
      uploading a file succeed. A failure is counted and the loop goes on. */
  method UploadAll(files: seq<string>, put: string -> bool) returns (uploaded: nat, errors: nat, store: map<string, Asset>)
    ensures uploaded + errors == |files|
    ensures errors == FailureCount(files, put)
    ensures store.Keys == UploadedBlobs(files, put)
    ensures forall b :: b in store ==> store[b] == AssetFor(b)
  {
    uploaded, errors, store := 0, 0, map[];
    var i := 0;
    while i < |files|
      invariant 0 <= i <= |files|
      invariant uploaded + errors == i
      invariant errors == FailureCount(files[..i], put)
      invariant store.Keys == UploadedBlobs(files[..i], put)
      invariant forall b :: b in store ==> store[b] == AssetFor(b)
    {
      var rel := files[i];
      var blobName := BlobName(rel);
      UploadStep(files, i, put);
      if put(rel) {
        StorePut(store, UploadedBlobs(files[..i], put), blobName);
        store := store[blobName := AssetFor(blobName)];
        uploaded := uploaded + 1;
      } else {
        errors := errors + 1;
      }
      i := i + 1;
    }
    assert files[..i] == files;
  }

  /** What a deploy run ends with: the exit code and the uploaded blobs. */
  datatype DeployResult = DeployResult(exitCode: int, store: map<string, Asset>)

  /** main: the account and key must be set, the `$web` container must exist
      and the build output must be readable and non-empty, else the script
      exits with 1 before uploading anything; after the loop it exits with 1
      when any file failed. `dist` is `None` when the directory cannot be read. */
  method Deploy(env: Env, containerExists: bool, dist: Option<seq<string>>, put: string -> bool) returns (r: DeployResult)
    ensures r.exitCode == 0 || r.exitCode == 1
    ensures r.exitCode == 0 <==>
      && IsSet(env, "AZURE_STORAGE_ACCOUNT") && IsSet(env, "AZURE_STORAGE_KEY") && containerExists
      && dist.Some? && |dist.value| > 0 && FailureCount(dist.value, put) == 0
    ensures !(IsSet(env, "AZURE_STORAGE_ACCOUNT") && IsSet(env, "AZURE_STORAGE_KEY") && containerExists && dist.Some?) ==>
      r.store == map[]
    ensures r.exitCode == 0 ==> forall f :: f in dist.value ==> BlobName(f) in r.store && r.store[BlobName(f)] == AssetFor(BlobName(f))
  {
    if !IsSet(env, "AZURE_STORAGE_ACCOUNT") || !IsSet(env, "AZURE_STORAGE_KEY") || !containerExists || dist.None? {
      return DeployResult(1, map[]);
    }
    if |dist.value| == 0 {
      return DeployResult(1, map[]);
    }
    var uploaded, errors, store := UploadAll(dist.value, put);
    if errors > 0 {
      return DeployResult(1, store);
    }
    AllSucceed(dist.value, put);
    forall f | f in dist.value ensures BlobName(f) in store {
      UploadedBlobsSpec(dist.value, put, BlobName(f));
    }
    return DeployResult(0, store);
  }

  /** With no failure counted, every file succeeded. */
  lemma {:induction false} AllSucceed(files: seq<string>, put: string -> bool)
    requires FailureCount(files, put) == 0
    ensures forall f :: f in files ==> put(f)
    decreases |files|
  {
    if |files| > 0 {
      AllSucceed(files[..|files| - 1], put);
      assert forall f :: f in files ==> f in files[..|files| - 1] || f == files[|files| - 1];
    }
  }
}
