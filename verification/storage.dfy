/** Blob-storage configuration (api/src/lib/storage.ts): which environment
    variable supplies the account, how a connection string is taken apart, the
    guard against a connection string pasted where an access key belongs, and
    opening a container, which needs that configuration. The blob clients
    themselves are not modelled; `createIfNotExists` is a parameter. */
module Storage {
  import opened Common
  import opened Strings
  import opened Seqs
  import opened Sql

  datatype AuthMode = ConnectionString | SharedKey

  datatype AccountInfo = AccountInfo(account: string, key: string, connectionString: Option<string>, authMode: AuthMode)

  /** `process.env[name]` is set to a non-empty (truthy) value. */
  predicate IsSet(env: Env, name: string) {
    name in env && env[name] != ""
  }

  const KeyLooksLikeConnectionString: Error :=
    Api(500, "BLOB_KEY appears to be a connection string. Please use the Access Key value instead (found in Azure Portal -> Storage Account -> Access keys -> Key 1 or Key 2). If you want to use a connection string, set AzureWebJobsStorage instead.", "config_error")
  const InvalidConnectionString: Error := Api(500, "Invalid storage connection string", "config_error")
  const MissingStorageConfig: Error :=
    Api(500, "Missing required storage configuration. Set AzureWebJobsStorage (connection string) or BLOB_ACCOUNT + BLOB_KEY (access key).", "config_error")

  /** validateBlobKey */
  function ValidateBlobKey(key: string): (r: Result<()>)
    ensures r.Ok? <==> !Contains(key, "DefaultEndpointsProtocol=") && !Contains(key, "AccountKey=")
    ensures r.Err? ==> r.error == KeyLooksLikeConnectionString
  {
    if Contains(key, "DefaultEndpointsProtocol=") || Contains(key, "AccountKey=") then Err(KeyLooksLikeConnectionString)
    else Ok(())
  }

  /** `value.split(";").map(trim).filter(Boolean)` */
  function Segments(value: string): (parts: seq<string>)
    ensures forall p :: p in parts ==> p != "" && ';' !in p
  {
    var pieces := Split(value, ';');
    var trimmed := TrimEach(pieces);
    forall p | p in trimmed ensures ';' !in p {
      var k :| 0 <= k < |trimmed| && trimmed[k] == p;
      assert pieces[k] in pieces;
      TrimInside(pieces[k], ';');
    }
    Filter(trimmed, NonEmpty)
  }

  /** `const [key, ...rest] = part.split("=")`, skipped when the key is empty or
      there is no '='; the value is `rest.join("=")`. */
  function EntryOf(part: string): Option<(string, string)> {
    var pieces := Split(part, '=');
    if pieces[0] == "" || |pieces| < 2 then None else Some((pieces[0], Join(pieces[1..], '=')))
  }

  /** A segment splits at its FIRST '=': the key is what precedes it and the value
      everything after it, later '=' characters included. */
  lemma EntryAtFirstEquals(part: string)
    ensures var i := IndexOf(part, '=');
      EntryOf(part) == if i <= 0 then None else Some((part[..i], part[i + 1..]))
  {
    var i := IndexOf(part, '=');
    if i >= 0 {
      SplitStep(part, '=');
      var pieces := Split(part, '=');
      assert pieces[1..] == Split(part[i + 1..], '=');
      JoinSplit(part[i + 1..], '=');
    }
  }

  predicate HasKey(part: string, key: string) {
    EntryOf(part).Some? && EntryOf(part).value.0 == key
  }

  /** The `Map` built by the loop: each entry set in turn, so a later duplicate
      key overrides an earlier one. */
  function Entries(parts: seq<string>): map<string, string>
    decreases |parts|
  {
    if |parts| == 0 then map[]
    else
      var m := Entries(parts[..|parts| - 1]);
      match EntryOf(parts[|parts| - 1])
      case None => m
      case Some((k, v)) => m[k := v]
  }

  /** Index of the last segment carrying `key`, or -1. */
  function LastWithKey(parts: seq<string>, key: string): (i: int)
    ensures -1 <= i < |parts|
    ensures i >= 0 ==> HasKey(parts[i], key)
    ensures forall j :: i < j < |parts| ==> !HasKey(parts[j], key)
    decreases |parts|
  {
    if |parts| == 0 then -1
    else if HasKey(parts[|parts| - 1], key) then |parts| - 1
    else
      var i := LastWithKey(parts[..|parts| - 1], key);
      assert forall j :: i < j < |parts| - 1 ==> parts[j] == parts[..|parts| - 1][j];
      i
  }

  /** A key is in the map exactly when some segment carries it, and its value is
      that of the last such segment. */
  lemma {:induction false} EntriesLastWins(parts: seq<string>, key: string)
    ensures key in Entries(parts) <==> LastWithKey(parts, key) >= 0
    ensures key in Entries(parts) ==> Entries(parts)[key] == EntryOf(parts[LastWithKey(parts, key)]).value.1
    decreases |parts|
  {
    if |parts| > 0 {
      var init := parts[..|parts| - 1];
      EntriesLastWins(init, key);
      if !HasKey(parts[|parts| - 1], key) {
        assert LastWithKey(parts, key) == LastWithKey(init, key);
        if LastWithKey(init, key) >= 0 {
          assert parts[LastWithKey(init, key)] == init[LastWithKey(init, key)];
        }
      }
    }
  }

  /** parseConnectionString */
  function ParseConnectionString(value: string): (r: Result<AccountInfo>)
    ensures r.Ok? ==> r.value.authMode == ConnectionString && r.value.connectionString == Some(value)
    ensures r.Ok? ==> r.value.account != "" && r.value.key != ""
    ensures r.Err? ==> r.error == InvalidConnectionString
  {
    var m := Entries(Segments(value));
    if "AccountName" !in m || m["AccountName"] == "" || "AccountKey" !in m || m["AccountKey"] == "" then
      Err(InvalidConnectionString)
    else Ok(AccountInfo(m["AccountName"], m["AccountKey"], Some(value), ConnectionString))
  }

  /** The account and key come from the last segment naming each, and the
      connection string is accepted exactly when both are present and non-empty. */
  lemma ParseConnectionStringSpec(value: string)
    ensures var parts := Segments(value);
      var a := LastWithKey(parts, "AccountName");
      var k := LastWithKey(parts, "AccountKey");
      && (ParseConnectionString(value).Ok? <==>
            a >= 0 && EntryOf(parts[a]).value.1 != "" && k >= 0 && EntryOf(parts[k]).value.1 != "")
      && (ParseConnectionString(value).Ok? ==>
            ParseConnectionString(value).value.account == EntryOf(parts[a]).value.1
            && ParseConnectionString(value).value.key == EntryOf(parts[k]).value.1)
  {
    EntriesLastWins(Segments(value), "AccountName");
    EntriesLastWins(Segments(value), "AccountKey");
  }

  /** getStorageAccountInfo: AzureWebJobsStorage, then BLOB_CONNECTION_STRING,
      then AZURE_STORAGE_CONNECTION_STRING, then BLOB_ACCOUNT with BLOB_KEY. */
  function GetStorageAccountInfo(env: Env): (r: Result<AccountInfo>)
    ensures IsSet(env, "AzureWebJobsStorage") ==> r == ParseConnectionString(env["AzureWebJobsStorage"])
    ensures !IsSet(env, "AzureWebJobsStorage") && IsSet(env, "BLOB_CONNECTION_STRING") ==>
      r == ParseConnectionString(env["BLOB_CONNECTION_STRING"])
    ensures !IsSet(env, "AzureWebJobsStorage") && !IsSet(env, "BLOB_CONNECTION_STRING") && IsSet(env, "AZURE_STORAGE_CONNECTION_STRING") ==>
      r == ParseConnectionString(env["AZURE_STORAGE_CONNECTION_STRING"])
    ensures r.Ok? && r.value.authMode == SharedKey <==>
      && !IsSet(env, "AzureWebJobsStorage") && !IsSet(env, "BLOB_CONNECTION_STRING") && !IsSet(env, "AZURE_STORAGE_CONNECTION_STRING")
      && IsSet(env, "BLOB_ACCOUNT") && IsSet(env, "BLOB_KEY") && ValidateBlobKey(env["BLOB_KEY"]).Ok?
    ensures r.Ok? && r.value.authMode == SharedKey ==>
      r.value == AccountInfo(env["BLOB_ACCOUNT"], env["BLOB_KEY"], None, SharedKey)
    ensures r.Err? ==> r.error.ApiError? && r.error.status == 500 && r.error.code == "config_error"
  {
    if IsSet(env, "AzureWebJobsStorage") then ParseConnectionString(env["AzureWebJobsStorage"])
    else if IsSet(env, "BLOB_CONNECTION_STRING") then ParseConnectionString(env["BLOB_CONNECTION_STRING"])
    else if IsSet(env, "AZURE_STORAGE_CONNECTION_STRING") then ParseConnectionString(env["AZURE_STORAGE_CONNECTION_STRING"])
    else if IsSet(env, "BLOB_ACCOUNT") && IsSet(env, "BLOB_KEY") then
      var _ :- ValidateBlobKey(env["BLOB_KEY"]);
      Ok(AccountInfo(env["BLOB_ACCOUNT"], env["BLOB_KEY"], None, SharedKey))
    else Err(MissingStorageConfig)
  }

  /** With no storage variable set at all, configuration fails. */
  lemma NoStorageConfig(env: Env)
    requires forall v :: v in ["AzureWebJobsStorage", "BLOB_CONNECTION_STRING", "AZURE_STORAGE_CONNECTION_STRING", "BLOB_ACCOUNT"] ==> !IsSet(env, v)
    ensures GetStorageAccountInfo(env) == Err(MissingStorageConfig)
  {
    assert !IsSet(env, "AzureWebJobsStorage") && !IsSet(env, "BLOB_CONNECTION_STRING");
    assert !IsSet(env, "AZURE_STORAGE_CONNECTION_STRING") && !IsSet(env, "BLOB_ACCOUNT");
  }

  /** The container names: RAW_CONTAINER / PROCESSED_CONTAINER unless undefined. */
  function RawContainerName(env: Env): string {
    Lookup(env, "RAW_CONTAINER").GetOr("raw")
  }

  function ProcessedContainerName(env: Env): string {
    Lookup(env, "PROCESSED_CONTAINER").GetOr("processed")
  }

  /** getContainerClient(name): building the service client reads the account
      configuration, which throws config_error when it is missing or malformed;
      then `create` stands for `createIfNotExists` on the named container. */
  function GetContainerClient(env: Env, create: string -> Result<()>, name: string): (r: Result<()>)
    ensures GetStorageAccountInfo(env).Err? ==> r.Err? && r.error.ApiError? && r.error.status == 500 && r.error.code == "config_error"
    ensures GetStorageAccountInfo(env).Ok? ==> r == create(name)
  {
    var _ :- GetStorageAccountInfo(env);
    create(name)
  }

  /** getRawContainerClient */
  function GetRawContainerClient(env: Env, create: string -> Result<()>): Result<()> {
    GetContainerClient(env, create, RawContainerName(env))
  }

  /** getProcessedContainerClient */
  function GetProcessedContainerClient(env: Env, create: string -> Result<()>): Result<()> {
    GetContainerClient(env, create, ProcessedContainerName(env))
  }

  /** Without any storage configuration no container opens, whatever `create` does. */
  lemma NoContainerWithoutConfig(env: Env, create: string -> Result<()>, name: string)
    requires forall v :: v in ["AzureWebJobsStorage", "BLOB_CONNECTION_STRING", "AZURE_STORAGE_CONNECTION_STRING", "BLOB_ACCOUNT"] ==> !IsSet(env, v)
    ensures GetContainerClient(env, create, name) == Err(MissingStorageConfig)
  {
    NoStorageConfig(env);
  }
}
