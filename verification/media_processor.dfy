/** The media worker (api/src/workers/mediaProcessor.ts and the queue trigger
    api/src/workers/mediaProcess.ts): derive the two renditions of a raw upload,
    store them under the recipe's processed names, record their URLs on the
    recipe, and project the recipe into the feed. The stores are explicit state;
    image derivation and blob URLs are injected, as the worker's own dependency
    record does. */
module MediaProcessor {
  import opened Common
  import opened Schema
  import opened RecipesRepo
  import opened Media
  import opened CosmosRepo
  import opened Storage
  import opened Sql

  type Bytes = seq<bv8>

  datatype MediaJob = MediaJob(recipeId: string, blobName: string)

  /** The two outputs of generateImages. */
  datatype Renditions = Renditions(thumb: Bytes, main: Bytes)

  /** A processed blob with the HTTP headers it is uploaded with. */
  datatype StoredBlob = StoredBlob(data: Bytes, contentType: string, cacheControl: string)

  /** Everything the worker reads or writes: the SQL database, the raw and the
      processed blob containers, and the feed container. */
  datatype World = World(db: Db, raw: map<string, Bytes>, processed: map<string, StoredBlob>, feed: seq<FeedItem>)

  /** The collaborators that are not stores: image derivation (which may throw),
      the URL of a blob in the processed container, the environment the
      container helpers read, `createIfNotExists` by container name, the
      outcome of `uploadData` by processed blob name, and the outcome of the
      feed upsert (a Cosmos configuration error or a rejected call). */
  datatype Deps = Deps(
    generateImages: Bytes -> Result<Renditions>,
    blobUrl: string -> string,
    env: Env,
    create: string -> Result<()>,
    upload: string -> Result<()>,
    upsertFeed: Result<()>)

  datatype Processed = Processed(recipeId: Id, imageUrl: string, thumbUrl: string)

  const InvalidJob: Error := Api(400, "Invalid media job payload", "invalid_job")
  const RecipeMissing: Error := Api(404, "Recipe not found for media processing", "not_found")
  /** What the blob client throws for a raw blob that does not exist. */
  const RawBlobMissing: Error := OtherError("BlobNotFound")

  const WebpType: string := "image/webp"
  const OneYear: string := "public, max-age=31536000"

  /** uploadProcessedBlob: overwrite the named blob; the URL is the blob's own. */
  function Upload(processed: map<string, StoredBlob>, name: string, data: Bytes): map<string, StoredBlob> {
    processed[name := StoredBlob(data, WebpType, OneYear)]
  }

  /** One upload that went through writes its blob; a failed one writes nothing. */
  function UploadIf(processed: map<string, StoredBlob>, put: Result<()>, name: string, data: Bytes): (r: map<string, StoredBlob>)
    ensures r.Keys == processed.Keys + (if put.Ok? then {name} else {})
    ensures put.Ok? ==> r[name] == StoredBlob(data, WebpType, OneYear)
    ensures forall n :: n in processed && (n != name || put.Err?) ==> r[n] == processed[n]
  {
    if put.Ok? then Upload(processed, name, data) else processed
  }

  /** The job gets as far as the two uploads: it is well formed, the raw
      container opens and holds the blob, the derivation succeeds and the
      processed container opens. */
  predicate ReachesUploads(w: World, deps: Deps, job: MediaJob) {
    && JobValid(job)
    && GetRawContainerClient(deps.env, deps.create).Ok?
    && job.blobName in w.raw
    && deps.generateImages(w.raw[job.blobName]).Ok?
    && GetProcessedContainerClient(deps.env, deps.create).Ok?
  }

  /** The feed document of a recipe whose thumbnail is at thumbUrl. */
  function FeedItemFor(recipeId: Id, row: RecipeRow, thumbUrl: string): (d: FeedItem)
    ensures FeedKey(d) == (recipeId, FeedPartition) && d.recipeId == recipeId
  {
    FeedItem(recipeId, FeedPartition, recipeId, row.title, Some(thumbUrl), row.createdAt)
  }

  predicate JobValid(job: MediaJob) {
    job.recipeId != "" && job.blobName != ""
  }

  /** The steps before the uploads: open the raw container, download the blob,
      derive the renditions, open the processed container. The first step
      that fails is the error; only the raw container is read. */
  function Derive(raw: map<string, Bytes>, deps: Deps, job: MediaJob): (r: Result<Renditions>)
    ensures r.Ok? <==>
      && GetRawContainerClient(deps.env, deps.create).Ok?
      && job.blobName in raw
      && deps.generateImages(raw[job.blobName]).Ok?
      && GetProcessedContainerClient(deps.env, deps.create).Ok?
    ensures r.Ok? ==> r.value == deps.generateImages(raw[job.blobName]).value
  {
    if GetRawContainerClient(deps.env, deps.create).Err? then Err(GetRawContainerClient(deps.env, deps.create).error)
    else if job.blobName !in raw then Err(RawBlobMissing)
    else
      var images := deps.generateImages(raw[job.blobName]);
      if images.Err? then images
      else if GetProcessedContainerClient(deps.env, deps.create).Err? then
        Err(GetProcessedContainerClient(deps.env, deps.create).error)
      else images
  }

  /** The steps after both uploads: record the two URLs on the recipe, re-read
      it, upsert its feed document. A recipe that is gone is the error; a
      failed upsert is the error with the row already updated. The blob
      containers are not touched. */
  function Finish(w: World, deps: Deps, job: MediaJob, now: Time): (r: (World, Result<Processed>))
    ensures r.0.raw == w.raw && r.0.processed == w.processed
  {
    var names := ProcessedBlobNames(job.recipeId);
    var thumbUrl := deps.blobUrl(names.thumbName);
    var imageUrl := deps.blobUrl(names.imageName);
    var db := SetRecipeImages(w.db, job.recipeId, imageUrl, thumbUrl, now);
    match GetRecipeById(db, job.recipeId)
    case None => (w.(db := db), Err(RecipeMissing))
    case Some(recipe) =>
      if deps.upsertFeed.Err? then (w.(db := db), Err(deps.upsertFeed.error))
      else
        var feed := UpsertFeedItem(w.feed, FeedItemFor(job.recipeId, recipe.row, thumbUrl));
        (w.(db := db, feed := feed), Ok(Processed(job.recipeId, imageUrl, thumbUrl)))
  }

  /** The processor: validate, open the raw container and download, derive,
      open the processed container and upload both renditions side by side,
      record their URLs, re-read the recipe, upsert its feed document. Effects
      already made stay made when a later step throws (there is no
      transaction): when one upload fails the other still lands. The processed
      container changes only under the two names derived from the recipe id,
      whatever the raw blob is called. */
  function Process(w: World, deps: Deps, job: MediaJob, now: Time): (r: (World, Result<Processed>))
    // a malformed job is refused before any effect
    ensures !JobValid(job) ==> r == (w, Err(InvalidJob))
    // outputs land only under the names derived from the recipe id, never the raw blob's name
    ensures var names := ProcessedBlobNames(job.recipeId);
      && r.0.processed.Keys <= w.processed.Keys + {names.thumbName, names.imageName}
      && (forall n :: n in w.processed && n != names.thumbName && n != names.imageName ==>
            n in r.0.processed && r.0.processed[n] == w.processed[n])
    // the raw container is only read
    ensures r.0.raw == w.raw
  {
    if !JobValid(job) then (w, Err(InvalidJob))
    else
      match Derive(w.raw, deps, job)
      case Err(e) => (w, Err(e))
      case Ok(images) =>
        var names := ProcessedBlobNames(job.recipeId);
        var thumbPut := deps.upload(names.thumbName);
        var imagePut := deps.upload(names.imageName);
        var processed := UploadIf(UploadIf(w.processed, thumbPut, names.thumbName, images.thumb), imagePut, names.imageName, images.main);
        if thumbPut.Err? then (w.(processed := processed), Err(thumbPut.error))
        else if imagePut.Err? then (w.(processed := processed), Err(imagePut.error))
        else Finish(w.(processed := processed), deps, job, now)
  }

  /** The blob map after the two uploads of a job that reaches them. */
  function Uploaded(w: World, deps: Deps, job: MediaJob): map<string, StoredBlob>
    requires ReachesUploads(w, deps, job)
  {
    var names := ProcessedBlobNames(job.recipeId);
    var images := deps.generateImages(w.raw[job.blobName]).value;
    UploadIf(UploadIf(w.processed, deps.upload(names.thumbName), names.thumbName, images.thumb),
             deps.upload(names.imageName), names.imageName, images.main)
  }

  /** A job that reaches the uploads ends as the uploads leave it: a failed
      upload is the error (the thumbnail's first), otherwise the job finishes. */
  lemma ProcessAtUploads(w: World, deps: Deps, job: MediaJob, now: Time)
    requires ReachesUploads(w, deps, job)
    ensures var names := ProcessedBlobNames(job.recipeId);
      var w2 := w.(processed := Uploaded(w, deps, job));
      Process(w, deps, job, now) ==
        if deps.upload(names.thumbName).Err? then (w2, Err(deps.upload(names.thumbName).error))
        else if deps.upload(names.imageName).Err? then (w2, Err(deps.upload(names.imageName).error))
        else Finish(w2, deps, job, now)
  {
  }

  /** Finishing answers the two URLs exactly when the recipe exists and the
      feed upsert goes through. A missing recipe changes nothing and is
      not_found; a failed upsert is its own error, with the row already
      pointing at the URLs and the feed as it was. */
  lemma FinishOutcome(w: World, deps: Deps, job: MediaJob, now: Time)
    requires Valid(w.db)
    ensures var (w', r) := Finish(w, deps, job, now);
      var names := ProcessedBlobNames(job.recipeId);
      && (r.Ok? <==> job.recipeId in RecipeIds(w.db) && deps.upsertFeed.Ok?)
      && (r.Ok? ==> r.value == Processed(job.recipeId, deps.blobUrl(names.imageName), deps.blobUrl(names.thumbName)))
      && (job.recipeId !in RecipeIds(w.db) ==> w' == w && r == Err(RecipeMissing))
      && (job.recipeId in RecipeIds(w.db) && deps.upsertFeed.Err? ==>
            && r == Err(deps.upsertFeed.error)
            && w' == w.(db := SetRecipeImages(w.db, job.recipeId, deps.blobUrl(names.imageName), deps.blobUrl(names.thumbName), now)))
  {
    var names := ProcessedBlobNames(job.recipeId);
    SetRecipeImagesSpec(w.db, job.recipeId, deps.blobUrl(names.imageName), deps.blobUrl(names.thumbName), now);
  }

  /** The job succeeds exactly when it is well formed, the raw container opens
      and holds its blob, the derivation succeeds, the processed container
      opens, both uploads go through, the recipe exists and its feed document
      is upserted. Each earlier step that fails is the job's error and leaves
      everything as it was; a failed upload is the error (the thumbnail's
      first), with only blobs written; then a missing recipe is the error; a
      failed feed upsert comes last and leaves the recipe row pointing at the
      new URLs. No failure touches the raw container or the feed, and only the
      failed upsert touches the database. */
  lemma ProcessOutcome(w: World, deps: Deps, job: MediaJob, now: Time)
    requires Valid(w.db)
    ensures var (w', r) := Process(w, deps, job, now);
      var names := ProcessedBlobNames(job.recipeId);
      && (r.Ok? <==>
            ReachesUploads(w, deps, job)
            && deps.upload(names.thumbName).Ok? && deps.upload(names.imageName).Ok?
            && job.recipeId in RecipeIds(w.db) && deps.upsertFeed.Ok?)
      && (r.Err? ==> w'.raw == w.raw && w'.feed == w.feed)
      && (r.Err? && !(ReachesUploads(w, deps, job) && deps.upload(names.thumbName).Ok?
                      && deps.upload(names.imageName).Ok? && job.recipeId in RecipeIds(w.db)) ==>
            w'.db == w.db)
      && (!ReachesUploads(w, deps, job) ==> w' == w && r.Err?)
      && (JobValid(job) && GetRawContainerClient(deps.env, deps.create).Err? ==>
            r == Err(GetRawContainerClient(deps.env, deps.create).error))
      && (JobValid(job) && GetRawContainerClient(deps.env, deps.create).Ok? && job.blobName !in w.raw ==>
            r == Err(RawBlobMissing))
      && (JobValid(job) && GetRawContainerClient(deps.env, deps.create).Ok? && job.blobName in w.raw
          && deps.generateImages(w.raw[job.blobName]).Err? ==>
            r == Err(deps.generateImages(w.raw[job.blobName]).error))
      && (JobValid(job) && GetRawContainerClient(deps.env, deps.create).Ok? && job.blobName in w.raw
          && deps.generateImages(w.raw[job.blobName]).Ok? && GetProcessedContainerClient(deps.env, deps.create).Err? ==>
            r == Err(GetProcessedContainerClient(deps.env, deps.create).error))
      && (ReachesUploads(w, deps, job) && deps.upload(names.thumbName).Err? ==>
            r == Err(deps.upload(names.thumbName).error))
      && (ReachesUploads(w, deps, job) && deps.upload(names.thumbName).Ok? && deps.upload(names.imageName).Err? ==>
            r == Err(deps.upload(names.imageName).error))
      && (ReachesUploads(w, deps, job) && deps.upload(names.thumbName).Ok? && deps.upload(names.imageName).Ok?
          && job.recipeId !in RecipeIds(w.db) ==>
            r == Err(RecipeMissing))
      && (ReachesUploads(w, deps, job) && deps.upload(names.thumbName).Ok? && deps.upload(names.imageName).Ok?
          && job.recipeId in RecipeIds(w.db) && deps.upsertFeed.Err? ==>
            && r == Err(deps.upsertFeed.error)
            && w'.db == SetRecipeImages(w.db, job.recipeId, deps.blobUrl(names.imageName), deps.blobUrl(names.thumbName), now))
  {
    if ReachesUploads(w, deps, job) {
      ProcessAtUploads(w, deps, job, now);
      FinishOutcome(w.(processed := Uploaded(w, deps, job)), deps, job, now);
    }
  }

  /** Once the job reaches the uploads, each rendition whose upload goes
      through is stored under its derived name with the WebP headers, whether
      or not the other one fails; a failed upload leaves its name as it was. */
  lemma ProcessUploadsBoth(w: World, deps: Deps, job: MediaJob, now: Time)
    requires ReachesUploads(w, deps, job)
    ensures var w' := Process(w, deps, job, now).0;
      var names := ProcessedBlobNames(job.recipeId);
      var images := deps.generateImages(w.raw[job.blobName]).value;
      && w'.processed.Keys == w.processed.Keys
           + (if deps.upload(names.thumbName).Ok? then {names.thumbName} else {})
           + (if deps.upload(names.imageName).Ok? then {names.imageName} else {})
      && (deps.upload(names.thumbName).Ok? ==> w'.processed[names.thumbName] == StoredBlob(images.thumb, WebpType, OneYear))
      && (deps.upload(names.imageName).Ok? ==> w'.processed[names.imageName] == StoredBlob(images.main, WebpType, OneYear))
      && (deps.upload(names.thumbName).Err? && names.thumbName in w.processed ==>
            w'.processed[names.thumbName] == w.processed[names.thumbName])
      && (deps.upload(names.imageName).Err? && names.imageName in w.processed ==>
            w'.processed[names.imageName] == w.processed[names.imageName])
  {
    ProcessAtUploads(w, deps, job, now);
    ThumbNotImage(job.recipeId);
    assert Process(w, deps, job, now).0.processed == Uploaded(w, deps, job);
  }

  /** Finishing with the recipe present points its row at the two URLs (main
      image first, thumbnail second) whatever the feed upsert does. When the
      upsert goes through, the feed holds exactly one document for the recipe:
      its title, creation time and thumbnail URL; when it fails, that error is
      the result and the feed is as it was. */
  lemma FinishSuccess(w: World, deps: Deps, job: MediaJob, now: Time)
    requires Valid(w.db) && FeedValid(w.feed)
    requires job.recipeId in RecipeIds(w.db)
    ensures var (w', r) := Finish(w, deps, job, now);
      var names := ProcessedBlobNames(job.recipeId);
      var before := FindRecipe(w.db, job.recipeId).value;
      var imageUrl := deps.blobUrl(names.imageName);
      var thumbUrl := deps.blobUrl(names.thumbName);
      && FindRecipe(w'.db, job.recipeId) == Some(before.(imageUrl := Some(imageUrl), thumbUrl := Some(thumbUrl), updatedAt := now))
      && Valid(w'.db) && FeedValid(w'.feed)
      && (deps.upsertFeed.Err? ==> r == Err(deps.upsertFeed.error) && w'.feed == w.feed)
      && (deps.upsertFeed.Ok? ==>
            && r == Ok(Processed(job.recipeId, imageUrl, thumbUrl))
            && (forall d :: d in w'.feed && FeedKey(d) == (job.recipeId, FeedPartition) ==>
                  d == FeedItem(job.recipeId, FeedPartition, job.recipeId, before.title, Some(thumbUrl), before.createdAt))
            && (exists d :: d in w'.feed && FeedKey(d) == (job.recipeId, FeedPartition)))
  {
    var names := ProcessedBlobNames(job.recipeId);
    var thumbUrl := deps.blobUrl(names.thumbName);
    var imageUrl := deps.blobUrl(names.imageName);
    SetRecipeImagesSpec(w.db, job.recipeId, imageUrl, thumbUrl, now);
    var db := SetRecipeImages(w.db, job.recipeId, imageUrl, thumbUrl, now);
    var row := GetRecipeById(db, job.recipeId).value.row;
    assert row == FindRecipe(db, job.recipeId).value by {
      FindRecipeUnique(db, row);
    }
    UpsertFeedItemHolds(w.feed, FeedItemFor(job.recipeId, row, thumbUrl));
  }

  /** On success the result carries the two upload URLs, the recipe row points at
      them (main image first, thumbnail second), and the feed holds exactly one
      document for the recipe: its title, creation time and thumbnail URL. */
  lemma ProcessSuccess(w: World, deps: Deps, job: MediaJob, now: Time)
    requires Valid(w.db) && FeedValid(w.feed)
    requires Process(w, deps, job, now).1.Ok?
    ensures job.recipeId in RecipeIds(w.db)
    ensures var (w', r) := Process(w, deps, job, now);
      var names := ProcessedBlobNames(job.recipeId);
      var before := FindRecipe(w.db, job.recipeId).value;
      && r.value == Processed(job.recipeId, deps.blobUrl(names.imageName), deps.blobUrl(names.thumbName))
      && FindRecipe(w'.db, job.recipeId) == Some(before.(imageUrl := Some(r.value.imageUrl), thumbUrl := Some(r.value.thumbUrl), updatedAt := now))
      && Valid(w'.db) && FeedValid(w'.feed)
      && (forall d :: d in w'.feed && FeedKey(d) == (job.recipeId, FeedPartition) ==>
            d == FeedItem(job.recipeId, FeedPartition, job.recipeId, before.title, Some(r.value.thumbUrl), before.createdAt))
      && (exists d :: d in w'.feed && FeedKey(d) == (job.recipeId, FeedPartition))
  {
    ProcessOutcome(w, deps, job, now);
    ProcessAtUploads(w, deps, job, now);
    FinishSuccess(w.(processed := Uploaded(w, deps, job)), deps, job, now);
  }

  /** Finishing twice finishes once. */
  lemma FinishConverges(w: World, deps: Deps, job: MediaJob, now: Time)
    requires Finish(w, deps, job, now).1.Ok?
    ensures var (w1, r1) := Finish(w, deps, job, now);
      Finish(w1, deps, job, now) == (w1, r1)
  {
    var names := ProcessedBlobNames(job.recipeId);
    var thumbUrl := deps.blobUrl(names.thumbName);
    var imageUrl := deps.blobUrl(names.imageName);
    var db1 := SetRecipeImages(w.db, job.recipeId, imageUrl, thumbUrl, now);
    SetRecipeImagesIdempotent(w.db, job.recipeId, imageUrl, thumbUrl, now);
    var item := FeedItemFor(job.recipeId, GetRecipeById(db1, job.recipeId).value.row, thumbUrl);
    UpsertFeedItemIdempotent(w.feed, item);
  }

  /** Running the same job again on the world it produced, with the same
      collaborators and clock, changes nothing and answers the same: the blob
      names, the recipe's pointers and the single feed document converge. */
  lemma ProcessConverges(w: World, deps: Deps, job: MediaJob, now: Time)
    requires Process(w, deps, job, now).1.Ok?
    ensures var (w1, r1) := Process(w, deps, job, now);
      Process(w1, deps, job, now) == (w1, r1)
  {
    var w2 := w.(processed := Uploaded(w, deps, job));
    ProcessAtUploads(w, deps, job, now);
    FinishConverges(w2, deps, job, now);
    var w1 := Finish(w2, deps, job, now).0;
    UploadedAgain(w, w1, deps, job);
    ProcessAtUploads(w1, deps, job, now);
    assert w1.(processed := Uploaded(w1, deps, job)) == w1;
  }

  /** Uploading both renditions again over the blobs they produced rewrites
      the same blobs. */
  lemma UploadedAgain(w: World, w1: World, deps: Deps, job: MediaJob)
    requires ReachesUploads(w, deps, job)
    requires deps.upload(ProcessedBlobNames(job.recipeId).thumbName).Ok?
    requires deps.upload(ProcessedBlobNames(job.recipeId).imageName).Ok?
    requires w1.raw == w.raw && w1.processed == Uploaded(w, deps, job)
    ensures ReachesUploads(w1, deps, job) && Uploaded(w1, deps, job) == w1.processed
  {
    var names := ProcessedBlobNames(job.recipeId);
    var images := deps.generateImages(w.raw[job.blobName]).value;
    UploadBothAgain(w.processed, names.thumbName, images.thumb, names.imageName, images.main);
  }

  lemma UploadBothAgain(processed: map<string, StoredBlob>, a: string, x: Bytes, b: string, y: Bytes)
    ensures var once := Upload(Upload(processed, a, x), b, y);
      Upload(Upload(once, a, x), b, y) == once
  {
    var once := Upload(Upload(processed, a, x), b, y);
    assert Upload(Upload(once, a, x), b, y).Keys == once.Keys;
  }

  // ---------------------------------------------------------------------
  // Queue trigger: decoding a message into a job.
  // ---------------------------------------------------------------------

  /** A payload object: each property absent or a string (properties of other
      JSON types are not represented). */
  datatype Payload = Payload(recipeId: Option<string>, blobName: Option<string>)

  /** What JSON.parse makes of a text: null, an object, another value (number,
      string, boolean, array: none has the two properties), or a syntax error. */
  datatype Parsed = ParsedNull | ParsedObject(payload: Payload) | ParsedOther | SyntaxError

  /** A queue message as the runtime hands it over. */
  datatype Message = TextMessage(text: string) | ObjectMessage(payload: Payload) | NullMessage | OtherMessage

  const EmptyPayload: Payload := Payload(None, None)

  /** The payload the trigger reads properties from; a message that parses to
      null is kept as null, and reading a property of it throws. */
  function PayloadOf(msg: Message, parse: string -> Parsed): (r: Result<Payload>)
    ensures r.Err? <==> msg.TextMessage? && parse(msg.text).ParsedNull?
  {
    match msg
    case TextMessage(text) =>
      (match parse(text)
       case ParsedNull => Err(OtherError("TypeError: Cannot read properties of null"))
       case ParsedObject(p) => Ok(p)
       case _ => Ok(EmptyPayload))
    case ObjectMessage(p) => Ok(p)
    case _ => Ok(EmptyPayload)
  }

  /** `{ recipeId: payload.recipeId ?? "", blobName: payload.blobName ?? "" }` */
  function JobOf(p: Payload): (job: MediaJob)
    ensures JobValid(job) <==> p.recipeId.Some? && p.recipeId.value != "" && p.blobName.Some? && p.blobName.value != ""
    ensures JobValid(job) ==> job == MediaJob(p.recipeId.value, p.blobName.value)
  {
    MediaJob(p.recipeId.GetOr(""), p.blobName.GetOr(""))
  }

  /** The job the trigger builds. Text that is not JSON, JSON that is not an
      object, and messages that are neither text nor an object all give the
      empty payload, hence the job with two empty fields. */
  function DecodeMessage(msg: Message, parse: string -> Parsed): (r: Result<MediaJob>)
    ensures r.Err? <==> msg.TextMessage? && parse(msg.text).ParsedNull?
    ensures msg.NullMessage? || msg.OtherMessage? ==> r == Ok(MediaJob("", ""))
    ensures msg.TextMessage? && (parse(msg.text).SyntaxError? || parse(msg.text).ParsedOther?) ==>
      r == Ok(MediaJob("", ""))
    ensures msg.ObjectMessage? ==> r == Ok(JobOf(msg.payload))
  {
    var p :- PayloadOf(msg, parse);
    Ok(JobOf(p))
  }

  /** The queue handler: decode, then process. Payload properties are modelled
      as strings only: among such messages, one that does not carry both
      properties as non-empty strings ends in invalid_job with nothing changed,
      and only a message whose text is JSON null ends in a TypeError instead.
      A truthy property of another JSON type (a number, say) is not
      represented. */
  function HandleMessage(w: World, deps: Deps, msg: Message, parse: string -> Parsed, now: Time): (r: (World, Result<Processed>))
    ensures DecodeMessage(msg, parse).Ok? && !JobValid(DecodeMessage(msg, parse).value) ==> r == (w, Err(InvalidJob))
    ensures DecodeMessage(msg, parse).Err? ==> r.0 == w && r.1.Err? && r.1.error != InvalidJob
  {
    match DecodeMessage(msg, parse)
    case Err(e) => (w, Err(e))
    case Ok(job) => Process(w, deps, job, now)
  }
}
