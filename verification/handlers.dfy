/** The recipe HTTP functions (api/src/functions/recipesCreate.ts,
    recipesUpdate.ts, recipesDelete.ts, recipesPublish.ts, recipesModeration.ts,
    recipesReprocessImage.ts): the route-id and body checks in front of the
    repository, the media-queue output, the best-effort cleanup after a delete
    and the moderation webhook after a publish. Each function maps the store
    and the request to the new store and a response, or the error it throws;
    the wrapper of the Http module turns that error into the error response. */
module Handlers {
  import opened Common
  import opened Schema
  import opened Sql
  import opened Associations
  import opened Validation
  import opened Http
  import opened RecipesRepo
  import opened Media
  import opened CosmosRepo
  import opened MediaProcessor
  import opened LogicApp
  import opened Storage

  /** Everything the recipe functions touch: the stores the media worker uses,
      the comments container, the media queue (the messages put on it, in
      order) and the webhook POSTs sent. */
  datatype Store = Store(world: World, comments: seq<Comment>, queue: seq<MediaJob>, webhooks: seq<WebhookCall>)

  const MissingId: Error := Api(400, "Recipe id is required", "invalid_request")
  const RecipeNotFound: Error := Api(404, "Recipe not found", "not_found")
  const NoRawImage: Error := Api(400, "Recipe has no raw image to process", "no_raw_image")

  /** `request.params.id`, refused when missing or empty. */
  function RouteId(request: Request): (r: Result<Id>)
    ensures r.Ok? <==> Truthy(Lookup(request.params, "id"))
    ensures r.Ok? ==> r.value == request.params["id"]
    ensures r.Err? ==> r.error == MissingId
  {
    var id := Lookup(request.params, "id");
    if Truthy(id) then Ok(id.value) else Err(MissingId)
  }

  /** `asRecord(await readJson(request))`: the properties of a JSON object body. */
  function BodyRecord(request: Request): (r: Result<map<string, Json>>)
    ensures r.Ok? <==> request.body.Some? && request.body.value.JObject?
    ensures r.Ok? ==> r.value == request.body.value.fields
    ensures request.body.None? ==> r == Err(InvalidJson)
    ensures request.body.Some? && !request.body.value.JObject? ==> r == Err(Fail("body", "must be an object"))
  {
    var body :- ReadJson(request);
    AsRecord(body, "body")
  }

  // ---------------------------------------------------------------------
  // What a body property means, independently of the readers.
  // ---------------------------------------------------------------------

  /** The text of a property, null for anything else: `value ?? null` of an
      accepted optional string. */
  function TextOf(value: Json): Option<string> {
    if value.JString? then Some(value.s) else None
  }

  /** The three-way signal of a partial update: a missing property leaves the
      column alone, null clears it, a string sets it. */
  function SignalOf(value: Json): Field<string> {
    match value
    case JString(s) => Present(s)
    case JNull => Null
    case _ => Absent
  }

  /** The strings of a property that holds an array of strings, null for anything else. */
  function StringsOf(value: Json): Option<seq<string>> {
    if value.JArray? then Some(seq(|value.items|, k requires 0 <= k < |value.items| => TextOf(value.items[k]).GetOr(""))) else None
  }

  /** An optional string property the readers accept: missing, null, or a
      string of at least minLength characters. */
  predicate TextAccepted(value: Json, minLength: nat) {
    value.JUndefined? || value.JNull? || (value.JString? && |value.s| >= minLength)
  }

  /** An optional array of strings the readers accept. */
  predicate StringsAccepted(value: Json, minLength: nat) {
    || value.JUndefined? || value.JNull?
    || (value.JArray? && forall k :: 0 <= k < |value.items| ==> value.items[k].JString? && |value.items[k].s| >= minLength)
  }

  /** An optional ingredient array the readers accept. */
  predicate ItemsAccepted(value: Json, field: string) {
    || value.JUndefined? || value.JNull?
    || (value.JArray? && forall k :: 0 <= k < |value.items| ==> ReadIngredient(value.items[k], field, k).Ok?)
  }

  // ---------------------------------------------------------------------
  // The readers the two payloads are built from.
  // ---------------------------------------------------------------------

  /** `readString(value, field, {allowNull: true, minLength})` */
  function ReadText(value: Json, field: string, minLength: nat): (r: Result<Field<string>>)
    ensures r.Ok? <==> TextAccepted(value, minLength)
    ensures r.Ok? ==> r.value == SignalOf(value)
    ensures r.Err? ==> IssueAt(r.error, field)
  {
    ReadString(value, field, StringOptions(false, true, minLength))
  }

  /** `readStringArray(value, field, {allowNull: true, minLength})`; both
      missing and null stand for "no list" afterwards. */
  function ReadStrings(value: Json, field: string, minLength: nat): (r: Result<Option<seq<string>>>)
    ensures r.Ok? <==> StringsAccepted(value, minLength)
    ensures r.Ok? ==> r.value == StringsOf(value)
  {
    ReadStringArrayCases(value, field, minLength);
    var list :- ReadStringArray(value, field, true, minLength);
    Ok(list.Over(None))
  }

  /** `readIngredients(value, field)`; missing and null both mean "no list". */
  function ReadItems(value: Json, field: string): (r: Result<Option<seq<Item>>>)
    ensures r.Ok? <==> ItemsAccepted(value, field)
    ensures r.Ok? ==> (r.value.Some? <==> value.JArray?)
    ensures r.Ok? && r.value.Some? ==>
      |r.value.value| == |value.items| &&
      forall k :: 0 <= k < |value.items| ==> r.value.value[k] == ReadIngredient(value.items[k], field, k).value
  {
    ReadIngredientsCases(value, field);
    var list :- ReadIngredients(value, field);
    Ok(list.Over(None))
  }

  /** The facts of the Validation module about readStringArray, for any value. */
  lemma ReadStringArrayCases(value: Json, field: string, minLength: nat)
    ensures var r := ReadStringArray(value, field, true, minLength);
      && (r.Ok? <==> StringsAccepted(value, minLength))
      && (r.Ok? ==> r.value.Over(None) == StringsOf(value))
  {
    if value.JArray? {
      ReadStringArraySpec(value.items, field, true, minLength);
      var r := ReadStringArray(value, field, true, minLength);
      if r.Ok? {
        assert r.value.value == StringsOf(value).value;
      }
    } else {
      ReadStringArrayOther(value, field, true, minLength);
    }
  }

  /** The facts of the Validation module about readIngredients, for any value. */
  lemma ReadIngredientsCases(value: Json, field: string)
    ensures var r := ReadIngredients(value, field);
      && (r.Ok? <==> ItemsAccepted(value, field))
      && (r.Ok? ==> (r.value.Over(None).Some? <==> value.JArray?))
      && (r.Ok? && value.JArray? ==>
            |r.value.value| == |value.items| &&
            forall k :: 0 <= k < |value.items| ==> r.value.value[k] == ReadIngredient(value.items[k], field, k).value)
  {
    if value.JArray? {
      ReadIngredientsSpec(value.items, field);
    }
  }

  // ---------------------------------------------------------------------
  // recipesCreate.
  // ---------------------------------------------------------------------

  /** The user part of a create payload passes validation. */
  predicate UserFieldsAccepted(data: map<string, Json>) {
    && TextAccepted(Property(data, "user_id"), 0)
    && (Property(data, "user_id").JString? ==> IsUuid(Property(data, "user_id").s))
    && TextAccepted(Property(data, "user_name"), 0)
    && TextAccepted(Property(data, "user_email"), 0)
    && (Property(data, "user_email").JString? ==> IsEmail(Property(data, "user_email").s))
  }

  /** A create payload that passes validation. */
  predicate CreateAccepted(data: map<string, Json>) {
    && Property(data, "title").JString? && Property(data, "title").s != ""
    && TextAccepted(Property(data, "description"), 0)
    && TextAccepted(Property(data, "instructions"), 0)
    && TextAccepted(Property(data, "raw_image_blob_name"), 1)
    && StringsAccepted(Property(data, "categories"), 1)
    && ItemsAccepted(Property(data, "ingredients"), "ingredients")
    && UserFieldsAccepted(data)
  }

  /** The last three reads of recipesCreate: user id, name and e-mail, each
      normalised to null when missing. */
  function ReadUserFields(data: map<string, Json>): (r: Result<(Option<string>, Option<string>, Option<string>)>)
    ensures r.Ok? <==> UserFieldsAccepted(data)
    ensures r.Ok? ==> r.value == (TextOf(Property(data, "user_id")), TextOf(Property(data, "user_name")), TextOf(Property(data, "user_email")))
  {
    var userId :- ReadUuid(Property(data, "user_id"), "user_id", true);
    var userName :- ReadText(Property(data, "user_name"), "user_name", 0);
    var userEmail :- ReadEmail(Property(data, "user_email"), "user_email", true);
    Ok((userId.Over(None), userName.Over(None), userEmail.Over(None)))
  }

  /** The payload of recipesCreate, read in the order of the source, with every
      missing optional property normalised to null. */
  function ReadCreateInput(data: map<string, Json>): (r: Result<CreateInput>)
    ensures r.Ok? <==> CreateAccepted(data)
    ensures !(Property(data, "title").JString? && Property(data, "title").s != "") ==> r.Err? && IssueAt(r.error, "title")
    ensures r.Ok? ==>
      && r.value.title == Property(data, "title").s
      && r.value.description == TextOf(Property(data, "description"))
      && r.value.instructions == TextOf(Property(data, "instructions"))
      && r.value.rawImageBlobName == TextOf(Property(data, "raw_image_blob_name"))
      && r.value.categories == StringsOf(Property(data, "categories"))
      && (r.value.ingredients.Some? <==> Property(data, "ingredients").JArray?)
      && (r.value.userId, r.value.userName, r.value.userEmail) == ReadUserFields(data).value
  {
    var title :- ReadString(Property(data, "title"), "title", StringOptions(true, false, 1));
    var description :- ReadText(Property(data, "description"), "description", 0);
    var instructions :- ReadText(Property(data, "instructions"), "instructions", 0);
    var rawImageBlobName :- ReadText(Property(data, "raw_image_blob_name"), "raw_image_blob_name", 1);
    var categories :- ReadStrings(Property(data, "categories"), "categories", 1);
    var ingredients :- ReadItems(Property(data, "ingredients"), "ingredients");
    var user :- ReadUserFields(data);
    Ok(CreateInput(title.value, description.Over(None), instructions.Over(None), rawImageBlobName.Over(None),
                   user.0, user.1, user.2, categories, ingredients))
  }

  /** The media job a created recipe gets when the payload names a raw blob. */
  function CreateJobs(id: Id, rawImageBlobName: Option<string>): seq<MediaJob> {
    if Truthy(rawImageBlobName) then [MediaJob(id, rawImageBlobName.value)] else []
  }

  /** recipesCreate: read and validate, create, enqueue the media job when the
      payload names a raw blob, answer 201 with the recipe. A refused request
      changes nothing; only the database and the queue ever change, and the
      queue only after the recipe exists. */
  function RecipesCreate(s: Store, request: Request, now: Time): (r: (Store, Result<Response<RecipeDetails>>))
    ensures BodyRecord(request).Err? ==> r == (s, Err(BodyRecord(request).error))
    ensures BodyRecord(request).Ok? && !CreateAccepted(BodyRecord(request).value) ==> r.0 == s && r.1.Err?
    ensures r.0 == s.(world := s.world.(db := r.0.world.db), queue := r.0.queue)
    ensures r.1.Err? ==> r.0.queue == s.queue
    ensures r.1.Ok? ==> r.1.value.status == 201 && r.1.value.body.JsonBody?
    ensures r.1.Ok? ==>
      var raw := Property(request.body.value.fields, "raw_image_blob_name");
      r.0.queue == s.queue + (if raw.JString? && raw.s != "" then [MediaJob(r.1.value.body.value.row.id, raw.s)] else [])
  {
    match BodyRecord(request)
    case Err(e) => (s, Err(e))
    case Ok(data) =>
      match ReadCreateInput(data)
      case Err(e) => (s, Err(e))
      case Ok(input) =>
        var (db', created) := CreateRecipe(s.world.db, input, now);
        var s' := s.(world := s.world.(db := db'));
        match created
        case Err(e) => (s', Err(e))
        case Ok(recipe) =>
          (s'.(queue := s.queue + CreateJobs(recipe.row.id, input.rawImageBlobName)),
           Ok(JsonResponse(201, JsonBody(recipe), map[])))
  }

  /** Over a valid database, a create request succeeds exactly when its payload
      passes validation and the repository accepts it; a failure changes
      nothing. */
  lemma RecipesCreateOutcome(s: Store, request: Request, now: Time)
    requires Valid(s.world.db)
    ensures var r := RecipesCreate(s, request, now);
      && (r.1.Ok? <==>
            && BodyRecord(request).Ok? && CreateAccepted(BodyRecord(request).value)
            && var input := ReadCreateInput(BodyRecord(request).value).value;
               UserAccepted(s.world.db, input) && CategoriesAccepted(input.categories) && IngredientsAccepted(input.ingredients))
      && (r.1.Err? ==> r.0 == s)
  {
    var data := BodyRecord(request);
    if data.Ok? && CreateAccepted(data.value) {
      CreateRecipeOutcome(s.world.db, ReadCreateInput(data.value).value, now);
    }
  }

  /** A created recipe is a new draft built from the payload, with missing
      optional fields stored as null, and it alone is added. */
  lemma RecipesCreateRow(s: Store, request: Request, now: Time)
    requires Valid(s.world.db) && RecipesCreate(s, request, now).1.Ok?
    ensures var r := RecipesCreate(s, request, now);
      var data := request.body.value.fields;
      var row := r.1.value.body.value.row;
      && row.id !in RecipeIds(s.world.db)
      && RecipeIds(r.0.world.db) == RecipeIds(s.world.db) + {row.id}
      && Valid(r.0.world.db)
      && row.title == Property(data, "title").s
      && row.description == TextOf(Property(data, "description"))
      && row.instructions == TextOf(Property(data, "instructions"))
      && row.rawImageBlobName == TextOf(Property(data, "raw_image_blob_name"))
      && !row.isPublished && row.moderationStatus == "draft"
      && row.imageUrl.None? && row.thumbUrl.None?
      && row.createdAt == now && row.updatedAt == now
  {
    CreateRecipeResult(s.world.db, ReadCreateInput(BodyRecord(request).value).value, now);
  }

  // ---------------------------------------------------------------------
  // recipesUpdate.
  // ---------------------------------------------------------------------

  /** An update payload that passes validation. */
  predicate UpdateAccepted(data: map<string, Json>) {
    && TextAccepted(Property(data, "title"), 1)
    && TextAccepted(Property(data, "description"), 0)
    && TextAccepted(Property(data, "instructions"), 0)
    && TextAccepted(Property(data, "raw_image_blob_name"), 1)
    && StringsAccepted(Property(data, "categories"), 1)
    && ItemsAccepted(Property(data, "ingredients"), "ingredients")
  }

  /** The payload of recipesUpdate: every scalar keeps its three-way signal
      (missing, null or a value) on the way to the repository. */
  function ReadUpdateInput(data: map<string, Json>): (r: Result<UpdateInput>)
    ensures r.Ok? <==> UpdateAccepted(data)
    ensures r.Ok? ==>
      && r.value.title == SignalOf(Property(data, "title"))
      && r.value.description == SignalOf(Property(data, "description"))
      && r.value.instructions == SignalOf(Property(data, "instructions"))
      && r.value.rawImageBlobName == SignalOf(Property(data, "raw_image_blob_name"))
      && r.value.categories == StringsOf(Property(data, "categories"))
      && (r.value.ingredients.Some? <==> Property(data, "ingredients").JArray?)
  {
    var title :- ReadText(Property(data, "title"), "title", 1);
    var description :- ReadText(Property(data, "description"), "description", 0);
    var instructions :- ReadText(Property(data, "instructions"), "instructions", 0);
    var rawImageBlobName :- ReadText(Property(data, "raw_image_blob_name"), "raw_image_blob_name", 1);
    var categories :- ReadStrings(Property(data, "categories"), "categories", 1);
    var ingredients :- ReadItems(Property(data, "ingredients"), "ingredients");
    Ok(UpdateInput(title, description, instructions, rawImageBlobName, categories, ingredients))
  }

  /** recipesUpdate: route id, body, update, 404 for a missing recipe, else 200
      with the recipe as read back. Only the database changes. */
  function RecipesUpdate(s: Store, request: Request, now: Time): (r: (Store, Result<Response<RecipeDetails>>))
    ensures RouteId(request).Err? ==> r == (s, Err(MissingId))
    ensures RouteId(request).Ok? && BodyRecord(request).Err? ==> r == (s, Err(BodyRecord(request).error))
    ensures r.0 == s.(world := s.world.(db := r.0.world.db))
    ensures r.1.Err? && r.1.error != RecipeNotFound ==> r.0 == s
    ensures r.1.Ok? ==> r.1.value.status == 200 && r.1.value.body.JsonBody? && r.1.value.body.value.row.id == request.params["id"]
  {
    match RouteId(request)
    case Err(e) => (s, Err(e))
    case Ok(id) =>
      match BodyRecord(request)
      case Err(e) => (s, Err(e))
      case Ok(data) =>
        match ReadUpdateInput(data)
        case Err(e) => (s, Err(e))
        case Ok(input) =>
          var (db', updated) := UpdateRecipe(s.world.db, id, input, now);
          var s' := s.(world := s.world.(db := db'));
          match updated
          case Err(e) => (s', Err(e))
          case Ok(None) => (s', Err(RecipeNotFound))
          case Ok(Some(recipe)) => (s', Ok(JsonResponse(200, JsonBody(recipe), map[])))
  }

  /** Over a valid database, an accepted update of a missing recipe is a 404
      that changes nothing, and a null title for an existing one is refused
      by the NOT NULL column and rolls back. */
  lemma RecipesUpdateRefused(s: Store, request: Request, now: Time)
    requires Valid(s.world.db)
    requires RouteId(request).Ok? && BodyRecord(request).Ok? && UpdateAccepted(BodyRecord(request).value)
    ensures var id := request.params["id"];
      var r := RecipesUpdate(s, request, now);
      && (id !in RecipeIds(s.world.db) ==> r == (s, Err(RecipeNotFound)))
      && (id in RecipeIds(s.world.db) && Property(request.body.value.fields, "title").JNull? ==>
            r == (s, Err(SqlError(NotNullViolation("title")))))
  {
    var input := ReadUpdateInput(request.body.value.fields).value;
    UpdateRecipeOutcome(s.world.db, request.params["id"], input, now);
  }

  /** The columns of the row updateRecipe leaves, one by one. */
  lemma RowAfterUpdateColumns(row: RecipeRow, input: UpdateInput, now: Time)
    requires !input.title.Null?
    ensures var after := RowAfterUpdate(row, input, now);
      && after.id == row.id
      && after.title == (if input.title.Present? then input.title.value else row.title)
      && after.description == input.description.Over(row.description)
      && after.instructions == input.instructions.Over(row.instructions)
      && after.rawImageBlobName == input.rawImageBlobName.Over(row.rawImageBlobName)
      && after.isPublished == row.isPublished && after.moderationStatus == row.moderationStatus
      && after.updatedAt == (if HasScalarUpdate(input) then now else row.updatedAt)
  {
  }

  /** An accepted update of an existing recipe: each scalar property of the
      body decides its column (missing keeps it, null clears it, a string sets
      it); updated_at moves only when some scalar was sent; the publishing
      state is kept. */
  lemma RecipesUpdateColumns(s: Store, request: Request, now: Time)
    requires Valid(s.world.db)
    requires RouteId(request).Ok? && BodyRecord(request).Ok? && UpdateAccepted(BodyRecord(request).value)
    requires request.params["id"] in RecipeIds(s.world.db) && RecipesUpdate(s, request, now).1.Ok?
    ensures var data := request.body.value.fields;
      var r := RecipesUpdate(s, request, now);
      var before := FindRecipe(s.world.db, request.params["id"]).value;
      var row := r.1.value.body.value.row;
      && Valid(r.0.world.db)
      && RecipeIds(r.0.world.db) == RecipeIds(s.world.db)
      && row.title == (if Property(data, "title").JString? then Property(data, "title").s else before.title)
      && row.description == SignalOf(Property(data, "description")).Over(before.description)
      && row.instructions == SignalOf(Property(data, "instructions")).Over(before.instructions)
      && row.rawImageBlobName == SignalOf(Property(data, "raw_image_blob_name")).Over(before.rawImageBlobName)
      && row.isPublished == before.isPublished && row.moderationStatus == before.moderationStatus
      && row.updatedAt == (if HasScalarUpdate(ReadUpdateInput(data).value) then now else before.updatedAt)
  {
    var id := request.params["id"];
    var input := ReadUpdateInput(request.body.value.fields).value;
    UpdateRecipeOutcome(s.world.db, id, input, now);
    UpdateRecipeResult(s.world.db, id, input, now);
    RowAfterUpdateColumns(FindRecipe(s.world.db, id).value, input, now);
  }

  // ---------------------------------------------------------------------
  // recipesDelete.
  // ---------------------------------------------------------------------

  /** The clean-up calls after a delete; each may throw, and the handler
      swallows what it throws. */
  datatype Cleanup = RawBlob | ThumbBlob | ImageBlob | FeedDocument | RecipeComments

  /** The answer `{deleted: true, id}`. */
  datatype Deleted = Deleted(deleted: bool, id: Id)

  /** `container.deleteBlob(name).catch(() => undefined)`: a blob that is not
      there, or a call that throws, leaves the container as it was. */
  function DeleteBlobQuietly<T>(container: map<string, T>, name: string, fails: bool): (c: map<string, T>)
    ensures name !in c || fails
    ensures forall n :: n in c <==> n in container && (n != name || fails)
    ensures forall n :: n in c ==> c[n] == container[n]
  {
    if fails then container else container - {name}
  }

  /** The processed container after the two rendition deletes. */
  function CleanRenditions(processed: map<string, StoredBlob>, id: Id, fails: Cleanup -> bool): map<string, StoredBlob> {
    var names := ProcessedBlobNames(id);
    DeleteBlobQuietly(DeleteBlobQuietly(processed, names.thumbName, fails(ThumbBlob)), names.imageName, fails(ImageBlob))
  }

  /** The clean-up of the two blob containers and the feed once the row
      `before` is deleted: the raw upload when the row named one, the two
      renditions under the names the media worker writes, and the feed
      document. A delete call that throws leaves its store as it was, but
      opening a container is not guarded: when getRawContainerClient or
      getProcessedContainerClient throws, the clean-up stops there and its
      error is the result. */
  function CleanStores(w: World, before: RecipeRow, env: Env, create: string -> Result<()>, fails: Cleanup -> bool): (r: (World, Result<()>))
    ensures r.0.db == w.db
    ensures var rawOpen := GetRawContainerClient(env, create);
      var procOpen := GetProcessedContainerClient(env, create);
      && (r.1.Err? <==> (Truthy(before.rawImageBlobName) && rawOpen.Err?) || procOpen.Err?)
      && (r.1.Err? ==> r.1.error == if Truthy(before.rawImageBlobName) && rawOpen.Err? then rawOpen.error else procOpen.error)
      && r.0.raw == (if Truthy(before.rawImageBlobName) && rawOpen.Ok? && !fails(RawBlob)
                     then w.raw - {before.rawImageBlobName.value} else w.raw)
    ensures r.0.processed == if r.1.Ok? then CleanRenditions(w.processed, before.id, fails) else w.processed
    ensures r.1.Err? || fails(FeedDocument) ==> r.0.feed == w.feed
    ensures r.1.Ok? && !fails(FeedDocument) ==> forall d :: d in r.0.feed <==> d in w.feed && FeedKey(d) != (before.id, FeedPartition)
    ensures GetStorageAccountInfo(env).Err? ==> r == (w, Err(GetProcessedContainerClient(env, create).error))
  {
    var named := Truthy(before.rawImageBlobName);
    var rawOpen := if named then GetRawContainerClient(env, create) else Ok(());
    if rawOpen.Err? then (w, Err(rawOpen.error))
    else
      var raw := if named then DeleteBlobQuietly(w.raw, before.rawImageBlobName.value, fails(RawBlob)) else w.raw;
      var procOpen := GetProcessedContainerClient(env, create);
      if procOpen.Err? then (w.(raw := raw), Err(procOpen.error))
      else
        var feed := if fails(FeedDocument) then Err(OtherError("feed delete failed")) else DeleteFeedItem(w.feed, before.id);
        (w.(raw := raw,
            processed := CleanRenditions(w.processed, before.id, fails),
            feed := if feed.Ok? then feed.value else w.feed),
         Ok(()))
  }

  /** recipesDelete. `create` stands for createIfNotExists on a container and
      `fails` says which guarded clean-up calls throw. Once the recipe row is
      gone the answer is 200, unless opening a container throws: then the
      deletion stands, the remaining clean-up (the comments included) is
      skipped, and the error is the answer. */
  method RecipesDelete(s: Store, request: Request, env: Env, create: string -> Result<()>, fails: Cleanup -> bool)
    returns (s': Store, r: Result<Response<Deleted>>)
    ensures RouteId(request).Err? ==> s' == s && r == Err(MissingId)
    ensures RouteId(request).Ok? && request.params["id"] !in RecipeIds(s.world.db) ==> s' == s && r == Err(RecipeNotFound)
    ensures RouteId(request).Ok? && request.params["id"] in RecipeIds(s.world.db) ==>
      var id := request.params["id"];
      var (w, cleaned) := CleanStores(s.world.(db := DeleteRecipe(s.world.db, id).0), FindRecipe(s.world.db, id).value, env, create, fails);
      && s'.world == w
      && (cleaned.Err? ==> r == Err(cleaned.error) && s'.comments == s.comments)
      && (cleaned.Ok? ==> r == Ok(JsonResponse(200, JsonBody(Deleted(true, id)), map[])))
      && (cleaned.Ok? && fails(RecipeComments) ==> s'.comments == s.comments)
      && (cleaned.Ok? && !fails(RecipeComments) ==> forall c :: c in s'.comments <==> c in s.comments && c.recipeId != id)
      && s'.queue == s.queue && s'.webhooks == s.webhooks
    ensures RouteId(request).Ok? && request.params["id"] in RecipeIds(s.world.db) && GetStorageAccountInfo(env).Err? ==>
      && r.Err? && r.error.ApiError? && r.error.status == 500 && r.error.code == "config_error"
      && s' == s.(world := s.world.(db := DeleteRecipe(s.world.db, request.params["id"]).0))
  {
    s' := s;
    var route := RouteId(request);
    if route.Err? {
      r := Err(route.error);
      return;
    }
    var id := route.value;
    var (db', deleted) := DeleteRecipe(s.world.db, id);
    DeleteRecipeResult(s.world.db, id);
    if deleted.Err? || deleted.value.None? {
      r := Err(RecipeNotFound);
      return;
    }
    var (world, cleaned) := CleanStores(s.world.(db := db'), deleted.value.value, env, create, fails);
    if cleaned.Err? {
      s' := s.(world := world);
      r := Err(cleaned.error);
      return;
    }
    var comments := s.comments;
    if !fails(RecipeComments) {
      comments := DeleteCommentsForRecipe(s.comments, id);
    }
    s' := s.(world := world, comments := comments);
    r := Ok(JsonResponse(200, JsonBody(Deleted(true, id)), map[]));
  }

  /** The delete removes exactly what the media worker wrote for the recipe: a
      job processed for a recipe and then a delete of that recipe without
      failures leave no rendition behind and every other processed blob as it
      was before the job. */
  lemma DeleteRemovesRenditions(w: World, deps: Deps, job: MediaJob, now: Time, fails: Cleanup -> bool)
    requires !fails(ThumbBlob) && !fails(ImageBlob)
    ensures var after := CleanRenditions(Process(w, deps, job, now).0.processed, job.recipeId, fails);
      var names := ProcessedBlobNames(job.recipeId);
      && names.thumbName !in after && names.imageName !in after
      && (forall n :: n in after ==> n in w.processed && after[n] == w.processed[n])
  {
    var names := ProcessedBlobNames(job.recipeId);
    var mid := Process(w, deps, job, now).0.processed;
    var after := CleanRenditions(mid, job.recipeId, fails);
    forall n | n in after ensures n in w.processed && after[n] == w.processed[n] {
      assert n in mid && n != names.thumbName && n != names.imageName;
    }
  }

  // ---------------------------------------------------------------------
  // recipesPublish.
  // ---------------------------------------------------------------------

  /** The answer `{id, moderation_status, is_published}`. */
  datatype PublishBody = PublishBody(id: Id, moderationStatus: string, isPublished: bool)

  const WebhookVariable: string := "LOGICAPP_WEBHOOK_URL"

  /** recipesPublish: publish, then tell the Logic App. `post` is the HTTP
      exchange with it. A webhook failure is thrown after the database change,
      which stays. */
  function RecipesPublish(s: Store, request: Request, env: Env, correlationId: string, post: Post, now: Time): (r: (Store, Result<Response<PublishBody>>))
    ensures RouteId(request).Err? ==> r == (s, Err(MissingId))
    ensures r.0 == s.(world := s.world.(db := r.0.world.db), webhooks := r.0.webhooks)
    ensures |s.webhooks| <= |r.0.webhooks| <= |s.webhooks| + 1 && r.0.webhooks[..|s.webhooks|] == s.webhooks
    ensures |r.0.webhooks| > |s.webhooks| ==>
      var call := r.0.webhooks[|s.webhooks|];
      && RouteId(request).Ok? && Truthy(Lookup(env, WebhookVariable))
      && FindRecipe(r.0.world.db, request.params["id"]).Some?
      && call == WebhookCall(env[WebhookVariable],
                             WebhookPayload(request.params["id"], true, FindRecipe(r.0.world.db, request.params["id"]).value.title),
                             correlationId)
    ensures r.1.Ok? ==>
      && |r.0.webhooks| == |s.webhooks| + 1
      && r.1.value.status == 200 && r.1.value.body.JsonBody? && r.1.value.body.value.id == request.params["id"]
  {
    match RouteId(request)
    case Err(e) => (s, Err(e))
    case Ok(id) =>
      var (db', updated) := SetPublishStatus(s.world.db, id, now);
      var s1 := s.(world := s.world.(db := db'));
      match updated
      case None => (s1, Err(RecipeNotFound))
      case Some(row) =>
        var (sent, outcome) := CallLogicAppWebhook(Lookup(env, WebhookVariable), WebhookPayload(id, true, row.title), correlationId, post);
        var s2 := s1.(webhooks := s.webhooks + sent);
        if outcome.Err? then (s2, Err(outcome.error))
        else (s2, Ok(JsonResponse(200, JsonBody(PublishBody(id, row.moderationStatus, row.isPublished)), map[])))
  }

  /** Over a valid database: a missing recipe is a 404 with nothing changed and
      no webhook sent. An existing one is published and left pending review
      whatever the webhook does; the webhook carries the recipe's id and title
      and decides the answer: 200 with the new state, or its own error. */
  lemma RecipesPublishSpec(s: Store, request: Request, env: Env, correlationId: string, post: Post, now: Time)
    requires Valid(s.world.db) && RouteId(request).Ok?
    ensures var id := request.params["id"];
      var r := RecipesPublish(s, request, env, correlationId, post, now);
      && (id !in RecipeIds(s.world.db) ==> r == (s, Err(RecipeNotFound)))
      && (id in RecipeIds(s.world.db) ==>
            var before := FindRecipe(s.world.db, id).value;
            var (sent, outcome) := CallLogicAppWebhook(Lookup(env, WebhookVariable), WebhookPayload(id, true, before.title), correlationId, post);
            && r.0.world.db == SetPublishStatus(s.world.db, id, now).0
            && FindRecipe(r.0.world.db, id) == Some(before.(isPublished := true, moderationStatus := "pending", updatedAt := now))
            && r.0.webhooks == s.webhooks + sent
            && (r.1.Ok? <==> outcome.Ok?)
            && (r.1.Ok? ==> r.1.value.body == JsonBody(PublishBody(id, "pending", true)))
            && (r.1.Err? ==> r.1.error == outcome.error))
  {
    SetPublishStatusSpec(s.world.db, request.params["id"], now);
  }

  /** The webhook of a published recipe carries the correlation id its
      response echoes in x-correlation-id. */
  lemma PublishCorrelates(s: Store, request: Request, env: Env, newId: string, post: Post, now: Time)
    requires request.verb != "OPTIONS"
    ensures var handler := (st: Store, req: Request, cid: string) => RecipesPublish(st, req, env, cid, post, now);
      var (s', response) := Serve(s, request, env, newId, handler);
      |s'.webhooks| == |s.webhooks| + 1 ==>
        s'.webhooks[|s.webhooks|].correlationId == response.headers[CorrelationHeader]
  {
    var handler := (st: Store, req: Request, cid: string) => RecipesPublish(st, req, env, cid, post, now);
    ServeSpec(s, request, env, newId, handler);
  }

  // ---------------------------------------------------------------------
  // recipesModeration.
  // ---------------------------------------------------------------------

  /** The shared body of recipesApprove and recipesBlock. */
  function Moderate(s: Store, request: Request, status: string, isPublished: bool, now: Time): (r: (Store, Result<Response<RecipeRow>>))
    ensures RouteId(request).Err? ==> r == (s, Err(MissingId))
    ensures r.0 == s.(world := s.world.(db := r.0.world.db))
    ensures r.1.Ok? ==>
      && r.1.value.status == 200 && r.1.value.body.JsonBody?
      && r.1.value.body.value.id == request.params["id"]
      && r.1.value.body.value.moderationStatus == status && r.1.value.body.value.isPublished == isPublished
  {
    match RouteId(request)
    case Err(e) => (s, Err(e))
    case Ok(id) =>
      var (db', updated) := SetModerationStatus(s.world.db, id, status, isPublished, now);
      var s' := s.(world := s.world.(db := db'));
      match updated
      case None => (s', Err(RecipeNotFound))
      case Some(row) =>
        assert row == FindRecipe(db', id).value;
        assert row.moderationStatus == status && row.isPublished == isPublished by {
          SetModerationStatusFind(s.world.db, id, status, isPublished, now);
        }
        (s', Ok(JsonResponse(200, JsonBody(row), map[])))
  }

  /** The row SetModerationStatus reads back carries the status it wrote. */
  lemma SetModerationStatusFind(db: Db, id: Id, status: string, isPublished: bool, now: Time)
    requires SetModerationStatus(db, id, status, isPublished, now).1.Some?
    ensures var row := SetModerationStatus(db, id, status, isPublished, now).1.value;
      row.moderationStatus == status && row.isPublished == isPublished && row.id == id
  {
    var db' := SetModerationStatus(db, id, status, isPublished, now).0;
    var row := FindRecipe(db', id).value;
    assert row in db'.recipes;
    UpdatedRowsModerated(db, id, status, isPublished, now, row);
  }

  /** Every row of the recipe after the moderation UPDATE carries the new state. */
  lemma UpdatedRowsModerated(db: Db, id: Id, status: string, isPublished: bool, now: Time, row: RecipeRow)
    requires row in SetModerationStatus(db, id, status, isPublished, now).0.recipes && row.id == id
    ensures row.moderationStatus == status && row.isPublished == isPublished
  {
    var f := (r: RecipeRow) => Moderated(r, status, isPublished, now);
    UpdateRecipeRowImage(db, id, f, row);
  }

  /** A row carrying `id` after `UPDATE ... WHERE id = @id` is an updated row. */
  lemma UpdateRecipeRowImage(db: Db, id: Id, f: RecipeRow -> RecipeRow, row: RecipeRow)
    requires forall x :: f(x).id == x.id && f(x).userId == x.userId
    requires row in UpdateRecipeRow(db, id, f).recipes && row.id == id
    ensures exists x :: x in db.recipes && row == f(x)
  {
    var rows := UpdateRecipeRow(db, id, f).recipes;
    var k :| 0 <= k < |rows| && rows[k] == row;
    assert |rows| == |db.recipes|;
    assert db.recipes[k] in db.recipes;
  }

  const Approved: string := "approved"
  const Blocked: string := "blocked"

  function RecipesApprove(s: Store, request: Request, now: Time): (r: (Store, Result<Response<RecipeRow>>))
    ensures r.1.Ok? ==> r.1.value.body.JsonBody? && r.1.value.body.value.moderationStatus == Approved && r.1.value.body.value.isPublished
  {
    Moderate(s, request, Approved, true, now)
  }

  function RecipesBlock(s: Store, request: Request, now: Time): (r: (Store, Result<Response<RecipeRow>>))
    ensures r.1.Ok? ==> r.1.value.body.JsonBody? && r.1.value.body.value.moderationStatus == Blocked && !r.1.value.body.value.isPublished
  {
    Moderate(s, request, Blocked, false, now)
  }

  /** Over a valid database, moderation of a missing recipe is a 404 with
      nothing changed; of an existing one it sets exactly the status and the
      published flag, whatever the recipe's state was, and keeps the rest. */
  lemma ModerateSpec(s: Store, request: Request, status: string, isPublished: bool, now: Time)
    requires Valid(s.world.db) && RouteId(request).Ok?
    ensures var id := request.params["id"];
      var r := Moderate(s, request, status, isPublished, now);
      && (id !in RecipeIds(s.world.db) ==> r == (s, Err(RecipeNotFound)))
      && (id in RecipeIds(s.world.db) ==>
            var after := FindRecipe(s.world.db, id).value.(moderationStatus := status, isPublished := isPublished, updatedAt := now);
            && r.1 == Ok(JsonResponse(200, JsonBody(after), map[]))
            && FindRecipe(r.0.world.db, id) == Some(after)
            && Valid(r.0.world.db))
  {
    SetModerationStatusSpec(s.world.db, request.params["id"], status, isPublished, now);
  }

  /** A recipe is visible exactly in the review states that allow it. */
  predicate VisibilityAgrees(row: RecipeRow) {
    row.isPublished <==> row.moderationStatus == "pending" || row.moderationStatus == Approved
  }

  /** Publish, approve and block each leave the recipe visible exactly when
      its status is pending or approved, whatever state it was in. */
  lemma ModerationKeepsVisibility(s: Store, request: Request, env: Env, correlationId: string, post: Post, now: Time)
    requires Valid(s.world.db) && RouteId(request).Ok? && request.params["id"] in RecipeIds(s.world.db)
    ensures var id := request.params["id"];
      && VisibilityAgrees(FindRecipe(RecipesPublish(s, request, env, correlationId, post, now).0.world.db, id).value)
      && VisibilityAgrees(FindRecipe(RecipesApprove(s, request, now).0.world.db, id).value)
      && VisibilityAgrees(FindRecipe(RecipesBlock(s, request, now).0.world.db, id).value)
  {
    RecipesPublishSpec(s, request, env, correlationId, post, now);
    ModerateSpec(s, request, Approved, true, now);
    ModerateSpec(s, request, Blocked, false, now);
  }

  // ---------------------------------------------------------------------
  // recipesReprocessImage.
  // ---------------------------------------------------------------------

  /** The answer `{enqueued: true, recipeId, blobName}`. */
  datatype Enqueued = Enqueued(enqueued: bool, recipeId: Id, blobName: string)

  /** recipesReprocessImage: queue the recipe's raw blob for the media worker
      again. Only the queue changes, and only on success, by exactly one job,
      which the worker accepts as well formed. */
  function RecipesReprocessImage(s: Store, request: Request): (r: (Store, Result<Response<Enqueued>>))
    ensures RouteId(request).Err? ==> r == (s, Err(MissingId))
    ensures RouteId(request).Ok? && request.params["id"] !in RecipeIds(s.world.db) ==> r == (s, Err(RecipeNotFound))
    ensures RouteId(request).Ok? && request.params["id"] in RecipeIds(s.world.db) && !Truthy(FindRecipe(s.world.db, request.params["id"]).value.rawImageBlobName) ==>
      r == (s, Err(NoRawImage))
    ensures r.1.Ok? <==>
      RouteId(request).Ok? && request.params["id"] in RecipeIds(s.world.db) && Truthy(FindRecipe(s.world.db, request.params["id"]).value.rawImageBlobName)
    ensures r.1.Ok? ==>
      var id := request.params["id"];
      var job := MediaJob(id, FindRecipe(s.world.db, id).value.rawImageBlobName.value);
      && r.0 == s.(queue := s.queue + [job])
      && JobValid(job)
      && r.1.value.status == 202 && r.1.value.body == JsonBody(Enqueued(true, id, job.blobName))
  {
    match RouteId(request)
    case Err(e) => (s, Err(e))
    case Ok(id) =>
      match GetRecipeById(s.world.db, id)
      case None => (s, Err(RecipeNotFound))
      case Some(recipe) =>
        var blobName := recipe.row.rawImageBlobName;
        if !Truthy(blobName) then (s, Err(NoRawImage))
        else
          (s.(queue := s.queue + [MediaJob(id, blobName.value)]),
           Ok(JsonResponse(202, JsonBody(Enqueued(true, id, blobName.value)), map[])))
  }
}
