# Recipe service core in Dafny

This project models the core of an Azure Functions recipe service and proves
properties of the model:

- **The recipe repository** (`RecipesRepo`, `Associations`, `Schema`, `Sql`). It runs
  over an abstract relational database.
  - The database is an immutable record of tables.
  - `Schema.Valid` encodes the primary keys, unique indexes and foreign keys of the
    schema script as an invariant.
  - Every statement either preserves that invariant or aborts with the violation the
    database would raise.
  - A transaction (`Sql.WithTransaction`) either commits the callback's final state
    or restores the state it began with.
  - Category and ingredient names, user emails and migration names are compared
    under the database's case-insensitive collation (`Strings.Collated`). A name that matches a stored one reuses that row
    and its stored spelling.
- **The media pipeline and the document stores** (`MediaProcessor`, `Media`,
  `CosmosRepo`). The blob containers, the recipe database and the feed are
  abstract stores.
- **The HTTP layer and the handlers** (`Http`, `Handlers`, `Validation`, `LogicApp`).
  Each handler is a function from a store of all back ends and a request to a new
  store and either a response or an error.
- **The pure helpers**:
  - storage configuration (`Storage`);
  - upload naming (`Uploads`, `Paths`);
  - the migration runner (`Migrations`) and the schema initialiser (`AdminInitSql`);
  - the static-site deploy script (`StaticSite`).
- **Shared foundations** (`Common`, `Strings`, `Seqs`): the option, result and error
  types, string operations and ordering and paging facts.

These effects become parameters of the model:

- The clock is an integer `now`.
- Fresh UUIDs come from `Common.FreshId`, which returns an id not in use.
- `JSON.parse`, the request-body parser and `Number()` are injected functions: `parse`, the `Request.body` option and `toNumber`.
- The webhook `fetch` is a function `post` from the call to a status or a thrown error.
- These are parameters too:
  - blob and document-store failures (`put`, `fails`, `upload`, `Deps.upsertFeed`) and `createIfNotExists` (`create`);
  - the image derivation (`Deps.generateImages`);
  - blob URLs (`urlOf`, `Deps.blobUrl`) and SAS signing (`sign`).

Where the code and its design notes disagree, the model follows the code:

- Category and ingredient get-or-create does not retry after a unique-index conflict.
- A PATCH with `title: null` passes validation but violates `title NOT NULL`. The model aborts with a not-null violation, which the HTTP layer reports as a 500.
- `listRecipes` builds each row's categories with `STRING_AGG(name, ',')` and then splits on `','`. A category name containing a comma therefore shows up as two names in list view (`RecipesRepo.ListCategoriesSplitsComma`).
- A queue message that is the text `null` parses to `null`. Reading `recipeId` from it then throws a type error instead of `invalid_job` (`MediaProcessor.DecodeMessage`).
- A page below 1 makes `OFFSET` negative, and the database rejects the query (`RecipesRepo.ListRecipesPaging`).

## Model

| member | source | states |
|---|---|---|
| Common.FreshId | api/src/lib/recipesRepo.ts:45 | the generated id differs from every id already in use (a UUID collision is not modelled) |
| Sql.RequireEnv | api/src/lib/sql.ts:6-12 | a variable is returned exactly when it is present and non-empty; otherwise the error is 500 `config_error` naming it |
| Sql.ParseBooleanSpec | api/src/lib/sql.ts:14-19 | an absent value gives the fallback; a present one is true exactly when it spells "true" in any case or is "1" |
| Sql.GetSqlConfig | api/src/lib/sql.ts:21-39 | the config exists iff all four required variables are set; it carries their values; encrypt defaults to true and trustServerCertificate to false; the port is set iff SQL_PORT is non-empty; every failure is a 500 config_error |
| Sql.WithTransaction | api/src/lib/sql.ts:67-82 | a callback that returns commits its final state and value; one that throws leaves the state it began with and rethrows the same error |
| Schema.EmptyDbValid | api/src/functions/adminInitSql.ts:9-132 | the freshly created schema satisfies every key, unique index and foreign key |
| Schema.InsertUser | api/src/functions/adminInitSql.ts:19-29 | a user row is inserted iff its id is new and no stored non-null email equals its email under the case-insensitive collation; otherwise the insert fails with a unique violation and nothing changes |
| Schema.InsertUserValid | api/src/functions/adminInitSql.ts:19-29 | a successful user insert preserves the schema invariant, including that no two stored emails are equal under the collation, and adds exactly that id |
| Schema.InsertRecipe | api/src/functions/adminInitSql.ts:31-50 | a recipe row is inserted iff its id is new and its owner, when present, exists |
| Schema.InsertRecipeValid | api/src/functions/adminInitSql.ts:31-50 | a successful recipe insert preserves the invariant and adds exactly that recipe id |
| Schema.InsertNamed | api/src/functions/adminInitSql.ts:108-117 | a category or ingredient row is inserted iff its id is new and no stored name equals its name under the case-insensitive collation; a colliding name fails on the vocabulary's unique name index |
| Strings.CollatedExamples | api/src/functions/adminInitSql.ts:108-117 | under the default collation "Salt" and "salt" are the same name, as are "Dessert", "dessert" and "Dessert " with a trailing space; "salt" and "pepper" differ |
| Schema.InsertNamedValid | api/src/functions/adminInitSql.ts:108-117 | a successful category or ingredient insert preserves the invariant |
| Schema.InsertLink | api/src/functions/adminInitSql.ts:119-131 | a join row is inserted iff both ends exist and the (recipe, target) pair is new; a repeated pair fails on the pair's unique index |
| Schema.InsertLinkValid | api/src/functions/adminInitSql.ts:119-131 | a successful join insert preserves the invariant |
| Schema.InsertFavorite | api/src/functions/adminInitSql.ts:68-80 | a favorite is inserted iff the pair is new and both the user and the recipe exist |
| Schema.InsertFavoriteValid | api/src/functions/adminInitSql.ts:68-80 | a successful favorite insert preserves the invariant |
| Schema.DeleteLinksOf | api/src/lib/recipesRepo.ts:381 | deleting one recipe's join rows keeps exactly the rows of other recipes and touches no other table |
| Schema.DeleteLinksOfValid | api/src/lib/recipesRepo.ts:381 | that delete preserves the invariant |
| Schema.DeleteReviewsOf | api/src/lib/recipesRepo.ts:251-255 | deleting a recipe's reviews keeps exactly the reviews of other recipes |
| Schema.DeleteReviewsOfValid | api/src/lib/recipesRepo.ts:251-255 | that delete preserves the invariant |
| Schema.DeleteFavoritesOf | api/src/lib/recipesRepo.ts:251-255 | deleting a recipe's favorites keeps exactly the favorites of other recipes |
| Schema.DeleteFavoritesOfValid | api/src/lib/recipesRepo.ts:251-255 | that delete preserves the invariant |
| Schema.DeleteFavorite | api/src/lib/recipesRepo.ts:369-374 | removing one (user, recipe) favorite keeps every other favorite |
| Schema.DeleteFavoriteValid | api/src/lib/recipesRepo.ts:369-374 | that delete preserves the invariant |
| Schema.DeleteRecipeRow | api/src/lib/recipesRepo.ts:251-255 | the recipe row is deleted iff no join row, review or favorite still references it; otherwise the delete fails with a foreign-key violation, FK_recipe_categories_recipes when a category link remains |
| Schema.DeleteRecipeRowValid | api/src/lib/recipesRepo.ts:251-255 | a successful recipe delete preserves the invariant |
| Schema.UpdateRecipeRow | api/src/lib/recipesRepo.ts:203-207 | an UPDATE by id rewrites only that recipe's row and keeps the set of recipe ids |
| Schema.UpdateRecipeRowValid | api/src/lib/recipesRepo.ts:203-207 | such an update preserves the invariant |
| Associations.NamesOfAppend | api/src/lib/recipesRepo.ts:286-292 | the names of two joined lists are the names of each, in order |
| Associations.NameOf | api/src/lib/recipesRepo.ts:286-292 | looking up a category or ingredient by id finds a row with that id exactly when one exists |
| Associations.NameOfUnique | api/src/functions/adminInitSql.ts:108-117 | with unique ids, the lookup returns the one row's name |
| Associations.NameOfMatches | api/src/functions/adminInitSql.ts:108-117 | with unique ids and collated names, the name of an id collates equal to a stored name exactly when it is that name's id |
| Associations.Joined | api/src/lib/recipesRepo.ts:286-292 | the join of a recipe's link rows with the name table lists no more items than there are links |
| Associations.JoinedAppend | api/src/lib/recipesRepo.ts:403-407 | appending link rows appends their joined items |
| Associations.JoinedNone | api/src/lib/recipesRepo.ts:381 | a recipe with no link rows has an empty list |
| Associations.JoinedFilterOther | api/src/lib/recipesRepo.ts:381 | deleting one recipe's links leaves every other recipe's list unchanged |
| Associations.JoinedGrow | api/src/lib/recipesRepo.ts:386-401 | adding name rows does not change the list of a recipe whose links all resolve |
| Associations.JoinedHasName | api/src/functions/adminInitSql.ts:119-131 | a recipe has a link to a row iff that row's name, compared under the collation, appears in its joined list |
| Associations.JoinedNamesFrom | api/src/lib/recipesRepo.ts:286-292 | every joined item's name is a name in the table |
| Associations.GetRecipeCategories | api/src/lib/recipesRepo.ts:286-292 | the category names of a recipe, sorted by their collated names as ORDER BY does, as a permutation of its joined list |
| Associations.GetRecipeIngredients | api/src/lib/recipesRepo.ts:294-304 | the ingredients of a recipe with their quantities, sorted by their collated names, as a permutation of its joined list |
| Associations.FindByName | api/src/lib/recipesRepo.ts:386-392 | a row is found iff some stored name equals the name under the collation, and then the found row is a stored row whose name collates equal |
| Associations.FindByNameUnique | api/src/lib/recipesRepo.ts:386-393 | with the unique name index, the row found is the one stored row whose name collates equal |
| Associations.FindByNameAppend | api/src/lib/recipesRepo.ts:386-393 | the lookup reaches rows inserted later only when no earlier row matches |
| Associations.Spelling | api/src/lib/recipesRepo.ts:386-400 | the name a recipe ends up listing collates equal to the given one; it is the stored spelling when a row matches and the given name otherwise |
| Associations.SpellingGrow | api/src/lib/recipesRepo.ts:386-400 | inserting rows that do not match a name keeps its spelling |
| Associations.RespellCons | api/src/lib/recipesRepo.ts:383-407 | spelling a list as stored is spelling its head, then its tail |
| Associations.RespellGrow | api/src/lib/recipesRepo.ts:383-407 | inserting rows none of the entries matches keeps every entry's spelling |
| Associations.RespellFresh | api/src/lib/recipesRepo.ts:394-400 | entries that match no stored row are listed exactly as given |
| Associations.StoredSpelling | api/src/lib/recipesRepo.ts:386-393 | a name that collates equal to a stored name takes the stored spelling |
| Associations.GetOrCreate | api/src/lib/recipesRepo.ts:386-401 | a name that matches a stored row under the collation reuses that row with no change; otherwise exactly one new row with a fresh id and the name as given is appended; the returned id carries the stored spelling; name rows only grow and no other table changes |
| Associations.GetOrCreateValid | api/src/lib/recipesRepo.ts:386-401 | get-or-create preserves the invariant |
| Associations.GetOrCreateJoined | api/src/lib/recipesRepo.ts:386-407 | get-or-create leaves the recipe's list unchanged, and the recipe already links the returned row iff a listed name collates equal to the given one |
| Associations.LinkOne | api/src/lib/recipesRepo.ts:386-407 | one entry appends exactly one link row, with its quantity, to the row carrying its stored spelling; the name rows grow by the entry only when no stored name matches it |
| Associations.LinkOneValid | api/src/lib/recipesRepo.ts:386-407 | one linked entry preserves the invariant and the set of recipes |
| Associations.LinkOneSpec | api/src/lib/recipesRepo.ts:403-407 | linking one entry succeeds iff no name in the recipe's list collates equal to it; otherwise it fails on the pair's unique index; on success the list gains exactly that entry, spelled as stored |
| Associations.LinkOneAfter | api/src/functions/adminInitSql.ts:119-131 | the join insert for an existing name row succeeds iff the pair is absent, and then adds that entry to the list |
| Associations.LinksFor | api/src/lib/recipesRepo.ts:403-407 | the link rows written for a list are one per entry, in order, for that recipe, with each entry's quantity |
| Associations.LinkAll | api/src/lib/recipesRepo.ts:383-407 | linking a list returns one id per entry |
| Associations.LinkAllFrame | api/src/lib/recipesRepo.ts:383-407 | linking a list changes only that association's tables, and its name rows only grow |
| Associations.LinkAllLinks | api/src/lib/recipesRepo.ts:403-407 | linking a list appends exactly the link rows for its entries |
| Associations.LinksForRecipe | api/src/lib/recipesRepo.ts:403-407 | every written link row belongs to the recipe being replaced |
| Associations.LinkAllValid | api/src/lib/recipesRepo.ts:383-407 | linking a list preserves the invariant and the set of recipes |
| Associations.LinkAllSpec | api/src/lib/recipesRepo.ts:383-407 | linking a list succeeds iff its collated names are pairwise distinct and none is already listed; a failure is the pair's unique violation; on success the list is the old one followed by the entries, each spelled as the vocabulary kept it before |
| Associations.LinkAllSucceeds | api/src/lib/recipesRepo.ts:383-407 | by induction over the list: success iff each collated name is new with respect to the list built so far |
| Associations.LinkAllError | api/src/lib/recipesRepo.ts:403-407 | the only error linking can raise is the pair's unique violation |
| Associations.LinkAllJoined | api/src/lib/recipesRepo.ts:383-407 | after a successful link the recipe's list is the old list followed by the entries in order, each spelled as the vocabulary kept it before the loop, or as given when new |
| Associations.LinkAllStep | api/src/lib/recipesRepo.ts:383-407 | linking a non-empty list is linking its head and then its tail |
| Associations.Replace | api/src/lib/recipesRepo.ts:376-409 | a full replacement changes only that association's tables, and its name rows never shrink |
| Associations.ReplaceValid | api/src/lib/recipesRepo.ts:376-409 | a full replacement preserves the invariant and the set of recipes |
| Associations.ReplaceSpec | api/src/lib/recipesRepo.ts:376-409 | replacing a recipe's list succeeds iff the collated names are pairwise distinct; afterwards the list is exactly the given entries in order, each spelled as the vocabulary kept it before; two names equal under the collation fail on the pair's unique index |
| Associations.ReplaceCaseDuplicate | api/src/lib/recipesRepo.ts:383-407 | replacing a list with "Salt" and "salt" fails on the join table's unique index |
| Associations.ReplaceReusesSpelling | api/src/lib/recipesRepo.ts:383-407 | a category that matches a stored one under the collation is listed with the stored spelling and adds no category row |
| Associations.ReplaceOneCategory | api/src/lib/recipesRepo.ts:383-407 | replacing a recipe's categories by one name succeeds and lists that name as the vocabulary spells it |
| Associations.ReplaceDessert | api/src/lib/recipesRepo.ts:383-407 | with "Dessert" stored, linking "dessert" lists "Dessert" |
| Associations.ReplaceRows | api/src/lib/recipesRepo.ts:383-407 | a replacement whose entries all match stored rows adds no vocabulary row |
| Associations.LinkAllRows | api/src/lib/recipesRepo.ts:383-407 | a loop whose entries all match stored rows adds no vocabulary row |
| Associations.ReplaceStart | api/src/lib/recipesRepo.ts:381 | after the DELETE the database is still valid, the recipe still exists, its list is empty and the vocabulary is unchanged |
| Associations.ReplaceOthers | api/src/lib/recipesRepo.ts:376-409 | replacing one recipe's list leaves every other recipe's list unchanged |
| Associations.ReplaceOther | api/src/lib/recipesRepo.ts:376-409 | replacing one recipe's list leaves any one other recipe's list unchanged |
| Associations.TrimAll | api/src/lib/recipesRepo.ts:383 | every entry's name is trimmed, element for element |
| Associations.Normalize | api/src/lib/recipesRepo.ts:383 | the kept entries are exactly the trimmed entries whose names are non-empty |
| Associations.NormalizeDistinct | api/src/lib/recipesRepo.ts:383-407 | the normalised names are pairwise distinct under the collation iff no two input entries trim to non-empty names that collate equal |
| Associations.CategoryItems | api/src/lib/recipesRepo.ts:383 | the category names written are exactly the trimmed non-empty inputs, with no quantity |
| Associations.CategoryEntries | api/src/lib/recipesRepo.ts:376-383 | each category string becomes one entry without a quantity |
| Associations.IngredientItems | api/src/lib/recipesRepo.ts:416-422 | the ingredients written are exactly the inputs with trimmed names, skipping those whose name trims to empty |
| RecipesRepo.FirstWithId | api/src/lib/recipesRepo.ts:84-103 | the lookup fails iff no row has the id; otherwise it returns a row with that id |
| RecipesRepo.FindRecipe | api/src/lib/recipesRepo.ts:84-103 | a recipe is found iff its id exists, and then it is a stored row with that id |
| RecipesRepo.FindRecipeUnique | api/src/functions/adminInitSql.ts:31-50 | with unique ids, looking up a stored row's id returns that row |
| RecipesRepo.GetRecipeById | api/src/lib/recipesRepo.ts:84-103 | details exist iff the recipe does; they hold its row, its categories and its ingredients, each sorted by collated name and a permutation of its joined lists |
| RecipesRepo.EnsureUser | api/src/lib/recipesRepo.ts:319-350 | a falsy id gives null with no change; an existing user is returned unchanged; otherwise a user is inserted with name defaulting to "anonymous", failing on IX_users_email iff a stored email equals its email under the collation |
| RecipesRepo.EnsureUserValid | api/src/lib/recipesRepo.ts:319-350 | ensureUser preserves the invariant, changes only the user table and leaves the returned user existing |
| RecipesRepo.EnsureUserCaseVariantEmail | api/src/functions/adminInitSql.ts:24-28 | with "bob@x.com" stored, a new user with "Bob@x.com" is refused by IX_users_email |
| RecipesRepo.ReplaceIfSpec | api/src/lib/recipesRepo.ts:67-73 | a conditional replacement is skipped for an absent array, and otherwise succeeds iff the normalised names are distinct under the collation |
| RecipesRepo.ReplaceIfEffect | api/src/lib/recipesRepo.ts:67-73 | after a successful conditional replacement the recipe's list is the normalised input spelled as the vocabulary kept it, or unchanged when none was given |
| RecipesRepo.OtherAssocUnchanged | api/src/lib/recipesRepo.ts:211-219 | replacing categories leaves the ingredient rows and lists, recipes, users, reviews and favorites as they were, and the other way round |
| RecipesRepo.CategoryList | api/src/lib/recipesRepo.ts:376-383 | normalised categories never carry a quantity |
| RecipesRepo.CategoryListSpec | api/src/lib/recipesRepo.ts:383-407 | the normalised categories have distinct collated names iff no two payload categories trim to non-empty names equal under the collation |
| RecipesRepo.IngredientListSpec | api/src/lib/recipesRepo.ts:416-451 | the normalised ingredients have distinct collated names iff no two payload ingredients trim to non-empty names equal under the collation |
| RecipesRepo.ReplaceBothOutcome | api/src/lib/recipesRepo.ts:211-219 | replacing both lists succeeds iff neither has two names equal under the collation after trimming, and a failure is the unique violation of the first rejected list |
| RecipesRepo.ReplaceBothEffect | api/src/lib/recipesRepo.ts:211-219 | after both replacements the recipe's two lists are the normalised inputs spelled as the vocabularies kept them, and the other tables are unchanged |
| RecipesRepo.CreateRecipe | api/src/lib/recipesRepo.ts:44-82 | every failure except the final read-back leaves the database as it was |
| RecipesRepo.CreateStart | api/src/lib/recipesRepo.ts:47-65 | the user step succeeds iff the user is accepted, its email compared under the collation; then the insert of the new draft row always succeeds, adds exactly that id and leaves both of its lists empty |
| RecipesRepo.CreateTxOutcome | api/src/lib/recipesRepo.ts:47-74 | the create transaction returns iff the user, the categories and the ingredients are all accepted, emails and names compared under the collation; a failure names the first violated index |
| RecipesRepo.CreateTxEffect | api/src/lib/recipesRepo.ts:47-74 | a committed create adds exactly the new row, draft and unpublished with the given fields, and its lists are the normalised inputs, each spelled as already stored or as given |
| RecipesRepo.CreateRecipeOutcome | api/src/lib/recipesRepo.ts:44-82 | createRecipe succeeds iff the user is accepted (its email compared under the collation) and neither list has two names equal under the collation, and otherwise rolls back |
| RecipesRepo.CreateRecipeResult | api/src/lib/recipesRepo.ts:44-82 | a created recipe has a fresh id and the new row, and its details list the normalised categories and ingredients, each spelled as already stored or as given |
| RecipesRepo.Patched | api/src/lib/recipesRepo.ts:178-209 | a patch never changes a row's id or owner |
| RecipesRepo.UpdateRecipe | api/src/lib/recipesRepo.ts:162-232 | a failed update leaves the database as it was |
| RecipesRepo.UpdateRecipeRowFind | api/src/lib/recipesRepo.ts:203-207 | the UPDATE applies the change to the one row with that id, keeps every other row and keeps the invariant; a missing id changes nothing |
| RecipesRepo.UpdateRecipeRowKeeps | api/src/lib/recipesRepo.ts:203-207 | rows with other ids survive an UPDATE by id |
| RecipesRepo.UpdateScalarsEffect | api/src/lib/recipesRepo.ts:178-209 | the column UPDATE fails iff some column is written while title is null; otherwise the row becomes the patched row and updated_at is refreshed only if a column was written |
| RecipesRepo.UpdateRecipeOutcome | api/src/lib/recipesRepo.ts:162-232 | a missing id gives null with no change; otherwise the update succeeds iff title is not null and both lists are accepted, and a failure names the violation |
| RecipesRepo.UpdateRecipeResult | api/src/lib/recipesRepo.ts:162-232 | a successful update returns the patched row with its replaced lists spelled as the vocabularies kept them, keeps the invariant and the set of recipes, and leaves other recipes' rows alone |
| RecipesRepo.Cleared | api/src/lib/recipesRepo.ts:251-254 | the cascade removes every row that references the recipe and keeps the recipe, user, category and ingredient tables |
| RecipesRepo.DeleteRecipeResult | api/src/lib/recipesRepo.ts:234-259 | deleteRecipe returns the row as it was before the delete, or null for a missing id with no change |
| RecipesRepo.DeleteRecipeRows | api/src/lib/recipesRepo.ts:234-259 | the delete removes exactly the recipe, its join rows, its reviews and its favorites, and leaves users, categories and ingredients untouched |
| RecipesRepo.DeleteRecipeValid | api/src/lib/recipesRepo.ts:234-259 | the delete preserves the invariant |
| RecipesRepo.Published | api/src/lib/recipesRepo.ts:261-268 | publishing keeps the row's id and owner |
| RecipesRepo.Moderated | api/src/lib/recipesRepo.ts:270-277 | moderating keeps the row's id and owner |
| RecipesRepo.WithImages | api/src/lib/recipesRepo.ts:279-284 | setting the image URLs keeps the row's id and owner |
| RecipesRepo.SetPublishStatusSpec | api/src/lib/recipesRepo.ts:261-268 | publishing returns a row iff the recipe exists; that row is published and 'pending' with a fresh updated_at; nothing else changes |
| RecipesRepo.SetModerationStatusSpec | api/src/lib/recipesRepo.ts:270-277 | moderation sets exactly the given status and flag with no guard on the current state, and returns null for a missing id with no change |
| RecipesRepo.SetRecipeImagesSpec | api/src/lib/recipesRepo.ts:279-284 | setting the images rewrites both URLs of that recipe only; a missing id changes nothing |
| RecipesRepo.SetRecipeImagesIdempotent | api/src/lib/recipesRepo.ts:279-284 | setting the same images twice is the same as once |
| RecipesRepo.AddFavoriteOutcome | api/src/lib/recipesRepo.ts:352-367 | addFavorite succeeds iff the recipe exists and the user id is non-empty or already exists; a failure is a foreign-key violation with no change |
| RecipesRepo.AddFavoriteEffect | api/src/lib/recipesRepo.ts:352-367 | after addFavorite the favorites are the old ones plus that pair, the user exists, and only users and favorites changed |
| RecipesRepo.AddFavoriteIdempotent | api/src/lib/recipesRepo.ts:352-367 | adding the same favorite twice equals adding it once |
| RecipesRepo.RemoveFavoriteIdempotent | api/src/lib/recipesRepo.ts:369-374 | removing a favorite twice equals removing it once; removing an absent one changes nothing |
| RecipesRepo.RemoveUndoesAdd | api/src/lib/recipesRepo.ts:352-374 | removing a favorite just added restores the favorites table |
| RecipesRepo.ListCategories | api/src/lib/recipesRepo.ts:149-152 | the split category names are non-empty and free of commas |
| RecipesRepo.ListItems | api/src/lib/recipesRepo.ts:149-159 | every listed row becomes one list item, in order |
| RecipesRepo.HasCategoryListed | api/src/lib/recipesRepo.ts:122-127 | the category filter holds for a recipe iff the name, compared under the collation, is among its joined categories |
| RecipesRepo.ListRecipesPaging | api/src/lib/recipesRepo.ts:105-160 | listRecipes fails iff page or pageSize is below 1, which makes OFFSET negative or FETCH zero |
| RecipesRepo.OffsetSign | api/src/lib/recipesRepo.ts:108 | for a positive page size, the offset (page-1)*pageSize is non-negative iff the page is at least 1 |
| RecipesRepo.ListRecipesCounts | api/src/lib/recipesRepo.ts:131-159 | total counts all matches regardless of paging; the page holds min(pageSize, total-offset) items, none past the end |
| RecipesRepo.MatchingIff | api/src/lib/recipesRepo.ts:110-127 | the filtered rows are exactly the stored rows that meet the text, published and category filters, the category compared under the collation |
| RecipesRepo.PageRowsMatch | api/src/lib/recipesRepo.ts:136-147 | the page's rows all match and are ordered newest first |
| RecipesRepo.ListRecipesRows | api/src/lib/recipesRepo.ts:105-160 | every listed row is a stored row meeting the filters, and created_at never increases along the page |
| RecipesRepo.ListRecipesComplete | api/src/lib/recipesRepo.ts:105-160 | a first page as large as the result holds every matching row exactly once |
| RecipesRepo.Rows | api/src/lib/recipesRepo.ts:154-159 | the rows of a page are its items' rows, in order |
| RecipesRepo.ListCategoriesRoundTrip | api/src/lib/recipesRepo.ts:149-152 | trimmed, non-empty names without commas survive the aggregate-then-split round trip |
| RecipesRepo.ListCategoriesSplitsComma | api/src/lib/recipesRepo.ts:149-152 | a category named "a,b" is listed as the two names "a" and "b" |
| Seqs.Page | api/src/lib/recipesRepo.ts:136-147 | OFFSET/FETCH returns the slice starting at the offset, at most size long, empty past the end and full when enough rows follow |
| Seqs.SortByName | api/src/lib/recipesRepo.ts:286-292 | ORDER BY name yields a permutation of its input sorted by the key it is given; the repository passes the collated name |
| Seqs.InsertByName | api/src/lib/recipesRepo.ts:286-292 | inserting into a sorted list keeps it sorted and adds exactly that element |
| Seqs.SortNewestFirst | api/src/lib/cosmosRepo.ts:26 | ORDER BY createdAt DESC yields a permutation of its input in non-increasing time order |
| Seqs.InsertByTime | api/src/lib/cosmosRepo.ts:26 | inserting into a newest-first list keeps the order and adds exactly that element |
| Seqs.PageNewestFirst | api/src/lib/cosmosRepo.ts:21-37 | a page of a newest-first list is newest first and drawn from the list |
| Seqs.PageOfSorted | api/src/lib/cosmosRepo.ts:21-37 | a page of the sorted documents is newest first and holds only stored documents |
| Seqs.Filter | api/src/lib/cosmosRepo.ts:83-97 | a filter keeps exactly the elements that pass, in order |
| Seqs.FilterMultiset | api/src/lib/recipesRepo.ts:383 | a filter keeps each accepted element as often as it occurs and drops every rejected one |
| Seqs.DistinctByFilterIff | api/src/lib/recipesRepo.ts:383 | the kept entries have distinct keys iff no two kept entries of the input share a key |
| Strings.Trim | api/src/lib/recipesRepo.ts:383 | the trimmed string is no longer than the input and starts and ends with a non-space |
| Strings.TrimSlice | api/src/lib/recipesRepo.ts:383 | the trimmed string is one contiguous slice of the input with only white space cut off before and after it |
| Strings.TrimSliceFront | api/src/lib/recipesRepo.ts:383 | a leading white-space character moves the kept slice one place right |
| Strings.TrimSliceBack | api/src/lib/recipesRepo.ts:383 | a trailing white-space character leaves the kept slice where it is |
| Strings.TrimEmptyIff | api/src/lib/recipesRepo.ts:383 | a string trims to empty iff it is all JavaScript whitespace |
| Strings.TrimIdempotent | api/src/lib/storage.ts:29 | trimming twice is trimming once |
| Strings.ToLower | api/src/lib/sql.ts:18 | lower-casing keeps the length and maps each ASCII capital to its lower-case letter, leaving other characters |
| Strings.LowerEqualsIff | api/src/lib/validation.ts:182-197 | a string lower-cases to a lower-case word iff it spells that word ignoring case |
| Strings.IndexOf | api/src/lib/storage.ts:31-37 | the first occurrence of a character, or -1 iff it is absent |
| Strings.LastIndexOf | web/scripts/upload-to-static-site.mjs:53 | the last occurrence of a character, or -1 iff it is absent |
| Strings.Split | web/scripts/upload-to-static-site.mjs:89 | splitting gives at least one part, and no part contains the separator |
| Strings.JoinSplit | web/scripts/upload-to-static-site.mjs:89 | joining the parts of a split with the same separator restores the string |
| Strings.SplitJoin | api/src/lib/recipesRepo.ts:149-152 | splitting a join of separator-free parts restores the parts |
| Strings.TrimEach | api/src/lib/recipesRepo.ts:149-152 | each split part is trimmed, element for element |
| Strings.ReplaceChar | web/scripts/upload-to-static-site.mjs:89 | every occurrence of one character is replaced by another, and nothing else changes |
| Strings.SplitJoinReplaces | web/scripts/upload-to-static-site.mjs:89 | split on one character then join with another is replacing that character everywhere |
| Strings.LexTotal | api/scripts/run-migrations.ts:13 | the string order used for sorting is total |
| Strings.LexTransitive | api/scripts/run-migrations.ts:13 | the string order used for sorting is transitive |
| Strings.LexAntisymmetric | api/scripts/run-migrations.ts:13 | the string order used for sorting is antisymmetric |
| Paths.StripTrailingSlashes | api/src/lib/uploads.ts:14 | the path without trailing slashes is a prefix of it and does not end in '/' |
| Paths.LastSegment | api/src/lib/uploads.ts:14 | the base name contains no '/' |
| Paths.ExtName | api/src/lib/uploads.ts:14 | extname is empty or a '.' followed by a dot-free, slash-free tail, and is empty when the base name has no dot |
| Paths.ExtNameOf | api/src/lib/uploads.ts:14 | a name stem.ext has extension ".ext" |
| Paths.DotFileHasNoExt | web/scripts/upload-to-static-site.mjs:53 | a dot-file such as dir/.env has no extension |
| Paths.LastSegmentInDir | web/scripts/upload-to-static-site.mjs:53 | the base name of dir/name is name |
| Paths.ExtNameInDir | web/scripts/upload-to-static-site.mjs:53 | a directory prefix does not change a name's extension |
| Paths.ExtNameAt | web/scripts/upload-to-static-site.mjs:53 | a final dot that follows a character other than '/' or '.' starts the extension |
| Validation.AsRecord | api/src/lib/validation.ts:14-19 | only a JSON object passes, with its fields; anything else is "must be an object" on the field |
| Validation.ReadString | api/src/lib/validation.ts:21-49 | undefined is absent or "is required"; null is null only with allowNull; a string shorter than minLength fails; other strings pass unchanged; non-strings fail |
| Validation.ReadStringAccepts | api/src/lib/validation.ts:21-49 | readString accepts exactly optional-undefined, allowed null and long-enough strings, and a rejection is a validation error on that field |
| Validation.ReadFromSpec | api/src/lib/validation.ts:71-82 | reading an array succeeds iff every element reads, gives the elements in order, and otherwise reports the first element that fails |
| Validation.ReadArrayItem | api/src/lib/validation.ts:71-82 | an array element is accepted iff it is a string of at least minLength characters, and is returned unchanged |
| Validation.ReadStringArraySpec | api/src/lib/validation.ts:51-83 | an array is accepted iff every element is a long-enough string, and is returned element for element; a rejection names some bad field[i] |
| Validation.ReadStringArrayOther | api/src/lib/validation.ts:51-70 | a non-array is accepted only as undefined, or as null with allowNull; otherwise "must be an array" |
| Validation.ReadIngredientSpec | api/src/lib/validation.ts:140-158 | an ingredient is accepted iff it is an object with a non-empty string name and an acceptable quantity; a quantity is present iff it was a string |
| Validation.ReadIngredientsSpec | api/src/lib/validation.ts:126-159 | an ingredient array is accepted iff every element is, and reads element for element |
| Validation.UuidOfGroups | api/src/lib/validation.ts:96 | five groups of lengths 8-4-4-4-12 joined by '-' form a UUID iff each group has the required hex digits, version and variant |
| Validation.UuidSplits | api/src/lib/validation.ts:96 | every accepted UUID is its five groups joined by '-' |
| Validation.ReadUuid | api/src/lib/validation.ts:85-101 | a string is accepted iff it is a UUID, and is returned unchanged; non-strings behave as in readString |
| Validation.EmailOfParts | api/src/lib/validation.ts:114 | local@domain is an email iff the local part is non-empty and both parts are free of whitespace and '@' and the domain has an inner dot |
| Validation.DotInside | api/src/lib/validation.ts:114 | a domain has an inner dot iff a dot has a character on each side |
| Validation.ReadEmail | api/src/lib/validation.ts:103-119 | a string is accepted iff it is an email, and is returned unchanged; non-strings behave as in readString |
| Validation.ReadPositiveInt | api/src/lib/validation.ts:161-180 | absent or empty gives the default; otherwise the value is accepted iff it converts to an integer within the inclusive bounds; an error names the field |
| Validation.ReadBooleanSpec | api/src/lib/validation.ts:182-197 | true and false are returned exactly for "true" and "false" in any case; nothing fails |
| Http.CorrelationId | api/src/lib/http.ts:74-77 | a non-empty x-correlation-id wins; the id is always a sent header value or the fresh id |
| Http.MergeHeaders | api/src/lib/http.ts:88-96 | merged headers are the union, with the extra headers overriding the response's own; status and body are unchanged |
| Http.JsonResponse | api/src/lib/http.ts:63-72 | the response has the given status and body and the caller's headers, with content-type defaulting to application/json |
| Http.ToErrorResponse | api/src/lib/http.ts:98-116 | an ApiError keeps its status, code, message and details and reads back unchanged; any other error is a 500 internal_error |
| Http.ReadJson | api/src/lib/http.ts:55-61 | a body that parses is returned; one that does not is 400 invalid_json |
| Http.Serve | api/src/lib/http.ts:14-53 | OPTIONS answers 204 with no body and never runs the handler; any other verb takes the handler's new state |
| Http.ServeSpec | api/src/lib/http.ts:14-53 | every response carries the CORS headers and the correlation id; the handler's response or its mapped error comes through with its status |
| LogicApp.CallLogicAppWebhook | api/src/lib/logicApp.ts:3-26 | no URL means no call and a not-configured error; otherwise exactly one call with the payload and correlation id, succeeding iff the response status is OK |
| Media.ProcessedName | api/src/lib/media.ts:1-6 | a derived name is the folder, the recipe id, '/' and a ten-character file name |
| Media.ProcessedBlobNames | api/src/lib/media.ts:1-6 | the thumb and image names are the derived names for that recipe |
| Media.ParseProcessedName | api/src/lib/media.ts:1-6 | a parsed name rebuilds the name it came from |
| Media.ParseProcessedNameRoundTrip | api/src/lib/media.ts:1-6 | parsing a derived name recovers the recipe id and the kind |
| Media.ProcessedNameInjective | api/src/lib/media.ts:3-4 | distinct (recipe, kind) pairs get distinct names, so no thumb name equals any image name |
| Media.ThumbNotImage | api/src/lib/media.ts:3-4 | for every recipe the thumb and image names differ |
| MediaProcessor.FeedItemFor | api/src/workers/mediaProcessor.ts:76-91 | the feed document is keyed by the recipe id in the feed partition |
| MediaProcessor.Process | api/src/workers/mediaProcessor.ts:48-99 | a malformed job is refused with no effect; outputs land only under the two names derived from the recipe id; the raw container is only read |
| MediaProcessor.UploadIf | api/src/workers/mediaProcessor.ts:30-40 | an upload that goes through stores its rendition under the name with the image/webp type and the one-year cache header; a failed one stores nothing; every other name keeps its blob |
| MediaProcessor.Derive | api/src/workers/mediaProcessor.ts:60-61 | the renditions exist exactly when the raw container opens, holds the blob, generateImages succeeds and the processed container opens, and they are generateImages's output |
| MediaProcessor.Finish | api/src/workers/mediaProcessor.ts:69-97 | the steps after the uploads, the feed upsert included, touch neither blob container |
| MediaProcessor.ProcessAtUploads | api/src/workers/mediaProcessor.ts:64-69 | once the uploads are reached, a failed thumbnail upload is the error, then a failed main upload, each keeping what was written; otherwise the job goes on to the recipe update |
| MediaProcessor.FinishOutcome | api/src/workers/mediaProcessor.ts:69-97 | after the uploads the job answers the two URLs iff the recipe exists and the feed upsert goes through; a missing recipe is not_found with nothing changed, since the UPDATE matched no row; a failed upsert (a missing Cosmos setting or a rejected call) is that error, with the row already pointing at the URLs and the feed unchanged |
| MediaProcessor.ProcessOutcome | api/src/workers/mediaProcessor.ts:24-99 | a job succeeds iff it is well formed, the raw container opens and holds its blob, derivation succeeds, the processed container opens, both uploads go through, the recipe exists and the feed upsert goes through; each failure before the uploads is the error with no effect; a failed upload is the error with only blobs written; then a missing recipe is not_found with the database unchanged; a failed feed upsert is its error with the recipe row already updated; no failure touches the raw container or the feed |
| MediaProcessor.ProcessUploadsBoth | api/src/workers/mediaProcessor.ts:30-40 | once the uploads are reached, each rendition whose upload goes through is stored under its derived name with the WebP headers, even when the other fails; a failed upload leaves its name as it was |
| MediaProcessor.ProcessSuccess | api/src/workers/mediaProcessor.ts:69-97 | a success returns the two upload URLs, points the recipe at them with a fresh updated_at, and leaves exactly one feed document for the recipe with its title, thumb URL and creation time |
| MediaProcessor.FinishSuccess | api/src/workers/mediaProcessor.ts:69-97 | with the recipe present, the row points at the two URLs whatever the upsert does; a successful upsert answers the URLs and leaves exactly one feed document for the recipe, with its title, thumbnail URL and creation time; a failed one is its error with the feed unchanged |
| MediaProcessor.ProcessConverges | api/src/workers/mediaProcessor.ts:62-91 | running the same successful job again changes nothing and returns the same result |
| MediaProcessor.FinishConverges | api/src/workers/mediaProcessor.ts:69-91 | repeating the recipe update, re-read and feed upsert on their own result changes nothing |
| MediaProcessor.UploadedAgain | api/src/workers/mediaProcessor.ts:64-67 | uploading both renditions again over what they produced leaves the processed container as it was |
| MediaProcessor.UploadBothAgain | api/src/workers/mediaProcessor.ts:64-67 | uploading the same two blobs again leaves the container as it was |
| MediaProcessor.PayloadOf | api/src/workers/mediaProcess.ts:8-18 | decoding fails only for a text message that parses to null |
| MediaProcessor.JobOf | api/src/workers/mediaProcess.ts:20-23 | for a payload whose properties are absent or strings, the job is well-formed iff both are non-empty, and then the job carries them |
| MediaProcessor.DecodeMessage | api/src/workers/mediaProcess.ts:8-23 | null, non-object and unparsable messages decode to the empty job; an object message is read directly; only a text "null" throws |
| MediaProcessor.HandleMessage | api/src/workers/mediaProcess.ts:7-24 | for messages whose properties are absent or strings, every decodable message with a missing or empty field ends in invalid_job with no effect; a thrown decode error has no effect either |
| CosmosRepo.PageOf | api/src/lib/cosmosRepo.ts:21-37 | OFFSET (page-1)*pageSize LIMIT pageSize is accepted iff both are non-negative, and is then that slice |
| CosmosRepo.GetFeedPageSpec | api/src/lib/cosmosRepo.ts:21-37 | a feed page holds at most pageSize stored feed-partition documents, newest first |
| CosmosRepo.UpsertFeedItem | api/src/lib/cosmosRepo.ts:39-42 | an upsert leaves every document with a different key as it was |
| CosmosRepo.UpsertFeedItemHolds | api/src/lib/cosmosRepo.ts:39-42 | after an upsert the store holds exactly one document with that key, equal to the item, and keys stay unique |
| CosmosRepo.UpsertFeedItemIdempotent | api/src/lib/cosmosRepo.ts:39-42 | upserting the same item twice equals upserting it once |
| CosmosRepo.UpsertFeedItemIn | api/src/lib/cosmosRepo.ts:39-42 | the upserted item is in the store afterwards |
| CosmosRepo.RemoveFeedDoc | api/src/lib/cosmosRepo.ts:44-47 | removing the recipe's feed document keeps exactly the other documents |
| CosmosRepo.DeleteFeedItem | api/src/lib/cosmosRepo.ts:44-47 | the delete succeeds iff the recipe's feed document exists and then removes exactly it; otherwise it fails with not_found |
| CosmosRepo.RemoveUndoesUpsert | api/src/lib/cosmosRepo.ts:39-47 | removing a freshly inserted feed document restores the store |
| CosmosRepo.DeleteUndoesUpsert | api/src/lib/cosmosRepo.ts:39-47 | deleting a freshly inserted feed document succeeds and restores the store |
| CosmosRepo.CommentIds | api/src/lib/cosmosRepo.ts:86 | the id projection keeps one id per comment, in order |
| CosmosRepo.AddComment | api/src/lib/cosmosRepo.ts:49-61 | adding a comment appends exactly the returned comment |
| CosmosRepo.AddCommentSpec | api/src/lib/cosmosRepo.ts:49-61 | the new comment has a fresh id, the given recipe, user and text and the current time, and ids stay unique |
| CosmosRepo.GetCommentsSpec | api/src/lib/cosmosRepo.ts:63-81 | a comment page holds at most pageSize of that recipe's comments, newest first |
| CosmosRepo.DeleteComment | api/src/lib/cosmosRepo.ts:95 | deleting one comment by id and partition keeps every other comment |
| CosmosRepo.DeleteCommentsForRecipe | api/src/lib/cosmosRepo.ts:83-97 | afterwards no comment of the recipe remains and every other comment is kept |
| CosmosRepo.IdsCoverRecipe | api/src/lib/cosmosRepo.ts:83-92 | the id query returns the id of every comment of the recipe |
| Storage.ValidateBlobKey | api/src/lib/storage.ts:18-26 | a key is rejected iff it contains "DefaultEndpointsProtocol=" or "AccountKey=" |
| Storage.Segments | api/src/lib/storage.ts:29 | segments are non-empty and free of ';' |
| Storage.EntryAtFirstEquals | api/src/lib/storage.ts:32-36 | a segment splits at its first '=', so values keep later '=' characters; no '=' or an empty key gives no entry |
| Storage.LastWithKey | api/src/lib/storage.ts:31-37 | finds the last segment with the key, or -1 when none has it |
| Storage.EntriesLastWins | api/src/lib/storage.ts:31-37 | a key is present iff some segment has it, and its value comes from the last such segment |
| Storage.ParseConnectionString | api/src/lib/storage.ts:28-44 | a parsed string has a non-empty account and key, the connection-string mode and the input itself; a failure is the invalid-connection-string error |
| Storage.ParseConnectionStringSpec | api/src/lib/storage.ts:28-44 | parsing succeeds iff the last AccountName and the last AccountKey entries are non-empty, and returns those values |
| Storage.GetStorageAccountInfo | api/src/lib/storage.ts:46-74 | the three connection-string variables are tried in order; otherwise shared-key mode is chosen iff account and a valid key are set; every failure is a 500 config_error |
| Storage.NoStorageConfig | api/src/lib/storage.ts:46-74 | with nothing configured the result is the missing-configuration error |
| Storage.GetContainerClient | api/src/lib/storage.ts:80-122 | opening a container fails with a 500 config_error when the account configuration fails, and is otherwise the outcome of createIfNotExists |
| Storage.NoContainerWithoutConfig | api/src/lib/storage.ts:46-122 | with nothing configured no container opens: the result is the missing-configuration error |
| Uploads.LowerExtName | api/src/lib/uploads.ts:12-18 | a non-empty extname, lower-cased, is a valid extension |
| Uploads.ResolveExtension | api/src/lib/uploads.ts:12-25 | a non-empty extension of the file name wins, lower-cased; otherwise a known image type maps to its extension; else ".bin" |
| Uploads.FallbackExtension | api/src/lib/uploads.ts:20-24 | the content-type fallback is always a valid extension |
| Uploads.KnownExtensions | api/src/lib/uploads.ts:6-10 | .jpg, .png, .webp and .bin are valid extensions |
| Uploads.ParseUploadNameRoundTrip | api/src/lib/uploads.ts:34 | the blob name "recipes/" + uuid + extension parses back to its uuid and extension |
| Uploads.UploadNamesDistinct | api/src/lib/uploads.ts:34 | distinct UUIDs give distinct blob names |
| Uploads.StemExt | api/src/lib/uploads.ts:34 | the uuid-and-extension file name has that extension |
| Uploads.UploadNameExt | api/src/lib/uploads.ts:34 | the blob name's extname is the resolved extension |
| Uploads.ResolveFromBlobName | api/src/lib/uploads.ts:12-34 | resolving the extension of an upload blob name gives its own extension back |
| Uploads.UploadSas | api/src/lib/uploads.ts:38-49 | the SAS names the container and blob, is HTTPS-only, grants exactly create and write, and is valid from 5 s before now to 10 min after |
| Uploads.CreateUploadInit | api/src/lib/uploads.ts:32-57 | initialisation fails exactly when the raw container does not open, with that error; otherwise rawBlobUrl is the blob's URL in the raw container and uploadUrl is rawBlobUrl, '?' and the signed SAS |
| Uploads.CreateUploadInitSpec | api/src/lib/uploads.ts:32-57 | a successful initialisation names a blob that parses back to the uuid and the resolved extension, and its expiry is the SAS's expiry |
| Uploads.NoUploadWithoutConfig | api/src/lib/storage.ts:46-74 | with no storage configuration an upload cannot be initialised: the result is the missing-configuration error |
| Migrations.AppliedCount | api/scripts/run-migrations.ts:17-24 | the applied count is positive iff some record equals the name under the case-insensitive collation, and is 0 without the table |
| Migrations.Count | api/scripts/run-migrations.ts:17-24 | a name's count is positive iff some row equals it under the collation, and is bounded by the number of rows |
| Migrations.Step | api/scripts/run-migrations.ts:17-30 | a name recorded under any spelling that collates equal is skipped with no change; a new one is recorded after applying, at the end; either way it is recorded afterwards |
| Migrations.CaseVariantSkipped | api/scripts/run-migrations.ts:17-24 | with "001_init.sql" recorded, a file "001_INIT.sql" is skipped |
| Migrations.Pending | api/scripts/run-migrations.ts:11-13 | the pending files are exactly the .sql files, sorted by name |
| Migrations.RunMigrations | api/scripts/run-migrations.ts:6-41 | a configuration error stops the run before any change |
| Migrations.RunAllRows | api/scripts/run-migrations.ts:15-33 | a run appends exactly the names it applies, so names stay recorded even when it stops early |
| Migrations.RunAllAppliesNew | api/scripts/run-migrations.ts:15-33 | a run applies only pending names that no record equals under the collation |
| Migrations.RunAllCompletes | api/scripts/run-migrations.ts:15-33 | a run without error leaves every pending name recorded, possibly under a spelling that collates equal |
| Migrations.AppliedInOrder | api/scripts/run-migrations.ts:13-33 | names are applied in sorted order |
| Migrations.RunAllRecorded | api/scripts/run-migrations.ts:15-33 | when every name is already recorded under the collation the run applies nothing and changes nothing |
| Migrations.RunTwice | api/scripts/run-migrations.ts:6-41 | a second run after a successful one applies nothing and changes nothing |
| Migrations.RunAllNoDuplicates | api/scripts/run-migrations.ts:15-33 | a run never records two names that are equal under the collation |
| Migrations.RunAllAppliedDistinct | api/scripts/run-migrations.ts:15-33 | no two names a run applies are equal under the collation, whatever the table held before |
| Migrations.RunMigrationsSpec | api/scripts/run-migrations.ts:6-41 | the recorded names grow by exactly the applied ones, which are .sql files no record equals under the collation, in sorted order and pairwise distinct under the collation; a table without such duplicates gets none; exit code 0 means every .sql file is recorded |
| AdminInitSql.AdminInit | api/src/functions/adminInitSql.ts:134-189 | an unset ADMIN_KEY is admin_not_configured and a wrong header is unauthorized, both with no change; a failed script is sql_init_failed; success is 200 with the fixed message |
| AdminInitSql.AdminInitRecordsOnce | api/src/functions/adminInitSql.ts:156-172 | success leaves the migrations table present and records "001_init.sql" only when no record equals it under the collation, so records stay distinct |
| AdminInitSql.AdminInitRecorded | api/src/functions/adminInitSql.ts:156-172 | after a successful call "001_init.sql" is recorded under the collation and the migrations table exists |
| AdminInitSql.AdminInitIdempotent | api/src/functions/adminInitSql.ts:156-172 | a second successful call changes nothing |
| AdminInitSql.AdminInitThenRunner | api/src/functions/adminInitSql.ts:156-172 | after the initialiser the migration runner skips "001_init.sql" |
| StaticSite.HexRunStart | web/scripts/upload-to-static-site.mjs:62 | finds the start of the maximal run of hex digits ending at a position |
| StaticSite.HexRunStartAt | web/scripts/upload-to-static-site.mjs:62 | a run of hex digits after a non-hex character starts just after it |
| StaticSite.MatchEndsAtLastDot | web/scripts/upload-to-static-site.mjs:62 | in a hash match the extension's dot is the name's last dot |
| StaticSite.HashedNameIff | web/scripts/upload-to-static-site.mjs:62 | the direct check of the last two dot-separated parts agrees with the regular expression in both directions |
| StaticSite.PatternIsHashed | web/scripts/upload-to-static-site.mjs:62 | a name the regular expression matches passes the direct check |
| StaticSite.MatchIsHashed | web/scripts/upload-to-static-site.mjs:62 | a match at a given position passes the direct check |
| StaticSite.HashedIsPattern | web/scripts/upload-to-static-site.mjs:62 | a name passing the direct check is matched by the regular expression |
| StaticSite.CacheControl | web/scripts/upload-to-static-site.mjs:52-69 | .html is never cached, even when hashed; other names are immutable iff they match the hash pattern; everything else is cached for a day |
| StaticSite.HashedExt | web/scripts/upload-to-static-site.mjs:53-62 | a hashed name's lower-cased extension is .js, .css or .mjs |
| StaticSite.MatchExt | web/scripts/upload-to-static-site.mjs:53-62 | the extension of a hash match is the dot and the matched suffix |
| StaticSite.HashedAsset | web/scripts/upload-to-static-site.mjs:52-74 | a hashed asset is cached immutably and served as JavaScript or CSS |
| StaticSite.BlobName | web/scripts/upload-to-static-site.mjs:89 | the blob name replaces every backslash by '/' and contains no backslash |
| StaticSite.BlobNameOfSegments | web/scripts/upload-to-static-site.mjs:87-89 | a relative path with either separator becomes its segments joined by '/' |
| StaticSite.FailureCount | web/scripts/upload-to-static-site.mjs:151-175 | the error count never exceeds the number of files |
| StaticSite.UploadStep | web/scripts/upload-to-static-site.mjs:154-174 | each file either adds its blob or adds one error |
| StaticSite.UploadAll | web/scripts/upload-to-static-site.mjs:151-175 | uploaded + errors is the number of files; the container holds exactly the blobs that uploaded, each with its content type and cache policy |
| StaticSite.Deploy | web/scripts/upload-to-static-site.mjs:97-188 | the exit code is 0 iff credentials are set, the container exists, the dist folder is readable and non-empty and no upload failed; a setup failure uploads nothing |
| StaticSite.AllSucceed | web/scripts/upload-to-static-site.mjs:181-184 | zero errors means every file uploaded |
| Handlers.RouteId | api/src/functions/recipesUpdate.ts:8-11 | a route id is read iff it is truthy; otherwise the error is 400 invalid_request |
| Handlers.BodyRecord | api/src/functions/recipesUpdate.ts:12-15 | the body is read iff it parses to an object; unparsable is invalid_json and non-objects are "must be an object" |
| Handlers.ReadText | api/src/functions/recipesCreate.ts:25-44 | a text field is accepted exactly under the readString rules and gives its three-way signal |
| Handlers.ReadStrings | api/src/functions/recipesCreate.ts:36-39 | a string-array field is accepted exactly under the readStringArray rules and gives its array, or none |
| Handlers.ReadItems | api/src/functions/recipesCreate.ts:40 | an ingredient field is accepted exactly under the readIngredients rules and reads element for element |
| Handlers.ReadStringArrayCases | api/src/lib/validation.ts:51-83 | readStringArray with allowNull agrees with the handler's acceptance and value |
| Handlers.ReadIngredientsCases | api/src/lib/validation.ts:126-159 | readIngredients agrees with the handler's acceptance and value |
| Handlers.ReadUserFields | api/src/functions/recipesCreate.ts:41-44 | user id, name and email are read together, accepted iff each is |
| Handlers.ReadCreateInput | api/src/functions/recipesCreate.ts:25-56 | the create payload is accepted iff every field is; a missing or empty title is an error on title; undefined optionals become null |
| Handlers.RecipesCreate | api/src/functions/recipesCreate.ts:24-66 | a refused request changes nothing; only the database and queue change; a job is enqueued iff raw_image_blob_name is non-empty, carrying the new id; success is 201 |
| Handlers.RecipesCreateOutcome | api/src/functions/recipesCreate.ts:24-66 | create succeeds iff the body is accepted and the repository accepts the user, categories and ingredients, emails and names compared under the collation; a failure changes nothing |
| Handlers.RecipesCreateRow | api/src/functions/recipesCreate.ts:46-65 | the new row has a fresh id, the payload's fields with null for missing ones, draft and unpublished, no images, and now as both timestamps |
| Handlers.ReadUpdateInput | api/src/functions/recipesUpdate.ts:16-29 | the update payload is accepted iff every field is, and forwards each field's undefined/null/value signal unchanged |
| Handlers.RecipesUpdate | api/src/functions/recipesUpdate.ts:7-45 | a missing id or bad body changes nothing; only the database changes; success is 200 with the recipe of that id |
| Handlers.RecipesUpdateRefused | api/src/functions/recipesUpdate.ts:31-42 | a missing recipe is 404 with no change; a null title on an existing recipe is the NOT NULL violation with no change |
| Handlers.RowAfterUpdateColumns | api/src/lib/recipesRepo.ts:178-209 | absent fields keep their value, null clears, a value sets; id and statuses are kept; updated_at changes iff some column was written |
| Handlers.RecipesUpdateColumns | api/src/functions/recipesUpdate.ts:7-45 | a successful update writes exactly the supplied columns, keeps the rest and the statuses, and refreshes updated_at iff a column was written |
| Handlers.DeleteBlobQuietly | api/src/functions/recipesDelete.ts:23 | a blob delete that fails is swallowed and leaves the container as it was; otherwise exactly that blob is gone |
| Handlers.CleanStores | api/src/functions/recipesDelete.ts:20-32 | opening the raw container (only when the row named a raw blob) and then the processed container can throw, which stops the cleanup and is its error; otherwise the raw blob, the two renditions and the feed document are removed, each unless its call fails; without storage configuration nothing is cleaned |
| Handlers.RecipesDelete | api/src/functions/recipesDelete.ts:9-35 | a missing id is 400 and a missing recipe 404, both with no change; otherwise the recipe is deleted, and the answer is 200 {deleted: true, id} after the cleanup, or the container-opening error, such as a 500 config_error without storage configuration, with the feed and comments kept |
| Handlers.DeleteRemovesRenditions | api/src/functions/recipesDelete.ts:26-29 | cleanup removes exactly the two blobs the media worker writes for the recipe |
| Handlers.RecipesPublish | api/src/functions/recipesPublish.ts:7-29 | at most one webhook call, only for an existing recipe with the URL set, carrying {id, isPublished: true, title} and the correlation id; success is 200 |
| Handlers.RecipesPublishSpec | api/src/functions/recipesPublish.ts:7-29 | a missing recipe is 404 with no webhook; otherwise the row becomes published and pending, the webhook is called, and its failure is the handler's error without undoing the status |
| Handlers.PublishCorrelates | api/src/functions/recipesPublish.ts:18-22 | the webhook carries the same correlation id as the response header |
| Handlers.Moderate | api/src/functions/recipesModeration.ts:6-32 | only the database changes, and success returns that recipe with the given status and flag |
| Handlers.SetModerationStatusFind | api/src/lib/recipesRepo.ts:270-277 | a returned row has the given status and flag |
| Handlers.UpdatedRowsModerated | api/src/lib/recipesRepo.ts:270-277 | after moderation the stored row has the given status and flag |
| Handlers.UpdateRecipeRowImage | api/src/lib/recipesRepo.ts:203-207 | a row with the updated id is the image of an old row |
| Handlers.RecipesApprove | api/src/functions/recipesModeration.ts:6-18 | approve returns the row as approved and published |
| Handlers.RecipesBlock | api/src/functions/recipesModeration.ts:20-32 | block returns the row as blocked and unpublished |
| Handlers.ModerateSpec | api/src/functions/recipesModeration.ts:6-32 | a missing recipe is 404 with no change; otherwise the row gets the status, flag and fresh updated_at, and is returned with 200 |
| Handlers.ModerationKeepsVisibility | api/src/functions/recipesModeration.ts:6-32 | after publish, approve or block, is_published is true exactly when the status is pending or approved |
| Handlers.RecipesReprocessImage | api/src/functions/recipesReprocessImage.ts:17-36 | 400 for a missing id, 404 for a missing recipe, no_raw_image without a raw blob, all with no change; otherwise exactly one job for the raw blob is enqueued and the answer is 202 |

## Left out

- Real clients for SQL Server, Cosmos DB, Blob Storage and the queue are left out. So are the pool, `getBlobServiceClient`, its caching, `getStorageAuthMode` and `getStorageCredential`, which only build clients. All stores are in-memory values. The container helpers are Storage.GetContainerClient: the account configuration is checked and `createIfNotExists` is a parameter that may fail.
- RecipesRepo.FindRecipe: ids are compared as exact text. The columns are UNIQUEIDENTIFIER, so a route id that is not a UUID makes SQL Server raise a conversion error, a 500, where the model answers 404 or not found; and two spellings of one UUID differing in letter case are not recognised as the same id.
- RecipesRepo.GetRecipeById: ids are compared as exact text. The columns are UNIQUEIDENTIFIER, so a route id that is not a UUID makes SQL Server raise a conversion error, a 500, where the model answers 404 or not found; and two spellings of one UUID differing in letter case are not recognised as the same id.
- RecipesRepo.EnsureUser: ids are compared as exact text. The columns are UNIQUEIDENTIFIER, so a route id that is not a UUID makes SQL Server raise a conversion error, a 500, where the model answers 404 or not found; and two spellings of one UUID differing in letter case are not recognised as the same id.
- RecipesRepo.UpdateRecipeOutcome: ids are compared as exact text. The columns are UNIQUEIDENTIFIER, so a route id that is not a UUID makes SQL Server raise a conversion error, a 500, where the model answers 404 or not found; and two spellings of one UUID differing in letter case are not recognised as the same id.
- RecipesRepo.DeleteRecipeResult: ids are compared as exact text. The columns are UNIQUEIDENTIFIER, so a route id that is not a UUID makes SQL Server raise a conversion error, a 500, where the model answers 404 or not found; and two spellings of one UUID differing in letter case are not recognised as the same id.
- RecipesRepo.SetPublishStatusSpec: ids are compared as exact text. The columns are UNIQUEIDENTIFIER, so a route id that is not a UUID makes SQL Server raise a conversion error, a 500, where the model answers 404 or not found; and two spellings of one UUID differing in letter case are not recognised as the same id.
- RecipesRepo.SetModerationStatusSpec: ids are compared as exact text. The columns are UNIQUEIDENTIFIER, so a route id that is not a UUID makes SQL Server raise a conversion error, a 500, where the model answers 404 or not found; and two spellings of one UUID differing in letter case are not recognised as the same id.
- RecipesRepo.AddFavoriteOutcome: ids are compared as exact text. The columns are UNIQUEIDENTIFIER, so a route id that is not a UUID makes SQL Server raise a conversion error, a 500, where the model answers 404 or not found; and two spellings of one UUID differing in letter case are not recognised as the same id.
- Handlers.RecipesUpdateRefused: ids are compared as exact text. The columns are UNIQUEIDENTIFIER, so a route id that is not a UUID makes SQL Server raise a conversion error, a 500, where the model answers 404 or not found; and two spellings of one UUID differing in letter case are not recognised as the same id.
- Handlers.RecipesDelete: ids are compared as exact text. The columns are UNIQUEIDENTIFIER, so a route id that is not a UUID makes SQL Server raise a conversion error, a 500, where the model answers 404 or not found; and two spellings of one UUID differing in letter case are not recognised as the same id.
- Handlers.RecipesPublishSpec: ids are compared as exact text. The columns are UNIQUEIDENTIFIER, so a route id that is not a UUID makes SQL Server raise a conversion error, a 500, where the model answers 404 or not found; and two spellings of one UUID differing in letter case are not recognised as the same id.
- Handlers.ModerateSpec: ids are compared as exact text. The columns are UNIQUEIDENTIFIER, so a route id that is not a UUID makes SQL Server raise a conversion error, a 500, where the model answers 404 or not found; and two spellings of one UUID differing in letter case are not recognised as the same id.
- Handlers.RecipesReprocessImage: ids are compared as exact text. The columns are UNIQUEIDENTIFIER, so a route id that is not a UUID makes SQL Server raise a conversion error, a 500, where the model answers 404 or not found; and two spellings of one UUID differing in letter case are not recognised as the same id.
- MediaProcessor.JobOf: payload properties are modelled as absent or strings. A property holding a truthy value of another JSON type (a number, an object) passes the source's presence check and flows into the job as that value; such payloads are not represented.
- MediaProcessor.HandleMessage: as for JobOf, only messages whose properties are absent or strings are represented.
- Concurrency is left out. That covers the get-or-create race between callers and the parallel uploads. Each operation runs alone.
- SQL text is not modelled.
- RecipesRepo.MatchingIff: `LIKE` is modelled as a literal, case-sensitive substring test. Wildcards in `q` and the case-insensitive collation of the text search are left out; the category filter does use the collation.
- RecipesRepo.ListRecipesRows: the text filter is the same literal, case-sensitive substring test as in MatchingIff.
- Strings.Collated: the default case-insensitive, accent-sensitive collation is approximated as ASCII lower-casing after dropping trailing spaces. Non-ASCII case folding is left out.
- Seqs.SortByName: ORDER BY name is modelled as ordering by the collated key. The collation's own weights for accents and punctuation are left out, and rows with equal keys keep an order the database does not promise.
- The order inside `STRING_AGG` is left out. The model lists categories in join-row order.
- `getRatingAvg` is left out, because it is a floating-point average.
- `generateImages` (sharp resizing and WebP encoding) is an uninterpreted dependency.
- Nothing models the UUID generator, `SYSUTCDATETIME` or `new Date()`. Ids come from a fresh-id function and times are integers.
- MediaProcessor.FeedItemFor: the "Untitled" title and current-time fallbacks are left out. A recipe row always has a title (NOT NULL) and a creation time, so these fallbacks cannot trigger.
- NVARCHAR length limits and truncation errors are left out.
- Strings are sequences of characters. Lower-casing covers ASCII letters only, which is exact for the code's own comparisons of roles and statuses, and an approximation of the database collation (see Strings.Collated). UTF-16 surrogates and non-ASCII case mapping are left out.
- Uploads.ResolveExtension: `toLowerCase()` on the client's file-name extension applies full Unicode case mapping, which can also change the length; the model lower-cases ASCII letters only, so an extension such as ".JPÉG" keeps its "É".
- MediaProcessor.ProcessOutcome: when both uploads fail, the model reports the thumbnail's error; which rejection `Promise.all` reports depends on timing. The two uploads open the processed container once between them, where the source opens it in each.
- `JSON.parse`, `request.json()` and `Number()` are injected functions rather than parsers.
- Paths.ExtName follows Node's POSIX `path.extname` only. The Windows variant is left out.
- The recursive directory walk in `getAllFiles` is left out. The deploy model takes the list of relative paths, and the read failure is an absent list.
- Migrations.RunAllRows: a script that fails part-way is treated as having no effect. The partial effects of a failing SQL script are left out.
- CosmosRepo.DeleteCommentsForRecipe: it removes all of the recipe's comments or none. The per-comment deletes are not interleaved with failures.
- Handlers.RecipesDelete: comment cleanup either fails as a whole or succeeds.
- Thin handlers whose logic is the validators and repository operations modelled here are left out: `recipesGet`, `recipesList`, `feed`, `comments`, `favorites`, `uploadInit`, `version` and `health`. The logger is left out too.
- Header names are compared exactly. HTTP's case-insensitive header lookup is left out.
- Queue delivery, retries and the `MEDIA_QUEUE` name are left out. The queue is a sequence of jobs.
- The details of `fetch` are left out: the request headers and the body encoding. The webhook is one call that returns a status or throws.
- updateRecipe's internal `updated` flag is not modelled. Both of its branches re-read the recipe, so the flag does not affect the result.
