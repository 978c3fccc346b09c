/** The recipe repository (api/src/lib/recipesRepo.ts): every operation is a
    function from the database to the database and a result. Operations that
    run inside withTransaction either commit every statement of their callback
    or leave the database as it was. The clock (SYSUTCDATETIME) is the
    parameter `now`; uuidv4 is FreshId over the ids in use. */
module RecipesRepo {
  import opened Common
  import opened Strings
  import opened Seqs
  import opened Sql
  import opened Schema
  import opened Associations

  // ---------------------------------------------------------------------
  // Reading a recipe.
  // ---------------------------------------------------------------------

  /** The first row of `rows` with id `id` (SELECT * ... WHERE id = @id, recordset[0]). */
  function FirstWithId(rows: seq<RecipeRow>, id: Id): (r: Option<RecipeRow>)
    ensures r.None? <==> forall row :: row in rows ==> row.id != id
    ensures r.Some? ==> r.value in rows && r.value.id == id
  {
    if |rows| == 0 then None
    else if rows[0].id == id then Some(rows[0])
    else
      assert forall row :: row in rows ==> row == rows[0] || row in rows[1..];
      FirstWithId(rows[1..], id)
  }

  function FindRecipe(db: Db, id: Id): (r: Option<RecipeRow>)
    ensures r.Some? <==> id in RecipeIds(db)
    ensures r.Some? ==> r.value in db.recipes && r.value.id == id
  {
    FirstWithId(db.recipes, id)
  }

  /** With a primary key on id, the row found is the row with that id. */
  lemma FindRecipeUnique(db: Db, row: RecipeRow)
    requires DistinctBy(db.recipes, RecipeKey) && row in db.recipes
    ensures FindRecipe(db, row.id) == Some(row)
  {
    var found := FindRecipe(db, row.id).value;
    DistinctByUnique(db.recipes, RecipeKey, found, row);
  }

  /** A recipe with its category names and ingredients, as getRecipeById returns it. */
  datatype RecipeDetails = RecipeDetails(row: RecipeRow, categories: seq<string>, ingredients: seq<Item>)

  /** getRecipeById: null for a missing id, else the row with its two lists. */
  function GetRecipeById(db: Db, id: Id): (r: Option<RecipeDetails>)
    ensures r.Some? <==> id in RecipeIds(db)
    ensures r.Some? ==> r.value.row in db.recipes && r.value.row.id == id
    ensures r.Some? ==>
      && SortedByName(r.value.categories, Collated)
      && multiset(r.value.categories) == multiset(NamesOf(Joined(db.recipeCategories, db.categories, id)))
    ensures r.Some? ==>
      && SortedByName(r.value.ingredients, ItemKey)
      && multiset(r.value.ingredients) == multiset(Joined(db.recipeIngredients, db.ingredients, id))
  {
    match FindRecipe(db, id)
    case None => None
    case Some(row) => Some(RecipeDetails(row, GetRecipeCategories(db, id), GetRecipeIngredients(db, id)))
  }

  // ---------------------------------------------------------------------
  // Users.
  // ---------------------------------------------------------------------

  /** ensureUser: nothing for a falsy id, the id itself when the user exists,
      and otherwise an INSERT with the name defaulting to "anonymous". */
  function EnsureUser(db: Db, userId: Option<string>, userName: Option<string>, userEmail: Option<string>): (r: Run<Db, Option<Id>>)
    ensures !Truthy(userId) ==> r == Returned(db, None)
    ensures Truthy(userId) && userId.value in UserIds(db) ==> r == Returned(db, userId)
    ensures Truthy(userId) && userId.value !in UserIds(db) ==>
      && (r.Returned? <==> userEmail.None? || Collated(userEmail.value) !in Emails(db))
      && (r.Returned? ==>
            && r.value == userId
            && r.state == db.(users := db.users + [User(userId.value, Some(userName.GetOr("anonymous")), userEmail)]))
      && (r.Threw? ==> r.error == SqlError(UniqueViolation("IX_users_email")))
  {
    if !Truthy(userId) then Returned(db, None)
    else if userId.value in UserIds(db) then Returned(db, userId)
    else
      var ins := InsertUser(db, User(userId.value, Some(userName.GetOr("anonymous")), userEmail));
      if ins.Threw? then Threw(ins.error) else Returned(ins.state, userId)
  }

  /** ensureUser changes only the users table, keeps the schema valid and
      returns an id that names an existing user. */
  lemma EnsureUserValid(db: Db, userId: Option<string>, userName: Option<string>, userEmail: Option<string>)
    requires Valid(db) && EnsureUser(db, userId, userName, userEmail).Returned?
    ensures var r := EnsureUser(db, userId, userName, userEmail);
      && Valid(r.state)
      && r.state == db.(users := r.state.users)
      && UserIds(db) <= UserIds(r.state)
      && (r.value.Some? ==> r.value.value in UserIds(r.state))
  {
    if Truthy(userId) && userId.value !in UserIds(db) {
      InsertUserValid(db, User(userId.value, Some(userName.GetOr("anonymous")), userEmail));
    }
  }

  /** IX_users_email compares under the collation: a new user whose email
      differs from a stored one only in letter case is refused. */
  lemma EnsureUserCaseVariantEmail(db: Db, id: Id)
    requires db.users == [User("u1", Some("bob"), Some("bob@x.com"))] && id != "" && id != "u1"
    ensures EnsureUser(db, Some(id), None, Some("Bob@x.com")) == Threw(SqlError(UniqueViolation("IX_users_email")))
  {
    assert Collated("Bob@x.com") == Collated("bob@x.com");
    assert User("u1", Some("bob"), Some("bob@x.com")) in db.users;
  }

  // ---------------------------------------------------------------------
  // Replacing the lists when the payload carries them.
  // ---------------------------------------------------------------------

  /** Quantities fit the join table: category links carry none. */
  predicate QuantitiesFit(a: Assoc, items: Option<seq<Item>>) {
    a.Categories? && items.Some? ==> forall k :: 0 <= k < |items.value| ==> items.value[k].quantity.None?
  }

  /** `if (input.categories) await replaceRecipeCategories(...)`: an array, even
      an empty one, is truthy and replaces the list; null and undefined leave it. */
  function ReplaceIf(db: Db, a: Assoc, rid: Id, items: Option<seq<Item>>): (r: Run<Db, ()>)
    requires QuantitiesFit(a, items)
    ensures items.None? ==> r == Returned(db, ())
  {
    match items
    case None => Returned(db, ())
    case Some(xs) =>
      var rep := Replace(db, a, rid, xs);
      if rep.Threw? then Threw(rep.error) else Returned(rep.state, ())
  }

  /** The list after ReplaceIf: the given items, each spelled as the vocabulary
      kept it, or the old list when none were given. */
  function ListAfter(db: Db, a: Assoc, rid: Id, items: Option<seq<Item>>): seq<Item> {
    if items.Some? then Respell(NamedRows(db, a), items.value) else Joined(LinkRows(db, a), NamedRows(db, a), rid)
  }

  lemma ReplaceIfSpec(db: Db, a: Assoc, rid: Id, items: Option<seq<Item>>)
    requires QuantitiesFit(a, items)
    requires Valid(db) && rid in RecipeIds(db)
    ensures var r := ReplaceIf(db, a, rid, items);
      && (r.Returned? <==> items.None? || DistinctBy(items.value, ItemKey))
      && (r.Threw? ==> r.error == SqlError(UniqueViolation(a.LinkIndex())))
  {
    if items.Some? {
      ReplaceSpec(db, a, rid, items.value);
    }
  }

  lemma ReplaceIfEffect(db: Db, a: Assoc, rid: Id, items: Option<seq<Item>>)
    requires QuantitiesFit(a, items)
    requires Valid(db) && rid in RecipeIds(db)
    requires ReplaceIf(db, a, rid, items).Returned?
    ensures var r := ReplaceIf(db, a, rid, items);
      && Valid(r.state) && RecipeIds(r.state) == RecipeIds(db)
      && OnlyAssocChanged(db, r.state, a)
      && Joined(LinkRows(r.state, a), NamedRows(r.state, a), rid) == ListAfter(db, a, rid, items)
  {
    if items.Some? {
      ReplaceSpec(db, a, rid, items.value);
      ReplaceValid(db, a, rid, items.value);
    }
  }

  /** Changing only one vocabulary and its join table leaves the other's lists,
      and every table outside the two vocabularies, as they were. */
  lemma OtherAssocUnchanged(db: Db, db': Db, a: Assoc, b: Assoc, rid: Id)
    requires OnlyAssocChanged(db, db', a) && a != b
    ensures Joined(LinkRows(db', b), NamedRows(db', b), rid) == Joined(LinkRows(db, b), NamedRows(db, b), rid)
    ensures NamedRows(db', b) == NamedRows(db, b)
    ensures db'.recipes == db.recipes && db'.users == db.users
    ensures db'.reviews == db.reviews && db'.favorites == db.favorites
  {
    assert Frame(db', a).recipes == Frame(db, a).recipes;
    assert Frame(db', a).users == Frame(db, a).users;
    assert Frame(db', a).reviews == Frame(db, a).reviews;
    assert Frame(db', a).favorites == Frame(db, a).favorites;
    if a.Categories? {
      assert Frame(db', a).ingredients == Frame(db, a).ingredients;
      assert Frame(db', a).recipeIngredients == Frame(db, a).recipeIngredients;
    } else {
      assert Frame(db', a).categories == Frame(db, a).categories;
      assert Frame(db', a).recipeCategories == Frame(db, a).recipeCategories;
    }
  }

  /** The payload's categories as the rows replaceRecipeCategories links: trimmed,
      empty names dropped, no quantity. */
  function CategoryList(categories: Option<seq<string>>): (r: Option<seq<Item>>)
    ensures QuantitiesFit(Categories, r)
  {
    if categories.None? then None else Some(CategoryItems(categories.value))
  }

  /** The payload's ingredients as replaceRecipeIngredients links them. */
  function IngredientList(ingredients: Option<seq<Item>>): Option<seq<Item>> {
    if ingredients.None? then None else Some(IngredientItems(ingredients.value))
  }

  /** No two categories of the payload trim to non-empty names that collate equal. */
  predicate CategoriesAccepted(categories: Option<seq<string>>) {
    categories.None? || !HasTrimmedDuplicate(CategoryEntries(categories.value))
  }

  /** No two ingredients of the payload trim to non-empty names that collate equal. */
  predicate IngredientsAccepted(ingredients: Option<seq<Item>>) {
    ingredients.None? || !HasTrimmedDuplicate(ingredients.value)
  }

  lemma CategoryListSpec(categories: Option<seq<string>>)
    ensures CategoryList(categories).None? || DistinctBy(CategoryList(categories).value, ItemKey)
      <==> CategoriesAccepted(categories)
  {
    if categories.Some? {
      NormalizeDistinct(CategoryEntries(categories.value));
    }
  }

  lemma IngredientListSpec(ingredients: Option<seq<Item>>)
    ensures IngredientList(ingredients).None? || DistinctBy(IngredientList(ingredients).value, ItemKey)
      <==> IngredientsAccepted(ingredients)
  {
    if ingredients.Some? {
      NormalizeDistinct(ingredients.value);
    }
  }

  /** The tail shared by createRecipe and updateRecipe: categories, then ingredients. */
  function ReplaceBoth(db: Db, rid: Id, categories: Option<seq<string>>, ingredients: Option<seq<Item>>): Run<Db, ()> {
    var c := ReplaceIf(db, Categories, rid, CategoryList(categories));
    if c.Threw? then Threw(c.error)
    else ReplaceIf(c.state, Ingredients, rid, IngredientList(ingredients))
  }

  /** Both replacements go through exactly when neither payload list has two
      entries whose trimmed names collate equal; the categories are checked first. */
  lemma ReplaceBothOutcome(db: Db, rid: Id, categories: Option<seq<string>>, ingredients: Option<seq<Item>>)
    requires Valid(db) && rid in RecipeIds(db)
    ensures var r := ReplaceBoth(db, rid, categories, ingredients);
      r.Returned? <==> CategoriesAccepted(categories) && IngredientsAccepted(ingredients)
    ensures var r := ReplaceBoth(db, rid, categories, ingredients);
      r.Threw? ==> r.error == SqlError(UniqueViolation(
        if !CategoriesAccepted(categories) then Categories.LinkIndex() else Ingredients.LinkIndex()))
  {
    var cats := CategoryList(categories);
    CategoryListSpec(categories);
    ReplaceIfSpec(db, Categories, rid, cats);
    var c := ReplaceIf(db, Categories, rid, cats);
    if c.Returned? {
      ReplaceIfEffect(db, Categories, rid, cats);
      IngredientListSpec(ingredients);
      ReplaceIfSpec(c.state, Ingredients, rid, IngredientList(ingredients));
    }
  }

  /** After both replacements the recipe lists exactly the given items, spelled
      as the vocabularies kept them (or keeps its old list where none was
      given); the recipes, users, reviews and favorites tables are untouched and
      the schema stays valid. */
  lemma ReplaceBothEffect(db: Db, rid: Id, categories: Option<seq<string>>, ingredients: Option<seq<Item>>)
    requires Valid(db) && rid in RecipeIds(db)
    requires ReplaceBoth(db, rid, categories, ingredients).Returned?
    ensures var s := ReplaceBoth(db, rid, categories, ingredients).state;
      && Valid(s)
      && s.recipes == db.recipes && s.users == db.users
      && s.reviews == db.reviews && s.favorites == db.favorites
      && Joined(s.recipeCategories, s.categories, rid) == ListAfter(db, Categories, rid, CategoryList(categories))
      && Joined(s.recipeIngredients, s.ingredients, rid) == ListAfter(db, Ingredients, rid, IngredientList(ingredients))
  {
    var cats := CategoryList(categories);
    var c := ReplaceIf(db, Categories, rid, cats);
    ReplaceIfEffect(db, Categories, rid, cats);
    OtherAssocUnchanged(db, c.state, Categories, Ingredients, rid);
    var ings := IngredientList(ingredients);
    var d := ReplaceIf(c.state, Ingredients, rid, ings);
    ReplaceIfEffect(c.state, Ingredients, rid, ings);
    OtherAssocUnchanged(c.state, d.state, Ingredients, Categories, rid);
  }

  // ---------------------------------------------------------------------
  // createRecipe.
  // ---------------------------------------------------------------------

  /** RecipeCreateInput after the handler's validation; `null` and `undefined`
      are both None, since createRecipe treats them alike. */
  datatype CreateInput = CreateInput(
    title: string,
    description: Option<string>,
    instructions: Option<string>,
    rawImageBlobName: Option<string>,
    userId: Option<string>,
    userName: Option<string>,
    userEmail: Option<string>,
    categories: Option<seq<string>>,
    ingredients: Option<seq<Item>>)

  /** The INSERT of createRecipe: unpublished, 'draft', no image URLs yet,
      both timestamps from the clock. */
  function NewRow(id: Id, userId: Option<Id>, input: CreateInput, now: Time): RecipeRow {
    RecipeRow(id, userId, input.title, input.description, input.instructions, input.rawImageBlobName,
              None, None, false, "draft", now, now)
  }

  /** The transaction callback of createRecipe. */
  function CreateTx(db: Db, id: Id, input: CreateInput, now: Time): Run<Db, ()> {
    var u := EnsureUser(db, input.userId, input.userName, input.userEmail);
    if u.Threw? then Threw(u.error)
    else
      var ins := InsertRecipe(u.state, NewRow(id, u.value, input, now));
      if ins.Threw? then Threw(ins.error)
      else ReplaceBoth(ins.state, id, input.categories, input.ingredients)
  }

  /** createRecipe: a fresh id chosen before the transaction, the transaction, then
      a read-back that throws recipe_create_failed if the recipe is not there. */
  function CreateRecipe(db: Db, input: CreateInput, now: Time): (r: (Db, Result<RecipeDetails>))
    ensures r.1.Err? && r.1.error != Api(500, "Failed to create recipe", "recipe_create_failed") ==> r.0 == db
  {
    var id := FreshId(AllIds(db));
    var (db', res) := WithTransaction(db, tx => CreateTx(tx, id, input, now));
    if res.Err? then (db', Err(res.error))
    else
      match GetRecipeById(db', id)
      case None => (db', Err(Api(500, "Failed to create recipe", "recipe_create_failed")))
      case Some(details) => (db', Ok(details))
  }

  /** ensureUser goes through: no user id, a known one, or a new one whose
      email no stored email equals under the collation. */
  predicate UserAccepted(db: Db, input: CreateInput) {
    || !Truthy(input.userId)
    || input.userId.value in UserIds(db)
    || input.userEmail.None?
    || Collated(input.userEmail.value) !in Emails(db)
  }

  /** The owner createRecipe records: the user id, unless it is falsy. */
  function Owner(userId: Option<string>): Option<Id> {
    if !Truthy(userId) then None else userId
  }

  /** The first two statements of the callback: with the user accepted, the new
      row is inserted and the recipe has no categories or ingredients yet. */
  lemma CreateStart(db: Db, id: Id, input: CreateInput, now: Time)
    requires Valid(db) && id !in RecipeIds(db)
    ensures var u := EnsureUser(db, input.userId, input.userName, input.userEmail);
      && (u.Returned? <==> UserAccepted(db, input))
      && (u.Threw? ==> u.error == SqlError(UniqueViolation("IX_users_email")))
    ensures var u := EnsureUser(db, input.userId, input.userName, input.userEmail);
      u.Returned? ==>
        && u.value == Owner(input.userId)
        && var ins := InsertRecipe(u.state, NewRow(id, u.value, input, now));
        && ins.Returned?
        && Valid(ins.state)
        && RecipeIds(ins.state) == RecipeIds(db) + {id}
        && FindRecipe(ins.state, id) == Some(NewRow(id, u.value, input, now))
        && Joined(ins.state.recipeCategories, ins.state.categories, id) == []
        && Joined(ins.state.recipeIngredients, ins.state.ingredients, id) == []
  {
    var u := EnsureUser(db, input.userId, input.userName, input.userEmail);
    if u.Returned? {
      EnsureUserValid(db, input.userId, input.userName, input.userEmail);
      var row := NewRow(id, u.value, input, now);
      var ins := InsertRecipe(u.state, row);
      assert ins.Returned?;
      InsertRecipeValid(u.state, row);
      FindRecipeUnique(ins.state, row);
      JoinedNone(ins.state.recipeCategories, ins.state.categories, id);
      JoinedNone(ins.state.recipeIngredients, ins.state.ingredients, id);
    }
  }

  /** The callback of createRecipe succeeds exactly when the user, the
      categories and the ingredients are all accepted; otherwise it throws the
      violation of the first statement that fails. */
  lemma CreateTxOutcome(db: Db, id: Id, input: CreateInput, now: Time)
    requires Valid(db) && id !in RecipeIds(db)
    ensures var r := CreateTx(db, id, input, now);
      r.Returned? <==> UserAccepted(db, input) && CategoriesAccepted(input.categories) && IngredientsAccepted(input.ingredients)
    ensures var r := CreateTx(db, id, input, now);
      r.Threw? ==> r.error == SqlError(UniqueViolation(
        if !UserAccepted(db, input) then "IX_users_email"
        else if !CategoriesAccepted(input.categories) then Categories.LinkIndex()
        else Ingredients.LinkIndex()))
  {
    CreateStart(db, id, input, now);
    var u := EnsureUser(db, input.userId, input.userName, input.userEmail);
    if u.Returned? {
      var ins := InsertRecipe(u.state, NewRow(id, u.value, input, now));
      ReplaceBothOutcome(ins.state, id, input.categories, input.ingredients);
    }
  }

  /** What a committed createRecipe callback leaves: a valid database holding
      the new row with exactly the normalised categories and ingredients, each
      spelled as the vocabulary already kept it, or as given for a new name. */
  lemma CreateTxEffect(db: Db, id: Id, input: CreateInput, now: Time)
    requires Valid(db) && id !in RecipeIds(db)
    requires CreateTx(db, id, input, now).Returned?
    ensures var s := CreateTx(db, id, input, now).state;
      && Valid(s)
      && RecipeIds(s) == RecipeIds(db) + {id}
      && FindRecipe(s, id) == Some(NewRow(id, Owner(input.userId), input, now))
      && Joined(s.recipeCategories, s.categories, id) == Respell(db.categories, CategoryList(input.categories).GetOr([]))
      && Joined(s.recipeIngredients, s.ingredients, id) == Respell(db.ingredients, IngredientList(input.ingredients).GetOr([]))
  {
    CreateStart(db, id, input, now);
    var u := EnsureUser(db, input.userId, input.userName, input.userEmail);
    var ins := InsertRecipe(u.state, NewRow(id, u.value, input, now));
    ReplaceBothEffect(ins.state, id, input.categories, input.ingredients);
  }

  /** createRecipe either commits and returns the new recipe, or rolls back and
      returns the violation; the read-back never reports recipe_create_failed. */
  lemma CreateRecipeOutcome(db: Db, input: CreateInput, now: Time)
    requires Valid(db)
    ensures var r := CreateRecipe(db, input, now);
      r.1.Ok? <==> UserAccepted(db, input) && CategoriesAccepted(input.categories) && IngredientsAccepted(input.ingredients)
    ensures var r := CreateRecipe(db, input, now);
      r.1.Err? ==> r.0 == db && r.1.error == SqlError(UniqueViolation(
        if !UserAccepted(db, input) then "IX_users_email"
        else if !CategoriesAccepted(input.categories) then Categories.LinkIndex()
        else Ingredients.LinkIndex()))
  {
    var id := FreshId(AllIds(db));
    CreateTxOutcome(db, id, input, now);
    var (db', res) := WithTransaction(db, tx => CreateTx(tx, id, input, now));
    if res.Ok? {
      CreateTxEffect(db, id, input, now);
    }
  }

  /** A created recipe has a new id, the owner, the defaults of the INSERT, and
      exactly the trimmed, non-empty categories and ingredients of the payload,
      each spelled as the vocabulary already kept it (none when the payload
      carries no list); the database stays valid. */
  lemma CreateRecipeResult(db: Db, input: CreateInput, now: Time)
    requires Valid(db) && CreateRecipe(db, input, now).1.Ok?
    ensures var (db', res) := CreateRecipe(db, input, now);
      && Valid(db')
      && res.value.row.id !in RecipeIds(db)
      && RecipeIds(db') == RecipeIds(db) + {res.value.row.id}
      && res.value.row == NewRow(res.value.row.id, Owner(input.userId), input, now)
      && multiset(res.value.categories) == multiset(NamesOf(Respell(db.categories, CategoryList(input.categories).GetOr([]))))
      && multiset(res.value.ingredients) == multiset(Respell(db.ingredients, IngredientList(input.ingredients).GetOr([])))
  {
    var id := FreshId(AllIds(db));
    CreateTxOutcome(db, id, input, now);
    CreateTxEffect(db, id, input, now);
    var s := CreateTx(db, id, input, now).state;
    FindRecipeUnique(s, NewRow(id, Owner(input.userId), input, now));
  }

  // ---------------------------------------------------------------------
  // updateRecipe.
  // ---------------------------------------------------------------------

  /** RecipeUpdateInput: each scalar may be absent, null or a value; the lists
      replace the old ones when present. */
  datatype UpdateInput = UpdateInput(
    title: Field<string>,
    description: Field<string>,
    instructions: Field<string>,
    rawImageBlobName: Field<string>,
    categories: Option<seq<string>>,
    ingredients: Option<seq<Item>>)

  /** Some scalar column is named in the SET list (`updates.length > 0`). */
  predicate HasScalarUpdate(input: UpdateInput) {
    !input.title.Absent? || !input.description.Absent? || !input.instructions.Absent? || !input.rawImageBlobName.Absent?
  }

  /** The row after `UPDATE ... SET <given columns>, updated_at = SYSUTCDATETIME()`,
      for a payload whose title is not null. */
  function Patched(row: RecipeRow, input: UpdateInput, now: Time): (r: RecipeRow)
    requires !input.title.Null?
    ensures r.id == row.id && r.userId == row.userId
  {
    row.(title := if input.title.Present? then input.title.value else row.title,
         description := input.description.Over(row.description),
         instructions := input.instructions.Over(row.instructions),
         rawImageBlobName := input.rawImageBlobName.Over(row.rawImageBlobName),
         updatedAt := now)
  }

  /** The UPDATE statement of updateRecipe: skipped when no scalar is given,
      refused by the NOT NULL constraint on title when the payload clears it. */
  function UpdateScalars(db: Db, id: Id, input: UpdateInput, now: Time): Run<Db, ()> {
    if !HasScalarUpdate(input) then Returned(db, ())
    else if input.title.Null? then Threw(SqlError(NotNullViolation("title")))
    else Returned(UpdateRecipeRow(db, id, row => Patched(row, input, now)), ())
  }

  /** The transaction callback; its value is `exists`. */
  function UpdateTx(db: Db, id: Id, input: UpdateInput, now: Time): Run<Db, bool> {
    if FindRecipe(db, id).None? then Returned(db, false)
    else
      var u := UpdateScalars(db, id, input, now);
      if u.Threw? then Threw(u.error)
      else
        var b := ReplaceBoth(u.state, id, input.categories, input.ingredients);
        if b.Threw? then Threw(b.error) else Returned(b.state, true)
  }

  /** updateRecipe: null for a missing recipe, otherwise the recipe as read back
      after the commit. */
  function UpdateRecipe(db: Db, id: Id, input: UpdateInput, now: Time): (r: (Db, Result<Option<RecipeDetails>>))
    ensures r.1.Err? ==> r.0 == db
  {
    var (db', res) := WithTransaction(db, tx => UpdateTx(tx, id, input, now));
    if res.Err? then (db', Err(res.error))
    else if !res.value then (db', Ok(None))
    else (db', Ok(GetRecipeById(db', id)))
  }

  /** The row updateRecipe leaves: patched when a scalar was given, otherwise as it was. */
  function RowAfterUpdate(row: RecipeRow, input: UpdateInput, now: Time): RecipeRow {
    if !HasScalarUpdate(input) || input.title.Null? then row else Patched(row, input, now)
  }

  /** An UPDATE ... WHERE id = @id that keeps the key columns changes the one
      row with that id, keeps every other row, and keeps the schema valid; for a
      missing id it changes nothing. */
  lemma UpdateRecipeRowFind(db: Db, id: Id, f: RecipeRow -> RecipeRow)
    requires forall row :: f(row).id == row.id && f(row).userId == row.userId
    requires Valid(db)
    ensures var db' := UpdateRecipeRow(db, id, f);
      && Valid(db')
      && (id in RecipeIds(db) ==> FindRecipe(db', id) == Some(f(FindRecipe(db, id).value)))
      && (id !in RecipeIds(db) ==> db' == db)
      && (forall row :: row in db.recipes && row.id != id ==> row in db'.recipes)
  {
    var db' := UpdateRecipeRow(db, id, f);
    UpdateRecipeRowValid(db, id, f);
    if id in RecipeIds(db) {
      var before := FindRecipe(db, id).value;
      var i :| 0 <= i < |db.recipes| && db.recipes[i] == before;
      assert db'.recipes[i] == f(before);
      FindRecipeUnique(db', f(before));
    } else {
      assert db'.recipes == db.recipes;
    }
    UpdateRecipeRowKeeps(db, id, f);
  }

  lemma UpdateRecipeRowKeeps(db: Db, id: Id, f: RecipeRow -> RecipeRow)
    requires forall row :: f(row).id == row.id && f(row).userId == row.userId
    ensures forall row :: row in db.recipes && row.id != id ==> row in UpdateRecipeRow(db, id, f).recipes
  {
    var db' := UpdateRecipeRow(db, id, f);
    forall row | row in db.recipes && row.id != id ensures row in db'.recipes {
      var j :| 0 <= j < |db.recipes| && db.recipes[j] == row;
      assert db'.recipes[j] == row;
    }
  }

  /** The UPDATE changes the one recipe row and nothing else. */
  lemma UpdateScalarsEffect(db: Db, id: Id, input: UpdateInput, now: Time)
    requires Valid(db) && id in RecipeIds(db)
    ensures UpdateScalars(db, id, input, now).Threw? <==> HasScalarUpdate(input) && input.title.Null?
    ensures var u := UpdateScalars(db, id, input, now);
      u.Returned? ==>
        && Valid(u.state)
        && RecipeIds(u.state) == RecipeIds(db)
        && u.state == db.(recipes := u.state.recipes)
        && FindRecipe(u.state, id) == Some(RowAfterUpdate(FindRecipe(db, id).value, input, now))
        && (forall row :: row in db.recipes && row.id != id ==> row in u.state.recipes)
  {
    if HasScalarUpdate(input) && !input.title.Null? {
      UpdateRecipeRowFind(db, id, row => Patched(row, input, now));
    }
  }

  /** updateRecipe returns null, leaving the database alone, exactly when the
      recipe does not exist; otherwise it fails, rolling back, exactly when the
      payload clears the title or lists two names that collate equal after
      trimming. */
  lemma UpdateRecipeOutcome(db: Db, id: Id, input: UpdateInput, now: Time)
    requires Valid(db)
    ensures id !in RecipeIds(db) ==> UpdateRecipe(db, id, input, now) == (db, Ok(None))
    ensures var r := UpdateRecipe(db, id, input, now);
      id in RecipeIds(db) ==>
        && (r.1.Ok? <==> !input.title.Null? && CategoriesAccepted(input.categories) && IngredientsAccepted(input.ingredients))
        && (r.1.Ok? ==> r.1.value.Some?)
        && (r.1.Err? ==> r.1.error == SqlError(
              if input.title.Null? then NotNullViolation("title")
              else if !CategoriesAccepted(input.categories) then UniqueViolation(Categories.LinkIndex())
              else UniqueViolation(Ingredients.LinkIndex())))
  {
    if id in RecipeIds(db) {
      UpdateScalarsEffect(db, id, input, now);
      var u := UpdateScalars(db, id, input, now);
      if u.Returned? {
        ReplaceBothOutcome(u.state, id, input.categories, input.ingredients);
        var b := ReplaceBoth(u.state, id, input.categories, input.ingredients);
        if b.Returned? {
          ReplaceBothEffect(u.state, id, input.categories, input.ingredients);
        }
      }
    }
  }

  /** A successful update of an existing recipe returns the patched row with the
      given lists (or the old ones where none were given), leaves every other
      recipe row in place, and keeps the schema valid. */
  lemma UpdateRecipeResult(db: Db, id: Id, input: UpdateInput, now: Time)
    requires Valid(db) && id in RecipeIds(db) && UpdateRecipe(db, id, input, now).1.Ok?
    ensures var (db', res) := UpdateRecipe(db, id, input, now);
      && Valid(db')
      && RecipeIds(db') == RecipeIds(db)
      && res.value.Some?
      && res.value.value.row == RowAfterUpdate(FindRecipe(db, id).value, input, now)
      && multiset(res.value.value.categories)
           == multiset(NamesOf(ListAfter(db, Categories, id, CategoryList(input.categories))))
      && multiset(res.value.value.ingredients)
           == multiset(ListAfter(db, Ingredients, id, IngredientList(input.ingredients)))
      && (forall row :: row in db.recipes && row.id != id ==> row in db'.recipes)
  {
    UpdateScalarsEffect(db, id, input, now);
    var u := UpdateScalars(db, id, input, now);
    UpdateRecipeOutcome(db, id, input, now);
    ReplaceBothEffect(u.state, id, input.categories, input.ingredients);
    var s := ReplaceBoth(u.state, id, input.categories, input.ingredients).state;
    FindRecipeUnique(s, RowAfterUpdate(FindRecipe(db, id).value, input, now));
    assert Joined(u.state.recipeCategories, u.state.categories, id) == Joined(db.recipeCategories, db.categories, id);
    assert Joined(u.state.recipeIngredients, u.state.ingredients, id) == Joined(db.recipeIngredients, db.ingredients, id);
  }

  // ---------------------------------------------------------------------
  // deleteRecipe.
  // ---------------------------------------------------------------------

  /** The callback of deleteRecipe: the row as it was, after deleting the
      dependent rows of the four referencing tables and then the row itself. */
  function DeleteTx(db: Db, id: Id): Run<Db, Option<RecipeRow>> {
    match FindRecipe(db, id)
    case None => Returned(db, None)
    case Some(row) =>
      var del := DeleteRecipeRow(Cleared(db, id), id);
      if del.Threw? then Threw(del.error) else Returned(del.state, Some(row))
  }

  function DeleteRecipe(db: Db, id: Id): (Db, Result<Option<RecipeRow>>) {
    WithTransaction(db, tx => DeleteTx(tx, id))
  }

  /** The four deletes before the last: afterwards nothing references the recipe. */
  function Cleared(db: Db, id: Id): (c: Db)
    ensures !Referenced(c, id)
    ensures c.recipes == db.recipes && c.users == db.users
    ensures c.categories == db.categories && c.ingredients == db.ingredients
  {
    DeleteFavoritesOf(DeleteReviewsOf(DeleteLinksOf(DeleteLinksOf(db, Categories, id), Ingredients, id), id), id)
  }

  /** Deleting a recipe never fails and returns the row that was there; for a
      missing id it returns null and leaves the database alone. */
  lemma DeleteRecipeResult(db: Db, id: Id)
    ensures DeleteRecipe(db, id).1 == Ok(FindRecipe(db, id))
    ensures id !in RecipeIds(db) ==> DeleteRecipe(db, id).0 == db
  {
    if id in RecipeIds(db) {
      assert DeleteRecipeRow(Cleared(db, id), id).Returned?;
    }
  }

  /** After deleteRecipe the recipe and every row that referenced it are gone;
      every other row of every table is kept. */
  lemma DeleteRecipeRows(db: Db, id: Id)
    requires Valid(db)
    ensures var db' := DeleteRecipe(db, id).0;
      && RecipeIds(db') == RecipeIds(db) - {id}
      && !Referenced(db', id)
      && (forall row :: row in db'.recipes <==> row in db.recipes && row.id != id)
      && (forall l :: l in db'.recipeCategories <==> l in db.recipeCategories && l.recipeId != id)
      && (forall l :: l in db'.recipeIngredients <==> l in db.recipeIngredients && l.recipeId != id)
      && (forall v :: v in db'.reviews <==> v in db.reviews && v.recipeId != id)
      && (forall f :: f in db'.favorites <==> f in db.favorites && f.recipeId != id)
      && db'.users == db.users && db'.categories == db.categories && db'.ingredients == db.ingredients
  {
    var db' := DeleteRecipe(db, id).0;
    if id in RecipeIds(db) {
      assert DeleteRecipeRow(Cleared(db, id), id).Returned?;
    } else {
      assert LinkRows(db, Categories) == db.recipeCategories && LinkRows(db, Ingredients) == db.recipeIngredients;
    }
  }

  lemma DeleteRecipeValid(db: Db, id: Id)
    requires Valid(db)
    ensures Valid(DeleteRecipe(db, id).0)
  {
    if id in RecipeIds(db) {
      var d1 := DeleteLinksOf(db, Categories, id);
      DeleteLinksOfValid(db, Categories, id);
      var d2 := DeleteLinksOf(d1, Ingredients, id);
      DeleteLinksOfValid(d1, Ingredients, id);
      var d3 := DeleteReviewsOf(d2, id);
      DeleteReviewsOfValid(d2, id);
      var d4 := DeleteFavoritesOf(d3, id);
      DeleteFavoritesOfValid(d3, id);
      assert !Referenced(d4, id);
      DeleteRecipeRowValid(d4, id);
    }
  }

  // ---------------------------------------------------------------------
  // Status and image updates (single statements, no transaction).
  // ---------------------------------------------------------------------

  function Published(row: RecipeRow, now: Time): (r: RecipeRow)
    ensures r.id == row.id && r.userId == row.userId
  {
    row.(isPublished := true, moderationStatus := "pending", updatedAt := now)
  }

  function Moderated(row: RecipeRow, status: string, isPublished: bool, now: Time): (r: RecipeRow)
    ensures r.id == row.id && r.userId == row.userId
  {
    row.(moderationStatus := status, isPublished := isPublished, updatedAt := now)
  }

  function WithImages(row: RecipeRow, imageUrl: string, thumbUrl: string, now: Time): (r: RecipeRow)
    ensures r.id == row.id && r.userId == row.userId
  {
    row.(imageUrl := Some(imageUrl), thumbUrl := Some(thumbUrl), updatedAt := now)
  }

  /** setPublishStatus: the UPDATE, then the row read back (null when missing). */
  function SetPublishStatus(db: Db, id: Id, now: Time): (Db, Option<RecipeRow>) {
    var db' := UpdateRecipeRow(db, id, row => Published(row, now));
    (db', FindRecipe(db', id))
  }

  function SetModerationStatus(db: Db, id: Id, status: string, isPublished: bool, now: Time): (Db, Option<RecipeRow>) {
    var db' := UpdateRecipeRow(db, id, row => Moderated(row, status, isPublished, now));
    (db', FindRecipe(db', id))
  }

  function SetRecipeImages(db: Db, id: Id, imageUrl: string, thumbUrl: string, now: Time): Db {
    UpdateRecipeRow(db, id, row => WithImages(row, imageUrl, thumbUrl, now))
  }

  /** Publishing returns the row now published and pending review, or null for a
      missing id with nothing changed; every other row and table stays. */
  lemma SetPublishStatusSpec(db: Db, id: Id, now: Time)
    requires Valid(db)
    ensures var (db', r) := SetPublishStatus(db, id, now);
      && Valid(db')
      && (r.Some? <==> id in RecipeIds(db))
      && (r.None? ==> db' == db)
      && (r.Some? ==> r.value == FindRecipe(db, id).value.(isPublished := true, moderationStatus := "pending", updatedAt := now))
      && db' == db.(recipes := db'.recipes)
      && (forall row :: row in db.recipes && row.id != id ==> row in db'.recipes)
  {
    UpdateRecipeRowFind(db, id, row => Published(row, now));
  }

  /** Moderation sets exactly the given status and published flag. */
  lemma SetModerationStatusSpec(db: Db, id: Id, status: string, isPublished: bool, now: Time)
    requires Valid(db)
    ensures var (db', r) := SetModerationStatus(db, id, status, isPublished, now);
      && Valid(db')
      && (r.Some? <==> id in RecipeIds(db))
      && (r.None? ==> db' == db)
      && (r.Some? ==> r.value == FindRecipe(db, id).value.(moderationStatus := status, isPublished := isPublished, updatedAt := now))
      && db' == db.(recipes := db'.recipes)
      && (forall row :: row in db.recipes && row.id != id ==> row in db'.recipes)
  {
    UpdateRecipeRowFind(db, id, row => Moderated(row, status, isPublished, now));
  }

  /** Recording the processed images sets both URLs of the one row. */
  lemma SetRecipeImagesSpec(db: Db, id: Id, imageUrl: string, thumbUrl: string, now: Time)
    requires Valid(db)
    ensures var db' := SetRecipeImages(db, id, imageUrl, thumbUrl, now);
      && Valid(db')
      && (id !in RecipeIds(db) ==> db' == db)
      && (id in RecipeIds(db) ==>
            FindRecipe(db', id) == Some(FindRecipe(db, id).value.(imageUrl := Some(imageUrl), thumbUrl := Some(thumbUrl), updatedAt := now)))
      && db' == db.(recipes := db'.recipes)
      && (forall row :: row in db.recipes && row.id != id ==> row in db'.recipes)
  {
    UpdateRecipeRowFind(db, id, row => WithImages(row, imageUrl, thumbUrl, now));
  }

  /** Recording the same images twice at the same time is the same as once. */
  lemma SetRecipeImagesIdempotent(db: Db, id: Id, imageUrl: string, thumbUrl: string, now: Time)
    ensures var once := SetRecipeImages(db, id, imageUrl, thumbUrl, now);
      SetRecipeImages(once, id, imageUrl, thumbUrl, now) == once
  {
    var once := SetRecipeImages(db, id, imageUrl, thumbUrl, now);
    var twice := SetRecipeImages(once, id, imageUrl, thumbUrl, now);
    assert twice.recipes == once.recipes by {
      forall i | 0 <= i < |once.recipes| ensures twice.recipes[i] == once.recipes[i] {
        assert once.recipes[i] == (if db.recipes[i].id == id then WithImages(db.recipes[i], imageUrl, thumbUrl, now) else db.recipes[i]);
      }
    }
  }

  // ---------------------------------------------------------------------
  // Favorites.
  // ---------------------------------------------------------------------

  /** The callback of addFavorite: ensure the user, then insert unless present. */
  function AddFavoriteTx(db: Db, recipeId: Id, userId: Id, userName: Option<string>): Run<Db, ()> {
    var u := EnsureUser(db, Some(userId), userName, None);
    if u.Threw? then Threw(u.error)
    else if Favorite(userId, recipeId) in u.state.favorites then Returned(u.state, ())
    else InsertFavorite(u.state, Favorite(userId, recipeId))
  }

  function AddFavorite(db: Db, recipeId: Id, userId: Id, userName: Option<string>): (Db, Result<()>) {
    WithTransaction(db, tx => AddFavoriteTx(tx, recipeId, userId, userName))
  }

  /** removeFavorite: one DELETE, outside any transaction. */
  function RemoveFavorite(db: Db, recipeId: Id, userId: Id): Db {
    DeleteFavorite(db, userId, recipeId)
  }

  /** addFavorite succeeds exactly when the recipe exists and the user can be
      referenced (an empty id is not created by ensureUser); failure rolls back
      a user row it may have inserted. */
  lemma AddFavoriteOutcome(db: Db, recipeId: Id, userId: Id, userName: Option<string>)
    requires Valid(db)
    ensures var (db', res) := AddFavorite(db, recipeId, userId, userName);
      && (res.Ok? <==> recipeId in RecipeIds(db) && (userId != "" || userId in UserIds(db)))
      && (res.Err? ==> db' == db && res.error == SqlError(ForeignKeyViolation(
            if userId == "" && userId !in UserIds(db) then "FK_favorites_users" else "FK_favorites_recipes")))
  {
    EnsureUserValid(db, Some(userId), userName, None);
  }

  /** After addFavorite the favorite is there, and it is the only favorite added;
      users gains at most the one user, and the schema stays valid. */
  lemma AddFavoriteEffect(db: Db, recipeId: Id, userId: Id, userName: Option<string>)
    requires Valid(db) && AddFavorite(db, recipeId, userId, userName).1.Ok?
    ensures var db' := AddFavorite(db, recipeId, userId, userName).0;
      && Valid(db')
      && (forall f :: f in db'.favorites <==> f in db.favorites || f == Favorite(userId, recipeId))
      && userId in UserIds(db')
      && db' == db.(users := db'.users, favorites := db'.favorites)
  {
    EnsureUserValid(db, Some(userId), userName, None);
    var u := EnsureUser(db, Some(userId), userName, None);
    if Favorite(userId, recipeId) !in u.state.favorites {
      InsertFavoriteValid(u.state, Favorite(userId, recipeId));
    }
  }

  /** Adding a favorite twice is the same as adding it once. */
  lemma AddFavoriteIdempotent(db: Db, recipeId: Id, userId: Id, userName: Option<string>)
    requires Valid(db) && AddFavorite(db, recipeId, userId, userName).1.Ok?
    ensures var db' := AddFavorite(db, recipeId, userId, userName).0;
      AddFavorite(db', recipeId, userId, userName) == (db', Ok(()))
  {
    AddFavoriteEffect(db, recipeId, userId, userName);
  }

  /** Removing a favorite twice is the same as removing it once. */
  lemma RemoveFavoriteIdempotent(db: Db, recipeId: Id, userId: Id)
    ensures RemoveFavorite(RemoveFavorite(db, recipeId, userId), recipeId, userId) == RemoveFavorite(db, recipeId, userId)
  {
    var once := RemoveFavorite(db, recipeId, userId);
    FilterAll(once.favorites, f => OtherFavorite(userId, recipeId, f));
  }

  /** Removing a favorite that addFavorite just added restores the favorites
      table exactly. */
  lemma RemoveUndoesAdd(db: Db, recipeId: Id, userId: Id, userName: Option<string>)
    requires Valid(db) && Favorite(userId, recipeId) !in db.favorites
    requires AddFavorite(db, recipeId, userId, userName).1.Ok?
    ensures RemoveFavorite(AddFavorite(db, recipeId, userId, userName).0, recipeId, userId).favorites == db.favorites
  {
    var f := Favorite(userId, recipeId);
    var keep := g => OtherFavorite(userId, recipeId, g);
    var u := EnsureUser(db, Some(userId), userName, None);
    assert AddFavorite(db, recipeId, userId, userName).0.favorites == db.favorites + [f];
    FilterAppend(db.favorites, [f], keep);
    FilterAll(db.favorites, keep);
  }

  // ---------------------------------------------------------------------
  // listRecipes.
  // ---------------------------------------------------------------------

  /** RecipeListFilters: `q` and `category` apply when truthy, `isPublished`
      when neither null nor undefined. */
  datatype ListFilters = ListFilters(
    page: int,
    pageSize: int,
    q: Option<string>,
    isPublished: Option<bool>,
    category: Option<string>)

  /** A listed row with its category names as the list view shows them. */
  datatype ListItem = ListItem(row: RecipeRow, categories: seq<string>)

  datatype RecipePage = RecipePage(items: seq<ListItem>, total: nat, page: int, pageSize: int)

  /** `EXISTS (SELECT 1 FROM recipe_categories rc2 JOIN categories c2 ... WHERE
      rc2.recipe_id = r.id AND c2.name = @category)`, comparing under the collation. */
  predicate HasCategory(db: Db, rid: Id, name: string) {
    exists l, n :: l in db.recipeCategories && n in db.categories && l.recipeId == rid && l.targetId == n.id
      && Collated(n.name) == Collated(name)
  }

  /** `r.title LIKE '%q%' OR r.description LIKE '%q%'`; a NULL description never matches. */
  predicate MatchesText(row: RecipeRow, q: string) {
    Contains(row.title, q) || (row.description.Some? && Contains(row.description.value, q))
  }

  /** The WHERE clause built from the filters. */
  predicate Matches(db: Db, filters: ListFilters, row: RecipeRow) {
    && (!Truthy(filters.q) || MatchesText(row, filters.q.value))
    && (filters.isPublished.None? || row.isPublished == filters.isPublished.value)
    && (!Truthy(filters.category) || HasCategory(db, row.id, filters.category.value))
  }

  function CreatedAt(row: RecipeRow): Time { row.createdAt }

  /** `STRING_AGG(c.name, ',')` over the recipe's category rows, NULL when there
      are none; the aggregate has no WITHIN GROUP, so the join order stands in
      for the engine's unspecified one. */
  function Aggregate(names: seq<string>): Option<string> {
    if |names| == 0 then None else Some(Join(names, ','))
  }

  /** `row.categories ? row.categories.split(",").map(trim).filter(Boolean) : []` */
  function ListCategories(agg: Option<string>): (r: seq<string>)
    ensures forall k :: 0 <= k < |r| ==> r[k] != "" && ',' !in r[k]
  {
    if agg.None? || agg.value == "" then []
    else
      var parts := Split(agg.value, ',');
      var trimmed := TrimEach(parts);
      assert forall k :: 0 <= k < |trimmed| ==> ',' !in trimmed[k] by {
        forall k | 0 <= k < |trimmed| ensures ',' !in trimmed[k] {
          assert parts[k] in parts;
          TrimInside(parts[k], ',');
        }
      }
      var r := Filter(trimmed, NonEmpty);
      assert forall k :: 0 <= k < |r| ==> r[k] in trimmed;
      r
  }

  function ListItemOf(db: Db, row: RecipeRow): ListItem {
    ListItem(row, ListCategories(Aggregate(NamesOf(Joined(db.recipeCategories, db.categories, row.id)))))
  }

  function ListItems(db: Db, rows: seq<RecipeRow>): (r: seq<ListItem>)
    ensures |r| == |rows|
    ensures forall k :: 0 <= k < |rows| ==> r[k] == ListItemOf(db, rows[k])
  {
    seq(|rows|, k requires 0 <= k < |rows| => ListItemOf(db, rows[k]))
  }

  /** The recipes the WHERE clause selects, in table order. */
  function Matching(db: Db, filters: ListFilters): seq<RecipeRow> {
    Filter(db.recipes, row => Matches(db, filters, row))
  }

  /** The OFFSET parameter of listRecipes. */
  function Offset(filters: ListFilters): int {
    (filters.page - 1) * filters.pageSize
  }

  /** listRecipes: the matching count and one page of matches, newest first.
      A negative OFFSET or a FETCH of fewer than one row is refused by the engine. */
  function ListRecipes(db: Db, filters: ListFilters): Result<RecipePage> {
    var offset := Offset(filters);
    if offset < 0 || filters.pageSize < 1 then Err(SqlError(InvalidPaging))
    else
      var matching := Matching(db, filters);
      var rows := Page(SortNewestFirst(matching, CreatedAt), offset, filters.pageSize);
      Ok(RecipePage(ListItems(db, rows), |matching|, filters.page, filters.pageSize))
  }

  /** The EXISTS test of the category filter agrees with the names the recipe
      lists, compared under the collation, given unique category ids and names. */
  lemma HasCategoryListed(db: Db, rid: Id, name: string)
    requires Valid(db)
    ensures HasCategory(db, rid, name) <==> Collated(name) in KeysOf(Joined(db.recipeCategories, db.categories, rid))
  {
    var links, rows := db.recipeCategories, db.categories;
    assert forall l :: l in links ==> l.targetId in NamedIds(rows) by {
      assert LinkRows(db, Categories) == links && NamedRows(db, Categories) == rows;
    }
    var keys := KeysOf(Joined(links, rows, rid));
    if HasCategory(db, rid, name) {
      var l, n :| l in links && n in rows && l.recipeId == rid && l.targetId == n.id && Collated(n.name) == Collated(name);
      JoinedHasName(links, rows, rid, n.id, n.name);
      assert LinkKey(l) == (rid, n.id);
    }
    if Collated(name) in keys {
      var k :| 0 <= k < |keys| && keys[k] == Collated(name);
      var joined := Joined(links, rows, rid);
      JoinedNamesFrom(links, rows, rid);
      assert joined[k] in joined;
      var n :| n in rows && n.name == joined[k].name;
      JoinedHasName(links, rows, rid, n.id, n.name);
      var m :| m in links && LinkKey(m) == (rid, n.id);
      assert m.recipeId == rid && m.targetId == n.id;
    }
  }

  /** listRecipes fails exactly for a page or page size below one. */
  lemma ListRecipesPaging(db: Db, filters: ListFilters)
    ensures ListRecipes(db, filters).Err? <==> filters.page < 1 || filters.pageSize < 1
    ensures ListRecipes(db, filters).Err? ==> ListRecipes(db, filters).error == SqlError(InvalidPaging)
  {
    if filters.pageSize >= 1 {
      OffsetSign(filters);
    }
  }

  /** With a positive page size, the offset is negative exactly for pages below one. */
  lemma OffsetSign(filters: ListFilters)
    requires filters.pageSize >= 1
    ensures Offset(filters) >= 0 <==> filters.page >= 1
  {
    var p, n := filters.page, filters.pageSize;
    if p >= 1 {
      assert (p - 1) * n >= 0;
    } else {
      assert (p - 1) * n <= -n;
    }
  }

  /** The rows of a page of listRecipes. */
  function PageRows(db: Db, filters: ListFilters): seq<RecipeRow>
    requires Offset(filters) >= 0 && filters.pageSize >= 1
  {
    Page(SortNewestFirst(Matching(db, filters), CreatedAt), Offset(filters), filters.pageSize)
  }

  /** The counts of a page of listRecipes: the total counts every matching
      recipe, and the page holds pageSize of them from the offset on, or fewer
      at the end. */
  lemma ListRecipesCounts(db: Db, filters: ListFilters)
    requires ListRecipes(db, filters).Ok?
    ensures var r := ListRecipes(db, filters).value;
      && r.total == |Matching(db, filters)|
      && r.page == filters.page && r.pageSize == filters.pageSize
      && |r.items| <= filters.pageSize
      && |r.items| == (if Offset(filters) >= r.total then 0 else Min(filters.pageSize, r.total - Offset(filters)))
  {
  }

  /** The matching rows are exactly the recipes that pass the filters. */
  lemma MatchingIff(db: Db, filters: ListFilters)
    ensures forall row :: row in Matching(db, filters) <==> row in db.recipes && Matches(db, filters, row)
  {
  }

  /** The rows of a page are matching rows, newest first. */
  lemma PageRowsMatch(db: Db, filters: ListFilters)
    requires Offset(filters) >= 0 && filters.pageSize >= 1
    ensures forall row :: row in PageRows(db, filters) ==> row in Matching(db, filters)
    ensures NewestFirst(PageRows(db, filters), CreatedAt)
  {
    PageOfSorted(Matching(db, filters), CreatedAt, Offset(filters), filters.pageSize);
  }

  /** Every recipe on a page exists and passes the filters, and the page is
      ordered newest first. */
  lemma ListRecipesRows(db: Db, filters: ListFilters)
    requires ListRecipes(db, filters).Ok?
    ensures var r := ListRecipes(db, filters).value;
      && (forall k :: 0 <= k < |r.items| ==> r.items[k].row in db.recipes && Matches(db, filters, r.items[k].row))
      && (forall i, j :: 0 <= i < j < |r.items| ==> r.items[i].row.createdAt >= r.items[j].row.createdAt)
  {
    ListRecipesPaging(db, filters);
    var rows := PageRows(db, filters);
    var items := ListRecipes(db, filters).value.items;
    assert items == ListItems(db, rows);
    PageRowsMatch(db, filters);
    MatchingIff(db, filters);
    forall k | 0 <= k < |items| ensures items[k].row in db.recipes && Matches(db, filters, items[k].row) {
      assert items[k].row == rows[k] && rows[k] in rows;
    }
    forall i, j | 0 <= i < j < |items| ensures items[i].row.createdAt >= items[j].row.createdAt {
      assert CreatedAt(rows[i]) >= CreatedAt(rows[j]);
    }
  }

  /** The first page, when it is large enough, lists every matching recipe. */
  lemma ListRecipesComplete(db: Db, filters: ListFilters)
    requires filters.page == 1 && filters.pageSize >= |Matching(db, filters)| && filters.pageSize >= 1
    ensures ListRecipes(db, filters).Ok?
    ensures multiset(Rows(ListRecipes(db, filters).value.items)) == multiset(Matching(db, filters))
  {
    var matching := Matching(db, filters);
    var sorted := SortNewestFirst(matching, CreatedAt);
    assert Page(sorted, 0, filters.pageSize) == sorted;
    var items := ListRecipes(db, filters).value.items;
    assert Rows(items) == sorted;
  }

  function Rows(items: seq<ListItem>): (rows: seq<RecipeRow>)
    ensures |rows| == |items|
    ensures forall k :: 0 <= k < |items| ==> rows[k] == items[k].row
  {
    seq(|items|, k requires 0 <= k < |items| => items[k].row)
  }

  /** Category names that are trimmed, non-empty and free of commas survive the
      STRING_AGG / split round trip unchanged. */
  lemma ListCategoriesRoundTrip(names: seq<string>)
    requires forall k :: 0 <= k < |names| ==> names[k] != "" && Trim(names[k]) == names[k] && ',' !in names[k]
    ensures ListCategories(Aggregate(names)) == names
  {
    if |names| > 0 {
      JoinStartsWith(names, ',');
      SplitJoin(names, ',');
      var parts := Split(Join(names, ','), ',');
      assert TrimEach(parts) == names;
      FilterAll(names, NonEmpty);
    }
  }

  /** A category whose name contains a comma is shown as two in the list view
      (getRecipeById shows it as one). */
  lemma ListCategoriesSplitsComma()
    ensures ListCategories(Aggregate(["a,b"])) == ["a", "b"]
  {
    SplitJoin(["a", "b"], ',');
    assert Join(["a", "b"], ',') == "a,b";
    TrimOfTrimmed("a");
    TrimOfTrimmed("b");
    assert TrimEach(["a", "b"]) == ["a", "b"];
    FilterAll(["a", "b"], NonEmpty);
  }
}
