/** The relational schema that INIT_SQL creates (api/src/functions/adminInitSql.ts:9-132)
    and the statements the repository issues against it. Tables are immutable
    row sequences; primary keys, unique indexes and foreign keys together form
    the invariant `Valid`, and every INSERT or DELETE statement either keeps
    `Valid` or fails with the violation the engine would raise.

    Columns no operation reads (row ids of join tables and favorites, their
    timestamps, users' timestamps) are not represented. */
module Schema {
  import opened Common
  import opened Strings
  import opened Seqs
  import opened Sql

  /** dbo.users */
  datatype User = User(id: Id, name: Option<string>, email: Option<string>)

  /** dbo.recipes; title is NOT NULL, so it is a plain string. */
  datatype RecipeRow = RecipeRow(
    id: Id,
    userId: Option<Id>,
    title: string,
    description: Option<string>,
    instructions: Option<string>,
    rawImageBlobName: Option<string>,
    imageUrl: Option<string>,
    thumbUrl: Option<string>,
    isPublished: bool,
    moderationStatus: string,
    createdAt: Time,
    updatedAt: Time)

  /** A row of dbo.categories or dbo.ingredients. */
  datatype Named = Named(id: Id, name: string)

  /** A row of dbo.recipe_categories or dbo.recipe_ingredients; only the
      ingredient join has a quantity column, so category links carry None. */
  datatype Link = Link(recipeId: Id, targetId: Id, quantity: Option<string>)

  /** dbo.favorites */
  datatype Favorite = Favorite(userId: Id, recipeId: Id)

  /** dbo.reviews (no operation of this core creates one; deletion cascades to them). */
  datatype Review = Review(id: Id, recipeId: Id, userId: Option<Id>, rating: int, text: Option<string>)

  datatype Db = Db(
    users: seq<User>,
    recipes: seq<RecipeRow>,
    reviews: seq<Review>,
    favorites: seq<Favorite>,
    categories: seq<Named>,
    recipeCategories: seq<Link>,
    ingredients: seq<Named>,
    recipeIngredients: seq<Link>)

  /** The database right after INIT_SQL: every table empty. */
  const EmptyDb := Db([], [], [], [], [], [], [], [])

  /** The two get-or-create vocabularies and their join tables. */
  datatype Assoc = Categories | Ingredients {

    function NameIndex(): string {
      if Categories? then "UX_categories_name" else "UX_ingredients_name"
    }

    function LinkIndex(): string {
      if Categories? then "UX_recipe_categories" else "UX_recipe_ingredients"
    }

    function LinkRecipeFk(): string {
      if Categories? then "FK_recipe_categories_recipes" else "FK_recipe_ingredients_recipes"
    }

    function LinkTargetFk(): string {
      if Categories? then "FK_recipe_categories_categories" else "FK_recipe_ingredients_ingredients"
    }
  }

  function NamedRows(db: Db, a: Assoc): seq<Named> {
    if a.Categories? then db.categories else db.ingredients
  }

  function LinkRows(db: Db, a: Assoc): seq<Link> {
    if a.Categories? then db.recipeCategories else db.recipeIngredients
  }

  function WithNamedRows(db: Db, a: Assoc, rows: seq<Named>): Db {
    if a.Categories? then db.(categories := rows) else db.(ingredients := rows)
  }

  function WithLinkRows(db: Db, a: Assoc, rows: seq<Link>): Db {
    if a.Categories? then db.(recipeCategories := rows) else db.(recipeIngredients := rows)
  }

  /** The tables other than the vocabulary and join table of `a`. */
  function Frame(db: Db, a: Assoc): Db {
    WithLinkRows(WithNamedRows(db, a, []), a, [])
  }

  /** `db'` differs from `db` at most in the vocabulary and the join table of `a`. */
  predicate OnlyAssocChanged(db: Db, db': Db, a: Assoc) {
    Frame(db', a) == Frame(db, a)
  }

  // Keys of the primary keys and unique indexes.
  function UserKey(u: User): Id { u.id }
  function RecipeKey(r: RecipeRow): Id { r.id }
  function ReviewKey(v: Review): Id { v.id }
  function FavoriteKey(f: Favorite): (Id, Id) { (f.userId, f.recipeId) }
  function NamedKey(n: Named): Id { n.id }
  function NameKey(n: Named): string { Collated(n.name) }
  function LinkKey(l: Link): (Id, Id) { (l.recipeId, l.targetId) }

  function UserIds(db: Db): set<Id> {
    set u | u in db.users :: u.id
  }

  function RecipeIds(db: Db): set<Id> {
    set r | r in db.recipes :: r.id
  }

  function NamedIds(rows: seq<Named>): set<Id> {
    set n | n in rows :: n.id
  }

  function Names(rows: seq<Named>): set<string> {
    set n | n in rows :: n.name
  }

  /** The collated names of the vocabulary rows. */
  function CollatedNames(rows: seq<Named>): set<string> {
    set n | n in rows :: Collated(n.name)
  }

  /** The collated forms of the stored non-null emails. */
  function Emails(db: Db): set<string> {
    set u | u in db.users && u.email.Some? :: Collated(u.email.value)
  }

  /** IX_users_email: unique among non-null emails, compared under the
      collation, so "Bob@x.com" and "bob@x.com" cannot both be stored. */
  predicate EmailsUnique(users: seq<User>) {
    forall i, j :: 0 <= i < j < |users| && users[i].email.Some? && users[j].email.Some? ==>
      Collated(users[i].email.value) != Collated(users[j].email.value)
  }

  predicate UsersValid(db: Db) {
    DistinctBy(db.users, UserKey) && EmailsUnique(db.users)
  }

  /** PK on recipes.id, FK_recipes_users. */
  predicate RecipesValid(db: Db) {
    && DistinctBy(db.recipes, RecipeKey)
    && forall r :: r in db.recipes && r.userId.Some? ==> r.userId.value in UserIds(db)
  }

  /** FK_reviews_recipes, FK_reviews_users. */
  predicate ReviewsValid(db: Db) {
    && DistinctBy(db.reviews, ReviewKey)
    && forall v :: v in db.reviews ==> v.recipeId in RecipeIds(db) && (v.userId.Some? ==> v.userId.value in UserIds(db))
  }

  /** UX_favorites_user_recipe, FK_favorites_users, FK_favorites_recipes. */
  predicate FavoritesValid(db: Db) {
    && DistinctBy(db.favorites, FavoriteKey)
    && forall f :: f in db.favorites ==> f.userId in UserIds(db) && f.recipeId in RecipeIds(db)
  }

  /** UX_<vocabulary>_name, UX_recipe_<vocabulary>, and both join foreign keys. */
  predicate AssocValid(db: Db, a: Assoc) {
    && DistinctBy(NamedRows(db, a), NamedKey)
    && DistinctBy(NamedRows(db, a), NameKey)
    && DistinctBy(LinkRows(db, a), LinkKey)
    && (forall l :: l in LinkRows(db, a) ==> l.recipeId in RecipeIds(db) && l.targetId in NamedIds(NamedRows(db, a)))
    && (a.Categories? ==> forall l :: l in LinkRows(db, a) ==> l.quantity.None?)
  }

  /** Every constraint of the schema holds. */
  predicate Valid(db: Db) {
    && UsersValid(db)
    && RecipesValid(db)
    && ReviewsValid(db)
    && FavoritesValid(db)
    && AssocValid(db, Categories)
    && AssocValid(db, Ingredients)
  }

  lemma EmptyDbValid()
    ensures Valid(EmptyDb)
  {
  }

  // ---------------------------------------------------------------------
  // Statements. Each INSERT checks the constraints of its table; a DELETE of
  // a referenced recipe row is refused by the foreign keys. The lemma after
  // each statement shows that a statement that goes through keeps `Valid`.
  // ---------------------------------------------------------------------

  /** INSERT INTO dbo.users */
  function InsertUser(db: Db, u: User): (r: Run<Db, ()>)
    ensures r.Returned? <==> u.id !in UserIds(db) && (u.email.Some? ==> Collated(u.email.value) !in Emails(db))
    ensures r.Returned? ==> r.state == db.(users := db.users + [u])
    ensures r.Threw? ==> r.error.SqlError? && r.error.violation.UniqueViolation?
  {
    if u.id in UserIds(db) then Threw(SqlError(UniqueViolation("PK_users")))
    else if u.email.Some? && Collated(u.email.value) in Emails(db) then Threw(SqlError(UniqueViolation("IX_users_email")))
    else Returned(db.(users := db.users + [u]), ())
  }

  lemma InsertUserValid(db: Db, u: User)
    requires Valid(db) && InsertUser(db, u).Returned?
    ensures Valid(InsertUser(db, u).state)
    ensures UserIds(InsertUser(db, u).state) == UserIds(db) + {u.id}
  {
    var db' := InsertUser(db, u).state;
    assert UserIds(db') == UserIds(db) + {u.id};
    DistinctByAppend(db.users, UserKey, u);
    forall i, j | 0 <= i < j < |db'.users| && db'.users[i].email.Some? && db'.users[j].email.Some?
      ensures Collated(db'.users[i].email.value) != Collated(db'.users[j].email.value)
    {
      if j == |db.users| {
        assert db.users[i] in db.users;
      }
    }
  }

  /** INSERT INTO dbo.recipes */
  function InsertRecipe(db: Db, row: RecipeRow): (r: Run<Db, ()>)
    ensures r.Returned? <==> row.id !in RecipeIds(db) && (row.userId.Some? ==> row.userId.value in UserIds(db))
    ensures r.Returned? ==> r.state == db.(recipes := db.recipes + [row])
  {
    if row.id in RecipeIds(db) then Threw(SqlError(UniqueViolation("PK_recipes")))
    else if row.userId.Some? && row.userId.value !in UserIds(db) then Threw(SqlError(ForeignKeyViolation("FK_recipes_users")))
    else Returned(db.(recipes := db.recipes + [row]), ())
  }

  lemma InsertRecipeValid(db: Db, row: RecipeRow)
    requires Valid(db) && InsertRecipe(db, row).Returned?
    ensures Valid(InsertRecipe(db, row).state)
    ensures RecipeIds(InsertRecipe(db, row).state) == RecipeIds(db) + {row.id}
  {
    var db' := InsertRecipe(db, row).state;
    assert RecipeIds(db') == RecipeIds(db) + {row.id};
    DistinctByAppend(db.recipes, RecipeKey, row);
  }

  /** INSERT INTO dbo.categories / dbo.ingredients */
  function InsertNamed(db: Db, a: Assoc, n: Named): (r: Run<Db, ()>)
    ensures r.Returned? <==> n.id !in NamedIds(NamedRows(db, a)) && Collated(n.name) !in CollatedNames(NamedRows(db, a))
    ensures r.Threw? && n.id !in NamedIds(NamedRows(db, a)) ==> r.error == SqlError(UniqueViolation(a.NameIndex()))
    ensures r.Returned? ==> r.state == WithNamedRows(db, a, NamedRows(db, a) + [n])
  {
    var rows := NamedRows(db, a);
    if n.id in NamedIds(rows) then Threw(SqlError(UniqueViolation("PK_" + (if a.Categories? then "categories" else "ingredients"))))
    else if Collated(n.name) in CollatedNames(rows) then Threw(SqlError(UniqueViolation(a.NameIndex())))
    else Returned(WithNamedRows(db, a, rows + [n]), ())
  }

  lemma InsertNamedValid(db: Db, a: Assoc, n: Named)
    requires Valid(db) && InsertNamed(db, a, n).Returned?
    ensures Valid(InsertNamed(db, a, n).state)
  {
    var rows := NamedRows(db, a);
    var db' := InsertNamed(db, a, n).state;
    assert NamedIds(NamedRows(db', a)) == NamedIds(rows) + {n.id};
    DistinctByAppend(rows, NamedKey, n);
    DistinctByAppend(rows, NameKey, n);
  }

  /** INSERT INTO dbo.recipe_categories / dbo.recipe_ingredients */
  function InsertLink(db: Db, a: Assoc, l: Link): (r: Run<Db, ()>)
    ensures r.Returned? <==>
      && (forall m :: m in LinkRows(db, a) ==> LinkKey(m) != LinkKey(l))
      && l.recipeId in RecipeIds(db)
      && l.targetId in NamedIds(NamedRows(db, a))
    ensures r.Threw? && (exists m :: m in LinkRows(db, a) && LinkKey(m) == LinkKey(l)) ==>
      r.error == SqlError(UniqueViolation(a.LinkIndex()))
    ensures r.Returned? ==> r.state == WithLinkRows(db, a, LinkRows(db, a) + [l])
  {
    var rows := LinkRows(db, a);
    if exists m :: m in rows && LinkKey(m) == LinkKey(l) then Threw(SqlError(UniqueViolation(a.LinkIndex())))
    else if l.recipeId !in RecipeIds(db) then Threw(SqlError(ForeignKeyViolation(a.LinkRecipeFk())))
    else if l.targetId !in NamedIds(NamedRows(db, a)) then Threw(SqlError(ForeignKeyViolation(a.LinkTargetFk())))
    else Returned(WithLinkRows(db, a, rows + [l]), ())
  }

  lemma InsertLinkValid(db: Db, a: Assoc, l: Link)
    requires a.Categories? ==> l.quantity.None?
    requires Valid(db) && InsertLink(db, a, l).Returned?
    ensures Valid(InsertLink(db, a, l).state)
  {
    DistinctByAppend(LinkRows(db, a), LinkKey, l);
  }

  /** INSERT INTO dbo.favorites */
  function InsertFavorite(db: Db, f: Favorite): (r: Run<Db, ()>)
    ensures r.Returned? <==> f !in db.favorites && f.userId in UserIds(db) && f.recipeId in RecipeIds(db)
    ensures r.Returned? ==> r.state == db.(favorites := db.favorites + [f])
  {
    if f in db.favorites then Threw(SqlError(UniqueViolation("UX_favorites_user_recipe")))
    else if f.userId !in UserIds(db) then Threw(SqlError(ForeignKeyViolation("FK_favorites_users")))
    else if f.recipeId !in RecipeIds(db) then Threw(SqlError(ForeignKeyViolation("FK_favorites_recipes")))
    else Returned(db.(favorites := db.favorites + [f]), ())
  }

  lemma InsertFavoriteValid(db: Db, f: Favorite)
    requires Valid(db) && InsertFavorite(db, f).Returned?
    ensures Valid(InsertFavorite(db, f).state)
  {
    forall g | g in db.favorites ensures FavoriteKey(g) != FavoriteKey(f) {
    }
    DistinctByAppend(db.favorites, FavoriteKey, f);
  }

  predicate NotForRecipe(id: Id, l: Link) { l.recipeId != id }
  predicate ReviewNotFor(id: Id, v: Review) { v.recipeId != id }
  predicate FavoriteNotFor(id: Id, f: Favorite) { f.recipeId != id }
  predicate OtherFavorite(userId: Id, recipeId: Id, f: Favorite) { !(f.userId == userId && f.recipeId == recipeId) }
  predicate OtherRecipe(id: Id, r: RecipeRow) { r.id != id }

  /** DELETE FROM dbo.recipe_categories / dbo.recipe_ingredients WHERE recipe_id = @id */
  function DeleteLinksOf(db: Db, a: Assoc, recipeId: Id): (db': Db)
    ensures LinkRows(db', a) == Filter(LinkRows(db, a), l => NotForRecipe(recipeId, l))
    ensures forall l :: l in LinkRows(db', a) <==> l in LinkRows(db, a) && l.recipeId != recipeId
    ensures db' == WithLinkRows(db, a, LinkRows(db', a))
  {
    WithLinkRows(db, a, Filter(LinkRows(db, a), l => NotForRecipe(recipeId, l)))
  }

  lemma DeleteLinksOfValid(db: Db, a: Assoc, recipeId: Id)
    requires Valid(db)
    ensures Valid(DeleteLinksOf(db, a, recipeId))
  {
    DistinctByFilter(LinkRows(db, a), LinkKey, l => NotForRecipe(recipeId, l));
  }

  /** DELETE FROM dbo.reviews WHERE recipe_id = @id */
  function DeleteReviewsOf(db: Db, recipeId: Id): (db': Db)
    ensures db' == db.(reviews := Filter(db.reviews, v => ReviewNotFor(recipeId, v)))
    ensures forall v :: v in db'.reviews <==> v in db.reviews && v.recipeId != recipeId
  {
    db.(reviews := Filter(db.reviews, v => ReviewNotFor(recipeId, v)))
  }

  lemma DeleteReviewsOfValid(db: Db, recipeId: Id)
    requires Valid(db)
    ensures Valid(DeleteReviewsOf(db, recipeId))
  {
    DistinctByFilter(db.reviews, ReviewKey, v => ReviewNotFor(recipeId, v));
  }

  /** DELETE FROM dbo.favorites WHERE recipe_id = @id */
  function DeleteFavoritesOf(db: Db, recipeId: Id): (db': Db)
    ensures db' == db.(favorites := Filter(db.favorites, f => FavoriteNotFor(recipeId, f)))
    ensures forall f :: f in db'.favorites <==> f in db.favorites && f.recipeId != recipeId
  {
    db.(favorites := Filter(db.favorites, f => FavoriteNotFor(recipeId, f)))
  }

  lemma DeleteFavoritesOfValid(db: Db, recipeId: Id)
    requires Valid(db)
    ensures Valid(DeleteFavoritesOf(db, recipeId))
  {
    DistinctByFilter(db.favorites, FavoriteKey, f => FavoriteNotFor(recipeId, f));
  }

  /** DELETE FROM dbo.favorites WHERE user_id = @userId AND recipe_id = @recipeId */
  function DeleteFavorite(db: Db, userId: Id, recipeId: Id): (db': Db)
    ensures db' == db.(favorites := Filter(db.favorites, f => OtherFavorite(userId, recipeId, f)))
    ensures forall f :: f in db'.favorites <==> f in db.favorites && f != Favorite(userId, recipeId)
  {
    db.(favorites := Filter(db.favorites, f => OtherFavorite(userId, recipeId, f)))
  }

  lemma DeleteFavoriteValid(db: Db, userId: Id, recipeId: Id)
    requires Valid(db)
    ensures Valid(DeleteFavorite(db, userId, recipeId))
  {
    DistinctByFilter(db.favorites, FavoriteKey, f => OtherFavorite(userId, recipeId, f));
  }

  /** Some row of a dependent table still references recipe `id`. */
  predicate Referenced(db: Db, id: Id) {
    || (exists l :: l in db.recipeCategories && l.recipeId == id)
    || (exists l :: l in db.recipeIngredients && l.recipeId == id)
    || (exists v :: v in db.reviews && v.recipeId == id)
    || (exists f :: f in db.favorites && f.recipeId == id)
  }

  /** The foreign key that refuses deleting recipe `id`: that of the first
      dependent table, in the order the schema creates the join tables first,
      still holding a row for it. */
  function BlockingFk(db: Db, id: Id): string {
    if exists l :: l in db.recipeCategories && l.recipeId == id then Categories.LinkRecipeFk()
    else if exists l :: l in db.recipeIngredients && l.recipeId == id then Ingredients.LinkRecipeFk()
    else if exists v :: v in db.reviews && v.recipeId == id then "FK_reviews_recipes"
    else "FK_favorites_recipes"
  }

  /** DELETE FROM dbo.recipes WHERE id = @id; the foreign keys of the four
      dependent tables refuse it while any of their rows reference the recipe. */
  function DeleteRecipeRow(db: Db, id: Id): (r: Run<Db, ()>)
    ensures r.Returned? <==> !Referenced(db, id)
    ensures r.Threw? ==> r.error.SqlError? && r.error.violation.ForeignKeyViolation?
    ensures (exists l :: l in db.recipeCategories && l.recipeId == id) ==>
      r == Threw(SqlError(ForeignKeyViolation("FK_recipe_categories_recipes")))
    ensures r.Returned? ==> r.state == db.(recipes := Filter(db.recipes, row => OtherRecipe(id, row)))
    ensures r.Returned? ==> RecipeIds(r.state) == RecipeIds(db) - {id}
  {
    if Referenced(db, id) then Threw(SqlError(ForeignKeyViolation(BlockingFk(db, id))))
    else
      var db' := db.(recipes := Filter(db.recipes, row => OtherRecipe(id, row)));
      assert RecipeIds(db') == RecipeIds(db) - {id} by {
        forall x | x in RecipeIds(db) - {id} ensures x in RecipeIds(db') {
          var row :| row in db.recipes && row.id == x;
          assert row in db'.recipes;
        }
      }
      Returned(db', ())
  }

  lemma DeleteRecipeRowValid(db: Db, id: Id)
    requires Valid(db) && DeleteRecipeRow(db, id).Returned?
    ensures Valid(DeleteRecipeRow(db, id).state)
  {
    DistinctByFilter(db.recipes, RecipeKey, row => OtherRecipe(id, row));
  }

  /** UPDATE dbo.recipes SET ... WHERE id = @id, for an update that changes no key
      or reference column: every row with that id takes the new values. */
  function UpdateRecipeRow(db: Db, id: Id, f: RecipeRow -> RecipeRow): (db': Db)
    requires forall row :: f(row).id == row.id && f(row).userId == row.userId
    ensures |db'.recipes| == |db.recipes|
    ensures forall i :: 0 <= i < |db.recipes| ==>
      db'.recipes[i] == (if db.recipes[i].id == id then f(db.recipes[i]) else db.recipes[i])
    ensures db' == db.(recipes := db'.recipes)
    ensures RecipeIds(db') == RecipeIds(db)
  {
    var rows := seq(|db.recipes|, i requires 0 <= i < |db.recipes| =>
      if db.recipes[i].id == id then f(db.recipes[i]) else db.recipes[i]);
    var db' := db.(recipes := rows);
    assert RecipeIds(db') == RecipeIds(db) by {
      forall x | x in RecipeIds(db) ensures x in RecipeIds(db') {
        var i :| 0 <= i < |db.recipes| && db.recipes[i].id == x;
        assert rows[i].id == x;
      }
      forall x | x in RecipeIds(db') ensures x in RecipeIds(db) {
        var i :| 0 <= i < |rows| && rows[i].id == x;
        assert db.recipes[i].id == x;
      }
    }
    db'
  }

  lemma UpdateRecipeRowValid(db: Db, id: Id, f: RecipeRow -> RecipeRow)
    requires forall row :: f(row).id == row.id && f(row).userId == row.userId
    requires Valid(db)
    ensures Valid(UpdateRecipeRow(db, id, f))
  {
    var db' := UpdateRecipeRow(db, id, f);
    forall i, j | 0 <= i < j < |db'.recipes| ensures RecipeKey(db'.recipes[i]) != RecipeKey(db'.recipes[j]) {
      assert RecipeKey(db.recipes[i]) != RecipeKey(db.recipes[j]);
    }
    forall row | row in db'.recipes && row.userId.Some? ensures row.userId.value in UserIds(db') {
      var i :| 0 <= i < |db'.recipes| && db'.recipes[i] == row;
      assert db.recipes[i] in db.recipes;
    }
  }

  // ---------------------------------------------------------------------
  // Fresh identifiers: uuidv4() is FreshId over the ids of the recipes,
  // categories and ingredients tables.
  // ---------------------------------------------------------------------

  /** The ids of every row whose id the repository generates. */
  function AllIds(db: Db): (ids: seq<Id>)
    ensures forall x :: x in RecipeIds(db) ==> x in ids
    ensures forall x :: x in NamedIds(db.categories) ==> x in ids
    ensures forall x :: x in NamedIds(db.ingredients) ==> x in ids
  {
    var recipes := seq(|db.recipes|, i requires 0 <= i < |db.recipes| => db.recipes[i].id);
    var categories := seq(|db.categories|, i requires 0 <= i < |db.categories| => db.categories[i].id);
    var ingredients := seq(|db.ingredients|, i requires 0 <= i < |db.ingredients| => db.ingredients[i].id);
    assert forall x :: x in RecipeIds(db) ==> x in recipes by {
      forall x | x in RecipeIds(db) ensures x in recipes {
        var r :| r in db.recipes && r.id == x;
        var i :| 0 <= i < |db.recipes| && db.recipes[i] == r;
        assert recipes[i] == x;
      }
    }
    assert forall x :: x in NamedIds(db.categories) ==> x in categories by {
      forall x | x in NamedIds(db.categories) ensures x in categories {
        var n :| n in db.categories && n.id == x;
        var i :| 0 <= i < |db.categories| && db.categories[i] == n;
        assert categories[i] == x;
      }
    }
    assert forall x :: x in NamedIds(db.ingredients) ==> x in ingredients by {
      forall x | x in NamedIds(db.ingredients) ensures x in ingredients {
        var n :| n in db.ingredients && n.id == x;
        var i :| 0 <= i < |db.ingredients| && db.ingredients[i] == n;
        assert ingredients[i] == x;
      }
    }
    recipes + categories + ingredients
  }
}
