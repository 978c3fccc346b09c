/** The category and ingredient lists of a recipe (api/src/lib/recipesRepo.ts:286-304,
    376-453): reading them back through the join tables, get-or-create of a
    vocabulary row by name under the database's collation, and full
    replacement of a recipe's list. A name that matches a stored row under the
    collation reuses that row, so the recipe lists the stored spelling.
    Both vocabularies share one definition, parameterised by `Assoc`. */
module Associations {
  import opened Common
  import opened Strings
  import opened Seqs
  import opened Sql
  import opened Schema

  /** One entry of a recipe's list: a name and, for ingredients, a quantity
      (IngredientInput). Category entries carry no quantity. */
  datatype Item = Item(name: string, quantity: Option<string>)

  /** The collated name of an entry: what `name = @name`, the unique name
      indexes and ORDER BY compare. */
  function ItemKey(it: Item): string { Collated(it.name) }

  function NamesOf(items: seq<Item>): (names: seq<string>)
    ensures |names| == |items|
    ensures forall k :: 0 <= k < |items| ==> names[k] == items[k].name
  {
    seq(|items|, k requires 0 <= k < |items| => items[k].name)
  }

  lemma NamesOfAppend(a: seq<Item>, b: seq<Item>)
    ensures NamesOf(a + b) == NamesOf(a) + NamesOf(b)
  {
  }

  function KeysOf(items: seq<Item>): (keys: seq<string>)
    ensures |keys| == |items|
    ensures forall k :: 0 <= k < |items| ==> keys[k] == Collated(items[k].name)
  {
    seq(|items|, k requires 0 <= k < |items| => Collated(items[k].name))
  }

  lemma KeysOfAppend(a: seq<Item>, b: seq<Item>)
    ensures KeysOf(a + b) == KeysOf(a) + KeysOf(b)
  {
  }

  // ---------------------------------------------------------------------
  // Reading a recipe's list back.
  // ---------------------------------------------------------------------

  /** The name of the first vocabulary row with id `id`. */
  function NameOf(rows: seq<Named>, id: Id): (r: Option<string>)
    ensures r.Some? <==> id in NamedIds(rows)
    ensures r.Some? ==> Named(id, r.value) in rows
  {
    if |rows| == 0 then None
    else if rows[0].id == id then Some(rows[0].name)
    else
      assert forall n :: n in rows[1..] ==> n in rows;
      assert id in NamedIds(rows) ==> id in NamedIds(rows[1..]) by {
        if id in NamedIds(rows) {
          var n :| n in rows && n.id == id;
          assert n != rows[0];
        }
      }
      NameOf(rows[1..], id)
  }

  /** With unique ids, the name of `id` is the name of its row. */
  lemma NameOfUnique(rows: seq<Named>, id: Id, name: string)
    requires DistinctBy(rows, NamedKey)
    requires Named(id, name) in rows
    ensures NameOf(rows, id) == Some(name)
  {
    assert id in NamedIds(rows);
    DistinctByUnique(rows, NamedKey, Named(id, NameOf(rows, id).value), Named(id, name));
  }

  /** With unique ids and collated names, the name of row `tid` collates equal
      to `name` exactly when it is the row `id` that carries that name. */
  lemma NameOfMatches(rows: seq<Named>, tid: Id, id: Id, name: string)
    requires DistinctBy(rows, NamedKey) && DistinctBy(rows, NameKey)
    requires Named(id, name) in rows && tid in NamedIds(rows)
    ensures Collated(NameOf(rows, tid).value) == Collated(name) <==> tid == id
  {
    var n := NameOf(rows, tid);
    if Collated(n.value) == Collated(name) {
      DistinctByUnique(rows, NameKey, Named(tid, n.value), Named(id, name));
    }
    if tid == id {
      NameOfUnique(rows, id, name);
    }
  }

  /** Appending vocabulary rows does not change the name of an id that already had one. */
  lemma {:induction false} NameOfPrefix(rows: seq<Named>, more: seq<Named>, id: Id)
    requires id in NamedIds(rows)
    ensures NameOf(rows + more, id) == NameOf(rows, id)
  {
    if rows[0].id != id {
      var n :| n in rows && n.id == id;
      assert n in rows[1..];
      NameOfPrefix(rows[1..], more, id);
      assert (rows + more)[1..] == rows[1..] + more;
    }
  }

  /** The inner join of the join rows of recipe `rid` with the vocabulary, in
      join-row order: what getRecipeCategories / getRecipeIngredients select
      before ordering by name. */
  function Joined(links: seq<Link>, rows: seq<Named>, rid: Id): (r: seq<Item>)
    ensures |r| <= |links|
  {
    if |links| == 0 then []
    else
      var l := links[0];
      var rest := Joined(links[1..], rows, rid);
      var name := NameOf(rows, l.targetId);
      if l.recipeId == rid && name.Some? then [Item(name.value, l.quantity)] + rest else rest
  }

  lemma {:induction false} JoinedAppend(a: seq<Link>, b: seq<Link>, rows: seq<Named>, rid: Id)
    ensures Joined(a + b, rows, rid) == Joined(a, rows, rid) + Joined(b, rows, rid)
  {
    if |a| == 0 {
      assert a + b == b;
    } else {
      var ab := a + b;
      assert ab[0] == a[0] && ab[1..] == a[1..] + b;
      JoinedAppend(a[1..], b, rows, rid);
      var head := JoinedHead(a[0], rows, rid);
      JoinedCons(ab, rows, rid);
      JoinedCons(a, rows, rid);
      ConcatAssoc(head, Joined(a[1..], rows, rid), Joined(b, rows, rid));
    }
  }

  /** The item one join row contributes to recipe `rid`'s list (none or one). */
  function JoinedHead(l: Link, rows: seq<Named>, rid: Id): seq<Item> {
    var name := NameOf(rows, l.targetId);
    if l.recipeId == rid && name.Some? then [Item(name.value, l.quantity)] else []
  }

  lemma JoinedCons(links: seq<Link>, rows: seq<Named>, rid: Id)
    requires |links| > 0
    ensures Joined(links, rows, rid) == JoinedHead(links[0], rows, rid) + Joined(links[1..], rows, rid)
  {
  }

  /** Join rows of other recipes contribute nothing. */
  lemma {:induction false} JoinedNone(links: seq<Link>, rows: seq<Named>, rid: Id)
    requires forall l :: l in links ==> l.recipeId != rid
    ensures Joined(links, rows, rid) == []
  {
    if |links| > 0 {
      assert forall l :: l in links[1..] ==> l in links;
      JoinedNone(links[1..], rows, rid);
    }
  }

  /** Removing the join rows of recipe `rid` leaves every other recipe's list as it was. */
  lemma {:induction false} JoinedFilterOther(links: seq<Link>, rows: seq<Named>, rid: Id, other: Id)
    requires other != rid
    ensures Joined(Filter(links, l => NotForRecipe(rid, l)), rows, other) == Joined(links, rows, other)
  {
    if |links| > 0 {
      JoinedFilterOther(links[1..], rows, rid, other);
    }
  }

  /** Growing the vocabulary does not change a join whose targets all exist already. */
  lemma {:induction false} JoinedGrow(links: seq<Link>, rows: seq<Named>, more: seq<Named>, rid: Id)
    requires forall l :: l in links ==> l.targetId in NamedIds(rows)
    ensures Joined(links, rows + more, rid) == Joined(links, rows, rid)
  {
    if |links| > 0 {
      assert forall l :: l in links[1..] ==> l in links;
      JoinedGrow(links[1..], rows, more, rid);
      NameOfPrefix(rows, more, links[0].targetId);
    }
  }

  /** With unique ids and collated names, recipe `rid` already has a join row to
      the row `Named(id, name)` exactly when a listed name collates equal to `name`. */
  lemma {:induction false} JoinedHasName(links: seq<Link>, rows: seq<Named>, rid: Id, id: Id, name: string)
    requires DistinctBy(rows, NamedKey) && DistinctBy(rows, NameKey)
    requires Named(id, name) in rows
    requires forall l :: l in links ==> l.targetId in NamedIds(rows)
    ensures (exists m :: m in links && LinkKey(m) == (rid, id)) <==> Collated(name) in KeysOf(Joined(links, rows, rid))
  {
    if |links| > 0 {
      var l := links[0];
      var tail := links[1..];
      assert forall m :: m in tail ==> m in links;
      JoinedHasName(tail, rows, rid, id, name);
      HasLinkCons(links, rid, id);
      ListedNameCons(links, rows, rid, Collated(name));
      NameOfMatches(rows, l.targetId, id, name);
    }
  }

  /** A list of join rows links `rid` to `id` when its head or its tail does. */
  lemma HasLinkCons(links: seq<Link>, rid: Id, id: Id)
    requires |links| > 0
    ensures (exists m :: m in links && LinkKey(m) == (rid, id)) <==>
      (links[0].recipeId == rid && links[0].targetId == id) || exists m :: m in links[1..] && LinkKey(m) == (rid, id)
  {
    if links[0].recipeId == rid && links[0].targetId == id {
      assert LinkKey(links[0]) == (rid, id);
    }
    if exists m :: m in links[1..] && LinkKey(m) == (rid, id) {
      var m :| m in links[1..] && LinkKey(m) == (rid, id);
      assert m in links;
    }
    if exists m :: m in links && LinkKey(m) == (rid, id) {
      var m :| m in links && LinkKey(m) == (rid, id);
      assert m == links[0] || m in links[1..];
    }
  }

  /** A collated name is listed for `rid` when the head join row contributes it
      or the tail lists it. */
  lemma ListedNameCons(links: seq<Link>, rows: seq<Named>, rid: Id, key: string)
    requires |links| > 0 && links[0].targetId in NamedIds(rows)
    ensures key in KeysOf(Joined(links, rows, rid)) <==>
      (links[0].recipeId == rid && Collated(NameOf(rows, links[0].targetId).value) == key)
      || key in KeysOf(Joined(links[1..], rows, rid))
  {
    var l := links[0];
    var j := Joined(links[1..], rows, rid);
    JoinedCons(links, rows, rid);
    if l.recipeId == rid {
      var n := NameOf(rows, l.targetId);
      var x := Item(n.value, l.quantity);
      assert JoinedHead(l, rows, rid) == [x];
      KeysOfAppend([x], j);
      assert KeysOf([x]) == [Collated(n.value)];
    }
  }

  /** Every listed item carries the name of some vocabulary row. */
  lemma {:induction false} JoinedNamesFrom(links: seq<Link>, rows: seq<Named>, rid: Id)
    ensures forall it :: it in Joined(links, rows, rid) ==> it.name in Names(rows)
  {
    if |links| > 0 {
      JoinedNamesFrom(links[1..], rows, rid);
      var n := NameOf(rows, links[0].targetId);
      if n.Some? {
        assert Named(links[0].targetId, n.value) in rows;
      }
    }
  }

  /** SELECT c.name ... WHERE rc.recipe_id = @id ORDER BY c.name, the order
      being that of the collated names. */
  function GetRecipeCategories(db: Db, rid: Id): (names: seq<string>)
    ensures SortedByName(names, Collated)
    ensures multiset(names) == multiset(NamesOf(Joined(db.recipeCategories, db.categories, rid)))
  {
    SortByName(NamesOf(Joined(db.recipeCategories, db.categories, rid)), Collated)
  }

  /** SELECT i.name, ri.quantity ... WHERE ri.recipe_id = @id ORDER BY i.name */
  function GetRecipeIngredients(db: Db, rid: Id): (items: seq<Item>)
    ensures SortedByName(items, ItemKey)
    ensures multiset(items) == multiset(Joined(db.recipeIngredients, db.ingredients, rid))
  {
    SortByName(Joined(db.recipeIngredients, db.ingredients, rid), ItemKey)
  }

  // ---------------------------------------------------------------------
  // Get-or-create and replacement.
  // ---------------------------------------------------------------------

  /** SELECT id FROM dbo.<vocabulary> WHERE name = @name: the first row whose
      name collates equal to `name`. */
  function FindByName(rows: seq<Named>, name: string): (r: Option<Named>)
    ensures r.None? <==> Collated(name) !in CollatedNames(rows)
    ensures r.Some? ==> r.value in rows && Collated(r.value.name) == Collated(name)
  {
    if |rows| == 0 then None
    else if Collated(rows[0].name) == Collated(name) then Some(rows[0])
    else
      assert forall n :: n in rows[1..] ==> n in rows;
      assert Collated(name) in CollatedNames(rows) ==> Collated(name) in CollatedNames(rows[1..]) by {
        if Collated(name) in CollatedNames(rows) {
          var n :| n in rows && Collated(n.name) == Collated(name);
          assert n != rows[0];
          assert n in rows[1..];
        }
      }
      FindByName(rows[1..], name)
  }

  /** With unique collated names, the row found is the one row whose name
      collates equal to `name`. */
  lemma FindByNameUnique(rows: seq<Named>, n: Named, name: string)
    requires DistinctBy(rows, NameKey) && n in rows && Collated(n.name) == Collated(name)
    ensures FindByName(rows, name) == Some(n)
  {
    assert Collated(name) in CollatedNames(rows);
    DistinctByUnique(rows, NameKey, FindByName(rows, name).value, n);
  }

  /** The search reaches appended rows only when the prefix has no match. */
  lemma {:induction false} FindByNameAppend(rows: seq<Named>, more: seq<Named>, name: string)
    ensures FindByName(rows + more, name) ==
      if FindByName(rows, name).Some? then FindByName(rows, name) else FindByName(more, name)
  {
    if |rows| == 0 {
      assert rows + more == more;
    } else {
      assert (rows + more)[0] == rows[0];
      assert (rows + more)[1..] == rows[1..] + more;
      FindByNameAppend(rows[1..], more, name);
    }
  }

  /** The name the vocabulary keeps for `name`: the stored spelling of the row
      it matches under the collation, or `name` itself when none matches (and
      get-or-create inserts it as given). */
  function Spelling(rows: seq<Named>, name: string): (r: string)
    ensures Collated(r) == Collated(name)
    ensures Collated(name) in CollatedNames(rows) ==> r in Names(rows)
    ensures Collated(name) !in CollatedNames(rows) ==> r == name
  {
    match FindByName(rows, name)
    case Some(n) => n.name
    case None => name
  }

  /** Appending rows that do not match `name` keeps its spelling. */
  lemma SpellingGrow(rows: seq<Named>, more: seq<Named>, name: string)
    requires Collated(name) in CollatedNames(rows) || Collated(name) !in CollatedNames(more)
    ensures Spelling(rows + more, name) == Spelling(rows, name)
  {
    FindByNameAppend(rows, more, name);
  }

  /** The items with each name spelled as the vocabulary `rows` keeps it. */
  function Respell(rows: seq<Named>, items: seq<Item>): (r: seq<Item>)
    ensures |r| == |items|
    ensures forall k :: 0 <= k < |items| ==> r[k] == Item(Spelling(rows, items[k].name), items[k].quantity)
    ensures KeysOf(r) == KeysOf(items)
  {
    seq(|items|, k requires 0 <= k < |items| => Item(Spelling(rows, items[k].name), items[k].quantity))
  }

  lemma RespellCons(rows: seq<Named>, items: seq<Item>)
    requires |items| > 0
    ensures Respell(rows, items) == [Item(Spelling(rows, items[0].name), items[0].quantity)] + Respell(rows, items[1..])
  {
  }

  /** Appending rows none of the items matches keeps every item's spelling. */
  lemma RespellGrow(rows: seq<Named>, more: seq<Named>, items: seq<Item>)
    requires forall n :: n in more ==> Collated(n.name) !in KeysOf(items)
    ensures Respell(rows + more, items) == Respell(rows, items)
  {
    forall k | 0 <= k < |items|
      ensures Spelling(rows + more, items[k].name) == Spelling(rows, items[k].name)
    {
      assert KeysOf(items)[k] == Collated(items[k].name);
      SpellingGrow(rows, more, items[k].name);
    }
  }

  /** Items none of which matches a stored row keep their own spelling. */
  lemma RespellFresh(rows: seq<Named>, items: seq<Item>)
    requires forall k :: 0 <= k < |items| ==> Collated(items[k].name) !in CollatedNames(rows)
    ensures Respell(rows, items) == items
  {
  }

  /** The id of the vocabulary row whose name collates equal to `name`,
      inserting a row with a fresh id and the name as given when none exists.
      An existing row is reused and the vocabulary only grows. */
  function GetOrCreate(db: Db, a: Assoc, name: string): (r: Run<Db, Id>)
    ensures r.Returned?
    ensures OnlyAssocChanged(db, r.state, a) && LinkRows(r.state, a) == LinkRows(db, a)
    ensures NamedRows(db, a) <= NamedRows(r.state, a)
    ensures Collated(name) in CollatedNames(NamedRows(db, a)) ==> r.state == db
    ensures Collated(name) !in CollatedNames(NamedRows(db, a)) ==>
      NamedRows(r.state, a) == NamedRows(db, a) + [Named(r.value, name)]
    ensures Named(r.value, Spelling(NamedRows(db, a), name)) in NamedRows(r.state, a)
  {
    match FindByName(NamedRows(db, a), name)
    case Some(n) => Returned(db, n.id)
    case None =>
      var id := FreshId(AllIds(db));
      assert id !in NamedIds(NamedRows(db, a));
      var ins := InsertNamed(db, a, Named(id, name));
      Returned(ins.state, id)
  }

  lemma GetOrCreateValid(db: Db, a: Assoc, name: string)
    requires Valid(db)
    ensures Valid(GetOrCreate(db, a, name).state)
  {
    if FindByName(NamedRows(db, a), name).None? {
      var id := FreshId(AllIds(db));
      InsertNamedValid(db, a, Named(id, name));
    }
  }

  /** One iteration of the replacement loop: get-or-create the item's vocabulary
      row, then insert the recipe's join row to it; the value is the row's id. */
  function LinkOne(db: Db, a: Assoc, rid: Id, x: Item): (r: Run<Db, Id>)
    requires a.Categories? ==> x.quantity.None?
    ensures r.Returned? ==> OnlyAssocChanged(db, r.state, a)
    ensures r.Returned? ==> NamedRows(db, a) <= NamedRows(r.state, a)
    ensures r.Returned? ==> LinkRows(r.state, a) == LinkRows(db, a) + [Link(rid, r.value, x.quantity)]
    ensures r.Returned? ==> Named(r.value, Spelling(NamedRows(db, a), x.name)) in NamedRows(r.state, a)
    ensures r.Returned? && Collated(x.name) in CollatedNames(NamedRows(db, a)) ==>
      NamedRows(r.state, a) == NamedRows(db, a)
    ensures r.Returned? && Collated(x.name) !in CollatedNames(NamedRows(db, a)) ==>
      NamedRows(r.state, a) == NamedRows(db, a) + [Named(r.value, x.name)]
  {
    var g := GetOrCreate(db, a, x.name);
    var ins := InsertLink(g.state, a, Link(rid, g.value, x.quantity));
    if ins.Threw? then Threw(ins.error) else Returned(ins.state, g.value)
  }

  lemma LinkOneValid(db: Db, a: Assoc, rid: Id, x: Item)
    requires a.Categories? ==> x.quantity.None?
    requires Valid(db) && LinkOne(db, a, rid, x).Returned?
    ensures Valid(LinkOne(db, a, rid, x).state)
    ensures RecipeIds(LinkOne(db, a, rid, x).state) == RecipeIds(db)
  {
    var g := GetOrCreate(db, a, x.name);
    GetOrCreateValid(db, a, x.name);
    InsertLinkValid(g.state, a, Link(rid, g.value, x.quantity));
  }

  /** Get-or-create keeps the recipe's list, and the recipe already has a join
      row to the returned vocabulary row exactly when a listed name collates
      equal to `name`. */
  lemma GetOrCreateJoined(db: Db, a: Assoc, rid: Id, name: string)
    requires Valid(db)
    ensures var g := GetOrCreate(db, a, name);
      && Valid(g.state) && RecipeIds(g.state) == RecipeIds(db)
      && Joined(LinkRows(g.state, a), NamedRows(g.state, a), rid) == Joined(LinkRows(db, a), NamedRows(db, a), rid)
      && ((exists m :: m in LinkRows(g.state, a) && LinkKey(m) == (rid, g.value)) <==>
          Collated(name) in KeysOf(Joined(LinkRows(db, a), NamedRows(db, a), rid)))
  {
    var g := GetOrCreate(db, a, name);
    GetOrCreateValid(db, a, name);
    var rows1 := NamedRows(g.state, a);
    var more := rows1[|NamedRows(db, a)|..];
    assert rows1 == NamedRows(db, a) + more;
    assert AssocValid(db, a);
    JoinedGrow(LinkRows(db, a), NamedRows(db, a), more, rid);
    assert AssocValid(g.state, a);
    JoinedHasName(LinkRows(g.state, a), rows1, rid, g.value, Spelling(NamedRows(db, a), name));
    assert RecipeIds(g.state) == RecipeIds(db) by {
      assert Frame(g.state, a).recipes == Frame(db, a).recipes;
    }
  }

  /** On a valid database and an existing recipe, one iteration succeeds exactly
      when no listed name of the recipe collates equal to the item's, and then
      appends the item, spelled as the vocabulary keeps it, to the recipe's list;
      otherwise it fails on the join table's unique index. */
  lemma LinkOneSpec(db: Db, a: Assoc, rid: Id, x: Item)
    requires a.Categories? ==> x.quantity.None?
    requires Valid(db) && rid in RecipeIds(db)
    ensures LinkOne(db, a, rid, x).Returned? <==> Collated(x.name) !in KeysOf(Joined(LinkRows(db, a), NamedRows(db, a), rid))
    ensures LinkOne(db, a, rid, x).Threw? ==> LinkOne(db, a, rid, x).error == SqlError(UniqueViolation(a.LinkIndex()))
    ensures var r := LinkOne(db, a, rid, x);
      r.Returned? ==>
        Joined(LinkRows(r.state, a), NamedRows(r.state, a), rid)
          == Joined(LinkRows(db, a), NamedRows(db, a), rid) + [Item(Spelling(NamedRows(db, a), x.name), x.quantity)]
  {
    var g := GetOrCreate(db, a, x.name);
    GetOrCreateJoined(db, a, rid, x.name);
    LinkOneAfter(g.state, a, rid, g.value, Item(Spelling(NamedRows(db, a), x.name), x.quantity));
  }

  /** The join-row insert of one iteration, after get-or-create returned `id`. */
  lemma LinkOneAfter(db: Db, a: Assoc, rid: Id, id: Id, x: Item)
    requires Valid(db) && rid in RecipeIds(db)
    requires Named(id, x.name) in NamedRows(db, a)
    ensures var ins := InsertLink(db, a, Link(rid, id, x.quantity));
      && (ins.Returned? <==> !exists m :: m in LinkRows(db, a) && LinkKey(m) == (rid, id))
      && (ins.Threw? ==> ins.error == SqlError(UniqueViolation(a.LinkIndex())))
      && (ins.Returned? ==>
            Joined(LinkRows(ins.state, a), NamedRows(ins.state, a), rid) == Joined(LinkRows(db, a), NamedRows(db, a), rid) + [x])
  {
    var rows := NamedRows(db, a);
    var l := Link(rid, id, x.quantity);
    var ins := InsertLink(db, a, l);
    assert id in NamedIds(rows);
    if ins.Returned? {
      assert NamedRows(ins.state, a) == rows;
      JoinedAppend(LinkRows(db, a), [l], rows, rid);
      assert AssocValid(db, a);
      NameOfUnique(rows, id, x.name);
      assert Joined([l], rows, rid) == [x];
    }
  }

  /** The join rows LinkAll appends: one per item, to the vocabulary row `ids[k]`. */
  function LinksFor(rid: Id, ids: seq<Id>, items: seq<Item>): (links: seq<Link>)
    requires |ids| == |items|
    ensures |links| == |items|
    ensures forall k :: 0 <= k < |links| ==> links[k] == Link(rid, ids[k], items[k].quantity)
  {
    if |items| == 0 then []
    else [Link(rid, ids[0], items[0].quantity)] + LinksFor(rid, ids[1..], items[1..])
  }

  /** Inserting join rows for `items`, one after another (the loop of
      replaceRecipeCategories / replaceRecipeIngredients); the value lists the
      vocabulary row linked for each item. */
  function LinkAll(db: Db, a: Assoc, rid: Id, items: seq<Item>): (r: Run<Db, seq<Id>>)
    requires a.Categories? ==> forall k :: 0 <= k < |items| ==> items[k].quantity.None?
    ensures r.Returned? ==> |r.value| == |items|
    decreases |items|
  {
    if |items| == 0 then Returned(db, [])
    else
      var one := LinkOne(db, a, rid, items[0]);
      if one.Threw? then Threw(one.error)
      else
        var rest := LinkAll(one.state, a, rid, items[1..]);
        if rest.Threw? then Threw(rest.error) else Returned(rest.state, [one.value] + rest.value)
  }

  /** LinkAll touches only the vocabulary and join table of `a`, and the
      vocabulary only grows. */
  lemma {:induction false} LinkAllFrame(db: Db, a: Assoc, rid: Id, items: seq<Item>)
    requires a.Categories? ==> forall k :: 0 <= k < |items| ==> items[k].quantity.None?
    requires LinkAll(db, a, rid, items).Returned?
    ensures OnlyAssocChanged(db, LinkAll(db, a, rid, items).state, a)
    ensures NamedRows(db, a) <= NamedRows(LinkAll(db, a, rid, items).state, a)
    decreases |items|
  {
    if |items| > 0 {
      var one := LinkOne(db, a, rid, items[0]);
      var rest := LinkAll(one.state, a, rid, items[1..]);
      LinkAllFrame(one.state, a, rid, items[1..]);
      assert LinkAll(db, a, rid, items).state == rest.state;
      PrefixTransitive(NamedRows(db, a), NamedRows(one.state, a), NamedRows(rest.state, a));
    }
  }

  /** The join table gains exactly one row per item, all for recipe `rid`. */
  lemma {:induction false} LinkAllLinks(db: Db, a: Assoc, rid: Id, items: seq<Item>)
    requires a.Categories? ==> forall k :: 0 <= k < |items| ==> items[k].quantity.None?
    requires LinkAll(db, a, rid, items).Returned?
    ensures var r := LinkAll(db, a, rid, items);
      LinkRows(r.state, a) == LinkRows(db, a) + LinksFor(rid, r.value, items)
    decreases |items|
  {
    if |items| > 0 {
      var one := LinkOne(db, a, rid, items[0]);
      var rest := LinkAll(one.state, a, rid, items[1..]);
      LinkAllLinks(one.state, a, rid, items[1..]);
      var ids := [one.value] + rest.value;
      assert LinkAll(db, a, rid, items) == Returned(rest.state, ids);
      var l := Link(rid, one.value, items[0].quantity);
      LinksForCons(rid, one.value, rest.value, items);
      ConcatAssoc(LinkRows(db, a), [l], LinksFor(rid, rest.value, items[1..]));
    }
  }

  lemma LinksForRecipe(rid: Id, ids: seq<Id>, items: seq<Item>)
    requires |ids| == |items|
    ensures forall l :: l in LinksFor(rid, ids, items) ==> l.recipeId == rid
  {
    var links := LinksFor(rid, ids, items);
    forall l | l in links ensures l.recipeId == rid {
      var k :| 0 <= k < |links| && links[k] == l;
    }
  }

  lemma LinksForCons(rid: Id, id: Id, ids: seq<Id>, items: seq<Item>)
    requires |items| == |ids| + 1
    ensures LinksFor(rid, [id] + ids, items) == [Link(rid, id, items[0].quantity)] + LinksFor(rid, ids, items[1..])
  {
    assert ([id] + ids)[1..] == ids;
  }

  lemma {:induction false} LinkAllValid(db: Db, a: Assoc, rid: Id, items: seq<Item>)
    requires a.Categories? ==> forall k :: 0 <= k < |items| ==> items[k].quantity.None?
    requires Valid(db) && LinkAll(db, a, rid, items).Returned?
    ensures Valid(LinkAll(db, a, rid, items).state)
    ensures RecipeIds(LinkAll(db, a, rid, items).state) == RecipeIds(db)
    decreases |items|
  {
    if |items| > 0 {
      LinkOneValid(db, a, rid, items[0]);
      LinkAllValid(LinkOne(db, a, rid, items[0]).state, a, rid, items[1..]);
    }
  }

  /** What LinkAll does to the listed items and when it fails: on a valid
      database and an existing recipe it succeeds exactly when the collated item
      names are distinct and none is listed for the recipe yet, appends the
      items, spelled as the vocabulary keeps them, to the recipe's list, and
      otherwise fails on the join table's unique index. */
  lemma LinkAllSpec(db: Db, a: Assoc, rid: Id, items: seq<Item>)
    requires a.Categories? ==> forall k :: 0 <= k < |items| ==> items[k].quantity.None?
    requires Valid(db) && rid in RecipeIds(db)
    ensures LinkAll(db, a, rid, items).Returned? <==>
      && DistinctBy(items, ItemKey)
      && forall k :: 0 <= k < |items| ==> Collated(items[k].name) !in KeysOf(Joined(LinkRows(db, a), NamedRows(db, a), rid))
    ensures LinkAll(db, a, rid, items).Threw? ==> LinkAll(db, a, rid, items).error == SqlError(UniqueViolation(a.LinkIndex()))
    ensures var r := LinkAll(db, a, rid, items);
      r.Returned? ==>
        Joined(LinkRows(r.state, a), NamedRows(r.state, a), rid)
          == Joined(LinkRows(db, a), NamedRows(db, a), rid) + Respell(NamedRows(db, a), items)
  {
    LinkAllSucceeds(db, a, rid, items);
    LinkAllError(db, a, rid, items);
    LinkAllJoined(db, a, rid, items);
  }

  lemma {:induction false} LinkAllSucceeds(db: Db, a: Assoc, rid: Id, items: seq<Item>)
    requires a.Categories? ==> forall k :: 0 <= k < |items| ==> items[k].quantity.None?
    requires Valid(db) && rid in RecipeIds(db)
    ensures LinkAll(db, a, rid, items).Returned? <==> NewNames(items, Joined(LinkRows(db, a), NamedRows(db, a), rid))
    decreases |items|
  {
    if |items| > 0 {
      var one := LinkOne(db, a, rid, items[0]);
      if one.Returned? {
        LinkOneValid(db, a, rid, items[0]);
        LinkAllSucceeds(one.state, a, rid, items[1..]);
      }
      LinkAllSucceedsStep(db, a, rid, items);
    }
  }

  /** The success condition of LinkAll for a non-empty list, given it for the
      rest of the list after a first link that returned. */
  lemma LinkAllSucceedsStep(db: Db, a: Assoc, rid: Id, items: seq<Item>)
    requires a.Categories? ==> forall k :: 0 <= k < |items| ==> items[k].quantity.None?
    requires Valid(db) && rid in RecipeIds(db) && |items| > 0
    requires var one := LinkOne(db, a, rid, items[0]);
      one.Returned? ==>
        (LinkAll(one.state, a, rid, items[1..]).Returned? <==>
          NewNames(items[1..], Joined(LinkRows(one.state, a), NamedRows(one.state, a), rid)))
    ensures LinkAll(db, a, rid, items).Returned? <==> NewNames(items, Joined(LinkRows(db, a), NamedRows(db, a), rid))
  {
    LinkOneSpec(db, a, rid, items[0]);
    LinkAllStep(db, a, rid, items);
    DistinctItemsCons(items, Joined(LinkRows(db, a), NamedRows(db, a), rid),
      Item(Spelling(NamedRows(db, a), items[0].name), items[0].quantity));
  }

  lemma {:induction false} LinkAllError(db: Db, a: Assoc, rid: Id, items: seq<Item>)
    requires a.Categories? ==> forall k :: 0 <= k < |items| ==> items[k].quantity.None?
    requires Valid(db) && rid in RecipeIds(db)
    ensures LinkAll(db, a, rid, items).Threw? ==> LinkAll(db, a, rid, items).error == SqlError(UniqueViolation(a.LinkIndex()))
    decreases |items|
  {
    if |items| > 0 {
      LinkOneSpec(db, a, rid, items[0]);
      LinkAllStep(db, a, rid, items);
      var one := LinkOne(db, a, rid, items[0]);
      if one.Returned? {
        LinkOneValid(db, a, rid, items[0]);
        LinkAllError(one.state, a, rid, items[1..]);
      }
    }
  }

  lemma {:induction false} LinkAllJoined(db: Db, a: Assoc, rid: Id, items: seq<Item>)
    requires a.Categories? ==> forall k :: 0 <= k < |items| ==> items[k].quantity.None?
    requires Valid(db) && rid in RecipeIds(db)
    ensures var r := LinkAll(db, a, rid, items);
      r.Returned? ==>
        Joined(LinkRows(r.state, a), NamedRows(r.state, a), rid)
          == Joined(LinkRows(db, a), NamedRows(db, a), rid) + Respell(NamedRows(db, a), items)
    decreases |items|
  {
    if |items| > 0 {
      LinkOneSpec(db, a, rid, items[0]);
      if LinkOne(db, a, rid, items[0]).Returned? {
        LinkOneValid(db, a, rid, items[0]);
        LinkAllJoined(LinkOne(db, a, rid, items[0]).state, a, rid, items[1..]);
        LinkAllSucceeds(db, a, rid, items);
        LinkAllJoinedStep(db, a, rid, items);
      } else {
        LinkAllStep(db, a, rid, items);
      }
    } else {
      assert Respell(NamedRows(db, a), items) == [];
    }
  }

  /** The step of LinkAllJoined: the first item's join row, then the rest's,
      whose spellings the first item's row cannot change since the collated
      names are distinct. */
  lemma LinkAllJoinedStep(db: Db, a: Assoc, rid: Id, items: seq<Item>)
    requires a.Categories? ==> forall k :: 0 <= k < |items| ==> items[k].quantity.None?
    requires |items| > 0
    requires var one := LinkOne(db, a, rid, items[0]);
      && one.Returned?
      && Joined(LinkRows(one.state, a), NamedRows(one.state, a), rid)
           == Joined(LinkRows(db, a), NamedRows(db, a), rid) + [Item(Spelling(NamedRows(db, a), items[0].name), items[0].quantity)]
      && var rest := LinkAll(one.state, a, rid, items[1..]);
         rest.Returned? ==>
           Joined(LinkRows(rest.state, a), NamedRows(rest.state, a), rid)
             == Joined(LinkRows(one.state, a), NamedRows(one.state, a), rid) + Respell(NamedRows(one.state, a), items[1..])
    requires LinkAll(db, a, rid, items).Returned? ==> NewNames(items, Joined(LinkRows(db, a), NamedRows(db, a), rid))
    ensures var r := LinkAll(db, a, rid, items);
      r.Returned? ==>
        Joined(LinkRows(r.state, a), NamedRows(r.state, a), rid)
          == Joined(LinkRows(db, a), NamedRows(db, a), rid) + Respell(NamedRows(db, a), items)
  {
    LinkAllStep(db, a, rid, items);
    if LinkAll(db, a, rid, items).Returned? {
      var one := LinkOne(db, a, rid, items[0]);
      var rows := NamedRows(db, a);
      var tail := items[1..];
      var more := NamedRows(one.state, a)[|rows|..];
      PrefixSplit(rows, NamedRows(one.state, a));
      assert Collated(items[0].name) !in KeysOf(tail) by {
        forall k | 0 <= k < |tail| ensures KeysOf(tail)[k] != Collated(items[0].name) {
          assert tail[k] == items[k + 1];
          assert ItemKey(items[0]) != ItemKey(items[k + 1]);
        }
      }
      assert forall n :: n in more ==> n.name == items[0].name by {
        if Collated(items[0].name) in CollatedNames(rows) {
          assert more == [];
        } else {
          assert more == [Named(one.value, items[0].name)];
        }
      }
      RespellGrow(rows, more, tail);
      RespellCons(rows, items);
      ConcatAssoc(Joined(LinkRows(db, a), rows, rid),
        [Item(Spelling(rows, items[0].name), items[0].quantity)], Respell(rows, tail));
    }
  }

  /** LinkAll unfolded by one item: the first LinkOne's failure is LinkAll's,
      and otherwise LinkAll ends as the run on the remaining items does. */
  lemma LinkAllStep(db: Db, a: Assoc, rid: Id, items: seq<Item>)
    requires a.Categories? ==> forall k :: 0 <= k < |items| ==> items[k].quantity.None?
    requires |items| > 0
    ensures var one := LinkOne(db, a, rid, items[0]);
      one.Threw? ==> LinkAll(db, a, rid, items) == Threw(one.error)
    ensures var one := LinkOne(db, a, rid, items[0]);
      one.Returned? ==>
        var rest := LinkAll(one.state, a, rid, items[1..]);
        && LinkAll(db, a, rid, items).Returned? == rest.Returned?
        && (rest.Threw? ==> LinkAll(db, a, rid, items).error == rest.error)
        && (rest.Returned? ==> LinkAll(db, a, rid, items).state == rest.state)
  {
  }

  /** The collated item names are distinct and none is among those of `before`. */
  predicate NewNames(items: seq<Item>, before: seq<Item>) {
    && DistinctBy(items, ItemKey)
    && forall k :: 0 <= k < |items| ==> Collated(items[k].name) !in KeysOf(before)
  }

  /** The success condition of LinkAll, unfolded by one item; `head` is the first
      item as the list shows it, under any spelling that collates the same. */
  lemma DistinctItemsCons(items: seq<Item>, before: seq<Item>, head: Item)
    requires |items| > 0 && Collated(head.name) == Collated(items[0].name)
    ensures NewNames(items, before) <==>
      Collated(items[0].name) !in KeysOf(before) && NewNames(items[1..], before + [head])
  {
    var tail := items[1..];
    var keys := KeysOf(before);
    var key := Collated(items[0].name);
    KeysOfAppend(before, [head]);
    assert KeysOf(before + [head]) == keys + [key];
    if NewNames(items, before) {
      forall i, j | 0 <= i < j < |tail| ensures ItemKey(tail[i]) != ItemKey(tail[j]) {
        assert tail[i] == items[i + 1] && tail[j] == items[j + 1];
      }
      forall k | 0 <= k < |tail| ensures Collated(tail[k].name) !in keys + [key] {
        assert tail[k] == items[k + 1];
        assert ItemKey(items[0]) != ItemKey(items[k + 1]);
      }
    }
    if key !in keys && NewNames(tail, before + [head]) {
      forall i, j | 0 <= i < j < |items| ensures ItemKey(items[i]) != ItemKey(items[j]) {
        assert items[j] == tail[j - 1];
        if i > 0 {
          assert items[i] == tail[i - 1];
        } else {
          assert Collated(tail[j - 1].name) !in keys + [key];
        }
      }
      forall k | 0 <= k < |items| ensures Collated(items[k].name) !in keys {
        if k > 0 {
          assert items[k] == tail[k - 1];
          assert Collated(tail[k - 1].name) !in keys + [key];
        }
      }
    }
  }

  /** Full replacement of a recipe's list: delete its join rows, then link the items. */
  function Replace(db: Db, a: Assoc, rid: Id, items: seq<Item>): (r: Run<Db, seq<Id>>)
    requires a.Categories? ==> forall k :: 0 <= k < |items| ==> items[k].quantity.None?
    ensures r.Returned? ==> OnlyAssocChanged(db, r.state, a)
    ensures r.Returned? ==> NamedRows(db, a) <= NamedRows(r.state, a)
  {
    var r := LinkAll(DeleteLinksOf(db, a, rid), a, rid, items);
    if r.Returned? then
      LinkAllFrame(DeleteLinksOf(db, a, rid), a, rid, items);
      r
    else r
  }

  lemma ReplaceValid(db: Db, a: Assoc, rid: Id, items: seq<Item>)
    requires a.Categories? ==> forall k :: 0 <= k < |items| ==> items[k].quantity.None?
    requires Valid(db) && Replace(db, a, rid, items).Returned?
    ensures Valid(Replace(db, a, rid, items).state)
    ensures RecipeIds(Replace(db, a, rid, items).state) == RecipeIds(db)
  {
    DeleteLinksOfValid(db, a, rid);
    LinkAllValid(DeleteLinksOf(db, a, rid), a, rid, items);
  }

  /** Replacement on a valid database and an existing recipe: it succeeds exactly
      when the collated item names are distinct, the recipe's list is then
      exactly the items, each spelled as the vocabulary kept it before, and two
      names that collate equal fail on the join table's unique index
      (ReplaceOthers states that the other recipes' lists are untouched). */
  lemma ReplaceSpec(db: Db, a: Assoc, rid: Id, items: seq<Item>)
    requires a.Categories? ==> forall k :: 0 <= k < |items| ==> items[k].quantity.None?
    requires Valid(db) && rid in RecipeIds(db)
    ensures Replace(db, a, rid, items).Returned? <==> DistinctBy(items, ItemKey)
    ensures Replace(db, a, rid, items).Threw? ==> Replace(db, a, rid, items).error == SqlError(UniqueViolation(a.LinkIndex()))
    ensures var r := Replace(db, a, rid, items);
      r.Returned? ==> Joined(LinkRows(r.state, a), NamedRows(r.state, a), rid) == Respell(NamedRows(db, a), items)
  {
    var db1 := DeleteLinksOf(db, a, rid);
    ReplaceStart(db, a, rid);
    LinkAllSpec(db1, a, rid, items);
    assert Replace(db, a, rid, items) == LinkAll(db1, a, rid, items);
    assert KeysOf([]) == [];
    assert [] + Respell(NamedRows(db, a), items) == Respell(NamedRows(db, a), items);
  }

  /** Two entries that differ only in letter case cannot both be linked. */
  lemma ReplaceCaseDuplicate(db: Db, a: Assoc, rid: Id)
    requires Valid(db) && rid in RecipeIds(db)
    ensures Replace(db, a, rid, [Item("Salt", None), Item("salt", None)])
      == Threw(SqlError(UniqueViolation(a.LinkIndex())))
  {
    var items := [Item("Salt", None), Item("salt", None)];
    CollatedExamples();
    assert ItemKey(items[0]) == ItemKey(items[1]);
    ReplaceSpec(db, a, rid, items);
  }

  /** A name that matches a stored row under the collation reuses that row:
      the recipe lists the stored spelling and the vocabulary does not grow. */
  lemma ReplaceReusesSpelling(db: Db, rid: Id, n: Named, name: string)
    requires Valid(db) && rid in RecipeIds(db) && n in db.categories && Collated(n.name) == Collated(name)
    ensures var r := Replace(db, Categories, rid, [Item(name, None)]);
      && r.Returned?
      && Joined(r.state.recipeCategories, r.state.categories, rid) == [Item(n.name, None)]
      && r.state.categories == db.categories
  {
    StoredCategorySpelling(db, n, name);
    ReplaceOneCategory(db, rid, name);
    ReplaceRows(db, Categories, rid, [Item(name, None)]);
  }

  /** Replacing a recipe's categories by one name succeeds and lists that
      name as the vocabulary spells it. */
  lemma ReplaceOneCategory(db: Db, rid: Id, name: string)
    requires Valid(db) && rid in RecipeIds(db)
    ensures var r := Replace(db, Categories, rid, [Item(name, None)]);
      && r.Returned?
      && Joined(r.state.recipeCategories, r.state.categories, rid) == [Item(Spelling(db.categories, name), None)]
  {
    var items := [Item(name, None)];
    assert DistinctBy(items, ItemKey);
    ReplaceSpec(db, Categories, rid, items);
    assert Respell(db.categories, items) == [Item(Spelling(db.categories, name), None)];
  }

  /** StoredSpelling for the category vocabulary of a valid database. */
  lemma StoredCategorySpelling(db: Db, n: Named, name: string)
    requires Valid(db) && n in db.categories && Collated(n.name) == Collated(name)
    ensures Spelling(db.categories, name) == n.name
    ensures Collated(name) in CollatedNames(db.categories)
  {
    assert AssocValid(db, Categories);
    StoredSpelling(db.categories, n, name);
  }

  /** With a stored category "Dessert", linking "dessert" lists "Dessert". */
  lemma ReplaceDessert(db: Db, rid: Id, id: Id)
    requires Valid(db) && rid in RecipeIds(db) && Named(id, "Dessert") in db.categories
    ensures var r := Replace(db, Categories, rid, [Item("dessert", None)]);
      r.Returned? && Joined(r.state.recipeCategories, r.state.categories, rid) == [Item("Dessert", None)]
  {
    CollatedExamples();
    ReplaceReusesSpelling(db, rid, Named(id, "Dessert"), "dessert");
  }

  /** The spelling of a name that collates equal to a stored name is the stored one. */
  lemma StoredSpelling(rows: seq<Named>, n: Named, name: string)
    requires DistinctBy(rows, NameKey) && n in rows && Collated(n.name) == Collated(name)
    ensures Spelling(rows, name) == n.name
    ensures Collated(name) in CollatedNames(rows)
  {
    FindByNameUnique(rows, n, name);
  }

  /** Replacement grows the vocabulary only by the items no stored row matches. */
  lemma ReplaceRows(db: Db, a: Assoc, rid: Id, items: seq<Item>)
    requires a.Categories? ==> forall k :: 0 <= k < |items| ==> items[k].quantity.None?
    requires Replace(db, a, rid, items).Returned?
    requires forall k :: 0 <= k < |items| ==> Collated(items[k].name) in CollatedNames(NamedRows(db, a))
    ensures NamedRows(Replace(db, a, rid, items).state, a) == NamedRows(db, a)
  {
    LinkAllRows(DeleteLinksOf(db, a, rid), a, rid, items);
  }

  /** LinkAll adds no vocabulary row when every item matches a stored one. */
  lemma {:induction false} LinkAllRows(db: Db, a: Assoc, rid: Id, items: seq<Item>)
    requires a.Categories? ==> forall k :: 0 <= k < |items| ==> items[k].quantity.None?
    requires LinkAll(db, a, rid, items).Returned?
    requires forall k :: 0 <= k < |items| ==> Collated(items[k].name) in CollatedNames(NamedRows(db, a))
    ensures NamedRows(LinkAll(db, a, rid, items).state, a) == NamedRows(db, a)
    decreases |items|
  {
    if |items| > 0 {
      var one := LinkOne(db, a, rid, items[0]);
      LinkAllStep(db, a, rid, items);
      assert NamedRows(one.state, a) == NamedRows(db, a);
      LinkAllRows(one.state, a, rid, items[1..]);
    }
  }

  /** After the DELETE, the database is still valid, the recipe still exists and
      its list is empty. */
  lemma ReplaceStart(db: Db, a: Assoc, rid: Id)
    requires Valid(db) && rid in RecipeIds(db)
    ensures var db1 := DeleteLinksOf(db, a, rid);
      && Valid(db1) && rid in RecipeIds(db1)
      && Joined(LinkRows(db1, a), NamedRows(db1, a), rid) == []
      && NamedRows(db1, a) == NamedRows(db, a)
  {
    var db1 := DeleteLinksOf(db, a, rid);
    DeleteLinksOfValid(db, a, rid);
    assert RecipeIds(db1) == RecipeIds(db);
    JoinedNone(LinkRows(db1, a), NamedRows(db1, a), rid);
  }

  /** Replacing one recipe's list leaves every other recipe's list as it was. */
  lemma ReplaceOthers(db: Db, a: Assoc, rid: Id, items: seq<Item>)
    requires a.Categories? ==> forall k :: 0 <= k < |items| ==> items[k].quantity.None?
    requires Valid(db) && Replace(db, a, rid, items).Returned?
    ensures var r := Replace(db, a, rid, items);
      forall other :: other != rid ==>
        Joined(LinkRows(r.state, a), NamedRows(r.state, a), other) == Joined(LinkRows(db, a), NamedRows(db, a), other)
  {
    var r := Replace(db, a, rid, items);
    forall other | other != rid
      ensures Joined(LinkRows(r.state, a), NamedRows(r.state, a), other) == Joined(LinkRows(db, a), NamedRows(db, a), other)
    {
      ReplaceOther(db, a, rid, items, other);
    }
  }

  lemma ReplaceOther(db: Db, a: Assoc, rid: Id, items: seq<Item>, other: Id)
    requires a.Categories? ==> forall k :: 0 <= k < |items| ==> items[k].quantity.None?
    requires Valid(db) && other != rid
    requires Replace(db, a, rid, items).Returned?
    ensures var r := Replace(db, a, rid, items);
      Joined(LinkRows(r.state, a), NamedRows(r.state, a), other) == Joined(LinkRows(db, a), NamedRows(db, a), other)
  {
    var db1 := DeleteLinksOf(db, a, rid);
    var r := LinkAll(db1, a, rid, items);
    var kept := LinkRows(db1, a);
    var added := LinksFor(rid, r.value, items);
    var rows := NamedRows(db, a);
    var rows' := NamedRows(r.state, a);
    assert NamedRows(db1, a) == rows;
    assert LinkRows(r.state, a) == kept + added && rows <= rows' by {
      LinkAllLinks(db1, a, rid, items);
      LinkAllFrame(db1, a, rid, items);
    }
    assert forall l :: l in kept ==> l.targetId in NamedIds(rows) by {
      assert AssocValid(db, a);
    }
    assert Joined(added, rows', other) == [] by {
      LinksForRecipe(rid, r.value, items);
      JoinedNone(added, rows', other);
    }
    JoinedAppend(kept, added, rows', other);
    PrefixSplit(rows, rows');
    JoinedGrow(kept, rows, rows'[|rows|..], other);
    JoinedFilterOther(LinkRows(db, a), rows, rid, other);
  }

  // ---------------------------------------------------------------------
  // Normalising the input lists.
  // ---------------------------------------------------------------------

  /** An entry with its name trimmed (`name.trim()`). */
  function TrimItem(it: Item): Item {
    Item(Trim(it.name), it.quantity)
  }

  /** The `if (!name) continue` test: an entry whose trimmed name is empty is skipped. */
  predicate Named'(it: Item) {
    it.name != ""
  }

  function TrimAll(entries: seq<Item>): (trimmed: seq<Item>)
    ensures |trimmed| == |entries|
    ensures forall k :: 0 <= k < |entries| ==> trimmed[k] == TrimItem(entries[k])
  {
    seq(|entries|, k requires 0 <= k < |entries| => TrimItem(entries[k]))
  }

  /** The entries the replacement loop links, in input order: every entry with
      its name trimmed, except those whose trimmed name is empty. */
  function Normalize(entries: seq<Item>): (items: seq<Item>)
    ensures forall it :: it in items <==> it.name != "" && exists k :: 0 <= k < |entries| && TrimItem(entries[k]) == it
  {
    var trimmed := TrimAll(entries);
    assert forall it :: it in trimmed <==> exists k :: 0 <= k < |entries| && TrimItem(entries[k]) == it by {
      forall it | it in trimmed ensures exists k :: 0 <= k < |entries| && TrimItem(entries[k]) == it {
        var k :| 0 <= k < |trimmed| && trimmed[k] == it;
        assert TrimItem(entries[k]) == it;
      }
      forall k | 0 <= k < |entries| ensures TrimItem(entries[k]) in trimmed {
        assert trimmed[k] == TrimItem(entries[k]);
      }
    }
    Filter(trimmed, Named')
  }

  /** Two entries whose names trim to non-empty names that collate equal. */
  predicate HasTrimmedDuplicate(entries: seq<Item>) {
    exists i, j :: 0 <= i < j < |entries| && Trim(entries[i].name) != "" && Trim(entries[j].name) != ""
      && Collated(Trim(entries[i].name)) == Collated(Trim(entries[j].name))
  }

  /** The normalised names collate distinct exactly when no two entries trim to
      non-empty names that collate equal. */
  lemma NormalizeDistinct(entries: seq<Item>)
    ensures DistinctBy(Normalize(entries), ItemKey) <==> !HasTrimmedDuplicate(entries)
  {
    var trimmed := TrimAll(entries);
    DistinctByFilterIff(trimmed, ItemKey, Named');
    if HasTrimmedDuplicate(entries) {
      var i, j :| 0 <= i < j < |entries| && Trim(entries[i].name) != "" && Trim(entries[j].name) != ""
        && Collated(Trim(entries[i].name)) == Collated(Trim(entries[j].name));
      assert trimmed[i].name == Trim(entries[i].name) && trimmed[j].name == Trim(entries[j].name);
      assert ItemKey(trimmed[i]) == ItemKey(trimmed[j]);
    } else {
      forall i, j | 0 <= i < j < |trimmed| && Named'(trimmed[i]) && Named'(trimmed[j])
        ensures ItemKey(trimmed[i]) != ItemKey(trimmed[j])
      {
        assert trimmed[i].name == Trim(entries[i].name) && trimmed[j].name == Trim(entries[j].name);
      }
    }
  }

  /** `categories.map((item) => item.trim()).filter(Boolean)`, as entries without a quantity. */
  function CategoryItems(categories: seq<string>): (items: seq<Item>)
    ensures forall k :: 0 <= k < |items| ==> items[k].quantity.None? && items[k].name != ""
    ensures forall n :: Item(n, None) in items <==> n != "" && exists c :: c in categories && Trim(c) == n
  {
    var entries := CategoryEntries(categories);
    var items := Normalize(entries);
    assert forall k :: 0 <= k < |items| ==> items[k] in items;
    forall n ensures Item(n, None) in items <==> n != "" && exists c :: c in categories && Trim(c) == n {
      if Item(n, None) in items {
        var k :| 0 <= k < |entries| && TrimItem(entries[k]) == Item(n, None);
        assert categories[k] in categories && Trim(categories[k]) == n;
      }
      if n != "" && exists c :: c in categories && Trim(c) == n {
        var c :| c in categories && Trim(c) == n;
        var k :| 0 <= k < |categories| && categories[k] == c;
        assert TrimItem(entries[k]) == Item(n, None);
      }
    }
    items
  }

  /** The category names as entries without a quantity. */
  function CategoryEntries(categories: seq<string>): (entries: seq<Item>)
    ensures |entries| == |categories|
    ensures forall k :: 0 <= k < |categories| ==> entries[k] == Item(categories[k], None)
  {
    seq(|categories|, k requires 0 <= k < |categories| => Item(categories[k], None))
  }

  /** The ingredients the loop links: each with its name trimmed and its quantity,
      skipping those whose trimmed name is empty. */
  function IngredientItems(ingredients: seq<Item>): (items: seq<Item>)
    ensures forall k :: 0 <= k < |items| ==> items[k].name != ""
    ensures forall it :: it in items <==> it.name != "" && exists i :: i in ingredients && TrimItem(i) == it
  {
    var items := Normalize(ingredients);
    assert forall k :: 0 <= k < |items| ==> items[k] in items;
    items
  }
}
