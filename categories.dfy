/**
  The category endpoints of app/main.py: creating a category (name
  validation, the live-name check and the table's unique name), soft
  deletion, and the listing ordered by name.
 */
module Categories {
  import opened Wrappers
  import Text
  import Ordering
  import opened Models
  import opened Http

  /** The longest name `_validate_category_name` accepts. */
  const MaxNameLength := 120

  function DuplicateNameDetail(name: string): string {
    "Category with name '" + name + "' already exists"
  }

  function MissingCategoryDetail(id: int): string {
    "Category with id " + Text.IntToString(id) + " not found"
  }

  /** `_validate_category_name`: refuses, with 400, a name that is blank after stripping or longer than 120 characters. */
  function ValidateCategoryName(name: string): (r: Reply<()>)
    ensures r.Done? <==> !Text.AllSpace(name) && |name| <= MaxNameLength
    ensures r.Refused? ==> r.status == 400
  {
    Text.StripEmptyIff(name);
    if |Text.Strip(name)| == 0 then Refused(400, "Category name cannot be empty")
    else if |name| > MaxNameLength then Refused(400, "Category name cannot exceed 120 characters")
    else Done(())
  }

  /** Some live category is called `name`. */
  predicate LiveNameTaken(categories: map<int, Category>, name: string) {
    exists c :: c in categories && !categories[c].isDeleted && categories[c].name == name
  }

  /** Some category, live or soft-deleted, is called `name`: the unique constraint on the column. */
  predicate NameTaken(categories: map<int, Category>, name: string) {
    exists c :: c in categories && categories[c].name == name
  }

  /** `_check_category_exists`: refuses, with 409, a name whose stripped form names a live category. */
  function CheckCategoryExists(categories: map<int, Category>, name: string): (r: Reply<()>)
    ensures r.Refused? <==> LiveNameTaken(categories, Text.Strip(name))
    ensures r.Refused? ==> r.status == 409 && r.detail == DuplicateNameDetail(name)
  {
    if LiveNameTaken(categories, Text.Strip(name)) then Refused(409, DuplicateNameDetail(name)) else Done(())
  }

  /** The row `create_category` adds: stripped name, description stripped when non-empty and NULL otherwise. */
  function NewCategory(id: int, name: string, description: Option<string>, now: string): Category {
    var desc := if description.Some? && description.value != "" then Some(Text.Strip(description.value)) else None;
    Category(id, Text.Strip(name), desc, now, now, false)
  }

  /** The category table after `create_category`, and its reply. */
  datatype Creation = Creation(categories: map<int, Category>, nextId: int, reply: Reply<Category>)

  /**
    `create_category`: validation, then the live-name check; the insert then
    violates the unique name when a soft-deleted row holds the name, and the
    `IntegrityError` is rolled back into a 409.
   */
  function CategoryCreation(categories: map<int, Category>, nextId: int, name: string, description: Option<string>, now: string): (r: Creation)
  {
    var valid := ValidateCategoryName(name);
    var live := CheckCategoryExists(categories, name);
    if valid.Refused? then Creation(categories, nextId, Refused(valid.status, valid.detail))
    else if live.Refused? then Creation(categories, nextId, Refused(live.status, live.detail))
    else if NameTaken(categories, Text.Strip(name)) then Creation(categories, nextId, Refused(409, DuplicateNameDetail(name)))
    else
      var c := NewCategory(nextId, name, description, now);
      Creation(categories[nextId := c], nextId + 1, Done(c))
  }

  /**
    The outcomes of `create_category`: 400 exactly for a blank or over-long
    name; otherwise 409 exactly when any row, soft-deleted ones included,
    already holds the stripped name; otherwise one new live row under the next
    id, whose name is the stripped name, non-empty and already stripped, and
    whose description is the stripped description, or NULL when none or an
    empty one was given.
   */
  lemma CreationOutcome(categories: map<int, Category>, nextId: int, name: string, description: Option<string>, now: string)
    ensures var r := CategoryCreation(categories, nextId, name, description, now);
      && (r.reply.Refused? ==> r.categories == categories && r.nextId == nextId)
      && (r.reply.Refused? && r.reply.status == 400 <==> Text.AllSpace(name) || |name| > MaxNameLength)
      && (r.reply.Refused? && r.reply.status == 409 <==>
            !Text.AllSpace(name) && |name| <= MaxNameLength && NameTaken(categories, Text.Strip(name)))
      && (r.reply.Done? ==>
            && r.reply.value.id == nextId && r.nextId == nextId + 1
            && r.categories == categories[nextId := r.reply.value]
            && r.reply.value.name == Text.Strip(name) && r.reply.value.name != ""
            && Text.Strip(r.reply.value.name) == r.reply.value.name
            && r.reply.value.description ==
                 (if description.Some? && description.value != "" then Some(Text.Strip(description.value)) else None)
            && !r.reply.value.isDeleted
            && r.reply.value.createdAt == now && r.reply.value.updatedAt == now)
  {
    Text.StripEmptyIff(name);
    Text.StripIdempotent(name);
  }

  /** A name in use by a soft-deleted row cannot be created again, not even after its deletion. */
  lemma DeletedNameStaysTaken(categories: map<int, Category>, nextId: int, name: string, description: Option<string>, now: string, id: int)
    requires id in categories && categories[id].isDeleted && categories[id].name == Text.Strip(name)
    ensures CategoryCreation(categories, nextId, name, description, now).reply.Refused?
    ensures CategoryCreation(categories, nextId, name, description, now).categories == categories
  {
    var r := CategoryCreation(categories, nextId, name, description, now);
    assert NameTaken(categories, Text.Strip(name));
    if ValidateCategoryName(name).Done? && CheckCategoryExists(categories, name).Done? {
      assert r.reply == Refused(409, DuplicateNameDetail(name));
    }
  }

  /** Creation keeps ids below the counter and names unique. */
  lemma CreationKeepsValid(categories: map<int, Category>, nextId: int, name: string, description: Option<string>, now: string)
    requires CategoriesValid(categories, nextId)
    ensures var r := CategoryCreation(categories, nextId, name, description, now);
      CategoriesValid(r.categories, r.nextId)
  {
    var r := CategoryCreation(categories, nextId, name, description, now);
    if r.reply.Done? {
      assert !NameTaken(categories, Text.Strip(name));
      assert nextId !in categories;
      forall a, b | a in r.categories && b in r.categories && a != b
        ensures r.categories[a].name != r.categories[b].name
      {
        if a == nextId {
          assert r.categories[b] == categories[b];
        } else if b == nextId {
          assert r.categories[a] == categories[a];
        }
      }
    }
  }

  /** The `POST /categories` handler on the database. */
  method CreateCategory(db: Database, name: string, description: Option<string>, now: string) returns (reply: Reply<Category>)
    requires db.Valid()
    modifies db`categories, db`nextCategoryId
    ensures db.Valid()
    ensures var r := CategoryCreation(old(db.categories), old(db.nextCategoryId), name, description, now);
      db.categories == r.categories && db.nextCategoryId == r.nextId && reply == r.reply
  {
    CreationKeepsValid(db.categories, db.nextCategoryId, name, description, now);
    var valid := ValidateCategoryName(name);
    if valid.Refused? {
      return Refused(valid.status, valid.detail);
    }
    var live := CheckCategoryExists(db.categories, name);
    if live.Refused? {
      return Refused(live.status, live.detail);
    }
    var stripped := Text.Strip(name);
    if exists c :: c in db.categories && db.categories[c].name == stripped {
      return Refused(409, DuplicateNameDetail(name));
    }
    var c := NewCategory(db.nextCategoryId, name, description, now);
    db.categories := db.categories[db.nextCategoryId := c];
    db.nextCategoryId := db.nextCategoryId + 1;
    reply := Done(c);
  }

  /** The body of a successful `delete_category` reply: its message and the row as deleted. */
  datatype Deleted = Deleted(message: string, category: Category)

  /** The category table after `delete_category`, and its reply. */
  datatype Deletion = Deletion(categories: map<int, Category>, reply: Reply<Deleted>)

  /** `delete_category`: 404 for an unknown id, 410 for a row already deleted, otherwise the row is marked deleted. */
  function CategoryDeletion(categories: map<int, Category>, id: int, now: string): (r: Deletion)
  {
    if id !in categories then Deletion(categories, Refused(404, MissingCategoryDetail(id)))
    else if categories[id].isDeleted then
      Deletion(categories, Refused(410, "Category '" + categories[id].name + "' is already deleted"))
    else
      var c := categories[id].(isDeleted := true, updatedAt := now);
      Deletion(categories[id := c], Done(Deleted(DeletionMessage(c), c)))
  }

  /** The message of a successful deletion. */
  function DeletionMessage(c: Category): string {
    "Category '" + c.name + "' marked as deleted"
  }

  /**
    The outcomes of `delete_category`: 404 exactly for an unknown id, 410
    exactly for a soft-deleted row, and otherwise a soft delete: the row stays,
    with its id, name, description and creation time, now deleted and updated
    at `now`, and is returned with the message "Category '<name>' marked as
    deleted"; no other row changes.
   */
  lemma DeletionOutcome(categories: map<int, Category>, id: int, now: string)
    ensures var r := CategoryDeletion(categories, id, now);
      && (r.reply.Refused? ==> r.categories == categories)
      && (r.reply.Refused? && r.reply.status == 404 <==> id !in categories)
      && (r.reply.Refused? && r.reply.status == 410 <==> id in categories && categories[id].isDeleted)
      && (r.reply.Done? <==> id in categories && !categories[id].isDeleted)
      && (r.reply.Done? ==>
            && r.categories.Keys == categories.Keys
            && r.reply.value.message == "Category '" + categories[id].name + "' marked as deleted"
            && r.categories[id] == r.reply.value.category
            && r.reply.value.category.isDeleted && r.reply.value.category.updatedAt == now
            && r.reply.value.category.id == categories[id].id && r.reply.value.category.name == categories[id].name
            && r.reply.value.category.description == categories[id].description
            && r.reply.value.category.createdAt == categories[id].createdAt
            && forall k :: k in categories && k != id ==> r.categories[k] == categories[k])
  {
  }

  /** Deleting the same category twice: the second request is refused with 410 and changes nothing. */
  lemma DeleteTwice(categories: map<int, Category>, id: int, now: string, later: string)
    requires id in categories && !categories[id].isDeleted
    ensures var once := CategoryDeletion(categories, id, now);
      var twice := CategoryDeletion(once.categories, id, later);
      twice.reply.Refused? && twice.reply.status == 410 && twice.categories == once.categories
  {
  }

  /** Soft deletion keeps the table valid. */
  lemma DeletionKeepsValid(categories: map<int, Category>, nextId: int, id: int, now: string)
    requires CategoriesValid(categories, nextId)
    ensures CategoriesValid(CategoryDeletion(categories, id, now).categories, nextId)
  {
    var r := CategoryDeletion(categories, id, now);
    forall a, b | a in r.categories && b in r.categories && a != b
      ensures r.categories[a].name != r.categories[b].name
    {
      assert r.categories[a].name == categories[a].name;
      assert r.categories[b].name == categories[b].name;
    }
  }

  /** The `DELETE /categories/{id}` handler on the database. */
  method DeleteCategory(db: Database, id: int, now: string) returns (reply: Reply<Deleted>)
    requires db.Valid()
    modifies db`categories
    ensures db.Valid()
    ensures var r := CategoryDeletion(old(db.categories), id, now);
      db.categories == r.categories && reply == r.reply
  {
    DeletionKeepsValid(db.categories, db.nextCategoryId, id, now);
    if id !in db.categories {
      return Refused(404, MissingCategoryDetail(id));
    }
    if db.categories[id].isDeleted {
      return Refused(410, "Category '" + db.categories[id].name + "' is already deleted");
    }
    var c := db.categories[id].(isDeleted := true, updatedAt := now);
    db.categories := db.categories[id := c];
    reply := Done(Deleted(DeletionMessage(c), c));
  }

  /** `ORDER BY name`. */
  predicate NameBefore(a: Category, b: Category) {
    Text.Before(a.name, b.name)
  }

  /** The rows `list_categories` selects: the live ones, or all of them with `include_deleted`. */
  function Listed(categories: map<int, Category>, includeDeleted: bool): set<Category> {
    set k | k in categories && (includeDeleted || !categories[k].isDeleted) :: categories[k]
  }

  /** With unique names, ordering by name is a strict total order on any set of rows. */
  lemma NameOrderStrict(categories: map<int, Category>, s: set<Category>)
    requires NamesDistinct(categories) && forall c :: c in s ==> exists k :: k in categories && categories[k] == c
    ensures Ordering.StrictTotalOn(s, NameBefore)
  {
    forall a | a in s ensures !NameBefore(a, a) {
      Text.BeforeIrreflexive(a.name);
    }
    forall a, b, c | a in s && b in s && c in s && NameBefore(a, b) && NameBefore(b, c)
      ensures NameBefore(a, c)
    {
      Text.BeforeTransitive(a.name, b.name, c.name);
    }
    forall a, b | a in s && b in s && a != b ensures NameBefore(a, b) || NameBefore(b, a) {
      var ka :| ka in categories && categories[ka] == a;
      var kb :| kb in categories && categories[kb] == b;
      assert ka != kb;
      Text.BeforeTotal(a.name, b.name);
    }
  }

  /**
    `list_categories`: the selected rows, each once, in ascending name order;
    `total` is its length.
   */
  ghost function ListCategories(categories: map<int, Category>, includeDeleted: bool): (r: seq<Category>)
    requires NamesDistinct(categories)
    ensures Ordering.SortedBy(r, NameBefore)
    ensures forall k :: k in categories ==> (categories[k] in r <==> includeDeleted || !categories[k].isDeleted)
    ensures forall c :: c in r ==> c in categories.Values && (includeDeleted || !c.isDeleted)
    ensures forall i, j :: 0 <= i < j < |r| ==> r[i] != r[j]
  {
    var s := Listed(categories, includeDeleted);
    NameOrderStrict(categories, s);
    var r := Ordering.SortBy(s, NameBefore);
    Ordering.SortedDistinct(r, NameBefore, s);
    r
  }

  /** A soft-deleted category leaves the default listing but stays in the one with `include_deleted`. */
  lemma DeletedHiddenFromListing(categories: map<int, Category>, id: int, now: string)
    requires NamesDistinct(categories) && id in categories && !categories[id].isDeleted
    ensures var after := CategoryDeletion(categories, id, now).categories;
      && NamesDistinct(after)
      && after[id] !in ListCategories(after, false)
      && after[id] in ListCategories(after, true)
  {
    var after := CategoryDeletion(categories, id, now).categories;
    forall a, b | a in after && b in after && a != b ensures after[a].name != after[b].name {
      assert after[a].name == categories[a].name && after[b].name == categories[b].name;
    }
  }
}
