/**
  The bookmark endpoints of app/main.py: `update_bookmark` with its helpers
  for the read flag and the category assignments, `list_bookmarks` and
  `get_stats`.
 */
module Bookmarks {
  import opened Wrappers
  import Text
  import Ordering
  import opened Models
  import opened Http
  import Categories

  /** The key of the live tweet row with primary key `id`, when there is one. */
  ghost function LiveRowKey(tweets: map<string, Tweet>, id: int): (r: Option<string>)
    requires RowIdsDistinct(tweets)
    ensures r.Some? <==> exists k :: k in tweets && tweets[k].id == id && !tweets[k].isDeleted
    ensures r.Some? ==> r.value in tweets && tweets[r.value].id == id && !tweets[r.value].isDeleted
    ensures r.Some? ==> forall k :: k in tweets && tweets[k].id == id ==> k == r.value
  {
    if exists k :: k in tweets && tweets[k].id == id && !tweets[k].isDeleted then
      var k :| k in tweets && tweets[k].id == id && !tweets[k].isDeleted;
      Some(k)
    else
      None
  }

  function MissingBookmarkDetail(id: int): string {
    "Bookmark with id " + Text.IntToString(id) + " not found"
  }

  /** The entry `_update_bookmark_read_status` reports. */
  function ReadStatusField(isRead: bool): string {
    if isRead then "is_read=true" else "is_read=false"
  }

  /** `_update_bookmark_read_status`: sets the read flag and the update time of one row. */
  method UpdateBookmarkReadStatus(db: Database, key: string, isRead: bool, now: string) returns (field: string)
    requires db.Valid() && key in db.tweets
    modifies db`tweets
    ensures db.Valid()
    ensures db.tweets == old(db.tweets)[key := old(db.tweets)[key].(isRead := isRead, updatedAt := now)]
    ensures field == ReadStatusField(isRead)
  {
    var before := db.tweets;
    db.tweets := db.tweets[key := db.tweets[key].(isRead := isRead, updatedAt := now)];
    forall p | p in db.assignments ensures HasTweetRow(db.tweets, p.0) {
      var k :| k in before && before[k].id == p.0;
      assert db.tweets[k].id == p.0;
    }
    field := ReadStatusField(isRead);
  }

  /** The assignment table after one helper call, with the category name and entry it reports ("" for none). */
  datatype Assigned = Assigned(assignments: map<(int, int), string>, name: string, field: string)

  /**
    `_add_category_to_bookmark`: 404 unless the category exists and is live;
    an existing assignment is left alone and reported as nothing.
   */
  function Adding(assignments: map<(int, int), string>, categories: map<int, Category>, bookmarkId: int, categoryId: int, now: string)
    : (r: Reply<Assigned>)
    ensures r.Refused? <==> categoryId !in categories || categories[categoryId].isDeleted
    ensures r.Refused? ==> r.status == 404 && r.detail == Categories.MissingCategoryDetail(categoryId)
    ensures r.Done? && (bookmarkId, categoryId) in assignments ==> r.value == Assigned(assignments, "", "")
    ensures r.Done? && (bookmarkId, categoryId) !in assignments ==>
      && r.value.assignments == assignments[(bookmarkId, categoryId) := now]
      && r.value.name == categories[categoryId].name
      && r.value.field == "added category '" + r.value.name + "'"
  {
    if categoryId !in categories || categories[categoryId].isDeleted then
      Refused(404, Categories.MissingCategoryDetail(categoryId))
    else if (bookmarkId, categoryId) in assignments then
      Done(Assigned(assignments, "", ""))
    else
      var name := categories[categoryId].name;
      Done(Assigned(assignments[(bookmarkId, categoryId) := now], name, "added category '" + name + "'"))
  }

  /** The name `_remove_category_from_bookmark` reports: the category's, or its id in decimal when the row is gone. */
  function RemovedName(categories: map<int, Category>, categoryId: int): string {
    if categoryId in categories then categories[categoryId].name else Text.IntToString(categoryId)
  }

  /**
    `_remove_category_from_bookmark`: deletes an existing assignment and
    reports the category's name (its id when the row is gone); a missing
    assignment is reported as nothing.
   */
  function Removing(assignments: map<(int, int), string>, categories: map<int, Category>, bookmarkId: int, categoryId: int)
    : (r: Assigned)
    ensures r.assignments == assignments - {(bookmarkId, categoryId)}
    ensures (bookmarkId, categoryId) !in assignments ==> r == Assigned(assignments, "", "")
    ensures (bookmarkId, categoryId) in assignments ==> r.field == "removed category '" + r.name + "'"
    ensures (bookmarkId, categoryId) in assignments ==> r.name != "" || (categoryId in categories && categories[categoryId].name == "")
  {
    if (bookmarkId, categoryId) in assignments then
      var name := RemovedName(categories, categoryId);
      Assigned(assignments - {(bookmarkId, categoryId)}, name, "removed category '" + name + "'")
    else
      Assigned(assignments, "", "")
  }

  /** `_add_category_to_bookmark` on the database. */
  method AddCategoryToBookmark(db: Database, bookmarkId: int, categoryId: int, now: string) returns (reply: Reply<(string, string)>)
    requires db.Valid() && HasTweetRow(db.tweets, bookmarkId)
    modifies db`assignments
    ensures db.Valid()
    ensures var r := Adding(old(db.assignments), db.categories, bookmarkId, categoryId, now);
      && (r.Refused? ==> reply == Refused(r.status, r.detail) && db.assignments == old(db.assignments))
      && (r.Done? ==> reply == Done((r.value.name, r.value.field)) && db.assignments == r.value.assignments)
  {
    if categoryId !in db.categories || db.categories[categoryId].isDeleted {
      return Refused(404, Categories.MissingCategoryDetail(categoryId));
    }
    if (bookmarkId, categoryId) in db.assignments {
      return Done(("", ""));
    }
    var name := db.categories[categoryId].name;
    db.assignments := db.assignments[(bookmarkId, categoryId) := now];
    reply := Done((name, "added category '" + name + "'"));
  }

  /** The name removing an assigned category reports: the category's name, or its id in decimal when the category row is gone. */
  lemma RemovingName(assignments: map<(int, int), string>, categories: map<int, Category>, bookmarkId: int, categoryId: int)
    requires (bookmarkId, categoryId) in assignments
    ensures categoryId in categories ==> Removing(assignments, categories, bookmarkId, categoryId).name == categories[categoryId].name
    ensures categoryId !in categories ==> Removing(assignments, categories, bookmarkId, categoryId).name == Text.IntToString(categoryId)
  {
  }

  /** `_remove_category_from_bookmark` on the database. */
  method RemoveCategoryFromBookmark(db: Database, bookmarkId: int, categoryId: int) returns (name: string, field: string)
    requires db.Valid()
    modifies db`assignments
    ensures db.Valid()
    ensures Removing(old(db.assignments), db.categories, bookmarkId, categoryId) == Assigned(db.assignments, name, field)
  {
    name, field := "", "";
    if (bookmarkId, categoryId) in db.assignments {
      db.assignments := db.assignments - {(bookmarkId, categoryId)};
      name := RemovedName(db.categories, categoryId);
      field := "removed category '" + name + "'";
    }
  }

  /** What `update_bookmark` has gathered so far: the assignment table, the reported entries and category names. */
  datatype Progress = Progress(assignments: map<(int, int), string>, fields: seq<string>, names: seq<string>)

  /** Records one helper result: a non-empty name is reported with its entry. */
  function Note(p: Progress, a: Assigned): Progress {
    if a.name != "" then Progress(a.assignments, p.fields + [a.field], p.names + [a.name])
    else p.(assignments := a.assignments)
  }

  /** The loop over `add_categories` (main.py:495-502), stopped by the first 404. */
  function AddAll(p: Progress, categories: map<int, Category>, bookmarkId: int, ids: seq<int>, now: string): Reply<Progress>
    decreases |ids|
  {
    if ids == [] then Done(p)
    else
      var a :- Adding(p.assignments, categories, bookmarkId, ids[0], now);
      AddAll(Note(p, a), categories, bookmarkId, ids[1..], now)
  }

  /** The loop over `remove_categories` (main.py:505-512). */
  function RemoveAll(p: Progress, categories: map<int, Category>, bookmarkId: int, ids: seq<int>): Progress
    decreases |ids|
  {
    if ids == [] then p
    else RemoveAll(Note(p, Removing(p.assignments, categories, bookmarkId, ids[0])), categories, bookmarkId, ids[1..])
  }

  /**
    Adding a list of categories fails with 404 exactly when one of them is
    unknown or deleted; otherwise the bookmark gains every listed category,
    existing assignments keep their time, new ones are stamped `now`, nothing
    else changes, and one entry is reported per reported name.
   */
  lemma {:induction false} AddAllMeaning(p: Progress, categories: map<int, Category>, bookmarkId: int, ids: seq<int>, now: string)
    ensures var r := AddAll(p, categories, bookmarkId, ids, now);
      && (r.Refused? <==> exists i :: 0 <= i < |ids| && (ids[i] !in categories || categories[ids[i]].isDeleted))
      && (r.Refused? ==> r.status == 404)
      && (r.Done? ==>
            && (forall q :: q in r.value.assignments <==> q in p.assignments || (q.0 == bookmarkId && q.1 in ids))
            && (forall q :: q in p.assignments ==> r.value.assignments[q] == p.assignments[q])
            && (forall q :: q in r.value.assignments && q !in p.assignments ==> r.value.assignments[q] == now)
            && |r.value.fields| - |p.fields| == |r.value.names| - |p.names| >= 0)
    decreases |ids|
  {
    if ids != [] {
      var first := Adding(p.assignments, categories, bookmarkId, ids[0], now);
      if first.Done? {
        var next := Note(p, first.value);
        AddAllMeaning(next, categories, bookmarkId, ids[1..], now);
        var r := AddAll(p, categories, bookmarkId, ids, now);
        assert r == AddAll(next, categories, bookmarkId, ids[1..], now);
        if r.Refused? {
          var i :| 0 <= i < |ids[1..]| && (ids[1..][i] !in categories || categories[ids[1..][i]].isDeleted);
          assert ids[i + 1] == ids[1..][i];
        } else {
          forall i | 0 <= i < |ids| ensures ids[i] in categories && !categories[ids[i]].isDeleted {
            if i > 0 {
              assert ids[i] == ids[1..][i - 1];
            }
          }
          forall q ensures q in r.value.assignments <==> q in p.assignments || (q.0 == bookmarkId && q.1 in ids) {
            assert q.1 in ids <==> q.1 == ids[0] || q.1 in ids[1..];
          }
        }
      }
    }
  }

  /**
    Removing a list of categories drops exactly the bookmark's assignments to
    the listed categories, keeps every other one with its time, and reports
    one entry per reported name.
   */
  lemma {:induction false} RemoveAllMeaning(p: Progress, categories: map<int, Category>, bookmarkId: int, ids: seq<int>)
    ensures var r := RemoveAll(p, categories, bookmarkId, ids);
      && (forall q :: q in r.assignments <==> q in p.assignments && !(q.0 == bookmarkId && q.1 in ids))
      && (forall q :: q in r.assignments ==> r.assignments[q] == p.assignments[q])
      && |r.fields| - |p.fields| == |r.names| - |p.names| >= 0
    decreases |ids|
  {
    if ids != [] {
      var next := Note(p, Removing(p.assignments, categories, bookmarkId, ids[0]));
      RemoveAllMeaning(next, categories, bookmarkId, ids[1..]);
      var r := RemoveAll(p, categories, bookmarkId, ids);
      forall q ensures q in r.assignments <==> q in p.assignments && !(q.0 == bookmarkId && q.1 in ids) {
        assert q.1 in ids <==> q.1 == ids[0] || q.1 in ids[1..];
      }
    }
  }

  /**
    Adding a list of categories keeps the entries and names already gathered
    first and appends one entry "added category '<name>'" per new name.
   */
  lemma {:induction false} AddAllEntries(p: Progress, categories: map<int, Category>, bookmarkId: int, ids: seq<int>, now: string)
    ensures var r := AddAll(p, categories, bookmarkId, ids, now);
      r.Done? ==>
        && |r.value.names| >= |p.names| && |r.value.fields| - |p.fields| == |r.value.names| - |p.names|
        && r.value.names[..|p.names|] == p.names && r.value.fields[..|p.fields|] == p.fields
        && (forall k :: |p.names| <= k < |r.value.names| ==>
              r.value.fields[k - |p.names| + |p.fields|] == "added category '" + r.value.names[k] + "'")
    decreases |ids|
  {
    var r := AddAll(p, categories, bookmarkId, ids, now);
    if ids != [] && r.Done? {
      var first := Adding(p.assignments, categories, bookmarkId, ids[0], now);
      assert first.Done?;
      var next := Note(p, first.value);
      AddAllEntries(next, categories, bookmarkId, ids[1..], now);
      assert r == AddAll(next, categories, bookmarkId, ids[1..], now);
      assert r.value.names[..|p.names|] == r.value.names[..|next.names|][..|p.names|];
      assert r.value.fields[..|p.fields|] == r.value.fields[..|next.fields|][..|p.fields|];
      if first.value.name != "" {
        assert next.names == p.names + [first.value.name] && next.fields == p.fields + [first.value.field];
        assert r.value.names[|p.names|] == r.value.names[..|next.names|][|p.names|] == first.value.name;
        assert r.value.fields[|p.fields|] == r.value.fields[..|next.fields|][|p.fields|] == first.value.field;
      }
    }
  }

  /** `name` occurs in `after` past the first `|before|` entries. */
  predicate Appended(before: seq<string>, after: seq<string>, name: string) {
    exists k :: |before| <= k < |after| && after[k] == name
  }

  /** `name` is the name of one of `ids` that exists and is not yet assigned to the bookmark. */
  predicate AddedListed(assignments: map<(int, int), string>, categories: map<int, Category>, bookmarkId: int, ids: seq<int>, name: string) {
    exists c :: c in ids && (bookmarkId, c) !in assignments && c in categories && categories[c].name == name
  }

  /** Each name adding a list of categories reports is the name of a listed category the bookmark did not have yet. */
  lemma {:induction false} AddAllNames(p: Progress, categories: map<int, Category>, bookmarkId: int, ids: seq<int>, now: string)
    ensures var r := AddAll(p, categories, bookmarkId, ids, now);
      r.Done? ==> forall k :: |p.names| <= k < |r.value.names| ==>
        AddedListed(p.assignments, categories, bookmarkId, ids, r.value.names[k])
    decreases |ids|
  {
    var r := AddAll(p, categories, bookmarkId, ids, now);
    if ids != [] && r.Done? {
      var first := Adding(p.assignments, categories, bookmarkId, ids[0], now);
      assert first.Done?;
      var next := Note(p, first.value);
      AddAllNames(next, categories, bookmarkId, ids[1..], now);
      AddAllEntries(next, categories, bookmarkId, ids[1..], now);
      assert r == AddAll(next, categories, bookmarkId, ids[1..], now);
      forall k | |p.names| <= k < |r.value.names|
        ensures AddedListed(p.assignments, categories, bookmarkId, ids, r.value.names[k])
      {
        if k < |next.names| {
          assert r.value.names[k] == r.value.names[..|next.names|][k];
          assert ids[0] in ids;
        } else {
          assert AddedListed(next.assignments, categories, bookmarkId, ids[1..], r.value.names[k]);
          var c :| c in ids[1..] && (bookmarkId, c) !in next.assignments && c in categories
            && categories[c].name == r.value.names[k];
          assert c in ids;
        }
      }
    }
  }

  /** Adding a list of categories reports every listed category the bookmark did not have yet, unless its name is empty. */
  lemma {:induction false} AddAllReportsEach(p: Progress, categories: map<int, Category>, bookmarkId: int, ids: seq<int>, now: string)
    ensures var r := AddAll(p, categories, bookmarkId, ids, now);
      r.Done? ==> forall c :: c in ids && (bookmarkId, c) !in p.assignments && c in categories && categories[c].name != "" ==>
        Appended(p.names, r.value.names, categories[c].name)
    decreases |ids|
  {
    var r := AddAll(p, categories, bookmarkId, ids, now);
    if ids != [] && r.Done? {
      var first := Adding(p.assignments, categories, bookmarkId, ids[0], now);
      assert first.Done?;
      var next := Note(p, first.value);
      AddAllReportsEach(next, categories, bookmarkId, ids[1..], now);
      AddAllEntries(next, categories, bookmarkId, ids[1..], now);
      assert r == AddAll(next, categories, bookmarkId, ids[1..], now);
      forall c | c in ids && (bookmarkId, c) !in p.assignments && c in categories && categories[c].name != ""
        ensures Appended(p.names, r.value.names, categories[c].name)
      {
        if (bookmarkId, c) in next.assignments {
          assert c == ids[0];
          assert r.value.names[|p.names|] == r.value.names[..|next.names|][|p.names|];
        } else {
          assert c in ids[1..];
          var k :| |next.names| <= k < |r.value.names| && r.value.names[k] == categories[c].name;
        }
      }
    }
  }

  /**
    Removing a list of categories keeps the entries and names already
    gathered first and appends one entry "removed category '<name>'" per new
    name.
   */
  lemma {:induction false} RemoveAllEntries(p: Progress, categories: map<int, Category>, bookmarkId: int, ids: seq<int>)
    ensures var r := RemoveAll(p, categories, bookmarkId, ids);
      && |r.names| >= |p.names| && |r.fields| - |p.fields| == |r.names| - |p.names|
      && r.names[..|p.names|] == p.names && r.fields[..|p.fields|] == p.fields
      && (forall k :: |p.names| <= k < |r.names| ==>
            r.fields[k - |p.names| + |p.fields|] == "removed category '" + r.names[k] + "'")
    decreases |ids|
  {
    var r := RemoveAll(p, categories, bookmarkId, ids);
    if ids != [] {
      var next := Note(p, Removing(p.assignments, categories, bookmarkId, ids[0]));
      RemoveAllEntries(next, categories, bookmarkId, ids[1..]);
      assert r == RemoveAll(next, categories, bookmarkId, ids[1..]);
      assert r.names[..|p.names|] == r.names[..|next.names|][..|p.names|];
      assert r.fields[..|p.fields|] == r.fields[..|next.fields|][..|p.fields|];
      var a := Removing(p.assignments, categories, bookmarkId, ids[0]);
      if a.name != "" {
        assert next.names == p.names + [a.name] && next.fields == p.fields + [a.field];
        assert r.names[|p.names|] == r.names[..|next.names|][|p.names|] == a.name;
        assert r.fields[|p.fields|] == r.fields[..|next.fields|][|p.fields|] == a.field;
      }
    }
  }

  /** `name` is what removing one of `ids` the bookmark has reports. */
  predicate RemovedListed(assignments: map<(int, int), string>, categories: map<int, Category>, bookmarkId: int, ids: seq<int>, name: string) {
    exists c :: c in ids && (bookmarkId, c) in assignments && name == RemovedName(categories, c)
  }

  /**
    Each name removing a list of categories reports belongs to a listed
    category the bookmark had: its name or, when the row is gone, its id in
    decimal.
   */
  lemma {:induction false} RemoveAllNames(p: Progress, categories: map<int, Category>, bookmarkId: int, ids: seq<int>)
    ensures var r := RemoveAll(p, categories, bookmarkId, ids);
      forall k :: |p.names| <= k < |r.names| ==> RemovedListed(p.assignments, categories, bookmarkId, ids, r.names[k])
    decreases |ids|
  {
    var r := RemoveAll(p, categories, bookmarkId, ids);
    if ids != [] {
      var next := Note(p, Removing(p.assignments, categories, bookmarkId, ids[0]));
      RemoveAllNames(next, categories, bookmarkId, ids[1..]);
      RemoveAllEntries(next, categories, bookmarkId, ids[1..]);
      assert r == RemoveAll(next, categories, bookmarkId, ids[1..]);
      forall k | |p.names| <= k < |r.names|
        ensures RemovedListed(p.assignments, categories, bookmarkId, ids, r.names[k])
      {
        if k < |next.names| {
          assert r.names[k] == r.names[..|next.names|][k];
          assert ids[0] in ids;
        } else {
          assert RemovedListed(next.assignments, categories, bookmarkId, ids[1..], r.names[k]);
          var c :| c in ids[1..] && (bookmarkId, c) in next.assignments && r.names[k] == RemovedName(categories, c);
          assert c in ids;
        }
      }
    }
  }

  /** Removing a list of categories reports every listed category the bookmark had, unless its name is empty. */
  lemma {:induction false} RemoveAllReportsEach(p: Progress, categories: map<int, Category>, bookmarkId: int, ids: seq<int>)
    ensures var r := RemoveAll(p, categories, bookmarkId, ids);
      forall c :: c in ids && (bookmarkId, c) in p.assignments && !(c in categories && categories[c].name == "") ==>
        Appended(p.names, r.names, RemovedName(categories, c))
    decreases |ids|
  {
    var r := RemoveAll(p, categories, bookmarkId, ids);
    if ids != [] {
      var next := Note(p, Removing(p.assignments, categories, bookmarkId, ids[0]));
      RemoveAllReportsEach(next, categories, bookmarkId, ids[1..]);
      RemoveAllEntries(next, categories, bookmarkId, ids[1..]);
      assert r == RemoveAll(next, categories, bookmarkId, ids[1..]);
      forall c | c in ids && (bookmarkId, c) in p.assignments && !(c in categories && categories[c].name == "")
        ensures Appended(p.names, r.names, RemovedName(categories, c))
      {
        if (bookmarkId, c) !in next.assignments {
          assert c == ids[0];
          assert r.names[|p.names|] == r.names[..|next.names|][|p.names|];
        } else {
          assert c in ids[1..];
          var k :| |next.names| <= k < |r.names| && r.names[k] == RemovedName(categories, c);
        }
      }
    }
  }

  /** A category as `_get_bookmark_categories` reports it. */
  datatype CategoryRef = CategoryRef(id: int, name: string, description: Option<string>)

  /** `_get_bookmark_categories`: the live categories assigned to the bookmark. */
  function BookmarkCategories(assignments: map<(int, int), string>, categories: map<int, Category>, bookmarkId: int)
    : (r: set<CategoryRef>)
    ensures forall c :: c in categories && (bookmarkId, c) in assignments && !categories[c].isDeleted ==>
      CategoryRef(c, categories[c].name, categories[c].description) in r
    ensures forall ref :: ref in r ==>
      ref.id in categories && (bookmarkId, ref.id) in assignments && !categories[ref.id].isDeleted
      && ref.name == categories[ref.id].name && ref.description == categories[ref.id].description
  {
    set c | c in categories && (bookmarkId, c) in assignments && !categories[c].isDeleted
      :: CategoryRef(c, categories[c].name, categories[c].description)
  }

  /** The body of a successful `update_bookmark` reply. */
  datatype UpdateReply = UpdateReply(
    message: string,
    bookmark: Tweet,
    categories: set<CategoryRef>,
    readStatusChanged: bool,
    categoriesAdded: seq<string>,
    categoriesRemoved: seq<string>)

  /** The tables after `update_bookmark`, and its reply. */
  datatype Update = Update(tweets: map<string, Tweet>, assignments: map<(int, int), string>, reply: Reply<UpdateReply>)

  function UpdateMessage(fields: seq<string>): string {
    if fields == [] then "No changes made" else "Bookmark updated: " + Text.Join(fields, ", ")
  }

  /**
    `update_bookmark`: 404 for a bookmark id with no live row; otherwise the
    read flag, then the additions, then the removals, committed together. A
    404 raised while adding is re-raised before the commit, so the session's
    pending changes, the read flag included, are discarded.
   */
  ghost function BookmarkUpdate(tweets: map<string, Tweet>, categories: map<int, Category>, assignments: map<(int, int), string>,
                                bookmarkId: int, isRead: Option<bool>, adds: Option<seq<int>>, removes: Option<seq<int>>, now: string)
    : (r: Update)
    requires RowIdsDistinct(tweets)
  {
    match LiveRowKey(tweets, bookmarkId)
    case None => Update(tweets, assignments, Refused(404, MissingBookmarkDetail(bookmarkId)))
    case Some(key) => UpdateRow(tweets, categories, assignments, key, bookmarkId, isRead, adds, removes, now)
  }

  /** `update_bookmark` once the bookmark's row, under `key`, was found. */
  function UpdateRow(tweets: map<string, Tweet>, categories: map<int, Category>, assignments: map<(int, int), string>,
                     key: string, bookmarkId: int, isRead: Option<bool>, adds: Option<seq<int>>, removes: Option<seq<int>>, now: string)
    : (r: Update)
    requires key in tweets
  {
    var flagged := if isRead.Some? then tweets[key := tweets[key].(isRead := isRead.value, updatedAt := now)] else tweets;
    var start := Progress(assignments, if isRead.Some? then [ReadStatusField(isRead.value)] else [], []);
    match AddAll(start, categories, bookmarkId, adds.GetOr([]), now)
    case Refused(status, detail) => Update(tweets, assignments, Refused(status, detail))
    case Done(added) =>
      var removed := RemoveAll(Progress(added.assignments, added.fields, []), categories, bookmarkId, removes.GetOr([]));
      var reply := UpdateReply(UpdateMessage(removed.fields), flagged[key],
                               BookmarkCategories(removed.assignments, categories, bookmarkId),
                               isRead.Some?, added.names, removed.names);
      Update(flagged, removed.assignments, Done(reply))
  }

  /**
    When `update_bookmark` is refused: 404, exactly when the bookmark has no
    live row or a category to add is unknown or deleted, and nothing changes
    (pending changes, the read flag included, are rolled back).
   */
  lemma UpdateRefusals(tweets: map<string, Tweet>, categories: map<int, Category>, assignments: map<(int, int), string>,
                       bookmarkId: int, isRead: Option<bool>, adds: Option<seq<int>>, removes: Option<seq<int>>, now: string)
    requires RowIdsDistinct(tweets)
    ensures var r := BookmarkUpdate(tweets, categories, assignments, bookmarkId, isRead, adds, removes, now);
      && (r.reply.Refused? ==> r.tweets == tweets && r.assignments == assignments && r.reply.status == 404)
      && (r.reply.Refused? <==>
            LiveRowKey(tweets, bookmarkId).None?
            || exists c :: c in adds.GetOr([]) && (c !in categories || categories[c].isDeleted))
  {
    if LiveRowKey(tweets, bookmarkId).Some? {
      var r := BookmarkUpdate(tweets, categories, assignments, bookmarkId, isRead, adds, removes, now);
      var start := Progress(assignments, if isRead.Some? then [ReadStatusField(isRead.value)] else [], []);
      var addIds := adds.GetOr([]);
      AddAllMeaning(start, categories, bookmarkId, addIds, now);
      if AddAll(start, categories, bookmarkId, addIds, now).Refused? {
        var i :| 0 <= i < |addIds| && (addIds[i] !in categories || categories[addIds[i]].isDeleted);
        var bad := addIds[i];
        assert bad in adds.GetOr([]) && (bad !in categories || categories[bad].isDeleted);
      } else {
        forall c | c in addIds ensures c in categories && !categories[c].isDeleted {
          var i :| 0 <= i < |addIds| && addIds[i] == c;
        }
      }
    }
  }

  /**
    A successful update of the bookmark whose row is under `key`: only that
    row changes, and only in its read flag and update time when `is_read` is
    given; the bookmark is assigned exactly the categories it had or was
    given, less the ones removed (additions run before removals); other
    bookmarks' assignments are untouched; the message is "No changes made"
    exactly when nothing was reported.
   */
  lemma UpdateEffects(tweets: map<string, Tweet>, categories: map<int, Category>, assignments: map<(int, int), string>,
                      key: string, bookmarkId: int, isRead: Option<bool>, adds: Option<seq<int>>, removes: Option<seq<int>>, now: string)
    requires key in tweets
    ensures var r := UpdateRow(tweets, categories, assignments, key, bookmarkId, isRead, adds, removes, now);
      r.reply.Done? ==>
        && r.tweets.Keys == tweets.Keys
        && (forall k :: k in tweets && k != key ==> r.tweets[k] == tweets[k])
        && r.tweets[key] == (if isRead.Some? then tweets[key].(isRead := isRead.value, updatedAt := now) else tweets[key])
        && r.reply.value.bookmark == r.tweets[key]
        && r.reply.value.readStatusChanged == isRead.Some?
        && (forall c :: (bookmarkId, c) in r.assignments <==>
              ((bookmarkId, c) in assignments || c in adds.GetOr([])) && c !in removes.GetOr([]))
        && (forall q: (int, int) :: q.0 != bookmarkId ==> (q in r.assignments <==> q in assignments))
  {
    var start := Progress(assignments, if isRead.Some? then [ReadStatusField(isRead.value)] else [], []);
    AddAllMeaning(start, categories, bookmarkId, adds.GetOr([]), now);
    var added := AddAll(start, categories, bookmarkId, adds.GetOr([]), now);
    if added.Done? {
      var middle := Progress(added.value.assignments, added.value.fields, []);
      RemoveAllMeaning(middle, categories, bookmarkId, removes.GetOr([]));
    }
  }

  /** The reply says "No changes made" exactly when the read flag was not given and no category was reported added or removed. */
  lemma UpdateMessageMeaning(tweets: map<string, Tweet>, categories: map<int, Category>, assignments: map<(int, int), string>,
                             key: string, bookmarkId: int, isRead: Option<bool>, adds: Option<seq<int>>, removes: Option<seq<int>>, now: string)
    requires key in tweets
    ensures var r := UpdateRow(tweets, categories, assignments, key, bookmarkId, isRead, adds, removes, now);
      r.reply.Done? ==>
        (r.reply.value.message == "No changes made" <==>
           isRead.None? && r.reply.value.categoriesAdded == [] && r.reply.value.categoriesRemoved == [])
  {
    var start := Progress(assignments, if isRead.Some? then [ReadStatusField(isRead.value)] else [], []);
    AddAllMeaning(start, categories, bookmarkId, adds.GetOr([]), now);
    var added := AddAll(start, categories, bookmarkId, adds.GetOr([]), now);
    if added.Done? {
      var middle := Progress(added.value.assignments, added.value.fields, []);
      RemoveAllMeaning(middle, categories, bookmarkId, removes.GetOr([]));
      var removed := RemoveAll(middle, categories, bookmarkId, removes.GetOr([]));
      if UpdateMessage(removed.fields) == "No changes made" {
        assert removed.fields == [];
      }
    }
  }

  /** The loop over `add_categories` on the database; on a 404 the assignments are left for the caller to roll back. */
  method AddCategories(db: Database, bookmarkId: int, ids: seq<int>, now: string, fields: seq<string>)
    returns (reply: Reply<(seq<string>, seq<string>)>)
    requires db.Valid() && HasTweetRow(db.tweets, bookmarkId)
    modifies db`assignments
    ensures db.Valid()
    ensures var r := AddAll(Progress(old(db.assignments), fields, []), db.categories, bookmarkId, ids, now);
      && (r.Refused? ==> reply == Refused(r.status, r.detail))
      && (r.Done? ==> reply == Done((r.value.fields, r.value.names)) && db.assignments == r.value.assignments)
  {
    ghost var start := Progress(db.assignments, fields, []);
    var fields', names := fields, [];
    var i := 0;
    while i < |ids|
      invariant 0 <= i <= |ids|
      invariant db.Valid()
      invariant AddAll(Progress(db.assignments, fields', names), db.categories, bookmarkId, ids[i..], now)
                == AddAll(start, db.categories, bookmarkId, ids, now)
    {
      var step := AddCategoryToBookmark(db, bookmarkId, ids[i], now);
      if step.Refused? {
        return Refused(step.status, step.detail);
      }
      var (name, field) := step.value;
      if name != "" {
        names := names + [name];
        fields' := fields' + [field];
      }
      assert ids[i..][1..] == ids[i + 1..];
      i := i + 1;
    }
    reply := Done((fields', names));
  }

  /** The loop over `remove_categories` on the database. */
  method RemoveCategories(db: Database, bookmarkId: int, ids: seq<int>, fields: seq<string>)
    returns (fields': seq<string>, names: seq<string>)
    requires db.Valid()
    modifies db`assignments
    ensures db.Valid()
    ensures RemoveAll(Progress(old(db.assignments), fields, []), db.categories, bookmarkId, ids)
            == Progress(db.assignments, fields', names)
  {
    ghost var start := Progress(db.assignments, fields, []);
    fields', names := fields, [];
    var j := 0;
    while j < |ids|
      invariant 0 <= j <= |ids|
      invariant db.Valid()
      invariant RemoveAll(Progress(db.assignments, fields', names), db.categories, bookmarkId, ids[j..])
                == RemoveAll(start, db.categories, bookmarkId, ids)
    {
      var name, field := RemoveCategoryFromBookmark(db, bookmarkId, ids[j]);
      if name != "" {
        names := names + [name];
        fields' := fields' + [field];
      }
      assert ids[j..][1..] == ids[j + 1..];
      j := j + 1;
    }
  }

  /** `update_bookmark` on the database. */
  method UpdateBookmark(db: Database, bookmarkId: int, isRead: Option<bool>, adds: Option<seq<int>>, removes: Option<seq<int>>, now: string)
    returns (reply: Reply<UpdateReply>)
    requires db.Valid()
    modifies db`tweets, db`assignments
    ensures db.Valid()
    ensures var r := BookmarkUpdate(old(db.tweets), db.categories, old(db.assignments), bookmarkId, isRead, adds, removes, now);
      db.tweets == r.tweets && db.assignments == r.assignments && reply == r.reply
  {
    if !exists k :: k in db.tweets && db.tweets[k].id == bookmarkId && !db.tweets[k].isDeleted {
      return Refused(404, MissingBookmarkDetail(bookmarkId));
    }
    var key :| key in db.tweets && db.tweets[key].id == bookmarkId && !db.tweets[key].isDeleted;
    assert LiveRowKey(db.tweets, bookmarkId) == Some(key);
    reply := UpdateFoundBookmark(db, key, bookmarkId, isRead, adds, removes, now);
  }

  /**
    The category part of `update_bookmark`: the additions, then (when none
    was refused) the removals, on the assignments alone.
   */
  method ChangeCategories(db: Database, bookmarkId: int, adds: seq<int>, removes: seq<int>, now: string, fields: seq<string>)
    returns (reply: Reply<(seq<string>, seq<string>, seq<string>)>)
    requires db.Valid() && HasTweetRow(db.tweets, bookmarkId)
    modifies db`assignments
    ensures db.Valid()
    ensures var a := AddAll(Progress(old(db.assignments), fields, []), db.categories, bookmarkId, adds, now);
      && (a.Refused? ==> reply == Refused(a.status, a.detail))
      && (a.Done? ==>
            var r := RemoveAll(Progress(a.value.assignments, a.value.fields, []), db.categories, bookmarkId, removes);
            reply == Done((r.fields, a.value.names, r.names)) && db.assignments == r.assignments)
  {
    var added := AddCategories(db, bookmarkId, adds, now, fields);
    if added.Refused? {
      return Refused(added.status, added.detail);
    }
    var removedFields, removed := RemoveCategories(db, bookmarkId, removes, added.value.0);
    reply := Done((removedFields, added.value.1, removed));
  }

  /** The body of `update_bookmark` after the bookmark's row was found: changes committed together or not at all. */
  method UpdateFoundBookmark(db: Database, key: string, bookmarkId: int, isRead: Option<bool>, adds: Option<seq<int>>,
                             removes: Option<seq<int>>, now: string)
    returns (reply: Reply<UpdateReply>)
    requires db.Valid() && key in db.tweets && db.tweets[key].id == bookmarkId
    modifies db`tweets, db`assignments
    ensures db.Valid()
    ensures var r := UpdateRow(old(db.tweets), db.categories, old(db.assignments), key, bookmarkId, isRead, adds, removes, now);
      db.tweets == r.tweets && db.assignments == r.assignments && reply == r.reply
  {
    var tweets0, assignments0 := db.tweets, db.assignments;
    var fields: seq<string> := [];
    if isRead.Some? {
      var field := UpdateBookmarkReadStatus(db, key, isRead.value, now);
      fields := [field];
    }
    assert HasTweetRow(db.tweets, bookmarkId) by {
      assert db.tweets[key].id == bookmarkId;
    }
    var changed := ChangeCategories(db, bookmarkId, adds.GetOr([]), removes.GetOr([]), now, fields);
    if changed.Refused? {
      db.tweets, db.assignments := tweets0, assignments0;
      return Refused(changed.status, changed.detail);
    }
    var (removedFields, added, removed) := changed.value;
    var categories := BookmarkCategories(db.assignments, db.categories, bookmarkId);
    reply := Done(UpdateReply(UpdateMessage(removedFields), db.tweets[key], categories, isRead.Some?, added, removed));
  }

  /** `ORDER BY created_at DESC`, ties broken by the primary key. */
  predicate NewerFirst(a: Tweet, b: Tweet) {
    Text.Before(b.createdAt, a.createdAt) || (a.createdAt == b.createdAt && a.id < b.id)
  }

  /** The keys of the rows that are not soft-deleted. */
  function LiveKeys(tweets: map<string, Tweet>): set<string> {
    set k | k in tweets && !tweets[k].isDeleted
  }

  /** The newest-first order on the keys of `tweets`. */
  function ByNewest(tweets: map<string, Tweet>): (string, string) -> bool {
    (a, b) => a in tweets && b in tweets && NewerFirst(tweets[a], tweets[b])
  }

  lemma NewestOrderStrict(tweets: map<string, Tweet>)
    requires RowIdsDistinct(tweets)
    ensures Ordering.StrictTotalOn(LiveKeys(tweets), ByNewest(tweets))
  {
    var before := ByNewest(tweets);
    assert forall a, b :: before(a, b) == (a in tweets && b in tweets && NewerFirst(tweets[a], tweets[b]));
    forall a | a in LiveKeys(tweets) ensures !before(a, a) {
      Text.BeforeIrreflexive(tweets[a].createdAt);
    }
    forall a, b, c | a in LiveKeys(tweets) && b in LiveKeys(tweets) && c in LiveKeys(tweets) && before(a, b) && before(b, c)
      ensures before(a, c)
    {
      var x, y, z := tweets[a].createdAt, tweets[b].createdAt, tweets[c].createdAt;
      if Text.Before(y, x) && Text.Before(z, y) {
        Text.BeforeTransitive(z, y, x);
      }
    }
    forall a, b | a in LiveKeys(tweets) && b in LiveKeys(tweets) && a != b ensures before(a, b) || before(b, a) {
      if tweets[a].createdAt != tweets[b].createdAt {
        Text.BeforeTotal(tweets[a].createdAt, tweets[b].createdAt);
      }
    }
  }

  /** The live rows' keys, newest first. */
  ghost function NewestFirst(tweets: map<string, Tweet>): (r: seq<string>)
    requires RowIdsDistinct(tweets)
    ensures |r| == |LiveKeys(tweets)| && Ordering.SortedBy(r, ByNewest(tweets))
    ensures forall k :: k in r <==> k in LiveKeys(tweets)
  {
    NewestOrderStrict(tweets);
    Ordering.SortBy(LiveKeys(tweets), ByNewest(tweets))
  }

  /**
    SQLite's `LIMIT limit OFFSET skip`: a negative offset counts as zero and
    a negative limit as no limit.
   */
  function Window<T>(s: seq<T>, skip: int, limit: int): (r: seq<T>)
    ensures var from := if skip < 0 then 0 else if skip < |s| then skip else |s|;
      && |r| == (if limit < 0 || |s| - from < limit then |s| - from else limit)
      && forall i :: 0 <= i < |r| ==> r[i] == s[from + i]
  {
    var from := if skip < 0 then 0 else if skip < |s| then skip else |s|;
    var to := if limit < 0 || |s| - from < limit then |s| else from + limit;
    s[from..to]
  }

  /** The rows behind a list of keys. */
  function RowsOf(tweets: map<string, Tweet>, keys: seq<string>): (r: seq<Tweet>)
    requires forall k :: k in keys ==> k in tweets
    ensures |r| == |keys| && forall i :: 0 <= i < |keys| ==> r[i] == tweets[keys[i]]
  {
    if keys == [] then [] else [tweets[keys[0]]] + RowsOf(tweets, keys[1..])
  }

  /** The body of a `list_bookmarks` reply. */
  datatype BookmarkList = BookmarkList(total: int, skip: int, limit: int, count: int, bookmarks: seq<Tweet>)

  function MinLimit(limit: int): int {
    if limit < 1000 then limit else 1000
  }

  /** `list_bookmarks` as written: `min(limit, 1000)` passed to SQLite, where a negative limit means no limit. */
  ghost function ListBookmarksAsWritten(tweets: map<string, Tweet>, skip: int, limit: int): (r: BookmarkList)
    requires RowIdsDistinct(tweets)
  {
    var capped := MinLimit(limit);
    var keys := Window(NewestFirst(tweets), skip, capped);
    BookmarkList(|LiveKeys(tweets)|, skip, capped, |keys|, RowsOf(tweets, keys))
  }

  /** As written, a limit of -1 returns every live bookmark, however many there are, and reports the limit as -1. */
  lemma NegativeLimitIsUnbounded(tweets: map<string, Tweet>)
    requires RowIdsDistinct(tweets)
    ensures var r := ListBookmarksAsWritten(tweets, 0, -1);
      r.limit == -1 && r.count == r.total == |LiveKeys(tweets)| && (r.total > 1000 ==> r.count > 1000)
  {
  }

  /**
    For every limit of at least 0 the listing as written is the corrected one,
    so what is proved of `ListBookmarks` holds of the program as written.
   */
  lemma ListBookmarksAsWrittenAgrees(tweets: map<string, Tweet>, skip: int, limit: int)
    requires RowIdsDistinct(tweets) && 0 <= limit
    ensures ListBookmarksAsWritten(tweets, skip, limit) == ListBookmarks(tweets, skip, limit)
  {
  }

  /** The limit `list_bookmarks` evidently intends: at most 1000 and never negative. */
  function CappedLimit(limit: int): (r: int)
    ensures 0 <= r <= 1000 && (limit >= 0 ==> r <= limit)
    ensures 0 <= limit <= 1000 ==> r == limit
  {
    if limit < 0 then 0 else MinLimit(limit)
  }

  /** `list_bookmarks` with the corrected cap. */
  ghost function ListBookmarks(tweets: map<string, Tweet>, skip: int, limit: int): (r: BookmarkList)
    requires RowIdsDistinct(tweets)
  {
    var capped := CappedLimit(limit);
    var keys := Window(NewestFirst(tweets), skip, capped);
    BookmarkList(|LiveKeys(tweets)|, skip, capped, |keys|, RowsOf(tweets, keys))
  }

  /**
    The sizes `list_bookmarks` promises: at most 1000 bookmarks and at most
    the limit asked for; `total` counts all live rows.
   */
  lemma ListBookmarksCounts(tweets: map<string, Tweet>, skip: int, limit: int)
    requires RowIdsDistinct(tweets)
    ensures var r := ListBookmarks(tweets, skip, limit);
      && r.count == |r.bookmarks| <= 1000 && r.count <= r.limit
      && (limit >= 0 ==> r.count <= limit)
      && r.total == |LiveKeys(tweets)| && r.count <= r.total
  {
  }

  /** Every key in a window of a listing of live keys is the key of a live row. */
  lemma WindowLive(tweets: map<string, Tweet>, sorted: seq<string>, skip: int, limit: int)
    requires forall k :: k in sorted ==> k in LiveKeys(tweets)
    ensures forall k :: k in Window(sorted, skip, limit) ==> k in LiveKeys(tweets)
  {
    var keys := Window(sorted, skip, limit);
    var from := if skip < 0 then 0 else if skip < |sorted| then skip else |sorted|;
    forall k | k in keys ensures k in LiveKeys(tweets) {
      var i :| 0 <= i < |keys| && keys[i] == k;
      assert sorted[from + i] in sorted;
    }
  }

  /** A window of a newest-first listing is newest first. */
  lemma WindowOrdered(tweets: map<string, Tweet>, sorted: seq<string>, skip: int, limit: int)
    requires Ordering.SortedBy(sorted, ByNewest(tweets))
    ensures Ordering.SortedBy(Window(sorted, skip, limit), ByNewest(tweets))
  {
    var keys := Window(sorted, skip, limit);
    var from := if skip < 0 then 0 else if skip < |sorted| then skip else |sorted|;
    forall i, j | 0 <= i < j < |keys| ensures ByNewest(tweets)(keys[i], keys[j]) {
      assert keys[i] == sorted[from + i] && keys[j] == sorted[from + j];
    }
  }

  /** `list_bookmarks` returns live rows only. */
  lemma ListBookmarksLive(tweets: map<string, Tweet>, skip: int, limit: int)
    requires RowIdsDistinct(tweets)
    ensures var r := ListBookmarks(tweets, skip, limit);
      forall i :: 0 <= i < |r.bookmarks| ==> r.bookmarks[i] in tweets.Values && !r.bookmarks[i].isDeleted
  {
    var keys := Window(NewestFirst(tweets), skip, CappedLimit(limit));
    WindowLive(tweets, NewestFirst(tweets), skip, CappedLimit(limit));
    var rows := RowsOf(tweets, keys);
    forall i | 0 <= i < |rows| ensures rows[i] in tweets.Values && !rows[i].isDeleted {
      assert keys[i] in keys;
    }
  }

  /** `list_bookmarks` returns its rows newest first. */
  lemma ListBookmarksOrdered(tweets: map<string, Tweet>, skip: int, limit: int)
    requires RowIdsDistinct(tweets)
    ensures var r := ListBookmarks(tweets, skip, limit);
      forall i, j :: 0 <= i < j < |r.bookmarks| ==> NewerFirst(r.bookmarks[i], r.bookmarks[j])
  {
    var keys := Window(NewestFirst(tweets), skip, CappedLimit(limit));
    WindowOrdered(tweets, NewestFirst(tweets), skip, CappedLimit(limit));
    var rows := RowsOf(tweets, keys);
    forall i, j | 0 <= i < j < |rows| ensures NewerFirst(rows[i], rows[j]) {
      assert ByNewest(tweets)(keys[i], keys[j]);
    }
  }

  /** The rows of a window of keys are the rows of the keys from the offset on. */
  lemma WindowRows(tweets: map<string, Tweet>, sorted: seq<string>, skip: int, limit: int)
    requires forall k :: k in sorted ==> k in tweets
    ensures var rows := RowsOf(tweets, Window(sorted, skip, limit));
      var from := if skip < 0 then 0 else skip;
      forall i :: 0 <= i < |rows| ==> from + i < |sorted| && rows[i] == tweets[sorted[from + i]]
  {
    var keys := Window(sorted, skip, limit);
    var rows := RowsOf(tweets, keys);
    var from := if skip < 0 then 0 else skip;
    if keys != [] {
      assert from < |sorted|;
      forall i | 0 <= i < |rows| ensures from + i < |sorted| && rows[i] == tweets[sorted[from + i]] {
        assert keys[i] == sorted[from + i];
        assert rows[i] == tweets[keys[i]];
      }
    }
  }

  /** `list_bookmarks` returns the newest-first listing from position `skip` on; a negative skip counts as 0. */
  lemma ListBookmarksFromSkip(tweets: map<string, Tweet>, skip: int, limit: int)
    requires RowIdsDistinct(tweets)
    ensures var r := ListBookmarks(tweets, skip, limit);
      var from := if skip < 0 then 0 else skip;
      forall i :: 0 <= i < |r.bookmarks| ==> r.bookmarks[i] == tweets[NewestFirst(tweets)[from + i]]
  {
    WindowRows(tweets, NewestFirst(tweets), skip, CappedLimit(limit));
  }

  /** The body of a `get_stats` reply. */
  datatype Stats = Stats(
    totalBookmarks: int,
    read: int,
    unread: int,
    withImages: int,
    withVideos: int,
    lastSyncStarted: Option<string>,
    lastSyncCompleted: Option<string>,
    lastError: Option<string>)

  /** `get_stats`: counts over the live rows, and the times and error of the sync-state row. */
  function GetStats(tweets: map<string, Tweet>, syncState: Option<SyncState>): Stats {
    var live := LiveKeys(tweets);
    var read := |set k | k in live && tweets[k].isRead|;
    Stats(|live|, read, |live| - read,
          |set k | k in live && tweets[k].hasMediaImage|, |set k | k in live && tweets[k].hasMediaVideo|,
          if syncState.Some? then syncState.value.lastSyncStartedAt else None,
          if syncState.Some? then syncState.value.lastSyncCompletedAt else None,
          if syncState.Some? then syncState.value.lastError else None)
  }

  /**
    The counts of `get_stats` are consistent: `unread` is the number of live
    unread rows, and read, image and video counts never exceed the total.
   */
  lemma StatsConsistent(tweets: map<string, Tweet>, syncState: Option<SyncState>)
    ensures var s := GetStats(tweets, syncState);
      && s.unread == |set k | k in tweets && !tweets[k].isDeleted && !tweets[k].isRead|
      && 0 <= s.read <= s.totalBookmarks && 0 <= s.unread
      && s.withImages <= s.totalBookmarks && s.withVideos <= s.totalBookmarks
  {
    var live := LiveKeys(tweets);
    var read := set k | k in live && tweets[k].isRead;
    var unread := set k | k in tweets && !tweets[k].isDeleted && !tweets[k].isRead;
    assert live == read + unread && read * unread == {};
    SubsetSize((set k | k in live && tweets[k].hasMediaImage), live);
    SubsetSize((set k | k in live && tweets[k].hasMediaVideo), live);
  }

  lemma SubsetSize<T>(a: set<T>, b: set<T>)
    requires a <= b
    ensures |a| <= |b|
  {
    assert b == a + (b - a);
  }
}
