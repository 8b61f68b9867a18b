/**
  The four tables of app/models.py and the constraints the application keeps
  on them, held in memory by a `Database` object.

  - `tweets`: the rows of `Tweet`, keyed by their unique, non-empty `tweet_id`;
    each row also carries its integer primary key `id`.
  - `syncState`: the `SyncState` table, whose `CHECK (id = 1)` allows at most
    the one row with id 1.
  - `categories`: the rows of `Category`, keyed by `id`; names are unique
    across all rows, soft-deleted ones included.
  - `assignments`: the rows of `TweetCategory`, keyed by the pair
    (tweet row id, category id) and holding `added_at`.
 */
module Models {
  import opened Wrappers
  import opened Json

  datatype Tweet = Tweet(
    id: int,
    tweetId: string,
    text: string,
    authorId: string,
    authorUsername: string,
    createdAt: string,
    bookmarkedAt: string,
    isRead: bool,
    hasMediaImage: bool,
    hasMediaVideo: bool,
    url: Option<string>,
    sourceJson: Json,
    isDeleted: bool,
    insertedAt: string,
    updatedAt: string,
    syncStateId: int)

  /** The sync-state row; `pageCursor` is `JNull` when the column is NULL. */
  datatype SyncState = SyncState(
    lastSyncStartedAt: Option<string>,
    lastSyncCompletedAt: Option<string>,
    lastSeenMarker: Option<string>,
    lastError: Option<string>,
    pageCursor: Json,
    bookmarksAdded: Option<int>,
    bookmarksUpdated: Option<int>)

  datatype Category = Category(
    id: int,
    name: string,
    description: Option<string>,
    createdAt: string,
    updatedAt: string,
    isDeleted: bool)

  /** The id the singleton check allows. */
  const SyncStateId := 1

  /** A sync-state row created without values: every column NULL. */
  const BlankSyncState := SyncState(None, None, None, None, JNull, None, None)

  /** No two tweet rows share a primary key. */
  predicate RowIdsDistinct(tweets: map<string, Tweet>) {
    forall a, b :: a in tweets && b in tweets && a != b ==> tweets[a].id != tweets[b].id
  }

  /** `tweet_id` is non-null, non-empty and unique (it is the key), row ids are distinct and below `nextId`. */
  predicate TweetsValid(tweets: map<string, Tweet>, nextId: int) {
    && 1 <= nextId
    && (forall k :: k in tweets ==> tweets[k].tweetId == k && k != "" && 1 <= tweets[k].id < nextId)
    && RowIdsDistinct(tweets)
  }

  /** No two category rows share a name, soft-deleted rows included. */
  predicate NamesDistinct(categories: map<int, Category>) {
    forall a, b :: a in categories && b in categories && a != b ==> categories[a].name != categories[b].name
  }

  /** Category ids match their keys and lie below `nextId`; names are unique across all rows. */
  predicate CategoriesValid(categories: map<int, Category>, nextId: int) {
    && 1 <= nextId
    && (forall c :: c in categories ==> categories[c].id == c && 1 <= c < nextId)
    && NamesDistinct(categories)
  }

  /** Some tweet row has primary key `id`. */
  predicate HasTweetRow(tweets: map<string, Tweet>, id: int) {
    exists k :: k in tweets && tweets[k].id == id
  }

  /** Every assignment refers to an existing tweet row and an existing category row. */
  predicate AssignmentsValid(assignments: map<(int, int), string>, tweets: map<string, Tweet>, categories: map<int, Category>) {
    forall p :: p in assignments ==> HasTweetRow(tweets, p.0) && p.1 in categories
  }

  /** The singleton row after `init_db`: the existing row, or a blank row when there was none. */
  function WithSingletonRow(syncState: Option<SyncState>): (r: Option<SyncState>)
    ensures r.Some?
    ensures syncState.Some? ==> r == syncState
  {
    if syncState.None? then Some(BlankSyncState) else syncState
  }

  /** Running `init_db` again changes nothing. */
  lemma InitDbIdempotent(syncState: Option<SyncState>)
    ensures WithSingletonRow(WithSingletonRow(syncState)) == WithSingletonRow(syncState)
  {
  }

  class Database {
    var tweets: map<string, Tweet>
    var nextTweetId: int
    var syncState: Option<SyncState>
    var categories: map<int, Category>
    var nextCategoryId: int
    var assignments: map<(int, int), string>

    ghost predicate Valid()
      reads this
    {
      && TweetsValid(tweets, nextTweetId)
      && CategoriesValid(categories, nextCategoryId)
      && AssignmentsValid(assignments, tweets, categories)
    }

    /** A database whose tables were just created: all empty. */
    constructor ()
      ensures Valid()
      ensures tweets == map[] && syncState == None && categories == map[] && assignments == map[]
    {
      tweets := map[];
      nextTweetId := 1;
      syncState := None;
      categories := map[];
      nextCategoryId := 1;
      assignments := map[];
    }

    /** `init_db`: inserts the sync-state row with id 1 only when it is absent. */
    method InitDb()
      requires Valid()
      modifies this`syncState
      ensures Valid()
      ensures syncState == WithSingletonRow(old(syncState))
    {
      if syncState.None? {
        syncState := Some(BlankSyncState);
      }
    }
  }
}
