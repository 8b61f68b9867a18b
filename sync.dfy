/**
  The sync engine of app/main.py: `_process_tweet_data` (the upsert of one
  parsed record), `_handle_sync_error` (error capture) and `sync_bookmarks`
  (the page loop with its marker snapshot, cursor-repeat check, marker
  early-stop, per-page cursor commit and counters).

  The upstream API is a finite sequence of fetch results, consumed one per
  request; a request past its end fails with an empty error text. The clock
  is a function of a tick counter: tick 0 is the start of the run, each
  processed record reads the next tick, and the end of the run the one after.

  `sync_bookmarks` as written adds a fresh sync-state row for every run; the
  singleton check on that table makes this fail once `init_db` has created
  row 1 (`BeginRunAsWritten`). The rest of the model runs the corrected
  version, which reuses row 1 (`BeginRun`); see README, Findings.
 */
module Sync {
  import opened Wrappers
  import opened Json
  import Text
  import Ordering
  import opened Models
  import opened TwitterClient

  // ---------------------------------------------------------------------------
  // Upsert of one record
  // ---------------------------------------------------------------------------

  /** The tweets table after an upsert, and the (new, updated) counts it returns. */
  datatype Upserted = Upserted(tweets: map<string, Tweet>, nextId: int, added: nat, updated: nat)

  /** An existing row seen again: new text, source, update time and sync-state id; undeleted. */
  function Refreshed(row: Tweet, rec: TweetRecord, sid: int, now: string): Tweet {
    row.(text := rec.text, sourceJson := rec.sourceJson, updatedAt := now, isDeleted := false, syncStateId := sid)
  }

  /** A new row built from a record; the columns the insert leaves out take their defaults. */
  function Inserted(id: int, rec: TweetRecord, sid: int, now: string): Tweet {
    Tweet(id, rec.tweetId, rec.text, rec.authorId, rec.authorUsername, rec.createdAt, now,
          false, rec.hasMediaImage, rec.hasMediaVideo, rec.url, rec.sourceJson, false, now, now, sid)
  }

  /** `_process_tweet_data` on the tweets table. */
  function Upsert(tweets: map<string, Tweet>, nextId: int, rec: TweetRecord, sid: int, now: string): (r: Upserted)
    ensures r.added + r.updated <= 1
    ensures r.added == 1 <==> rec.tweetId != "" && rec.tweetId !in tweets
    ensures r.updated == 1 <==> rec.tweetId != "" && rec.tweetId in tweets
    ensures r.nextId == nextId + r.added
    ensures r.tweets.Keys == if rec.tweetId == "" then tweets.Keys else tweets.Keys + {rec.tweetId}
    ensures forall k :: k in tweets && k != rec.tweetId ==> r.tweets[k] == tweets[k]
  {
    if rec.tweetId == "" then
      Upserted(tweets, nextId, 0, 0)
    else if rec.tweetId in tweets then
      Upserted(tweets[rec.tweetId := Refreshed(tweets[rec.tweetId], rec, sid, now)], nextId, 0, 1)
    else
      Upserted(tweets[rec.tweetId := Inserted(nextId, rec, sid, now)], nextId + 1, 1, 0)
  }

  /** A record without a `tweet_id` changes nothing and counts nothing. */
  lemma UpsertEmptyId(tweets: map<string, Tweet>, nextId: int, rec: TweetRecord, sid: int, now: string)
    requires rec.tweetId == ""
    ensures Upsert(tweets, nextId, rec, sid, now) == Upserted(tweets, nextId, 0, 0)
  {
  }

  /**
    A known `tweet_id` counts as updated; only text, source, update time and
    sync-state id change, the row is undeleted, and everything else (author,
    media flags, URL, creation, bookmark and insertion times, read flag, row
    id) stays.
   */
  lemma UpsertKnown(tweets: map<string, Tweet>, nextId: int, rec: TweetRecord, sid: int, now: string)
    requires rec.tweetId != "" && rec.tweetId in tweets
    ensures var r := Upsert(tweets, nextId, rec, sid, now);
      var before, after := tweets[rec.tweetId], r.tweets[rec.tweetId];
      && r.added == 0 && r.updated == 1 && r.nextId == nextId
      && after.text == rec.text && after.sourceJson == rec.sourceJson && after.updatedAt == now
      && after.syncStateId == sid && !after.isDeleted
      && after.id == before.id && after.tweetId == before.tweetId
      && after.authorId == before.authorId && after.authorUsername == before.authorUsername
      && after.hasMediaImage == before.hasMediaImage && after.hasMediaVideo == before.hasMediaVideo
      && after.url == before.url && after.createdAt == before.createdAt
      && after.bookmarkedAt == before.bookmarkedAt && after.insertedAt == before.insertedAt
      && after.isRead == before.isRead
  {
  }

  /** An unknown `tweet_id` inserts one row under a fresh id, with the column defaults: unread and not deleted. */
  lemma UpsertUnknown(tweets: map<string, Tweet>, nextId: int, rec: TweetRecord, sid: int, now: string)
    requires rec.tweetId != "" && rec.tweetId !in tweets
    ensures var r := Upsert(tweets, nextId, rec, sid, now);
      var row := r.tweets[rec.tweetId];
      && r.added == 1 && r.updated == 0 && |r.tweets| == |tweets| + 1
      && row.id == nextId && row.tweetId == rec.tweetId && row.text == rec.text
      && row.authorId == rec.authorId && row.authorUsername == rec.authorUsername
      && row.createdAt == rec.createdAt && row.url == rec.url && row.sourceJson == rec.sourceJson
      && row.hasMediaImage == rec.hasMediaImage && row.hasMediaVideo == rec.hasMediaVideo
      && row.bookmarkedAt == now && row.insertedAt == now && row.updatedAt == now
      && row.syncStateId == sid && !row.isRead && !row.isDeleted
  {
  }

  /** The upsert keeps `tweet_id` unique and row ids distinct, and keeps every existing row id. */
  lemma UpsertKeepsValid(tweets: map<string, Tweet>, nextId: int, rec: TweetRecord, sid: int, now: string)
    requires TweetsValid(tweets, nextId)
    ensures var r := Upsert(tweets, nextId, rec, sid, now);
      TweetsValid(r.tweets, r.nextId) && forall id :: HasTweetRow(tweets, id) ==> HasTweetRow(r.tweets, id)
  {
    var r := Upsert(tweets, nextId, rec, sid, now);
    forall id | HasTweetRow(tweets, id) ensures HasTweetRow(r.tweets, id) {
      var k :| k in tweets && tweets[k].id == id;
      assert k in r.tweets && r.tweets[k].id == id;
    }
  }

  /** `_process_tweet_data`: inserts or refreshes the row of one record and returns (new, updated). */
  method ProcessTweetData(db: Database, rec: TweetRecord, sid: int, now: string) returns (added: nat, updated: nat)
    requires db.Valid()
    modifies db`tweets, db`nextTweetId
    ensures db.Valid()
    ensures var r := Upsert(old(db.tweets), old(db.nextTweetId), rec, sid, now);
      db.tweets == r.tweets && db.nextTweetId == r.nextId && added == r.added && updated == r.updated
  {
    UpsertKeepsValid(db.tweets, db.nextTweetId, rec, sid, now);
    if rec.tweetId == "" {
      return 0, 0;
    }
    if rec.tweetId in db.tweets {
      var existing := db.tweets[rec.tweetId];
      db.tweets := db.tweets[rec.tweetId := existing.(text := rec.text, sourceJson := rec.sourceJson,
                                                      updatedAt := now, isDeleted := false, syncStateId := sid)];
      return 0, 1;
    }
    db.tweets := db.tweets[rec.tweetId := Inserted(db.nextTweetId, rec, sid, now)];
    db.nextTweetId := db.nextTweetId + 1;
    return 1, 0;
  }

  // ---------------------------------------------------------------------------
  // Error capture
  // ---------------------------------------------------------------------------

  /** The error text: the exception's message, a newline, then the traceback. */
  function ErrorMessage(error: string, trace: string): string {
    error + "\n" + trace
  }

  /** `_handle_sync_error` on the sync-state table: the first 1000 characters of the message go to `last_error`, if the row exists. */
  function RecordError(syncState: Option<SyncState>, message: string): (r: Option<SyncState>)
    ensures r.Some? <==> syncState.Some?
    ensures r.Some? ==> r.value == syncState.value.(lastError := r.value.lastError)
    ensures r.Some? ==> r.value.lastError.Some? && |r.value.lastError.value| <= 1000 && r.value.lastError.value <= message
    ensures r.Some? ==> r.value.lastError == Some(message[..if |message| <= 1000 then |message| else 1000])
  {
    if syncState.None? then None
    else
      var kept := Text.Truncate(message, 1000);
      assert kept == message[..|kept|];
      Some(syncState.value.(lastError := Some(kept)))
  }

  /** `_handle_sync_error`. */
  method HandleSyncError(db: Database, error: string, trace: string)
    modifies db`syncState
    ensures db.syncState == RecordError(old(db.syncState), ErrorMessage(error, trace))
  {
    var errorMessage := error + "\n" + trace;
    if db.syncState.Some? {
      db.syncState := Some(db.syncState.value.(lastError := Some(Text.Truncate(errorMessage, 1000))));
    }
  }

  // ---------------------------------------------------------------------------
  // The marker snapshot
  // ---------------------------------------------------------------------------

  /**
    The order of the marker query: `sync_state_id` descending, then
    `inserted_at` ascending (string order), then row id, which the model adds
    to break ties.
   */
  predicate MarkerBefore(a: Tweet, b: Tweet) {
    || a.syncStateId > b.syncStateId
    || (a.syncStateId == b.syncStateId && Text.Before(a.insertedAt, b.insertedAt))
    || (a.syncStateId == b.syncStateId && a.insertedAt == b.insertedAt && a.id < b.id)
  }

  lemma MarkerOrderIsStrictTotal(tweets: map<string, Tweet>)
    requires RowIdsDistinct(tweets)
    ensures Ordering.StrictTotalOn(tweets.Values, MarkerBefore)
  {
    forall a | a in tweets.Values ensures !MarkerBefore(a, a) {
      Text.BeforeIrreflexive(a.insertedAt);
    }
    forall a, b, c | a in tweets.Values && b in tweets.Values && c in tweets.Values && MarkerBefore(a, b) && MarkerBefore(b, c)
      ensures MarkerBefore(a, c)
    {
      if a.syncStateId == b.syncStateId == c.syncStateId {
        if Text.Before(a.insertedAt, b.insertedAt) && Text.Before(b.insertedAt, c.insertedAt) {
          Text.BeforeTransitive(a.insertedAt, b.insertedAt, c.insertedAt);
        }
      }
    }
    forall a, b | a in tweets.Values && b in tweets.Values && a != b ensures MarkerBefore(a, b) || MarkerBefore(b, a) {
      var ka :| ka in tweets && tweets[ka] == a;
      var kb :| kb in tweets && tweets[kb] == b;
      assert a.id != b.id;
      if a.insertedAt != b.insertedAt {
        Text.BeforeTotal(a.insertedAt, b.insertedAt);
      }
    }
  }

  /** The `tweet_id` of the first row in marker order, if there is any row (soft-deleted rows included). */
  ghost function MarkerOf(tweets: map<string, Tweet>): (r: Option<string>)
    requires RowIdsDistinct(tweets)
    ensures r.None? <==> tweets == map[]
    ensures r.Some? ==> exists m :: Ordering.IsFirst(tweets.Values, MarkerBefore, m) && m.tweetId == r.value
  {
    if tweets == map[] then None
    else
      MarkerOrderIsStrictTotal(tweets);
      var k :| k in tweets;
      assert tweets[k] in tweets.Values;
      Ordering.FirstExists(tweets.Values, MarkerBefore);
      var m :| Ordering.IsFirst(tweets.Values, MarkerBefore, m);
      Some(m.tweetId)
  }

  /**
    When every row carries the same run id, as it does once every run writes
    row 1, the marker is the `tweet_id` of the earliest inserted row: the
    newest bookmark of the first run, not of the previous one.
   */
  lemma MarkerIsEarliestInserted(tweets: map<string, Tweet>)
    requires RowIdsDistinct(tweets) && tweets != map[]
    requires forall k :: k in tweets ==> tweets[k].syncStateId == SyncStateId
    ensures exists k :: k in tweets && tweets[k].tweetId == MarkerOf(tweets).value &&
              forall j :: j in tweets && j != k ==>
                Text.Before(tweets[k].insertedAt, tweets[j].insertedAt) || tweets[k].insertedAt == tweets[j].insertedAt
  {
    var marker := MarkerOf(tweets);
    assert marker.Some?;
    var m :| Ordering.IsFirst(tweets.Values, MarkerBefore, m) && m.tweetId == marker.value;
    assert m in tweets.Values;
    var k :| k in tweets && tweets[k] == m;
    forall j | j in tweets && j != k
      ensures Text.Before(m.insertedAt, tweets[j].insertedAt) || m.insertedAt == tweets[j].insertedAt
    {
      var other := tweets[j];
      assert other in tweets.Values && other.id != m.id;
      assert MarkerBefore(m, other);
    }
  }

  /** The marker query before the loop (main.py:720-724). */
  method SelectMarker(db: Database) returns (marker: Option<string>)
    requires db.Valid()
    ensures marker == MarkerOf(db.tweets)
  {
    if db.tweets == map[] {
      return None;
    }
    MarkerOrderIsStrictTotal(db.tweets);
    var k :| k in db.tweets;
    assert db.tweets[k] in db.tweets.Values;
    Ordering.FirstExists(db.tweets.Values, MarkerBefore);
    var m :| m in db.tweets.Values && Ordering.IsFirst(db.tweets.Values, MarkerBefore, m);
    ghost var chosen :| Ordering.IsFirst(db.tweets.Values, MarkerBefore, chosen) && chosen.tweetId == MarkerOf(db.tweets).value;
    Ordering.FirstUnique(db.tweets.Values, MarkerBefore, m, chosen);
    marker := Some(m.tweetId);
  }

  // ---------------------------------------------------------------------------
  // Starting a run
  // ---------------------------------------------------------------------------

  /** The run record at the start of a run: the start time set, every other column NULL. */
  function FreshRun(start: string): SyncState {
    BlankSyncState.(lastSyncStartedAt := Some(start))
  }

  /** The id SQLite gives a sync-state row added without one: one past the largest id present. */
  function NewRowId(syncState: Option<SyncState>): int {
    if syncState.Some? then SyncStateId + 1 else SyncStateId
  }

  /**
    Starting a run as written (main.py:727-731): a fresh row is added and
    committed; the commit raises when its id breaks the singleton check.
   */
  function BeginRunAsWritten(syncState: Option<SyncState>, start: string): (r: Outcome<SyncState>)
    ensures r.Ok? <==> syncState.None?
    ensures r.Ok? ==> r.value.lastSyncStartedAt == Some(start) && r.value.lastError.None?
  {
    if NewRowId(syncState) != SyncStateId then Raised else Ok(FreshRun(start))
  }

  /** Once `init_db` has run, every run fails at the start as written. */
  lemma RunFailsAfterInitDbAsWritten(syncState: Option<SyncState>, start: string)
    ensures BeginRunAsWritten(WithSingletonRow(syncState), start).Raised?
  {
  }

  /** Starting a run, corrected: row 1 takes the contents the fresh row was meant to have, whether or not it existed. */
  method BeginRun(db: Database, start: string)
    modifies db`syncState
    ensures db.syncState == Some(FreshRun(start))
    ensures db.syncState.value.lastSyncStartedAt == Some(start) && db.syncState.value.lastError.None?
  {
    db.syncState := Some(FreshRun(start));
  }

  // ---------------------------------------------------------------------------
  // The page loop
  // ---------------------------------------------------------------------------

  /** One response of the upstream API: a decoded page, or the failure of the request. */
  datatype FetchResult = Fetched(response: Json) | FetchFailed(error: string, trace: string)

  /** The tweets table and the counters while records are processed; `tick` is the next clock reading. */
  datatype Batch = Batch(tweets: map<string, Tweet>, nextId: int, added: nat, updated: nat, tick: nat)

  /** The record carries the marker's `tweet_id`. */
  predicate IsMarker(rec: TweetRecord, marker: Option<string>) {
    marker.Some? && rec.tweetId == marker.value
  }

  /** One record processed: the clock is read, the record upserted and its counts added. */
  function Advance(b: Batch, rec: TweetRecord, sid: int, clock: nat -> string): (r: Batch)
    ensures r.tick == b.tick + 1
    ensures b.added <= r.added && b.updated <= r.updated && r.added + r.updated <= b.added + b.updated + 1
  {
    var u := Upsert(b.tweets, b.nextId, rec, sid, clock(b.tick));
    Batch(u.tweets, u.nextId, b.added + u.added, b.updated + u.updated, b.tick + 1)
  }

  /** The records of one page are upserted in order until the marker; the flag tells whether the marker was met. */
  function ProcessRecords(b: Batch, records: seq<TweetRecord>, marker: Option<string>, sid: int, clock: nat -> string): (Batch, bool)
    decreases |records|
  {
    if records == [] then (b, false)
    else if IsMarker(records[0], marker) then (b, true)
    else ProcessRecords(Advance(b, records[0], sid, clock), records[1..], marker, sid, clock)
  }

  /** The position of the first record that carries the marker, or the number of records. */
  function MarkerIndex(records: seq<TweetRecord>, marker: Option<string>): (n: nat)
    ensures n <= |records|
    ensures forall k :: 0 <= k < n ==> !IsMarker(records[k], marker)
    ensures n < |records| ==> IsMarker(records[n], marker)
    decreases |records|
  {
    if records == [] || IsMarker(records[0], marker) then 0 else 1 + MarkerIndex(records[1..], marker)
  }

  /** Processing stops exactly at the marker: the records before it are upserted as if there were no marker, the rest are skipped. */
  lemma {:induction false} ProcessRecordsStopsAtMarker(b: Batch, records: seq<TweetRecord>, marker: Option<string>, sid: int, clock: nat -> string)
    ensures ProcessRecords(b, records, marker, sid, clock).1 <==> MarkerIndex(records, marker) < |records|
    ensures ProcessRecords(b, records, marker, sid, clock).0
            == ProcessRecords(b, records[..MarkerIndex(records, marker)], None, sid, clock).0
    decreases |records|
  {
    var n := MarkerIndex(records, marker);
    if records != [] && !IsMarker(records[0], marker) {
      ProcessRecordsStopsAtMarker(Advance(b, records[0], sid, clock), records[1..], marker, sid, clock);
      assert records[..n][1..] == records[1..][..n - 1];
    }
  }

  /** Each processed record reads one clock tick and adds at most one to the counters, which never decrease. */
  lemma {:induction false} ProcessRecordsCounts(b: Batch, records: seq<TweetRecord>, marker: Option<string>, sid: int, clock: nat -> string)
    ensures var r := ProcessRecords(b, records, marker, sid, clock).0;
      && r.tick == b.tick + MarkerIndex(records, marker)
      && b.added <= r.added && b.updated <= r.updated
      && r.added + r.updated <= b.added + b.updated + MarkerIndex(records, marker)
    decreases |records|
  {
    if records != [] && !IsMarker(records[0], marker) {
      ProcessRecordsCounts(Advance(b, records[0], sid, clock), records[1..], marker, sid, clock);
    }
  }

  /** The loop variables and the run record between two fetches; `fetches` counts the responses consumed. */
  datatype Loop = Loop(batch: Batch, cursor: Json, fetches: nat, pages: nat, total: nat, row: SyncState)

  datatype Failure = Failure(error: string, trace: string)

  datatype StepResult = Continue(next: Loop) | Stop(last: Loop) | Fail(last: Loop, failure: Failure)

  /**
    One iteration of the loop: fetch, parse, the repeat check (before any
    counting), the counters, the records up to the marker (which forces the
    next cursor to `None`), the cursor committed to the run record, and the
    exit when the next cursor is falsy.
   */
  function Step(s: Loop, upstream: seq<FetchResult>, marker: Option<string>, sid: int, clock: nat -> string): (r: StepResult)
    ensures r.Continue? ==> s.fetches < |upstream| && r.next.fetches == s.fetches + 1
  {
    if s.fetches >= |upstream| then Fail(s, Failure("", ""))
    else match upstream[s.fetches]
      case FetchFailed(error, trace) => Fail(s, Failure(error, trace))
      case Fetched(response) =>
        var page := ParseResponse(response);
        var fetched := s.(fetches := s.fetches + 1);
        if s.cursor != JNull && page.nextCursor != JNull && s.cursor == page.nextCursor then
          Stop(fetched)
        else
          PageStep(fetched, page, marker, sid, clock)
  }

  /** The part of an iteration after the repeat check, for a page that was fetched and parsed. */
  function PageStep(s: Loop, page: Page, marker: Option<string>, sid: int, clock: nat -> string): (r: StepResult)
    ensures r.Continue? ==> r.next.fetches == s.fetches
  {
    var (batch, hit) := ProcessRecords(s.batch, page.tweets, marker, sid, clock);
    var next := if hit then JNull else page.nextCursor;
    var stored := s.(batch := batch, pages := s.pages + 1, total := s.total + |page.tweets|, row := s.row.(pageCursor := next));
    if Truthy(next) then Continue(stored.(cursor := next)) else Stop(stored)
  }

  /**
    A parsed page that passed the repeat check is counted (one page, all its
    records), its records are upserted up to the marker, the run record's
    `page_cursor` becomes the page's next cursor (`None` when the marker was
    met), and the loop goes on from that cursor exactly when it is truthy.
   */
  lemma PageStepMeaning(s: Loop, page: Page, marker: Option<string>, sid: int, clock: nat -> string)
    ensures var r := PageStep(s, page, marker, sid, clock);
      var next := if MarkerIndex(page.tweets, marker) < |page.tweets| then JNull else page.nextCursor;
      var after := if r.Continue? then r.next else r.last;
      && !r.Fail?
      && (r.Continue? <==> Truthy(next))
      && after.pages == s.pages + 1 && after.total == s.total + |page.tweets|
      && after.row == s.row.(pageCursor := next)
      && after.cursor == (if r.Continue? then next else s.cursor)
      && after.fetches == s.fetches
      && after.batch == ProcessRecords(s.batch, page.tweets[..MarkerIndex(page.tweets, marker)], None, sid, clock).0
  {
    ProcessRecordsStopsAtMarker(s.batch, page.tweets, marker, sid, clock);
  }

  /** The loop from state `s` to its exit: the last state, and the failure when a fetch failed. */
  function Run(s: Loop, upstream: seq<FetchResult>, marker: Option<string>, sid: int, clock: nat -> string): (Loop, Option<Failure>)
    decreases |upstream| - s.fetches
  {
    match Step(s, upstream, marker, sid, clock)
    case Continue(next) => Run(next, upstream, marker, sid, clock)
    case Stop(last) => (last, None)
    case Fail(last, failure) => (last, Some(failure))
  }

  /** The loop changes only the page cursor of the run record. */
  lemma {:induction false} RunKeepsRow(s: Loop, upstream: seq<FetchResult>, marker: Option<string>, sid: int, clock: nat -> string)
    ensures Run(s, upstream, marker, sid, clock).0.row == s.row.(pageCursor := Run(s, upstream, marker, sid, clock).0.row.pageCursor)
    decreases |upstream| - s.fetches
  {
    match Step(s, upstream, marker, sid, clock)
    case Continue(next) =>
      RunKeepsRow(next, upstream, marker, sid, clock);
    case Stop(_) =>
    case Fail(_, _) =>
  }

  /** `new_bookmarks + updated_bookmarks <= total_fetched` holds at every iteration. */
  lemma {:induction false} RunCounterBound(s: Loop, upstream: seq<FetchResult>, marker: Option<string>, sid: int, clock: nat -> string)
    requires s.batch.added + s.batch.updated <= s.total
    ensures var last := Run(s, upstream, marker, sid, clock).0;
      last.batch.added + last.batch.updated <= last.total
    decreases |upstream| - s.fetches
  {
    if s.fetches < |upstream| && upstream[s.fetches].Fetched? {
      ProcessRecordsCounts(s.batch, ParseResponse(upstream[s.fetches].response).tweets, marker, sid, clock);
    }
    match Step(s, upstream, marker, sid, clock)
    case Continue(next) =>
      RunCounterBound(next, upstream, marker, sid, clock);
    case Stop(_) =>
    case Fail(_, _) =>
  }

  /**
    The committed page cursor follows the cursor of the next request: when a
    fetch fails, the run record holds the cursor that request was made with.
   */
  lemma {:induction false} RunFailureKeepsCursor(s: Loop, upstream: seq<FetchResult>, marker: Option<string>, sid: int, clock: nat -> string)
    requires s.row.pageCursor == s.cursor
    ensures var (last, failure) := Run(s, upstream, marker, sid, clock);
      failure.Some? ==> last.row.pageCursor == last.cursor
    decreases |upstream| - s.fetches
  {
    match Step(s, upstream, marker, sid, clock)
    case Continue(next) =>
      RunFailureKeepsCursor(next, upstream, marker, sid, clock);
    case Stop(_) =>
    case Fail(_, _) =>
  }

  /** A page whose next cursor repeats the current one ends the loop before it is counted or any of its records is upserted. */
  lemma RepeatedCursorStops(s: Loop, upstream: seq<FetchResult>, marker: Option<string>, sid: int, clock: nat -> string, response: Json)
    requires s.fetches < |upstream| && upstream[s.fetches] == Fetched(response)
    requires s.cursor != JNull && ParseResponse(response).nextCursor == s.cursor
    ensures Run(s, upstream, marker, sid, clock) == (s.(fetches := s.fetches + 1), None)
  {
  }

  /**
    A page holding the marker is the last one fetched: the loop ends without
    failure, the whole page counts towards `total_fetched`, the committed
    cursor is `None`, and nothing after that response is consumed.
   */
  lemma MarkerEndsRun(s: Loop, upstream: seq<FetchResult>, marker: Option<string>, sid: int, clock: nat -> string, response: Json)
    requires s.fetches < |upstream| && upstream[s.fetches] == Fetched(response)
    requires !(s.cursor != JNull && ParseResponse(response).nextCursor != JNull && s.cursor == ParseResponse(response).nextCursor)
    requires MarkerIndex(ParseResponse(response).tweets, marker) < |ParseResponse(response).tweets|
    ensures var (last, failure) := Run(s, upstream, marker, sid, clock);
      && failure.None? && last.fetches == s.fetches + 1 && last.pages == s.pages + 1
      && last.total == s.total + |ParseResponse(response).tweets| && last.row.pageCursor == JNull
    ensures Run(s, upstream, marker, sid, clock) == Run(s, upstream[..s.fetches + 1], marker, sid, clock)
  {
    ProcessRecordsStopsAtMarker(s.batch, ParseResponse(response).tweets, marker, sid, clock);
    assert upstream[..s.fetches + 1][s.fetches] == Fetched(response);
  }

  // ---------------------------------------------------------------------------
  // A whole run
  // ---------------------------------------------------------------------------

  /** What `sync_bookmarks` returns: the statistics, or the HTTP 500 detail. */
  datatype SyncResult =
    | Synced(syncStartedAt: string, syncCompletedAt: string, pagesFetched: nat, totalFetched: nat,
             newBookmarks: nat, updatedBookmarks: nat)
    | SyncFailed(detail: string)

  /** The tweets table, the run record and the response after a run. */
  datatype SyncRun = SyncRun(tweets: map<string, Tweet>, nextId: int, row: SyncState, result: SyncResult)

  function InitialLoop(tweets: map<string, Tweet>, nextId: int, start: string): Loop {
    Loop(Batch(tweets, nextId, 0, 0, 1), JNull, 0, 0, 0, FreshRun(start))
  }

  /** The run record on completion: end time, the cursor of the last fetch, and the counters. */
  function CompletedRow(last: Loop, end: string): SyncState {
    last.row.(lastSyncCompletedAt := Some(end), pageCursor := last.cursor,
              bookmarksAdded := Some(last.batch.added), bookmarksUpdated := Some(last.batch.updated))
  }

  /** The end of a run: the completion written to the run record, or the failure handled by `_handle_sync_error`. */
  function Finish(last: Loop, failure: Option<Failure>, clock: nat -> string): SyncRun {
    match failure
    case None =>
      var end := clock(last.batch.tick);
      SyncRun(last.batch.tweets, last.batch.nextId, CompletedRow(last, end),
              Synced(clock(0), end, last.pages, last.total, last.batch.added, last.batch.updated))
    case Some(f) =>
      SyncRun(last.batch.tweets, last.batch.nextId, RecordError(Some(last.row), ErrorMessage(f.error, f.trace)).value,
              SyncFailed("Sync failed: " + f.error))
  }

  /** `sync_bookmarks` (corrected start), from the tweets table, the upstream responses and the clock. */
  ghost function SyncSpec(tweets: map<string, Tweet>, nextId: int, upstream: seq<FetchResult>, clock: nat -> string): SyncRun
    requires RowIdsDistinct(tweets)
  {
    var (last, failure) := Run(InitialLoop(tweets, nextId, clock(0)), upstream, MarkerOf(tweets), SyncStateId, clock);
    Finish(last, failure, clock)
  }

  /**
    A successful run reports at most one new-or-updated bookmark per fetched
    record, and stores its start and end times and counters in the run record,
    with no error.
   */
  lemma SyncSucceeded(tweets: map<string, Tweet>, nextId: int, upstream: seq<FetchResult>, clock: nat -> string)
    requires RowIdsDistinct(tweets)
    ensures var r := SyncSpec(tweets, nextId, upstream, clock);
      var (last, failure) := Run(InitialLoop(tweets, nextId, clock(0)), upstream, MarkerOf(tweets), SyncStateId, clock);
      r.result.Synced? ==>
        && failure.None?
        && r.result.pagesFetched == last.pages && r.result.totalFetched == last.total
        && r.tweets == last.batch.tweets && r.row.pageCursor == last.cursor
        && r.result.newBookmarks + r.result.updatedBookmarks <= r.result.totalFetched
        && r.result.syncStartedAt == clock(0)
        && r.row.lastSyncStartedAt == Some(clock(0)) && r.row.lastSyncCompletedAt == Some(r.result.syncCompletedAt)
        && r.row.bookmarksAdded == Some(r.result.newBookmarks) && r.row.bookmarksUpdated == Some(r.result.updatedBookmarks)
        && r.row.lastError.None?
  {
    var start := InitialLoop(tweets, nextId, clock(0));
    RunCounterBound(start, upstream, MarkerOf(tweets), SyncStateId, clock);
    RunKeepsRow(start, upstream, MarkerOf(tweets), SyncStateId, clock);
  }

  /**
    A failed run keeps the bookmarks saved before the failure, stores the first
    1000 characters of the error and its traceback, leaves the completion time
    unset, keeps the cursor of the request that failed, and replies
    "Sync failed: " with the error.
   */
  lemma SyncFailedRecordsError(tweets: map<string, Tweet>, nextId: int, upstream: seq<FetchResult>, clock: nat -> string)
    requires RowIdsDistinct(tweets)
    ensures var r := SyncSpec(tweets, nextId, upstream, clock);
      var (last, failure) := Run(InitialLoop(tweets, nextId, clock(0)), upstream, MarkerOf(tweets), SyncStateId, clock);
      r.result.SyncFailed? ==>
        && r.row.lastError.Some? && |r.row.lastError.value| <= 1000
        && r.row.lastSyncStartedAt == Some(clock(0)) && r.row.lastSyncCompletedAt.None?
        && r.row.pageCursor == last.cursor
        && failure.Some? && r.tweets == last.batch.tweets
        && r.row.lastError == Some(Text.Truncate(ErrorMessage(failure.value.error, failure.value.trace), 1000))
        && r.result == SyncFailed("Sync failed: " + failure.value.error)
  {
    var start := InitialLoop(tweets, nextId, clock(0));
    RunKeepsRow(start, upstream, MarkerOf(tweets), SyncStateId, clock);
    RunFailureKeepsCursor(start, upstream, MarkerOf(tweets), SyncStateId, clock);
  }

  /**
    The loop over the records of one page (main.py:760-770): returns the
    advanced clock and counters, and whether it stopped at the marker.
   */
  method ProcessPage(db: Database, records: seq<TweetRecord>, marker: Option<string>, clock: nat -> string,
                     tick: nat, added: nat, updated: nat)
    returns (tick': nat, added': nat, updated': nat, hit: bool)
    requires db.Valid()
    modifies db`tweets, db`nextTweetId
    ensures db.Valid()
    ensures ProcessRecords(Batch(old(db.tweets), old(db.nextTweetId), added, updated, tick), records, marker, SyncStateId, clock)
            == (Batch(db.tweets, db.nextTweetId, added', updated', tick'), hit)
  {
    tick', added', updated', hit := tick, added, updated, false;
    var i := 0;
    while i < |records|
      invariant 0 <= i <= |records|
      invariant db.Valid()
      invariant ProcessRecords(Batch(db.tweets, db.nextTweetId, added', updated', tick'), records[i..], marker, SyncStateId, clock)
                == ProcessRecords(Batch(old(db.tweets), old(db.nextTweetId), added, updated, tick), records, marker, SyncStateId, clock)
    {
      if marker.Some? && records[i].tweetId == marker.value {
        hit := true;
        return;
      }
      ghost var before := Batch(db.tweets, db.nextTweetId, added', updated', tick');
      var now := clock(tick');
      var newCount, updatedCount := ProcessTweetData(db, records[i], SyncStateId, now);
      added' := added' + newCount;
      updated' := updated' + updatedCount;
      tick' := tick' + 1;
      assert Advance(before, records[i], SyncStateId, clock) == Batch(db.tweets, db.nextTweetId, added', updated', tick');
      assert records[i..][1..] == records[i + 1..];
      i := i + 1;
    }
  }

  /** How one iteration of the fetch loop ends: with another request, with `break`, or with a raised fetch. */
  datatype Exit = Again | Break | Raise(failure: Failure)

  /**
    One iteration of the `while True` loop of `sync_bookmarks`
    (main.py:744-783): fetch, the repeated-cursor check, the records of the
    page, and the commit of the next cursor.
   */
  method FetchPage(db: Database, upstream: seq<FetchResult>, marker: Option<string>, clock: nat -> string,
                   cursor: Json, fetches: nat, pagesFetched: nat, totalFetched: nat, tick: nat,
                   newBookmarks: nat, updatedBookmarks: nat)
    returns (cursor': Json, fetches': nat, pagesFetched': nat, totalFetched': nat, tick': nat,
             newBookmarks': nat, updatedBookmarks': nat, exit: Exit)
    requires db.Valid() && db.syncState.Some?
    modifies db`tweets, db`nextTweetId, db`syncState
    ensures db.Valid() && db.syncState.Some?
    ensures var before := Loop(Batch(old(db.tweets), old(db.nextTweetId), newBookmarks, updatedBookmarks, tick), cursor,
                               fetches, pagesFetched, totalFetched, old(db.syncState).value);
      var after := Loop(Batch(db.tweets, db.nextTweetId, newBookmarks', updatedBookmarks', tick'), cursor',
                        fetches', pagesFetched', totalFetched', db.syncState.value);
      Step(before, upstream, marker, SyncStateId, clock)
      == match exit
         case Again => Continue(after)
         case Break => Stop(after)
         case Raise(failure) => Fail(after, failure)
  {
    cursor', fetches', pagesFetched', totalFetched', tick', newBookmarks', updatedBookmarks' :=
      cursor, fetches, pagesFetched, totalFetched, tick, newBookmarks, updatedBookmarks;
    ghost var s := Loop(Batch(db.tweets, db.nextTweetId, newBookmarks, updatedBookmarks, tick), cursor, fetches,
                        pagesFetched, totalFetched, db.syncState.value);
    if fetches >= |upstream| {
      return cursor', fetches', pagesFetched', totalFetched', tick', newBookmarks', updatedBookmarks', Raise(Failure("", ""));
    }
    var fetch := upstream[fetches];
    if fetch.FetchFailed? {
      return cursor', fetches', pagesFetched', totalFetched', tick', newBookmarks', updatedBookmarks', Raise(Failure(fetch.error, fetch.trace));
    }
    fetches' := fetches + 1;
    var tweets, nextCursor := ParseBookmarksResponse(fetch.response);
    var page := Page(tweets, nextCursor);
    if cursor != JNull && nextCursor != JNull && cursor == nextCursor {
      return cursor', fetches', pagesFetched', totalFetched', tick', newBookmarks', updatedBookmarks', Break;
    }
    assert Step(s, upstream, marker, SyncStateId, clock) == PageStep(s.(fetches := fetches'), page, marker, SyncStateId, clock);
    cursor', pagesFetched', totalFetched', tick', newBookmarks', updatedBookmarks', exit :=
      StorePage(db, page, marker, clock, cursor, fetches', pagesFetched, totalFetched, tick, newBookmarks, updatedBookmarks);
  }

  /**
    The part of an iteration after the repeated-cursor check
    (main.py:756-783): the records of the page, the commit of the next cursor
    and the exit test.
   */
  method StorePage(db: Database, page: Page, marker: Option<string>, clock: nat -> string,
                   cursor: Json, fetches: nat, pagesFetched: nat, totalFetched: nat, tick: nat,
                   newBookmarks: nat, updatedBookmarks: nat)
    returns (cursor': Json, pagesFetched': nat, totalFetched': nat, tick': nat,
             newBookmarks': nat, updatedBookmarks': nat, exit: Exit)
    requires db.Valid() && db.syncState.Some?
    modifies db`tweets, db`nextTweetId, db`syncState
    ensures db.Valid() && db.syncState.Some? && !exit.Raise?
    ensures var before := Loop(Batch(old(db.tweets), old(db.nextTweetId), newBookmarks, updatedBookmarks, tick), cursor,
                               fetches, pagesFetched, totalFetched, old(db.syncState).value);
      var after := Loop(Batch(db.tweets, db.nextTweetId, newBookmarks', updatedBookmarks', tick'), cursor',
                        fetches, pagesFetched', totalFetched', db.syncState.value);
      PageStep(before, page, marker, SyncStateId, clock) == if exit.Again? then Continue(after) else Stop(after)
  {
    ghost var before := Loop(Batch(db.tweets, db.nextTweetId, newBookmarks, updatedBookmarks, tick), cursor,
                             fetches, pagesFetched, totalFetched, db.syncState.value);
    pagesFetched' := pagesFetched + 1;
    totalFetched' := totalFetched + |page.tweets|;
    var hit;
    tick', newBookmarks', updatedBookmarks', hit := ProcessPage(db, page.tweets, marker, clock, tick, newBookmarks, updatedBookmarks);
    var nextCursor := if hit then JNull else page.nextCursor;
    db.syncState := Some(db.syncState.value.(pageCursor := nextCursor));
    assert db.Valid();
    ghost var stored := Loop(Batch(db.tweets, db.nextTweetId, newBookmarks', updatedBookmarks', tick'), cursor,
                             fetches, pagesFetched', totalFetched', db.syncState.value);
    assert PageStep(before, page, marker, SyncStateId, clock)
           == if Truthy(nextCursor) then Continue(stored.(cursor := nextCursor)) else Stop(stored);
    if Truthy(nextCursor) {
      cursor' := nextCursor;
      exit := Again;
    } else {
      cursor' := cursor;
      exit := Break;
    }
  }

  /**
    The `while True` loop of `sync_bookmarks` (main.py:743-783), from the
    state right after the run record was started: returns the loop variables
    at exit and the failure of the fetch that raised, if one did.
   */
  method FetchPages(db: Database, upstream: seq<FetchResult>, marker: Option<string>, clock: nat -> string)
    returns (cursor: Json, fetches: nat, pagesFetched: nat, totalFetched: nat, tick: nat,
             newBookmarks: nat, updatedBookmarks: nat, failure: Option<Failure>)
    requires db.Valid() && db.syncState.Some?
    modifies db`tweets, db`nextTweetId, db`syncState
    ensures db.Valid() && db.syncState.Some?
    ensures Run(Loop(Batch(old(db.tweets), old(db.nextTweetId), 0, 0, 1), JNull, 0, 0, 0, old(db.syncState).value),
                upstream, marker, SyncStateId, clock)
            == (Loop(Batch(db.tweets, db.nextTweetId, newBookmarks, updatedBookmarks, tick), cursor, fetches,
                     pagesFetched, totalFetched, db.syncState.value), failure)
  {
    totalFetched, newBookmarks, updatedBookmarks, pagesFetched := 0, 0, 0, 0;
    cursor := JNull;
    tick := 1;
    fetches := 0;
    ghost var goal := Run(Loop(Batch(db.tweets, db.nextTweetId, 0, 0, 1), JNull, 0, 0, 0, db.syncState.value),
                          upstream, marker, SyncStateId, clock);
    while true
      invariant db.Valid() && db.syncState.Some?
      invariant Run(Loop(Batch(db.tweets, db.nextTweetId, newBookmarks, updatedBookmarks, tick), cursor, fetches,
                         pagesFetched, totalFetched, db.syncState.value), upstream, marker, SyncStateId, clock)
                == goal
      decreases |upstream| - fetches
    {
      var exit;
      cursor, fetches, pagesFetched, totalFetched, tick, newBookmarks, updatedBookmarks, exit :=
        FetchPage(db, upstream, marker, clock, cursor, fetches, pagesFetched, totalFetched, tick, newBookmarks, updatedBookmarks);
      match exit
      case Again =>
      case Break =>
        return cursor, fetches, pagesFetched, totalFetched, tick, newBookmarks, updatedBookmarks, None;
      case Raise(f) =>
        return cursor, fetches, pagesFetched, totalFetched, tick, newBookmarks, updatedBookmarks, Some(f);
    }
  }

  /** `sync_bookmarks`, with the corrected start of the run. */
  method SyncBookmarks(db: Database, upstream: seq<FetchResult>, clock: nat -> string) returns (result: SyncResult)
    requires db.Valid()
    modifies db`tweets, db`nextTweetId, db`syncState
    ensures db.Valid()
    ensures var r := SyncSpec(old(db.tweets), old(db.nextTweetId), upstream, clock);
      db.tweets == r.tweets && db.nextTweetId == r.nextId && db.syncState == Some(r.row) && result == r.result
  {
    var syncStart := clock(0);
    var marker := SelectMarker(db);
    BeginRun(db, syncStart);
    var cursor, fetches, pagesFetched, totalFetched, tick, newBookmarks, updatedBookmarks, failure :=
      FetchPages(db, upstream, marker, clock);

    if failure.Some? {
      HandleSyncError(db, failure.value.error, failure.value.trace);
      result := SyncFailed("Sync failed: " + failure.value.error);
    } else {
      var syncEnd := clock(tick);
      db.syncState := Some(db.syncState.value.(lastSyncCompletedAt := Some(syncEnd), pageCursor := cursor,
                                               bookmarksAdded := Some(newBookmarks), bookmarksUpdated := Some(updatedBookmarks)));
      result := Synced(syncStart, syncEnd, pagesFetched, totalFetched, newBookmarks, updatedBookmarks);
    }
  }
}
