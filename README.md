# Twitter bookmark manager — a verified model of its core

The bookmark manager keeps a local SQLite copy of a user's Twitter/X
bookmarks. A sync run pages through the bookmarks timeline and parses each
response into tweet records. It inserts new tweets and refreshes known ones,
and it stops at a marker: the record whose tweet id is on the first row when
the table is ordered by run id descending, then by insertion time. Every run
writes run id 1, so that row is the earliest inserted one: the newest
bookmark of the first run, not of the previous run (see "## Left out"). A small
HTTP API lists, counts and updates the stored bookmarks, and manages the
categories a user files them under.

This project models that core in Dafny:

- `twitter_client.dfy`: parsing of a timeline response (`parse_bookmarks_response`,
  `_extract_tweet_data`). JSON values are a datatype. Python's `dict.get`, truthiness and
  iteration are written out in `json.dfy`.
- `models.dfy`: the four tables as row datatypes. The database is a `Database`
  class whose fields are the tables. `Valid()` holds the invariants the
  endpoints keep: unique tweet ids, unique category names (both are unique
  columns in the schema), and that every `tweet_categories` row names an
  existing tweet and category. SQLite does not enforce that last one here,
  since `PRAGMA foreign_keys` is never switched on; the model proves that the
  endpoints keep it. The class also models `init_db`.
- `sync.dfy`: the upsert of one record, the error record, the marker query and
  the page loop of `sync_bookmarks`. Each is specified by functions such as
  `Upsert`, `Step`, `Run` and `SyncSpec`, and the imperative methods are proved
  against them.
- `categories.dfy`: name validation, the duplicate check, `create_category`,
  `delete_category` (a soft delete) and `list_categories`.
- `bookmarks.dfy`:
  - the read flag and category assignment helpers;
  - `update_bookmark`, which commits all of its changes or none;
  - `list_bookmarks`, newest first, with offset and limit;
  - `get_stats`.
- `text.dfy`: `str.strip`, truncation, joining and `str(int)`, plus SQLite's
  BINARY order on text (lexicographic). `ordering.dfy` sorts a finite set by
  a strict total order; it stands for an `ORDER BY`.
- `wrappers.dfy`, `http.dfy`: `Option`, and `Reply` (a result, or an
  `HTTPException` with status and detail).

Time comes in as a parameter:
- Each request receives `now`.
- A sync run receives `clock: nat -> string`. `clock(0)` is the start time, then
  one tick per processed record, and the next tick is the completion time.

The upstream API is a sequence of `FetchResult`s: either a decoded page or a
failed request.

## Model

| member | source | states |
|---|---|---|
| Json.Get | app/twitter_client.py:125-146 | `obj.get(key, default)`: succeeds exactly on objects, and gives the value at the key or the default |
| Json.Iterate | app/twitter_client.py:128-132 | a `for` over a list yields its items; an empty string or dict yields nothing; anything else raises |
| TwitterClient.MediaFoldMeaning | app/twitter_client.py:171-178 | the media loop succeeds iff every item is a dict; the image flag is set iff some item is a photo, the video flag iff some item is a video or animated GIF |
| TwitterClient.MediaExamples | app/twitter_client.py:169-178 | no media gives no flags; a photo and an animated GIF set both flags |
| TwitterClient.StatusUrlMeaning | app/twitter_client.py:181 | the status URL exists iff author and tweet id are non-empty, and is `https://x.com/<author>/status/<id>` |
| TwitterClient.ExtractedText | app/twitter_client.py:184-190 | for an extraction that succeeds, with `legacy` read as `{}` when absent: without a truthy `note_tweet` the text is the legacy `full_text` (default ""); with one, its text is read without raising, and the text is the note's text when that is non-empty and `full_text` when it is empty or missing |
| TwitterClient.ExtractTweet | app/twitter_client.py:156-203 | the record `_extract_tweet_data` builds, or the exception it raises; its fields are characterised by `MediaFoldMeaning`, `StatusUrlMeaning` and `ExtractedText` |
| TwitterClient.MediaList | app/twitter_client.py:169 | `extended_entities.media`, falling back to `entities.media`, then to an empty list; the media loop over it is characterised by `MediaFoldMeaning` |
| TwitterClient.TweetText | app/twitter_client.py:184-190 | the text choice between `note_tweet` and `full_text`; characterised by `ExtractedText` |
| TwitterClient.ExtractTweetData | app/twitter_client.py:156-203 | the imperative extraction (with its media loop) yields exactly the record `ExtractTweet` specifies, or raises where it raises |
| TwitterClient.ClassifyAll | app/twitter_client.py:132-149 | classifies the longest prefix of entries that do not raise; reports whether every entry was classified, and that the first unclassified one raises |
| TwitterClient.CursorEntriesYieldNoRecord | app/twitter_client.py:136-139 | a `cursor-bottom` entry never yields a record; it sets the cursor iff its content has `cursorType == "Bottom"`, and then to the content's `value` (null when absent) |
| TwitterClient.ClassifyOnlyByPrefix | app/twitter_client.py:133-149 | only the entry id decides: a cursor comes only from a `cursor-bottom` id, a record only from a `tweet-` id that is not also `cursor-bottom`, and any other string id (or none) is skipped |
| TwitterClient.TweetEntriesNeedTypeTweet | app/twitter_client.py:142-149 | a `tweet-` entry yields a record iff its result has `__typename == "Tweet"` and extraction succeeds, and then the record is the extracted one |
| TwitterClient.LastCursorAppend | app/twitter_client.py:136-139 | the next cursor is the value of the last bottom-cursor entry seen |
| TwitterClient.LastCursorPrepend | app/twitter_client.py:136-139 | a leading entry only changes the cursor that the rest of the entries start from |
| TwitterClient.ApplyThenRest | app/twitter_client.py:132-149 | applying one entry and then the rest collects the same records and cursor as applying them all together |
| TwitterClient.EntriesFoldMeaning | app/twitter_client.py:132-149 | the entries loop appends exactly the records of the classified prefix and ends with its last cursor; it stops early exactly when an entry raises |
| TwitterClient.IgnoredInstructionsDropOut | app/twitter_client.py:128-130 | instructions whose type is not `TimelineAddEntries` contribute nothing |
| TwitterClient.ParseEntry | app/twitter_client.py:132-149 | one entry processed in place matches the specification step (`EntryStep`), including the raising case |
| TwitterClient.ParseEntries | app/twitter_client.py:132-149 | the imperative entries loop equals `EntriesFold`: same records, same cursor, same early stop |
| TwitterClient.ParseResponse | app/twitter_client.py:111-154 | the records and cursor `parse_bookmarks_response` returns; characterised by `EntriesFoldMeaning`, `IgnoredInstructionsDropOut` and the entry lemmas above |
| TwitterClient.ParseBookmarksResponse | app/twitter_client.py:111-154 | the imperative parser returns exactly `ParseResponse`; an exception keeps what was collected before it |
| Models.WithSingletonRow | app/models.py:105-119 | after `init_db` the singleton sync-state row exists, and an existing row is left as it was |
| Models.InitDbIdempotent | app/models.py:105-119 | running `init_db` twice is the same as running it once |
| Models.Database.constructor | app/models.py:17-93 | a new database has empty tables and satisfies the schema constraints |
| Models.Database.InitDb | app/models.py:105-119 | `init_db` keeps the constraints and leaves the sync-state table as `WithSingletonRow` of the old one |
| Sync.Upsert | app/main.py:262-305 | counts are (1,0) iff the id is new and non-empty and (0,1) iff it is known; the id counter grows only on insert; keys grow by at most the record's id; other rows are untouched |
| Sync.UpsertEmptyId | app/main.py:272-273 | a record without a tweet id changes nothing and counts nothing |
| Sync.UpsertKnown | app/main.py:279-286 | a known tweet gets the new text, source JSON, update time and run id, is undeleted, and keeps all its other columns |
| Sync.UpsertUnknown | app/main.py:287-305 | a new tweet gets the next row id, the record's columns, `now` as bookmarked, inserted and updated time, and starts unread and live |
| Sync.UpsertKeepsValid | app/main.py:262-305 | an upsert keeps tweet ids unique and row ids below the counter, and never removes a row id |
| Sync.ProcessTweetData | app/main.py:262-305 | the in-place upsert changes the tweets table exactly as `Upsert` says and keeps the database constraints |
| Sync.RecordError | app/main.py:308-318 | the error is stored only when the row exists, as exactly the message's first 1000 characters (`error_msg[:1000]`), and no other column changes |
| Sync.HandleSyncError | app/main.py:308-318 | the sync-state table afterwards is `RecordError` of the old one with the message and traceback |
| Sync.MarkerOrderIsStrictTotal | app/main.py:720-724 | ordering by run id descending, then insertion time (ties by row id), is a strict total order on the rows |
| Sync.MarkerOf | app/main.py:720-724 | there is no marker iff the table is empty; otherwise the marker is the tweet id of the first row in that order |
| Sync.MarkerIsEarliestInserted | app/main.py:720-731 | when every row carries run id 1, the marker belongs to a row inserted no later than any other row |
| Sync.SelectMarker | app/main.py:720-724 | selects the first row in marker order; equals `MarkerOf` |
| Sync.BeginRunAsWritten | app/main.py:727-731 | as written, starting a run succeeds iff there is no sync-state row yet |
| Sync.RunFailsAfterInitDbAsWritten | app/main.py:727-731 | after `init_db`, every run as written fails at its first commit |
| Sync.BeginRun | app/main.py:727-731 | corrected: the singleton row holds the start time and no error |
| Sync.Advance | app/main.py:765-770 | each processed record takes one clock tick and adds at most one to the new-or-updated counters |
| Sync.MarkerIndex | app/main.py:760-763 | the index of the first record carrying the marker, or the page length when there is none |
| Sync.ProcessRecordsStopsAtMarker | app/main.py:760-763 | the page loop reports a marker hit iff the marker occurs, and processes exactly the records before it |
| Sync.ProcessRecordsCounts | app/main.py:760-770 | a page takes one tick per record before the marker, and its counters grow by at most that many |
| Sync.Step | app/main.py:743-783 | an iteration continues only after consuming one more upstream response |
| Sync.PageStep | app/main.py:756-783 | handling a parsed page never consumes another response |
| Sync.PageStepMeaning | app/main.py:756-783 | a parsed page never fails; it adds one page and its record count to the totals, processes exactly the records before the marker, stores as `page_cursor` the next cursor (null after a marker hit), and continues iff that cursor is truthy |
| Sync.RunKeepsRow | app/main.py:743-783 | the loop changes no sync-state column except `page_cursor` |
| Sync.Run | app/main.py:743-783 | the `while True` loop as repeated `Step`s until a stop or a failure; characterised by `RunKeepsRow`, `RunCounterBound`, `RunFailureKeepsCursor`, `RepeatedCursorStops` and `MarkerEndsRun` |
| Sync.RunCounterBound | app/main.py:756-770 | new plus updated bookmarks never exceed the total fetched |
| Sync.RunFailureKeepsCursor | app/main.py:776-777 | when the loop fails, the stored `page_cursor` is the cursor of the last request |
| Sync.RepeatedCursorStops | app/main.py:749-754 | a page that repeats the current non-null cursor ends the run without processing it |
| Sync.MarkerEndsRun | app/main.py:756-781 | a page holding the marker is counted, clears the stored cursor and ends the run; later responses do not matter |
| Sync.SyncSucceeded | app/main.py:785-801 | a successful run stores its start and end times and counters with no error, stores the loop's page and record totals and its last `page_cursor`, keeps the loop's tweets table, and reports new plus updated at most total fetched |
| Sync.SyncSpec | app/main.py:705-805 | the whole `sync_bookmarks` run: marker, loop and final record; characterised by `SyncSucceeded` and `SyncFailedRecordsError` |
| Sync.SyncFailedRecordsError | app/main.py:803-805 | a failed run keeps the bookmarks saved on earlier pages, stores `(error + "\n" + traceback)[:1000]` (at most 1000 characters), keeps the start time, has no completion time, keeps the last cursor, and replies `Sync failed: <error>` |
| Sync.ProcessPage | app/main.py:760-770 | the in-place record loop equals `ProcessRecords` on the tables and counters |
| Sync.StorePage | app/main.py:756-783 | the in-place handling of a parsed page equals `PageStep` and never fails |
| Sync.FetchPage | app/main.py:743-783 | one in-place iteration equals `Step`: continue, stop or fail, with the same state |
| Sync.FetchPages | app/main.py:743-783 | the imperative `while True` loop ends in exactly the state and failure `Run` specifies |
| Sync.SyncBookmarks | app/main.py:705-805 | the whole endpoint leaves the tables and result that `SyncSpec` specifies, and keeps the constraints |
| Text.TrimStart | app/main.py:223 | the result is a suffix of the input, with only whitespace removed, and does not start with whitespace |
| Text.TrimEnd | app/main.py:223 | the result is a prefix of the input, with only whitespace removed, and does not end with whitespace |
| Text.StripSlice | app/main.py:223 | `strip()` returns a slice of the input with only whitespace cut off at either end |
| Text.StripEnds | app/main.py:236 | a stripped name neither starts nor ends with whitespace |
| Text.StripEmptyIff | app/main.py:223 | `len(name.strip()) == 0` iff the name is all whitespace |
| Text.StripIdempotent | app/main.py:580 | stripping a stored (already stripped) name changes nothing |
| Text.Truncate | app/main.py:317 | `s[:n]` is a prefix of `s` of length `min(len(s), n)` |
| Text.Digits | app/main.py:211 | the decimal digits of a natural number: non-empty, only digits, no leading zero, and their decimal value is the number |
| Text.IntToString | app/main.py:211 | `str(n)` starts with `-` iff `n` is negative, and the rest is the canonical decimal digits of `abs(n)` |
| Text.BeforeIrreflexive | app/main.py:635 | no name sorts before itself |
| Text.BeforeTransitive | app/main.py:635 | the name order is transitive |
| Text.BeforeTotal | app/main.py:635 | of two different names, one sorts first |
| Text.BeforeAsymmetric | app/main.py:635 | two names never sort before each other |
| Categories.ValidateCategoryName | app/main.py:221-229 | a name passes iff it is not all whitespace and has at most 120 characters; otherwise 400 |
| Categories.CheckCategoryExists | app/main.py:232-243 | 409 iff a live category already has the stripped name, with the unstripped name in the detail |
| Categories.CreationOutcome | app/main.py:558-607 | 400 iff the name is blank or too long; 409 iff the stripped name is taken by any row, live or deleted; otherwise a new live category is stored under the next id with the stripped name, the stripped description (NULL when none or an empty one was given) and `now` as both times; a refusal changes nothing |
| Categories.CategoryCreation | app/main.py:558-612 | the table and reply of `create_category`; characterised by `CreationOutcome`, `DeletedNameStaysTaken` and `CreationKeepsValid` |
| Categories.DeletedNameStaysTaken | app/main.py:602-607 | a soft-deleted category's name still cannot be reused: creation is refused and nothing changes |
| Categories.CreationKeepsValid | app/main.py:579-588 | creation keeps category names unique and ids below the counter |
| Categories.CreateCategory | app/main.py:558-612 | the in-place creation changes the table exactly as `CategoryCreation` says and keeps the constraints |
| Categories.DeletionOutcome | app/main.py:647-690 | 404 iff the id is unknown; 410 iff it is already deleted; otherwise only that category changes, to deleted with `now` as update time, and is returned with the message "Category '<name>' marked as deleted"; a refusal changes nothing |
| Categories.CategoryDeletion | app/main.py:647-698 | the table and reply of `delete_category`; characterised by `DeletionOutcome`, `DeleteTwice` and `DeletionKeepsValid` |
| Categories.DeleteTwice | app/main.py:669-673 | deleting the same category twice gives 410 the second time and changes nothing |
| Categories.DeletionKeepsValid | app/main.py:675-678 | a soft delete keeps the category constraints |
| Categories.DeleteCategory | app/main.py:647-698 | the in-place soft delete changes the table exactly as `CategoryDeletion` says and keeps the constraints |
| Categories.NameOrderStrict | app/main.py:635 | ordering by name is a strict total order on the categories, since names are unique |
| Categories.ListCategories | app/main.py:615-640 | the listing is sorted by name without duplicates, and holds a category iff it is live or deleted ones were asked for |
| Categories.DeletedHiddenFromListing | app/main.py:630-635 | after a soft delete the deleted row is not in the default listing but is in the one that includes deleted categories, and names stay unique |
| Bookmarks.LiveRowKey | app/main.py:471-480 | finds the unique live row with the given row id, and finds none exactly when no live row has it |
| Bookmarks.UpdateBookmarkReadStatus | app/main.py:148-154 | only the bookmark's read flag and update time change, and the field message is `is_read=true/false` |
| Bookmarks.Adding | app/main.py:157-192 | 404 iff the category is unknown or deleted; an existing assignment is left as it is with empty name and message; otherwise the pair is assigned at `now`, and the category name and "added category '<name>'" are returned |
| Bookmarks.AddCategoryToBookmark | app/main.py:157-192 | the in-place version changes the assignments exactly as `Adding` says and keeps the constraints |
| Bookmarks.Removing | app/main.py:195-214 | the pair is no longer assigned; a missing pair gives empty name and message; a removed one reports "removed category '<name>'" with a name that is non-empty unless the category's own name is empty |
| Bookmarks.RemovingName | app/main.py:208-212 | the name a removal reports is the category's name, or its id in decimal when the category row is gone |
| Bookmarks.RemoveCategoryFromBookmark | app/main.py:195-214 | the in-place version changes the assignments exactly as `Removing` says |
| Bookmarks.AddAllMeaning | app/main.py:494-502 | the adds loop fails (404) iff some listed category is unknown or deleted; otherwise exactly the listed pairs are added, existing ones keep their time, new ones get `now`, and one message is logged per added name |
| Bookmarks.RemoveAllMeaning | app/main.py:504-512 | the removes loop unassigns exactly the listed pairs, keeps every other assignment, and logs one message per removed name |
| Bookmarks.AddAllEntries | app/main.py:494-502 | the adds loop keeps the earlier messages and names first and appends one "added category '<name>'" per new name |
| Bookmarks.AddAllNames | app/main.py:494-502 | each name the adds loop reports is the name of a listed category the bookmark did not have |
| Bookmarks.AddAllReportsEach | app/main.py:494-502 | the adds loop reports every listed category the bookmark did not have, unless its name is empty |
| Bookmarks.RemoveAllEntries | app/main.py:504-512 | the removes loop keeps the earlier messages and names first and appends one "removed category '<name>'" per new name |
| Bookmarks.RemoveAllNames | app/main.py:504-512 | each name the removes loop reports is the name (or decimal id) of a listed category the bookmark had |
| Bookmarks.RemoveAllReportsEach | app/main.py:504-512 | the removes loop reports every listed category the bookmark had, unless its name is empty |
| Bookmarks.AddCategories | app/main.py:494-502 | the in-place adds loop equals `AddAll` |
| Bookmarks.RemoveCategories | app/main.py:504-512 | the in-place removes loop equals `RemoveAll` |
| Bookmarks.BookmarkCategories | app/main.py:122-145 | the categories shown are exactly the live categories assigned to the bookmark, with their names and descriptions |
| Bookmarks.UpdateRefusals | app/main.py:469-515 | an update is refused (404) iff the bookmark has no live row or a category to add is unknown or deleted, and a refusal leaves tweets and assignments unchanged |
| Bookmarks.UpdateEffects | app/main.py:487-543 | a successful update changes only this bookmark's row, sets its read flag when one was given, and leaves it assigned to c iff (it was, or c was added) and c was not removed; other bookmarks' assignments are untouched |
| Bookmarks.UpdateMessageMeaning | app/main.py:521-527 | the message is "No changes made" iff no read flag was given and nothing was added or removed |
| Bookmarks.ChangeCategories | app/main.py:494-512 | the in-place adds then removes equal `AddAll` followed by `RemoveAll`, and a refused add stops before any removal |
| Bookmarks.UpdateRow | app/main.py:482-551 | the tables and reply of `update_bookmark` once the live row is found; characterised by `UpdateEffects`, `UpdateMessageMeaning` and `AddAllMeaning`/`RemoveAllMeaning` |
| Bookmarks.BookmarkUpdate | app/main.py:453-551 | the whole `update_bookmark`: the 404 for a missing row, then `UpdateRow`; characterised by `UpdateRefusals` and `UpdateEffects` |
| Bookmarks.UpdateFoundBookmark | app/main.py:482-543 | once the row is found, the in-place update ends in exactly the state and reply of `UpdateRow`, rolling back the read flag when an add is refused |
| Bookmarks.UpdateBookmark | app/main.py:453-551 | the whole endpoint ends in exactly the state and reply `BookmarkUpdate` specifies, and keeps the constraints |
| Bookmarks.NewestOrderStrict | app/main.py:431 | newest-first by creation time (ties by row id) is a strict total order on the live rows |
| Bookmarks.NewestFirst | app/main.py:428-431 | the live keys sorted newest first: every live row exactly once and no other |
| Bookmarks.Window | app/main.py:432-433 | `OFFSET skip LIMIT limit` on a sequence: a negative offset counts as 0, a negative limit as no limit, and element i is element skip+i |
| Bookmarks.RowsOf | app/main.py:434 | the rows of the keys, in order |
| Bookmarks.NegativeLimitIsUnbounded | app/main.py:425-433 | as written, `limit=-1` returns every live bookmark, so more than 1000 when there are more than 1000 |
| Bookmarks.CappedLimit | app/main.py:418-425 | the intended limit lies in [0, 1000], never exceeds a non-negative request, and is the request itself when that is within range |
| Bookmarks.ListBookmarksAsWritten | app/main.py:407-450 | `list_bookmarks` as written, with `min(limit, 1000)`; characterised by `NegativeLimitIsUnbounded` and `ListBookmarksAsWrittenAgrees` |
| Bookmarks.ListBookmarksAsWrittenAgrees | app/main.py:425-434 | for every limit of at least 0 the listing as written equals the corrected `ListBookmarks`, so its live, order, count and skip lemmas hold of the program as written |
| Bookmarks.ListBookmarks | app/main.py:407-450 | `list_bookmarks` with the limit clamped into [0, 1000]; characterised by `ListBookmarksCounts`, `ListBookmarksLive`, `ListBookmarksOrdered` and `ListBookmarksFromSkip` |
| Bookmarks.ListBookmarksCounts | app/main.py:418-446 | at most 1000 and at most `limit` bookmarks are returned; `count` is their number and `total` is the number of live rows |
| Bookmarks.WindowLive | app/main.py:430-433 | a window of live keys holds only live keys |
| Bookmarks.WindowOrdered | app/main.py:431-433 | a window of a newest-first sequence is still newest first |
| Bookmarks.ListBookmarksLive | app/main.py:428-435 | every listed bookmark is a stored, live row |
| Bookmarks.ListBookmarksOrdered | app/main.py:431 | the listed bookmarks are in newest-first order |
| Bookmarks.ListBookmarksFromSkip | app/main.py:432-434 | the i-th listed bookmark is the (skip+i)-th live row in newest-first order, a negative skip counting as 0 |
| Bookmarks.GetStats | app/main.py:361-398 | the counts `get_stats` reports and the sync-state times; characterised by `StatsConsistent` |
| Bookmarks.StatsConsistent | app/main.py:361-398 | `unread` equals the number of live unread rows, and read, image and video counts lie between 0 and the total |

## Left out

- The HTTP transport of `fetch_bookmarks` is not modelled: headers, feature flags, settings and the request itself (app/twitter_client.py:16-109, app/config.py). The upstream API is a sequence of decoded responses or failures instead.
- The fetch of a request beyond the end of that sequence is modelled as failing with an empty message.
- FastAPI routing and pydantic request validation are not modelled. The 422 replies for names outside 1..120 characters (app/main.py:44-48) come before the handlers, and the handlers' own checks are modelled.
- The catch-all `except Exception` paths that turn unexpected errors into 500 replies are not modelled: database failures, SQLAlchemy session behaviour and `db.refresh`. `get_db` closing the session without a commit is modelled as a rollback.
- `datetime.now()` and `traceback.format_exc()` are parameters: `now`, the `clock` function, and each failure's `trace`.
- `json.dumps(tweet_result)` is kept as the JSON value itself, not its text.
- JSON numbers are values (`JNum`) and take part in truthiness, but their text is not: a non-string leaf read as text (for example a numeric `rest_id`) reads as the empty string, where Python would keep the number.
- `str(cursor) == str(next_cursor)` is modelled as equality of the JSON values.
- Column length limits are not modelled. Row ordering ties under `ORDER BY created_at` and the marker query are broken by row id, which SQLite leaves unspecified.
- `_format_bookmark_response` and `_format_category_response` are dictionary projections of a row. The model returns the row itself.
- Bookmarks.BookmarkCategories: the list `_get_bookmark_categories` returns is in unspecified database order, so the model returns a set.
- The root and `/health` endpoints and the `print` of parse errors are not modelled; they compute no state.
- Category and tweet row ids are a counter, one past the largest id handed out. SQLite's reuse of a deleted largest id cannot arise, since nothing deletes rows.
- Sync.BeginRun: the correction keeps run id 1 for every run, as the source writes it, so the marker query orders by a constant run id and picks the earliest inserted row (`Sync.MarkerIsEarliestInserted`). The marker is then the newest bookmark of the first run, and each later run walks back through everything bookmarked since then; a per-run id that would make it the previous run's newest bookmark is not modelled.
- Sync.Step: its own contract only bounds consumption; the meaning of a step is stated by the lemmas about `Run` and by the methods proved equal to it.

## Findings

| source | as written | input that shows it | evidently intended | confidence | as-written member | corrected member |
|---|---|---|---|---|---|---|
| app/main.py:727-731 | every sync run adds a new `SyncState()` row without an id and commits it; the table carries `CHECK (id = 1)` (app/models.py:60), and `init_db` has already created row 1, so the new row gets id 2 and the commit fails | any `POST /sync` after `init_db` (app/models.py:105-119) | reuse the singleton row 1 and reset it for the new run; with run id 1 on every row the marker is then the earliest inserted bookmark, not the previous run's newest (`Sync.MarkerIsEarliestInserted`) | high; SQLite rowid assignment as documented; not executed | Sync.RunFailsAfterInitDbAsWritten | Sync.BeginRun |
| app/main.py:425-433 | `limit = min(limit, 1000)` leaves a negative limit negative, and SQLite treats a negative LIMIT as no limit | `GET /bookmarks?limit=-1` with more than 1000 live bookmarks returns all of them and reports `limit: -1` | clamp the limit into [0, 1000] | high; not executed | Bookmarks.NegativeLimitIsUnbounded | Bookmarks.ListBookmarksCounts |
