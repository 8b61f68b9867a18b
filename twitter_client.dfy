/**
  The parsing half of the client for the upstream bookmarks API
  (app/twitter_client.py): one response page of the Bookmarks timeline is
  turned into an ordered list of flat tweet records and an optional bottom
  cursor.

  For each step the module holds a specification function and, where the
  source works with loops, a method with loops proved equal to it:
  `ExtractTweet`/`ExtractTweetData` for one tweet result, `ParseResponse`/
  `ParseBookmarksResponse` for a whole page. The lemmas at the end state what
  the parser promises about its output.
 */
module TwitterClient {
  import opened Wrappers
  import opened Json

  /** Origin of the status URLs built for each tweet. */
  const StatusUrlOrigin := "https://x.com/"

  /** The flat record built for one tweet (the dict `_extract_tweet_data` returns). */
  datatype TweetRecord = TweetRecord(
    tweetId: string,
    text: string,
    authorId: string,
    authorUsername: string,
    createdAt: string,
    bookmarked: Json,
    hasMediaImage: bool,
    hasMediaVideo: bool,
    url: Option<string>,
    sourceJson: Json)  // the tweet result itself, standing for its `json.dumps` serialisation

  /** What a page yields: the records in entry order and the cursor (`JNull` for `None`). */
  datatype Page = Page(tweets: seq<TweetRecord>, nextCursor: Json)

  const EmptyPage := Page([], JNull)

  // ---------------------------------------------------------------------------
  // One tweet result
  // ---------------------------------------------------------------------------

  /** One pass of the media loop: "photo" sets the image flag, "video" or "animated_gif" the video flag. */
  function MediaStep(flags: (bool, bool), media: Json): Outcome<(bool, bool)> {
    var mediaType :- Get(media, "type", JStr(""));
    Ok(if mediaType == JStr("photo") then (true, flags.1)
       else if mediaType == JStr("video") || mediaType == JStr("animated_gif") then (flags.0, true)
       else flags)
  }

  /** The media loop over `items`, starting from `flags`. */
  function MediaFold(flags: (bool, bool), items: seq<Json>): Outcome<(bool, bool)>
    decreases |items|
  {
    if items == [] then Ok(flags)
    else
      var next :- MediaStep(flags, items[0]);
      MediaFold(next, items[1..])
  }

  /** The media list: `extended_entities.media` whenever that key is present, otherwise `entities.media`, otherwise `[]`. */
  function MediaList(legacy: Json): Outcome<Json> {
    var entities :- Get(legacy, "entities", EmptyObj);
    var extended :- Get(legacy, "extended_entities", EmptyObj);
    var fallback :- Get(entities, "media", EmptyArr);
    Get(extended, "media", fallback)
  }

  /** `note_tweet.note_tweet_results.result.text`, each missing level read as empty. */
  function NoteText(noteTweet: Json): Outcome<Json> {
    var noteResults :- Get(noteTweet, "note_tweet_results", EmptyObj);
    var note :- Get(noteResults, "result", EmptyObj);
    Get(note, "text", JStr(""))
  }

  /** The text: the note tweet's text when the note object is non-empty and its text is non-empty, else `legacy.full_text`. */
  function TweetText(result: Json, legacy: Json): Outcome<Json> {
    var fullText :- Get(legacy, "full_text", JStr(""));
    var noteTweet :- Get(result, "note_tweet", EmptyObj);
    if Truthy(noteTweet) then
      var noteText :- NoteText(noteTweet);
      Ok(if Truthy(noteText) then noteText else fullText)
    else
      Ok(fullText)
  }

  /** The status URL, built only when both the user name and the tweet id are non-empty. */
  function StatusUrl(username: string, tweetId: string): Option<string> {
    if username != "" && tweetId != "" then Some(StatusUrlOrigin + username + "/status/" + tweetId) else None
  }

  /** `_extract_tweet_data`: the record for one tweet result, or `Raised` when a lookup hits a non-dict. */
  function ExtractTweet(result: Json): Outcome<TweetRecord> {
    var legacy :- Get(result, "legacy", EmptyObj);
    var core :- Get(result, "core", EmptyObj);
    var userResults :- Get(core, "user_results", EmptyObj);
    var user :- Get(userResults, "result", EmptyObj);
    var userLegacy :- Get(user, "legacy", EmptyObj);
    var tweetId :- Get(result, "rest_id", JStr(""));
    var userCore :- Get(user, "core", EmptyObj);
    var username :- Get(userCore, "screen_name", JStr(""));
    var mediaList :- MediaList(legacy);
    var items :- Iterate(mediaList);
    var flags :- MediaFold((false, false), items);
    var text :- TweetText(result, legacy);
    var authorId :- Get(user, "rest_id", JStr(""));
    var createdAt :- Get(legacy, "created_at", JStr(""));
    var bookmarked :- Get(legacy, "bookmarked", JBool(false));
    Ok(TweetRecord(Text(tweetId), Text(text), Text(authorId), Text(username), Text(createdAt), bookmarked,
                   flags.0, flags.1, StatusUrl(Text(username), Text(tweetId)), result))
  }

  /** `_extract_tweet_data`, with its media loop. */
  method ExtractTweetData(result: Json) returns (r: Outcome<TweetRecord>)
    ensures r == ExtractTweet(result)
  {
    var legacy :- Get(result, "legacy", EmptyObj);
    // Once `result`, `legacy` or `user` is known to be a dict, further lookups in it cannot raise.
    var core := Get(result, "core", EmptyObj).value;
    var userResults :- Get(core, "user_results", EmptyObj);
    var user :- Get(userResults, "result", EmptyObj);
    var userLegacy :- Get(user, "legacy", EmptyObj);
    var tweetId := Get(result, "rest_id", JStr("")).value;
    var userCore := Get(user, "core", EmptyObj).value;
    var username :- Get(userCore, "screen_name", JStr(""));

    var mediaList :- MediaList(legacy);
    var items :- Iterate(mediaList);
    var hasImage, hasVideo := false, false;
    var i := 0;
    while i < |items|
      invariant 0 <= i <= |items|
      invariant MediaFold((hasImage, hasVideo), items[i..]) == MediaFold((false, false), items)
    {
      var mediaType :- Get(items[i], "type", JStr(""));
      if mediaType == JStr("photo") {
        hasImage := true;
      } else if mediaType == JStr("video") || mediaType == JStr("animated_gif") {
        hasVideo := true;
      }
      i := i + 1;
    }

    var url := StatusUrl(Text(username), Text(tweetId));

    var text := Get(legacy, "full_text", JStr("")).value;
    var noteTweet := Get(result, "note_tweet", EmptyObj).value;
    if Truthy(noteTweet) {
      var noteResults :- Get(noteTweet, "note_tweet_results", EmptyObj);
      var note :- Get(noteResults, "result", EmptyObj);
      var noteText :- Get(note, "text", JStr(""));
      if Truthy(noteText) {
        text := noteText;
      }
    }

    var authorId := Get(user, "rest_id", JStr("")).value;
    var createdAt := Get(legacy, "created_at", JStr("")).value;
    var bookmarked := Get(legacy, "bookmarked", JBool(false)).value;
    r := Ok(TweetRecord(Text(tweetId), Text(text), Text(authorId), Text(username), Text(createdAt), bookmarked,
                        hasImage, hasVideo, url, result));
  }

  // ---------------------------------------------------------------------------
  // One entry, one instruction, one response
  // ---------------------------------------------------------------------------

  /** What the loop body does with one entry. */
  datatype EntryKind =
    | CursorEntry(value: Json)        // a bottom cursor: sets the next cursor
    | TweetEntry(record: TweetRecord) // an accepted tweet: appends its record
    | Skipped                         // anything else: no effect

  /** `entry.content.itemContent.tweet_results.result`, each step defaulting to `{}`. */
  function TweetResult(entry: Json): Outcome<Json> {
    var content :- Get(entry, "content", EmptyObj);
    var itemContent :- Get(content, "itemContent", EmptyObj);
    var tweetResults :- Get(itemContent, "tweet_results", EmptyObj);
    Get(tweetResults, "result", EmptyObj)
  }

  /**
    The dispatch on `entryId`: a "cursor-bottom" prefix with `cursorType ==
    "Bottom"` gives a cursor; a "tweet-" prefix whose result has `__typename
    == "Tweet"` gives a record; a non-string `entryId` raises (it has no
    `startswith`).
   */
  function Classify(entry: Json): Outcome<EntryKind> {
    var entryId :- Get(entry, "entryId", JStr(""));
    if !entryId.JStr? then Raised
    else if "cursor-bottom" <= entryId.s then
      var content :- Get(entry, "content", EmptyObj);
      var cursorType :- Get(content, "cursorType", JNull);
      if cursorType == JStr("Bottom") then
        var value :- Get(content, "value", JNull);
        Ok(CursorEntry(value))
      else
        Ok(Skipped)
    else if "tweet-" <= entryId.s then
      var result :- TweetResult(entry);
      var typeName :- Get(result, "__typename", JNull);
      if typeName == JStr("Tweet") then
        var record :- ExtractTweet(result);
        Ok(TweetEntry(record))
      else
        Ok(Skipped)
    else
      Ok(Skipped)
  }

  function Apply(p: Page, kind: EntryKind): Page {
    match kind
    case CursorEntry(value) => p.(nextCursor := value)
    case TweetEntry(record) => p.(tweets := p.tweets + [record])
    case Skipped => p
  }

  function EntryStep(p: Page, entry: Json): Outcome<Page> {
    var kind :- Classify(entry);
    Ok(Apply(p, kind))
  }

  /** The entry loop from page `p`; the flag is false when an entry raised, which ends the whole parse. */
  function EntriesFold(p: Page, entries: seq<Json>): (Page, bool)
    decreases |entries|
  {
    if entries == [] then (p, true)
    else
      match EntryStep(p, entries[0])
      case Raised => (p, false)
      case Ok(q) => EntriesFold(q, entries[1..])
  }

  /** The entries of a "TimelineAddEntries" instruction; `None` for an instruction of any other type. */
  function InstructionEntries(instruction: Json): Outcome<Option<seq<Json>>> {
    var instructionType :- Get(instruction, "type", JNull);
    if instructionType == JStr("TimelineAddEntries") then
      var entries :- Get(instruction, "entries", EmptyArr);
      var items :- Iterate(entries);
      Ok(Some(items))
    else
      Ok(None)
  }

  function InstructionStep(p: Page, instruction: Json): (Page, bool) {
    match InstructionEntries(instruction)
    case Raised => (p, false)
    case Ok(None) => (p, true)
    case Ok(Some(entries)) => EntriesFold(p, entries)
  }

  function InstructionsFold(p: Page, instructions: seq<Json>): (Page, bool)
    decreases |instructions|
  {
    if instructions == [] then (p, true)
    else
      var (q, ok) := InstructionStep(p, instructions[0]);
      if ok then InstructionsFold(q, instructions[1..]) else (q, false)
  }

  /** `data.bookmark_timeline_v2.timeline.instructions`, as a sequence to loop over. */
  function Instructions(response: Json): Outcome<seq<Json>> {
    var data :- Get(response, "data", EmptyObj);
    var bookmarkTimeline :- Get(data, "bookmark_timeline_v2", EmptyObj);
    var timeline :- Get(bookmarkTimeline, "timeline", EmptyObj);
    var instructions :- Get(timeline, "instructions", EmptyArr);
    Iterate(instructions)
  }

  /**
    `parse_bookmarks_response`: never raises; whatever raises inside ends the
    parse with the records and the cursor gathered so far.
   */
  function ParseResponse(response: Json): Page {
    match Instructions(response)
    case Raised => EmptyPage
    case Ok(instructions) => InstructionsFold(EmptyPage, instructions).0
  }

  /** One entry of the inner loop of `parse_bookmarks_response`; `ok` is false when it raised. */
  method ParseEntry(tweets: seq<TweetRecord>, nextCursor: Json, entry: Json)
    returns (tweets': seq<TweetRecord>, nextCursor': Json, ok: bool)
    ensures EntryStep(Page(tweets, nextCursor), entry) == if ok then Ok(Page(tweets', nextCursor')) else Raised
  {
    tweets', nextCursor', ok := tweets, nextCursor, false;
    var entryId := Get(entry, "entryId", JStr(""));
    if entryId.Raised? || !entryId.value.JStr? {
      return;
    }
    if "cursor-bottom" <= entryId.value.s {
      var content := Get(entry, "content", EmptyObj);
      if content.Raised? {
        return;
      }
      var cursorType := Get(content.value, "cursorType", JNull);
      if cursorType.Raised? {
        return;
      }
      if cursorType.value == JStr("Bottom") {
        nextCursor' := Get(content.value, "value", JNull).value;
      }
    } else if "tweet-" <= entryId.value.s {
      var result := TweetResult(entry);
      if result.Raised? {
        return;
      }
      var typeName := Get(result.value, "__typename", JNull);
      if typeName.Raised? {
        return;
      }
      if typeName.value == JStr("Tweet") {
        var record := ExtractTweetData(result.value);
        if record.Raised? {
          return;
        }
        tweets' := tweets + [record.value];
      }
    }
    ok := true;
  }

  /** The loop over the entries of one instruction; `ok` is false when an entry raised. */
  method ParseEntries(tweets: seq<TweetRecord>, nextCursor: Json, entries: seq<Json>)
    returns (tweets': seq<TweetRecord>, nextCursor': Json, ok: bool)
    ensures EntriesFold(Page(tweets, nextCursor), entries) == (Page(tweets', nextCursor'), ok)
  {
    tweets', nextCursor' := tweets, nextCursor;
    var j := 0;
    while j < |entries|
      invariant 0 <= j <= |entries|
      invariant EntriesFold(Page(tweets', nextCursor'), entries[j..]) == EntriesFold(Page(tweets, nextCursor), entries)
    {
      assert entries[j..][1..] == entries[j + 1..];
      var t, c, entryOk := ParseEntry(tweets', nextCursor', entries[j]);
      if !entryOk {
        return tweets', nextCursor', false;
      }
      tweets', nextCursor' := t, c;
      j := j + 1;
    }
    ok := true;
  }

  /** `parse_bookmarks_response`, with its loops over instructions and entries. */
  method ParseBookmarksResponse(response: Json) returns (tweets: seq<TweetRecord>, nextCursor: Json)
    ensures Page(tweets, nextCursor) == ParseResponse(response)
  {
    tweets, nextCursor := [], JNull;
    var found := Instructions(response);
    if found.Raised? {
      return;
    }
    var instructions := found.value;
    ghost var goal := InstructionsFold(EmptyPage, instructions);
    var i := 0;
    while i < |instructions|
      invariant 0 <= i <= |instructions|
      invariant InstructionsFold(Page(tweets, nextCursor), instructions[i..]) == goal
    {
      ghost var before := Page(tweets, nextCursor);
      assert instructions[i..][1..] == instructions[i + 1..];
      var instruction := instructions[i];
      var instructionType := Get(instruction, "type", JNull);
      if instructionType.Raised? {
        return;
      }
      if instructionType.value == JStr("TimelineAddEntries") {
        var entriesValue := Get(instruction, "entries", EmptyArr);
        var iterated := Iterate(entriesValue.value);
        if iterated.Raised? {
          return;
        }
        var entries := iterated.value;
        assert InstructionStep(before, instruction) == EntriesFold(before, entries);
        var ok;
        tweets, nextCursor, ok := ParseEntries(tweets, nextCursor, entries);
        if !ok {
          return;
        }
      }
      i := i + 1;
    }
  }

  // ---------------------------------------------------------------------------
  // What the parser promises
  // ---------------------------------------------------------------------------

  /** A media item whose `type` is "photo". */
  predicate IsPhoto(media: Json) {
    media.JObj? && "type" in media.fields && media.fields["type"] == JStr("photo")
  }

  /** A media item whose `type` is "video" or "animated_gif". */
  predicate IsVideo(media: Json) {
    media.JObj? && "type" in media.fields
    && (media.fields["type"] == JStr("video") || media.fields["type"] == JStr("animated_gif"))
  }

  /**
    The media loop succeeds exactly when every item is a dict, and then each
    flag is OR-accumulated independently: it is set exactly when it was
    already set or some item has the matching type.
   */
  lemma {:induction false} MediaFoldMeaning(flags: (bool, bool), items: seq<Json>)
    ensures MediaFold(flags, items).Ok? <==> forall k :: 0 <= k < |items| ==> items[k].JObj?
    ensures MediaFold(flags, items).Ok? ==>
      MediaFold(flags, items).value.0 == (flags.0 || exists k :: 0 <= k < |items| && IsPhoto(items[k]))
    ensures MediaFold(flags, items).Ok? ==>
      MediaFold(flags, items).value.1 == (flags.1 || exists k :: 0 <= k < |items| && IsVideo(items[k]))
    decreases |items|
  {
    if items != [] {
      var step := MediaStep(flags, items[0]);
      if step.Ok? {
        MediaFoldMeaning(step.value, items[1..]);
        assert forall k :: 1 <= k < |items| ==> items[k] == items[1..][k - 1];
        assert IsPhoto(items[0]) ==> step.value.0;
        assert IsVideo(items[0]) ==> step.value.1;
        if MediaFold(flags, items).Ok? {
          if exists k :: 0 <= k < |items| && IsPhoto(items[k]) {
            var k :| 0 <= k < |items| && IsPhoto(items[k]);
            if k > 0 {
              assert IsPhoto(items[1..][k - 1]);
            }
          }
          if exists k :: 0 <= k < |items| && IsVideo(items[k]) {
            var k :| 0 <= k < |items| && IsVideo(items[k]);
            if k > 0 {
              assert IsVideo(items[1..][k - 1]);
            }
          }
        }
      }
    }
  }

  /** A tweet without media items gets both flags cleared; one with a photo and an animated GIF gets both set. */
  lemma MediaExamples()
    ensures MediaFold((false, false), []) == Ok((false, false))
    ensures MediaFold((false, false), [JObj(map["type" := JStr("photo")]), JObj(map["type" := JStr("animated_gif")])])
            == Ok((true, true))
  {
  }

  /**
    The stored text is the note tweet's text when the `note_tweet` object is
    non-empty and its text is non-empty, and `legacy.full_text` (default "")
    otherwise: when there is no note, and when the note's text is missing or
    empty.
   */
  lemma ExtractedText(result: Json, legacy: Json, fullText: string, noteText: string)
    requires result.JObj? && Get(result, "legacy", EmptyObj) == Ok(legacy)
    requires ExtractTweet(result).Ok?
    requires Get(legacy, "full_text", JStr("")) == Ok(JStr(fullText))
    ensures var hasNote := "note_tweet" in result.fields && Truthy(result.fields["note_tweet"]);
      && (hasNote ==> NoteText(result.fields["note_tweet"]).Ok?)
      && (hasNote && NoteText(result.fields["note_tweet"]) == Ok(JStr(noteText)) ==>
            ExtractTweet(result).value.text == if noteText != "" then noteText else fullText)
      && (!hasNote ==> ExtractTweet(result).value.text == fullText)
  {
  }

  /** The URL is "https://x.com/<user>/status/<id>" exactly when both parts are non-empty, otherwise `None`. */
  lemma StatusUrlMeaning(username: string, tweetId: string)
    ensures StatusUrl(username, tweetId).Some? <==> username != "" && tweetId != ""
    ensures StatusUrl(username, tweetId).Some? ==>
      StatusUrl(username, tweetId).value == "https://x.com/" + username + "/status/" + tweetId
  {
  }

  /** The records of the tweet entries, in entry order. */
  function Records(kinds: seq<EntryKind>): (r: seq<TweetRecord>)
    decreases |kinds|
  {
    if kinds == [] then []
    else (if kinds[0].TweetEntry? then [kinds[0].record] else []) + Records(kinds[1..])
  }

  /** The value of the last cursor entry, or `dflt` when there is none: a later cursor overwrites an earlier one. */
  function LastCursor(kinds: seq<EntryKind>, dflt: Json): Json
    decreases |kinds|
  {
    if kinds == [] then dflt
    else if kinds[|kinds| - 1].CursorEntry? then kinds[|kinds| - 1].value
    else LastCursor(kinds[..|kinds| - 1], dflt)
  }

  /** The kinds of the entries before the first one that raises, and whether none raised. */
  function ClassifyAll(entries: seq<Json>): (r: (seq<EntryKind>, bool))
    ensures |r.0| <= |entries|
    ensures r.1 <==> |r.0| == |entries|
    ensures forall k :: 0 <= k < |r.0| ==> Classify(entries[k]) == Ok(r.0[k])
    ensures |r.0| < |entries| ==> Classify(entries[|r.0|]).Raised?
    decreases |entries|
  {
    if entries == [] then ([], true)
    else
      match Classify(entries[0])
      case Raised => ([], false)
      case Ok(kind) =>
        var (rest, ok) := ClassifyAll(entries[1..]);
        ([kind] + rest, ok)
  }

  lemma {:induction false} LastCursorAppend(kinds: seq<EntryKind>, kind: EntryKind, dflt: Json)
    ensures LastCursor(kinds + [kind], dflt) == (if kind.CursorEntry? then kind.value else LastCursor(kinds, dflt))
  {
    assert (kinds + [kind])[..|kinds|] == kinds;
  }

  lemma {:induction false} LastCursorPrepend(kind: EntryKind, kinds: seq<EntryKind>, dflt: Json)
    ensures LastCursor([kind] + kinds, dflt) == LastCursor(kinds, Apply(EmptyPage.(nextCursor := dflt), kind).nextCursor)
    decreases |kinds|
  {
    if kinds == [] {
      assert [kind] + kinds == [] + [kind];
      LastCursorAppend([], kind, dflt);
    } else {
      var init := kinds[..|kinds| - 1];
      assert [kind] + kinds == ([kind] + init) + [kinds[|kinds| - 1]];
      LastCursorAppend([kind] + init, kinds[|kinds| - 1], dflt);
      LastCursorPrepend(kind, init, dflt);
      assert kinds == init + [kinds[|kinds| - 1]];
      LastCursorAppend(init, kinds[|kinds| - 1], Apply(EmptyPage.(nextCursor := dflt), kind).nextCursor);
    }
  }

  /** Applying one entry kind and then the rest is applying the whole list at once. */
  lemma ApplyThenRest(p: Page, kind: EntryKind, rest: seq<EntryKind>)
    ensures Apply(p, kind).tweets + Records(rest) == p.tweets + Records([kind] + rest)
    ensures LastCursor(rest, Apply(p, kind).nextCursor) == LastCursor([kind] + rest, p.nextCursor)
  {
    assert Records([kind] + rest) == (if kind.TweetEntry? then [kind.record] else []) + Records(rest) by {
      assert ([kind] + rest)[1..] == rest;
    }
    LastCursorPrepend(kind, rest, p.nextCursor);
    assert Apply(p, kind).nextCursor == Apply(EmptyPage.(nextCursor := p.nextCursor), kind).nextCursor;
    if kind.TweetEntry? {
      assert (p.tweets + [kind.record]) + Records(rest) == p.tweets + ([kind.record] + Records(rest));
    } else {
      assert [] + Records(rest) == Records(rest);
    }
  }

  /**
    The entry loop is a filter in entry order: it appends the records of the
    accepted tweet entries before the first entry that raises, in order, and
    leaves the cursor at the value of the last bottom cursor among them.
   */
  lemma {:induction false} EntriesFoldMeaning(p: Page, entries: seq<Json>)
    ensures EntriesFold(p, entries) ==
      (Page(p.tweets + Records(ClassifyAll(entries).0), LastCursor(ClassifyAll(entries).0, p.nextCursor)),
       ClassifyAll(entries).1)
    decreases |entries|
  {
    if entries != [] {
      match Classify(entries[0])
      case Raised =>
        assert ClassifyAll(entries) == ([], false);
        assert p.tweets + Records([]) == p.tweets;
      case Ok(kind) =>
        var q := Apply(p, kind);
        EntriesFoldMeaning(q, entries[1..]);
        var rest := ClassifyAll(entries[1..]).0;
        assert ClassifyAll(entries).0 == [kind] + rest;
        ApplyThenRest(p, kind, rest);
        assert EntriesFold(p, entries) == EntriesFold(q, entries[1..]);
        assert ClassifyAll(entries).1 == ClassifyAll(entries[1..]).1;
    } else {
      assert p.tweets + Records([]) == p.tweets;
    }
  }

  /** An instruction whose type is not "TimelineAddEntries" contributes nothing and does not stop the parse. */
  predicate Ignored(instruction: Json) {
    InstructionEntries(instruction) == Ok(None)
  }

  function WithoutIgnored(instructions: seq<Json>): seq<Json>
    decreases |instructions|
  {
    if instructions == [] then []
    else if Ignored(instructions[0]) then WithoutIgnored(instructions[1..])
    else [instructions[0]] + WithoutIgnored(instructions[1..])
  }

  /** Only "TimelineAddEntries" instructions (and malformed ones, which end the parse) affect the result. */
  lemma {:induction false} IgnoredInstructionsDropOut(p: Page, instructions: seq<Json>)
    ensures InstructionsFold(p, instructions) == InstructionsFold(p, WithoutIgnored(instructions))
    decreases |instructions|
  {
    if instructions != [] {
      IgnoredInstructionsDropOut(InstructionStep(p, instructions[0]).0, instructions[1..]);
      if !Ignored(instructions[0]) {
        assert ([instructions[0]] + WithoutIgnored(instructions[1..]))[1..] == WithoutIgnored(instructions[1..]);
      }
    }
  }

  /**
    A "cursor-bottom" entry never yields a record; it sets the cursor exactly
    when its `cursorType` is "Bottom", and then to its `value` (null when absent).
   */
  lemma CursorEntriesYieldNoRecord(entry: Json, content: Json)
    requires entry.JObj? && "entryId" in entry.fields && entry.fields["entryId"].JStr?
    requires "cursor-bottom" <= entry.fields["entryId"].s
    requires Get(entry, "content", EmptyObj) == Ok(content)
    ensures Classify(entry).Ok? ==> !Classify(entry).value.TweetEntry?
    ensures Classify(entry).Ok? && Classify(entry).value.CursorEntry? <==>
      content.JObj? && "cursorType" in content.fields && content.fields["cursorType"] == JStr("Bottom")
    ensures content.JObj? && "cursorType" in content.fields && content.fields["cursorType"] == JStr("Bottom") ==>
      Classify(entry) == Ok(CursorEntry(if "value" in content.fields then content.fields["value"] else JNull))
  {
  }

  /**
    Only the entry id decides what kind of entry it is: a cursor comes only
    from a "cursor-bottom" id, a record only from a "tweet-" id (that is not
    also a "cursor-bottom" one), and any other string id, or a missing one,
    is skipped.
   */
  lemma ClassifyOnlyByPrefix(entry: Json)
    ensures Classify(entry).Ok? && Classify(entry).value.CursorEntry? ==>
      entry.JObj? && "entryId" in entry.fields && entry.fields["entryId"].JStr? &&
      "cursor-bottom" <= entry.fields["entryId"].s
    ensures Classify(entry).Ok? && Classify(entry).value.TweetEntry? ==>
      entry.JObj? && "entryId" in entry.fields && entry.fields["entryId"].JStr? &&
      "tweet-" <= entry.fields["entryId"].s && !("cursor-bottom" <= entry.fields["entryId"].s)
    ensures entry.JObj? && ("entryId" in entry.fields ==> entry.fields["entryId"].JStr?) ==>
      var id := if "entryId" in entry.fields then entry.fields["entryId"].s else "";
      !("cursor-bottom" <= id) && !("tweet-" <= id) ==> Classify(entry) == Ok(Skipped)
  {
  }

  /** A "tweet-" entry yields a record exactly when its result's `__typename` is "Tweet" and the record can be built. */
  lemma TweetEntriesNeedTypeTweet(entry: Json, result: Json)
    requires entry.JObj? && "entryId" in entry.fields && entry.fields["entryId"].JStr?
    requires "tweet-" <= entry.fields["entryId"].s
    requires TweetResult(entry) == Ok(result)
    ensures Classify(entry).Ok? && Classify(entry).value.TweetEntry? <==>
      result.JObj? && "__typename" in result.fields && result.fields["__typename"] == JStr("Tweet") && ExtractTweet(result).Ok?
    ensures Classify(entry).Ok? && Classify(entry).value.TweetEntry? ==> Classify(entry).value.record == ExtractTweet(result).value
  {
    assert entry.fields["entryId"].s[0] == 't';
  }
}
