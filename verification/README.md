# Facebook comment fetcher: sync pass, seen-set and Redis timestamp tracker

This project models the core of the Facebook comment fetcher in Dafny:

- `CommentTracker`: the in-memory, process-wide set of comment ids already seen.
- `CommentSyncScheduler.syncComments`: one scheduled pass. It takes the fetched posts and their comments and classifies each comment as new or seen. It looks up post details once per post id that has new comments. It then hands one seven-value row per new comment to the spreadsheet sink.
- `CommentSyncScheduler.extractPhoneNumber`: the leftmost phone-number match in a comment message.
- `RedisTimestampTracker`: a "last fetch" epoch-second timestamp kept in Redis. It is guarded by a lock key that expires after 30 seconds. Writes, lock release, reads, the `Instant` view and reset are modelled. Redis is modelled as a key-value map with expiries, and its failures as a set of calls that throw without reaching the server.

Java values map onto the model like this:

- A nullable `String` is `Option<string>` (`JString`).
- The `HashSet` iteration order of `postsWithNewComments` is an explicit enumeration parameter (`order`).
- The Graph API, the spreadsheet and the timestamp formatter are function parameters:
  - `lookup` returns `None` when `fetchPostDetails` throws;
  - `write` returns `false` when `appendRow` throws;
  - `format` stands for `formatTimestamp`.
- The Redis clock is a parameter `now`, in milliseconds.

The project has eight modules, one file each:

| module | file | what it holds |
|---|---|---|
| `Wrappers` | `wrappers.dfy` | `Option` |
| `JavaText` | `java_text.dfy` | `String.trim`, `String.valueOf(long)`, `Long.parseLong` |
| `CommentTracker` | `comment_tracker.dfy` | the seen-set |
| `Regex` | `regex.dfy` | a backtracking matcher in `java.util.regex` priority order, and the declarative language it must agree with |
| `PhoneNumber` | `phone_number.dfy` | the phone pattern and `extractPhoneNumber` |
| `CommentSync` | `comment_sync.dfy` | the sync pass |
| `KeyValueStore`, `TimestampTracker` | `key_value_store.dfy`, `timestamp_tracker.dfy` | Redis and the tracker |

## Behaviour the model keeps

Each of these is proved below:

- **Duplicate post ids.**
  - *What happens:* if a response lists a post id twice and both occurrences bring new comments, the later occurrence's group replaces the earlier one. The earlier comments are marked seen but never written.
  - *Where it is proved:* `ClassifyLastWins`, `SyncRowsPerPost` and `DuplicatePostLosesEarlierComments`.
- **Failed writes are not retried.**
  - *What happens:* a comment is marked seen when it is classified, before any write. A failed write is therefore never retried by the same process.
  - *Where it is proved:* `RepeatPassEmitsNothing` and `SyncIgnoresSinkOutcome`.
- **The lock does not protect the write.**
  - *What happens:* a caller that fails to get the lock writes the timestamp anyway.
  - *Where it is proved:* `UpdateThenGet` has no precondition on the lock.
- **Huge timestamps read back as 0.**
  - *What happens:* the success log line of `getLastFetchTimestamp` converts the parsed value to an `Instant`, which throws for values outside `Instant`'s range. The catch-all handler then returns 0. So a `long` timestamp above 31556889864403199 or below -31557014167219200 is stored but reads back as 0.
  - *Where it is proved:* `HugeTimestampReadsAsZero`.
- **The fetched post details are never used.**
  - *What happens:* post details are looked up and cached, but no cached value reaches a row.
  - *Where it is proved:* `RowOf` reads only the post id and the comment.

Two facts about how the parts fit together:

- `RedisTimestampTracker` describes itself as the store of "the last successful fetch time" (`RedisTimestampTracker.java:11`), but `syncComments` never calls it. The pass applies no time-based filter and never moves the Redis timestamp.
- `syncComments` passes seven values to `appendRow`, while `SheetsAppender.appendRow` declares ten parameters, so the call as written does not match the declaration. The model records the seven values the scheduler passes.

## Model

| member | source | states |
|---|---|---|
| `CommentTracker.IsNewComment` | fb-comment-fetcher/src/main/java/com/webhook_wrapper/facebook/CommentTracker.java:12-14 | the answer is true exactly when the set grew by one; afterwards the id is a member, no other id's membership changes, and a false answer leaves the set unchanged |
| `CommentTracker.SecondCallIsNotNew` | fb-comment-fetcher/src/main/java/com/webhook_wrapper/facebook/CommentTracker.java:12-14 | an unseen id is new on its first call and not new on the second |
| `CommentTracker.TestAll` | fb-comment-fetcher/src/main/java/com/webhook_wrapper/scheduler/CommentSyncScheduler.java:50-55 | testing ids in order answers true at position i exactly when that id was neither seen before nor earlier in the list; all ids are seen afterwards |
| `CommentTracker.CountNewIsDistinctUnseen` | fb-comment-fetcher/src/main/java/com/webhook_wrapper/scheduler/CommentSyncScheduler.java:50-55 | the number of true answers equals the number of distinct ids that were not seen |
| `CommentTracker.CountNewFromInitial` | fb-comment-fetcher/src/main/java/com/webhook_wrapper/facebook/CommentTracker.java:10-14 | from the empty set, the number of new answers is the number of distinct ids |
| `CommentTracker.SeenStaysSeen` | fb-comment-fetcher/src/main/java/com/webhook_wrapper/facebook/CommentTracker.java:10-14 | a seen id stays seen and is never reported new again |
| `JavaText.Trim` | fb-comment-fetcher/src/main/java/com/webhook_wrapper/facebook/RedisTimestampTracker.java:38 | the result is a contiguous slice of the input with only characters up to U+0020 removed at both ends, and it neither starts nor ends with such a character |
| `JavaText.TrimEmptyIffBlank` | fb-comment-fetcher/src/main/java/com/webhook_wrapper/scheduler/CommentSyncScheduler.java:126 | trimming gives the empty string exactly when every character is at most U+0020 |
| `JavaText.TrimUnchanged` | fb-comment-fetcher/src/main/java/com/webhook_wrapper/facebook/RedisTimestampTracker.java:38 | a string with non-blank ends is its own trim |
| `JavaText.DigitsRoundTrip` | fb-comment-fetcher/src/main/java/com/webhook_wrapper/facebook/RedisTimestampTracker.java:83 | the decimal digits of a natural number read back as that number |
| `JavaText.LongToString` | fb-comment-fetcher/src/main/java/com/webhook_wrapper/facebook/RedisTimestampTracker.java:75-83 | `String.valueOf(long)` is the canonical decimal text: a minus sign exactly for a negative value, then digits denoting the magnitude with no leading zero |
| `JavaText.LongRoundTrip` | fb-comment-fetcher/src/main/java/com/webhook_wrapper/facebook/RedisTimestampTracker.java:38-40 | `Long.parseLong(String.valueOf(v).trim())` is `v` for every `long` |
| `JavaText.ParseLongExamples` | fb-comment-fetcher/src/main/java/com/webhook_wrapper/facebook/RedisTimestampTracker.java:40 | "+5" reads 5, "007" reads 7 and "-12" reads -12, while "12a" and a lone "-" are rejected |
| `JavaText.ParseLong` | fb-comment-fetcher/src/main/java/com/webhook_wrapper/facebook/RedisTimestampTracker.java:40 | a text parses exactly when it is an optional '-' or '+' followed by at least one ASCII digit and the signed value is in `long` range; the result is then that signed decimal value |
| `Regex.MatchSound` | fb-comment-fetcher/src/main/java/com/webhook_wrapper/scheduler/CommentSyncScheduler.java:131-136 | whatever the backtracking matcher matches is a word of the pattern's language |
| `Regex.MatchComplete` | fb-comment-fetcher/src/main/java/com/webhook_wrapper/scheduler/CommentSyncScheduler.java:131-136 | if some word of the pattern's language starts at a position, the matcher succeeds there |
| `Regex.Match` | fb-comment-fetcher/src/main/java/com/webhook_wrapper/scheduler/CommentSyncScheduler.java:131-136 | a successful match from position i ends at or after i and, when i is inside the text, no later than its end |
| `Regex.DigitBounds` | fb-comment-fetcher/src/main/java/com/webhook_wrapper/scheduler/CommentSyncScheduler.java:131 | a word of a pattern has between the pattern's minimum and maximum digit counts |
| `Regex.LastCharIsDigit` | fb-comment-fetcher/src/main/java/com/webhook_wrapper/scheduler/CommentSyncScheduler.java:131 | a word of a pattern whose last element must be a digit ends in a digit |
| `PhoneNumber.PhoneShapedDigits` | fb-comment-fetcher/src/main/java/com/webhook_wrapper/scheduler/CommentSyncScheduler.java:131 | every phone-shaped string holds 10 to 13 digits and ends with a digit |
| `PhoneNumber.FindFrom` | fb-comment-fetcher/src/main/java/com/webhook_wrapper/scheduler/CommentSyncScheduler.java:133-136 | a search from position k returns a phone-shaped slice with no phone-shaped slice starting earlier, ending where the backtracking matcher's first successful path ends, and fails exactly when no slice from k on is phone-shaped |
| `PhoneNumber.Find` | fb-comment-fetcher/src/main/java/com/webhook_wrapper/scheduler/CommentSyncScheduler.java:133-136 | `Matcher.find` succeeds exactly when the message contains a phone-shaped substring; the span starts at the leftmost such position and ends where the matcher, trying alternatives in `java.util.regex` order, first succeeds |
| `PhoneNumber.BlankHasNoPhone` | fb-comment-fetcher/src/main/java/com/webhook_wrapper/scheduler/CommentSyncScheduler.java:126-128 | a message that trims to empty contains no phone number, so the early return loses nothing |
| `PhoneNumber.ExtractPhoneNumber` | fb-comment-fetcher/src/main/java/com/webhook_wrapper/scheduler/CommentSyncScheduler.java:125-140 | null gives ""; otherwise the result is non-empty exactly when the message holds a phone number, and it is then the phone-shaped substring at the leftmost possible start that the matcher picks, with 10 to 13 digits and a final digit |
| `CommentSync.NewCommentsAreTestedNew` | fb-comment-fetcher/src/main/java/com/webhook_wrapper/scheduler/CommentSyncScheduler.java:44-57 | the interleaved test-and-collect loop keeps exactly the comments whose id tested new, and leaves the seen-set that testing all ids leaves |
| `CommentSync.PostComments` | fb-comment-fetcher/src/main/java/com/webhook_wrapper/scheduler/CommentSyncScheduler.java:46-49 | a post without a `comments` wrapper, or whose wrapper has no `data`, contributes no comments; otherwise its comments are the wrapper's `data` list |
| `CommentSync.NewComments` | fb-comment-fetcher/src/main/java/com/webhook_wrapper/scheduler/CommentSyncScheduler.java:50-55 | every collected comment comes from the post and had an unseen id, and no id is collected twice |
| `CommentSync.NewCommentIds` | fb-comment-fetcher/src/main/java/com/webhook_wrapper/scheduler/CommentSyncScheduler.java:50-55 | the ids collected from one post are its ids that were not yet seen |
| `CommentSync.NewCommentsFresh` | fb-comment-fetcher/src/main/java/com/webhook_wrapper/scheduler/CommentSyncScheduler.java:44-57 | the ids collected from one post are exactly its ids that were unseen, one comment per such id, and the seen-set grows by exactly the post's ids |
| `CommentSync.ClassifyPost` | fb-comment-fetcher/src/main/java/com/webhook_wrapper/scheduler/CommentSyncScheduler.java:59-62 | the post-id set stays the key set of the grouping and no group is empty |
| `CommentSync.ClassifyFrom` | fb-comment-fetcher/src/main/java/com/webhook_wrapper/scheduler/CommentSyncScheduler.java:42-63 | classifying a run of posts keeps the post-id set equal to the grouping's key set with no empty group |
| `CommentSync.ClassifyAppend` | fb-comment-fetcher/src/main/java/com/webhook_wrapper/scheduler/CommentSyncScheduler.java:42-63 | classifying a concatenation of posts is classifying the first part and then the second from where it left off |
| `CommentSync.Classify` | fb-comment-fetcher/src/main/java/com/webhook_wrapper/scheduler/CommentSyncScheduler.java:42-63 | step 1 leaves every comment id of the response seen, and puts a post id in `postsWithNewComments` exactly when some occurrence of it had a new comment |
| `CommentSync.ClassifySeen` | fb-comment-fetcher/src/main/java/com/webhook_wrapper/scheduler/CommentSyncScheduler.java:42-63 | after step 1 the seen-set is the old one plus every comment id of every post, including posts that had nothing new |
| `CommentSync.ClassifyGroups` | fb-comment-fetcher/src/main/java/com/webhook_wrapper/scheduler/CommentSyncScheduler.java:42-63 | a post id is in `postsWithNewComments` exactly when some occurrence of it had new comments |
| `CommentSync.ClassifyUntouched` | fb-comment-fetcher/src/main/java/com/webhook_wrapper/scheduler/CommentSyncScheduler.java:59-62 | the group of a post id with no later occurrence that had new comments is unchanged |
| `CommentSync.ClassifyLastWins` | fb-comment-fetcher/src/main/java/com/webhook_wrapper/scheduler/CommentSyncScheduler.java:59-62 | the group of a post id is the new comments of its last occurrence that had any |
| `CommentSync.ClassifyFresh` | fb-comment-fetcher/src/main/java/com/webhook_wrapper/scheduler/CommentSyncScheduler.java:42-63 | every grouped comment was unseen when the pass began, and no comment id occurs twice within or across groups |
| `CommentSync.EmitRows` | fb-comment-fetcher/src/main/java/com/webhook_wrapper/scheduler/CommentSyncScheduler.java:84-88 | each emitted row belongs to a listed post id and to a comment of its group; with each post id listed once, the rows of a post id are exactly its group's rows in fetched order, and an unlisted id has none |
| `CommentSync.Placeholder` | fb-comment-fetcher/src/main/java/com/webhook_wrapper/scheduler/CommentSyncScheduler.java:73-79 | the fallback details carry the post id and empty message, link and creation time |
| `CommentSync.Enrich` | fb-comment-fetcher/src/main/java/com/webhook_wrapper/scheduler/CommentSyncScheduler.java:66-81 | the cache gains exactly the listed post ids, each with its looked-up details or, when the lookup threw, the placeholder; other entries are kept |
| `CommentSync.RowOf` | fb-comment-fetcher/src/main/java/com/webhook_wrapper/scheduler/CommentSyncScheduler.java:89-111 | a row carries the formatted time, post id, comment id, message and extracted phone; name and author id come from `from`, or are "Unknown" when it is absent |
| `CommentSync.RowsFor` | fb-comment-fetcher/src/main/java/com/webhook_wrapper/scheduler/CommentSyncScheduler.java:86-88 | a post yields one row per new comment, in fetched order |
| `CommentSync.Send` | fb-comment-fetcher/src/main/java/com/webhook_wrapper/scheduler/CommentSyncScheduler.java:102-115 | every row is offered to the sink in order and a rejected row does not stop the rest |
| `CommentSync.SyncComments` | fb-comment-fetcher/src/main/java/com/webhook_wrapper/scheduler/CommentSyncScheduler.java:33-119 | without a `data` list the pass changes nothing and calls nothing; otherwise every comment id is seen afterwards and the detail cache holds exactly the looked-up post ids |
| `CommentSync.EmitRowsDistinct` | fb-comment-fetcher/src/main/java/com/webhook_wrapper/scheduler/CommentSyncScheduler.java:84-117 | with disjoint groups, no comment id is emitted twice |
| `CommentSync.SendKeepsRows` | fb-comment-fetcher/src/main/java/com/webhook_wrapper/scheduler/CommentSyncScheduler.java:102-115 | the attempted rows are exactly the rows emitted, whatever the sink answers |
| `CommentSync.SyncLookups` | fb-comment-fetcher/src/main/java/com/webhook_wrapper/scheduler/CommentSyncScheduler.java:65-81 | one detail lookup per distinct post id with new comments, and none for any other post |
| `CommentSync.SyncDetails` | fb-comment-fetcher/src/main/java/com/webhook_wrapper/scheduler/CommentSyncScheduler.java:66-81 | each looked-up post id is cached with its details, or the placeholder when the lookup threw |
| `CommentSync.SyncRowsPerPost` | fb-comment-fetcher/src/main/java/com/webhook_wrapper/scheduler/CommentSyncScheduler.java:42-117 | the rows of a post id are the rows of its last occurrence with new comments, in fetched order; a post id with nothing new has no rows |
| `CommentSync.SyncRowsFresh` | fb-comment-fetcher/src/main/java/com/webhook_wrapper/scheduler/CommentSyncScheduler.java:42-117 | every attempted row is for a comment that was unseen before the pass and seen after it, and no comment id is attempted twice in a pass |
| `CommentSync.SyncIgnoresSinkOutcome` | fb-comment-fetcher/src/main/java/com/webhook_wrapper/scheduler/CommentSyncScheduler.java:102-115 | the sink's answers change neither the seen-set, the lookups, the cache nor the rows attempted |
| `CommentSync.PostIdsInAll` | fb-comment-fetcher/src/main/java/com/webhook_wrapper/scheduler/CommentSyncScheduler.java:42-57 | the comment ids of one post are among the ids of the whole response |
| `CommentSync.NothingNewWhenAllSeen` | fb-comment-fetcher/src/main/java/com/webhook_wrapper/scheduler/CommentSyncScheduler.java:42-63 | when every comment id is already seen, no post has new comments |
| `CommentSync.RepeatPassEmitsNothing` | fb-comment-fetcher/src/main/java/com/webhook_wrapper/scheduler/CommentSyncScheduler.java:33-119 | a second pass over the same response looks nothing up and writes nothing, even for comments whose write failed |
| `CommentSync.PassKeepsSeen` | fb-comment-fetcher/src/main/java/com/webhook_wrapper/scheduler/CommentSyncScheduler.java:33-63 | a pass only adds to the seen-set, so every later pass of the process starts from a superset of it |
| `CommentSync.NoCommentAttemptedTwice` | fb-comment-fetcher/src/main/java/com/webhook_wrapper/scheduler/CommentSyncScheduler.java:33-119 | no comment id attempted by one pass is attempted by a later pass that starts from any seen-set containing the one the first pass left, whatever its response, order and I/O |
| `CommentSync.NewCommentsSingle` | fb-comment-fetcher/src/main/java/com/webhook_wrapper/scheduler/CommentSyncScheduler.java:50-55 | a single comment is collected exactly when its id is unseen, and its id is seen afterwards |
| `CommentSync.ClassifyTwicePosted` | fb-comment-fetcher/src/main/java/com/webhook_wrapper/scheduler/CommentSyncScheduler.java:59-62 | for any post id listed twice with two distinct unseen comments a then b, both ids are seen but the group of that post holds only b |
| `CommentSync.SyncOneGroup` | fb-comment-fetcher/src/main/java/com/webhook_wrapper/scheduler/CommentSyncScheduler.java:33-117 | when only one post id has new comments, the pass leaves the seen-set of step 1 and attempts exactly that post's group's rows |
| `CommentSync.DuplicatePostLosesEarlierComments` | fb-comment-fetcher/src/main/java/com/webhook_wrapper/scheduler/CommentSyncScheduler.java:59-88 | in that response a is marked seen but the only row attempted is b's |
| `KeyValueStore.Get` | fb-comment-fetcher/src/main/java/com/webhook_wrapper/facebook/RedisTimestampTracker.java:36 | GET returns a value exactly when the key is present and unexpired |
| `KeyValueStore.Set` | fb-comment-fetcher/src/main/java/com/webhook_wrapper/facebook/RedisTimestampTracker.java:84 | plain SET makes the value readable at every later time and leaves other keys alone |
| `KeyValueStore.SetIfAbsent` | fb-comment-fetcher/src/main/java/com/webhook_wrapper/facebook/RedisTimestampTracker.java:78-79 | SET NX with a time-to-live succeeds exactly when the key reads as absent, and otherwise changes nothing |
| `KeyValueStore.Delete` | fb-comment-fetcher/src/main/java/com/webhook_wrapper/facebook/RedisTimestampTracker.java:138-139 | DEL removes the key and nothing else |
| `TimestampTracker.GetLastFetchTimestamp` | fb-comment-fetcher/src/main/java/com/webhook_wrapper/facebook/RedisTimestampTracker.java:34-59 | a failed read, a missing key, a blank or unparsable value gives 0; a non-zero result is the parsed stored value, in `long` and `Instant` range |
| `TimestampTracker.GetLastFetchInstant` | fb-comment-fetcher/src/main/java/com/webhook_wrapper/facebook/RedisTimestampTracker.java:127-130 | the instant is absent exactly when the timestamp is not positive, and is otherwise that timestamp |
| `TimestampTracker.TryLock` | fb-comment-fetcher/src/main/java/com/webhook_wrapper/facebook/RedisTimestampTracker.java:75-81 | the lock is obtained exactly when no live lock exists, and then holds the caller's token until 30 s later; otherwise nothing changes |
| `TimestampTracker.ReleaseLock` | fb-comment-fetcher/src/main/java/com/webhook_wrapper/facebook/RedisTimestampTracker.java:110-120 | the lock is deleted only when its live value is the caller's token, and is deleted in that case unless a call throws; nothing else changes |
| `TimestampTracker.WriteValue` | fb-comment-fetcher/src/main/java/com/webhook_wrapper/facebook/RedisTimestampTracker.java:83-84 | a successful write makes the decimal text of the value readable at every later time; only the timestamp key changes |
| `TimestampTracker.UpdateLastFetchTimestamp` | fb-comment-fetcher/src/main/java/com/webhook_wrapper/facebook/RedisTimestampTracker.java:74-105 | an update touches only the timestamp and lock keys |
| `TimestampTracker.Reset` | fb-comment-fetcher/src/main/java/com/webhook_wrapper/facebook/RedisTimestampTracker.java:136-145 | both keys are deleted in order; a throwing first delete leaves everything; a throwing second delete leaves everything but the timestamp key, the lock included; nothing outside the two keys changes |
| `TimestampTracker.UpdateThenGet` | fb-comment-fetcher/src/main/java/com/webhook_wrapper/facebook/RedisTimestampTracker.java:74-105 | for a `long` value inside `Instant`'s epoch-second range, once the lock call and the write do not throw, reading back at any later time gives the value written, whether or not the lock was obtained |
| `TimestampTracker.UpdateLostWhenLockCallFails` | fb-comment-fetcher/src/main/java/com/webhook_wrapper/facebook/RedisTimestampTracker.java:77-104 | a throwing lock attempt leaves the store unchanged |
| `TimestampTracker.UpdateReleasesOwnLock` | fb-comment-fetcher/src/main/java/com/webhook_wrapper/facebook/RedisTimestampTracker.java:81-91 | a caller that obtains the lock leaves no lock behind, even when its write throws |
| `TimestampTracker.UpdateKeepsForeignLock` | fb-comment-fetcher/src/main/java/com/webhook_wrapper/facebook/RedisTimestampTracker.java:92-100 | a caller that finds another live lock leaves that lock exactly as it was |
| `TimestampTracker.LockExpiresAfterTimeout` | fb-comment-fetcher/src/main/java/com/webhook_wrapper/facebook/RedisTimestampTracker.java:19 | an unreleased lock blocks other callers until 30 000 ms after it was taken, and an attempt at or after that time obtains it |
| `TimestampTracker.ReleaseNeedsOwnToken` | fb-comment-fetcher/src/main/java/com/webhook_wrapper/facebook/RedisTimestampTracker.java:112-115 | a held lock is removed by a release only when the release carries the stored token |
| `TimestampTracker.ResetClears` | fb-comment-fetcher/src/main/java/com/webhook_wrapper/facebook/RedisTimestampTracker.java:136-139 | after a reset whose deletes succeed, the timestamp reads 0, there is no instant and no lock is held |
| `TimestampTracker.HugeTimestampReadsAsZero` | fb-comment-fetcher/src/main/java/com/webhook_wrapper/facebook/RedisTimestampTracker.java:40-42 | a `long` outside `Instant`'s range is stored as written but reads back as 0 |

## Left out

- The Graph API calls (`FacebookClient.fetchPostsAndComments`, `fetchPostDetails`) are left out as network I/O.
  - The response's `data` list is a parameter.
  - A fetch that throws aborts the pass before anything changes, which the model treats the same as a response without `data`.
  - A `data` value that is not a list (a `ClassCastException` in Java) cannot arise in the typed model.
  - `lookup` is the detail call. A `null` body would be cached as `null`; the model has no such value.
- Exceptions that escape `syncComments` are not modelled; the typed model has no inputs that raise them. Each would end the pass part-way: the ids tested so far stay in the seen-set and whatever the pass had not yet done never happens, so the comments not yet offered to the sheet are never written by this process. The cases are:
  - during classification (`CommentSyncScheduler.java:42-63`), before any detail lookup or row:
    - a post that is not a `Map`. `FacebookClient.java:98` skips such entries only while attaching comments and leaves them in `data`, so the loop at `CommentSyncScheduler.java:42` throws `ClassCastException`;
    - a `null` post, which throws `NullPointerException` at `:43`;
    - a non-`String` post `id` (`:43`), a non-`Map` `comments` wrapper (`:46`) or a non-`List` comment `data` (`:48`), each a `ClassCastException`;
    - a comment element that is not a `Map`, which throws `ClassCastException` in the loop at `:50`;
    - a `null` comment (`NullPointerException`) or a non-`String` comment `id` (`ClassCastException`), both at `:51`;
  - while building rows, after the detail lookups and outside the `try` at `:102`, so the rows not yet offered are lost:
    - a non-`String` `message` or `created_time` (`:90-91`);
    - a `from` that is not a `Map` (`:92`);
    - a non-`String` `from.name` or `from.id` (`:93-94`).
- `KeyValueStore.Get`: a key counts as live while its expiry time is later than `now`. Redis drops a key only once `now` is past the expiry time, so at exactly `taken + 30000` ms Redis still holds the lock that `TimestampTracker.LockExpiresAfterTimeout` already lets a caller take. The model is 1 ms early at that boundary.
- `TimestampTracker.UpdateLostWhenLockCallFails`: assumes a failing Redis call throws before the server applies it. A client timeout after the server applied `SET NX` would leave a lock behind, and the model does not promise anything for that case.
- `TimestampTracker.Reset`: a throwing first `DEL` is taken to leave the store unchanged; a `DEL` applied by the server before the client timed out is not modelled. The same assumption holds for `TimestampTracker.WriteValue` and `TimestampTracker.ReleaseLock`.
- `SheetsAppender` is left out as I/O. `write` answers whether `appendRow` returned normally; the sheet contents and the "not initialized" exception are behind it.
- `formatTimestamp` is left out because it relies on `Instant.parse` and the wall clock. It is the parameter `format`.
- Logging is not modelled; every `System.out`/`System.err` line is dropped. The exception is the `Instant.ofEpochSecond` call inside the success log line of `getLastFetchTimestamp`: it can throw, so it is modelled.
- Concurrency is not modelled. The scheduler and two tracker instances may run at once, but each operation is one atomic step on the store. The Redis calls inside one `updateLastFetchTimestamp` all see the same clock value `now`. So a lock cannot expire between being taken and being released within one call.
- `updateLastFetchTimestamp()` without arguments is not modelled separately; it passes `Instant.now()`, which is the `epochSeconds` parameter. The lock token's `currentTimeMillis` is the `token` parameter.
- `isRedisHealthy` and `getStatus` are left out. They are a probe read and a formatted status string, and nothing in the core depends on them.
- `TimestampController`, `SheetsTestController`, `AppProperties` and the Spring wiring are left out: they only call into the core or configure it.
- `JavaText.ParseLong` accepts ASCII digits only. `Long.parseLong` also accepts other Unicode decimal digits. Values written by the tracker are ASCII, so the round trip is unaffected.
- `JavaText.Trim` is exact for `String.trim`. Java's regex `\s` in the phone pattern is modelled as the ASCII whitespace set (space, tab, newline, vertical tab, form feed, carriage return), which is the non-`UNICODE_CHARACTER_CLASS` default.
- `Boolean.TRUE.equals(lockAcquired)` also treats a `null` reply as "not acquired". A `null` reply only happens inside Redis pipelines or transactions, which the tracker does not use, so the model has none.
