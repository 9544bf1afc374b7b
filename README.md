# hyperschedule, modelled in Dafny

Hyperschedule serves course data for the Claremont Colleges (and, through a
second scraper, CU Boulder) to a scheduling web app. Scrapers post snapshots
of the course data. The server keeps each snapshot together with a short
history of diffs, so a client that already holds an older snapshot can ask
"what changed since age T?" and receive either a small diff or the full data.

This project models the core of that system and proves what its code and
its doc-comments promise.

**The diff engine** (`diff.dfy`, `diff_manager.dfy`, `worker.dfy`)
- Diffs are computed, applied and merged over nested JSON objects. A deleted
  key is marked with the plain string "$delete".
- `RoundTrip` proves that applying a computed diff rebuilds the target,
  provided the target holds no "$delete" string.
- The sequential law (apply `d1` then `d2`, or apply their merge) holds only
  under a stated composition condition. Two counterexamples are proved:
  - a key deleted and then edited keeps stale sub-keys;
  - a key inserted and then sub-edited stores a stray "$delete".
- `DiffManager` keeps `(age, diff-to-present)` entries and prunes them with a
  doubling rule. The i-th entry kept, counted from the newest, is at least
  2^i older than the present, so at most log2 of the age span plus one
  entries survive.
- A query returns the diff of the newest entry at or before `since`, or the
  full data.
- `worker.py` holds its own copy of these helpers, plus a rate limiter and
  the "$delete" guard on scraper output. Its merge is proved equal to the API
  module's merge.

**The servers around the engine**
- `server.py` (`server.dfy`) is the older Portal server. It keeps an index
  of courses by index key and an update log of added, removed and modified
  keys, capped at 100 entries.
  - A fold collapses the log since a timestamp.
  - The courses-since endpoint answers incrementally or in full.
  - Trimming the log never advances the initial timestamp. The model proves
    that after trimming, an incremental answer is folded from the oldest kept
    entry rather than from the initial index.
- `hyperschedule/api/database.py` (`database.dfy`) keeps one diff manager per
  scraper and term code. It records each scraper's term data and picks the
  most recent term by the largest `termSortKey`, compared as Python compares
  tuples, including the `TypeError` for mixed item types.
- `validate.dfy` models the shape check on posted payloads.

**Parsers, keys and checks**
- Claremont course codes and term codes (`course_code.dfy`,
  `term_code.dfy`).
  - Their regexes are matched by hand, with the choices Python's
    backtracking matcher makes.
  - Printing a course code and parsing it back is proved to be the identity
    when the suffix is empty or starts with a letter.
  - A one-digit suffix is shown not to read back.
- Course index keys and their inverse (`course_keys.dfy`). The round trip
  needs slash-free strings; a department containing "/" is shown to break it.
- The Lingk description builders (`lingk.dfy`).
  - Every loop is one fold over per-entry contributions, with four rules for
    a key that is already present: raise on a mismatch, keep the later value,
    keep the longer value, or keep the first value.
  - `ApiDescriptions` and `CsvDescriptions` take the key function as a
    parameter, so they serve all three Lingk files.
- The CU Boulder field parsers and CRN bookkeeping (`cu_boulder.dfy`).
- The Portal scraper's checks (`portal.dfy`): weekday normalisation, the
  half-semester windows, seat and status checks, the lettering of courses
  that share a code, the failure thresholds, and the split into parsed and
  malformed courses.
- Order-preserving deduplication (`lists.dfy`). `Lists.Unique` models `unique`
  of server.py and `unique_preserve_order` of both Portal scrapers.
- The boolean configuration parser (`config.dfy`).
- The syllabus store and its merge into course data, and the 5C email test
  (`syllabus.dfy`).

**Shared definitions**
- `json.dfy` defines the JSON values.
- `text.dfy` defines the slice of Python string behaviour the code relies on.
- `wrappers.dfy` defines `Option` and `Result`.

Loops in the source are methods with loop invariants, each proved against a
specification function. State the source updates in place is held in
classes. These are `DiffManager.Manager`, `Worker.Manager`,
`Worker.RateLimiter`, `Server.CourseStore`, `Database.Database`,
`Syllabus.SyllabusStore` and `Syllabus.CourseData`.

Clock readings, the environment, the verified user's email and
`process_course` are parameters.

## Model

| member | source | states |
|---|---|---|
| Diff.ComputeDiff | hyperschedule/api/diff.py:13-25 | a non-object argument yields `o2`; for two objects the diff holds the keys only in `o2` verbatim, the changed keys as recursive diffs, the keys only in `o1` as "$delete", and no unchanged key |
| Diff.ApplyDiff | hyperschedule/api/diff.py:31-45 | a non-object argument yields `d`; for objects, keys marked "$delete" are removed (absent ones ignored), unmentioned keys are kept, absent keys get the diff value verbatim, present keys are patched recursively |
| Diff.MergeDiffs | hyperschedule/api/diff.py:53-64 | a non-object side yields `d2`; otherwise the key set is the union, one-sided keys keep their value and shared keys are merged recursively |
| Diff.ComputeDiffSelf | hyperschedule/api/diff.py:15-25 | an object's diff against itself is the empty object |
| Diff.ApplyEmpty | hyperschedule/api/diff.py:31-45 | the empty diff leaves an object unchanged |
| Diff.MergeEmpty | hyperschedule/api/diff.py:53-64 | the empty object is a left and right unit of merging for object diffs |
| Diff.MergeEmptyLeft | hyperschedule/api/diff.py:53-64 | merging the empty object with any diff returns that diff |
| Diff.RoundTrip | hyperschedule/api/diff.py:9-12 | applying `compute_diff(o1, o2)` to `o1` gives `o2` whenever "$delete" occurs nowhere in `o2` |
| Diff.RoundTripLosesDeleteString | hyperschedule/api/diff.py:35-39 | a stored "$delete" string is read back as a deletion, so the round trip needs its precondition |
| Diff.ApplyInsertsVerbatim | hyperschedule/api/diff.py:41-43 | a value inserted for an absent key keeps its nested "$delete" markers |
| Diff.SequentialLaw | hyperschedule/api/diff.py:49-51 | applying `d1` then `d2` equals applying their merge, under the stated composition condition |
| Diff.SequentialLawFailsAfterDelete | hyperschedule/api/diff.py:53-63 | counterexample to the docstring: a key deleted by `d1` and edited by `d2` keeps stale sub-keys under the merged diff |
| Diff.SequentialLawFailsAfterInsert | hyperschedule/api/diff.py:41-43 | counterexample: a key inserted whole by `d1` and sub-edited by `d2` stores a stray "$delete" under the merged diff |
| Diff.ChainedDiffs | hyperschedule/tests/test_diff.py:16-22 | the merge of two computed diffs rebuilds `z` from `x` whenever the composition condition holds for the two computed diffs |
| Diff.ChainedFromMiddle | hyperschedule/tests/test_diff.py:16-23 | the merge of `compute_diff(x, y)` and `compute_diff(y, z)` rebuilds `z` from `y` for every `x`, when "$delete" occurs in neither `y` nor `z` |
| Diff.ReapplyTarget | hyperschedule/api/diff.py:9-45 | applying `compute_diff(x, y)` to `y` itself gives `y` back, when "$delete" occurs nowhere in `y` |
| Diff.DiffAt | hyperschedule/api/diff.py:15-25 | a key of `y` is in the diff with the diff of its old and new values, or is absent exactly because its value is unchanged |
| Diff.DiffNotDelete | hyperschedule/api/diff.py:13-25 | a computed diff is never itself the "$delete" marker when its target is not |
| Diff.ChainedTestTriples | hyperschedule/tests/test_diff.py:8-23 | all six triples of the test rebuild `c` both from `a` and from `b` |
| Diff.ChainedFromStartFails | hyperschedule/tests/test_diff.py:16-22 | rebuilding from the start fails in general: when `y` replaces an object by a string and `z` restores part of it, the other old fields survive |
| Diff.FromStartKeepsField | hyperschedule/api/diff.py:31-64 | the old field `g` outlives the chained diff that drops it through a string |
| Diff.OneDiff | hyperschedule/api/diff.py:15-25 | the diff of two one-key objects on the same key is empty or holds that key's diff |
| Diff.AddDiff | hyperschedule/api/diff.py:15-25 | the diff from the empty object to a one-key object is that object |
| Diff.DropDiff | hyperschedule/api/diff.py:15-25 | the diff from a one-key object to the empty object marks that key "$delete" |
| Diff.OneMerge | hyperschedule/api/diff.py:53-64 | merging two one-key diffs on the same key merges the values |
| Diff.OneApply | hyperschedule/api/diff.py:31-45 | a one-key diff on a one-key object deletes the key or applies to its value |
| Diff.EmptyApply | hyperschedule/api/diff.py:31-45 | a one-key diff on the empty object inserts the value unless it is "$delete" |
| Diff.TripleFlat | hyperschedule/tests/test_diff.py:9 | three one-key objects with scalar values rebuild both ways |
| Diff.TripleAdded | hyperschedule/tests/test_diff.py:10 | a key added by `b`, with any value (a string, or the object of the triple at line 13), and replaced by a string in `c` rebuilds both ways |
| Diff.TripleRemoved | hyperschedule/tests/test_diff.py:11 | a key removed by `b` and restored by `c` rebuilds both ways |
| Diff.TripleDropped | hyperschedule/tests/test_diff.py:12 | a key added by `b` and dropped by `c` rebuilds both ways |
| Diff.TripleReplaced | hyperschedule/tests/test_diff.py:14 | an object replaced by a string and then by a one-field object with the string's value rebuilds both ways |
| Diff.OneClean | hyperschedule/api/diff.py:9-12 | a one-key object is free of "$delete" when its value is |
| DiffManager.PruneEntries | hyperschedule/api/diff.py:108-115 | the reversed pop-and-double loop leaves exactly the specified survivors |
| DiffManager.PrunedSpacedOut | hyperschedule/api/diff.py:103-115 | the i-th survivor counted from the newest is at least 2^i older than the new age |
| DiffManager.PruneFromSpacedOut | hyperschedule/api/diff.py:110-115 | each pruning step keeps the spacing of the survivors so far, with the threshold at 2^(number kept) |
| DiffManager.PrunedIsSubsequence | hyperschedule/api/diff.py:110-115 | pruning only drops entries and keeps their order |
| DiffManager.PruneFromSubsequence | hyperschedule/api/diff.py:110-115 | the entries a pruning pass keeps from the unvisited part form a subsequence of it |
| DiffManager.PrunedLogarithmic | hyperschedule/api/diff.py:73-77 | when every entry is at least as new as `lo`, at most log2(newAge - lo) + 1 entries survive |
| DiffManager.Log2FloorBound | hyperschedule/api/diff.py:73-77 | 2^n <= x implies n <= floor(log2 x), the step behind the logarithmic bound |
| DiffManager.SubsequenceMembers | hyperschedule/api/diff.py:110-115 | every entry of a subsequence is an entry of the original |
| DiffManager.MergeAll | hyperschedule/api/diff.py:120-121 | merging the new diff into every entry keeps the number of entries and each entry's age |
| DiffManager.AdvancePushesDiff | hyperschedule/api/diff.py:116-122 | after an update the entry for the previous snapshot has its age and exactly the diff from it to the new data |
| DiffManager.MergedEntryRebuilds | hyperschedule/api/diff.py:116-121 | an entry whose diff rebuilt the current data rebuilds the new data after the merge, under the composition condition |
| DiffManager.NewestAtOrBefore | hyperschedule/api/diff.py:147-149 | the index found is the newest entry with `age <= since`; none is found only when every entry is newer |
| DiffManager.Manager.constructor | hyperschedule/api/diff.py:93-94 | a new manager has no data and no entries |
| DiffManager.Manager.FromState | hyperschedule/api/diff.py:95-96 | a manager built from a state holds exactly that state |
| DiffManager.Manager.GetState | hyperschedule/api/diff.py:152-159 | returns the state, so restoring from it gives an identical manager |
| DiffManager.Manager.SetCurrentData | hyperschedule/api/diff.py:98-122 | the new state is the prune, push `(old age, {})` and merge of the specification, and the age and data become the new ones |
| DiffManager.Manager.GetDiffToPresent | hyperschedule/api/diff.py:141-150 | the backward scan returns the specified answer for every `since` and state |
| DiffManager.AnswerCases | hyperschedule/api/diff.py:145-150 | a `since` at or after the current age gets `({}, False, age)`; one older than every entry gets `(data, True, age)` |
| Worker.ListStartsWith | hyperschedule/worker.py:47-51 | true iff `prefix` is no longer than `lst` and equals its first `len(prefix)` elements |
| Worker.PairsEqual | hyperschedule/worker.py:51 | true iff the two lists agree on their common length |
| Worker.MergeDiffsAgree | hyperschedule/worker.py:94-105 | the worker's copy-then-override merge equals the API module's union merge on every pair of values |
| Worker.Manager.constructor | hyperschedule/worker.py:124-130 | a new manager has no data and no entries |
| Worker.Manager.SetCurrentData | hyperschedule/worker.py:132-158 | the new state is the same prune, push and merge as the API manager's, with the worker's merge |
| Worker.Manager.GetCurrentData | hyperschedule/worker.py:160-166 | returns the age and data, both unset before the first update |
| Worker.Manager.GetDiffToPresent | hyperschedule/worker.py:168-192 | the answer is the API manager's answer for a set `since` |
| Worker.RateLimiter.constructor | hyperschedule/worker.py:257-258 | the limiter starts with no last timestamp |
| Worker.RateLimiter.Call | hyperschedule/worker.py:260-267 | the call runs iff there was no executed call or `now - last >= rate_limit`; only a call that runs moves the clock |
| Worker.ExecutedSpaced | hyperschedule/worker.py:263-266 | two consecutive executed calls are at least `rate_limit` apart |
| Worker.FirstCallRuns | hyperschedule/worker.py:263 | the first call always runs |
| Worker.CheckScraperOutput | hyperschedule/worker.py:342-343 | the output is accepted iff the text "$delete" does not occur in it, and is then passed on unchanged |
| Worker.EscapedMarkerPassesGuard | hyperschedule/worker.py:342-344 | the guard is on the text: a JSON escape of the dollar sign passes it |
| Worker.NoMatchAnywhere | hyperschedule/worker.py:342 | a string with no occurrence at any position does not contain the substring |
| Lists.Unique | server.py:26-31 | no duplicates, the same elements as the input, listed in the order of their first occurrences (also `unique_preserve_order` in hyperschedule/scraper/portal.py:33-43 and libportal.py:30-38) |
| CourseKeys.ValueText | libcourse.py:42 | `str()` of an int reads back with `int()` to the same int |
| CourseKeys.IntToStringParsesHere | libcourse.py:42-48 | the decimal text of any int parses back to it |
| CourseKeys.KeyParts | libcourse.py:41-42 | the key's parts are the texts of the five index attributes in `COURSE_INDEX_ATTRS` order |
| CourseKeys.CourseFromIndexKey | libcourse.py:44-50 | every attribute read back is an index attribute; exactly `courseNumber` and `section` become ints and the others stay strings; `None` where `int()` raises |
| CourseKeys.FromParts | libcourse.py:46-49 | the `zip` loop pairs attributes with parts up to the shorter, with the same int conversion |
| CourseKeys.IndexPart | hyperschedule/libcourse.py:66-71 | the partial course a key can hold: the index attributes of the course and nothing else |
| CourseKeys.FromPartsOf | libcourse.py:46-49 | reading back the texts of a key-safe course's attributes gives those attributes |
| CourseKeys.PartsSlashFree | server.py:239-256 | no part of a key-safe course's key holds a "/" |
| CourseKeys.IntTextSlashFree | libcourse.py:42 | the decimal text of an int holds no "/" |
| CourseKeys.IndexKeyRoundTrip | hyperschedule/libcourse.py:59-77 | `course_from_index_key(course_to_index_key(c))` is `c` restricted to the five index attributes, for slash-free strings and int numbers |
| CourseKeys.KeySeparators | libcourse.py:41-42 | a key-safe course's key holds exactly four "/" |
| CourseKeys.SlashBreaksRoundTrip | libcourse.py:41-50 | a department "A/B" makes the key unreadable: "B" is read as the course number |
| CourseKeys.SlashedKey | libcourse.py:41-42 | the key of the slashed course is "A/B/1//HM/1" |
| CourseKeys.SlashedKeyUnreadable | libcourse.py:44-50 | reading "A/B/1//HM/1" back fails |
| CourseKeys.NumberNotInt | libcourse.py:47-48 | a key whose second part is "B" cannot be read back, since `int("B")` raises |
| CourseKeys.CourseSortKey | hyperschedule/libcourse.py:79-84 | the sort key is the five index attributes in `COURSE_INDEX_ATTRS` order |
| CourseKeys.SortKeyMatchesIndexKey | libcourse.py:41-53 | for key-safe courses, equal sort keys and equal index keys coincide |
| CourseKeys.ScheduleSortKey | libcourse.py:1-2 | the key is `(days, startTime, endTime)` of the slot |
| CourseKeys.ScheduleKeyEqual | hyperschedule/libcourse.py:14-19 | two slots share a key exactly when they agree on days, start and end time |
| Server.Keys | server.py:406 | one index key per course, in order |
| Server.IndexCourses | server.py:403-411 | succeeds iff no two courses share an index key, and then maps each course's key to that course and holds no other key |
| Server.IndexBy | server.py:405-410 | the loop succeeds iff the keys are pairwise distinct, and then maps each key to its course |
| Server.ChangedAttrs | server.py:421-424 | lists at most the attributes given |
| Server.ChangedAttrsMembers | server.py:422-424 | an attribute is listed iff it is one of the attributes given and its values differ |
| Server.ChangedAttrsOrdered | server.py:422-424 | the attributes listed keep the order of `COURSE_ATTRS` |
| Server.DifferingAttrs | server.py:421-424 | the inner loop returns the specified list of differing attributes |
| Server.ComputeUpdate | server.py:413-431 | the loop over shared keys returns the specified update |
| Server.RecordKey | server.py:419-426 | one shared key's step records it as modified iff some attribute differs |
| Server.ModifiedStep | server.py:425-426 | one step of the loop keeps the invariant on the keys visited so far |
| Server.SameModified | server.py:418-426 | after all shared keys the modified map is the specified one |
| Server.UpdateSpecMeaning | server.py:413-431 | added = new keys minus old, removed = old keys minus new, and a shared key is modified iff some `COURSE_ATTRS` attribute differs, with exactly those attributes |
| Server.NothingChanged | server.py:423 | a course compared with itself has no differing attribute |
| Server.UpdateOfSame | server.py:413-431 | the update between an index and itself is empty |
| Server.CollapseSince | server.py:433-458 | the fold over the log returns the specified collapse, or the assertion failure |
| Server.CollapseNoneStays | server.py:440-452 | once an assertion fails, the whole fold fails |
| Server.FoldUpdateDisjoint | server.py:440-458 | one folded update keeps `removed` disjoint from `added` and `modified` |
| Server.CollapseDisjoint | server.py:440-452 | a fold that succeeds leaves `removed` disjoint from `added` and `modified` |
| Server.CollapseSkipsOld | server.py:438 | entries stamped at or before `since` do not contribute |
| Server.CollapseAllOld | server.py:438 | a log with nothing after `since` collapses to nothing pending |
| Server.RemovalCancelsAdd | server.py:453-456 | a removal cancels a pending add and drops pending modifications |
| Server.ReAddIsModified | server.py:446-448 | a re-add after a removal becomes modified with all `COURSE_ATTRS` |
| Server.FoldRecorded | server.py:440-458 | folding an update recorded between indexes never trips an assertion and keeps the fold in step with the index keys |
| Server.CollapseRecordedLog | server.py:437-458 | on a recorded log the fold succeeds and reports exactly the keys added and removed between the first index and the last |
| Server.Shown | server.py:469-472 | a modified entry holds exactly the five index attributes plus the changed attributes, each with the current course's value |
| Server.ShowCourse | server.py:468-473 | the loop over `COURSE_INDEX_ATTRS` then the changed attributes succeeds iff the current course holds them all, and then builds the specified entry |
| Server.CopyIndexAttrs | server.py:471-472 | the `COURSE_INDEX_ATTRS` half of the loop succeeds iff the course holds all five, and then copies exactly those with their values |
| Server.AddedCourses | server.py:460-462 | succeeds iff every added key is in the index, and then lists each added key's course once, in some order of the set |
| Server.RemovedCourses | server.py:463-465 | succeeds iff every removed key reads back with `course_from_index_key`, and then lists each read-back course once |
| Server.ModifiedCourses | server.py:466-473 | succeeds iff every modified key is in the index with the attributes to copy, and then lists one specified entry per modified key |
| Server.DiffSince | server.py:433-478 | `compute_diff` fails by assertion iff the fold does; otherwise answers iff added keys are indexed, removed keys read back and modified keys are indexed with their attributes, a `ValueError` exactly when only the read-back fails, and the answer lists the pending sets |
| Server.UpdateSpecListed | server.py:421-424 | `compute_update` marks only attributes of `COURSE_ATTRS` as modified |
| Server.FoldAttrsKnown | server.py:439-458 | one folded update keeps every pending attribute among `COURSE_ATTRS` |
| Server.CollapseAttrsKnown | server.py:437-458 | a log whose updates list only `COURSE_ATTRS` collapses to pending attributes among `COURSE_ATTRS` |
| Server.IndexAttrsListed | server.py:471 | every attribute of `COURSE_INDEX_ATTRS` is one of `COURSE_ATTRS` |
| Server.RecordedAnswer | server.py:433-478 | on a recorded log from a key-safe first index to a complete current index, `compute_diff` raises nothing: added and modified keys are indexed with all their attributes, removed keys read back |
| Server.Trim | server.py:490-491 | a log over the cap keeps exactly its newest `MAX_UPDATES_SAVED` entries; a shorter one is kept whole |
| Server.CourseStore.constructor | server.py:51-57 | the store starts with no data and an empty log |
| Server.CourseStore.UpdateCourseData | server.py:482-497 | the first call sets the initial timestamp and leaves the log empty; later calls append exactly one update and trim to 100; current, index, timestamp and malformed are overwritten |
| Server.CourseStore.CoursesSince | server.py:625-656 | a malformed timestamp is a bad request; with no courses the data is unavailable; otherwise the answer is incremental iff `since >= initial_timestamp` |
| Server.TrimmedLogStartsLate | server.py:487-491 | after trimming, a `since` still answered incrementally is folded from the oldest kept entry, not from the initial index |
| Database.StrGreaterTransitive | hyperschedule/api/database.py:63 | Python's `>` on strings is transitive |
| Database.StrGreaterIrreflexive | hyperschedule/api/database.py:63 | no string is greater than itself |
| Database.KeyGreaterTransitive | hyperschedule/api/database.py:63 | the tuple comparison of sort keys is transitive where it does not raise |
| Database.KeyGreaterIrreflexive | hyperschedule/api/database.py:63 | no sort key is greater than itself |
| Database.MixedKeysRaise | hyperschedule/api/database.py:63 | comparing a string item with an int item raises `TypeError` |
| Database.MaxIndex | hyperschedule/api/database.py:62-64 | the index `max` returns lies within the list of terms |
| Database.MaxIndexMaximal | hyperschedule/api/database.py:61-64 | no term has a sort key greater than the one `max` picks |
| Database.MaxIndexFirstOfTies | hyperschedule/api/database.py:62-64 | among equal maximal keys `max` picks the first |
| Database.SortKeys | hyperschedule/api/database.py:61-63 | one sort key per recorded term, in insertion order |
| Database.SortKeyOf | hyperschedule/api/database.py:63 | a validated term's `termSortKey` holds only bools, ints and strings |
| Database.MaxBySortKey | hyperschedule/api/database.py:62-64 | the scan over the terms returns the index `max` returns, or the `TypeError` |
| Database.MaxIndexNoneStays | hyperschedule/api/database.py:63 | once a comparison raises, `max` raises |
| Database.AdvanceManager | hyperschedule/api/database.py:57-59 | only the manager for (scraper, term code) changes, made fresh on first use, and it is advanced with the new data |
| Database.RecordTerm | hyperschedule/api/database.py:60 | `terms[scraper][termCode]` becomes the term data and no other entry changes |
| Database.RecordOrder | hyperschedule/api/database.py:60-61 | a new term code is appended to the scraper's insertion order; a known one keeps its place |
| Database.RecordSameShape | hyperschedule/api/database.py:57-60 | managers and recorded terms keep the same scrapers and term codes |
| Database.RecordOrderLists | hyperschedule/api/database.py:60-61 | the insertion order keeps listing exactly the recorded terms |
| Database.RecordWellFormed | hyperschedule/api/database.py:60 | recorded terms stay validated terms |
| Database.RecordConsistent | hyperschedule/api/database.py:55-61 | recording one scraper's data for one term keeps the database consistent |
| Database.RecentConsistent | hyperschedule/api/database.py:62-64 | choosing a recorded term as most recent keeps the database consistent |
| Database.ListedTerms | hyperschedule/api/database.py:61 | a scraper with data has a non-empty list of validated terms |
| Database.Database.constructor | hyperschedule/api/database.py:34-45 | a new database has no managers, terms or most recent terms |
| Database.Database.SetCurrentData | hyperschedule/api/database.py:47-65 | advances only the manager for (scraper, term code), records the term data, and sets the scraper's most recent term to the one with the maximal `termSortKey`, or leaves it where `max` raises |
| Database.Database.Record | hyperschedule/api/database.py:54-60 | only the manager for (scraper, term code) advances, the term data is stored under its code, the term enters the insertion order, and the database stays consistent with the most recent terms unchanged |
| Database.Database.PickMostRecent | hyperschedule/api/database.py:61-64 | managers and terms are unchanged; the scraper's most recent term becomes the one with the maximal `termSortKey`, and it is unchanged exactly when `max` would raise |
| Database.Database.GetDiffManager | hyperschedule/api/database.py:67-75 | "no such scraper" iff the scraper is unknown, "no such term" iff only the term is, and otherwise that manager |
| Database.Database.DiffToPresent | hyperschedule/api/database.py:91-106 | 503 "data not available" iff the scraper has no data; the requested term defaults to the most recent; `since` is dropped unless the client's term is the requested one; the result carries the stored term data |
| Database.AnswerWithoutSinceIsFull | hyperschedule/api/diff.py:142-150 | without `since` the manager always answers in full with its current data |
| Database.TermSwitchForcesFull | hyperschedule/api/database.py:98-99 | a client whose current term is not the requested one gets a full answer whatever `since` it sends |
| Database.FullAnswerIsCurrent | hyperschedule/api/database.py:100-106 | asking for a term without `since` returns its current data in full, its age and its stored term data |
| Database.AdvanceSetsCurrent | hyperschedule/api/diff.py:122 | a manager just advanced holds the new data at the new age |
| Validate.CheckTerm | hyperschedule/api/validate.py:19-32 | the term map passes iff code and name are strings and the sort key is a list of bools, ints and strings; a missing sort key is the key-lookup error |
| Validate.Check | hyperschedule/api/validate.py:7-33 | accepted iff the payload is well formed; a non-map is rejected first, and a missing "scraper" or "term" key is the key-lookup error rather than a `UserError` |
| Validate.KeyErrorsOnly | hyperschedule/api/validate.py:13-24 | the only key-lookup errors are for "scraper", "term" and "termSortKey" |
| Validate.MissingTermCodeIsUserError | hyperschedule/api/validate.py:19-23 | a missing "termCode" is a `UserError`, since `.get` reads it as `None` |
| Validate.CoursesIgnored | hyperschedule/api/validate.py:33 | replacing "courses" never changes the verdict |
| Config.Upper | hyperschedule/util.py:73 | ASCII upper-casing, letter by letter |
| Config.EnvName | hyperschedule/util.py:73 | the name is "HYPERSCHEDULE_" followed by the upper-cased var name, with no lower-case letter after the prefix |
| Config.EnvNameIgnoresOnlyCase | hyperschedule/util.py:82 | two var names with the same environment name agree once upper-cased |
| Config.GetEnv | hyperschedule/util.py:69-74 | some value iff the environment holds the variable, and then its value |
| Config.ParseBoolean | hyperschedule/util.py:84-95 | true iff the value says yes; false iff it does not say yes but says no; malformed (`die`) otherwise |
| Config.GetEnvBoolean | hyperschedule/util.py:76-95 | a missing variable gives no value; otherwise the classification of its value |
| Config.EmptyIsTrue | hyperschedule/util.py:84-88 | the empty string reads as true |
| Config.OnlyEmptyIsBoth | hyperschedule/util.py:84-93 | the empty string is the only value that says both yes and no |
| Config.UpperCaseOnOffMalformed | hyperschedule/util.py:84-95 | "ON" and "OFF" are malformed, since the exact spellings are case-sensitive |
| Config.NoWordStartsWithO | hyperschedule/util.py:85-91 | no word of the lists starts with "o" |
| Config.AbbreviationsCount | hyperschedule/util.py:84-93 | "Y" reads as true and "n" as false |
| Config.NotYes | hyperschedule/util.py:84-86 | "n" does not say yes |
| TermCode.SpaceRun | hyperschedule/scrapers/claremont/shared.py:132 | the greedy `\s*` run: all spaces, ending at the end or before a non-space |
| TermCode.ParseTermCode | hyperschedule/scrapers/claremont/shared.py:124-139 | a parsed term has a year 20dd, and `fall` holds iff the code starts with "FA" (`spring` is its negation) |
| TermCode.ParseNeedsSemester | hyperschedule/scrapers/claremont/shared.py:132-134 | a code not starting with "FA" or "SP" raises |
| TermCode.YearText | hyperschedule/scrapers/claremont/shared.py:132 | the decimal text of a year 2000-2099 is "20" and two digits |
| TermCode.ParseTermCodeOf | hyperschedule/scrapers/claremont/shared.py:132-139 | the semester code, any whitespace, the year and any trailing text parse back to the term |
| TermCode.SpaceRunIs | hyperschedule/scrapers/claremont/shared.py:132 | the run length is the one the spaces determine |
| TermCode.TermInfoAsList | hyperschedule/scrapers/claremont/shared.py:142-147 | the list is `[year, spring]`, an int and a bool |
| TermCode.TermKeyInjective | hyperschedule/scrapers/claremont/shared.py:142-147 | two parsed terms with the same list are the same term |
| TermCode.TermDisplayName | hyperschedule/scrapers/claremont/shared.py:150-155 | "Fall Y" exactly for fall terms, else "Spring Y", ending in the year |
| TermCode.FormatTerm | hyperschedule/libcourse.py:158-164 | the semester followed by the decimal year |
| TermCode.FormatThenParse | hyperschedule/libcourse.py:158-164 | a term printed by `format_term` parses back to the same term |
| CourseCode.Span | hyperschedule/scrapers/claremont/shared.py:20 | the length of a run of one character class stays within the text |
| CourseCode.SpanRun | hyperschedule/scrapers/claremont/shared.py:20 | the run measured is all of the class and cannot be extended |
| CourseCode.SectionAt | hyperschedule/scrapers/claremont/shared.py:20 | `(?:-([0-9]+))?`: a section found is a non-empty digit run |
| CourseCode.SectionCovers | hyperschedule/scrapers/claremont/shared.py:20 | a section found is exactly the digits after a hyphen at that index, and the text continues with what the optional group matched |
| CourseCode.HeadOf | hyperschedule/scrapers/claremont/shared.py:20 | `([A-Z]+) *?([0-9]+) *` takes maximal runs, which a backtracking match never improves on |
| CourseCode.WholeRun | hyperschedule/scrapers/claremont/shared.py:20 | the reading where the suffix takes the whole letter run and an optional digit, then spaces and two letters, is a well-formed tail of the pattern |
| CourseCode.SplitRun | hyperschedule/scrapers/claremont/shared.py:20 | the reading where the school is the last two letters of the run and the suffix the letters before them is a well-formed tail of the pattern |
| CourseCode.CandidateShapes | hyperschedule/scrapers/claremont/shared.py:20 | the groups read off a well-formed head and tail have the shapes of the five sub-expressions |
| CourseCode.CandidateCovers | hyperschedule/scrapers/claremont/shared.py:20 | those groups with their blanks spell out a prefix of the text, so the match is anchored at the start |
| CourseCode.MatchCourseCode | hyperschedule/scrapers/claremont/shared.py:41-44 | a result is a match of the pattern anchored at the start, and the mandatory-section variant always has a section |
| CourseCode.CheckGroups | hyperschedule/scrapers/claremont/shared.py:45-82 | after a match: a result keeps the groups, has a positive number, slash-free fields, a positive section iff one was matched, and obeys the section rule; a match is never a malformed-code error |
| CourseCode.CheckNumber | hyperschedule/scrapers/claremont/shared.py:45-62 | department, number, suffix and school checks in order: a result is the positive parsed number with slash-free fields |
| CourseCode.CheckSection | hyperschedule/scrapers/claremont/shared.py:63-75 | the section presence is checked against the rule, then a present section must parse positive |
| CourseCode.ParseMatched | hyperschedule/libcourse.py:112-153 | a result is a valid code; malformed-code iff the pattern does not match |
| CourseCode.ParseClaremontCourseCode | hyperschedule/libcourse.py:100-153 | fails iff the pattern does not match or a guard fails; a result is a valid code whose missing section is `None` |
| CourseCode.ParseCourseCode | hyperschedule/scrapers/claremont/shared.py:23-82 | a result is a valid code whose section is present iff `with_section` |
| CourseCode.ParsePortalCourseCode | libportal.py:197-229 | the stripped code must match with a mandatory section; a result is a valid code with a section |
| CourseCode.GroupsValid | hyperschedule/scrapers/claremont/shared.py:45-75 | a code the checks accept is valid |
| CourseCode.ReachableErrors | hyperschedule/scrapers/claremont/shared.py:45-75 | after a match only the number and section checks can fail; the empty and slash checks are unreachable |
| CourseCode.MatchedNumber | hyperschedule/scrapers/claremont/shared.py:49-54 | on a match the number check fails exactly on a zero number |
| CourseCode.GuardsPass | hyperschedule/scrapers/claremont/shared.py:45-62 | on a match the department, suffix and school checks pass and the number parses |
| CourseCode.SectionPresenceErrors | hyperschedule/scrapers/claremont/shared.py:63-67 | "section missing" or "section unexpectedly present" iff the number is positive and section presence differs from `with_section` |
| CourseCode.CourseInfoAsString | hyperschedule/scrapers/claremont/shared.py:85-100 | prints iff the section is present and non-zero, starting with the department and a space |
| CourseCode.CourseInfoAsList | hyperschedule/scrapers/claremont/shared.py:103-121 | the four fields, plus the section when asked; the assertion fails iff a section is asked for and missing or zero |
| CourseCode.CourseKeyInjective | hyperschedule/scrapers/claremont/shared.py:103-121 | two codes share a list iff they agree on the four fields, and on the section when it is included |
| CourseCode.ParsedListable | hyperschedule/scrapers/claremont/shared.py:108-112 | every parsed code can be listed as the docstring requires |
| CourseCode.FormatCodePads | hyperschedule/libcourse.py:86-96 | the number is zero-padded to at least three digits and the section to at least two, each denoting its value |
| CourseCode.PaddedDigits | hyperschedule/libcourse.py:91 | a zero-padded positive number is a digit run of at least the width that denotes it |
| CourseCode.PrintedMatch | hyperschedule/scrapers/claremont/shared.py:41 | a printed code followed by text not starting with a digit matches with the printed groups |
| CourseCode.ReadBack | hyperschedule/scrapers/claremont/shared.py:36-37 | text laid out as `course_info_as_string` lays it out parses to its pieces |
| CourseCode.PrintThenParse | hyperschedule/scrapers/claremont/shared.py:36-37 | `parse_course_code(course_info_as_string(i) + rest, True) == i` when the suffix is empty or starts with a letter and `rest` does not start with a digit |
| CourseCode.DigitSuffixExample | hyperschedule/scrapers/claremont/shared.py:20 | the docstring's promise fails for a one-digit suffix: MATH 005 with suffix "1" prints as "MATH 0051 HM-01" and reads back as MATH 051 |
| Lingk.FoldStopsAtError | hyperschedule/scrapers/claremont/lingk.py:132-152 | once an entry raises, the whole loop raises with the same error |
| Lingk.FoldContents | hyperschedule/scrapers/claremont/lingk.py:147-152 | the loop succeeds iff no entry raises and, under the raise-on-mismatch rule, no key gets two different descriptions; its keys are exactly the contributed ones, each with the description its rule selects (the one shared, the last, the first or the longest) |
| Lingk.PrefixProblem | hyperschedule/scrapers/claremont/lingk.py:147-152 | a failure or disagreement among the first entries is one among all of them |
| Lingk.LastAgrees | hyperschedule/scrapers/claremont/lingk.py:148-150 | when the earlier entries agree, all do iff the last one matches the map so far |
| Lingk.PrefixPairs | hyperschedule/scrapers/claremont/lingk.py:131 | a pair among the first entries is the same pair among all entries |
| Lingk.FoldStep | hyperschedule/scrapers/claremont/lingk.py:147-152 | one successful step keeps the facts about keys and descriptions |
| Lingk.StepKeys | hyperschedule/scrapers/claremont/lingk.py:152 | after a step the keys are exactly the contributed ones |
| Lingk.StepHoldsAll | hyperschedule/scrapers/claremont/lingk.py:147-152 | under raise-on-mismatch every contributed pair is in the map |
| Lingk.StepLastWins | hyperschedule/scrapers/claremont/lingk.py:215-217 | under later-wins each key holds its last description |
| Lingk.StepFirstKept | lingk_scraper.py:125-129 | under first-wins each key holds its first description |
| Lingk.StepLongestWins | hyperschedule/liblingk.py:173-177 | under longer-wins each key holds its longest description, the newest among equally long ones |
| Lingk.LongestFirst | hyperschedule/liblingk.py:173-177 | a pair for a key with no earlier pair is the longest |
| Lingk.LongestNew | hyperschedule/liblingk.py:173-177 | a pair at least as long as the kept one replaces it, since `max` returns its first maximal argument |
| Lingk.LongestOld | hyperschedule/liblingk.py:173-177 | a strictly shorter pair or another key leaves the kept description |
| Lingk.DataEntries | hyperschedule/scrapers/claremont/lingk.py:131 | a list is walked item by item; a string character by character |
| Lingk.ApiEntry | hyperschedule/scrapers/claremont/lingk.py:131-146 | a pair comes from a map with a string description and a string course number other than "ABROAD   HM" that the key function accepts; no description or the abroad code skips; a failure needs a description |
| Lingk.ApiEntries | hyperschedule/scrapers/claremont/lingk.py:131 | one contribution per entry, in order |
| Lingk.ApiDescriptions | hyperschedule/scrapers/claremont/lingk.py:118-153 | a non-map or a missing "data" raises, then the loop gives the specified result (also `lingk_api_data_to_course_descriptions` of hyperschedule/liblingk.py:81-114 and `lingk_data_to_course_descriptions` of liblingk.py:70-103, with the drive key) |
| Lingk.ClaremontKey | hyperschedule/scrapers/claremont/lingk.py:141-146 | succeeds iff the code parses without a section; the key is four items whose second is the course number |
| Lingk.ClaremontKeyIdentifies | hyperschedule/scrapers/claremont/lingk.py:145-146 | two accepted codes share a key iff they agree on department, number, suffix and school |
| Lingk.ZeroSection | hyperschedule/liblingk.py:102-108 | a parsed code with section 0 is a key-safe course |
| Lingk.DriveKey | hyperschedule/liblingk.py:102-109 | succeeds iff the code parses |
| Lingk.DriveKeyShape | hyperschedule/liblingk.py:102-109 | every drive key ends in "/0" and reads back as the parsed code with section 0 |
| Lingk.ZeroSectionEnds | liblingk.py:97-98 | the index key of a code with section 0 ends in "/0" |
| Lingk.ZeroSectionRoundTrip | liblingk.py:97-98 | the index key of a code with section 0 reads back to it |
| Lingk.WordLength | hyperschedule/scrapers/claremont/lingk.py:214 | the leading run of non-whitespace |
| Lingk.Words | hyperschedule/scrapers/claremont/lingk.py:214 | `split()` gives non-empty words without whitespace |
| Lingk.JoinWordsEnds | hyperschedule/scrapers/claremont/lingk.py:214 | a join of such words starts and ends with a word character |
| Lingk.JoinWordsShape | hyperschedule/scrapers/claremont/lingk.py:214 | in such a join the only whitespace is single spaces between word characters |
| Lingk.WordLengthOf | hyperschedule/scrapers/claremont/lingk.py:214 | a word followed by whitespace has its own length as leading run |
| Lingk.WordsOfJoin | hyperschedule/scrapers/claremont/lingk.py:214 | splitting the join of words gives the words back |
| Lingk.CollapseSpaceMeaning | hyperschedule/scrapers/claremont/lingk.py:214 | collapsing keeps the words, is idempotent, leaves only single spaces between word characters, and is empty iff the text is all whitespace |
| Lingk.RowEntry | hyperschedule/scrapers/claremont/lingk.py:198-217 | a row raises iff it is non-empty, not blank and of the wrong length; a pair has an accepted code, a non-empty description and the collapsed description |
| Lingk.RowEntries | hyperschedule/scrapers/claremont/lingk.py:198 | one contribution per row, in order |
| Lingk.Enough | hyperschedule/scrapers/claremont/lingk.py:218-219 | a map passes iff it has at least 100 entries |
| Lingk.CsvSpec | hyperschedule/scrapers/claremont/lingk.py:190-220 | a result has at least 100 entries and came from data with a header holding both columns |
| Lingk.CsvDescriptions | hyperschedule/liblingk.py:146-182 | the header lookup and the row loop give the specified result, under later-wins or longer-wins (also `lingk_csv_data_to_course_descriptions` of hyperschedule/scrapers/claremont/lingk.py:190-220) |
| Lingk.AddRow | hyperschedule/liblingk.py:158-176 | one pass of the row loop on a successful prefix gives the fold of the prefix extended by that row (skip, error, or store under later-wins or longer-wins) |
| Lingk.CourseDescriptions | hyperschedule/scrapers/claremont/lingk.py:223-246 | missing credentials give an empty map; otherwise a result has at least 100 entries, and a builder error is passed on |
| Lingk.ScraperEntry | lingk_scraper.py:109-129 | never raises; a pair has a string description, stripped, and a key from the `externalId` stripped of whitespace and then quotes, with the matched groups |
| Lingk.ScraperEntries | lingk_scraper.py:110 | one contribution per entry, in order |
| Lingk.MakeDescriptionDict | lingk_scraper.py:97-130 | the loop never raises and gives the keep-the-first fold of the entries |
| Lingk.FirstWinsNext | lingk_scraper.py:125-127 | one more step of the keep-the-first loop adds a new key and ignores a known one |
| Lingk.LookupNeedsPlainNumber | lingk_scraper.py:137-145 | a course is found under a scraped key only when the scraped number text is exactly `str(courseNumber)`, so a zero-padded number never matches |
| CuBoulder.SrcdbInfoKey | hyperschedule/scrapers/cu_boulder/__init__.py:36-45 | the key is dated iff the name fully matches "Fall YYYY" or "Spring YYYY"; a dated key carries the four-digit year's value and whether the season is Fall |
| CuBoulder.YearBound | hyperschedule/scrapers/cu_boulder/__init__.py:41 | a `\d{4}` year is below 10000 |
| CuBoulder.SrcdbKeyOfSeasonName | hyperschedule/scrapers/cu_boulder/__init__.py:36-45 | the key of a printed season name gives back its year and season |
| CuBoulder.PaddedYear | hyperschedule/scrapers/cu_boulder/__init__.py:41 | every year below 10000 printed on four digits is a `\d{4}` year with the same value |
| CuBoulder.KeyOrderTotal | hyperschedule/scrapers/cu_boulder/__init__.py:61 | the order of the sort keys is irreflexive, transitive and total, so the `max` of line 61 picks a latest term |
| CuBoulder.SeasonOrder | hyperschedule/scrapers/cu_boulder/__init__.py:43-45 | a name that is not a season sorts below every season, and Fall sorts after Spring of the same year |
| CuBoulder.ParseCuTime | hyperschedule/scrapers/cu_boulder/__init__.py:147-153 | succeeds iff both the hours (all but the last two characters) and the minutes (the last two) read as integers; success needs at least three characters |
| CuBoulder.ShortTimeFails | hyperschedule/scrapers/cu_boulder/__init__.py:152-153 | with fewer than three characters the hours are empty and `int` raises |
| CuBoulder.CuTimeShape | hyperschedule/scrapers/cu_boulder/__init__.py:147-153 | on "hmm" or "hhmm" digits the result is "HH:MM" with two digits each, spelling the hours and minutes of the input |
| CuBoulder.CuTimeIs | hyperschedule/scrapers/cu_boulder/__init__.py:153 | the result is the two `"{:02d}"` texts joined by ":" |
| CuBoulder.PartDigits | hyperschedule/scrapers/cu_boulder/__init__.py:153 | one or two digits read with `int` and printed `"{:02d}"` become two digits of the same value |
| CuBoulder.TwoDigitPad | hyperschedule/scrapers/cu_boulder/__init__.py:153 | `"{:02d}"` prints a number below 100 as two digits of that value |
| CuBoulder.ParseCuDates | hyperschedule/scrapers/cu_boulder/__init__.py:135-144 | a result is two `\d{4}-\d{2}-\d{2}` dates that make up the whole input around " through " |
| CuBoulder.CuDatesRoundTrip | hyperschedule/scrapers/cu_boulder/__init__.py:140-144 | any two dates joined by " through " are read back as that pair |
| CuBoulder.CuDatesFullMatch | hyperschedule/scrapers/cu_boulder/__init__.py:141 | the match is full: text after a valid range makes it fail |
| CuBoulder.DigitRuns | hyperschedule/scrapers/cu_boulder/__init__.py:169 | `findall(r"\d+")` gives non-empty runs of digits |
| CuBoulder.DigitRunsSplit | hyperschedule/scrapers/cu_boulder/__init__.py:169 | a non-digit separates the runs of what precedes it from those of what follows |
| CuBoulder.NumberIsOneRun | hyperschedule/scrapers/cu_boulder/__init__.py:169 | the decimal text of a number is a single run |
| CuBoulder.ParseCuSeats | hyperschedule/scrapers/cu_boulder/__init__.py:164-180 | an empty pop happens iff "of" and "Waitlist" occur with no digits; success iff the number of runs is 2, plus 1 with "Waitlist", plus 1 with "of"; the total is the first run, the available seats the total minus the second, and the waitlist is absent iff neither word occurs, else the third run |
| CuBoulder.StartPass | hyperschedule/scrapers/cu_boulder/__init__.py:337-342 | courses with a CRN no longer available are dropped and the rest are kept unchanged; the CRNs left are the available ones not completed, and a new pass over all of them starts only when none are left |
| CuBoulder.PassShrinks | hyperschedule/scrapers/cu_boulder/__init__.py:337-342 | completing one CRN of the pass leaves exactly the other CRNs to do, or starts a new pass over all available ones when it was the last |
| Portal.InWeekOrder | hyperschedule/scraper/portal.py:269-270 | the result holds exactly the letters of the week that occur in the days |
| Portal.InWeekOrderSorted | hyperschedule/scraper/portal.py:269-270 | from a week without repeats the letters come out once each, in week order |
| Portal.InWeekOrderLetters | hyperschedule/scraper/portal.py:269-270 | only which weekdays occur decides the result |
| Portal.FirstUnknownDay | hyperschedule/scraper/portal.py:265-268 | none iff every letter is a weekday; otherwise a letter of the slot that is not one |
| Portal.NormalizeDays | hyperschedule/scraper/portal.py:265-272 | succeeds iff the days are non-empty and all weekdays; the no-days error comes exactly from an empty slot; a result holds the same letters, without repeats, in week order (also libportal.py:260-267) |
| Portal.SameDaysSameResult | hyperschedule/scraper/portal.py:269-270 | slots naming the same weekdays, in any order and with any repeats, normalise alike |
| Portal.NormalizeDaysIdempotent | hyperschedule/scraper/portal.py:265-272 | normalising a normalised slot changes nothing |
| Portal.HalfWindows | hyperschedule/scraper/portal.py:227-243 | the first-half window is Jan 2-30 or Jul 16-Sep 14 and the second-half window Apr 2-May 30 or Dec 2-30, by month and day |
| Portal.ClassifyHalves | hyperschedule/scraper/portal.py:244-256 | an error iff neither window holds; one term slot iff both hold, else two; the course sits in slot 0 when it starts in the first half, else in slot 1 |
| Portal.HalfFlags | libportal.py:300-323 | rejects exactly the courses the newer classification rejects and otherwise keeps both flags |
| Portal.ParseSeatCount | hyperschedule/scraper/portal.py:208-212 | nothing is read from text that does not start with a digit, and a result needs a slash (also libportal.py:239-243) |
| Portal.SeatCountRoundTrip | hyperschedule/scraper/portal.py:208-212 | two printed counts around a slash are read back, whatever non-digit text follows |
| Portal.SeatCountAt | hyperschedule/scraper/portal.py:208 | a digit run, a slash and a digit run at the start are read as their values |
| Portal.RunStops | hyperschedule/scraper/portal.py:208 | a digit run followed by a non-digit or the end is read whole |
| Portal.CheckStatus | hyperschedule/scraper/portal.py:218-221 | succeeds iff the lower-cased status is open, closed or reopened, giving it; the error carries the lower-cased text (also libportal.py:248-251) |
| Portal.LowerIdempotent | hyperschedule/scraper/portal.py:218 | lower-casing twice is lower-casing once |
| Portal.StatusCaseInsensitive | hyperschedule/scraper/portal.py:218-221 | statuses that differ only in case are judged alike, and an accepted status passes again |
| Portal.NormalizeSlots | hyperschedule/scraper/portal.py:257-272 | a result has one entry per schedule slot |
| Portal.NormalizeSlotsEach | hyperschedule/scraper/portal.py:257-272 | succeeds iff every slot's days normalise, giving each slot's normalised days in order |
| Portal.ProcessChecks | libportal.py:192-323 | the modelled checks of `process_course`: success iff the code parses, the name is not blank, the seats match, the status is known, every slot's days normalise and a date window holds; the date error arises exactly when all earlier checks pass and no window holds; a success has a valid code with a section and a known status |
| Portal.PartitionComplete | libportal.py:356-362 | every raw course lands in exactly one of the two lists |
| Portal.LatestCourseList | libportal.py:343-364 | the loop gives the processed courses and the rejected raw courses, each in input order |
| Portal.KeysInOrder | hyperschedule/scraper/portal.py:359-371 | the distinct codes, without repeats, exactly those of the parsed courses |
| Portal.GroupsOf | hyperschedule/scraper/portal.py:371 | one group per code, holding its courses in order |
| Portal.GroupsCoverAll | hyperschedule/scraper/portal.py:359-371 | grouping loses no course and invents none |
| Portal.GroupsSize | hyperschedule/scraper/portal.py:385 | the groups' sizes add up to the courses filed under their codes |
| Portal.SizeOverAll | hyperschedule/scraper/portal.py:371 | with every code listed once, each course is counted once |
| Portal.SizeOverEmpty | hyperschedule/scraper/portal.py:359 | an empty list files nothing |
| Portal.SizeOverSnoc | hyperschedule/scraper/portal.py:371-372 | appending a course adds one to its code's count |
| Portal.Letter | hyperschedule/scraper/portal.py:399 | a letter of `string.ascii_uppercase` is an upper-case letter |
| Portal.Lettered | hyperschedule/scraper/portal.py:385-401 | a group is dropped iff it has several courses and a suffix or more than 26 courses; a single course is kept as is; otherwise every course is kept, the j-th with suffix letter j |
| Portal.LettersDistinct | hyperschedule/scraper/portal.py:399-400 | the lettered copies of a group carry pairwise distinct suffixes |
| Portal.KeptPlusDropped | hyperschedule/scraper/portal.py:384-402 | every course is either kept or counted as failed |
| Portal.LetterDuplicates | hyperschedule/scraper/portal.py:384-402 | the loop keeps the courses of the kept groups, lettered, and counts the sizes of the dropped groups as failures |
| Portal.CoursesVerdict | hyperschedule/scraper/portal.py:380-416 | success iff at least 100 descriptions were added, fewer than 10 failures in all, and at least 500 kept courses beyond the failures; a success returns the kept courses `process_course` accepts; too few descriptions is reported first |
| Portal.SucceededCount | hyperschedule/scraper/portal.py:412-416 | the success count subtracts the parse failures and dropped groups a second time: it falls short of the returned courses by exactly those failures |
| Syllabus.MergedOver | hyperschedule/database.py:82-89 | merging keeps the set of courses |
| Syllabus.Merged | hyperschedule/database.py:82-89 | merging keeps the set of courses |
| Syllabus.MergedSetsSyllabus | hyperschedule/database.py:87-89 | a course with syllabus information carries exactly that information afterwards |
| Syllabus.MergedKeepsOthers | hyperschedule/database.py:87-88 | a course without syllabus information is left as it was |
| Syllabus.MergedTouchesOnlySyllabus | hyperschedule/database.py:82-89 | no field other than "syllabus" appears, disappears or changes |
| Syllabus.MergedIdempotent | hyperschedule/database.py:82-89 | merging twice is merging once |
| Syllabus.MergeAfterUpdate | hyperschedule/database.py:76-89 | recording a code's syllabus and merging differs from merging the old information only in that code's course |
| Syllabus.MergeOneMore | hyperschedule/database.py:87-89 | merging one more code writes that code's course and no other |
| Syllabus.CourseData.constructor | hyperschedule/database.py:82-84 | the course data starts from the given courses |
| Syllabus.SyllabusStore.constructor | hyperschedule/database.py:20 | the store starts empty |
| Syllabus.SyllabusStore.Update | hyperschedule/database.py:76-80 | only the entry for the code changes, to the new information |
| Syllabus.SyllabusStore.MergeInto | hyperschedule/database.py:82-89 | the loop leaves the courses equal to the merge of the old courses with the store |
| Syllabus.IsFiveCUser | hyperschedule/database.py:39-43 | true iff the email ends with one of the six college suffixes |
| Syllabus.SuffixesAreDomains | hyperschedule/database.py:39-43 | each suffix is "@" followed by a domain without "@" |
| Syllabus.FiveCIffDomain | hyperschedule/database.py:39-43 | for `local@domain`, accepted iff the domain is one of the six listed, so "cs.hmc.edu" and "nothmc.edu" are refused |
| Syllabus.ListedDomainAccepted | hyperschedule/database.py:39-43 | an address at a listed domain is accepted |
| Syllabus.AtSuffixIsDomain | hyperschedule/database.py:39-43 | an "@d" suffix of `local@domain` is the whole domain |

## Left out

- I/O of every kind is not modelled: HTTP handlers and the Flask app, Firebase (token verification, storage, the blob listing), S3 and the local cache, Selenium and the Portal HTML, the Lingk network requests and CSV download, Slack, logging, `sys.exit`. Their results enter the model as parameters.
- Threads and locks are not modelled. `Database` and the worker's manager are sequential objects. `Database.Database.SetCurrentData` takes the timestamp `now` as an argument where hyperschedule/api/database.py:54 reads `datetime.now()`.
- Ages and timestamps are unbounded integers; float seconds and `time.time()` are not modelled.
- Floats are not a JSON value here. Python's `1 == True` is modelled only where the term sort keys are compared (`Database.NumberOf` and `Database.ElemEq`); the diff functions and the rest of the model treat ints and bools as distinct values, so an int replaced by the equal bool shows up in a diff where Python reports none.
- Worker initial data: data read back from the cache or S3 at start-up skips the "$delete" guard, which the model does not track, since that is I/O.
- Regexes are matched by hand. `isspace`, `strip` and `split` use Python's full whitespace set, but `\d` and the digits `int()` reads are ASCII-only in this model (Python also accepts other Unicode decimal digits).
- Text.ParseInt: Python's `int()` also accepts single underscores between digits (`int("1_0")` is 10); the model rejects them.
- CuBoulder.ParseCuTime: a time text with underscores, such as "1_030", is read by Python (`int("1_0")` for the hours) and rejected by the model, through `Text.ParseInt`. The same holds for the key parts read by `CourseKeys.CourseFromIndexKey` and the `since` text of `Server.CourseStore.CoursesSince`.
- liblingk.py calls `libcourse.parse_claremont_course_code`, which the root libcourse.py does not define. The model uses the parser of hyperschedule/libcourse.py for it, as the code evidently intends.
- hyperschedule/scraper/portal.py imports `hyperschedule.scraper.shared`, which is not part of this model. Its course-code parser is modelled by the shared.py parser, and the suffix test in the lettering loop reads the parsed suffix.
- Portal.ProcessChecks: the faculty split and its empty-name check, the skip of "0:00 - 0:00 AM" slots, the schedule-slot regex, the start and end times, the location, the credits and date parsing are not modelled; each slot arrives as its days text and each date as a `(year, month, day)` triple.
- Portal.ParseSeatCount: the negative seat-count checks after it are unreachable (a digit run is never negative) and are left out.
- Portal.NormalizeDays: the unknown-day check and the empty check are modelled, but the regex group `([MTWRFSU]+)` that feeds them only ever holds one or more weekday letters, so in the source both are unreachable; the model keeps them as error paths.
- Portal.LatestCourseList: `process_course` is a parameter, malformed courses are kept whole rather than passed through `format_raw_course`, and the final sort by `course_sort_key` is not modelled. The parameter returns `None` for a `ScrapeError` only: a `ValueError` from `float()` or from `dateutil` (libportal.py:294 and 298-299) is not caught by `except ScrapeError` (libportal.py:361) and aborts the whole list in Python, which the model does not capture.
- Portal.CoursesVerdict: the description loop and the course-code parse before grouping are summarised by their counts; `format_raw_course` is not modelled.
- CuBoulder.SrcdbInfoKey: takes the srcdb record's name only, the one field the key reads.
- CuBoulder.StartPass: reading `old_data` from standard input is left out; its courses and completed CRNs are parameters (empty when `old_data` is falsy). The task pool, the shuffle and the start CRN only order the work and are not modelled.
- Syllabus: `initialize_syllabus_info_from_cloud_storage` and `upload_to_cloud_storage` are left out (storage I/O); the email test is the part of `is_5C_user` after the token is verified, and `AuthError` from verification is not modelled.
- Syllabus.SyllabusStore.MergeInto: `data` without a "courses" key, and course entries that are not objects, are not modelled; the course data is a map from code to course fields.
- Lingk: iterating over a dict in `data["data"]` (which walks its keys) is reported as `DataNotIterable`; lists and strings are walked as Python walks them.
- Lingk.CsvDescriptions: the reading of the CSV archive (the quote fix-up regex and `csv.reader`) is left out; the rows arrive as lists of strings.
- Lingk.CourseDescriptions: the choice between the API and the CSV source, and the credential lookup, arrive as the source value.
- Lingk.LookupNeedsPlainNumber: the import-time environment check of lingk_scraper.py is left out.
- Server: the scraping loop, the HTML of the index page and the JSON encoding of answers are not modelled.
- Validate.Check: the `courses` field is passed through unchecked, as in the source.
- Config.GetEnvBoolean: `die` (message and exit) is a `None` result.
