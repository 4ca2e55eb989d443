# Post ordering for the community-post archive, in Dafny

This project models the ordering core of a site that archives YouTube
community posts. Three pieces decide the order in which posts are shown:

- **The ingestion log** (process_ytct_logs.py). `extract_runs` scans the
  scraper's log. A session starts at a line containing
  `[ytct] loaded cookies` and ends at a line containing `[ytct] finished`.
  Inside a session, the first `[post:<id>]` on each line is recorded, once per
  run. `merge_posts` appends to the stored first-seen order every id not
  stored yet, in the order it was first met. Both are modelled as methods
  whose loops follow the Python statement by statement:
  - `ExtractRuns` is proved equal to the fold `Runs`, which uses `Step` and `Scan`.
  - `MergePosts` is proved equal to `Merge`.

  The properties are then proved about those functions.
- **Sorting by a stored order** (order.py). `sort_posts` puts the posts
  whose id is in the ordered list first, in list order, and the other posts
  after them, newest first. It is modelled as pure functions over one stable
  insertion sort, `Posts.SortBy`. The uniqueness lemma
  `Posts.SortedSameClassesUnique` shows that any stable sort gives the same
  result, Python's Timsort included.
- **The latest-posts feed** (generate.py). `sort_latest_posts` adds the
  given posts to the module-level list and cuts the list back to the
  `rss_feed_amount` newest posts. It is modelled as the class
  `Generate.LatestFeed`, whose field `latest` is updated in place.

Modules:

- `Wrappers` (wrappers.dfy): the `Option` type.
- `Posts` (posts.dfy): the post record, the sort key, the stable sort that stands for Python's `sorted` and the take that stands for slicing; the stable merge `MergeBy` is not in the source but a proof device, used to show how sorting a concatenation relates to sorting its parts (`SortByAppend`, `TopStreaming`).
- `ProcessYtctLogs` (process_logs.dfy): `extract_runs` and `merge_posts`.
- `Order` (order.dfy): `sort_posts`.
- `Generate` (generate.dfy): `sort_latest_posts`.
- `ProcessYtctLogsExamples` (process_logs_examples.dfy) and `OrderExamples` (order_examples.dfy): small inputs worked through.

How the model represents a few things:

- A log is an `Option<seq<string>>`. `None` is a log file that does not exist.
- A post is its `post_id` and an optional `lastUpdatedTimestamp`.
- The order file of `sort_posts` is one of the following: missing, not valid JSON, or a list of ids.
- The configuration value `rss_feed_amount` is a parameter.

**A finish line does not clear the buffer.** A natural reading would
have a finish line clear the current run. The code
(process_ytct_logs.py:33-36) emits the run and keeps it in the buffer, so
the same ids can be emitted again by the next start line or at the end of
the log. The model follows the code (`ProcessYtctLogs.Step`). It also
defines the clearing variant, `RunsReset`. `MergeIgnoresRepeatedRuns`
proves that `merge_posts` returns the same order for both, so the stored
order is not affected.

## Model

| member | source | states |
|---|---|---|
| `ProcessYtctLogs.ContainsIsSubstring` | process_ytct_logs.py:28 | `Contains(line, w)`, Python's `w in line`, holds exactly when `w` occurs at some position of `line` |
| `ProcessYtctLogs.AllowedRun` | process_ytct_logs.py:20 | the run of `[a-zA-Z0-9_-]` characters from a position is maximal: every character in it is allowed and the next one is not (or the line ends) |
| `ProcessYtctLogs.MatchAtIsPattern` | process_ytct_logs.py:20 | the match attempt at position `i` captures `id` exactly when `[post:` + `id` + `]` sits at `i`, with `id` a non-empty string of allowed characters |
| `ProcessYtctLogs.SearchFromIsLeftmost` | process_ytct_logs.py:38-40 | searching from `i` gives `id` exactly when the leftmost match at or after `i` captures `id` |
| `ProcessYtctLogs.FirstMentionIsLeftmostMatch` | process_ytct_logs.py:38-40 | `post_pattern.search(line).group(1)` is `id` exactly when the leftmost match of the pattern in the line captures `id`; a line with no match gives none |
| `ProcessYtctLogs.ClassifyMeaning` | process_ytct_logs.py:28-40 | `Classify` gives a start line exactly when the line contains the start marker, and a finish line exactly when it contains the finish marker but not the start marker; any other line is a mention of the id captured by the leftmost match, or ignored exactly when the pattern matches nowhere |
| `ProcessYtctLogs.StepShape` | process_ytct_logs.py:28-42 | `Step`, one line of the scan: a start line opens a session and a finish line closes it; a marker line with a non-empty buffer always appends that buffer to the runs, and runs change at no other line; a start line clears the buffer and a finish line keeps it; a mention inside a session of an id not yet in the buffer appends it; any other mention, and any other line, changes nothing; the buffer never holds an id twice |
| `ProcessYtctLogs.ExtractRuns` | process_ytct_logs.py:18-47 | the loop returns `Runs(lines)` for an existing log and no runs for a missing log |
| `ProcessYtctLogs.RunsNonEmptyDistinct` | process_ytct_logs.py:29-45 | every emitted run is non-empty and holds no id twice |
| `ProcessYtctLogs.ScanInsideIsInSession` | process_ytct_logs.py:28-37 | `inside_run` is true exactly when some start line has no finish line after it |
| `ProcessYtctLogs.RunsOnlyFromSessions` | process_ytct_logs.py:37-42 | every id in the runs was the first match on a line that is not a marker line, while a session was open |
| `ProcessYtctLogs.RunsCoverSessions` | process_ytct_logs.py:37-45 | every id that is the first match on a non-marker line inside an open session ends up in some run |
| `ProcessYtctLogs.MergePosts` | process_ytct_logs.py:49-60 | the nested loops with the seen-set return `Merge(existing, runs)`, which appends the ids of the flattened runs that were not seen before |
| `ProcessYtctLogs.MergeMembers` | process_ytct_logs.py:54-58 | an id is in the result exactly when it is in the existing order or in one of the runs |
| `ProcessYtctLogs.MergeAppendsOnly` | process_ytct_logs.py:51-58 | the existing order is a prefix of the result; the appended ids are distinct and none of them was in the existing order |
| `ProcessYtctLogs.MergeKeepsDistinct` | process_ytct_logs.py:51-58 | a duplicate-free existing order gives a duplicate-free result |
| `ProcessYtctLogs.MergeFirstSeenOrder` | process_ytct_logs.py:54-58 | the appended ids appear in the order of their first occurrence in the runs taken one after another |
| `ProcessYtctLogs.MergeIdempotent` | process_ytct_logs.py:49-60 | merging the same runs a second time changes nothing |
| `ProcessYtctLogs.MergeSuccessive` | process_ytct_logs.py:49-60 | merging one batch of runs and then another equals merging both batches at once |
| `ProcessYtctLogs.MergeIgnoresRepeatedRuns` | process_ytct_logs.py:33-36 | keeping the buffer on a finish line, as the code does, gives the same merged order as clearing it |
| `ProcessYtctLogsExamples.ClassifyMention` | process_ytct_logs.py:28-40 | a line `[post:<id>]` with a valid id is a mention of that id, not a marker line |
| `ProcessYtctLogsExamples.DedupWithinRun` | process_ytct_logs.py:41-42 | the log start, a, b, a, c gives the one run [a, b, c] |
| `ProcessYtctLogsExamples.OpenSessionFlushed` | process_ytct_logs.py:44-45 | a session without a finish line still gives its run at the end of the log |
| `ProcessYtctLogsExamples.FinishLineRepeatsRun` | process_ytct_logs.py:33-36 | x, start, y, finish gives the runs [y], [y]; the clearing variant gives [y]; the merge gives [y]; the mention before the start is dropped |
| `ProcessYtctLogsExamples.MarkerLineNotScanned` | process_ytct_logs.py:28-37 | a start line that also mentions a post starts a session and records nothing |
| `ProcessYtctLogsExamples.FirstMatchOnly` | process_ytct_logs.py:38-40 | of two mentions on one line, only the first is recorded |
| `Posts.KeyLeTotalOrder` | order.py:34 | Python's comparison of the key tuples `(rank, -timestamp)`, with infinity above every rank, is a total order |
| `Posts.SortBy` | order.py:32-35 | the sort returns a permutation of its input, sorted by the key |
| `Posts.SortByStable` | order.py:32-35 | the sort is stable: the posts with any one key keep their input order |
| `Posts.StableIsPermutation` | order.py:32-35 | keeping every key group in order keeps every post with its multiplicity |
| `Posts.SortedSameClassesUnique` | order.py:32-35 | two sorted sequences with the same key groups are equal, so every stable sort gives the same result |
| `Posts.SortByCharacterized` | order.py:32-35 | a sequence is the stable sort of `s` exactly when it is sorted and keeps every key group of `s` in order |
| `Posts.SortBySorted` | order.py:32-35 | sorting an already sorted sequence returns it unchanged |
| `Posts.SortByAppend` | generate.py:23-24 | sorting the concatenation of two lists is the stable merge of the two sorted lists |
| `Posts.TakeMergeBy` | generate.py:25 | the first `n` posts of a merge use only the first `n` posts of its left side |
| `Posts.Take` | generate.py:25 | `s[:n]` for `n >= 0` has length `min(n, len(s))` and is a prefix of `s` |
| `Order.OrderIndex` | order.py:27 | the index holds exactly the listed ids, each mapped to its last position in the list |
| `Order.LoadOrder` | order.py:15-24 | a passed `sorted_array` is used as given; otherwise a missing file name gives no list (the call raises), a file holding a list gives that list, and a missing file or one that is not valid JSON gives the empty list |
| `Order.SortPosts` | order.py:4-37 | `sort_posts` raises exactly when neither a list nor a file name is given; otherwise it returns `SequencePosts` under the loaded list: a permutation of the posts, sorted by the key built from that list |
| `Order.SortKeyAt` | order.py:34 | the key's rank is infinity exactly for unlisted ids, and otherwise the id's last list position; the second component is minus the timestamp, 0 when the timestamp is absent |
| `Order.SequencePosts` | order.py:32-35 | the result is a permutation of the posts |
| `Order.SequencePostsSorted` | order.py:32-35 | the result is sorted by the key |
| `Order.RankedBeforeUnranked` | order.py:32-35 | every post whose id is in the list comes before every post whose id is not |
| `Order.RankedInListOrder` | order.py:27-35 | listed posts follow the list positions; posts with the same id are newest first |
| `Order.UnrankedByRecency` | order.py:34 | unlisted posts are newest first, a missing timestamp counting as 0 |
| `Order.SequencePostsStable` | order.py:32-35 | posts with equal keys keep their input order |
| `Order.SequencePostsCharacterized` | order.py:32-35 | the result is the only sequence that is sorted by the key and keeps equal-key posts in input order |
| `Order.SortPostsSources` | order.py:15-24 | a passed `sorted_array` wins over the file; a missing file or one that is not valid JSON gives the empty list, and then all posts come newest first; with neither a list nor a file name the call raises |
| `OrderExamples.ListedThenUnlisted` | order.py:4-37 | list [p2, p1] with posts p1 (100), p3 (200), p2 (50) gives p2, p1, p3 |
| `OrderExamples.LatestFirstStable` | order.py:4-37 | no list, with posts a (100), b (300), c (300), gives b, c, a: newest first, ties in input order |
| `Generate.LatestFeed.constructor` | generate.py:16 | the feed starts empty |
| `Generate.LatestFeed.SortLatestPosts` | generate.py:20-25 | a non-positive amount changes nothing; otherwise the list becomes the `amount` newest of the old list plus the new posts, or, when a post lacks a timestamp, the old list plus the new posts with the call failing |
| `Generate.Top` | generate.py:24-25 | `sorted(..., reverse=True)[:amount]` holds `amount` posts, or all of them when there are fewer |
| `Generate.TopNewestFirst` | generate.py:24 | the cut list is ordered newest first |
| `Generate.TopAndDropped` | generate.py:23-25 | the kept posts and the dropped posts together are the input, with multiplicity |
| `Generate.TopKeepsNewest` | generate.py:23-25 | the kept posts come from the input, and no dropped post is newer than a kept one |
| `Generate.TopStable` | generate.py:24 | the kept posts with any one timestamp are a prefix, in input order, of the input's posts with that timestamp |
| `Generate.TopIdempotent` | generate.py:22-25 | a call with no new posts leaves an already cut list unchanged |
| `Generate.TopStreaming` | generate.py:22-25 | cutting after every call loses nothing: the newest `n` of (the newest `n` of `a`) plus `b` are the newest `n` of `a` plus `b` |

## Left out

- Reading and writing files is not modelled: `load_existing_posts`, `save_posts`, `main` with its argument parsing, printing, and the `--clear-log` truncation of the log (process_ytct_logs.py:6-16, 62-83). The model takes the log as a sequence of lines and the stored order as a sequence of ids.
- Reading the order file in order.py is not modelled either (order.py:16-21). The model takes the file's outcome as a value: missing, not valid JSON, or a list of ids. The code catches only `FileNotFoundError` and `json.JSONDecodeError`. A file that exists but cannot be read raises out of `sort_posts`, and the model does not have that outcome: a `PermissionError`, an `IsADirectoryError`, or a `UnicodeDecodeError` from the locale-encoded `open`. JSON that decodes to something other than a list of strings is not modelled. A file removed between `os.path.exists` and `open` yields the same empty list as a missing file.
- Decoding errors while reading the log, and the character encoding, are not modelled. A line is a string of characters. A line break is neither a marker character nor an id character, so the scan does not depend on whether lines keep their terminator.
- Python's regular-expression engine is not modelled in general. Only the one pattern `\[post:([a-zA-Z0-9_-]+)\]` is, through `MatchAt` and `SearchFrom`.
- Timestamps are integers. String or float timestamps are not modelled. Neither are a `_published` field that is present but null, nor a post without `post_id`. In order.py a missing `_published` or timestamp counts as 0, as the code's `.get(..., 0)` does.
- `Generate.LatestFeed.SortLatestPosts`: `rss_feed_amount` is an integer parameter. Reading the configuration and non-integer values are not modelled.
- The module-level `latest_posts` list of generate.py is the field of one `LatestFeed` object. Concurrent callers are not modelled.
- The rest of generate.py is left out: path helpers, picture lookup, page and feed generation. So are database.py, app.py, rss.py, templates.py and the static files. They are outside the ordering core.
- `Posts.Insert` and `Posts.MergeBy`: their own contracts state only the length of the result. That the result is a permutation, sorted, or equal to a merge is proved in separate lemmas (`InsertPermutes`, `InsertSorted`, `MergeByMember`, `MergeBySorted`, `MergeByClass`) and stated for `Posts.SortBy` as a whole.
