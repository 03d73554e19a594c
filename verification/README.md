# Gerrit review-comment fetcher, modelled in Dafny

The fetcher is a command-line script. It takes a Gerrit change, given as a
change URL, a change number or a Change-Id. It asks the server for the
change's review comments and prints them as conversation threads in JSON.
This project models the script's logic:

- **Thread reconstruction** (`fetch_comments`, module `Threads`).
  1. The fetched comments are indexed by id.
  2. They are bucketed by location: the file, plus the range, the line, or
     neither.
  3. Within a location, each comment's `in_reply_to` chain is walked to a
     root. A per-walk `seen` set guards the walk.
  4. The comments that share a root become a thread, sorted by their parsed
     `updated` time. The thread's state and time come from its last comment.
  5. With `unresolved_only`, threads whose last comment is resolved are
     dropped.
  6. The threads are sorted newest first.

  Each loop is an imperative method proved against a function of the input.
- **Tolerant timestamp parsing** (`_parse_updated`, module `Timestamps`). A
  value that is absent or cannot be read becomes `datetime.min`. The date-time
  order is the integer `Ticks`, proved to be chronological order.
- **Location keys and the per-comment projection** (`_location_key` and the
  author-name coalescing, module `Comments`).
- **Change-URL parsing and the configuration check** (`parse_change_url` and
  `get_config`, module `GerritUtils`). Both files of the script hold the same
  code, and one model serves both.
- **The command** (`main` and the error handling of `fetch_comments`, module
  `GetComments`). It covers:
  - how the change argument is resolved;
  - which error is reported: the URL error, then the configuration error,
    then the HTTP-status classification;
  - the report that is printed;
  - the exit code: 1 on error, 0 otherwise.

Supporting modules:

- `Text`: Python's `strip`, `split` and `join`, ASCII digits and zero-padded
  numerals;
- `Sorting`: Python's stable `sorted`/`list.sort` on an integer key, as an
  insertion sort;
- `Seqs`: mapping and concatenation over sequences;
- `Wrappers`: `Option` and `Result`.

## Edge cases of thread reconstruction

Each case below states what a reader of `fetch_comments` might expect and
what the code does. The model follows the code.

- **Orphan replies.** One might expect a reply whose parent was not fetched
  to start a thread under the missing parent's id. Instead the walk stops at
  the first id missing from the index (get_comments.py:170-174). A direct
  reply to a missing comment therefore roots its thread under its own id.
  This is `Threads.RootOf`'s second ensures.
- **Fallback to the earliest member.** When the root has no indexed comment,
  get_comments.py:192-194 takes range and line from the earliest member.
  That branch can never run, because every root is an indexed id
  (`Threads.RootIndexed`).
- **Reply cycles.** In a two-comment cycle (`a` replies to `b`, `b` replies
  to `a`), the seen-set check (get_comments.py:168-169) ends each walk
  after one full turn of the cycle, back at its start. Each comment roots at itself, so the cycle
  becomes two threads (`Threads.TwoCycleSplits`).
- **Closure under replies.** One might expect a reply always to belong to its
  parent's thread (get_comments.py:157-176). The code guarantees this when
  three conditions hold:
  - the parent is indexed under its own id;
  - the parent does not lie on a reply cycle;
  - the two comments are at one location.

  See `Threads.ReplyJoinsParent` and `Threads.ReplyInParentGroup`. A location
  is the file path together with the range or, without a range, the line
  (get_comments.py:126-141, `Comments.SameLocation`). A comment's side and
  patch set play no part in it. Closure fails in three cases:
  - a reply to a member of a cycle. With `a` and `b` replying to each other
    and `y` replying to `a`, `y` roots at `b` while `a` roots at itself
    (`Threads.ReplyIntoCycle`);
  - a reply at another location, that is, in another file, on another line
    or over another range. Threads are grouped per location, so the reply
    lands in a thread of its own location (`Threads.GroupMembersAt`);
  - duplicate ids. The index keeps the last comment listed under an id
    (get_comments.py:146-150), and a reply follows that comment, not an
    earlier one with the same id.
- **URL changes.** A change given as a URL names its server, but `GERRIT_BASE_URL`
  is still required. `fetch_comments` calls `get_config` again and fails when
  that variable is blank (`GetComments.UrlStillNeedsBaseUrl`).

## Model

Source paths are relative to the repository root.

| member | source | states |
|---|---|---|
| Comments.LocationKey | skills/gerritcomment/scripts/get_comments.py:126-141 | The location key carries the path the comment was listed under. |
| Comments.SameLocation | skills/gerritcomment/scripts/get_comments.py:126-141 | Two comments share a location exactly when they have the same path and the same range, or, both lacking a range, the same line (or both no line). The line does not matter once there is a range. |
| Comments.AuthorName | skills/gerritcomment/scripts/get_comments.py:201-206 | The author is the display name if non-empty, else the name if non-empty, else "Unknown". It is never empty. |
| Comments.Project | skills/gerritcomment/scripts/get_comments.py:201-217 | An output comment copies id, reply-to, patch set, time and state, names as author the display name, else the name, else "Unknown" (`AuthorName`), which is never empty, and carries the message stripped of whitespace at both ends (`Strip`), so it starts and ends with no whitespace. |
| Comments.ProjectAll | skills/gerritcomment/scripts/get_comments.py:199-217 | There is one output comment per thread member. |
| Comments.ProjectEach | skills/gerritcomment/scripts/get_comments.py:199-217 | The k-th output comment is the projection of the k-th member. |
| Comments.ProjectComments | skills/gerritcomment/scripts/get_comments.py:199-217 | The `comments_out` loop gives one projected comment per sorted member, in order. |
| Threads.IndexOf | skills/gerritcomment/scripts/get_comments.py:144-150 | Every key of `by_id` is non-empty and maps to a comment with that id. |
| Threads.IndexOfLast | skills/gerritcomment/scripts/get_comments.py:148-150 | A listed comment's id is indexed, and the index holds the last comment listed with that id. |
| Threads.IndexOfFrom | skills/gerritcomment/scripts/get_comments.py:148-150 | Every indexed comment was listed in the response. |
| Threads.IndexComments | skills/gerritcomment/scripts/get_comments.py:143-151 | The two nested loops produce the index of all comments, the distinct locations in first-seen order, and each location's bucket of comments in listing order. |
| Threads.IndexFile | skills/gerritcomment/scripts/get_comments.py:147-151 | The inner loop over one file's comments extends the index and buckets by exactly those comments. |
| Threads.AddComment | skills/gerritcomment/scripts/get_comments.py:148-151 | One comment updates `by_id` (when it has an id) and appends to its location's bucket. |
| Threads.LocationsAreKeys | skills/gerritcomment/scripts/get_comments.py:145-151 | The locations are distinct. A location is listed exactly when some comment has it. |
| Threads.BucketMembers | skills/gerritcomment/scripts/get_comments.py:151 | A comment is in a location's bucket exactly when it was listed with that location. |
| Threads.BucketSizes | skills/gerritcomment/scripts/get_comments.py:145-151 | The buckets partition the comments: their sizes add up to the number of comments. |
| Threads.Walk | skills/gerritcomment/scripts/get_comments.py:161-176 | The walk terminates: every step adds a new indexed id to `seen`. It returns its starting root or an indexed id. |
| Threads.RootOf | skills/gerritcomment/scripts/get_comments.py:161-176 | The root is the comment's own id or an indexed id. A comment with no parent, or whose parent is not indexed, is its own root. |
| Threads.FindRoot | skills/gerritcomment/scripts/get_comments.py:161-176 | The `while True` loop over `root`, `cur` and `seen` always terminates, and it ends with `RootOf`. |
| Threads.ReplyChainExists | skills/gerritcomment/scripts/get_comments.py:164-176 | Every comment has a reply chain: indexed parents, no repeated id, ending where the walk stops. |
| Threads.ReplyChainRoot | skills/gerritcomment/scripts/get_comments.py:164-176 | The root is the last id of the reply chain, or the comment's own id when the chain is empty. |
| Threads.WalkAlong | skills/gerritcomment/scripts/get_comments.py:164-176 | From any point on the reply chain, the walk reaches the chain's last id. |
| Threads.DistinctInKeys | skills/gerritcomment/scripts/get_comments.py:168-170 | Distinct ids drawn from the index are at most as many as the index keys. This bounds the walk. |
| Threads.TwoCycleSplits | skills/gerritcomment/scripts/get_comments.py:164-176 | When two indexed comments reply to each other, each is its own root. |
| Threads.GroupByRoot | skills/gerritcomment/scripts/get_comments.py:156-177 | The grouping loop yields the distinct roots in first-seen order. Each root's list holds exactly the comments with an id and that root, in order. |
| Threads.AddToGroup | skills/gerritcomment/scripts/get_comments.py:158-177 | One comment is skipped when it has no id, and is otherwise appended to its root's list, adding the root when new. |
| Threads.GroupMapIsMembers | skills/gerritcomment/scripts/get_comments.py:156-177 | The keys of `threads_by_root` are the roots, and each list is that root's group. |
| Threads.RootsAreGroups | skills/gerritcomment/scripts/get_comments.py:156-177 | The roots are distinct, and a root is listed exactly when its group is non-empty. |
| Threads.MembersOf | skills/gerritcomment/scripts/get_comments.py:158-177 | A comment is in root `r`'s group exactly when it is in the bucket, has an id, and has root `r`. |
| Threads.GroupMembersAt | skills/gerritcomment/scripts/get_comments.py:151-177 | A group's members were all listed at the group's location, have ids and share its root, so no thread spans two locations. |
| Threads.ReplyJoinsParent | skills/gerritcomment/scripts/get_comments.py:164-176 | A reply to an indexed comment that is not on a reply cycle through itself has the same root as its parent. |
| Threads.ReplyIntoCycle | skills/gerritcomment/scripts/get_comments.py:164-176 | With two comments replying to each other, a reply to one of them roots at the other, while its parent roots at itself. |
| Threads.ReplyInParentGroup | skills/gerritcomment/scripts/get_comments.py:157-177 | At one location, a reply with an id to a comment indexed under its own id and not on a reply cycle is in the same group as that comment. |
| Threads.CommentGroup | skills/gerritcomment/scripts/get_comments.py:157-177 | A listed comment with an id is in exactly one group of its location, the group of its own root. A comment without an id is in none. |
| Threads.RootIndexed | skills/gerritcomment/scripts/get_comments.py:192-194 | Every root is an indexed id with a non-empty group, so range and line always come from the root's comment. |
| Threads.MakeThread | skills/gerritcomment/scripts/get_comments.py:179-228 | A group's thread has exactly one comment per member. Its order, state and location are stated by `ThreadOrder`, `ThreadState` and `ThreadFrom`. |
| Threads.ThreadFrom | skills/gerritcomment/scripts/get_comments.py:185-228 | A thread has one comment per member. Its file is the location's path, or none when that is empty. Its range and line are those of the comment indexed under the root. |
| Threads.ThreadState | skills/gerritcomment/scripts/get_comments.py:181-186 | A thread's comments are in ascending time order, and its state and time are those of its last comment. An empty group gives a resolved thread with no time. |
| Threads.ThreadOrder | skills/gerritcomment/scripts/get_comments.py:181-184 | A thread's comments are its members permuted, ordered by time, with equal times kept in input order (stable), then projected. |
| Threads.MakeThreadResolved | skills/gerritcomment/scripts/get_comments.py:185-186 | A group none of whose members is unresolved makes a resolved thread. |
| Threads.ThreadOfGroup | skills/gerritcomment/scripts/get_comments.py:179-228 | One pass of the loop over `threads_by_root` yields the group's thread, or nothing when the filter drops it. |
| Threads.KeepThread | skills/gerritcomment/scripts/get_comments.py:185-228 | After the sort, the last member decides the state and the filter, and the thread is assembled from the sorted members. |
| Threads.ThreadsAtLocation | skills/gerritcomment/scripts/get_comments.py:154-228 | One pass of the loop over `by_location` yields the kept threads of that location, one per root, in root order. |
| Threads.ThreadsAtMembers | skills/gerritcomment/scripts/get_comments.py:179-189 | A location's threads are exactly its roots' threads that the filter keeps. |
| Threads.BuildThreads | skills/gerritcomment/scripts/get_comments.py:143-231 | The thread builder returns the thread list: location by location, filtered, then sorted newest first. |
| Threads.ThreadList | skills/gerritcomment/scripts/get_comments.py:143-232 | The returned list has as many threads as the builder made: the final sort drops none. Its contents and order are stated by the next three rows. |
| Threads.ThreadListPermutes | skills/gerritcomment/scripts/get_comments.py:231 | The final sort only reorders the threads. |
| Threads.ThreadListNewestFirst | skills/gerritcomment/scripts/get_comments.py:230-231 | The threads are in descending order of their last comment's time. |
| Threads.ThreadListMembers | skills/gerritcomment/scripts/get_comments.py:153-231 | A thread is in the result exactly when it is the thread of some root of some location and the filter keeps it. |
| Threads.ThreadShape | skills/gerritcomment/scripts/get_comments.py:179-231 | Every thread in the result is non-empty, in time order, and has its last comment's state and time. With `unresolved_only` it is unresolved. Its range and line are those of an indexed comment. |
| Threads.AllResolvedYieldsNothing | skills/gerritcomment/scripts/get_comments.py:185-189 | With `unresolved_only`, a response with no unresolved comment yields no thread. |
| Threads.RootAndReply | skills/gerritcomment/scripts/get_comments.py:143-231 | A root comment and its later reply at one location make exactly one thread: root first, the reply's state and time, the root's range and line. It is dropped when filtering and the reply is resolved. |
| Threads.PairUnsorted | skills/gerritcomment/scripts/get_comments.py:143-228 | Before the final sort, a root and its later reply give their one thread, or nothing when the filter drops it. |
| Threads.PairThread | skills/gerritcomment/scripts/get_comments.py:179-228 | The thread of a root and a later reply is built as described in the row above. |
| Threads.ResolvedByReply | skills/gerritcomment/scripts/get_comments.py:143-231 | The worked example: an unresolved root at 10:00 and a resolving reply at 11:00 give one resolved thread with both comments, in that order. |
| Threads.HourLater | skills/gerritcomment/scripts/get_comments.py:106-124 | In Gerrit's format, a later hour of the same day parses to a later key. |
| Timestamps.ParseHead | skills/gerritcomment/scripts/get_comments.py:118-124 | `strptime` succeeds only on a valid date-time, and it has no microseconds. |
| Timestamps.NormalizeFraction | skills/gerritcomment/scripts/get_comments.py:114-115 | The fraction becomes exactly six digits. |
| Timestamps.NormalizeFractionShape | skills/gerritcomment/scripts/get_comments.py:114-115 | The fraction keeps only its digits. It is cut to the first six, or padded with zeros to six. |
| Timestamps.ParseUpdated | skills/gerritcomment/scripts/get_comments.py:106-124 | Parsing never fails, and every result is a valid date-time. An absent, empty or all-whitespace value gives `datetime.min`. |
| Timestamps.UnreadableNoDot | skills/gerritcomment/scripts/get_comments.py:121-124 | A value without a dot that `strptime` cannot read gives `datetime.min`. |
| Timestamps.UnreadableShapes | skills/gerritcomment/scripts/get_comments.py:121-124 | In particular, an undotted value that is not 19 characters long, or whose month is outside 1 to 12, gives `datetime.min`. |
| Timestamps.AbsentSortsFirst | skills/gerritcomment/scripts/get_comments.py:108-109 | An absent or empty time sorts at or before every other value. |
| Timestamps.MinIsLeast | skills/gerritcomment/scripts/get_comments.py:109 | `datetime.min` is the least valid date-time, and the only one with its key. |
| Timestamps.TicksOrder | skills/gerritcomment/scripts/get_comments.py:183 | Comparing keys is comparing date-times field by field, and equal keys mean equal date-times. |
| Timestamps.HornerOrder | skills/gerritcomment/scripts/get_comments.py:183 | A mixed-radix value orders digit lists lexicographically and is injective. |
| Timestamps.LaterHour | skills/gerritcomment/scripts/get_comments.py:183 | A later hour of the same day has a larger key. |
| Timestamps.ParseFormatHead | skills/gerritcomment/scripts/get_comments.py:122 | A valid date-time in `"%Y-%m-%d %H:%M:%S"` is read back without its microseconds. |
| Timestamps.ParseWholeSeconds | skills/gerritcomment/scripts/get_comments.py:121-124 | A value without a fraction parses to its date-time. |
| Timestamps.ParseAtDot | skills/gerritcomment/scripts/get_comments.py:110-120 | A value is split at its first dot. A readable head takes the normalised fraction as microseconds, and an unreadable one gives `datetime.min`. |
| Timestamps.ParseFraction | skills/gerritcomment/scripts/get_comments.py:112-118 | A formatted head followed by any fraction parses to that date-time, with the fraction's first six digits as microseconds. "Any fraction" holds for ASCII digits only; see Text.IsDigit under Left out. |
| Timestamps.ParseFormatGerrit | skills/gerritcomment/scripts/get_comments.py:106-124 | Gerrit's nine-digit format reads back to the exact date-time (round trip). |
| Timestamps.NanoFraction | skills/gerritcomment/scripts/get_comments.py:114-115 | Nanoseconds are cut to the microseconds they start with. |
| Sorting.SortBy | skills/gerritcomment/scripts/get_comments.py:181-184 | The sort returns as many elements as it was given. The next rows state that it is ordered, a permutation and stable. |
| Sorting.SortByOrdered | skills/gerritcomment/scripts/get_comments.py:181-184 | `sorted` orders its result by the key. |
| Sorting.SortByPermutes | skills/gerritcomment/scripts/get_comments.py:181-184 | `sorted` keeps every element, as often as it occurs. |
| Sorting.SortByStable | skills/gerritcomment/scripts/get_comments.py:181-184 | `sorted` is stable: equal keys keep their input order. |
| Sorting.SortBySorted | skills/gerritcomment/scripts/get_comments.py:181-184 | An already sorted list is its own sort. |
| Sorting.SortSingle | skills/gerritcomment/scripts/get_comments.py:181-184 | Sorting at most one element changes nothing. |
| Text.StripEmptyIffAllSpace | skills/gerritcomment/scripts/gerrit_utils.py:32-42 | A value is blank after `.strip()` exactly when it is all whitespace. |
| Text.StripEnds | skills/gerritcomment/scripts/get_comments.py:213 | A stripped string neither starts nor ends with whitespace. |
| Text.JoinSplit | skills/gerritcomment/scripts/gerrit_utils.py:20 | Joining a split with its separator gives the string back. |
| Text.SplitAppend | skills/gerritcomment/scripts/gerrit_utils.py:20 | Splitting two strings joined by the separator splits each of them. |
| Text.SplitJoin | skills/gerritcomment/scripts/gerrit_utils.py:20 | Splitting a join recovers the parts when none contains the separator. |
| GerritUtils.Message | skills/gerritcomment/scripts/gerrit_utils.py:17 | A message ends with what its error carries: the rejected URL, the missing names joined with ", ", or the HTTP error text. Only a bare exception text can be empty. |
| GerritUtils.ToLower | skills/gerritcomment/scripts/gerrit_utils.py:15 | Upper-case ASCII letters become lower-case, and every other character is kept. |
| GerritUtils.SplitUrl | skills/gerritcomment/scripts/gerrit_utils.py:15 | The parsed scheme is lower-case. The host holds no `/`, `?` or `#`, and the path no `?` or `#`. |
| GerritUtils.SplitUrlParts | skills/gerritcomment/scripts/gerrit_utils.py:15 | `<scheme>://<host><path>` splits into exactly that scheme, host and path. |
| GerritUtils.ChangeFromParts | skills/gerritcomment/scripts/gerrit_utils.py:16-27 | Only the invalid-URL and missing-reference errors can arise. On success the base is `scheme://host` for http or https and a non-empty host, and the reference is a non-empty segment without `/`. |
| GerritUtils.ParseChangeUrl | skills/gerritcomment/scripts/gerrit_utils.py:13-27 | The same as the row above, for the parsed URL text. |
| GerritUtils.ChangeFromPartsContract | skills/gerritcomment/scripts/gerrit_utils.py:13-27 | The URL is rejected exactly when the scheme is not http/https or the host is empty. The missing-reference error is raised exactly when there is no `+` segment or it is the last. On success the base is `scheme://host` and the reference is the non-empty segment after the first `+`. |
| GerritUtils.NonEmpty | skills/gerritcomment/scripts/gerrit_utils.py:20 | The kept parts are exactly the non-empty parts of the list. |
| GerritUtils.NonEmptyAppend | skills/gerritcomment/scripts/gerrit_utils.py:20 | The filter keeps order: it filters each part of a concatenation separately. |
| GerritUtils.SegmentsAppend | skills/gerritcomment/scripts/gerrit_utils.py:20 | The segments of two paths joined by `/` are the segments of each. |
| GerritUtils.DoubleSlash | skills/gerritcomment/scripts/gerrit_utils.py:20 | A doubled slash leaves the segments unchanged. |
| GerritUtils.TrailingSlash | skills/gerritcomment/scripts/gerrit_utils.py:20 | A trailing slash leaves the segments unchanged. |
| GerritUtils.ExtraSlashesIgnored | skills/gerritcomment/scripts/gerrit_utils.py:19-27 | A change URL with a doubled or trailing slash resolves as it does without. |
| GerritUtils.NonEmptyKeeps | skills/gerritcomment/scripts/gerrit_utils.py:20 | Filtering out empty segments keeps a list with none. |
| GerritUtils.SegmentsOfPath | skills/gerritcomment/scripts/gerrit_utils.py:20 | The segments of `/a/b/…` are `a, b, …`. |
| GerritUtils.ChangeUrlRoundTrip | skills/gerritcomment/scripts/gerrit_utils.py:13-25 | A URL built as `scheme://host/project/+/ref/…` resolves to `(scheme://host, ref)`. |
| GerritUtils.ParseChangeUrlRoundTrip | skills/gerritcomment/scripts/gerrit_utils.py:13-25 | Parsing the URL text `http(s)://<host>/<project…>/+/<ref>[/<more…>]` gives `(http(s)://<host>, <ref>)`. |
| GerritUtils.RefInPath | skills/gerritcomment/scripts/gerrit_utils.py:19-25 | The reference is the segment after the first `+`, whatever follows. |
| GerritUtils.RefAfterPlus | skills/gerritcomment/scripts/gerrit_utils.py:19-25 | Given the first `+` segment and a segment after it, the URL resolves to the base and that segment. |
| GerritUtils.MissingOf | skills/gerritcomment/scripts/gerrit_utils.py:36-42 | At most one name per variable is reported. |
| GerritUtils.NoneMissing | skills/gerritcomment/scripts/gerrit_utils.py:36-44 | No name is reported exactly when no value is blank: the `if missing:` test. |
| GerritUtils.MissingOfSub | skills/gerritcomment/scripts/gerrit_utils.py:36-42 | Only checked names are reported missing. |
| GerritUtils.MissingOfMembers | skills/gerritcomment/scripts/gerrit_utils.py:36-42 | A name is reported exactly when its value is blank. |
| GerritUtils.MissingOfConfigNames | skills/gerritcomment/scripts/gerrit_utils.py:36-42 | The missing list is GERRIT_BASE_URL, GERRIT_USER, GERRIT_HTTP_PASSWORD, in that order, each present exactly when blank. |
| GerritUtils.ConfigNamesReported | skills/gerritcomment/scripts/gerrit_utils.py:36-42 | Each variable is reported exactly when its stripped value is empty. |
| GerritUtils.GetConfig | skills/gerritcomment/scripts/gerrit_utils.py:30-48 | It fails exactly when a stripped value is empty, naming every blank variable in the fixed order. Otherwise it returns the three stripped values. |
| GerritUtils.AllMissing | skills/gerritcomment/scripts/gerrit_utils.py:36-46 | With all three blank, all three names are reported. |
| GerritUtils.JoinConfigNames | skills/gerritcomment/scripts/gerrit_utils.py:44-46 | The names are joined with ", ". |
| GetComments.StatusError | skills/gerritcomment/scripts/get_comments.py:96-102 | 401 gives the authentication error, 404 gives not found, and anything else (a missing response counts as 0) gives the generic HTTP error with the exception text. |
| GetComments.StatusMessages | skills/gerritcomment/scripts/get_comments.py:98-102 | The messages of the three HTTP error kinds. |
| GetComments.ExitCode | skills/gerritcomment/scripts/get_comments.py:272-284 | The exit code is 1 for an error report and 0 otherwise. |
| GetComments.IsUrl | skills/gerritcomment/scripts/get_comments.py:258 | An argument that starts with `http://` or `https://` is a URL, and the URL parser reads that scheme from it. |
| GetComments.ChangeRef | skills/gerritcomment/scripts/get_comments.py:258-262 | A non-URL argument is the change reference itself. A parsed URL gives a non-empty segment without `/`. |
| GetComments.RunError | skills/gerritcomment/scripts/get_comments.py:256-272 | The command succeeds exactly when the URL (if one is given) parses, no variable is blank, and the requests succeed. |
| GetComments.Run | skills/gerritcomment/scripts/get_comments.py:235-284 | On success the report holds the change reference, the latest patch set, the filter and the built threads with their count. On failure it holds the stripped change, the revision, "GerritError" and the first failing step's message. The exit code matches the report. |
| GetComments.ConfigurationBeforeRequest | skills/gerritcomment/scripts/get_comments.py:75 | A blank variable stops the command before any request. The error names at least one variable. |
| GetComments.UrlBeforeConfiguration | skills/gerritcomment/scripts/get_comments.py:258-259 | A malformed change URL is reported first, as an invalid URL or a missing reference. |
| GetComments.UrlStillNeedsBaseUrl | skills/gerritcomment/scripts/get_comments.py:258-264 | A valid change URL with `GERRIT_BASE_URL` blank still fails, naming only that variable. |

## Left out

- **Network requests.** The two requests of `fetch_comments`
  (get_comments.py:75-95) go through `GerritClient`, so they are not
  modelled. Their outcome is a parameter (`GetComments.Fetched`) that holds
  one of:
  - the comments and the latest patch set number;
  - an HTTP error (status code and text);
  - another exception's text.

  How `latest_patchset` is read from the change data is therefore not
  modelled. Nor is `revision`'s effect on which comments are fetched; the
  revision appears only in the error report.
- **Environment, arguments and output.** `os.environ`, `argparse` and the
  JSON printing are I/O. The three variables are a parameter, and an unset
  variable reads as "". The report is a datatype, not JSON text.
- **`urlparse`.** It is replaced by a simplified split following section 3
  of RFC 3986:
  - the scheme is lower-cased;
  - the host runs from `//` to the next `/`, `?` or `#`;
  - the path runs to `?` or `#`.

  Not modelled: `;params`, IPv6 brackets (`urlparse` raises
  `ValueError` on malformed brackets) and the removal of tab and newline
  characters.
- **Exceptions that are not a `GerritError`.** In `main`, such as the
  `ValueError` above, they escape the script. They are not modelled.
- Timestamps.ParseHead: accepts only the zero-padded form, with a
  four-digit year, two-digit fields, ASCII digits and exactly one space.
  `strptime` also accepts the following, which the model turns into
  `datetime.min`:
  - shorter fields, such as `2024-1-5 9:05:00`;
  - space-padded fields, such as a day written ` 5`;
  - any run of whitespace for the format's space, such as a tab;
  - non-ASCII decimal digits.
- Text.IsDigit: only the ASCII digits count. Python's `str.isdigit` also
  accepts other Unicode digits. This changes the timestamp of a fraction that
  holds one, such as the Arabic-Indic digit "٣": the code keeps it, the `%f`
  directive of `strptime` accepts only `[0-9]{1,6}`, the parse raises, and
  `_parse_updated` gives `datetime.min` (get_comments.py:112-124). The model
  drops the character and reads a valid time, so such a comment can sort
  elsewhere in its thread.
- Text.IsSpace: the whitespace set is written out by hand as Python's
  `str.isspace` characters. It is not derived from the Unicode database.
- **Absent versus empty.** An absent string field (`None`) and "" are the
  same value. The source treats them alike in every test it makes (`if not
  cid`, `if not in_reply_to`, `if not value`). Only the printed output would
  tell `null` from `""`. A thread with no last comment has time "" where the
  source prints `null`, though that case never occurs (`Threads.RootIndexed`).
- **Empty ranges.** A range object that is present but empty (`{}`) is
  falsy in the source, so its line is used instead. The model has no empty
  range: a range is either absent or has its four numbers.
- **Field types.** `int(line)` and `bool(unresolved)` are taken as already
  converted.
- Threads.ThreadListNewestFirst: states no order among threads with equal
  times. Ties depend on dictionary iteration order, which the script does not
  document.
- **Values, not shared objects.** The source's dictionaries share the comment
  objects. The model keeps them as values: nothing in the builder mutates a
  comment, so there is no aliasing to capture.
