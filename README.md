# Book downloader backend, modelled in Dafny

This project models the sequential core of the backend of
calibre-web-automated-book-downloader. The core lives in `backend.py` and
`downloader.py`, and the model covers five parts of it:

- **Duplicate handling before a book is queued** (`detect_duplicate`,
  `queue_book`, `remove_duplicate`, `force_duplicate`). A request for a book
  that is still pending, already in the ingest directory, or half downloaded
  is held back in a registry of duplicate entries. The user can later drop
  such a request or force it through.
- **Ingest file names** (`_sanitize_filename`, `_build_ingest_paths`). A
  finished download is named after the book id, or after the sanitised title
  plus an 8-character MD5 prefix of the id.
- **Duplicate groups in the ingest directory and their review flags**
  (`list_duplicate_groups`, `set_duplicate_reviewed`). The scanned files are
  bucketed by lower-cased sanitised stem and by content hash. Every bucket of
  two or more files becomes a group, carries the review state stored for its
  id `type:key`, and the groups come out sorted by (type, key).
- **The queue report and the filing of a finished job** (`queue_status`,
  `_book_info_to_dict`, `_process_single_download`, `_is_truthy`).
- **Fetching a page under rate limits** (`_parse_retry_after`,
  `_rate_limit_wait_details`, `html_get_page`, `get_absolute_url`). Replies
  429 (section 4 of RFC 6585) and 503 (section 15.6.4 of RFC 9110) are waited
  out. The wait follows their Retry-After header (section 10.2.3 of RFC 9110)
  or else grows exponentially, and it is capped. Other failures go through a
  retry, bypass and linear back-off loop. Relative links are resolved
  against the page's scheme and host (section 3 of RFC 3986).

Modules, one file each:

- `Common`: Option.
- `Text`: ASCII character classes, strip, lower, string order, decimal digits.
- `Models`: the queue's data types and the `BookQueue` registry class.
- `Filenames`, `Duplicates`, `DuplicateGroups`, `QueueReport`, `RateLimit`,
  `PageFetch`, `Urls`: one per part above.

What the model receives as inputs:

- MD5 (RFC 1321) as a function from the book id to a hex string.
- SHA-256 (FIPS 180-4) file hashes as fields of the scanned file entries.
- File existence as a predicate on path strings.
- `parsedate_to_datetime`, `urlparse` and `geturl` as function parameters.
- The clock as a number.
- The network as a function from the attempt number to a reply.

`models.py`, which defines `BookInfo`, `DuplicateEntry`, `QueueStatus` and
`book_queue`, is not part of this model. `Models.BookQueue` gives the
registry only the operations the backend calls. Their contracts are
assumptions drawn from the names and from how the backend uses them.

`html_get_page` is a loop, modelled twice:

- `PageFetch.Step` is one pass of the loop and `PageFetch.Run` is the loop
  with a fuel bound.
- `PageFetch.HtmlGetPage` is the imperative `while` loop. It is proved equal
  to `Run`, and its one pass, `PageFetch.Pass`, is proved equal to `Step`.
  `Pass` is split the way the loop body reads: `PlainGet` for the
  `requests.get` call, `Respond` for a response, and `Except` for the
  `except` block.
- The rate-limit check of the loop is a field of the environment, built by
  `PageFetch.MakeEnv`. The predicate `PageFetch.Consistent` states that it is
  `RateLimit.RateLimitWait` with the environment's settings and clock.
  `HtmlGetPage`, `StepDecreases` and `RateLimitedForever` ask for it.

## Model

| member | source | states |
|---|---|---|
| Filenames.KeepOnlyCounts | backend.py:32-35 | Every character that is alphanumeric, a space, '.' or '_' is kept as often as it occurs; every other character is dropped. |
| Filenames.KeepOnlyInOrder | backend.py:32-35 | The kept characters are a subsequence of the input, so their original order is preserved. |
| Filenames.Sanitize | backend.py:32-35 | The sanitised name is the kept characters with the trailing spaces cut off: it is a prefix of them, only spaces follow it there, and it does not end in a space. |
| Filenames.SanitizeIdempotent | backend.py:32-35 | Sanitising twice gives the same result as sanitising once. |
| Filenames.SanitizeKeepsEveryKeptCharacter | backend.py:32-35 | Every kept character other than a space occurs in the result as often as in the input. |
| Filenames.TitleStem | backend.py:218-220 | The title part of the stem is never empty: the sanitised title, or "book" when nothing survives. |
| Filenames.Extension | backend.py:226 | The extension is "." + format exactly when the format is non-empty, and nothing otherwise. |
| Filenames.BuildIngestPaths | backend.py:215-230 | Both paths lie in the ingest directory, and the partial file is `<id>.crdownload`. The final name is the stem plus the extension. The stem is the id, or, with titles on, the title stem + "-" + the first 8 characters of MD5(id). |
| Filenames.TitledStemSplits | backend.py:217-222 | A titled stem splits back into the title stem, a '-' and the 8-character digest prefix, whatever the title contains. |
| Filenames.GroupingStem | backend.py:130 | A file's grouping stem is its sanitised stem lower-cased, character by character, and still made of kept characters. When nothing survives sanitising it is the lower-cased raw stem instead. It is empty only for an empty stem. |
| Models.StatusValueInjective | backend.py:358 | Distinct statuses are reported under distinct keys. |
| Models.BookInfoToDict | backend.py:384-389 | The record holds "id" and "title" and every non-None field under its attribute name with that value. It holds no None-valued field and no other key. |
| Models.BookInfoDictRoundTrip | backend.py:384-389 | Leaving out the None fields loses nothing: the record reads back as the same book. |
| Duplicates.ChooseReason | backend.py:241-251 | The checks run in order, each an if-and-only-if: pending status gives "queued", then an existing final file gives "on_disk", then an existing partial file gives "downloading", else no duplicate. |
| Duplicates.DetectDuplicate | backend.py:233-264 | There is an entry exactly when a reason applies. The entry has the book, the final path as ingest path, priority 0 and the status value. Its existing path is the final or partial file found, or for "queued" the book's stored download path when it is non-empty, and None otherwise. |
| Duplicates.PendingWinsOverFiles | backend.py:241-245 | A book still pending in the queue is reported as "queued" even when its files exist. |
| Duplicates.QueueBook | backend.py:273-304 | Without force, a detected duplicate is recorded with the requested priority and returned, and nothing is queued. With force, the held entry is resolved first. Success is (True, None) and adds the book at that priority. An unknown book gives (False, None) and changes nothing. |
| Duplicates.RemoveDuplicate | backend.py:312-317 | The entry for the id is removed and returned if there was one; nothing else changes. |
| Duplicates.ForceDuplicate | backend.py:320-339 | With no entry, the result is (False, None, "Duplicate entry not found"). The priority defaults to the entry's own. On success the book is queued at that priority and the entry is gone. On failure the entry is re-recorded with that priority and "Failed to queue duplicate" is returned. |
| DuplicateGroups.BucketCounts | backend.py:153-157 | A bucket holds every scanned file with its key as often as the scan does, and no other file. |
| DuplicateGroups.GroupFacts | backend.py:159-177 | Every group has at least two files, and its id is type + ":" + key. Its files are exactly the scanned files sharing that key. It is reviewed exactly when the state holds a truthy "reviewed" for the id. |
| DuplicateGroups.SortGroups | backend.py:179 | The groups come out ordered by (type, key) and are a permutation of those built. |
| DuplicateGroups.ListDuplicateGroups | backend.py:112-180 | A missing ingest directory gives no groups. Every group returned is the group of its kind and key over the scanned files. Every key shared by two or more files has its group. The list is sorted by (type, key). |
| DuplicateGroups.BuildBuckets | backend.py:152-157 | After the scan, every stem bucket and every hash bucket holds exactly the scanned files with that key, in scan order, and each key list names every bucket key exactly once. |
| DuplicateGroups.StemGroups | backend.py:171-173 | The first group loop yields exactly one stem group, built from the review state, for every stem bucket of two or more files, and nothing else. |
| DuplicateGroups.AddHashGroups | backend.py:175-177 | The second group loop adds exactly one hash group for every hash bucket of two or more files, and every stem bucket of two or more files still has its group. |
| DuplicateGroups.ApplyReview | backend.py:79-93 | Marking stores reviewed = true with the timestamp; clearing removes the group's record. Every other group's record is unchanged. |
| DuplicateGroups.ReviewChangesOnlyThatGroup | backend.py:79-93 | After marking or clearing, the next listing shows that group with the new flag and the same files, and every other group as before. |
| DuplicateGroups.ReviewStore.SetDuplicateReviewed | backend.py:79-93 | An empty group id is refused with "group_id is required" and the state is untouched. Otherwise the new state is ApplyReview of the old one. |
| QueueReport.DropStalePath | backend.py:353-354 | The path becomes None exactly when it is non-empty and no longer exists; an empty path is kept; a kept non-empty path exists; nothing else about the book changes. |
| QueueReport.DropStalePathIdempotent | backend.py:353-354 | Refreshing a book twice is the same as refreshing it once. |
| QueueReport.RefreshAndSerialize | backend.py:351-356 | The books filed under one status get stale paths dropped in place in the queue, and each is serialised from its refreshed record. |
| QueueReport.RefreshBook | backend.py:352-356 | One book loses a download path that no longer exists, in the queue itself, and nothing else in the queue changes. The returned record is that of the refreshed book. |
| QueueReport.QueueStatusReport | backend.py:341-360 | There is one key per status value and no other key. Under each key are the books with that status, serialised without None fields. Every listed book's stale path is set to None in the queue itself. Statuses, queued ids and duplicates are unchanged. |
| QueueReport.FinalStatus | backend.py:559-587 | CANCELLED exactly when the cancel flag is set, also after an exception. AVAILABLE exactly when a non-empty path came back. ERROR otherwise. |
| QueueReport.ProcessSingleDownload | backend.py:559-587 | The job is marked DOWNLOADING and then filed under its final status, in that order. A returned path is recorded on the book only when the job becomes AVAILABLE. |
| QueueReport.IsTruthyIgnoresCase | backend.py:667-668 | A value is truthy exactly when it spells "1", "true", "yes" or "on" in any mix of letter case. |
| Text.DecimalRoundTrip | downloader.py:44-45 | The digits of a whole number read back as that number. |
| RateLimit.ParseRetryAfter | downloader.py:34-60 | A missing or blank header gives None, and an all-digit header gives that many seconds. An HTTP date gives the seconds until it, floored at 0. An unparseable date gives None. A result is never negative. |
| RateLimit.SecondsRoundTrip | downloader.py:37-45 | A whole number of seconds, written with any surrounding blanks, reads back as that number. |
| RateLimit.RateLimitWait | downloader.py:63-76 | The wait is None unless the status is 429 or 503 (line 31). Otherwise it is the parsed header, else DEFAULT_SLEEP * 2^attempts, clamped into [0, RATE_LIMIT_MAX_SLEEP]. The header is passed back unchanged. |
| RateLimit.BackoffFormula | downloader.py:63-76 | The fallback wait equals DEFAULT_SLEEP * 2 ** attempts. |
| RateLimit.BackoffGrows | downloader.py:63-76 | Without a usable header, the wait never shrinks as consecutive rate-limited attempts grow. |
| RateLimit.HeaderObeyed | downloader.py:63-76 | A seconds header within the cap is obeyed exactly. |
| PageFetch.Pass | downloader.py:87-150 | One pass of the loop body equals the step function: bypass or plain fetch, rate-limit wait, success with the 1-second pause, and the exception handler. |
| PageFetch.PlainGet | downloader.py:99-120 | A fetch that raises before any response goes to the exception handler with no status; a response continues as `Respond`. Either way the pass equals the step function. |
| PageFetch.Respond | downloader.py:102-120 | A rate-limited response counts one more attempt and sleeps a positive wait; any other response resets the count and is returned after a 1-second pause unless its status is in 400–599, in which case it goes to the handler with that status. |
| PageFetch.Except | downloader.py:122-149 | The handler gives up with "" when no retries remain or on a 404, switches to the bypasser on a 403, and otherwise sleeps DEFAULT_SLEEP * (MAX_RETRY - retries + 1) and consumes a retry. |
| PageFetch.MakeEnv | downloader.py:102 | The environment checks each reply with `_rate_limit_wait_details` at that attempt's clock. |
| PageFetch.RateLimitedContinues | downloader.py:102-114 | On the plain path, a 429 or 503 moves on to the next attempt with the same retry budget and without the bypasser. |
| PageFetch.HtmlGetPage | downloader.py:79-155 | The loop ends with the outcome of the stepwise semantics, given finitely many rate-limited replies. A negative `retry` skips the loop, and the call returns "" through the `return` after it, having slept nothing. |
| PageFetch.NeverFallsThrough | downloader.py:79-155 | With a non-negative budget, the call ends in a `return` inside the loop or a raise, never by the loop condition failing. |
| PageFetch.ReturnValue | downloader.py:79-155 | A call that raises returns nothing, one that leaves the loop returns "", and one that returns inside the loop gives that page. |
| PageFetch.RunStep | downloader.py:86-150 | One run of the loop is one step followed by the rest of the run. |
| PageFetch.RateLimitedStep | downloader.py:102-114 | A rate-limited reply counts one more rate-limit attempt, sleeps only a positive wait, and leaves the retries untouched. |
| PageFetch.RateLimitedForever | downloader.py:102-114 | When every reply from some point on is rate-limited and the bypasser is not in use, the loop never ends. |
| PageFetch.StepDecreases | downloader.py:86-150 | Past the last rate-limited reply, every pass consumes a retry or ends the loop. |
| PageFetch.RunFuelMonotone | downloader.py:86-150 | A run that ends within some bound ends with the same outcome under any larger bound. |
| PageFetch.SleepsNonNegative | downloader.py:112-147 | No negative sleep is ever performed. |
| PageFetch.NeverRaisesWithinBudget | downloader.py:143-147 | Starting with at most MAX_RETRY + 1 retries and a non-negative DEFAULT_SLEEP, the loop never raises from `time.sleep`. |
| PageFetch.OverBudgetRaises | downloader.py:143-147 | With more retries than MAX_RETRY + 1, a failing first fetch makes the linear back-off negative, so `time.sleep` raises. |
| PageFetch.ReturnedPageOrigin | downloader.py:93-133 | A returned page is "" or the text of a reply at or after the start. |
| Urls.Resolved | downloader.py:243-246 | A link missing its scheme or host takes both from the base; a link with both is kept whole. Its path, parameters, query and fragment are always its own. |
| Urls.GetAbsoluteUrl | downloader.py:230-247 | A blank URL or one of only '#' gives "". A URL beginning "http" comes back unchanged. Otherwise the result is `geturl` of the resolved components. |
| Urls.RelativeTakesBase | downloader.py:243-247 | Read back, a resolved relative link has the base's scheme and host and its own parameters, query and fragment. Its path is its own, except that a relative path gains a leading '/' when the base has a host. |
| Urls.ResolveIdempotent | downloader.py:230-247 | Against a base with a scheme and a host, resolving an already resolved URL again changes nothing. |

## Left out

- Concurrency: `concurrent_download_loop`, its thread pool, the state-file lock and the coordinator thread started at import unless `DISABLE_DOWNLOAD_COORDINATOR` is truthy (backend.py:30, 589-665, 671-687) are left out, because their subject is threading.
- File and process I/O are left out: `_download_book_with_cancellation` (backend.py:391-507), `get_book_data` (362-382), `resolve_ingest_file` (96-109) and the JSON load and save of the review state (47-76).
- `_hash_file` (SHA-256) and the directory walk of `list_duplicate_groups` (backend.py:118-148) are left out. The scanned entries, with their stems and hashes, are an input in scan order. `Filenames.GroupingStem` models only the stem computation at line 130.
- The thin wrappers are left out: `search_books`, `get_book_info`, `list_duplicates`, `_duplicate_entry_to_dict` and the one-line delegations to the queue (backend.py:182-213, 267-270, 307-309, 509-557).
- `download_url` (downloader.py:157-228) is left out. It streams from the network and parses sizes and progress as floats.
- Models.BookQueue: models.py is not part of this model. The behaviour of `add`, `record_duplicate`, `resolve_duplicate`, `update_status` and `update_download_path` is assumed, and `get_status` is taken to list each book under its stored status. So are the lower-case `QueueStatus` values and the `BookInfo` field list.
- QueueReport.QueueStatusReport: files every book under the status the queue stores for it. `get_status` in models.py, which is not part of this model, re-files some books. testing/test_queue_status.py:36-58 expects a book stored as AVAILABLE whose file is missing to be reported under "done", while this model reports it under "available".
- Text: character classes (`isalnum`, `isdigit`, `isspace`) and `lower` are modelled on ASCII only. Python's Unicode classes are wider. Lower-casing is exact for the four words `_is_truthy` accepts.
- RateLimit.ParseRetryAfter: floating point is modelled as exact reals. Python's `float()` of a very long digit string may round or overflow to infinity.
- DuplicateGroups.GroupFacts: the review state maps each group id to a record. A JSON file holding some other value there would make the source raise; this model does not cover that case.
- DuplicateGroups.Json: "reviewed" values are booleans, strings, integers or null. Floats, lists and objects, which Python would also test for truthiness, are not modelled.
- DuplicateGroups.FileEntry: a scanned file keeps its name, relative path, stem and hash. Its size, modification time and extension are only reported by the source, never compared, and are left out.
- Filenames.PathString: paths are joined with a single "/", without Python's normalisation of repeated or trailing separators.
- QueueReport.QueueStatusReport: `get_status` lists the statuses in one fixed order, and within a status the order of books is not modelled. The result is a map, as in the source, so only the in-place path refresh could depend on it, and it does not.
- QueueReport.ProcessSingleDownload: an exception raised by `update_status` or `update_download_path` themselves is not modelled, only one from the download.
- PageFetch.HtmlGetPage: its contract holds when only finitely many replies are rate-limited. The requirement is stated for every attempt from some point on, including attempts at which the bypasser is in use and no reply is read, so it is stronger than the loop needs there. `PageFetch.RateLimitedForever` shows that otherwise the loop does not end. The bypasser's result is taken as a string, and logging is left out.
- Urls.RelativeTakesBase and Urls.ResolveIdempotent: `urlparse` and `geturl` are not modelled. The lemmas assume, for the one URL they build, that reading it back gives its components with the '/' `urlunparse` inserts before a relative path (`Urls.ReadsBack`), and that writing it with that '/' gives the same string (`Urls.WritesRooted`). Python's other normalisations, such as a ';' in the last path segment under a scheme without parameters, are not covered.
- PageFetch.Env: the clock, the network and the bypasser are functions of the attempt number. The cancellation of a running fetch is not part of `html_get_page`.
- The source's docstring of `_sanitize_filename` says spaces become underscores, but the code does not do this. The model follows the code (backend.py:32-35).
- testing/test_rate_limit.py:79 and 102-113 expect no pause after a successful fetch. downloader.py:119 sleeps 1 second, and the model follows the code: a success appends a 1.0 sleep.
- testing/test_rate_limit.py:116-261 call `download_url` with a signature it does not have; they are not modelled.
