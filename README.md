# Init7 job tracker, modelled in Dafny

The job tracker scrapes the careers page of Init7, keeps every job posting it
has ever seen in an SQLite database, and answers the Telegram commands `/new`
and `/active` with lists of links. This project models the three pieces of
logic in the program and proves what they guarantee:

- **The job store** (`src/job_tracker/db.py`): a class `JobStore.Store` with two map fields.
  `jobs` maps a url to its row (name, first seen, last seen, active).
  `subscribers` maps a Telegram user id to its row (first name, date subscribed).
  `save_jobs` is a full-replacement reconciliation: deactivate every row, then refresh or insert each posting of the batch.
  It is specified by the pure fold `Reconcile.Reconciled`, and the lemmas in `reconcile.dfy` state what that fold guarantees.
  The read queries (`get_all_jobs`, `get_new_jobs_today`) return a listing: newest first_seen first, each url once, exactly the selected rows (`Listing.IsListing`).
- **The replies** (`src/job_tracker/telegram_bot.py`): name escaping for Telegram MarkdownV2, one `[name](url)` line per job, and the fixed "none" texts.
- **The scraper's link loop** (`src/job_tracker/jobs.py`): strip the link text, make site-relative hrefs absolute, drop the "benefits" link, and return an empty list on any exception.
- **The start-up step** (`main.py:18-19`): save what was fetched, unless the fetch gave nothing.

Dates are day numbers (`int`). The current date is a parameter named `today`.
Files: `postings.dfy` (the posting record), `reconcile.dfy`, `listing.dfy`,
`store.dfy` (all three model `db.py`), `reply.dfy`, `scrape.dfy`, `startup.dfy`.

## Model

| member | source | states |
|---|---|---|
| `JobStore.Store.constructor` | src/job_tracker/db.py:4-26 | a freshly initialised database has no jobs and no subscribers |
| `JobStore.Store.SaveJobs` | src/job_tracker/db.py:28-61 | the new table is `Reconciled(old table, batch, today)`; `new_jobs` is the number of distinct batch urls not stored before; `new_jobs + updated_jobs` is the batch length; subscribers are untouched |
| `Reconcile.ReconciledActiveIff` | src/job_tracker/db.py:34-58 | after `save_jobs`, a stored job is active if and only if its url occurs in the batch (an empty batch deactivates everything) |
| `Reconcile.ReconciledKeys` | src/job_tracker/db.py:34-58 | no row is ever deleted: the urls afterwards are the old urls together with the batch urls |
| `Reconcile.ReconciledUnseen` | src/job_tracker/db.py:34 | a row whose url is not in the batch keeps its name, first_seen and last_seen and only becomes inactive |
| `Reconcile.ReconciledSeen` | src/job_tracker/db.py:44-58 | a batch url ends active with last_seen = today and the name of its last posting in the batch; it keeps its first_seen if it was stored, otherwise first_seen = today |
| `Reconcile.ObserveAllAt` | src/job_tracker/db.py:39-58 | what the loop leaves at one url, for any starting table: batch urls as in `ReconciledSeen`, every other url exactly as before |
| `Reconcile.ObserveAllKeys` | src/job_tracker/db.py:39-58 | the loop adds exactly the batch urls to the key set |
| `Reconcile.LastIndexOf` | src/job_tracker/db.py:44-50 | the position of the last posting with a given url: the one whose name is left in the table when a url repeats in a batch |
| `Reconcile.NewJobsCount` | src/job_tracker/db.py:36-58 | the `new_jobs` counter equals the number of distinct batch urls that were not stored; a repeated url counts as updated |
| `Reconcile.ReconcileTwice` | src/job_tracker/db.py:28-61 | re-running the same batch, on any day, finds no new job and leaves the key set, every row's activity and every first_seen unchanged |
| `Listing.Enumerate` | src/job_tracker/db.py:70-84 | a scan of a table returns a listing of it (sorted by non-increasing first_seen, each url once, exactly its rows) with one row per entry |
| `Listing.InsertionPoint` | src/job_tracker/db.py:75 | the position behind every row with an equal or later first_seen and before the first earlier one |
| `Listing.ListingsArePermutations` | src/job_tracker/db.py:75 | two listings of the same table are permutations of each other: only the order of equal first_seen dates is open |
| `Listing.ListingEmpty` | src/job_tracker/telegram_bot.py:42 | a listing is empty exactly when the table it lists is empty |
| `Listing.ActiveAfterReconcile` | src/job_tracker/db.py:34-58 | after `save_jobs`, the urls of the active rows are exactly the batch urls |
| `JobStore.Store.GetAllJobs` | src/job_tracker/db.py:63-84 | `active_only = True`: a listing of exactly the active rows; `False`: a listing of every row; both newest first_seen first |
| `JobStore.Store.GetNewJobsToday` | src/job_tracker/db.py:86-101 | a listing of exactly the active rows whose first_seen is today |
| `JobStore.Store.UpdateDiscoveryDate` | src/job_tracker/db.py:103-129 | returns false and changes nothing for an unknown url; otherwise returns true and changes only that row's first_seen |
| `JobStore.Store.SubscribeUser` | src/job_tracker/db.py:131-160 | returns false and changes nothing if the id is present; otherwise adds the id with the given name and date and returns true; afterwards the id is subscribed either way |
| `JobStore.Store.UnsubscribeUser` | src/job_tracker/db.py:162-180 | returns true if and only if the id was present; afterwards the id is absent and every other subscriber is untouched |
| `JobStore.Store.GetSubscribers` | src/job_tracker/db.py:182-192 | lists exactly the subscribed ids, each once |
| `JobStore.Store.IsSubscribed` | src/job_tracker/db.py:194-208 | true exactly when the `subscribers` table has a row for the id |
| `Reply.EscapeIsEach` | src/job_tracker/telegram_bot.py:46 | the two chained `replace` calls turn each `(` into `\(` and each `)` into `\)` and leave every other character unchanged |
| `Reply.EscapeLength` | src/job_tracker/telegram_bot.py:46 | the escaped name is longer than the name by exactly its number of parentheses |
| `Reply.EscapeGuardsParens` | src/job_tracker/telegram_bot.py:59 | every parenthesis in an escaped name directly follows a backslash |
| `Reply.UnescapeEscape` | src/job_tracker/telegram_bot.py:46 | reading the backslash-parenthesis pairs back gives the original name, so no two names escape alike |
| `Reply.LineParts` | src/job_tracker/telegram_bot.py:46-47 | a line is `"\n["`, the name escaped character by character, `"]("`, the url unescaped, `")"` |
| `Reply.LinesAppend` | src/job_tracker/telegram_bot.py:45-47 | the lines of a list are the lines of its parts in order: one line per job, in query order |
| `Reply.ReplyNoneIffEmpty` | src/job_tracker/telegram_bot.py:48-49 | the reply is "No new jobs today" (or "No active jobs") exactly when there is no job to show |
| `Reply.Respond` | src/job_tracker/telegram_bot.py:57-63 | the loop builds the header followed by `"\n[" + escaped name + "](" + url + ")"` per job, url verbatim, or the "none" text for an empty list |
| `Reply.HandleNew` | src/job_tracker/telegram_bot.py:40-51 | `/new` renders a listing of exactly the active jobs first seen today under "New jobs today:"; it answers "No new jobs today" exactly when there are none |
| `Reply.HandleActive` | src/job_tracker/telegram_bot.py:54-65 | `/active` renders a listing of exactly the active jobs under "Active jobs:"; it answers "No active jobs" exactly when there are none |
| `Scrape.StripTrims` | src/job_tracker/jobs.py:16 | the result is the text with its leading and trailing whitespace removed and nothing else: a slice of the input, whitespace on both sides of it, no whitespace at its ends; whitespace is what `str.isspace()` accepts among ASCII characters |
| `Scrape.StripIdempotent` | src/job_tracker/jobs.py:16 | stripping a stripped name changes nothing |
| `Scrape.Absolute` | src/job_tracker/jobs.py:19-20 | the href changes exactly when it starts with `/`, and then becomes `https://www.init7.net` followed by the href |
| `Scrape.AbsoluteIdempotent` | src/job_tracker/jobs.py:19-20 | an url made absolute is not changed by a second pass |
| `Scrape.LowerCases` | src/job_tracker/jobs.py:23 | the lower-cased url has the same length, no capital letter, every other character in place, and each capital turned into the same letter in lower case |
| `Scrape.LowerIdempotent` | src/job_tracker/jobs.py:23 | lower-casing twice is lower-casing once, so a url and its lower-case spelling are dropped or kept alike |
| `Scrape.GetJobs` | src/job_tracker/jobs.py:5-36 | a fetched page yields `Kept(links)`; a request or parse failure yields the empty list |
| `Scrape.KeptAppend` | src/job_tracker/jobs.py:15-27 | the output keeps link order: the postings of two runs of links are those of the first run followed by those of the second |
| `Scrape.KeptLength` | src/job_tracker/jobs.py:15-27 | there are never more postings than links |
| `Scrape.KeptComplete` | src/job_tracker/jobs.py:23-27 | every link whose absolute url does not contain "benefits", in any letter case, yields its posting (stripped name, absolute url) |
| `Scrape.KeptSound` | src/job_tracker/jobs.py:22-27 | every posting is that of some link, and none of them contains "benefits" in any letter case |
| `Startup.FetchAndSave` | main.py:18-19 | an empty or failed fetch leaves the jobs table untouched; a non-empty one reconciles the table with it |

## Left out

- SQLite mechanics: connections, `CREATE TABLE`, the autoincrement `id` column and commits. The tables are maps keyed by url and by user id, so the UNIQUE url and the user-id primary key hold by construction.
- `get_all_jobs(active_only=True)` selects four columns. The model returns the same five-column row for both modes; the extra `is_active` column is always true there.
- The wall clock (`datetime.now()`) becomes the `today` parameter. Parsing a `'%Y-%m-%d'` string date in `update_discovery_date_by_url` is a library call; the model takes the date as a day number.
- The HTTP request, `raise_for_status`, BeautifulSoup and the href regular expression of `find_all`. These are foreign libraries; the model starts from the list of (link text, href) pairs they produce, or from the failure they raise.
- Scrape.StripTrims: Python's `strip()` also removes non-ASCII whitespace (U+0085, U+00A0, U+2000..U+200A and others); the model's whitespace is the ASCII part of that set: tab to carriage return, U+001C..U+001F and space.
- Scrape.LowerCases: Python's `lower()` also lower-cases non-ASCII letters; the model lower-cases `A`..`Z` only. The test looks for the ASCII word "benefits"; the model does not decide whether some non-ASCII capital lower-cases into one of its letters.
- Telegram plumbing: the application builder, handler registration, `reply_text`, polling, and the fixed `/start` and `/help` texts. Whether Telegram accepts a reply is outside the model. MarkdownV2 reserves more characters than parentheses, and only parentheses are escaped.
- `print` calls, `logger.py`, and the `dotenv`/token handling of `main.py`.
- Concurrency and transaction atomicity: each method runs to completion on its own.
- The code has no notifier, no scheduler and no automatic unsubscription: `main.py:17` is a TODO to let users subscribe and to run daily with APScheduler. Nothing of them is modelled.
- `get_subscribers` returns a list; the model states that it has no duplicates.
- `user_id` is bound as an SQLite integer, and Python's `sqlite3` raises `OverflowError` for an id outside [-2^63, 2^63) in every subscriber query (`db.py:149`, `154`, `177`, `207`). The model takes any `int` and returns normally; that error path is not modelled. `first_name` may be NULL in the table; the model always has a string.
- JobStore.Store.GetSubscribers: does not state an order, because the query has no `ORDER BY`.
- JobStore.Store.GetAllJobs: does not fix the order of rows with equal first_seen, because `ORDER BY first_seen DESC` leaves it open; `Listing.ListingsArePermutations` shows that this is the only freedom.
- Reply.HandleNew: the rows it shows are a ghost out-parameter, since the Python handler only sends the text.
