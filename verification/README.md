# wriggler's Twitter crawler primitives, modelled in Dafny

`twitter.py` holds four functions. Three of them are retry loops around one
HTTP request each, and the fourth decides how long to sleep after a
response:

- `check_rate_limit` reads the `x-rate-limit-remaining`, `x-rate-limit-reset`
  and `date` headers. It sleeps until a minute past the reset time when five
  calls or fewer remain. It sleeps a fixed minute when a header it needs is
  missing.
- `user_timeline` pages backward through a user's tweets. Requests carry no
  `max_id` until a page has added ids; from then on each request carries the
  `max_id` cursor, the least id gathered so far. Tweets whose id
  was already seen are dropped. The loop stops at the first page that adds
  nothing.
- `users_lookup` and `users_show` repeat a single request until the server
  answers with 200, 403 or 404.
- Each loop gives up with `SystemExit` after `MAX_RETRY` (1440) consecutive
  throttled (400) or unexpected responses.

## How it is modelled

The network is replaced by a finite sequence of responses, read one per
request. A response is a status code, the three headers as already-parsed
optional integers, and an already-decoded body (`responses.dfy`).

Each loop ends in an `Outcome`:

- `Returned(value)` is the function's return value.
- `Fatal` is the `SystemExit`.
- `OutOfResponses` is a model artefact: the sequence ran out before the
  loop ended.

Sleeps are not performed. Every `check_rate_limit` call appends its duration
to an output sequence.

- `rate_limit.dfy` has the sleep decision as a pure function. `SleepArgument`
  is the value the code hands to `sleep`. `Backoff` is the duration slept,
  with the one defect below corrected.
- `timeline.dfy` holds the `user_timeline` loop, in two forms:
  - `UserTimeline` is an imperative `while tries < MAX_RETRY` loop. It
    mutates the tweet list, the id set, `tcount`, `max_id` and `tries`, and
    its inner `for` loop is `AppendUnseen`.
  - `TimelineRun` is a recursive specification that gives the outcome, the
    `max_id` sent with every request (`None` before the first page) and the
    sleeps.

  The method is proved equal to the specification. What the specification
  returns is proved to be the first-seen tweets of the 200 pages read
  (`Dedup(OkBodies(..))`).
  The state invariant `Valid` holds whenever the loop condition is tested:
  - ids are distinct;
  - the id set matches the list;
  - `tcount` is the id count;
  - `max_id` is the least id;
  - `tries <= MAX_RETRY`.
- `lookup.dfy` holds `users_lookup` and `users_show`. Both classify statuses
  the same way, so they share the specification `Settle`: the first 200, 403
  or 404 response, within the retry budget. They differ only in what they
  return (`LookupAnswer`, `ShowAnswer`). `UsersLookup` and `UsersShow` are
  the while loops, proved equal to `LookupRun` and `ShowRun`. `SettleMeans`
  gives the loop in closed form.

## Model

| member | source | states |
|---|---|---|
| Responses.MinId | twitter.py:93 | `min(ids)`: the result is one of the ids and no id is smaller |
| Responses.DistinctIdsMeans | twitter.py:83-85 | the no-duplicates invariant means no two positions of the tweet list share an id |
| RateLimit.Backoff | twitter.py:29-49 | the sleep is the code's sleep argument whenever that is not negative, and 0 otherwise |
| RateLimit.NoSleepAboveBuffer | twitter.py:31-33 | with more than 5 calls remaining there is no sleep, whatever the `date` and reset headers hold or whether they are present |
| RateLimit.SleepPastReset | twitter.py:33-45 | with 5 calls or fewer remaining and both time headers present, the argument is `reset - now + 60`, unclamped; the corrected sleep equals it when it is not negative and is 0 when it is |
| RateLimit.MissingHeaderSleepsFixed | twitter.py:29-49 | a missing remaining header, or a missing date/reset header at or below the buffer, gives exactly FAILURE_RETRY (60) seconds and no error |
| RateLimit.LowRemainingExample | twitter.py:40-45 | 3 calls left with the reset 100 seconds away gives a sleep of 160 seconds |
| RateLimit.SleepArgumentCanBeNegative | twitter.py:45 | a reset time 100 seconds behind the server clock makes the code pass -40 to `sleep` |
| Timeline.MergePage | twitter.py:82-85 | the inner loop only appends to the tweet list, and the id set grows by exactly the page's ids; if no tweet is appended the id set is unchanged |
| Timeline.AppendUnseen | twitter.py:82-85 | the `for` loop over a page computes exactly `MergePage` |
| Timeline.MergePageFromPage | twitter.py:82-85 | every appended tweet comes from the page |
| Timeline.MergePageKeepsDistinct | twitter.py:82-85 | a tweet whose id is in `ids` is never appended: the list stays duplicate-free, the set equals its ids and `len(tweets) == len(ids)` |
| Timeline.MergePageKeepsFirst | twitter.py:83-85 | the first tweet of a page with an id not seen before is appended |
| Timeline.MergePageAppend | twitter.py:82-85 | merging two pages in turn is merging their concatenation |
| Timeline.MergePageNothingNew | twitter.py:87-89 | the id count is unchanged exactly when every id of the page was already seen, and then the tweets and ids are unchanged |
| Timeline.DedupFirstSeen | twitter.py:82-85 | the tweets gathered from a stream of pages are duplicate-free, cover every id seen, contain only tweets of the pages, and keep each id's first occurrence |
| Timeline.DedupKeepsOrder | twitter.py:82-85 | the tweets gathered keep the order in which their ids were first received: each kept tweet is the first occurrence of its id, and kept tweets appear in the order of those first occurrences, so the list is exactly the first occurrences in order |
| Timeline.NoNewIdsReturns | twitter.py:87-89 | a 200 page that adds no id returns the gathered tweets after one request with no check_rate_limit call, and such a page is the only 200 that skips the sleep |
| Timeline.EmptyFirstPage | twitter.py:73-89 | an empty first page returns the empty list after a single request sent without max_id |
| Timeline.ProgressStep | twitter.py:90-96 | after a 200 page that adds ids: the list strictly grows, the ids grow by the page's ids, `tcount == len(ids)`, max_id is the least id, tries is 0, the state stays valid, and one sleep follows |
| Timeline.MissingReturnsGathered | twitter.py:107-111 | a 401, 403 or 404 returns exactly the tweets gathered before it, after one sleep |
| Timeline.RetryStep | twitter.py:99-118 | a 400 or an unexpected status adds exactly 1 to tries, changes nothing else, and keeps the state valid; the request carried the unchanged max_id |
| Timeline.RetriesAdvance | twitter.py:78-118 | n failures in a row send n requests with the same max_id, sleep after each, and leave tries raised by n |
| Timeline.RetriesExhaust | twitter.py:78-121 | MAX_RETRY - tries consecutive failures end in SystemExit, after exactly that many requests and sleeps |
| Timeline.LastTryStillRequests | twitter.py:78-111 | one failure short of the limit, another request is still sent with the same max_id, and a 401/403/404 there returns the gathered tweets |
| Timeline.FatalAfterStreak | twitter.py:78-121 | SystemExit is raised only right after MAX_RETRY consecutive failures, or the remaining budget of failures at the start; it never reads past the responses |
| Timeline.FatalOnlyAfterFullStreak | twitter.py:73-121 | from the initial state, SystemExit comes only after at least MAX_RETRY requests, the last MAX_RETRY of them failures |
| Timeline.ReturnsFirstSeen | twitter.py:78-111 | from any valid state holding the first-seen tweets of some earlier pages, a run that returns gives the first-seen tweets of those pages followed by the 200 pages it read, on every return path (no progress, 401/403/404) |
| Timeline.TimelineReturnsFirstSeen | twitter.py:51-121 | what user_timeline returns is `Dedup` of the 200 pages among the responses it read, that is their first-seen tweets in the order received (`DedupKeepsOrder`), so no two of its tweets share an id |
| Timeline.UserTimeline | twitter.py:51-121 | the while loop returns, requests and sleeps exactly as `TimelineRun` from the initial state, reading no more responses than it has |
| Lookup.Only401Differs | twitter.py:156-175 | the lookups classify every status as user_timeline does except 401, which they treat as an unexpected response and retry |
| Lookup.FirstSettled | twitter.py:147-175 | the position of the first 200/403/404: every earlier response is a 400 or unexpected status |
| Lookup.SettleMeans | twitter.py:146-178 | the shared retry loop in closed form: with n tries left it ends in SystemExit after n requests if the first answer is not among the first n responses, and otherwise returns that answer after one request per response up to it; there is one sleep per request |
| Lookup.LookupResult | twitter.py:146-178 | users_lookup returns the first 200 body unchanged and unfiltered, or [] on a 403/404; SystemExit happens exactly when the first MAX_RETRY responses all fail, so MAX_RETRY - 1 failures still allow a request |
| Lookup.ShowResult | twitter.py:201-231 | users_show returns the status and body of the first 200/403/404, so the returned status is always 200, 403 or 404; SystemExit happens exactly after MAX_RETRY failures |
| Lookup.UsersLookup | twitter.py:123-178 | the while loop returns and sleeps exactly as `LookupRun` |
| Lookup.UsersShow | twitter.py:180-231 | the while loop returns and sleeps exactly as `ShowRun`, and a returned status is 200, 403 or 404 |

## Left out

- The HTTP request `req.get` and its 60-second timeout (twitter.py:79, 148, 203) are not modelled. Responses come from the input sequence instead.
- OAuth1 request signing is left out. It is a foreign library with no behaviour of the loops.
- `times.parse` and `times.to_unix` on the `date` header are left out. The server time arrives as an already-parsed integer.
- JSON decoding (`r.json()`) is left out. A timeline body is a sequence of records with an integer id. Lookup and show bodies are opaque values.
- Logging is left out. It has no effect on results.
- The real `sleep` is not performed. Its duration is recorded instead.
- The `ValueError` that `int(...)` raises on a malformed header value is not modelled. Header values are integers by construction.
- The process-level effect of `SystemExit` is not modelled. It is the terminal outcome `Fatal`.
- The comma-joined id list of `users_lookup` is not modelled. It is request formatting only. The request parameters of the lookups never change, so they are not recorded.
- `OutOfResponses` has no counterpart in the code. The real loop would block on the next request.
- RateLimit.Backoff: the loops sleep the clamped duration, not the code's possibly negative argument (see Findings). So a run where the code would crash in `sleep` continues in the model.

## Findings

| source | as written | input that shows it | evidently intended | confidence | as-written member | corrected member |
|---|---|---|---|---|---|---|
| twitter.py:45 | `sleep(reset - now + RESET_BUFFER)` is not clamped, so a reset time more than 60 seconds behind the server's `date` gives a negative argument, and Python's `time.sleep` rejects it with an exception (`ValueError` in Python 3), which escapes the crawler | remaining 0, reset 1000, date 1100: argument -40 | sleep 0 seconds when the reset time has already passed | medium, not executed | RateLimit.SleepArgumentCanBeNegative | RateLimit.Backoff |
