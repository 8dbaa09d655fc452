# bridgycheck in Dafny

bridgycheck is a set of small scripts. They take a Mastodon follow list
exported as CSV and turn each `user@instance` account address into the handle
under which the Bridgy Fed bridge shows that account on Bluesky,
`user.instance.ap.brid.gy`. One of the scripts can also ask the public Bluesky
API, request by request, whether each handle exists. A further script turns a
column of profile URLs into an HTML page of links.

This project models the logic of four of those scripts and proves what it
does:

- `mastoToBsky.js`, the current converter (modules `MastoToBsky` and
  `MastoToBskyRun`). It covers the following:
  - the address conversion, which dashes out `_` and `~`, and the three
    excluded domains;
  - the profile and lookup URLs;
  - the decision table applied to the outcome of one profile lookup, with the
    recursive retry driven by a given sequence of outcomes;
  - the request queue and its pacing timer, as a class driven by events,
    together with the row handler and its `results` array.
- `masto-to-bsky.py`, the Python converter (module `MastoToBskyPy`). It strips
  outer `@`s, raises `ValueError` unless exactly one `@` is left, and writes
  a header followed by one row per address, in a loop that uses `continue`.
- `masto-to-bsky.js`, the earlier JavaScript converter (module
  `MastoToBskyJs`). It does not strip and renders a missing instance as
  `undefined`.
- `linkPage.js` (module `LinkPage`). It collects the URLs and builds the
  fragment of anchor lines. A parser is included so that the round trip can
  be stated.

Supporting modules:

- `Text` holds the JavaScript and Python string operations the scripts use:
  `split`, `join`, `strip`, `replace` of the first occurrence, `endsWith`,
  and the filter-then-map shape of the row loops.
- `Variants` relates the three converters to one another.

The scripts' own state is modelled imperatively:

- the queue array, the timer flag and `results` are fields of classes, and
  each method is one event of the JavaScript event loop;
- the Python row loop and the JavaScript `data` handlers are loops.

The row handlers and loops (`ConversionRun`, `Conversion`, `WriteOutput`,
`CollectResults`, `CollectUrls`) are proved against a function of their
inputs (`Accounts`, `WrittenRows`, `FilterMap`). The queues' methods give
their whole new state in terms of the old one and preserve `Valid`.

Points worth knowing about what the code does:

- **No idempotence.** `convertAddressFormat` in `mastoToBsky.js` is not
  idempotent: `MastoToBsky.ConvertTwice` proves that converting a converted
  handle again appends `.undefined.ap.brid.gy`.
- **Order of results under `-c`.** With `-c`, the code pushes confirmed
  accounts in the order their checks settle, not in row order.
  `ConversionRun` records that order and claims nothing beyond it.
- **No pacing.** The request queue of `mastoToBsky.js` never arms its timer,
  so every check starts as soon as its row arrives (see the findings below).
  `ConversionRun` uses that queue as written; the intended paced queue is
  modelled on its own as `PacedRequestQueue`.
- **No rotation, deduplication or bounded retries.** The code has no
  instance rotation, no set of already-known accounts, no concurrency
  ceiling, no retry bound and no server-suggested backoff.

## Model

| member | source | states |
|---|---|---|
| Text.Split | masto-to-bsky.py:6 | `split('@')` gives one more piece than there are separators |
| Text.SplitPiecesFree | masto-to-bsky.py:6 | no piece of a split contains the separator |
| Text.JoinSplit | masto-to-bsky.py:6 | joining the pieces of a split with the separator gives the original string back |
| Text.SplitAtFirst | masto-to-bsky.js:7 | the first piece of a split is exactly the text before the first separator |
| Text.SplitJoin | linkPage.js:23 | splitting a join of separator-free pieces gives those pieces back |
| Text.Join | linkPage.js:23 | a non-empty join starts with its first element |
| Text.Strip | masto-to-bsky.py:6 | `strip('@')` leaves a string that neither starts nor ends with `@` |
| Text.StripLeading | masto-to-bsky.py:6 | a leading `@` does not change the result of `strip('@')` |
| Text.StripTrailing | masto-to-bsky.py:6 | a trailing `@` does not change the result of `strip('@')` |
| Text.StripUnchanged | masto-to-bsky.py:6 | a string that neither starts nor ends with `@` is left as it is |
| Text.StripKeepsOthers | masto-to-bsky.py:6 | stripping keeps every occurrence of every other character |
| Text.CountHandle | masto-to-bsky.py:7 | the `@` and `.` of the handle template each add one occurrence of their character, and the parts keep their own counts |
| Text.IndexOf | mastoToBsky.js:58 | the position found holds the character and no earlier position does |
| Text.RemoveFirst | mastoToBsky.js:58 | `replace('@', '')` leaves a string without `@` unchanged; otherwise it removes exactly one `@` |
| Text.RemoveFirstCutsFirst | mastoToBsky.js:58 | when `@` is present, `replace('@', '')` gives the text before its first occurrence followed by the text after it |
| Text.Filter | mastoToBsky.js:101 | a loop keeps at most as many rows as it reads |
| Text.FilterMembers | mastoToBsky.js:101 | the rows a loop keeps are rows of the input satisfying the test, and every input row satisfying it is kept |
| Text.FilterMap | mastoToBsky.js:101-114 | a skip-or-push loop collects one value per kept row |
| Text.FilterMapElements | mastoToBsky.js:101-114 | the values a skip-or-push loop collects are the images of the kept rows, in row order |
| Text.FilterMapAppend | mastoToBsky.js:98-116 | collecting over two batches of rows gives the concatenation of the two collections |
| MastoToBsky.ReplaceUnderscoreTilde | mastoToBsky.js:12 | same length; every `_` and `~` becomes `-`, every other character stays, and no `_` or `~` remains |
| MastoToBsky.ReplaceUnderscoreTildeAppend | mastoToBsky.js:12 | the replacement works character by character, so it distributes over concatenation |
| MastoToBsky.ReplaceUnderscoreTildeKeepsAt | mastoToBsky.js:12-13 | the replacement introduces no `@` |
| MastoToBsky.ReplaceUnderscoreTildeUnchanged | mastoToBsky.js:12 | a string without `_` or `~` is unchanged |
| MastoToBsky.ConvertAddressFormat | mastoToBsky.js:10-15 | the handle contains no `@`, `_` or `~` and always ends with `.ap.brid.gy` |
| MastoToBsky.ConvertOneAt | mastoToBsky.js:12-14 | for `user@instance` with a single `@`, the handle is the dashed user, `.`, the dashed instance and `.ap.brid.gy` |
| MastoToBsky.ConvertDropsThirdPiece | mastoToBsky.js:13-14 | everything from a second `@` on is dropped |
| MastoToBsky.ConvertWithoutAt | mastoToBsky.js:13-14 | without an `@` the instance renders as `undefined` |
| MastoToBsky.ConvertTwice | mastoToBsky.js:10-15 | converting a handle again appends `.undefined.ap.brid.gy`, so the conversion is not idempotent |
| MastoToBsky.ExcludeDomain | mastoToBsky.js:18-20 | an address is skipped when it ends with `@bsky.brid.gy`, `@threads.net` or `@bird.makeup` |
| MastoToBsky.DomainAfterLastAt | mastoToBsky.js:19 | the text after the last `@` (what the exclusion check compares, not the converter's instance) exists only when there is an `@`, and it holds no `@` |
| MastoToBsky.EndsWithDomain | mastoToBsky.js:19 | an address ends with `@` followed by a domain if and only if that domain is the text after its last `@` |
| MastoToBsky.ExcludeDomainByLastAt | mastoToBsky.js:18-20 | an address is excluded if and only if the text after its last `@` is `bsky.brid.gy`, `threads.net` or `bird.makeup` |
| MastoToBsky.ProfileUrl | mastoToBsky.js:100 | the profile link starts with `https://bsky.app/profile/` and is that base plus the handle when the handle has no `@` |
| MastoToBsky.LookupUrl | mastoToBsky.js:58-59 | the lookup URL starts with the getProfile endpoint and is that endpoint plus the address when the address has no `@` |
| MastoToBsky.ConvertedUrls | mastoToBsky.js:58-59 | both `replace('@', '')` calls leave a converted handle unchanged |
| MastoToBsky.RowAccount | mastoToBsky.js:99-100 | a row's record holds its converted address and the profile URL of that address |
| MastoToBsky.Accounts | mastoToBsky.js:98-116 | there is one record per row that is not excluded |
| MastoToBsky.AccountsPerRow | mastoToBsky.js:98-116 | the records follow the rows that are not excluded in input order, each with its converted address and the profile URL of that address |
| MastoToBsky.Classify | mastoToBsky.js:61-86 | retry if and only if the error is a connection reset or a 429; the delay is 1000 ms for a reset and 100 ms otherwise; "exists" if and only if the lookup resolved with status 200 |
| MastoToBsky.ResetTakesPrecedence | mastoToBsky.js:68-72 | a connection reset is retried after 1000 ms whatever status it carries |
| MastoToBsky.RateLimitRetried | mastoToBsky.js:73-77 | a 429 that is not a connection reset is retried after 100 ms |
| MastoToBsky.EveryOtherErrorIsAbsent | mastoToBsky.js:78-85 | every other rejection, a 400 among them, means the account does not exist |
| MastoToBsky.CheckAccountExists | mastoToBsky.js:51-87 | all attempts but the last were retries; an answer is the classification of the last attempt; running out of lookups means every one was a retry; the backoff is at least 100 ms for every retry — every attempt when no answer came — and at most 1000 ms per attempt |
| MastoToBsky.BackoffIsRetryDelays | mastoToBsky.js:51-87 | the backoff of a check is exactly the sum of the delays of the retries among the attempts it made |
| MastoToBsky.CheckSettledIgnoresLater | mastoToBsky.js:61-86 | once an answer is reached, later lookups change nothing |
| MastoToBskyRun.RequestQueue.constructor | mastoToBsky.js:23-26 | the queue starts empty with no timer |
| MastoToBskyRun.RequestQueue.Process | mastoToBsky.js:35-48 | when no timer is armed, the head of the queue is shifted and started; otherwise nothing changes; started plus queue always equals the enqueued sequence |
| MastoToBskyRun.RequestQueue.Enqueue | mastoToBsky.js:29-32 | a push followed by processing; from an idle queue the new request starts at once and the queue stays idle |
| MastoToBskyRun.RequestQueue.Completed | mastoToBsky.js:38-46 | a completion arms the timer only if the queue is non-empty, and leaves an idle queue idle |
| MastoToBskyRun.RequestQueue.TimerFired | mastoToBsky.js:41-44 | firing clears the timer and then takes the head of the queue, if there is one |
| MastoToBskyRun.BurstWithoutPacing | mastoToBsky.js:29-48 | two requests enqueued back to back on the queue as written both start and are in flight together, with no timer armed or fired |
| MastoToBskyRun.PacedRequestQueue.constructor | mastoToBsky.js:23-26 | the corrected queue starts empty with no timer |
| MastoToBskyRun.PacedRequestQueue.Process | mastoToBsky.js:35-48 | as `RequestQueue.Process`, but starting a request arms the timer |
| MastoToBskyRun.PacedRequestQueue.Enqueue | mastoToBsky.js:29-44 | starts happen in enqueue order, and there are never more starts than timer firings plus one |
| MastoToBskyRun.PacedRequestQueue.Completed | mastoToBsky.js:38-46 | a completion only moves its request from in flight to settled |
| MastoToBskyRun.PacedRequestQueue.TimerFired | mastoToBsky.js:41-44 | firing takes the head of the queue and re-arms the timer; starts never exceed firings plus one |
| MastoToBskyRun.PacedBurst | mastoToBsky.js:29-44 | on the corrected queue, the second of two back-to-back requests waits for the timer |
| MastoToBskyRun.ConversionRun.constructor | mastoToBsky.js:90-93 | the run starts with the given `-c` flag, no rows, no results and a fresh request queue of the kind the script declares, idle: empty, with no timer |
| MastoToBskyRun.ConversionRun.OnRow | mastoToBsky.js:98-116 | an excluded row changes nothing; otherwise, without `-c` its record is pushed to `results`, and with `-c` its check is enqueued and started at once, while the queue stays idle |
| MastoToBskyRun.ConversionRun.OnRows | mastoToBsky.js:96-116 | after the stream: without `-c`, `results` gains `Accounts(input)`; with `-c`, exactly those records are enqueued and all of them have started, in row order |
| MastoToBskyRun.ConversionRun.RequestCompleted | mastoToBsky.js:104-110 | under `-c`, a settled check of a request in flight pushes its record if and only if the account exists; `results` stays the confirmed checks in order of settling, the request moves from in flight to settled, and the queue stays idle, so no timer is scheduled |
| MastoToBskyPy.ConvertAddressFormat | masto-to-bsky.py:5-7 | raises if and only if the stripped address does not contain exactly one `@`; otherwise the handle starts with `@` and ends with `.ap.brid.gy` |
| MastoToBskyPy.ConvertShape | masto-to-bsky.py:7 | a converted handle contains exactly one `@` |
| MastoToBskyPy.ConvertComposition | masto-to-bsky.py:6-7 | `user@instance` becomes `@user.instance.ap.brid.gy`, with characters unchanged |
| MastoToBskyPy.SuffixHasNoUnderscoreTilde | masto-to-bsky.py:7 | the suffix adds no `_` or `~` |
| MastoToBskyPy.ConvertKeepsUnderscoreTilde | masto-to-bsky.py:6-7 | a handle has as many `_` and as many `~` as its address: nothing is substituted |
| MastoToBskyPy.ConvertIgnoresOuterAt | masto-to-bsky.py:6 | `@u@i` and `u@i@` convert exactly as `u@i` does |
| MastoToBskyPy.ConvertLeadingAt | masto-to-bsky.py:6-7 | `@user@instance` converts to `@user.instance.ap.brid.gy`, as `user@instance` does |
| MastoToBskyPy.ConvertWithoutAt | masto-to-bsky.py:6 | an address without `@` is a single piece and raises |
| MastoToBskyPy.ExcludeDomain | masto-to-bsky.py:10-11 | an address is skipped when it ends with `@bsky.brid.gy` or `@threads.net` |
| MastoToBskyPy.Step | masto-to-bsky.py:30-37 | one pass of the loop body: nothing changes after an error or for an excluded row, and at most one row is written |
| MastoToBskyPy.WrittenRows | masto-to-bsky.py:30-37 | the loop writes at most one row per input row |
| MastoToBskyPy.WrittenStopsAtError | masto-to-bsky.py:30-37 | after a `ValueError`, later rows change nothing |
| MastoToBskyPy.WrittenRowsPrefix | masto-to-bsky.py:30-37 | one more input row is one more pass of the loop body |
| MastoToBskyPy.WriteOutput | masto-to-bsky.py:27-37 | the output is the header followed by what the loop writes, and the error is the one the loop raises |
| MastoToBskyPy.WrittenIgnoresExcluded | masto-to-bsky.py:32-33 | excluded rows are skipped before conversion, so removing them changes neither the output nor the error |
| MastoToBskyPy.WrittenErrorIff | masto-to-bsky.py:30-37 | a `ValueError` is raised if and only if some row that is not excluded fails to convert |
| MastoToBskyPy.WrittenWithoutError | masto-to-bsky.py:30-37 | without an error, one converted row is written per row that is not excluded, in input order, each the conversion of its row |
| MastoToBskyJs.ConvertAddressFormat | masto-to-bsky.js:6-9 | the handle starts with `@` and ends with `.ap.brid.gy` |
| MastoToBskyJs.ConvertShape | masto-to-bsky.js:8 | a handle contains exactly one `@` |
| MastoToBskyJs.HandleHasOneAt | masto-to-bsky.js:8 | a handle built from `@`-free parts has exactly the one `@` it starts with |
| MastoToBskyJs.NoAtInTemplate | masto-to-bsky.js:8 | neither the suffix nor `undefined` contains an `@` |
| MastoToBskyJs.ConvertComposition | masto-to-bsky.js:7-8 | the username is the text before the first `@`, the instance runs up to the next `@`, and the rest is dropped |
| MastoToBskyJs.ConvertOneAt | masto-to-bsky.js:7-8 | `user@instance` becomes `@user.instance.ap.brid.gy` |
| MastoToBskyJs.ConvertWithoutAt | masto-to-bsky.js:7-8 | an address without `@` does not fail; its instance renders as `undefined` |
| MastoToBskyJs.ConvertLeadingAt | masto-to-bsky.js:7-8 | a leading `@` leaves an empty username, so `@x@y` becomes `@.x.ap.brid.gy` |
| MastoToBskyJs.ExcludeDomain | masto-to-bsky.js:12-14 | an address is skipped when it ends with `@bsky.brid.gy` or `@threads.net` |
| MastoToBskyJs.Conversion.constructor | masto-to-bsky.js:24 | `results` starts empty |
| MastoToBskyJs.Conversion.OnRow | masto-to-bsky.js:29-34 | an excluded row adds nothing; any other row adds its handle at the end of `results` |
| MastoToBskyJs.CollectResults | masto-to-bsky.js:27-34 | `results` holds one handle per row that is not excluded, in input order, each starting with `@` and ending with `.ap.brid.gy` |
| LinkPage.CollectUrls | linkPage.js:18-20 | exactly one URL per row, in row order |
| LinkPage.TemplateHasNoNewline | linkPage.js:23 | the fixed parts of an anchor line contain no line break |
| LinkPage.Anchor | linkPage.js:23 | the line starts with `<a href="`, ends with `</a><br>`, holds the URL right after the opening, is as long as the fixed parts plus two copies of the URL, and has a line break if and only if the URL does |
| LinkPage.AnchorLayout | linkPage.js:23 | the `target`/`rel` middle follows the first copy of the URL, and the second copy, the link text, sits right before `</a><br>` |
| LinkPage.ParseAnchor | linkPage.js:23 | whatever it recovers is a URL whose anchor line is exactly the line parsed |
| LinkPage.AnchorRoundTrip | linkPage.js:23 | every anchor line parses back to its URL |
| LinkPage.Fragment | linkPage.js:23 | the fragment is empty if and only if there are no URLs, and it starts with the first URL's line |
| LinkPage.ParseLines | linkPage.js:23 | URLs recovered from lines give back exactly those lines |
| LinkPage.ParseFragment | linkPage.js:23 | URLs recovered from a fragment serialise back to exactly that fragment |
| LinkPage.FragmentLines | linkPage.js:23 | when no URL contains a line break, the fragment splits into exactly the anchor lines and has one line break fewer than URLs, so none trails |
| LinkPage.ParseAnchors | linkPage.js:23 | the anchor lines of any URL list parse back to the list |
| LinkPage.FragmentRoundTrip | linkPage.js:23 | URLs without line breaks are recovered from their fragment |
| Variants.ExclusionNests | masto-to-bsky.js:12-14 | the two earlier scripts exclude the same addresses, and mastoToBsky.js excludes every one of them |
| Variants.BirdMakeupOnlyExcludedByLatest | mastoToBsky.js:19 | every address ending with `@bird.makeup` is excluded by mastoToBsky.js and by neither earlier script |
| Variants.PlainAddressesAgree | masto-to-bsky.py:5-7 | for a plain `user@instance`, the Python and JavaScript converters give the same handle |
| Variants.PlainAddressesAgreeWithLatest | mastoToBsky.js:10-15 | without `_` or `~`, mastoToBsky.js gives the earlier handle without its leading `@` |
| Variants.LeadingAtDiffers | masto-to-bsky.py:6 | for `@u@i`, Python gives `@u.i.ap.brid.gy`, the earlier JavaScript gives `@.u.ap.brid.gy`, and the two differ |
| Variants.MissingInstance | masto-to-bsky.js:7-8 | without an `@`, Python raises while both JavaScript converters render the instance as `undefined` |

## Left out

- **CSV and file I/O.** Reading with `csv-parser` / `csv.DictReader` and
  writing with `fast-csv` / `csv.writer` are not modelled. A row is the string
  in its `Account address` or `Profile URL` column.
- **Missing columns and inputs.** A row without that column (an `undefined`
  address, which makes the JavaScript converters throw) and the command-line
  usage checks are not modelled.
- **HTTP.** `axios.get` is not modelled. A lookup outcome is an input value
  (`Lookup`).
- **Timers and randomness.** The random 0-500 ms sleep, the `sleep` calls and
  the 100 ms `setTimeout` duration are not modelled. Delays are values in
  `Verdict` and `Check`. A timer firing is an event with no duration.
- **Retry termination.** `MastoToBsky.CheckAccountExists` consumes a given
  sequence of lookup outcomes, one per attempt. The recursion in the source
  has no bound, so the model makes no termination claim. It returns no answer
  when the outcomes run out while a retry is still pending.
- **Promise interleaving.** Which request settles when and what order events
  come in are the caller's choice of calls. Under `-c` the model records the
  order in which checks settle and claims no order of `results` beyond it.
- **The `-c` output file.** With `-c` the output file is never written,
  because the `end` handler writes only without `-c`. That is I/O apart from
  the `results` it would hold.
- **Other scripts and output.** `bskyToMasto.js` is not part of this model:
  it is file and JSON glue around a lookup stub. Also not modelled: the
  `createHTML` page wrapper, `fs.writeFile`, and every `console.log` and
  `print`.
- **Record objects.** `masto-to-bsky.js` pushes `{ 'Account address': … }`
  objects. `MastoToBskyJs.Conversion.results` holds the address strings they
  carry.
- **Timer events of a run.** `ConversionRun` has no timer event: its
  `Valid` keeps the queue idle after every row and every settled check, so
  the script never schedules a timer.

## Findings

| source | as written | input that shows it | evidently intended | confidence | as-written member | corrected member |
|---|---|---|---|---|---|---|
| mastoToBsky.js:29-48 | `processApiRequestQueue` starts the head of the queue whenever no timer is armed, and only a completion that finds the queue non-empty arms the timer. Each enqueue starts its own request at once, so the queue is always empty, the timer is never armed, and the queue paces nothing. | two rows that are not excluded, run with `-c`: both checks start immediately and no timer ever fires | consecutive requests 100 ms apart, as the comment on line 44 says, with the timer armed as each request starts | not executed | MastoToBskyRun.BurstWithoutPacing | MastoToBskyRun.PacedRequestQueue.Enqueue |
