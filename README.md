# The `/pai` plugin and its pi worker, in Dafny

This project models the core of a chat-bot plugin, `/pai`. A group member
sends `/pai 14159`. The command is meant to find that digit string in the
decimal expansion of pi, but the plugin's digit source does not deliver
that expansion. For position n it takes a floating-point partial sum x of
the BBP series for pi and yields `Math.floor(16 * (x - Math.floor(x))) % 10`
(pai.plugin.js:51-57). The bot reports the position when it finds one.
`/pai` on its own asks for the status of the current task.

Tasks live in the `ririra_pai` table. Every start adds a new row for the
caller. The caller's row with status 0 or 1 that `findOne` returns, if
any, stays in the table, marked superseded (status -1). A caller therefore collects one
row per start; `StaleSaveRevives` shows that not even "one row with status
0 or 1 per caller" is kept.

There are two search engines:

- `pi-worker.js` computes pi with Machin's formula over arbitrary-precision
  decimals (`computePi`). `findInPi` searches the resulting digit string in
  chunks of 10000 and posts a progress message at most once a minute.
- `pai.plugin.js` has its own `slowFindInPi`. It produces digits in batches
  of 1000, appends each batch to the string built so far, searches that
  whole string and reports progress after every batch. The plugin's handler
  parses the message, supersedes the caller's previous task, creates the
  new record, and launches the search without waiting for it. The search
  then updates its copy of the record on every progress callback and at
  the end.

The modules:

- `Text` (`text.dfy`): the JavaScript string operations both files rely on:
  `trim`, `split(/\s+/)[0]`, `indexOf`, `slice`.
- `Series` (`series.dfy`): the arctangent series and Machin's formula over
  exact reals, with the alternating-series bounds.
- `FixedPoint` (`fixed.dfy`): `toFixed(d)` with the point removed, for
  non-negative values.
- `PiWorker` (`pi_worker.dfy`): `computePi`, `findInPi` and its progress
  messages, plus two defects of the worker and their corrections.
- `PaiPlugin` (`pai_plugin.dfy`):
  - command parsing;
  - the record table and the handler;
  - the background search's record updates;
  - `slowFindInPi` over an abstract digit source;
  - a defect in how the background search saves its record, and its
    correction.

Clock readings are parameters: `now`, or a `clock` function indexed by
the number of the reading. The digit sources are parameters too. Loops
the source runs forever take a bound (`maxChunks`, `maxDigits`).

## Model

| member | source | states |
|---|---|---|
| Text.Trim | pai.plugin.js:84 | `trim` returns a contiguous middle part of the string; everything removed before and after it is white space; the result neither starts nor ends with white space |
| Text.FirstField | pai.plugin.js:91-92 | `split(/\s+/)[0]` is the longest prefix without white space: it is followed by white space or by the end of the string |
| Text.IndexFromFirst | pi-worker.js:41 | the search from index `from` stops at the first occurrence at or after `from`, and gives -1 exactly when there is none |
| Text.IndexOf | pi-worker.js:41 | `indexOf` returns -1 or an index; `Text.IndexOfFirst` proves it is the first occurrence, and -1 exactly when there is none |
| Text.IndexOfFirst | pi-worker.js:41 | `indexOf` returns the first index where the target occurs, and -1 exactly when it occurs nowhere |
| Text.OccursInDrop | pi-worker.js:40-42 | an occurrence inside a slice is an occurrence in the whole string, shifted by where the slice starts |
| Text.Prefix | pai.plugin.js:43-60 | the accumulated `piDigits` after `n` characters: length `n`, character `k` is the `k`-th one produced |
| Text.OccursInPrefix | pai.plugin.js:60-61 | the target occurs in the first `n` characters at `q` exactly when it occurs in the stream at `q` and ends within `n` |
| Series.ArctanSeries | pi-worker.js:16-25 | the alternating partial sum the loop accumulates; `Series.ArctanTailBounds` and `Series.ArctanTruncation` bound how far it is from every longer partial sum |
| Series.Machin | pi-worker.js:27-29 | `4 * (4 * arctan(1/5) - arctan(1/239))` with both series cut after the same number of terms; `Series.MachinRange` and `Series.MachinTruncation` state its range and convergence |
| Series.TermDecreasing | pi-worker.js:20-22 | for 0 <= x <= 1 the terms `xPow / (2n+1)` are non-negative and do not grow |
| Series.TermRatio | pi-worker.js:20-22 | each term is at most x^2 times the previous one |
| Series.ArctanTailBounds | pi-worker.js:16-25 | any longer partial sum lies between the `n`-term sum and that sum moved one term towards the limit, on the side set by the parity of `n` |
| Series.ArctanTruncation | pi-worker.js:16-25 | adding terms moves the partial sum by at most the first term left out |
| Series.MachinRange | pi-worker.js:27-29 | with at least two terms, `4 * (4 * arctan(1/5) - arctan(1/239))` lies in (3.14, 3.142) |
| Series.MachinTruncation | pi-worker.js:14-29 | two Machin partial sums differ by at most 20 times the first omitted term of arctan(1/5) |
| FixedPoint.NatString | pi-worker.js:30 | the integer part as a numeral: at least one digit, no leading zero, and its value is `n` |
| FixedPoint.FixedDigits | pi-worker.js:30 | the fraction part: exactly `k` digits, and their value is `m` when `m < 10^k` |
| FixedPoint.ScaledRound | pi-worker.js:30 | rounding half-up at `d` places: the result `n` satisfies n <= v * 10^d + 0.5 < n + 1 |
| FixedPoint.FixedString | pi-worker.js:30 | integer part followed by exactly `d` fraction digits, with no extra leading zero; read as one numeral it equals `n` |
| FixedPoint.ToFixed | pi-worker.js:30 | `v.toFixed(d).replace('.', '')` has at least d + 1 digits and no leading zero beyond the units digit, and its value is `v` rounded half-up at `d` places and scaled by 10^d |
| FixedPoint.ToFixedShape | pi-worker.js:30 | a value in [3, 3.5), the range `MachinRange` gives every rendered Machin sum, renders as '3' followed by exactly `d` digits |
| FixedPoint.ScaledRoundGap | pi-worker.js:30 | values whose scaled difference is at least gap + 1 round more than `gap` apart |
| FixedPoint.ScaledRoundNear | pi-worker.js:30 | values whose scaled difference is at most 0.4 round at most one apart |
| PiWorker.Terms | pi-worker.js:14 | `Math.ceil(digits / 14) + 10`, stated by the bounds 14 (t - 11) < digits <= 14 (t - 10) |
| PiWorker.TermsMonotone | pi-worker.js:14 | more digits never use fewer terms |
| PiWorker.Arctan | pi-worker.js:16-25 | the loop returns the alternating partial sum of the first `terms` terms |
| PiWorker.PiString | pi-worker.js:11-31 | the string `computePi(digits)` returns: digits + 1 decimal digits, with index 0 holding '3' |
| PiWorker.PiStringValue | pi-worker.js:27-30 | read as one numeral, that string is Machin's partial sum rounded half-up at `digits` places |
| PiWorker.ComputePi | pi-worker.js:11-31 | the method computes exactly that string, digits + 1 long, starting with '3' |
| PiWorker.Window | pi-worker.js:40 | `computePi(position + chunkSize).slice(position)`; `PiWorker.WindowOccurs` relates its occurrences to the digit stream and `PiWorker.ChunkBoundaryMiss` shows what it misses |
| PiWorker.LeadingMisses | pi-worker.js:39-43 | the number of leading chunks without a match: every earlier chunk misses and, below the bound, chunk `k` matches |
| PiWorker.LeadingMissesUnique | pi-worker.js:39-43 | those two facts determine that number |
| PiWorker.FindInPi | pi-worker.js:33-58 | returns `position + idx + 1` for the first chunk whose window holds the target, with `idx` the first index in that window, or None past the bound; the progress messages are those of the chunks searched before |
| PiWorker.ChunkMatchLocates | pi-worker.js:40-42 | a match in a chunk window is an occurrence in the whole string at one less than the returned value, counted from the leading '3' |
| PiWorker.LastReport | pi-worker.js:37-54 | `lastReportTime` after `m` missed chunks; `PiWorker.ReportsTiming` proves it is the time of the last message |
| PiWorker.Reports | pi-worker.js:43-55 | the progress messages of the first `m` missed chunks; `PiWorker.ReportsWhere`, `PiWorker.ReportsTiming` and `PiWorker.ReportsSpacing` state their positions and spacing |
| PiWorker.ReportsWhere | pi-worker.js:43-55 | at most one message per missed chunk; each `where` is a positive multiple of 10000 no larger than the position reached; the `where` values strictly increase |
| PiWorker.ReportsTiming | pi-worker.js:45-55 | `lastReportTime` is the time of the last message; each message's seconds are at least 60 more than the previous one's; if the clock did not run backwards at the start, the first message comes at 60 s or later |
| PiWorker.ReportsSpacing | pi-worker.js:43-55 | the combined rate-limit and position guarantees of the progress messages |
| PiWorker.ChunkBoundaryMiss | pi-worker.js:40 | on a digit string with "123" at index 9999, that occurrence lies in no window, so no chunk matches within any bound |
| PiWorker.OverlapExtra | pi-worker.js:40 | the corrected window reach: a target of length n fits into it when it starts inside the chunk |
| PiWorker.WindowOccurs | pi-worker.js:40 | over a digit stream, an occurrence at `j` in a window is a stream occurrence at the window start plus `j`, and exactly those fit |
| PiWorker.MissedChunkHasNone | pi-worker.js:40 | with the corrected reach, a chunk whose window misses has no occurrence starting inside it |
| PiWorker.MissedChunksHaveNone | pi-worker.js:39-43 | with the corrected reach, no occurrence starts in the stream before the first chunk whose window matches |
| PiWorker.WindowFirst | pi-worker.js:40-42 | when nothing occurs before a window's start, the index `indexOf` finds in that window gives the first occurrence in the stream |
| PiWorker.MatchedChunkFirst | pi-worker.js:39-43 | with the corrected reach, the first matching chunk's start plus the index found in its window is the first occurrence in the stream |
| PiWorker.OverlapFindsFirst | pi-worker.js:39-43 | with the corrected reach, the chunk search returns the first occurrence in the stream, and a miss on every chunk means no occurrence before the bound |
| PiWorker.MachinGap | pi-worker.js:14-29 | past `n` terms, Machin's sums move at least 11 times term `n` of arctan(1/5) away from the `n`-term sum |
| PiWorker.ScaledRoundApart | pi-worker.js:30 | values (gap + 1) * 10^(-d) apart round more than `gap` apart |
| PiWorker.TooFewTermsGap | pi-worker.js:14-29 | when term `t` of arctan(1/5) is worth at least 40 units of the `d`-th place, every longer Machin sum is at least 401 such units away from the `t`-term sum |
| PiWorker.RenderedApart | pi-worker.js:14-30 | under that condition the two sums, rendered at `d` places, are more than 400 units apart |
| PiWorker.TooFewTerms | pi-worker.js:14 | when the first omitted term is worth at least 40 units of the last place, every longer partial sum, and so pi, renders more than 400 units away from the returned string |
| PiWorker.TooFewTermsAt28 | pi-worker.js:14 | `digits` = 28 uses 12 terms and meets that condition |
| PiWorker.AccurateTerms | pi-worker.js:14 | the corrected term count: a multiple of 3, with 4/3 of it at least digits + 1 |
| PiWorker.TermByThrees | pi-worker.js:14-22 | term 3k of arctan(1/5) is at most 0.2 * 10^(-4k) |
| PiWorker.AccurateTermsBound | pi-worker.js:14 | with the corrected count, every longer partial sum is within 0.4 * 10^(-digits) of the rendered one |
| PiWorker.AccuratePiString | pi-worker.js:11-31 | the corrected rendering: digits + 1 digits, starting with '3' |
| PiWorker.RoundedNear | pi-worker.js:30 | values at most 0.4 * 10^(-d) apart round at most one apart |
| PiWorker.AccurateRendering | pi-worker.js:14 | with the corrected count, the rendered string is within one unit of the last place of every longer partial sum |
| PaiPlugin.FirstPaiFrom | pai.plugin.js:91 | the lazy `.*?` stops at the first "/pai" at or after `k` with no line terminator before it; None exactly when every "/pai" after `k` has a line terminator before it |
| PaiPlugin.StripThroughPai | pai.plugin.js:91 | `replace(/^.*?\/pai/, '')` returns a suffix of the content, and the text after "/pai" when the content starts with it |
| PaiPlugin.TrimEmpty | pai.plugin.js:91-94 | the trimmed remainder is empty exactly when it was all white space |
| PaiPlugin.ParseCommand | pai.plugin.js:84-94 | not a command exactly when the trimmed content does not start with "/pai"; a query exactly when only white space follows; otherwise the target is the first non-empty field after "/pai", with no check for digits |
| PaiPlugin.FirstActive | pai.plugin.js:96 | the lowest id in range whose row matches uid, gid and status 0 or 1, and None only when no row there matches |
| PaiPlugin.FindOne | pai.plugin.js:107 | `findOne` returns a stored row that matches, exactly when one exists, and the one with the lowest id |
| PaiPlugin.StartTask | pai.plugin.js:105-122 | the table after a new search; `PaiPlugin.StartTaskEffect`, `PaiPlugin.StartLeavesOneActive` and `PaiPlugin.QueryAfterStart` state its rows |
| PaiPlugin.StartTaskEffect | pai.plugin.js:105-122 | a start adds one row under a fresh id (caller's uid and gid, target, counters 0, status 1); the row `findOne` found gets status -1 with every other field kept; all other rows are unchanged |
| PaiPlugin.StartLeavesOneActive | pai.plugin.js:105-122 | when the caller had at most one row with status 0 or 1, after a start the new row is the caller's only row with status 0 or 1; other callers' rows keep their state |
| PaiPlugin.QueryAfterStart | pai.plugin.js:94-122 | when the caller had at most one row with status 0 or 1, a status query right after a start finds the new record (`StaleSaveRevives` shows the source does not keep that condition) |
| PaiPlugin.QueryReplyShowsTask | pai.plugin.js:94-103 | when the caller has at most one row with status 0 or 1, the query shows a task exactly when the caller has a row with status 0 or 1 and a non-empty target, and then shows that row's target, `find_where` and `find_secord` |
| PaiPlugin.QueryReply | pai.plugin.js:97-101 | the reply to an empty `/pai`; `PaiPlugin.QueryReplyShowsTask` states when it shows a task and what it shows |
| PaiPlugin.ProgressUpdate | pai.plugin.js:131-132 | the copy after a progress callback; `PaiPlugin.SearchTask.OnProgress` and `PaiPlugin.StaleSaveRevives` state its effect on the table |
| PaiPlugin.PaiRepository.constructor | entity/ririra.pai.js:3-35 | the table starts empty, and the `increment` id column hands out 1 first |
| PaiPlugin.PaiRepository.Save | pai.plugin.js:110 | `save` of a stored record replaces that whole row and keeps the table well formed |
| PaiPlugin.PaiRepository.Insert | pai.plugin.js:113-122 | `create` then `save`: the new record takes the next id, and the row holds exactly that record |
| PaiPlugin.HandleGroupAtMessage | pai.plugin.js:83-124 | non-commands change nothing and get no reply; a query changes nothing and replies with the found row; a start supersedes the found row, inserts the new one, replies "started" and hands the new record to the search |
| PaiPlugin.SearchTask.constructor | pai.plugin.js:127-128 | the search holds the new record and its start time |
| PaiPlugin.SearchTask.OnProgress | pai.plugin.js:129-137 | the copy's `find_where` becomes the progress and `find_secord` the whole seconds elapsed; status and target are kept; the whole copy is saved; `nextId` is left alone for a record whose id was already handed out |
| PaiPlugin.SearchTask.Complete | pai.plugin.js:139-149 | `find_where` becomes the position or 0, `find_secord` the total seconds, status 0; the copy is saved; a reply is sent exactly when the position is non-zero; `nextId` is left alone for a record whose id was already handed out |
| PaiPlugin.StaleSaveRevives | pai.plugin.js:107-133 | after a second start, the superseded search's next progress save restores its status-1 row: the caller then has two active rows, and a query reports the old search |
| PaiPlugin.GuardedSave | pai.plugin.js:129-133 | the corrected save, which writes only while the stored row is still status 0 or 1; `PaiPlugin.GuardedSaveKeepsOneActive` and `PaiPlugin.GuardedStaleSaveIgnored` state what it preserves |
| PaiPlugin.GuardedSaveKeepsOneActive | pai.plugin.js:129-133 | a save that writes only while the stored row is still status 0 or 1 keeps at most one such row per caller |
| PaiPlugin.GuardedStaleSaveIgnored | pai.plugin.js:107-133 | with that guard, the stale save changes nothing and a query reports the new search |
| PaiPlugin.MissInPrefix | pai.plugin.js:61 | `indexOf` returning -1 on the first `n` characters means no occurrence lies within them |
| PaiPlugin.HitInBatch | pai.plugin.js:60-64 | a hit after the first `i` characters held none is the first occurrence in the stream, and it ends inside the batch just appended |
| PaiPlugin.PrefixAppend | pai.plugin.js:60 | appending the batch read at `i` to the first `i` characters gives the first i + 1000 |
| PaiPlugin.Milestones | pai.plugin.js:66 | the values passed to `onProgress`: 1000, 2000, ..., n * 1000 |
| PaiPlugin.ReadBatch | pai.plugin.js:48-58 | the inner loop yields the 1000 characters at positions i, i + 1, ... |
| PaiPlugin.BatchStep | pai.plugin.js:47-66 | one batch either finds the first occurrence or extends the stretch known to hold none by 1000 |
| PaiPlugin.SlowFindInPi | pai.plugin.js:33-71 | returns 1 + the index of the first occurrence of the target in the stream, including one that straddles two batches, with one progress value per earlier batch; past the bound it returns None, and then no occurrence lies within the digits read |

## Left out

- The digits `slowFindInPi` produces (pai.plugin.js:35-57) are a parameter, `digit(n)`. They come from floating-point BBP sums whose hexadecimal digit is taken modulo 10. The model makes no claim about which digits they are, nor that they are digits of pi.
- PiWorker.Arctan: uses exact real arithmetic. decimal.js rounds every division and product to the precision set at pi-worker.js:5 (10000 significant digits). The model does not capture that rounding error, so it does not capture what happens past about 10000 digits either.
- FixedPoint.ToFixed: `toFixed` is modelled with decimal.js's default rounding mode, half-up, for non-negative values only. Negative values never reach it.
- `sleep` and the event-loop yields (pi-worker.js:7-9, 56; pai.plugin.js:22-24, 67) are left out: they change only timing.
- `parentPort.postMessage` and `workerData` (pi-worker.js:48-53, 60-64) are left out. `FindInPi` takes the target as an argument and returns its result and its progress messages as values. The plugin never starts the worker: the two searches are independent.
- Only one interleaving of the handler and the fire-and-forget search (pai.plugin.js:127-150) is modelled: a second start followed by the first search's save (`StaleSaveRevives`). `SearchTask` methods may be called in any order; the model does not represent concurrency itself.
- TypeORM is modelled as an in-memory map from id to row: `db.getRepository`, `findOne`, `create`, `save` and the generated id. `findOne` has no ORDER BY; the model takes the row with the lowest id. Database failures are not modelled.
- `ctx.reply` texts become `Reply` values that carry the same fields. `logger.debug` (pai.plugin.js:134-136), reading `package.json` (pai.plugin.js:15-17) and the event-bus registration are left out.
- `Date.now()` and `new Date()` become the `now` parameter or the `clock` function. `created_at` is a number.
- FindInPi: `while (true)` becomes a bound `maxChunks`. The None result only means "no match within the bound".
- PaiPlugin.SlowFindInPi: `maxDigits = Infinity` becomes a parameter. The None result only means "no match before the bound".
- `if (onProgress)` (pai.plugin.js:66) always calls the callback, because the handler always passes one.
- The message payload (`ctx.payload.d`) becomes the `raw`, `uid` and `gid` parameters.
- JavaScript strings are sequences of UTF-16 code units; the model uses sequences of Dafny `char`, which is a Unicode scalar value. Lone surrogates cannot be represented, and a character outside the Basic Multilingual Plane is one element instead of two, so `trim`, `indexOf` and `slice` indices differ from JavaScript's on such text.

## Findings

| source | as written | input that shows it | evidently intended | confidence | as-written member | corrected member |
|---|---|---|---|---|---|---|
| pi-worker.js:14 | `terms = Math.ceil(digits / 14) + 10`. Each term of arctan(1/5) adds only about 1.4 digits, so the number of terms is about ten times too small. | `computePi(28)` uses 12 terms. The 13th term of arctan(1/5), (1/5)^25 / 25, is worth about 1.3 * 10^9 units of the 28th place (the proof uses only that it is at least 40), so the returned string is more than 400 units of the last place away from pi rounded to 28 places. | enough terms for `digits` correct places, e.g. 3 * ceil((digits + 1) / 4) | not executed | PiWorker.TooFewTerms | PiWorker.AccurateRendering |
| pi-worker.js:40 | The window for the chunk at `position` is `computePi(position + chunkSize).slice(position)`: chunkSize + 1 characters. The next window starts one character before this one ends. | Any target of 3 or more digits whose first occurrence starts at the last index of a chunk, e.g. "123" at indices 9999-10001, is in no window. That occurrence is skipped. With no later occurrence the search never returns. | windows that reach `target.length - 1` characters past the chunk, so that every occurrence starting in a chunk is found | not executed | PiWorker.ChunkBoundaryMiss | PiWorker.OverlapFindsFirst |
| pai.plugin.js:107-133 | A new `/pai <target>` sets the previous row's status to -1. The previous search keeps its own copy with status 1 and saves it whole on every progress callback. | `/pai 1` then `/pai 2` before the first search ends: the first search's next `onProgress` writes status 1 back. The caller then has two active rows, and `/pai` reports the old search. | a superseded search stops writing its row, so the caller keeps one active row | not executed | PaiPlugin.StaleSaveRevives | PaiPlugin.GuardedStaleSaveIgnored |

The model keeps the source's behaviour in `ComputePi`, `FindInPi` and
`SearchTask.OnProgress`. The corrected definitions sit beside them:
`AccurateTerms`/`AccuratePiString`, the `OverlapExtra` window reach, and
`GuardedSave`.
