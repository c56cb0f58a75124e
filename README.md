# sentinel-devex guards in Dafny

This project models the three developer-experience guards of the
`core-engine` package of sentinel-devex and proves what they promise.

- **SmartRateLimiter** is a per-key sliding-window admission controller.
  A key that is still blocked is rejected at once. Otherwise its
  timestamps at or before `now - windowMs` are dropped from the front.
  - A saturated window (`limit` timestamps or more) is a violation. It
    raises the key's violation count and blocks the key until
    `max(now + punishmentMs·2^(count-1), oldest + windowMs)`.
  - Any other call is admitted. It appends `now` and reports the
    remaining allowance, the reset instant and the window's count.
  - `cleanup` evicts keys whose deadline is before `now` and whose newest
    timestamp, if any, is before `now - windowMs`. This keeps a key one
    instant longer than `check`'s window and block test would: a key
    whose deadline is exactly `now`, or whose newest timestamp is exactly
    `now - windowMs`, is kept.
- **LogGuard** sits in front of `console.log`.
  - A flood check keeps the log instants of the last 60 000 ms and
    refuses a call once `maxLogsPerMinute` are held.
  - A pause latch prints one notice per run of flooded calls.
  - Accepted calls are forwarded after `sanitize`. It copies objects and
    arrays, redacts every property whose lower-cased key contains a
    lower-cased sensitive key, and replaces any object or array met a
    second time in the same call with `[Circular Reference]`.
- **GeneGuard** looks for three suspicious code patterns in a file's
  content with a hand-written substring search. It reports the first
  pattern in list order that occurs, with a one-line snippet of up to 20
  characters either side of its first occurrence.

Layout:

| file | module |
|---|---|
| `basics.dfy` | `Basics`: `Option`, `Max`, `Min` |
| `text.dfy` | `Text`: substring occurrence, ASCII lower-casing |
| `window.dfy` | `SlidingWindow`: the front-trimming loop both guards share (`DropStale`) |
| `rate_limiter.dfy` | `RateLimiter` |
| `log_guard.dfy` | `LogGuard` |
| `gene_guard.dfy` | `GeneGuard` |

How the model is built:

- Both stateful guards are classes.
  - `RateLimiter.SmartRateLimiter` holds the key-to-state `map` as a field.
  - `LogGuard.LogGuard` holds the log timestamps and the `isPaused` flag.
  - The current instant `now` is a parameter of every call that reads
    the clock. A ghost `clock` field requires it never to go backwards.
- Each method is proved equal to a specification function. `Check` is
  proved equal to `CheckKey`/`Decide`, `Cleanup` to `Sweep`, and
  `CheckFlooding` to `FloodStep`. The lemmas state the source's promises
  about those functions.
- `sanitize` threads a mutable visited set through the traversal. It is
  modelled as mutually recursive functions that return the sanitized
  value together with the visited set afterwards.
  - Objects and arrays carry a node identity `id`, so that repeated and
    circular references can be expressed over a tree.
- `containsGene` and `scanFile` are loops, modelled as methods.
  `ContainsGene` is proved equal to substring occurrence. `ScanFile` is
  proved equal to the first-hit function `Scan`.

The constructor (`SmartRateLimiter.ts:26-28`) checks nothing; the model
takes `windowMs >= 1` and `limit >= 1` as its precondition (`ValidConfig`).

## Model

| member | source | states |
|---|---|---|
| RateLimiter.Decide | packages/core-engine/src/devEx/SmartRateLimiter.ts:31-64 | defines one check on one key's state: the blocked, punished and admitted branches with the new state and the result |
| RateLimiter.CheckKey | packages/core-engine/src/devEx/SmartRateLimiter.ts:31-72 | defines `check(key)` on the whole map: the key's state (fresh when absent) is looked up, decided and stored back |
| RateLimiter.Punish | packages/core-engine/src/devEx/SmartRateLimiter.ts:75-88 | defines the state `applyPunishment` leaves: one more violation and the new block deadline |
| RateLimiter.BlockDuration | packages/core-engine/src/devEx/SmartRateLimiter.ts:79-82 | defines the block duration base·2^(v-1), or 0 when the base is not positive |
| RateLimiter.BaseBlockTime | packages/core-engine/src/devEx/SmartRateLimiter.ts:79 | defines `punishmentMs || 0` |
| RateLimiter.OldestOr | packages/core-engine/src/devEx/SmartRateLimiter.ts:55 | defines "the oldest timestamp, or `now` when there is none" |
| RateLimiter.Evictable | packages/core-engine/src/devEx/SmartRateLimiter.ts:102 | defines cleanup's eviction condition |
| RateLimiter.Sweep | packages/core-engine/src/devEx/SmartRateLimiter.ts:99-106 | defines the map cleanup leaves: the entries that are not evictable |
| SlidingWindow.DropStale | packages/core-engine/src/devEx/SmartRateLimiter.ts:42-44 | defines the shift loop that drops timestamps at or before the window start from the front (also LogGuard.ts:55-57) |
| LogGuard.FloodStep | packages/core-engine/src/devEx/LogGuard.ts:51-65 | defines `checkFlooding`: the flood flag and the log window afterwards |
| LogGuard.Latch | packages/core-engine/src/devEx/LogGuard.ts:24-35 | defines the `isPaused` latch: the new flag and whether the pause notice is printed |
| LogGuard.IsSensitive | packages/core-engine/src/devEx/LogGuard.ts:86-90 | defines a sensitive key: its lower-cased form contains some sensitive key's lower-cased form |
| Text.Lower | packages/core-engine/src/devEx/LogGuard.ts:86 | defines `toLowerCase`, on ASCII letters |
| Text.Occurs | packages/core-engine/src/devEx/LogGuard.ts:89 | defines `includes`: some start index holds a copy of the pattern |
| GeneGuard.Scan | packages/core-engine/src/devEx/GeneGuard.ts:56-66 | defines the first-hit rule of `scanFile`: the genes are tried in order and the first that occurs is reported |
| RateLimiter.Lookup | packages/core-engine/src/devEx/SmartRateLimiter.ts:67-72 | defines the value `getClientState` returns: the stored state, or a fresh one with no timestamps, no block and no violations |
| RateLimiter.Pow2 | packages/core-engine/src/devEx/SmartRateLimiter.ts:81 | defines `Math.pow(2, n)` as an integer power, at least 1 |
| RateLimiter.Run | packages/core-engine/src/devEx/SmartRateLimiter.ts:31-64 | defines successive `check` calls on one key at the given instants: the final state and the results in order |
| LogGuard.Notices | packages/core-engine/src/devEx/LogGuard.ts:24-35 | defines which of successive wrapper calls print the pause notice, one entry per call |
| GeneGuard.SuspiciousGenes | packages/core-engine/src/devEx/GeneGuard.ts:11-15 | defines the three genes in the order they are tried |
| Basics.Max | packages/core-engine/src/devEx/GeneGuard.ts:94 | defines `Math.max` on two integers |
| Basics.Min | packages/core-engine/src/devEx/GeneGuard.ts:95 | defines `Math.min` on two integers |
| Text.LowerChar | packages/core-engine/src/devEx/LogGuard.ts:86 | defines `toLowerCase` on one character, for ASCII letters |
| Text.MatchesAt | packages/core-engine/src/devEx/GeneGuard.ts:78-84 | defines "the pattern is found at start index i": the slice of the text at i equals the pattern |
| RateLimiter.BlockedRejectsUnchanged | packages/core-engine/src/devEx/SmartRateLimiter.ts:35-37 | while `now < blockedUntil` the check rejects with remaining 0, resetAt = blockedUntil and the untrimmed count, and the key's state stays exactly as it was |
| RateLimiter.TrimmedToWindow | packages/core-engine/src/devEx/SmartRateLimiter.ts:40-50 | after an unblocked check of a well-formed state the timestamps are ascending and all lie in `(now - windowMs, now]` |
| RateLimiter.DecidePreservesWellFormed | packages/core-engine/src/devEx/SmartRateLimiter.ts:40-63 | every check keeps the key's timestamps sorted, at most `limit` long and no later than `now`; the reported count is at most `limit` and remaining is never negative |
| RateLimiter.SaturatedIsViolation | packages/core-engine/src/devEx/SmartRateLimiter.ts:46-48 | a saturated window is rejected: nothing is pushed, the violation count goes up by one, blockedUntil = max(now + penalty, oldest-or-now + windowMs), and the result reports that deadline |
| RateLimiter.ViolationDeadline | packages/core-engine/src/devEx/SmartRateLimiter.ts:75-88 | a violation sets blockedUntil >= now >= the previous blockedUntil, at least the penalty P·2^(v-1) away from now (when P > 0) |
| RateLimiter.BlockedUntilMonotone | packages/core-engine/src/devEx/SmartRateLimiter.ts:85 | no check ever moves a key's block deadline backwards |
| RateLimiter.PenaltyDoubles | packages/core-engine/src/devEx/SmartRateLimiter.ts:79-82 | the first violation costs the base punishment and each further consecutive one doubles the block duration; an absent, zero or negative punishment gives 0 |
| RateLimiter.AdmissionAppendsNow | packages/core-engine/src/devEx/SmartRateLimiter.ts:50-63 | an admitted call appends `now` to the trimmed window, keeps blockedUntil, reports remaining = limit - len, total = len, resetAt = oldest + windowMs, and resets the violation count exactly when the window then holds one timestamp |
| RateLimiter.FirstCheck | packages/core-engine/src/devEx/SmartRateLimiter.test.ts:53-60 | the first check of a new key is admitted with remaining limit-1, total 1 and resetAt = now + windowMs |
| RateLimiter.BurstFrom | packages/core-engine/src/devEx/SmartRateLimiter.test.ts:16-28 | continuing a burst inside one window admits each call in turn with the next count, and accumulates the call instants |
| RateLimiter.FreshBurst | packages/core-engine/src/devEx/SmartRateLimiter.test.ts:62-71 | up to `limit` checks of a fresh key inside one window are admitted with remaining limit-1, limit-2, … and totals 1, 2, …, all with resetAt = first + windowMs |
| RateLimiter.OverLimitRejected | packages/core-engine/src/devEx/SmartRateLimiter.test.ts:30-38 | the (limit+1)-th check of a fresh key inside the window is rejected with remaining 0, total = limit and the first penalty's deadline |
| RateLimiter.ThreePerSecondScenario | packages/core-engine/src/devEx/SmartRateLimiter.test.ts:8-38 | with windowMs 1000, limit 3, punishment 500: remaining 2, 1, 0, then a rejection until t + 1000, which a later retry inside the block still reports |
| RateLimiter.KeysIndependent | packages/core-engine/src/devEx/SmartRateLimiter.ts:67-72 | a check of `key` adds at most `key` to the map and leaves every other key's entry unchanged |
| RateLimiter.OtherKeyDecisionUnaffected | packages/core-engine/src/devEx/SmartRateLimiter.test.ts:40-51 | checking one key never changes the decision another key gets next |
| RateLimiter.SweepExact | packages/core-engine/src/devEx/SmartRateLimiter.ts:99-106 | cleanup keeps a key iff it is not evictable (blockedUntil < now, and no timestamps or the newest one before now - windowMs), and keeps kept entries unchanged |
| RateLimiter.SweepKeepsActive | packages/core-engine/src/devEx/SmartRateLimiter.ts:102 | a key still blocked, or holding a timestamp inside the window, survives cleanup |
| RateLimiter.EvictionUnobservable | packages/core-engine/src/devEx/SmartRateLimiter.ts:99-106 | a later check of an evicted key gives the same decision and window it would have given on the old state, with a zero violation count |
| RateLimiter.SmartRateLimiter.constructor | packages/core-engine/src/devEx/SmartRateLimiter.ts:24-28 | a new limiter holds the configuration and an empty key map |
| RateLimiter.SmartRateLimiter.GetClientState | packages/core-engine/src/devEx/SmartRateLimiter.ts:67-72 | returns the key's state, storing a fresh one (no timestamps, not blocked, no violations) when the key is new, and changes nothing else |
| RateLimiter.SmartRateLimiter.ApplyPunishment | packages/core-engine/src/devEx/SmartRateLimiter.ts:75-88 | increments the key's violation count, sets its block deadline and returns the rejection carrying that deadline |
| RateLimiter.SmartRateLimiter.TrimWindow | packages/core-engine/src/devEx/SmartRateLimiter.ts:40-44 | the shift loop leaves exactly `DropStale` of the key's timestamps stored and changes no other key |
| RateLimiter.SmartRateLimiter.Check | packages/core-engine/src/devEx/SmartRateLimiter.ts:31-64 | the new map and the result are those of `CheckKey`; the stored states stay well formed; the count is at most `limit` and remaining is non-negative |
| RateLimiter.SmartRateLimiter.Cleanup | packages/core-engine/src/devEx/SmartRateLimiter.ts:99-106 | the deleting loop over the entries leaves exactly `Sweep` of the old map |
| SlidingWindow.DropStaleCut | packages/core-engine/src/devEx/SmartRateLimiter.ts:42-44 | trimming removes a prefix whose elements are all <= windowStart, and what remains is empty or starts after windowStart |
| SlidingWindow.DropStaleIsLongestPrefix | packages/core-engine/src/devEx/SmartRateLimiter.ts:42-44 | the removed prefix is exactly the longest one of timestamps <= windowStart |
| SlidingWindow.DropStaleSorted | packages/core-engine/src/devEx/SmartRateLimiter.ts:42-44 | on sorted input the retained timestamps stay sorted and are all > windowStart |
| SlidingWindow.DropStaleKeepsFresh | packages/core-engine/src/devEx/SmartRateLimiter.ts:42 | nothing is removed when the oldest timestamp is already inside the window |
| SlidingWindow.DropStaleAtMost | packages/core-engine/src/devEx/SmartRateLimiter.ts:42-44 | an upper bound on all timestamps survives trimming |
| SlidingWindow.AppendSorted | packages/core-engine/src/devEx/SmartRateLimiter.ts:50 | pushing an instant no earlier than every stored one keeps the window ascending |
| LogGuard.FloodStepBounded | packages/core-engine/src/devEx/LogGuard.ts:51-64 | a call is flooded iff the trimmed window holds at least maxLogsPerMinute entries; a flooded call records nothing, any other records `now`; the window never holds more than maxLogsPerMinute entries (none when it is not positive) |
| LogGuard.FloodWindowFresh | packages/core-engine/src/devEx/LogGuard.ts:52-57 | after a flood check the log window holds only instants of the last 60 000 ms, ascending |
| LogGuard.NoticeAtRunStart | packages/core-engine/src/devEx/LogGuard.ts:24-35 | over any sequence of calls, the pause notice is printed exactly at the first call of each run of flooded calls |
| LogGuard.Sanitize | packages/core-engine/src/devEx/LogGuard.ts:68-77 | the visited set only grows, and an object or array is in it afterwards |
| LogGuard.SanitizeItems | packages/core-engine/src/devEx/LogGuard.ts:79-81 | the visited set only grows, and the array keeps its length |
| LogGuard.SanitizeFields | packages/core-engine/src/devEx/LogGuard.ts:85-97 | the object keeps its keys in order, and every property with a sensitive key holds the redaction text |
| LogGuard.PrimitivesUnchanged | packages/core-engine/src/devEx/LogGuard.ts:69-71 | primitives and null come back unchanged and are not recorded as visited |
| LogGuard.VisitedBecomesMarker | packages/core-engine/src/devEx/LogGuard.ts:74-76 | an object or array already visited becomes `[Circular Reference]` |
| LogGuard.ItemsAppend | packages/core-engine/src/devEx/LogGuard.ts:80 | sanitizing a concatenation is sanitizing the first part, then the second with the visited set the first left |
| LogGuard.ItemsAt | packages/core-engine/src/devEx/LogGuard.ts:80 | element i is sanitized with exactly the visited set the elements before it left |
| LogGuard.FieldsAppend | packages/core-engine/src/devEx/LogGuard.ts:85-97 | processing properties `a + b` is processing `a`, then `b` with the visited set `a` left |
| LogGuard.FieldsAt | packages/core-engine/src/devEx/LogGuard.ts:85-97 | property i keeps its key; if sensitive it holds the redaction text and is not descended into, otherwise it is sanitized with the visited set of the properties before it |
| LogGuard.ArraySanitizedElementwise | packages/core-engine/src/devEx/LogGuard.ts:79-81 | an unvisited array is sanitized element by element, keeping length and order |
| LogGuard.ObjectSanitizedByKey | packages/core-engine/src/devEx/LogGuard.ts:83-99 | an unvisited object keeps its keys in order; a property is redacted when its key is sensitive and sanitized recursively otherwise |
| LogGuard.SharedReferenceReplaced | packages/core-engine/src/devEx/LogGuard.ts:37-39 | since one visited set serves all arguments of a call, a later argument that is a node already seen becomes the marker even when nothing is circular |
| LogGuard.SanitizeRedacts | packages/core-engine/src/devEx/LogGuard.ts:85-97 | no sensitive property survives at any depth of the output |
| LogGuard.ItemsRedact | packages/core-engine/src/devEx/LogGuard.ts:79-81 | every sanitized array element has all sensitive properties redacted at every depth |
| LogGuard.FieldsRedact | packages/core-engine/src/devEx/LogGuard.ts:85-97 | every processed property value has all sensitive properties redacted at every depth |
| LogGuard.LogGuard.constructor | packages/core-engine/src/devEx/LogGuard.ts:10-19 | a new guard holds the configuration, no log instants, and is not paused |
| LogGuard.LogGuard.CheckFlooding | packages/core-engine/src/devEx/LogGuard.ts:51-65 | the shift loop and the push leave the flag and the window of `FloodStep`, and keep the window sorted and within capacity |
| LogGuard.LogGuard.Log | packages/core-engine/src/devEx/LogGuard.ts:23-42 | the guard's clock becomes `now`, so calls can follow one another; disabled: arguments forwarded untouched; enabled: the window follows `FloodStep`, `isPaused` the latch, and the call emits the notice, nothing, or the sanitized arguments with a fresh visited set |
| GeneGuard.ContainsGene | packages/core-engine/src/devEx/GeneGuard.ts:70-90 | for a non-empty pattern the search with the first/last-character pre-check returns true iff the pattern occurs at some index; false when the pattern is longer than the text |
| GeneGuard.IndexFrom | packages/core-engine/src/devEx/GeneGuard.ts:93 | -1 iff no occurrence at or after `from`, otherwise the first index at or after `from` holding the gene |
| GeneGuard.IndexOf | packages/core-engine/src/devEx/GeneGuard.ts:93 | -1 iff the gene does not occur, otherwise the first index holding it |
| GeneGuard.ReplaceNewlines | packages/core-engine/src/devEx/GeneGuard.ts:96 | same length; every newline becomes a space and every other character is kept |
| GeneGuard.NewlineFreeUnchanged | packages/core-engine/src/devEx/GeneGuard.ts:96 | a string without newlines comes back unchanged |
| GeneGuard.ExtractSnippet | packages/core-engine/src/devEx/GeneGuard.ts:92-97 | the snippet is at most |gene| + 40 characters long and holds no newline |
| GeneGuard.SnippetAroundFirstOccurrence | packages/core-engine/src/devEx/GeneGuard.ts:92-96 | the snippet is the content window `[max(0, idx-20), min(len, idx+len(gene)+20))` around the first occurrence, newlines turned into spaces, and it contains a newline-free gene |
| GeneGuard.ScanFindsFirstGene | packages/core-engine/src/devEx/GeneGuard.ts:56-66 | no finding iff no gene occurs; otherwise the first gene in list order that occurs, with its snippet and the file path |
| GeneGuard.ScanFile | packages/core-engine/src/devEx/GeneGuard.ts:51-67 | the loop with early return gives exactly `Scan` over the gene list |
| GeneGuard.TestPayloadIndex | packages/core-engine/src/devEx/GeneGuard.test.ts:23 | the first gene occurs at index 0 of the content the detection test writes |
| GeneGuard.TestPayloadOneLine | packages/core-engine/src/devEx/GeneGuard.test.ts:23 | that content holds no newline |
| GeneGuard.TestPayloadSnippet | packages/core-engine/src/devEx/GeneGuard.test.ts:23 | its snippet is the whole content |
| GeneGuard.TestPayloadReported | packages/core-engine/src/devEx/GeneGuard.test.ts:16-31 | a file with that content is reported under its own path with marker `eval(atob(` |

## Left out

- Time: the `setInterval` cleanup timer and the `Date.now()` calls are left out. `Check`, `Cleanup`, `CheckFlooding` and `Log` take `now` as a parameter, and it must never go backwards (wall-clock milliseconds start at 0).
- `buildResult`'s `Date` wrapping is left out: `resetAt` is the instant as an integer of milliseconds.
- Arithmetic: `Math.pow` and JavaScript double arithmetic become unbounded integers, so the float rounding and overflow of a very large penalty is not modelled.
- `Decide`, `Punish`: the `timestamps[0] || now` fallback is read as "the oldest timestamp, or `now` when there is none". A stored timestamp of exactly 0, which JavaScript treats as falsy, is not modelled specially.
- RateLimiter.SmartRateLimiter.constructor: the source accepts any configuration, while the model requires `windowMs >= 1` and `limit >= 1`.
- Iteration order: `Cleanup` visits the keys in an arbitrary order rather than Map insertion order. The resulting map does not depend on the order.
- LogGuard's console work is left out: replacing and restoring the global `console.log`, the activation banner, and the `%c` styled output. `Log` returns what would reach the real console.
- LogGuard.LogGuard.Log: with `enabled` false there is no wrapper, so a call goes straight to the console. The model forwards the arguments untouched and changes no guard state; only the ghost clock moves to `now`.
- GeneGuard.IndexOf, GeneGuard.IndexFrom, GeneGuard.ExtractSnippet, GeneGuard.SnippetAroundFirstOccurrence: indices, lengths and the ±20 window count Unicode characters, while JavaScript's `indexOf`, `length` and `substring` count UTF-16 code units. Content with characters outside the Basic Multilingual Plane therefore gives a different index and snippet in the source, whose window edge can even split a surrogate pair. The scan decision itself does not depend on this, because every gene is ASCII.
- Text.Lower, Text.LowerChar, LogGuard.IsSensitive: `toLowerCase` is modelled for ASCII letters only. Unicode case mapping is not modelled.
- Logged values: numbers are integers. Functions, symbols and bigints are one opaque `Other` kind. Only own enumerable string keys, in enumeration order, are modelled.
- LogGuard.SanitizeRedacts: the promise covers string-keyed properties only. The source's shallow copy `{...input}` also copies own enumerable symbol-keyed properties, but its `Object.keys` loop skips them, so their values (and any sensitive fields inside them) reach the console unsanitized; symbol keys are not modelled.
- Mutation of the logged input is not modelled, because values are immutable in the model and `sanitize` builds new values. The source gives the same guarantee by copying before it writes.
- The `WeakSet` is an abstract set of node identities.
- `GeneGuard.run` is left out: directory traversal, `statSync`/`readdirSync`, the `.js` filter, skipping `.git`/`.bin`, swallowing errors, and `readFileSync` are filesystem I/O. `ScanFile` takes the path and the content.
- GeneGuard.ContainsGene: the empty-pattern behaviour depends on JavaScript's `undefined` indexing and is not modelled. The method requires a non-empty pattern, which every gene in the fixed list is.
- The example Express middleware, the CLI scripts, the dashboard, and the lint and build configuration are presentation, I/O and configuration, and are not part of this model.
