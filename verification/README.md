# Mock RTB bidder: per-request decision logic

A Dafny model of the `/bid` handler of the Node mock bidder (`node-bidder/bidder.js`).
For each bid request the handler:

- keeps the first 8192 bytes of the body;
- sniffs the deadline `tmax` and the correlation `id` out of that prefix with two regular expressions;
- decides a response delay that is on time or deliberately late;
- waits that long (up to Node's timer limit);
- then, if the client has not gone away and nothing has been sent yet, answers with a synthetic JSON payload, gzip-compressed when that is negotiated.

Modules:

- `JsMath`: `Math.max`, and the draw `Math.floor(Math.random() * n)` as `Scale` over a `Unit` real in [0, 1).
- `Wrappers`: `Option`.
- `Config`: the tuning knobs as one immutable `Tuning` record, with the defaults 120 / 3 / 0.20 / unset / 2048 / unset.
- `PrefixBuffer`: the `data`-event fold that keeps at most 8192 bytes.
- `DeadlineSniffer`: the two patterns. Each has a relational reference definition (`TmaxMatchAt`, `IdMatchAt`) and a deterministic matcher proved equal to it. There is also the leftmost search `exec` performs, and `parseInt` on a digit run.
- `DelayPolicy`: the late / on-time decision, with its two random draws as inputs.
- `ResponseEncoder`: the payload record and the gzip-or-plain choice. Compression is an opaque `Compressed(bytes) | CompressFailed` outcome.
- `RequestLifecycle`: one request as a state machine over the events `Data`, `End`, `ClientAborted`, `ResponseDestroyed`, `TimerFires` and `GzipDone`. `sent` records every response handed to the framework.

Three points of the code's behaviour, stated exactly:

- The code has no "effective minimum" shrink of the minimum delay. The late branch is forced exactly when `max(0, tmax - headroom) <= minDelay`.
- A late delay is bounded by `max(minDelay, tmax + 1) + max(1, lateSpan) - 1` and not by `tmax + lateSpan`. The two differ when `minDelay > tmax + 1`, or when LATE_SPAN_MS is below 1.
- The code extracts the id from the buffered prefix only when the timer fires, not when the body ends. Both use the same text.

## Model

| member | source | states |
|---|---|---|
| PrefixBuffer.BufferedIsCappedConcat | node-bidder/bidder.js:13-18 | folding every chunk through the 8192-byte guard keeps exactly the first 8192 bytes of the concatenated body |
| PrefixBuffer.BufferedBounds | node-bidder/bidder.js:13-18 | the kept prefix is at most 8192 bytes, is a prefix of all bytes received, equals them when they total at most 8192, and is full once 8192 have arrived |
| PrefixBuffer.BufferedSaturates | node-bidder/bidder.js:15-16 | once 8192 bytes are held, a further chunk leaves the buffer unchanged |
| PrefixBuffer.Absorb | node-bidder/bidder.js:15-16 | one `data` event on a buffer of at most 8192 bytes extends the held bytes, stays a prefix of held + chunk, and has length min(8192, held + chunk) |
| PrefixBuffer.Take | node-bidder/bidder.js:16 | `.slice(0, 8192)` keeps a prefix: all of a short input, exactly 8192 elements of a longer one |
| DeadlineSniffer.RunEnd | node-bidder/bidder.js:26 | a greedy `\s*`, `\d+` or `[^"]*` run ends at the first character outside the class (or the end), and covers only class characters |
| DeadlineSniffer.MatchTmaxAt | node-bidder/bidder.js:26 | whenever the matcher reports a capture at a position, the pattern `"tmax"\s*:\s*(\d+)` matches there with that maximal digit run as group 1 |
| DeadlineSniffer.MatchTmaxAtComplete | node-bidder/bidder.js:26 | wherever the tmax pattern matches, the matcher reports that same capture, so matcher and pattern agree in both directions |
| DeadlineSniffer.MatchIdAt | node-bidder/bidder.js:56 | whenever the matcher reports a capture, `"id"\s*:\s*"([^"]*)"` matches there with that group 1, and the capture holds no quote |
| DeadlineSniffer.MatchIdAtComplete | node-bidder/bidder.js:56 | wherever the id pattern matches, the matcher reports that same capture |
| DeadlineSniffer.Leftmost | node-bidder/bidder.js:26 | `exec` reports the first position where the whole pattern matches; no earlier position matches, and if nothing is reported, no position matches |
| DeadlineSniffer.SniffTmax | node-bidder/bidder.js:24-27 | the sniffed deadline is always at least 1 |
| DeadlineSniffer.SniffTmaxLeftmost | node-bidder/bidder.js:24-27 | with the leftmost tmax match having digits d, the deadline is the decimal value of d, or 300 when d reads as zero (`\|\| 300`); non-digit values at earlier keys are skipped |
| DeadlineSniffer.SniffTmaxNoMatch | node-bidder/bidder.js:24-27 | with no tmax match anywhere in the prefix, the deadline is 300 |
| DeadlineSniffer.SniffId | node-bidder/bidder.js:56 | the sniffed id never contains a `"` |
| DeadlineSniffer.SniffIdLeftmost | node-bidder/bidder.js:56 | the sniffed id is group 1 of the leftmost id match |
| DeadlineSniffer.SniffIdNoMatch | node-bidder/bidder.js:56 | with no id match anywhere in the prefix, the id is `""` |
| DeadlineSniffer.DecimalValue | node-bidder/bidder.js:27 | `parseInt(d, 10)` of a digit run is below 10^\|d\|, and at least 10^(\|d\|-1) when the run has no leading zero |
| DeadlineSniffer.DecimalCanonical | node-bidder/bidder.js:27 | printing the parsed value of a digit run without a leading zero gives back the run, so parsing loses nothing on such runs |
| DeadlineSniffer.DecimalText | node-bidder/bidder.js:27 | the decimal text of a number is a non-empty digit run, the shape group 1 of the tmax pattern captures |
| DeadlineSniffer.DecimalRoundTrip | node-bidder/bidder.js:27 | `parseInt(·, 10)` of a number's decimal text gives back the number |
| DeadlineSniffer.DecimalZeroIff | node-bidder/bidder.js:27 | a digit run parses to 0 exactly when every digit is `0`, which is when the `\|\| 300` fallback applies |
| DeadlineSniffer.SniffIdRoundTrip | node-bidder/bidder.js:56 | the body `{"id":"<id>","tmax":<n>}` yields exactly `<id>` for any id without quotes |
| DeadlineSniffer.SniffTmaxRoundTrip | node-bidder/bidder.js:24-27 | the body `{"id":"<id>","tmax":<n>}` yields exactly n for every n >= 1, even when the id itself spells `tmax` |
| JsMath.Max | node-bidder/bidder.js:27 | `Math.max` is an upper bound of both arguments and equals one of them |
| JsMath.Scale | node-bidder/bidder.js:46 | `Math.floor(Math.random() * n)` lies in [0, n) for n >= 1 |
| JsMath.ScaleOnto | node-bidder/bidder.js:49 | every index in [0, n) is produced by some draw |
| DelayPolicy.GoesLate | node-bidder/bidder.js:39-44 | the late branch is taken exactly when the roll is below the late fraction or tmax <= minDelay + headroom, i.e. no on-time delay exceeds the minimum |
| DelayPolicy.Decide | node-bidder/bidder.js:38-50 | a late delay lies in [max(minDelay, tmax+1), that + max(1, lateSpan) - 1]; an on-time delay lies in [minDelay, max(0, tmax - headroom)] |
| DelayPolicy.DecideAdmissible | node-bidder/bidder.js:39-49 | every decision obeys the branch rule (late iff roll < lateFraction or maxOnTime <= minDelay) and its branch's interval, so an on-time delay is at most tmax - headroom |
| DelayPolicy.AdmissibleReachable | node-bidder/bidder.js:43-49 | every delay of either interval is the outcome of some draw |
| DelayPolicy.LateIffPastDeadline | node-bidder/bidder.js:39-49 | a decision is flagged late exactly when its delay exceeds tmax |
| DelayPolicy.ForcedLate | node-bidder/bidder.js:40-46 | when maxOnTime <= minDelay the decision is late whatever the roll, and its delay exceeds tmax |
| DelayPolicy.DefaultSpread | node-bidder/bidder.js:34-46 | with LATE_SPAN_MS unset, a late delay is at most max(minDelay, tmax+1) + max(20, floor(tmax/2)) - 1 |
| DelayPolicy.TinyDeadlineIsLate | node-bidder/bidder.js:31-46 | under the default knobs a 1 ms deadline is always answered late, after at least 120 ms |
| ResponseEncoder.Repeat | node-bidder/bidder.js:61 | `"x".repeat(n)` has length n and only `x` characters |
| ResponseEncoder.MakePayload | node-bidder/bidder.js:55-62 | the payload carries the sniffed id, upstream `node`, the given timestamp, took_ms = delay, echo_tmax = tmax and a blob of BLOB_BYTES `x` characters |
| ResponseEncoder.ContainsFrom | node-bidder/bidder.js:66 | `includes` is true exactly when the needle occurs at some position |
| ResponseEncoder.WantsGzip | node-bidder/bidder.js:65-66 | compression is attempted exactly when GZIP is `"1"` and the accept-encoding header is present and has `gzip` at some position |
| ResponseEncoder.AfterCompression | node-bidder/bidder.js:70-79 | the compression callback answers 200 JSON, gzip-encoded exactly when compression succeeded, and the plain payload on an error |
| ResponseEncoder.Encode | node-bidder/bidder.js:64-82 | the response is always 200 `application/json`; it is gzip-encoded exactly when GZIP is `"1"`, accept-encoding contains `gzip` and compression succeeded; otherwise its body is the plain payload |
| ResponseEncoder.GzipOnlyWhenNegotiated | node-bidder/bidder.js:65-77 | a gzip response implies GZIP is `"1"` and the request's accept-encoding header is present and contains `gzip` |
| RequestLifecycle.AsText | node-bidder/bidder.js:21 | the prefix is read as text one character per byte, preserving every byte's value |
| RequestLifecycle.OnEnd | node-bidder/bidder.js:20-50 | at body end the request starts waiting with a deadline of at least 1 and an admissible decision for it; flags, prefix and responses are untouched |
| RequestLifecycle.OnTimer | node-bidder/bidder.js:52-82 | a timer firing with a flag set writes nothing; with none set it hands out exactly one plain response carrying the decided delay and the deadline (after which the guard fails), or starts compressing that payload |
| RequestLifecycle.OnGzipDone | node-bidder/bidder.js:70-79 | the corrected compression callback hands out the compressed or fallback response only while the guard passes, and nothing otherwise (see Findings) |
| RequestLifecycle.OnGzipDoneAsWritten | node-bidder/bidder.js:70-79 | the compression callback as written hands out the compressed or fallback response whatever the flags |
| RequestLifecycle.Step | node-bidder/bidder.js:9-83 | one event (with the corrected compression callback): only an abort sets `aborted`, responses are only appended and at most one per event, and a failed guard stays failed with nothing handed out |
| RequestLifecycle.StepAsWritten | node-bidder/bidder.js:9-83 | one event of the handler as written: it equals `Step` except on a compression result arriving after the guard failed, and away from a pending compression a failed guard still silences it |
| RequestLifecycle.AtMostOneResponse | node-bidder/bidder.js:52-81 | with the corrected compression callback, whatever events arrive, at most one response is handed out, and only after the handler has finished |
| RequestLifecycle.AtMostOneResponseAsWritten | node-bidder/bidder.js:52-81 | the handler as written also hands out at most one response, whatever events arrive |
| RequestLifecycle.GuardedStaysSilentAsWritten | node-bidder/bidder.js:52-53 | in the handler as written, once a guard flag is set outside a pending compression, no further response is handed out |
| RequestLifecycle.GuardedStaysSilent | node-bidder/bidder.js:52-53 | with the corrected compression callback (see Findings), once aborted, headersSent, writableEnded or destroyed is set, it stays set and no further response is handed out |
| RequestLifecycle.NoWriteAfterAbort | node-bidder/bidder.js:9-53 | with the corrected compression callback (see Findings), the responses handed out over any event sequence are those handed out before its first client abort |
| RequestLifecycle.SecondAttemptSuppressed | node-bidder/bidder.js:53 | after one response has been handed out, no later event hands out another |
| RequestLifecycle.RunDataBuffers | node-bidder/bidder.js:13-18 | the data events of a fresh request leave exactly the buffered prefix of its chunks |
| RequestLifecycle.EndThenFire | node-bidder/bidder.js:20-81 | for an undisturbed request, end then timer either hands out the plain payload or starts compressing it |
| RequestLifecycle.AfterBodyAnswersOnce | node-bidder/bidder.js:20-82 | with the corrected compression callback, after the body, the end, timer and compression events yield exactly one response: the encoded payload of the sniffed id, sniffed tmax and decided delay |
| RequestLifecycle.UndisturbedAnsweredOnce | node-bidder/bidder.js:8-85 | with the corrected compression callback, a request with no abort is answered exactly once, with the payload built from the prefix of its chunks, its decision and the negotiated encoding |
| RequestLifecycle.RunAgree | node-bidder/bidder.js:52-81 | when no abort or destroyed response arrives and any pending compression still passes the guard, the handler as written and the corrected one reach the same state |
| RequestLifecycle.AfterBodyAnswersOnceAsWritten | node-bidder/bidder.js:20-82 | the handler as written answers the end, timer and compression events after the body exactly once, with the encoded payload of the sniffed id, sniffed tmax and decided delay |
| RequestLifecycle.UndisturbedAnsweredOnceAsWritten | node-bidder/bidder.js:8-85 | the handler as written answers a request with no abort exactly once, with the payload built from the prefix of its chunks, its decision and the negotiated encoding |
| RequestLifecycle.AsWrittenWritesAfterAbort | node-bidder/bidder.js:68-79 | in the handler as written, an abort during compression is followed by a response being handed out |

## Left out

- Express routing, the `req.on` wiring, `setTimeout` scheduling and `app.listen` on several ports. These are framework and event-loop plumbing. Events are inputs of `RequestLifecycle.Step`, and the timer is the single `TimerFires` event.
- DelayPolicy.LateIffPastDeadline: lateness is a property of the decided value only. Node fires any timer longer than 2147483647 ms after 1 ms, and the sniffed `tmax` has no upper bound. So for `tmax >= 2147483647` a late decision is not delivered late, and an on-time delay above that limit is answered at once. The timer's 32-bit limit is not modelled.
- Port list parsing (`PORTS`). It only feeds listener binding.
- JsMath.Scale: `Math.random()` and floating-point arithmetic are not modelled. Each draw is an exact real in [0, 1), and `roll < lateFraction` is a real comparison. Rounding is not modelled, and neither is the long-run convergence to the late fraction.
- DelayPolicy.Decide: knob parsing through `Number(process.env…)` is not modelled. `minDelayMs` and `headroomMs` are naturals, so their negative, fractional and NaN values are not modelled. `lateSpanMs` is an optional integer, so negative and zero spans are modelled through `max(1, ·)`, but fractional spans are not.
- ResponseEncoder.MakePayload: `blobBytes` is a natural, and every natural yields its blob. A negative or infinite BLOB_BYTES, or one so large that the blob or the serialised payload exceeds the engine's maximum string length, makes `"x".repeat` or `JSON.stringify` throw a RangeError inside the timer callback, so the request is never answered; that failure is not modelled.
- The handler reads the knobs on every request. The model passes one fixed record, because the environment does not change.
- RequestLifecycle.AsText: UTF-8 decoding of the prefix is not modelled. Bytes are read one character per byte, which agrees with UTF-8 on ASCII bodies. Both sniffs can differ on non-ASCII bodies:
  - the `id` capture of a body with multi-byte characters, or with a character cut at byte 8192, is not modelled;
  - `\s` is matched as ASCII whitespace only, so a UTF-8 no-break space (bytes C2 A0) or another non-ASCII space around the tmax colon is whitespace to the program but not to the model. For example, `"tmax":<C2 A0>250` gives 250 in the program and 300 in the model.
- RequestLifecycle.GuardedStaysSilent: this lemma and NoWriteAfterAbort are stated for the corrected compression callback. The handler as written hands out a response after a failed guard when compression was pending (see Findings). GuardedStaysSilentAsWritten states what the handler as written does promise.
- DeadlineSniffer.SniffTmaxLeftmost: `parseInt` precision is not modelled. Digit runs beyond 2^53 lose precision in JavaScript, and very long ones parse to Infinity. The model uses an unbounded natural.
- The `try`/`catch` around the tmax regex. Neither the scan nor the parse can fail in the model.
- `JSON.stringify` escaping and the `zlib.gzip` algorithm. Both are foreign library calls. The payload is a record, and compression is an opaque outcome.
- The wall clock `Date.now()`. It is the `now` parameter of `TimerFires`.
- `GET /ping`. It is not part of this source file.

## Findings

| source | as written | input that shows it | evidently intended | confidence | as-written member | corrected member |
|---|---|---|---|---|---|---|
| node-bidder/bidder.js:70-79 | the gzip callback calls `res.send` without re-checking `aborted`, `headersSent`, `writableEnded` or `destroyed` | GZIP=1, `accept-encoding: gzip`, and the client aborts after the timer fired but before compression completes | no response after an abort, as the guard on line 53 enforces for the plain path | medium; not executed | RequestLifecycle.AsWrittenWritesAfterAbort | RequestLifecycle.NoWriteAfterAbort |

The lifecycle's `Step` uses the corrected callback `OnGzipDone`, which re-checks the guard. `StepAsWritten` keeps the callback exactly as the source has it.
