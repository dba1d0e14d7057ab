# slick-lighthouse-api: the POST /report best-score selection, in Dafny

`src/server.js` serves one endpoint with real logic: `POST /report`. It
launches one headless Chrome and runs a Lighthouse performance audit of the
requested URL three times against it. It keeps every Lighthouse result
(`lhr`) in attempt order and tracks the best performance score and the
attempt that produced it. It replies with
`{ bestScore, bestScoreIndex, results }`. Any exception turns the request
into a 500 reply with the body `Internal server error`.

The project has two modules:

- `Selection` (selection.dfy) states the running-best rule on a sequence of
  scores. `Fold` is the left fold the handler performs: start at (0, 0), and
  replace the pair only on a strictly greater score. `Selected` is a
  declarative characterisation: the best score is the maximum of 0 and all
  scores; the index stays 0 when nothing beats 0; otherwise it is the first
  attempt that reaches the maximum. The lemmas prove that the fold meets the
  characterisation and that the characterisation fixes the pair.
- `ReportHandler` (report_handler.dfy) is the handler. Chrome and Lighthouse
  are foreign processes, so the handler sees them only through what their
  awaited calls return or throw. They enter the model as an `Env` value:
  - whether `chromeLauncher.launch` resolves;
  - `audit(k)`, what the Lighthouse run of attempt `k` gives (an exception,
    or an `lhr` with its performance score);
  - whether `chrome.kill` resolves.

  `HandleReport` is the handler's loop, with the same local state (`results`,
  `bestScore`, `bestScoreIndex`) updated the same way. It is proved equal to
  the functional specification `Respond`. The lemmas about `Respond` state
  what the reply contains.

The attempt count is the constant 3 (src/server.js:30), not a request
parameter. One Chrome serves all three attempts (src/server.js:26). The only
error reply is the 500 of the catch block (src/server.js:53-57).

## Model

| member | source | states |
|---|---|---|
| Selection.Fold | src/server.js:32-44 | the running best after any number of attempts is never below the initial 0, and its index is 0 or the index of an attempt that ran |
| Selection.StepSelected | src/server.js:41-44 | one strict-greater-than update keeps the pair a correct description of the prefix extended by one attempt (the loop invariant) |
| Selection.FoldSelected | src/server.js:32-45 | the pair the loop ends with is the maximum of 0 and all scores, keeps index 0 when nothing beats 0, and otherwise points at the first attempt reaching that maximum |
| Selection.SelectedUnique | src/server.js:41-44 | at most one (score, index) pair meets that description for a given sequence of scores |
| Selection.FoldCharacterised | src/server.js:32-45 | a pair meets the description if and only if it is the one the loop computes |
| Selection.FoldFirstMaximum | src/server.js:41-43 | with no negative score (Lighthouse's range is [0, 1]) and at least one attempt, the index is valid, its score is the maximum, and every earlier attempt scored strictly less (ties keep the earliest) |
| Selection.FoldNoPositiveScore | src/server.js:32-33 | the pair stays (0, 0) if and only if no attempt scores strictly above 0 |
| Selection.FoldMonotone | src/server.js:41-44 | the running best score never decreases as attempts complete, and a later pair with the same score is the same pair |
| ReportHandler.HandleReport | src/server.js:24-59 | the handler's reply equals `Respond`: the aggregate exactly when Chrome launches, all 3 attempts return a result and Chrome is killed, else 500 with `Internal server error` and no results; on success `results[k]` is attempt k's result unchanged, there are exactly 3, and the best pair meets the description above |
| ReportHandler.RespondReport | src/server.js:30-52 | a successful reply has exactly 3 results, each the one its attempt produced; `bestScoreIndex` is a valid index; `bestScore` is at least 0 and at least every score; when positive it is the score of `results[bestScoreIndex]`, when 0 the index is 0 |
| ReportHandler.RespondFirstWins | src/server.js:41-43 | with no negative score, `bestScoreIndex` is the lowest index whose score equals the maximum |
| ReportHandler.RespondNoPositiveScore | src/server.js:32-33 | the reply carries `bestScore` 0 and `bestScoreIndex` 0 if and only if no attempt scored strictly above 0 |
| ReportHandler.RespondExample | src/server.js:35-52 | scores 0.40, 0.85, 0.85 give `bestScore` 0.85 at index 1 and all three results in order |

## Left out

- HTTP routing (`GET /`, `GET /ping`, the route registration) and the body schema: framework plumbing with static payloads.
- Chrome launch and kill and the Lighthouse run are foreign processes: only whether each awaited call resolves, and what the Lighthouse run returns, are modelled (`Env`). The Lighthouse options and the URL passed to it are constants the handler forwards and are not modelled.
- Releasing Chrome: the code kills Chrome only on the success path, so an exception leaves it running. Process lifetime is not modelled.
- Logging with `console.log` and `console.error`: output only. This includes the `* 100` in the log line.
- A Lighthouse call that resolves to nothing, or to a result without `lhr`, `categories` or `performance`, makes the property reads throw; that case is covered by `Threw`. A missing `finalUrl` only logs `undefined` and does not throw.
- Scores are modelled as `real`: only `>` and assignment touch them, so floating-point rounding plays no part. A performance score that is `null` or missing is not modelled. Such a score compares false against the running best (which is at least 0), so the result is kept and the running pair is left unchanged.
- A foreign call that never settles leaves the request unanswered (the source has no time-out). The model assumes every awaited call resolves or throws.
- The async/await sequencing: attempts are awaited one after another, so the model is a plain sequential loop.
- Server start-up, the `PORT` environment lookup and `process.exit`: process I/O.
