# Chunked upload pipeline of `FileUploader`

A Dafny model of the core of `FileUploader` (src/fileUploader.js). This is a browser library that uploads a file in encrypted chunks over HTTP. The model covers:

- how a file is cut into chunks;
- the loop that posts the chunks one after another, reporting progress and the final outcome;
- the wrapper that retries a failed upload;
- pause and resume;
- the type allow-list and the constructor defaults.

The model is split into five modules:

- `Chunks` (chunks.dfy): `totalChunks = Math.ceil(size / chunkSize)` and `file.slice(k * chunkSize, (k + 1) * chunkSize)` as functions. Lemmas show that the chunks are contiguous and non-empty, that each is at most `chunkSize` long, and that together they reassemble the file.
- `ProgressMath` (progress.dfy): the progress percentage of line 111 in exact `real` arithmetic, with its range and monotonicity.
- `Transfer` (transfer.dfy): one pass of `uploadFileInChunks` as the function `Loop`/`Pass`. A pass maps the file, the chunk size and the environment to the events the pass emits, how it ended, and the final `currentChunk` and `pause`. Lemmas cover ordering, chunk tagging, success only on completion and progress monotonicity.
- `Attempts` (attempts.dfy): `uploadFileWithRetry` as the function `Retry`, a sequence of whole passes. Lemmas cover the attempt bound, restarting at chunk 0, giving up, and the number of `onSuccess` calls.
- `Uploader` (uploader.dfy): the class `FileUploader`. It has the fields `allowedTypes`, `chunkSize` and `maxRetries`, which are set once by the constructor and are `const` in the model, and the mutable field `pause`. Its methods are `UploadFileInChunks` (a `while` loop over `currentChunk`), `SendChunk` (the body of that loop), `UploadFileWithRetry` (recursive), `PauseUpload`, `ResumeUpload` and `HandleFile`. Each method is proved against the functions above. The event trace `events` records every POST and every call of `onProgress`, `onSuccess` and `onError`.

The outside world is a value `env: Env`:

- `env.cipher` stands for `encryptFile` on the bytes of a chunk. It is an arbitrary function, and the model makes no claim about the ciphertext.
- `env.net(n)` answers the `n`-th iteration of the chunk loop over the uploader's life. The answer is one of two kinds:
  - the FileReader inside `encryptFile` failed;
  - `axios.post` resolved or rejected, after reporting a list of `(loaded, total)` progress samples.
- Each answer also says whether `pauseUpload()` was called while that iteration was waiting. Inside the chunk loop, that is the only point where a concurrent call can change what the loop sees.
- A `pauseUpload()` can also come while `handleFiles` awaits `compressFile` (line 47), before the first pass reads the flag at line 100. The model represents it as a `PauseUpload` call made before `HandleFile`, because `HandleFile` starts its passes from the flag as it is at the call.
- The field `exchanges` counts the answers used so far.

Points of the code's behaviour that the model states explicitly:

- A retry, and a resume, restart the whole file at chunk 0. There is no per-chunk retry counter, and a resume does not continue at `currentChunk`. `Attempts.RetryRestarts` and `Attempts.PauseThenResumeResends` state this: after a pause and a resume, the chunks already sent are sent again.
- A pause takes effect only at a chunk boundary. The chunk in flight finishes, and the next one does not start. A pause requested during the last chunk comes too late, and `onSuccess` still fires (`Transfer.PauseBoundary`).
- `onError` is called on every failed POST (line 116), as well as once more with "Failed to upload after multiple attempts" when the retries run out.
- An encryption (FileReader) failure throws from line 102, outside the `try`. It is retried without any `onError` call.
- A zero-byte file has `totalChunks = 0`, so `onSuccess` fires at once, even when `pause` is set.
- `maxRetries: 0` and `chunkSize: 0` take their defaults because of `||`.
- Progress does not stay monotone across attempts: each new attempt reports from chunk 0 again. It is monotone within one pass when each request's progress samples rise (`Transfer.PassProgressRises`).
- A pause requested while a failing attempt is in flight makes the next attempt, if there is one, do nothing (`Attempts.PauseEndsRetries`). The call then ends without the give-up message of line 91 and without `onSuccess`. For a rejected POST, the `onError` of line 116 has already fired. With no retries left there is no next attempt, and line 91 still reports that the upload gave up.

## Model

| member | source | states |
|---|---|---|
| `Chunks.Slice` | src/fileUploader.js:101 | `file.slice(k * chunkSize, (k + 1) * chunkSize)`, with both ends clamped to the file's size as `Blob.slice` does. Its contents are stated by `Chunks.SliceBytes` and `Chunks.ChunkGeometry` |
| `Chunks.SliceBytes` | src/fileUploader.js:101 | chunk `k` holds at most `chunkSize` bytes, and byte `i` of it is byte `k*chunkSize + i` of the file. It runs to the end of the chunk or the end of the file, whichever comes first. A chunk that starts at or past the end of the file is empty |
| `Chunks.TotalChunks` | src/fileUploader.js:97 | `ceil(size / chunkSize)`: the least `n` with `size <= n * chunkSize`; it is 0 exactly for an empty file |
| `Chunks.ChunkGeometry` | src/fileUploader.js:97-101 | for each `k < totalChunks`, chunk `k` is `data[k*chunkSize .. min((k+1)*chunkSize, size))`. It starts inside the file and is non-empty and at most `chunkSize` long. Every chunk but the last is full, and the last one ends at `size` |
| `Chunks.JoinIsPrefix` | src/fileUploader.js:101 | the first `k` chunks, concatenated, are exactly the first `min(k*chunkSize, size)` bytes of the file |
| `Chunks.SlicesReassemble` | src/fileUploader.js:97-101 | the `totalChunks` chunks, in order, reassemble the file: they cover `[0, size)` with no gap or overlap, and their lengths sum to `size` |
| `Chunks.TwoAndAHalfMebibytes` | src/fileUploader.js:97-101 | a 2.5 MiB file in 1 MiB chunks gives three chunks of 1 MiB, 1 MiB and 0.5 MiB |
| `ProgressMath.Percent` | src/fileUploader.js:111 | the progress formula `((currentChunk + loaded/total) / totalChunks) * 100` in exact reals. Its range and monotonicity are stated by the lemmas below |
| `ProgressMath.PercentBand` | src/fileUploader.js:111 | while chunk `c` is posted, the percentage stays between `c/totalChunks*100` and `(c+1)/totalChunks*100` |
| `ProgressMath.PercentInRange` | src/fileUploader.js:111 | with `0 <= loaded <= total` and `total > 0`, the reported percentage lies in `[0, 100]` |
| `ProgressMath.PercentMonotone` | src/fileUploader.js:111 | within one chunk, a larger fraction `loaded/total` never gives a smaller percentage, so progress is non-decreasing in `loaded` |
| `ProgressMath.PercentAcrossChunks` | src/fileUploader.js:111 | every percentage reported for a later chunk is at least every percentage reported for an earlier chunk |
| `ProgressMath.PercentIsHundred` | src/fileUploader.js:111 | the percentage is 100 exactly when `chunk == totalChunks - 1` and `loaded == total` |
| `Transfer.PostOf` | src/fileUploader.js:103-106 | the request for chunk `k`: the `FormData` fields `file` (the encrypted slice), `chunkNumber = k + 1` and `totalChunks`. `Transfer.PassRequests` and `Attempts.AttemptsStartAtFirstChunk` state which requests a pass makes |
| `Transfer.Reports` | src/fileUploader.js:110-112 | the `onUploadProgress` callback: one `onProgress` call per progress sample of the request, carrying the percentage of line 111. Its bounds and order are stated by `Transfer.ReportsBounded` and `Transfer.ReportsRise` |
| `Transfer.Iteration` | src/fileUploader.js:101-118 | the events of one loop iteration, given the environment's answer. Their shape is stated by `Transfer.IterationEvents`, and `Uploader.FileUploader.SendChunk` is proved to emit exactly them |
| `Transfer.Pass` | src/fileUploader.js:96-98 | `uploadFileInChunks`: the loop from `currentChunk = 0` over `ceil(size / chunkSize)` chunks. `Uploader.FileUploader.UploadFileInChunks` is proved equal to it, and the `Transfer.Pass...` lemmas state its properties |
| `Transfer.Loop` | src/fileUploader.js:100-125 | the loop from a given `currentChunk`: it ends with `current <= currentChunk <= totalChunks` and never moves backwards in the environment's answers |
| `Transfer.IterationEvents` | src/fileUploader.js:101-118 | what one iteration emits. A chunk that could not be read emits nothing. Otherwise the only request is the POST of that chunk, and it is the first event, before any progress report. The only other events are progress reports, plus `onError` as the last event exactly when the POST was rejected |
| `Transfer.PassRequests` | src/fileUploader.js:98-120 | a pass posts chunks `current+1 .. final currentChunk` in ascending order, each once. Each request carries the same `totalChunks` and the encryption of its own slice. A failed POST is the last request, and it is for the chunk `currentChunk` stayed at |
| `Transfer.PassShape` | src/fileUploader.js:100-125 | every event of a pass is a request or a progress report, except for at most one final notification. That notification is the one the pass's ending calls for: `onSuccess` when it completed, `onError` after a rejected POST, nothing otherwise. The pass completed exactly when `currentChunk` reached `totalChunks`, and it stopped early only with `pause` set |
| `Transfer.PassNotifications` | src/fileUploader.js:100-125 | only the last event of a pass can be `onSuccess`/`onError`. `onSuccess` fires iff the loop ended with `currentChunk == totalChunks`. `onError` fires iff a POST failed. A pass stopped early has `pause` set |
| `Transfer.PassCompletes` | src/fileUploader.js:100-125 | if every answer is a successful POST with no pause, the pass completes. It uses one answer per remaining chunk and leaves `pause` clear |
| `Transfer.SuccessNeedsNoPause` | src/fileUploader.js:100-125 | a pass reports success only if `pause` was clear when it started with chunks left, every answer it used was an accepted POST, and no pause was requested while any chunk but the last was in flight. It then used exactly one answer per chunk |
| `Transfer.AdvancesOnlyOnSuccess` | src/fileUploader.js:100-120 | in every pass, however it ended, `currentChunk` moved past a chunk only after that chunk's POST succeeded. Every answer that advanced the loop was an accepted POST, and the pass used at least one answer per chunk it advanced |
| `Transfer.PauseBoundary` | src/fileUploader.js:100-124 | a pause requested while chunk `current` is in flight lets that chunk finish: its POST, its progress reports and nothing else. The next chunk never starts. The pass stops at `current + 1` with `pause` set, or completes with `onSuccess` when that was the last chunk |
| `Transfer.PausedPassIsSilent` | src/fileUploader.js:100 | a pass entered with `pause` set and chunks left emits nothing and stops |
| `Transfer.EmptyFile` | src/fileUploader.js:97-125 | a zero-byte file makes no POST and fires `onSuccess` at once, whatever `pause` is |
| `Transfer.ReportsBounded` | src/fileUploader.js:110-112 | every percentage reported while chunk `currentChunk` is posted lies between `currentChunk/totalChunks*100` and 100, and at most `(currentChunk+1)/totalChunks*100` when a later chunk exists |
| `Transfer.ReportsRise` | src/fileUploader.js:110-112 | when a request's samples `loaded/total` rise, the percentages reported for it are non-decreasing |
| `Transfer.IterationRises` | src/fileUploader.js:101-118 | the percentages one iteration reports rise and stay within its own chunk's band of the progress scale |
| `Transfer.PassProgressRises` | src/fileUploader.js:109-114 | when each request's samples rise, the percentages a pass reports are non-decreasing and lie between `current/totalChunks*100` and 100 |
| `Attempts.Retry` | src/fileUploader.js:82-94 | `uploadFileWithRetry(file, retries)` makes between 1 and `retries + 1` attempts |
| `Attempts.RetryShape` | src/fileUploader.js:82-94 | every attempt but the last threw. The call gives up (reporting "Failed to upload after multiple attempts") iff its last attempt threw, and only after `retries + 1` attempts. No attempt follows one that returned |
| `Attempts.RetryRestarts` | src/fileUploader.js:82-98 | each attempt is a fresh pass from chunk 0. It starts with the `pause` flag and the position in the environment that the previous attempt left |
| `Attempts.AttemptsStartAtFirstChunk` | src/fileUploader.js:82-105 | the first request of every attempt that posts anything is chunk number 1 |
| `Attempts.PauseEndsRetries` | src/fileUploader.js:86-100 | after a failed attempt that leaves `pause` set, the next attempt emits nothing. It is the last attempt, and the call does not give up |
| `Attempts.PassesAllFail` | src/fileUploader.js:82-98 | when every POST is rejected with no pause, attempt `i` is a fresh pass started at answer `used + i` with `pause` clear. It throws at its POST, leaves `pause` clear and uses one answer |
| `Attempts.RetryAllFail` | src/fileUploader.js:82-120 | if every POST fails, a non-empty file gets exactly `retries + 1` attempts. Each attempt posts chunk 1 once and ends with `onError`. The call ends by reporting that it gave up |
| `Attempts.RetryAllSucceed` | src/fileUploader.js:82-125 | if every POST succeeds, one attempt posts chunks `1 .. totalChunks` in order and ends with `onSuccess`, with no `onError` |
| `Attempts.PassSuccesses` | src/fileUploader.js:123-125 | a pass calls `onSuccess` once if it completed, and never otherwise |
| `Attempts.SessionSuccesses` | src/fileUploader.js:82-125 | a call of `uploadFileWithRetry` calls `onSuccess` exactly once if its last attempt completed, and never otherwise |
| `Attempts.PauseThenResumeResends` | src/fileUploader.js:128-135 | a pass stopped by a pause after `k` chunks, then a resumed upload whose POSTs all succeed, posts chunks `1..k` and then `1..totalChunks` |
| `Uploader.FileUploader.constructor` | src/fileUploader.js:6-15 | `allowedTypes` is kept as given. `chunkSize` is the option, or 1048576 when it is 0 or absent. `maxRetries` is the option, or 3 when it is 0 or absent. `pause` starts false |
| `Uploader.FileUploader.ValidateFileType` | src/fileUploader.js:40-42 | a file is accepted iff the allow-list is empty or some entry equals its type |
| `Uploader.FileUploader.HandleFile` | src/fileUploader.js:44-67 | a file of a type that is not allowed gets `onError("Invalid file type")`, and nothing is posted. Otherwise a failed compression is reported and the original file is used, and the resulting file is uploaded via `Retry` with `maxRetries` |
| `Uploader.FileUploader.UploadFileWithRetry` | src/fileUploader.js:82-94 | the new trace is the old one followed by the events of `Retry`. `pause` and `exchanges` are what the last attempt left |
| `Uploader.FileUploader.UploadFileInChunks` | src/fileUploader.js:96-126 | the `while` loop's result, trace, `pause` and `exchanges` are those of `Pass` from the state at the call |
| `Uploader.FileUploader.SendChunk` | src/fileUploader.js:101-118 | uses the next answer of the environment and no other. It sets `pause` when a pause was requested while the iteration waited, and otherwise leaves it as it was. It appends exactly that iteration's events (`Transfer.Iteration`) to the trace |
| `Uploader.FileUploader.PauseUpload` | src/fileUploader.js:128-130 | sets `pause` and nothing else |
| `Uploader.FileUploader.ResumeUpload` | src/fileUploader.js:132-135 | clears `pause`, then emits exactly the events of `Retry` with `maxRetries`, from chunk 0 |

## Left out

- `init`, `setupDragEvents` and `previewImage` (src/fileUploader.js:17-38, 137-145): DOM wiring and display only.
- `handleFiles` starts one upload per dropped file without awaiting it (`forEach(async …)`). The model handles one file at a time (`HandleFile`). Several uploads running at once and sharing the one `pause` flag are concurrency and are not modelled. So is a `resumeUpload` that starts a second pass while the first is still in flight.
- HandleFile: a `pauseUpload()` made while `compressFile` is awaited (line 47) is not interleaved with the compression. It is modelled as a `PauseUpload` call before `HandleFile`. Its effect on the first pass is the same: the pass starts with `pause` set.
- `compressFile` calls `browser-image-compression`. The model takes its result as given: a new file, or an error message.
- `encryptFile` (CryptoJS AES with a fixed key, read through FileReader) is an arbitrary function of the chunk's bytes. The real encryption salts randomly, so two encryptions of one chunk may differ. The model uses one function and says nothing about the ciphertext.
- `axios.post` and its `onUploadProgress` events are replaced by the answers of `env.net`. The endpoint `url` is the same for every request and is not carried in the model's request events. The error object passed to `onError` is not modelled beyond the fact that the request failed.
- The 1000 ms `setTimeout` before a retry is just the next attempt. No call of `uploadFileInChunks` reads `pause` during the wait, so a pause requested then is folded into the answer of the failed iteration.
- Progress is computed with exact reals, not IEEE doubles. `Math.ceil(size / chunkSize)` is taken as exact integer ceiling division. Samples with `total` equal to 0 or undefined give NaN in the code and are not modelled.
- `chunkSize`, `maxRetries` and `retries` are natural numbers in the model. Negative, fractional or non-numeric options are not modelled.
- User callbacks are modelled as trace events that always return. A callback that throws is not modelled. In the code, what happens then depends on the call site:
  - A throw from `onError` at line 116 or from `onSuccess` at line 124 leaves `uploadFileInChunks` and is caught by the retry wrapper at line 85.
  - A throw from `onError` at line 91 (inside the wrapper's own `catch`), at line 64 (inside `compressFile`'s `catch`) or at line 50 rejects a promise that nothing awaits, so nothing catches it. At line 64 the file is then never uploaded.
  - Whether a throw from `onProgress` at line 112 reaches the `catch` at line 115 depends on the HTTP library, which is not part of this model.
