# chessassist-mvp: a verified model of the screen-capture and analysis core

chessassist-mvp is an Android app. It captures the screen and sends each
captured frame to a board-recognition service, which returns a FEN position.
It then asks a Stockfish server for the best move and shows that move in an
overlay. This project models in Dafny the sequential logic under that glue:

- **Frame reconstruction** (modules `Frames`, `Bitmaps`). The image-available
  listener of `CaptureManager` turns a raw RGBA_8888 plane (bytes, pixel
  stride, row stride) into a bitmap. It fills a working bitmap that is
  `w + rowPadding/pixelStride` pixels wide row by row, then crops its top-left
  `w×h`.
  - `Frames` states the result as a function of the buffer.
  - `Bitmaps` does it in place on `array2` pixel grids, as `copyPixelsFromBuffer`
    and `createBitmap` do. It is proved to produce that function's image.
- **The one-slot frame queue** (module `FrameQueue`).
  - `SlotQueue` is `LinkedBlockingQueue(1)` with its `offer` and `poll`.
  - A ghost `Ledger` records who owns each bitmap: resident in the slot, handed
    out by a take, or recycled. It is what "no duplicate delivery" and "nothing
    leaked on stop" are stated over.
- **The two CaptureManagers**:
  - `Capture` models app/src/main/java/com/example/capture/CaptureManager.kt:
    half resolution, and a periodic coroutine job.
  - `LegacyCapture` models app/capture/CaptureManager.kt: full resolution, and
    a periodic Runnable that re-posts itself on the capture Handler.
  - Each is a class whose methods update the nullable platform fields, the
    queue and the ledger.
- **`StockfishRepository.analyzeFen`** (module `Stockfish`). It maps the
  server's answer to a move text: the best move, `"N/A"`, or `"Error"`.
- **The analysis loop** (module `AnalysisLoop`). This is `startAnalysisLoop`
  of both MainActivity files, whose loop bodies are the same.
  - Each iteration runs capture → recognize → recycle → analyze → display →
    delay.
  - The collaborators are oracles given per iteration, in a `Round`.
  - The calls the loop makes are returned as a sequence of `Call`s.
- **The consent gates** (module `Consent`). These are the callbacks that
  start projection and the loop.

Platform collaborators become parameters:

- what `acquireLatestImage` returns (an `Option<Frame>`);
- what `getMediaProjection` returns;
- the display metrics;
- what `captureOnce` and `extractFenFromImage` return or throw
  (`Outcome<…>`), and the Stockfish server
  (`(AnalysisRequest, Option<string>) -> Outcome<AnalysisResponse>`).

Three behaviours of the code are worth stating outright:

- **No malformed-frame check.** The code never checks the frame's strides.
  It assumes a pixel stride of 4 (the format is fixed to RGBA_8888) and a row
  padding that is non-negative and divisible by 4. These are preconditions
  (`Frames.WellFormed`), together with `w, h > 0` and a buffer that holds
  `rowStride·h` bytes, which `createBitmap` and `copyPixelsFromBuffer`
  need. There is no error result.
- **A failed analysis is displayed.** Its own try/catch suggests otherwise.
  The loop wraps `analyzeFen` in a
  try/catch (app/src/main/java/com/example/MainActivity.kt:140-146), but
  `analyzeFen` catches every exception itself and answers `"Error"`
  (app/api/StockfishRepository.kt:49-52). So, unless the coroutine is
  cancelled during the call, the loop's catch does not fire and the overlay
  shows `"Error"` (`AnalysisLoop.AnalysisFailureDisplaysError`).
- **Display has no try/catch.** The loop's KDoc
  (app/src/main/java/com/example/MainActivity.kt:109-113) says a failure in
  any step only logs and the loop continues. The loop does not wrap
  `updateOverlayText`, though, which only posts to the overlay view if one
  exists, so the model has no display failure.

## Model

| member | source | states |
|---|---|---|
| Frames.RowPadding | app/src/main/java/com/example/capture/CaptureManager.kt:82 | the padding is the part of a row stride beyond `w` pixels, and it is zero exactly when rows are tight |
| Frames.WorkingWidth | app/src/main/java/com/example/capture/CaptureManager.kt:82-86 | the working bitmap's width `w + rowPadding/pixelStride` is at least `w`, and that many pixels fill exactly one row stride |
| Frames.FillRowMajor | app/src/main/java/com/example/capture/CaptureManager.kt:89 | the row-major fill of a `W×h` bitmap from the buffer has `h` rows of `W` pixels |
| Frames.FillRowMajorAt | app/src/main/java/com/example/capture/CaptureManager.kt:89 | pixel (x,y) of the row-major fill is the 4 bytes at offset `4·(y·W + x)`, which lie inside the buffer |
| Frames.Crop | app/src/main/java/com/example/capture/CaptureManager.kt:90 | the crop is `w×h` and its pixel (i,j) is the source pixel (x0+i, y0+j) |
| Frames.Reconstruct | app/src/main/java/com/example/capture/CaptureManager.kt:82-90 | the listener's image for a well-formed frame is exactly `w×h` |
| Frames.ReconstructPixel | app/src/main/java/com/example/capture/CaptureManager.kt:82-90 | pixel (x,y) of the reconstructed image is the 4 source bytes at offset `y·rowStride + x·pixelStride` |
| Frames.PadThenReconstruct | app/capture/CaptureManager.kt:71-79 | any image laid out row by row with a padding of a multiple of 4 bytes after each row is a well-formed frame, and reconstructing it gives the image back |
| Frames.ThreeByTwoFrame | app/src/main/java/com/example/capture/CaptureManager.kt:82-90 | a 3×2 frame with row stride 16 has 4 bytes of padding and a 4-pixel working row, and it reconstructs to the pixels at offsets 0, 4, 8 and 16, 20, 24 |
| Bitmaps.Bitmap.constructor | app/src/main/java/com/example/capture/CaptureManager.kt:84-88 | `createBitmap(width, height, ARGB_8888)` gives a fresh bitmap of that size whose every pixel is transparent |
| Bitmaps.CopyPixelsFromBuffer | app/src/main/java/com/example/capture/CaptureManager.kt:89 | after the in-place copy, the bitmap shows the row-major fill of the buffer |
| Bitmaps.CreateCroppedBitmap | app/src/main/java/com/example/capture/CaptureManager.kt:90 | a new `w×h` bitmap whose pixel (x,y) is the source's pixel (x0+x, y0+y) |
| Bitmaps.ReconstructFrame | app/src/main/java/com/example/capture/CaptureManager.kt:82-90 | the working bitmap is `WorkingWidth × h`; the cropped bitmap is a distinct fresh `w×h` bitmap that shows `Reconstruct` of the frame |
| FrameQueue.SlotQueue.constructor | app/src/main/java/com/example/capture/CaptureManager.kt:52 | a new one-slot queue is empty |
| FrameQueue.SlotQueue.Offer | app/src/main/java/com/example/capture/CaptureManager.kt:93 | the offer is accepted exactly when the slot is empty; the slot then holds the element, otherwise it is unchanged |
| FrameQueue.SlotQueue.Poll | app/src/main/java/com/example/capture/CaptureManager.kt:143 | returns what the slot held, or none, and leaves the slot empty |
| FrameQueue.EmptyLedger | app/src/main/java/com/example/capture/CaptureManager.kt:52 | a queue created empty owns nothing, and every bitmap is accounted for |
| FrameQueue.Enqueue | app/src/main/java/com/example/capture/CaptureManager.kt:93 | an accepted offer of a newly allocated bitmap into an empty slot keeps the ledger accounted and makes that bitmap resident and live |
| FrameQueue.Reject | app/src/main/java/com/example/capture/CaptureManager.kt:93-95 | a refused offer followed by `cropped.recycle()` keeps the ledger accounted, keeps the resident bitmap, and recycles the new one |
| FrameQueue.Publish | app/src/main/java/com/example/capture/CaptureManager.kt:93-95 | publishing a newly allocated bitmap keeps every bitmap accounted for, with one owner each |
| FrameQueue.Take | app/src/main/java/com/example/capture/CaptureManager.kt:139-144 | a take keeps every bitmap accounted for |
| FrameQueue.Recycle | app/src/main/java/com/example/capture/CaptureManager.kt:91 | recycling the listener's working bitmap keeps the ledger accounted, and the bitmap is no longer unseen |
| FrameQueue.Drain | app/src/main/java/com/example/capture/CaptureManager.kt:157-161 | after the drain, every bitmap ever published was handed out by a take or recycled |
| FrameQueue.PublishIntoEmptySlot | app/src/main/java/com/example/capture/CaptureManager.kt:93 | into an empty slot, the incoming bitmap becomes resident and nothing is recycled |
| FrameQueue.PublishIntoFullSlot | app/src/main/java/com/example/capture/CaptureManager.kt:93-95 | into a full slot, the resident bitmap stays and the incoming one is recycled, never delivered |
| FrameQueue.TakeIsDestructive | app/src/main/java/com/example/capture/CaptureManager.kt:139-144 | a take returns a bitmap no earlier take returned, and a second take right after it returns nothing |
| FrameQueue.NoDuplicateDelivery | app/src/main/java/com/example/capture/CaptureManager.kt:139-144 | over any interleaving of fresh publishes and takes: every bitmap stays accounted for, the takes return distinct bitmaps, and none was handed out before |
| FrameQueue.PublishBurst | app/src/main/java/com/example/capture/CaptureManager.kt:93-95 | of a burst of publishes into an empty slot, the first stays resident and all later ones are recycled, with no delivery |
| Capture.DroppedTakeIsNotRecycled | app/src/main/java/com/example/capture/CaptureManager.kt:122 | for any accounted ledger with a resident bitmap, a take whose result is dropped hands that bitmap out and empties the slot without recycling it |
| Bitmaps.Frame.Close | app/src/main/java/com/example/capture/CaptureManager.kt:92 | `image.close()` leaves the frame closed |
| Capture.Job.constructor | app/src/main/java/com/example/capture/CaptureManager.kt:120 | a launched job runs at the interval it was given and is active |
| Capture.Job.Cancel | app/src/main/java/com/example/capture/CaptureManager.kt:119 | a cancelled job is no longer active |
| Capture.CaptureManager.AtMostOneRunningJob | app/src/main/java/com/example/capture/CaptureManager.kt:118-132 | at most one periodic-capture job is ever active |
| Capture.CaptureManager.constructor | app/src/main/java/com/example/capture/CaptureManager.kt:35-53 | a new manager has no projection, display, reader, thread, handler or job, and an empty queue |
| Capture.CaptureManager.StartProjection | app/src/main/java/com/example/capture/CaptureManager.kt:59-111 | the reader, and the virtual display when a projection was granted, use half the screen resolution, RGBA_8888 and 2 images; the queue is untouched |
| Capture.CaptureManager.OnImageAvailable | app/src/main/java/com/example/capture/CaptureManager.kt:74-97 | no frame: nothing changes. A frame: it is closed, the working bitmap is recycled, and the cropped bitmap shows the reconstruction. The cropped bitmap becomes resident if the slot was empty, and is recycled otherwise. |
| Capture.CaptureManager.CaptureOnce | app/src/main/java/com/example/capture/CaptureManager.kt:139-144 | returns the resident bitmap or none and empties the slot; the bitmap was never handed out before and is not recycled |
| Capture.CaptureManager.StartPeriodicCapture | app/src/main/java/com/example/capture/CaptureManager.kt:118-126 | every earlier job is cancelled, and the new job is the only active one |
| Capture.CaptureManager.StopPeriodicCapture | app/src/main/java/com/example/capture/CaptureManager.kt:129-132 | afterwards there is no job and no job is active |
| Capture.CaptureManager.PeriodicCaptureTick | app/src/main/java/com/example/capture/CaptureManager.kt:121-124 | an active job's pass takes the queued bitmap and drops it, so the bitmap is neither queued nor recycled; a cancelled job's pass changes nothing |
| Capture.CaptureManager.PeriodicCaptureTickRecycling | app/src/main/java/com/example/capture/CaptureManager.kt:121-124 | the corrected pass recycles the bitmap it takes |
| Capture.CaptureManager.DrainQueue | app/src/main/java/com/example/capture/CaptureManager.kt:157-161 | the drain loop leaves the slot empty and recycles what it held |
| Capture.CaptureManager.StopProjection | app/src/main/java/com/example/capture/CaptureManager.kt:147-166 | no job is active; the thread, display, reader and projection are gone; the slot is empty; every bitmap ever published was handed out or recycled |
| LegacyCapture.CaptureManager.constructor | app/capture/CaptureManager.kt:28-43 | a new manager has nothing set up, no pending Runnable and an empty queue |
| LegacyCapture.CaptureManager.StartProjection | app/capture/CaptureManager.kt:49-100 | the reader, and the virtual display when a projection was granted, use the full screen resolution |
| LegacyCapture.CaptureManager.OnImageAvailable | app/capture/CaptureManager.kt:63-86 | the same listener as the current one: the frame is closed, the working bitmap recycled, the cropped bitmap queued or recycled |
| LegacyCapture.CaptureManager.CaptureOnce | app/capture/CaptureManager.kt:113 | a non-blocking destructive poll: it returns the resident bitmap or none and empties the slot |
| LegacyCapture.CaptureManager.StartPeriodicCapture | app/capture/CaptureManager.kt:103-110 | each call posts one more Runnable while the capture thread is alive, so two calls leave two Runnables; with no live thread, nothing is posted |
| LegacyCapture.CaptureManager.RunPeriodicRunnable | app/capture/CaptureManager.kt:105-108 | a run takes the queued bitmap and drops it, then re-posts itself after its own interval, so it stays pending |
| LegacyCapture.CaptureManager.RunPeriodicRunnableRecycling | app/capture/CaptureManager.kt:105-108 | the corrected run recycles the bitmap it takes |
| LegacyCapture.CaptureManager.DrainQueue | app/capture/CaptureManager.kt:125-129 | the drain loop leaves the slot empty and recycles what it held |
| LegacyCapture.CaptureManager.StopProjection | app/capture/CaptureManager.kt:116-134 | no Runnable is pending; the thread, display, reader and projection are gone; the slot is empty and every published bitmap was handed out or recycled; the handler is kept |
| Stockfish.AuthorizationHeader | app/api/StockfishRepository.kt:46 | there is a header exactly when a key is given, and it is `"Bearer "` followed by the key |
| Stockfish.AuthorizationHeaderInjective | app/api/StockfishRepository.kt:46 | different keys give different headers |
| Stockfish.AnalyzeFen | app/api/StockfishRepository.kt:38-53 | the answer to the request `(fen, depth, multiPv)` with the key's header is `"Error"`, `"N/A"`, or a best move the server returned |
| Stockfish.AnalyzeFenOutcomes | app/api/StockfishRepository.kt:44-52 | a present best move is returned verbatim, an absent one gives `"N/A"`, and an exception gives `"Error"`; no outcome throws |
| Stockfish.ErrorExactlyWhenThrown | app/api/StockfishRepository.kt:44-52 | unless the server itself names `"Error"` or `"N/A"` as a move, `"Error"` means the call threw, and `"N/A"` means the response had no move |
| Stockfish.OnlyItsRequestMatters | app/api/StockfishRepository.kt:45-47 | the answer depends only on the server's reply to the one request with the one header |
| Stockfish.AnalyzeFenWithDefaults | app/api/StockfishRepository.kt:59-63 | the top-level `analyzeFen(fen)` is the repository's answer for depth 15, one variation and no header |
| AnalysisLoop.RecognitionCalls | app/src/main/java/com/example/MainActivity.kt:128-137 | the recognition stage makes only recognize and recycle calls |
| AnalysisLoop.AnalysisCalls | app/src/main/java/com/example/MainActivity.kt:140-154 | the analysis and display stages make only analyze and display calls |
| AnalysisLoop.RunIteration | app/src/main/java/com/example/MainActivity.kt:117-156 | one pass of the loop body makes exactly the calls of `IterationCalls` and yields `BestMove`; the older loop body (app/MainActivity.kt, lines 82-117) is the same |
| AnalysisLoop.StagesInOrder | app/src/main/java/com/example/MainActivity.kt:120-156 | each stage happens at most once, in the order capture, recognize, recycle, analyze, display, delay; the first call is the capture and the last is the delay |
| AnalysisLoop.NoFrameSkipsEverything | app/src/main/java/com/example/MainActivity.kt:120-128 | with no bitmap, or a thrown capture, the iteration makes only the capture and the delay |
| AnalysisLoop.TakenBitmapRecycledOnce | app/src/main/java/com/example/MainActivity.kt:128-137 | a taken bitmap is recognized once and recycled exactly once, whatever recognition did, and no other bitmap is recycled |
| AnalysisLoop.RecognitionFailureSkipsAnalysis | app/MainActivity.kt:96-105 | a recognition that throws leads to no analyze and no display call, and the iteration still reaches the delay |
| AnalysisLoop.DisplayExactlyWhenBestMove | app/src/main/java/com/example/MainActivity.kt:150-154 | display happens if and only if bestMove is non-null; then it happens exactly once, with bestMove |
| AnalysisLoop.AnalysisFailureDisplaysError | app/src/main/java/com/example/MainActivity.kt:140-154 | when the server throws for a recognized FEN, the overlay is still updated, with `"Error"` |
| AnalysisLoop.StartPositionShowsE2E4 | app/src/main/java/com/example/MainActivity.kt:128-156 | a recognized start position that the server answers with `e2e4` gives the full call sequence, with exactly one display of `"e2e4"` |
| AnalysisLoop.IterationEndsWithItsDelay | app/src/main/java/com/example/MainActivity.kt:156 | every iteration waits exactly once, for `intervalMillis` |
| AnalysisLoop.Iterations | app/src/main/java/com/example/MainActivity.kt:116 | the loop runs while the coroutine is active and stops at the first inactive check |
| AnalysisLoop.LoopCallsAppend | app/src/main/java/com/example/MainActivity.kt:116-157 | an iteration's calls all follow the previous iteration's calls, so iterations never overlap |
| AnalysisLoop.OneDelayPerIteration | app/MainActivity.kt:81-118 | there are as many delays as iterations, all of `intervalMillis` |
| AnalysisLoop.RunAnalysisLoop | app/src/main/java/com/example/MainActivity.kt:114-159 | the loop makes the calls of its iterations one after another. It stops only at a cancellation: if every check finds it active, it runs every round. The older loop (app/MainActivity.kt, lines 79-120) is the same. |
| AnalysisLoop.FailuresNeverExit | app/MainActivity.kt:81-117 | how many iterations run does not depend on any stage's outcome, only on the coroutine's activity |
| Consent.OnCaptureResult | app/src/main/java/com/example/MainActivity.kt:39-45 | the projection and then the loop start exactly when the result is RESULT_OK with data; the loop uses its default interval |
| Consent.OnActivityResult | app/MainActivity.kt:66-72 | the loop starts exactly for REQUEST_CAPTURE, RESULT_OK and data, and only after the projection |
| Consent.GatesAgree | app/MainActivity.kt:66-72 | for the capture request, the older gate does what the current consent callback does; for any other request it does nothing |

## Left out

- Platform capture plumbing. MediaProjection, VirtualDisplay, ImageReader,
  HandlerThread and Surface are records of the arguments they are created
  with. Releasing, closing and quitting them is modelled as clearing the field.
- getMediaProjection and the display metrics are parameters of
  `StartProjection`. `createScreenCaptureIntent` is not modelled.
- Calling `startProjection` twice is not modelled beyond the field updates:
  the earlier platform objects would leak.
- Concurrency between the capture thread, the periodic job or Runnable, and
  the loop coroutine. Every queue operation and every listener callback is
  one atomic step, and an interleaving is a sequence of such steps
  (`FrameQueue.Run`).
- Capture.CaptureManager.CaptureOnce: with `timeoutMs > 0`, a producer
  could fill the slot while the timed `poll` waits. The model has no
  concurrent producer, so the timed poll behaves as the non-blocking one.
- Capture.CaptureManager.PeriodicCaptureTick: `delay(frameIntervalMs)` and
  the coroutine's `Dispatchers.Default` are not modelled; one call is one
  pass of the loop.
- LegacyCapture.CaptureManager.StartPeriodicCapture:
  - posting to a Handler whose thread has quit is modelled as posting when
    there is no live capture thread;
  - the Handler's timing is not modelled. A pending Runnable is its
    interval, and one call of `RunPeriodicRunnable` is one run.
- Real time and thread hops have no model: `delay` is a recorded `Delay`
  call, and `withContext` / `Dispatchers` are left out.
- ChessvisionRepository (temp file, PNG compression, multipart upload, HTTP) is
  an oracle. Per iteration it returns a FEN or throws.
- The Retrofit client, the request and response DTOs, and the JSON wire
  format are left out.
  - The Stockfish server is an oracle from request and header to a response
    or an exception.
  - Only the response's `bestMove` is modelled. `pv` and `evaluation` are
    never read by the core.
- OverlayService (views, notifications, the `instance` singleton) is a
  `Display(text)` call.
- The permission flows are left out: the overlay-permission request and its
  `onActivityResult` branch for REQUEST_OVERLAY_PERMISSION, and the
  notification permission. `ScreenCaptureActivity` in both CaptureManager
  files is left out too.
- AnalysisLoop.RunAnalysisLoop: the loop is infinite until its coroutine is
  cancelled. The model runs over a finite sequence of rounds, so it also stops
  when the rounds run out.
- Logging is left out.
- Cancellation at a suspension point inside an iteration of the analysis
  loop (`withContext`, `delay`) is not modelled. Such an iteration can skip
  the display and the delay, and the loop then stops; the model only stops
  between iterations. One such path loses a bitmap: cancelled while
  `withContext(Dispatchers.IO) { captureManager.captureOnce() }`
  (app/src/main/java/com/example/MainActivity.kt:121) runs, the bitmap is
  already polled off the queue, and `withContext` discards it, so it is
  neither queued nor recycled. `AnalysisLoop.TakenBitmapRecycledOnce` covers
  only bitmaps that reach the loop.
- `onDestroy` needs no model of its own: it is `stopProjection` followed by
  stopping the overlay service.
- Frames.Reconstruct assumes its preconditions rather than reporting a
  malformed frame, because the code has no such check. A frame with a pixel
  stride other than 4, a negative padding, or a padding that is not a multiple
  of 4 falls outside the model.
- Recycled bitmaps are a ghost ownership ledger. What `recycle()` does to a
  bitmap's memory is not modelled. `Bitmap.Valid` and `Frame.closed` carry no
  use-after-recycle or use-after-close checks.

## Findings

| source | as written | input that shows it | evidently intended | confidence | as-written member | corrected member |
|---|---|---|---|---|---|---|
| app/src/main/java/com/example/capture/CaptureManager.kt:121-124 | the periodic job calls `captureOnce()` and drops the returned bitmap without `recycle()` | a frame is queued (the slot holds bitmap B) and the active job's pass runs: B is taken, so it is no longer queued, and it is never recycled (`Capture.DroppedTakeIsNotRecycled`) | recycle the bitmap the pass takes, as every other path that removes a bitmap from the queue does (low: the garbage collector eventually frees it) | not executed | Capture.CaptureManager.PeriodicCaptureTick | Capture.CaptureManager.PeriodicCaptureTickRecycling |
| app/capture/CaptureManager.kt:105-108 | the periodic Runnable calls `captureOnce()` and drops the returned bitmap without `recycle()` | the slot holds bitmap B and a pending Runnable runs: B is neither queued nor recycled afterwards | recycle the bitmap the run takes (low: the garbage collector eventually frees it) | not executed | LegacyCapture.CaptureManager.RunPeriodicRunnable | LegacyCapture.CaptureManager.RunPeriodicRunnableRecycling |
