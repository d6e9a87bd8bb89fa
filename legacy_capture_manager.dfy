/**
 * The older CaptureManager (app/capture/CaptureManager.kt). Its listener, queue, captureOnce and drain are those of
 * the current one (Bitmaps.ReconstructFrame and FrameQueue hold the shared logic); it differs in capturing at full
 * resolution, in having no timeout on captureOnce, and in running periodic capture as a Runnable that re-posts
 * itself on the capture Handler instead of as a coroutine job.
 */
module LegacyCapture {
  import opened Wrappers
  import opened Frames
  import opened Bitmaps
  import opened FrameQueue
  import Capture

  /** The interval startPeriodicCapture uses when given none. */
  const DEFAULT_INTERVAL_MS := 5000

  class CaptureManager {
    /** `bitmapQueue = LinkedBlockingQueue<Bitmap>(1)`. */
    const bitmapQueue: SlotQueue<Bitmap>
    var mediaProjection: Option<Capture.Projection>
    var virtualDisplay: Option<Capture.DisplayConfig>
    var imageReader: Option<Capture.ReaderConfig>
    var captureThread: Option<string>
    var captureHandler: Option<string>
    /** The periodic-capture Runnables pending on the capture Handler, each by the interval it re-posts itself with. */
    var periodicRunnables: seq<int>

    /** Who owns each bitmap the listener has produced. */
    ghost var ledger: Ledger<Bitmap>

    /**
     * The ledger's resident is the queue's slot and every produced bitmap has one owner; Runnables are pending only
     * on a live capture thread.
     */
    ghost predicate Valid()
      reads this, bitmapQueue
    {
      && ledger.resident == bitmapQueue.slot
      && Accounted(ledger)
      && (periodicRunnables != [] ==> captureThread.Some? && captureHandler.Some?)
    }

    /** The projection, display, reader, thread, handler and Runnable fields are as they were. */
    twostate predicate SessionUnchanged()
      reads this
    {
      && mediaProjection == old(mediaProjection)
      && virtualDisplay == old(virtualDisplay)
      && imageReader == old(imageReader)
      && captureThread == old(captureThread)
      && captureHandler == old(captureHandler)
      && periodicRunnables == old(periodicRunnables)
    }

    /** `CaptureManager(context)`: nothing is set up and the queue is empty. */
    constructor ()
      ensures Valid() && fresh(bitmapQueue)
      ensures ledger == EmptyLedger() && periodicRunnables == []
      ensures mediaProjection.None? && virtualDisplay.None? && imageReader.None?
      ensures captureThread.None? && captureHandler.None?
    {
      bitmapQueue := new SlotQueue<Bitmap>();
      mediaProjection, virtualDisplay, imageReader := None, None, None;
      captureThread, captureHandler := None, None;
      periodicRunnables := [];
      ledger := EmptyLedger();
    }

    /**
     * `startProjection` and `setupCaptureResources`: `granted` is what getMediaProjection returned for the consent
     * result. The reader, and the virtual display when a projection was granted, use the full screen resolution.
     */
    method StartProjection(granted: Option<Capture.Projection>, metrics: Capture.DisplayMetrics)
      requires Valid()
      modifies this
      ensures Valid()
      ensures mediaProjection == granted
      ensures imageReader == Some(Capture.ReaderConfig(metrics.widthPixels, metrics.heightPixels, Capture.RGBA_8888, Capture.MAX_IMAGES))
      ensures captureThread == Some(Capture.CAPTURE_THREAD_NAME) && captureHandler == Some(Capture.CAPTURE_THREAD_NAME)
      ensures virtualDisplay == if granted.Some?
                                then Some(Capture.DisplayConfig("capture", metrics.widthPixels, metrics.heightPixels, metrics.densityDpi))
                                else None
      ensures ledger == old(ledger) && periodicRunnables == old(periodicRunnables)
    {
      mediaProjection := granted;
      var width := metrics.widthPixels;
      var height := metrics.heightPixels;
      imageReader := Some(Capture.ReaderConfig(width, height, Capture.RGBA_8888, Capture.MAX_IMAGES));
      captureThread := Some(Capture.CAPTURE_THREAD_NAME);
      captureHandler := Some(Capture.CAPTURE_THREAD_NAME);
      virtualDisplay := if mediaProjection.Some? then Some(Capture.DisplayConfig("capture", width, height, metrics.densityDpi)) else None;
    }

    /**
     * The image-available listener, as in the current CaptureManager: no frame means an immediate return;
     * otherwise reconstruct, recycle the working bitmap, close the frame, offer, and recycle on a full slot.
     */
    method OnImageAvailable(acquired: Option<Frame>) returns (cropped: Option<Bitmap>, ghost working: Option<Bitmap>)
      requires Valid() && imageReader.Some?
      requires acquired.Some? ==> WellFormed(acquired.value.width, acquired.value.height, acquired.value.plane)
      modifies this, bitmapQueue, if acquired.Some? then {acquired.value} else {}
      ensures Valid() && SessionUnchanged()
      ensures acquired.None? ==> cropped.None? && ledger == old(ledger) && bitmapQueue.slot == old(bitmapQueue.slot)
      ensures acquired.Some? ==>
                && acquired.value.closed
                && cropped.Some? && working.Some?
                && fresh(cropped.value) && fresh(working.value) && cropped.value.Valid()
                && cropped.value.Shows(Reconstruct(acquired.value.width, acquired.value.height, acquired.value.plane))
                && ledger == Publish(Recycle(old(ledger), working.value), cropped.value)
                && bitmapQueue.slot == (if old(bitmapQueue.slot).None? then cropped else old(bitmapQueue.slot))
                && working.value in ledger.recycled
                && (cropped.value in ledger.recycled <==> old(bitmapQueue.slot).Some?)
    {
      if acquired.None? {
        cropped, working := None, None;
        return;
      }
      var image := acquired.value;
      var c, w := ReconstructFrame(image);
      ledger := Recycle(ledger, w);
      image.Close();
      var accepted := bitmapQueue.Offer(c);
      if !accepted {
        // cropped.recycle()
        ledger := Reject(ledger, c);
      } else {
        ledger := Enqueue(ledger, c);
      }
      cropped, working := Some(c), Some(w);
    }

    /** `captureOnce() = bitmapQueue.poll()`: removes and returns the queued bitmap, or null when there is none. */
    method CaptureOnce() returns (bitmap: Option<Bitmap>)
      requires Valid()
      modifies this`ledger, bitmapQueue
      ensures Valid()
      ensures (bitmap, ledger) == Take(old(ledger))
      ensures bitmap == old(bitmapQueue.slot) && bitmapQueue.slot == None
      ensures bitmap.Some? ==> bitmap.value !in old(ledger.delivered) && bitmap.value !in ledger.recycled
    {
      bitmap := bitmapQueue.Poll();
      ledger := Take(ledger).1;
    }

    /**
     * `startPeriodicCapture(intervalMs)`: posts a new self-re-posting Runnable to the capture Handler. Nothing
     * guards against a second call, which leaves two Runnables polling; a post to a Handler whose thread has quit,
     * or to no Handler, is lost.
     */
    method StartPeriodicCapture(intervalMs: int := DEFAULT_INTERVAL_MS)
      requires Valid()
      modifies this`periodicRunnables
      ensures Valid()
      ensures periodicRunnables == if captureHandler.Some? && captureThread.Some?
                                   then old(periodicRunnables) + [intervalMs]
                                   else old(periodicRunnables)
    {
      if captureHandler.Some? && captureThread.Some? {
        periodicRunnables := periodicRunnables + [intervalMs];
      }
    }

    /**
     * One run of the k-th pending Runnable: `captureOnce()`, whose bitmap is dropped without being recycled, then
     * `postDelayed(this, intervalMs)`, so the Runnable stays pending and runs again after its interval.
     */
    method RunPeriodicRunnable(k: nat) returns (rescheduledAfterMs: int)
      requires Valid() && k < |periodicRunnables|
      modifies this`ledger, bitmapQueue
      ensures Valid()
      ensures rescheduledAfterMs == periodicRunnables[k] && periodicRunnables == old(periodicRunnables)
      ensures ledger == Take(old(ledger)).1 && bitmapQueue.slot == None
      ensures old(bitmapQueue.slot).Some? ==>
                old(bitmapQueue.slot).value !in ledger.recycled && ledger.resident != old(bitmapQueue.slot)
    {
      var _ := CaptureOnce();
      rescheduledAfterMs := periodicRunnables[k];
    }

    /** The run as evidently intended: the taken bitmap, which nobody else will see, is recycled. */
    method RunPeriodicRunnableRecycling(k: nat) returns (rescheduledAfterMs: int)
      requires Valid() && k < |periodicRunnables|
      modifies this`ledger, bitmapQueue
      ensures Valid()
      ensures rescheduledAfterMs == periodicRunnables[k] && periodicRunnables == old(periodicRunnables)
      ensures ledger == Drain(old(ledger)) && bitmapQueue.slot == None
      ensures old(bitmapQueue.slot).Some? ==> old(bitmapQueue.slot).value in ledger.recycled
    {
      var b := bitmapQueue.Poll();
      ledger := Drain(ledger);
      rescheduledAfterMs := periodicRunnables[k];
    }

    /** The drain of stopProjection: `var b = poll(); while (b != null) { b.recycle(); b = poll() }`. */
    method DrainQueue()
      requires Valid()
      modifies this`ledger, bitmapQueue
      ensures Valid()
      ensures ledger == Drain(old(ledger)) && bitmapQueue.slot == None
    {
      ghost var before := ledger;
      var b := bitmapQueue.Poll();
      while b.Some?
        invariant bitmapQueue.slot == None
        invariant b.Some? ==> ledger == before && b == before.resident
        invariant b.None? ==> ledger == Drain(before)
        decreases b.Some?
      {
        // b.recycle()
        ledger := Drain(ledger);
        b := bitmapQueue.Poll();
      }
    }

    /**
     * `stopProjection()`: removes every pending callback (so no Runnable runs again), quits the capture thread,
     * releases the display and the reader, recycles every queued bitmap until the queue is empty, and stops the
     * projection. The handler is kept. Afterwards every bitmap ever produced was handed out or recycled.
     */
    method StopProjection()
      requires Valid()
      modifies this, bitmapQueue
      ensures Valid()
      ensures ledger == Drain(old(ledger)) && bitmapQueue.slot == None
      ensures old(bitmapQueue.slot).Some? ==> old(bitmapQueue.slot).value in ledger.recycled
      ensures forall b :: b in ledger.published ==> b in ledger.delivered || b in ledger.recycled
      ensures periodicRunnables == []
      ensures captureThread == None && virtualDisplay == None && imageReader == None && mediaProjection == None
      ensures captureHandler == old(captureHandler)
    {
      periodicRunnables := [];
      captureThread := None;
      virtualDisplay := None;
      imageReader := None;
      DrainQueue();
      mediaProjection := None;
    }
  }
}
