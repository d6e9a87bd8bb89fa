/**
 * CaptureManager (app/src/main/java/com/example/capture/CaptureManager.kt): the screen-capture producer. Its
 * image-available listener turns each acquired frame into a bitmap and offers it to a one-slot queue;
 * `captureOnce` takes from that queue without blocking; a coroutine job can poll it periodically; and
 * `stopProjection` tears everything down and recycles whatever is still queued.
 */
module Capture {
  import opened Wrappers
  import opened Frames
  import opened Bitmaps
  import opened FrameQueue

  /** `MAX_IMAGES`: how many frames the ImageReader may hold at once. */
  const MAX_IMAGES := 2

  /** `DEFAULT_FRAME_INTERVAL_MS`: the period startPeriodicCapture uses when given none. */
  const DEFAULT_FRAME_INTERVAL_MS := 1000

  /** The value of `PixelFormat.RGBA_8888`. */
  const RGBA_8888 := 1

  /** The name of the dedicated capture thread. */
  const CAPTURE_THREAD_NAME := "ScreenCapture"

  /** The fields of `context.resources.displayMetrics` that setupCaptureResources reads. */
  datatype DisplayMetrics = DisplayMetrics(widthPixels: nat, heightPixels: nat, densityDpi: nat)

  /** A `MediaProjection` granted by the platform; the token stands for the platform object. */
  datatype Projection = Projection(token: nat)

  /** `ImageReader.newInstance(width, height, format, maxImages)`. */
  datatype ReaderConfig = ReaderConfig(width: int, height: int, format: int, maxImages: int)

  /** `createVirtualDisplay(name, width, height, densityDpi, ...)`. */
  datatype DisplayConfig = DisplayConfig(name: string, width: int, height: int, densityDpi: int)

  /** A coroutine `Job` running the periodic-capture loop; `active` is its `isActive`. */
  class Job {
    const intervalMs: int
    var active: bool

    /** `CoroutineScope(Dispatchers.Default).launch { ... }`: a new, running job. */
    constructor (intervalMs: int)
      ensures this.intervalMs == intervalMs && active
    {
      this.intervalMs := intervalMs;
      active := true;
    }

    /** `Job.cancel()`: the loop stops at its next `isActive` check. */
    method Cancel()
      modifies this
      ensures !active
    {
      active := false;
    }
  }

  /**
   * A take from a full slot whose bitmap its caller then drops: the bitmap is handed out, leaves the slot, and is
   * not recycled, so unless the caller recycles it nobody will.
   */
  lemma DroppedTakeIsNotRecycled<B>(l: Ledger<B>)
    requires Accounted(l) && l.resident.Some?
    ensures Take(l).0 == l.resident && Take(l).1.resident.None?
    ensures l.resident.value !in Take(l).1.recycled && l.resident.value in Take(l).1.delivered
  {
  }

  class CaptureManager {
    /** `bitmapQueue = LinkedBlockingQueue<Bitmap>(1)`. */
    const bitmapQueue: SlotQueue<Bitmap>
    var mediaProjection: Option<Projection>
    var virtualDisplay: Option<DisplayConfig>
    var imageReader: Option<ReaderConfig>
    var captureThread: Option<string>
    var captureHandler: Option<string>
    var periodicCaptureJob: Option<Job>

    /** Every periodic-capture job this manager has launched. */
    ghost var jobs: set<Job>
    /** Who owns each bitmap the listener has produced. */
    ghost var ledger: Ledger<Bitmap>

    /**
     * The manager's invariant: the ledger's resident is the queue's slot and every produced bitmap has one owner;
     * the only running periodic job is the one `periodicCaptureJob` refers to.
     */
    ghost predicate Valid()
      reads this, bitmapQueue, jobs
    {
      && ledger.resident == bitmapQueue.slot
      && Accounted(ledger)
      && (periodicCaptureJob.Some? ==> periodicCaptureJob.value in jobs)
      && (forall j :: j in jobs && j.active ==> periodicCaptureJob == Some(j))
    }

    /** The projection, display, reader, thread, handler and job fields are as they were. */
    twostate predicate SessionUnchanged()
      reads this
    {
      && mediaProjection == old(mediaProjection)
      && virtualDisplay == old(virtualDisplay)
      && imageReader == old(imageReader)
      && captureThread == old(captureThread)
      && captureHandler == old(captureHandler)
      && periodicCaptureJob == old(periodicCaptureJob)
      && jobs == old(jobs)
    }

    /** At most one periodic-capture job is ever running. */
    lemma AtMostOneRunningJob(j: Job, k: Job)
      requires Valid()
      requires j in jobs && k in jobs && j.active && k.active
      ensures j == k
    {
    }

    /** `CaptureManager(context)`: nothing is set up and the queue is empty. */
    constructor ()
      ensures Valid() && fresh(bitmapQueue)
      ensures ledger == EmptyLedger() && jobs == {}
      ensures mediaProjection.None? && virtualDisplay.None? && imageReader.None?
      ensures captureThread.None? && captureHandler.None? && periodicCaptureJob.None?
    {
      bitmapQueue := new SlotQueue<Bitmap>();
      mediaProjection, virtualDisplay, imageReader := None, None, None;
      captureThread, captureHandler, periodicCaptureJob := None, None, None;
      jobs := {};
      ledger := EmptyLedger();
    }

    /**
     * `startProjection` and `setupCaptureResources`: `granted` is what getMediaProjection returned for the consent
     * result. The reader, and the virtual display when a projection was granted, use half the screen resolution.
     */
    method StartProjection(granted: Option<Projection>, metrics: DisplayMetrics)
      requires Valid()
      modifies this
      ensures Valid()
      ensures mediaProjection == granted
      ensures imageReader == Some(ReaderConfig(metrics.widthPixels / 2, metrics.heightPixels / 2, RGBA_8888, MAX_IMAGES))
      ensures captureThread == Some(CAPTURE_THREAD_NAME) && captureHandler == Some(CAPTURE_THREAD_NAME)
      ensures virtualDisplay == if granted.Some?
                                then Some(DisplayConfig("capture", metrics.widthPixels / 2, metrics.heightPixels / 2, metrics.densityDpi))
                                else None
      ensures ledger == old(ledger) && jobs == old(jobs) && periodicCaptureJob == old(periodicCaptureJob)
    {
      mediaProjection := granted;
      var width := metrics.widthPixels / 2;
      var height := metrics.heightPixels / 2;
      imageReader := Some(ReaderConfig(width, height, RGBA_8888, MAX_IMAGES));
      captureThread := Some(CAPTURE_THREAD_NAME);
      captureHandler := Some(CAPTURE_THREAD_NAME);
      virtualDisplay := if mediaProjection.Some? then Some(DisplayConfig("capture", width, height, metrics.densityDpi)) else None;
    }

    /**
     * The image-available listener, run on the capture thread while the reader is open. `acquired` is what
     * `acquireLatestImage()` returned. With no frame it returns at once. Otherwise it reconstructs the frame,
     * recycles the working bitmap, closes the frame and offers the cropped bitmap, recycling it when the slot is
     * already full; it reports the bitmaps it allocated.
     */
    method OnImageAvailable(acquired: Option<Frame>) returns (cropped: Option<Bitmap>, ghost working: Option<Bitmap>)
      requires Valid() && imageReader.Some?
      requires acquired.Some? ==> WellFormed(acquired.value.width, acquired.value.height, acquired.value.plane)
      modifies this, bitmapQueue, if acquired.Some? then {acquired.value} else {}
      ensures Valid() && SessionUnchanged()
      ensures acquired.None? ==> cropped.None? && ledger == old(ledger) && bitmapQueue.slot == old(bitmapQueue.slot)
      ensures acquired.Some? ==>
                && acquired.value.closed
                && cropped.Some? && working.Some?
                && fresh(cropped.value) && fresh(working.value) && cropped.value.Valid()
                && cropped.value.Shows(Reconstruct(acquired.value.width, acquired.value.height, acquired.value.plane))
                && ledger == Publish(Recycle(old(ledger), working.value), cropped.value)
                && bitmapQueue.slot == (if old(bitmapQueue.slot).None? then cropped else old(bitmapQueue.slot))
                && working.value in ledger.recycled
                && (cropped.value in ledger.recycled <==> old(bitmapQueue.slot).Some?)
    {
      if acquired.None? {
        cropped, working := None, None;
        return;
      }
      var image := acquired.value;
      var c, w := ReconstructFrame(image);
      ledger := Recycle(ledger, w);
      image.Close();
      var accepted := bitmapQueue.Offer(c);
      if !accepted {
        // cropped.recycle()
        ledger := Reject(ledger, c);
      } else {
        ledger := Enqueue(ledger, c);
      }
      cropped, working := Some(c), Some(w);
    }

    /**
     * `captureOnce(timeoutMs)`: removes and returns the queued bitmap, or null when there is none. With a positive
     * timeout the platform would wait for the capture thread to publish; in this sequential model nothing can
     * arrive meanwhile, so both branches return what is queued.
     */
    method CaptureOnce(timeoutMs: int := 0) returns (bitmap: Option<Bitmap>)
      requires Valid()
      modifies this, bitmapQueue
      ensures Valid() && SessionUnchanged()
      ensures (bitmap, ledger) == Take(old(ledger))
      ensures bitmap == old(bitmapQueue.slot) && bitmapQueue.slot == None
      ensures bitmap.Some? ==> bitmap.value !in old(ledger.delivered) && bitmap.value !in ledger.recycled
    {
      if timeoutMs > 0 {
        bitmap := bitmapQueue.Poll();
      } else {
        bitmap := bitmapQueue.Poll();
      }
      ledger := Take(ledger).1;
    }

    /** `startPeriodicCapture(frameIntervalMs)`: cancels the previous job, if any, and launches a new one. */
    method StartPeriodicCapture(frameIntervalMs: int := DEFAULT_FRAME_INTERVAL_MS) returns (job: Job)
      requires Valid()
      modifies this, jobs
      ensures Valid() && fresh(job)
      ensures periodicCaptureJob == Some(job) && job.active && job.intervalMs == frameIntervalMs
      ensures jobs == old(jobs) + {job}
      ensures forall j :: j in old(jobs) ==> !j.active
      ensures ledger == old(ledger) && imageReader == old(imageReader) && mediaProjection == old(mediaProjection)
      ensures captureThread == old(captureThread) && captureHandler == old(captureHandler)
      ensures virtualDisplay == old(virtualDisplay)
    {
      if periodicCaptureJob.Some? {
        periodicCaptureJob.value.Cancel();
      }
      job := new Job(frameIntervalMs);
      periodicCaptureJob := Some(job);
      jobs := jobs + {job};
    }

    /** `stopPeriodicCapture()`: cancels the job, if any, and forgets it. */
    method StopPeriodicCapture()
      requires Valid()
      modifies this, jobs
      ensures Valid()
      ensures periodicCaptureJob == None && jobs == old(jobs)
      ensures forall j :: j in jobs ==> !j.active
      ensures ledger == old(ledger) && imageReader == old(imageReader) && mediaProjection == old(mediaProjection)
      ensures captureThread == old(captureThread) && captureHandler == old(captureHandler)
      ensures virtualDisplay == old(virtualDisplay)
    {
      if periodicCaptureJob.Some? {
        periodicCaptureJob.value.Cancel();
      }
      periodicCaptureJob := None;
    }

    /**
     * One pass of the periodic job's `while (isActive) { captureOnce(); delay(frameIntervalMs) }`: when the job is
     * still active it takes the queued bitmap and drops it, never recycling it. The passes interleave with
     * listener callbacks, which callers model as OnImageAvailable calls in between.
     */
    method PeriodicCaptureTick(job: Job) returns (continues: bool)
      requires Valid() && job in jobs
      modifies this, bitmapQueue
      ensures Valid() && SessionUnchanged()
      ensures continues == job.active
      ensures continues ==> ledger == Take(old(ledger)).1 && bitmapQueue.slot == None
      ensures !continues ==> ledger == old(ledger) && bitmapQueue.slot == old(bitmapQueue.slot)
      ensures continues && old(bitmapQueue.slot).Some? ==>
                old(bitmapQueue.slot).value !in ledger.recycled && ledger.resident != old(bitmapQueue.slot)
    {
      continues := job.active;
      if continues {
        var _ := CaptureOnce();
        // delay(frameIntervalMs)
      }
    }

    /** The pass as evidently intended: the taken bitmap, which nobody else will see, is recycled. */
    method PeriodicCaptureTickRecycling(job: Job) returns (continues: bool)
      requires Valid() && job in jobs
      modifies this, bitmapQueue
      ensures Valid() && SessionUnchanged()
      ensures continues == job.active
      ensures continues ==> ledger == Drain(old(ledger)) && bitmapQueue.slot == None
      ensures !continues ==> ledger == old(ledger) && bitmapQueue.slot == old(bitmapQueue.slot)
      ensures continues && old(bitmapQueue.slot).Some? ==> old(bitmapQueue.slot).value in ledger.recycled
    {
      continues := job.active;
      if continues {
        var b := bitmapQueue.Poll();
        ledger := Drain(ledger);
      }
    }

    /** The drain of stopProjection: `var b = poll(); while (b != null) { b.recycle(); b = poll() }`. */
    method DrainQueue()
      requires Valid()
      modifies this`ledger, bitmapQueue
      ensures Valid()
      ensures ledger == Drain(old(ledger)) && bitmapQueue.slot == None
    {
      ghost var before := ledger;
      var b := bitmapQueue.Poll();
      while b.Some?
        invariant bitmapQueue.slot == None
        invariant b.Some? ==> ledger == before && b == before.resident
        invariant b.None? ==> ledger == Drain(before)
        decreases b.Some?
      {
        // b.recycle()
        ledger := Drain(ledger);
        b := bitmapQueue.Poll();
      }
    }

    /**
     * `stopProjection()`: stops the periodic job, quits the capture thread, releases the display and the reader,
     * recycles every queued bitmap until the queue is empty, and stops the projection. The handler is kept.
     * Afterwards every bitmap ever produced was either handed to a caller or recycled.
     */
    method StopProjection()
      requires Valid()
      modifies this, bitmapQueue, jobs
      ensures Valid()
      ensures ledger == Drain(old(ledger)) && bitmapQueue.slot == None
      ensures old(bitmapQueue.slot).Some? ==> old(bitmapQueue.slot).value in ledger.recycled
      ensures forall b :: b in ledger.published ==> b in ledger.delivered || b in ledger.recycled
      ensures periodicCaptureJob == None && jobs == old(jobs) && forall j :: j in jobs ==> !j.active
      ensures captureThread == None && virtualDisplay == None && imageReader == None && mediaProjection == None
      ensures captureHandler == old(captureHandler)
    {
      StopPeriodicCapture();
      // captureHandler?.removeCallbacksAndMessages(null); captureThread?.quitSafely()
      captureThread := None;
      virtualDisplay := None;
      imageReader := None;
      DrainQueue();
      mediaProjection := None;
    }
  }
}
