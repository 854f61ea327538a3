/**
 * The hand-detection worker (hooks/handDetection.worker.ts): the three
 * module-level flags that track the detector, the readiness guard in front of
 * detection, the normalisation of the first detected hand, and the rules for
 * replying to a detection request and releasing its bitmap.
 *
 * Loading the detector is asynchronous; it is split here into the
 * synchronous start of initDetector (BeginInit) and its completion
 * (CompleteInit), which either stores a detector or reports an error. The
 * detector's own estimate is an input.
 */
module DetectionWorker {
  import opened Wrappers
  import opened HandDetection

  /** The messages the worker posts to the main thread. */
  datatype Reply =
    | ReadyReply
    | ErrorReply(message: string)
    | DetectionReply(landmarks: Option<seq<Landmark>>, frameId: int)

  /** How the asynchronous part of initDetector ended: a detector, or an error with an optional message. */
  datatype LoadOutcome = Loaded | Failed(message: Option<string>)

  /** What detector.estimateHands produced: the hands it found, or an exception. */
  datatype Estimate = Hands(hands: seq<Hand>) | EstimateThrew

  /** The payload of a "detect" message; `hasBitmap` is whether videoBitmap is present. */
  datatype DetectRequest = DetectRequest(hasBitmap: bool, videoWidth: real, videoHeight: real, frameId: int)

  const LOAD_ERROR_FALLBACK: string := "Failed to load detector"

  /** err.message || fallback: a missing or empty message gives the fallback. */
  function ErrorText(message: Option<string>, fallback: string): (t: string)
    ensures message.Some? && message.value != [] ==> t == message.value
    ensures message.None? || message.value == [] ==> t == fallback
  {
    if message.Some? && message.value != [] then message.value else fallback
  }

  class Worker {
    /** detector !== null */
    var hasDetector: bool
    var isModelReady: bool
    var isModelLoading: bool

    /** The model is only ever ready while a detector is stored. */
    ghost predicate Valid()
      reads this
    {
      isModelReady ==> hasDetector
    }

    constructor ()
      ensures Valid()
      ensures !hasDetector && !isModelReady && !isModelLoading
    {
      hasDetector := false;
      isModelReady := false;
      isModelLoading := false;
    }

    /** The synchronous start of initDetector: nothing happens while a load is already under way. */
    method BeginInit() returns (started: bool)
      modifies this`isModelLoading
      ensures started <==> !old(isModelLoading)
      ensures isModelLoading
    {
      if isModelLoading {
        return false;
      }
      isModelLoading := true;
      started := true;
    }

    /** The end of initDetector: the loading flag is cleared on both paths, the model is ready only on success. */
    method CompleteInit(outcome: LoadOutcome) returns (reply: Reply)
      requires Valid() && isModelLoading
      modifies this
      ensures Valid()
      ensures !isModelLoading
      ensures outcome.Loaded? ==> hasDetector && isModelReady && reply == ReadyReply
      ensures outcome.Failed? ==>
        hasDetector == old(hasDetector) && isModelReady == old(isModelReady) &&
        reply == ErrorReply(ErrorText(outcome.message, LOAD_ERROR_FALLBACK))
    {
      match outcome
      case Loaded =>
        hasDetector := true;
        isModelReady := true;
        isModelLoading := false;
        reply := ReadyReply;
      case Failed(message) =>
        isModelLoading := false;
        reply := ErrorReply(ErrorText(message, LOAD_ERROR_FALLBACK));
    }

    /** The "terminate" message: the detector is dropped and the model is no longer ready; a second one changes nothing. */
    method Terminate()
      requires Valid()
      modifies this`hasDetector, this`isModelReady
      ensures Valid()
      ensures !hasDetector && !isModelReady
      ensures !old(hasDetector) && !old(isModelReady) ==> unchanged(this)
    {
      if hasDetector {
        hasDetector := false;
      }
      isModelReady := false;
    }

    /**
     * detectHands: null unless a detector is stored and ready, a 2-D context
     * was obtained and the estimate found a hand; otherwise the first hand's
     * keypoints in frame-relative coordinates.
     */
    function DetectHands(hasContext: bool, estimate: Estimate, videoWidth: real, videoHeight: real): (r: Option<seq<Landmark>>)
      reads this
      requires hasDetector && isModelReady && hasContext && estimate.Hands? && estimate.hands != [] ==>
        videoWidth != 0.0 && videoHeight != 0.0
      ensures r.Some? <==> hasDetector && isModelReady && hasContext && estimate.Hands? && estimate.hands != []
      ensures r.Some? ==> r.value == Normalise(estimate.hands[0], videoWidth, videoHeight)
      ensures r.Some? ==> |r.value| == |estimate.hands[0].keypoints|
    {
      if !hasDetector || !isModelReady then None
      else if !hasContext then None
      else match estimate
        case EstimateThrew => None
        case Hands(hands) => if |hands| > 0 then Some(Normalise(hands[0], videoWidth, videoHeight)) else None
    }

    /**
     * handleDetection: without a bitmap nothing is sent and nothing closed;
     * otherwise the bitmap is closed and a "detection" reply carries the
     * request's frameId.
     */
    method HandleDetection(request: DetectRequest, hasContext: bool, estimate: Estimate)
      returns (reply: Option<Reply>, closed: bool)
      requires request.hasBitmap && hasDetector && isModelReady && hasContext && estimate.Hands? && estimate.hands != [] ==>
        request.videoWidth != 0.0 && request.videoHeight != 0.0
      ensures closed <==> request.hasBitmap
      ensures reply.Some? <==> request.hasBitmap
      ensures reply.Some? ==>
        reply.value == DetectionReply(DetectHands(hasContext, estimate, request.videoWidth, request.videoHeight), request.frameId)
    {
      if !request.hasBitmap {
        return None, false;
      }
      var landmarks := DetectHands(hasContext, estimate, request.videoWidth, request.videoHeight);
      closed := true;
      reply := Some(DetectionReply(landmarks, request.frameId));
    }

    /**
     * The "detect" message: while the model is not ready the request is
     * deferred to the polling wait, with no reply and the bitmap still open;
     * otherwise it is handled at once.
     */
    method OnDetect(request: DetectRequest, hasContext: bool, estimate: Estimate)
      returns (deferred: bool, reply: Option<Reply>, closed: bool)
      requires Valid()
      requires request.hasBitmap && hasDetector && isModelReady && hasContext && estimate.Hands? && estimate.hands != [] ==>
        request.videoWidth != 0.0 && request.videoHeight != 0.0
      ensures deferred <==> !isModelReady
      ensures deferred ==> reply.None? && !closed
      ensures !deferred ==> (closed <==> request.hasBitmap) && (reply.Some? <==> request.hasBitmap)
      ensures !deferred && reply.Some? ==>
        reply.value.DetectionReply? && reply.value.frameId == request.frameId &&
        (reply.value.landmarks.Some? <==> hasContext && estimate.Hands? && estimate.hands != [])
      ensures !deferred ==>
        reply == (if request.hasBitmap
                  then Some(DetectionReply(DetectHands(hasContext, estimate, request.videoWidth, request.videoHeight), request.frameId))
                  else None)
    {
      if !isModelReady {
        return true, None, false;
      }
      deferred := false;
      reply, closed := HandleDetection(request, hasContext, estimate);
    }
  }

  /** A worker that was terminated answers every processed detection with null landmarks. */
  lemma TerminatedWorkerFindsNothing(w: Worker, hasContext: bool, estimate: Estimate, videoWidth: real, videoHeight: real)
    requires !w.hasDetector && !w.isModelReady
    ensures w.DetectHands(hasContext, estimate, videoWidth, videoHeight).None?
  {
  }
}
