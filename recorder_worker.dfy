/**
 * The video-recorder worker (hooks/videoRecorder.worker.ts) without its
 * drawing: the centred 9:16 crop of the camera frame, the state its message
 * handler keeps (canvas, overlay lines, fail banner), and the rules for
 * replying to a frame request and releasing the input bitmap. What a frame
 * shows besides pixels is summarised in a FramePlan: the crop, the countdown
 * text and the wrapped sequence lines.
 */
module RecorderWorker {
  import opened Wrappers
  import opened OverlayText

  /** The part of the video frame that is drawn onto the 9:16 canvas. */
  datatype Crop = Crop(sourceW: real, sourceH: real, offsetX: real, offsetY: real)

  const TARGET_ASPECT: real := 9.0 / 16.0

  /**
   * The crop of drawFrame. The comparison videoW / videoH > 9 / 16 is the
   * floating-point one: a zero height gives +Infinity for a positive width
   * and NaN (never greater) for a zero width.
   */
  function CropToPortrait(videoW: real, videoH: real): (c: Crop)
    requires videoW >= 0.0 && videoH >= 0.0
    ensures 16.0 * c.sourceW == 9.0 * c.sourceH
    ensures 0.0 <= c.sourceW && 0.0 <= c.sourceH
    ensures 0.0 <= c.offsetX && c.offsetX + c.sourceW <= videoW
    ensures 0.0 <= c.offsetY && c.offsetY + c.sourceH <= videoH
    ensures 2.0 * c.offsetX + c.sourceW == videoW && 2.0 * c.offsetY + c.sourceH == videoH
    ensures (c.sourceH == videoH && c.offsetY == 0.0) || (c.sourceW == videoW && c.offsetX == 0.0)
  {
    var wider := if videoH > 0.0 then videoW / videoH > TARGET_ASPECT else videoW > 0.0;
    if wider then
      var sourceW := videoH * TARGET_ASPECT;
      Crop(sourceW, videoH, (videoW - sourceW) / 2.0, 0.0)
    else
      var sourceH := videoW / TARGET_ASPECT;
      Crop(videoW, sourceH, 0.0, (videoH - sourceH) / 2.0)
  }

  /** No 9:16 rectangle inside the frame is larger than the crop. */
  lemma CropIsLargest(videoW: real, videoH: real, w: real, h: real)
    requires videoW > 0.0 && videoH > 0.0
    requires 16.0 * w == 9.0 * h && 0.0 <= w <= videoW && 0.0 <= h <= videoH
    ensures w <= CropToPortrait(videoW, videoH).sourceW && h <= CropToPortrait(videoW, videoH).sourceH
  {
    var c := CropToPortrait(videoW, videoH);
    if videoW / videoH > TARGET_ASPECT {
      assert c.sourceH == videoH;
      assert 16.0 * w == 9.0 * h <= 9.0 * videoH == 16.0 * c.sourceW;
    } else {
      assert c.sourceW == videoW;
      assert 9.0 * h == 16.0 * w <= 16.0 * videoW == 9.0 * c.sourceH;
    }
  }

  /** For a frame that is already 9:16 the crop is the whole frame. */
  lemma PortraitFrameIsNotCropped(videoW: real, videoH: real)
    requires videoW > 0.0 && videoH > 0.0 && 16.0 * videoW == 9.0 * videoH
    ensures CropToPortrait(videoW, videoH) == Crop(videoW, videoH, 0.0, 0.0)
  {
    assert videoW / videoH == TARGET_ASPECT by {
      assert videoW == videoH * TARGET_ASPECT;
    }
  }

  /** For positive dimensions the crop has positive size. */
  lemma CropIsProper(videoW: real, videoH: real)
    requires videoW > 0.0 && videoH > 0.0
    ensures CropToPortrait(videoW, videoH).sourceW > 0.0 && CropToPortrait(videoW, videoH).sourceH > 0.0
  {
  }

  /** The fail banner: whether it is shown, and the round reached. */
  datatype FailInfo = FailInfo(show: bool, round: int)

  /** A "drawFrame" request; the worker closes its bitmap whatever happens. */
  datatype FrameRequest = FrameRequest(videoWidth: real, videoHeight: real, frameId: int)

  /** The "frameReady" reply, carrying the request's frameId with the composed bitmap. */
  datatype FrameReady = FrameReady(frameId: int)

  /** The "ready" reply to "init". */
  datatype InitReply = ReadyReply

  /** What a composed frame shows apart from the fixed decorations. */
  datatype FramePlan = FramePlan(crop: Crop, failBanner: Option<int>, countdown: Option<string>, sequenceLines: seq<string>)

  /** Right and left margin of the sequence text, in canvas pixels. */
  const SEQUENCE_MARGIN: real := 40.0

  /** Number.MAX_SAFE_INTEGER, the upper end of an `[EnforceRange] unsigned long long`. */
  const MAX_SAFE_INTEGER: real := 9007199254740991.0

  /**
   * Whether a finite size passes `[EnforceRange] unsigned long long`: truncated
   * toward zero it lies in 0 .. 2^53 - 1, so -0.5 becomes 0 while -1 throws.
   */
  predicate InCanvasRange(x: real)
  {
    -1.0 < x < MAX_SAFE_INTEGER + 1.0
  }

  class Recorder {
    /** offscreenCanvas !== null and ctx !== null */
    var hasCanvas: bool
    var hasContext: bool
    var canvasWidth: real
    var canvasHeight: real
    var isMobile: bool
    var overlayLines: seq<string>
    var failInfo: FailInfo

    /** A drawing context only exists together with its canvas. */
    ghost predicate Valid()
      reads this`hasCanvas, this`hasContext
    {
      hasContext ==> hasCanvas
    }

    constructor ()
      ensures Valid()
      ensures !hasCanvas && !hasContext && !isMobile
      ensures canvasWidth == 720.0 && canvasHeight == 1280.0
      ensures overlayLines == [] && failInfo == FailInfo(false, 1)
    {
      hasCanvas := false;
      hasContext := false;
      canvasWidth := 720.0;
      canvasHeight := 1280.0;
      isMobile := false;
      overlayLines := [];
      failInfo := FailInfo(false, 1);
    }

    /**
     * "init": the size and device flag are stored first; then a new canvas of
     * the given size is created and "ready" posted. The canvas constructor's
     * arguments are `[EnforceRange] unsigned long long`, so a size that does not
     * truncate into 0 .. 2^53 - 1 throws instead: the handler ends with the old
     * canvas and context and no reply. `contextObtained` is whether
     * getContext("2d") returned one.
     */
    method Init(width: real, height: real, mobile: bool, contextObtained: bool) returns (reply: Option<InitReply>)
      modifies this`hasCanvas, this`hasContext, this`canvasWidth, this`canvasHeight, this`isMobile
      ensures canvasWidth == width && canvasHeight == height && isMobile == mobile
      ensures reply.Some? <==> InCanvasRange(width) && InCanvasRange(height)
      ensures reply.Some? ==> reply.value == ReadyReply && hasCanvas && hasContext == contextObtained && Valid()
      ensures reply.None? ==> hasCanvas == old(hasCanvas) && hasContext == old(hasContext)
    {
      canvasWidth := width;
      canvasHeight := height;
      isMobile := mobile;
      if !InCanvasRange(width) || !InCanvasRange(height) {
        return None;
      }
      hasCanvas := true;
      hasContext := contextObtained;
      reply := Some(ReadyReply);
    }

    /** "updateOverlay": the lines are replaced wholesale, by [] when the payload has none. */
    method UpdateOverlay(lines: Option<seq<string>>)
      modifies this`overlayLines
      ensures overlayLines == lines.GetOr([])
      ensures lines.None? ==> overlayLines == []
    {
      overlayLines := lines.GetOr([]);
    }

    /** "updateFailInfo": the banner state is replaced wholesale. */
    method UpdateFailInfo(info: FailInfo)
      modifies this`failInfo
      ensures failInfo == info
    {
      failInfo := info;
    }

    /** "terminate": canvas and context are dropped. */
    method Terminate()
      modifies this`hasCanvas, this`hasContext
      ensures Valid()
      ensures !hasCanvas && !hasContext
    {
      hasCanvas := false;
      hasContext := false;
    }

    /** What drawFrame composes from the current state for a frame of the given size. */
    function Plan(videoW: real, videoH: real, width: string -> real): (p: FramePlan)
      reads this
      requires videoW >= 0.0 && videoH >= 0.0
      ensures p.crop == CropToPortrait(videoW, videoH)
      ensures p.failBanner.Some? <==> failInfo.show
      ensures p.failBanner.Some? ==> p.failBanner.value == failInfo.round
      ensures p.countdown == CountdownText(overlayLines)
      ensures p.sequenceLines == SequenceLines(overlayLines, failInfo.show, width, canvasWidth - SEQUENCE_MARGIN)
      ensures failInfo.show ==> p.sequenceLines == []
      ensures forall l :: l in p.sequenceLines ==>
        (l != "" && SequenceLine(overlayLines).Some? &&
         (l in SequenceItems(SequenceLine(overlayLines).value) || width(StripBrackets(l)) <= canvasWidth - SEQUENCE_MARGIN))
    {
      var lines := SequenceLines(overlayLines, failInfo.show, width, canvasWidth - SEQUENCE_MARGIN);
      FramePlan(
        CropToPortrait(videoW, videoH),
        if failInfo.show then Some(failInfo.round) else None,
        CountdownText(overlayLines),
        lines)
    }

    /**
     * "drawFrame": the input bitmap is always closed; a "frameReady" reply
     * with the request's frameId is posted exactly when a canvas and its
     * context exist, and it shows the plan for the current state.
     */
    method DrawFrame(request: FrameRequest, width: string -> real) returns (plan: Option<FramePlan>, reply: Option<FrameReady>, closed: bool)
      requires hasCanvas && hasContext ==> request.videoWidth >= 0.0 && request.videoHeight >= 0.0
      ensures closed
      ensures reply.Some? <==> hasCanvas && hasContext
      ensures Valid() ==> (reply.Some? <==> hasContext)
      ensures reply.Some? ==> reply.value.frameId == request.frameId
      ensures plan.Some? <==> reply.Some?
      ensures plan.Some? ==> plan.value == Plan(request.videoWidth, request.videoHeight, width)
    {
      if !hasContext || !hasCanvas {
        plan := None;
      } else {
        plan := Some(Plan(request.videoWidth, request.videoHeight, width));
      }
      closed := true;
      if plan.Some? {
        reply := Some(FrameReady(request.frameId));
      } else {
        reply := None;
      }
    }
  }

  /** Before "init" a frame request of any size is answered with nothing, though its bitmap is closed. */
  method FreshRecorderSendsNothing(request: FrameRequest, width: string -> real)
    returns (reply: Option<FrameReady>, closed: bool)
    ensures reply.None? && closed
  {
    var r := new Recorder();
    var plan;
    plan, reply, closed := r.DrawFrame(request, width);
  }

  /** After "terminate" a frame request of any size is answered with nothing, though its bitmap is closed. */
  method TerminatedRecorderSendsNothing(r: Recorder, request: FrameRequest, width: string -> real)
    returns (reply: Option<FrameReady>, closed: bool)
    modifies r`hasCanvas, r`hasContext
    ensures reply.None? && closed
  {
    r.Terminate();
    var plan;
    plan, reply, closed := r.DrawFrame(request, width);
  }
}
