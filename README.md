# NEON-RHYTHM hand tracking and recording core, in Dafny

NEON-RHYTHM is a browser rhythm game. A camera watches the player's hand and
counts raised fingers on every detection cycle. A recorder worker composes
each camera frame with the game's overlay text into a 9:16 portrait video.
This project models the non-drawing logic of four source files. It proves
the properties those files promise:

- **hooks/useHandDetection.ts** — `hand_detection.dfy`, module `HandDetection`.
  - The squared-distance finger classifier: a function, plus the
    `countFingers` loop as a method proved against it.
  - The nested-loop `getMode`, whose ties go to the earliest position.
  - The bounded history with its change notification.
  - The gate in `predictWebcam` that decides whether a detection cycle
    starts. It is part of a class holding the hook's refs and effect-local
    flags.
  - The normalisation of TensorFlow.js pixel keypoints.
- **hooks/useMediaPipe.ts** — `media_pipe.dfy`, module `MediaPipe`.
  - The older hook's frequency-map `getMode`, whose ties go to the value
    that first reaches the top count.
  - Its history, which is cleared when no hand is seen and smoothed only
    from three samples on.
  - Its mobile-only throttle.
  - Lemmas that compare the two `getMode` variants: they agree on a strict
    maximum and part on `[1, 2, 2, 1]`.
- **hooks/handDetection.worker.ts** — `base64.dfy` and
  `detection_worker.dfy`, modules `Base64` and `DetectionWorker`.
  - The hand-written `atob`/`btoa` polyfills. They work on JavaScript
    strings, taken as sequences of UTF-16 code units. The polyfills follow
    the alphabet of section 4 of RFC 4648 and the `=` padding of section
    3.2.
  - Proved about them:
    - the decode/encode round trip for Latin-1 strings;
    - the length and padding shape of the encoding;
    - that the decoder ignores characters outside `A-Za-z0-9+/=`.
  - `btoa` on Latin-1 strings is proved equal to a reference encoding,
    `RfcEncode`, written from RFC 4648 as 6-bit slices of three octets. The
    length and padding lemmas are proved about that reference.
  - JavaScript's `<<`, `>>` and masking `&` are written in closed form:
    multiplication by a power of two, floor division by it, and the
    non-negative remainder. These agree with JavaScript whenever operands
    and results lie in the 32-bit signed range. `|` is defined bit by bit.
  - The worker's three module-level flags, as a class.
  - The readiness guard of `detectHands` and its keypoint normalisation.
  - The reply and bitmap-closing rules of `handleDetection`.
- **hooks/videoRecorder.worker.ts** — `overlay_text.dfy` and
  `recorder_worker.dfy`, modules `OverlayText` and `RecorderWorker`.
  - The centred 9:16 crop.
  - Selecting the countdown and sequence lines.
  - The greedy dash-token wrap loop, against an abstract `width` function
    that stands for `measureText`.
  - Splitting a line on `/(\[\[.*?\]\])/` and the left-to-right placement
    of its segments.
  - The message-handler state and its reply rules.

`wrappers.dfy` holds `Option`, which stands for JavaScript's
`null`/`undefined` results.

Coordinates, distances and times are Dafny `real`s, so floating-point
rounding is idealised away. Every claim about them is a plain comparison.
The detectors' outputs, the current time and the canvas text measure are
parameters of the operations that use them.

In a few places the code does something other than its names and comments
suggest. The model follows the code:

- **Countdown text.** It is `split(":")[1]`, the field between the first
  and the second colon. So it is not everything after the first colon.
  `CountdownIsSecondField` states this.
- **`drawFrame` without a canvas.** Before `init`, or after `terminate`,
  `drawFrame` closes the input bitmap and posts nothing. It posts no error
  reply.
- **A cycle whose detector throws.** In `useHandDetection.ts` such a cycle
  pushes nothing into the history. It does not change the landmarks or the
  count either. It is not handled as a frame with no hand:
  `HandDetection.DetectionLoop.FinishCycle` states this.
- **`DETECTION_INTERVAL`.** It is chosen from the engine that was
  requested, not from the engine active after a fallback.
- **Padding in `atob`.** The test `enc3 !== 64` can never fail, because
  `indexOf` never returns 64. Padding (`=`) reads as index -1.
  `Base64.IndexOfNever64` states this.

## Model

| member | source | states |
|---|---|---|
| HandDetection.DistanceSq3D | hooks/useHandDetection.ts:18-27 | the squared distance is never negative |
| HandDetection.DistanceSymmetric | hooks/useHandDetection.ts:18-27 | the squared distance does not depend on the order of the two points |
| HandDetection.DistanceScalesOnlyXZ | hooks/useHandDetection.ts:18-27 | the ratio acts exactly as stretching both points along x and z; points differing only in y have the unscaled squared y distance |
| HandDetection.ThumbExtended | hooks/useHandDetection.ts:44-59 | the thumb test: the swing test against the pinky knuckle, and only then the wrist and index tests; its three factors are stated in `ThumbNeedsAllThreeTests` |
| HandDetection.FingerExtended | hooks/useHandDetection.ts:69-77 | the finger test: the squared wrist-to-tip distance exceeds 1.8225 times the squared wrist-to-knuckle distance |
| HandDetection.ExtendedFingers | hooks/useHandDetection.ts:69-77 | at most one increment per finger visited |
| HandDetection.ExtendedFingersExtremes | hooks/useHandDetection.ts:69-77 | the loop counts all k fingers iff each passes its test, and none iff none does |
| HandDetection.ExtendedCount | hooks/useHandDetection.ts:29-80 | the count is at most 5, and 0 for fewer than 21 landmarks |
| HandDetection.CountFingers | hooks/useHandDetection.ts:29-80 | the loop's count equals the classifier function and is at most 5 |
| HandDetection.CountIsSumOfTests | hooks/useHandDetection.ts:61-77 | the count is the thumb bit plus one bit per knuckle/tip pair (5,8), (9,12), (13,16), (17,20) with factor 1.8225 |
| HandDetection.ThumbNeedsAllThreeTests | hooks/useHandDetection.ts:44-59 | the thumb counts iff the swing test (1.3225), the wrist test (0.7) and the index test (1.1) all pass |
| HandDetection.CountIsFiveIffAllExtended | hooks/useHandDetection.ts:29-80 | count 5 iff the hand is complete and every digit passes its test |
| HandDetection.CountIsZeroIffNoneExtended | hooks/useHandDetection.ts:29-80 | count 0 iff the hand is incomplete or no digit passes its test |
| HandDetection.OpenHandCountsFive | hooks/useHandDetection.ts:29-80 | a concrete open hand counts 5 |
| HandDetection.FistCountsZero | hooks/useHandDetection.ts:29-80 | a concrete fist counts 0 |
| HandDetection.Occurrences | hooks/useHandDetection.ts:86-90 | the inner loop's count never exceeds the window length |
| HandDetection.OccurrencesPositive | hooks/useHandDetection.ts:86-90 | a value is counted at least once iff it is in the window |
| HandDetection.FirstMaxIndex | hooks/useHandDetection.ts:91-94 | the strict `>` keeps the earliest position of a maximal score |
| HandDetection.Mode | hooks/useHandDetection.ts:82-97 | getMode as a function: 0 for an empty window, else the value at the first position with a maximal count; `ModeIsMostFrequent` and `ModeAtFirstModePosition` state what it means |
| HandDetection.ModeIsMostFrequent | hooks/useHandDetection.ts:82-97 | the mode of a non-empty window is one of its values and no value occurs more often |
| HandDetection.ModeAtFirstModePosition | hooks/useHandDetection.ts:91-94 | the mode is the value at the first position holding a most frequent value |
| HandDetection.GetMode | hooks/useHandDetection.ts:82-97 | the nested loop returns the mode: 0 for an empty window, otherwise a most frequent element |
| HandDetection.StrictMajorityIsMode | hooks/useHandDetection.ts:82-97 | a value filling more than half of the window is its mode |
| HandDetection.PushBounded | hooks/useHandDetection.ts:338-341 | after push and shift the history ends with the new count, grows only below capacity and never exceeds it |
| HandDetection.Smoothed | hooks/useHandDetection.ts:343-346 | the reported count: the mode from two samples on, else the raw count; `SmoothedInRange` bounds it |
| HandDetection.HistorySize | hooks/useHandDetection.ts:125 | HISTORY_SIZE: 3 on mobile, 5 otherwise |
| HandDetection.DetectionInterval | hooks/useHandDetection.ts:128-129 | DETECTION_INTERVAL from the requested engine; `TensorFlowIntervalIsShorter` compares the two |
| HandDetection.SmoothedInRange | hooks/useHandDetection.ts:337-346 | counts in 0..5 stay in 0..5 through a push and the smoothing |
| HandDetection.PushRepeatedLength | hooks/useHandDetection.ts:338-341 | repeated pushes grow the history by one each until the capacity |
| HandDetection.PushRepeatedTail | hooks/useHandDetection.ts:338-341 | after m pushes of x the last m entries hold x |
| HandDetection.TrailingOccurrences | hooks/useHandDetection.ts:86-90 | a value filling the last t positions occurs at least t times |
| HandDetection.RepeatedCountTakesOver | hooks/useHandDetection.ts:337-346 | pushing one count more than half the capacity times in a row makes it the reported count |
| HandDetection.TieGoesToEarlierSample | hooks/useHandDetection.ts:343-346 | the window [1, 2] reports 1 |
| HandDetection.TensorFlowIntervalIsShorter | hooks/useHandDetection.ts:128-129 | the TensorFlow.js interval (45 or 35 ms) is positive and below the MediaPipe one (55 ms) |
| HandDetection.DepthAt | hooks/useHandDetection.ts:325 | `keypoints3D?.[index]?.z ?? 0`: the depth when both the 3-D keypoint and its z exist, else 0 |
| HandDetection.StartTime | hooks/useHandDetection.ts:274 | `time \|\| performance.now()`: the frame time unless it is missing or 0 |
| HandDetection.Normalise | hooks/useHandDetection.ts:321-327 | one landmark per keypoint, x and y divided by the frame size, z from the 3-D keypoint or 0 |
| HandDetection.NormaliseIntoUnitSquare | hooks/useHandDetection.ts:320-327 | keypoints inside the frame normalise into the unit square |
| HandDetection.MediaPipeDetection | hooks/useHandDetection.ts:302-308 | a hand is detected iff results hold one, and it is the first |
| HandDetection.TensorFlowDetection | hooks/useHandDetection.ts:315-334 | a hand is detected iff estimateHands found one, with one landmark per keypoint |
| HandDetection.RawCount | hooks/useHandDetection.ts:284-334 | the pushed count is at most 5, and 0 when no hand was found |
| HandDetection.SmoothStep | hooks/useHandDetection.ts:337-348 | the new history is the bounded push of the raw count, the reported count is its smoothing, and both stay in 0..5 |
| HandDetection.PushAndSmooth | hooks/useHandDetection.ts:338-346 | pushes the count onto the history, drops the oldest entry past the bound, and reports the mode once two counts are held (the raw count before); entries and the result stay in 0..5 |
| HandDetection.DetectionLoop.constructor | hooks/useHandDetection.ts:112-133 | refs start empty, zero and not ready; the constants follow the engine and device |
| HandDetection.DetectionLoop.DetectorLoaded | hooks/useHandDetection.ts:168-176 | a loaded backend becomes the active, ready detector only while the effect is active |
| HandDetection.DetectionLoop.VisibilityChanged | hooks/useHandDetection.ts:135-137 | the tab is visible iff the document is not hidden |
| HandDetection.DetectionLoop.TryStartCycle | hooks/useHandDetection.ts:259-281 | a cycle starts iff every guard holds, the frame is non-empty and the interval has elapsed; starting records the start time and sets isProcessing |
| HandDetection.DetectionLoop.FinishCycle | hooks/useHandDetection.ts:283-358 | isProcessing is reset on every path; a completed cycle pushes, smooths and notifies exactly when the count changed |
| HandDetection.DetectionLoop.Teardown | hooks/useHandDetection.ts:385-399 | after cleanup the effect is inactive, the model not ready and the detector gone |
| MediaPipe.ModeByFirstReach | hooks/useMediaPipe.ts:28-40 | a value is returned iff the array is non-empty |
| MediaPipe.RunningCounts | hooks/useMediaPipe.ts:32-33 | the frequency record's count of each position's value right after that position is visited |
| MediaPipe.OccurrencesPrefix | hooks/useMediaPipe.ts:32-33 | a running count never exceeds the total count |
| MediaPipe.LastOccurrenceReachesTotal | hooks/useMediaPipe.ts:32-33 | at a value's last position its running count is its total count |
| MediaPipe.ModeByFirstReachIsMostFrequent | hooks/useMediaPipe.ts:28-40 | on a non-empty window the result is one of its values and no value occurs more often |
| MediaPipe.ModeAtFirstReachPosition | hooks/useMediaPipe.ts:33-36 | the result is the value at the position where the top count is first reached |
| MediaPipe.FirstReachPositionExists | hooks/useMediaPipe.ts:28-39 | every non-empty window has a position where the top count is first reached, and the result is the value there |
| MediaPipe.GetMode | hooks/useMediaPipe.ts:28-40 | the frequency-record loop returns the first value to reach the top count, a most frequent element |
| MediaPipe.VariantsAgreeOnStrictMaximum | hooks/useMediaPipe.ts:28-40 | a value occurring strictly more often than all others wins under both tie rules |
| MediaPipe.TieBreaksDiffer | hooks/useMediaPipe.ts:33-36 | on [1, 2, 2, 1] this variant gives 2 and the unified hook's gives 1 |
| MediaPipe.FirstReachStrictMajority | hooks/useMediaPipe.ts:28-40 | a value filling more than half of the window is returned |
| MediaPipe.LegacySmoothed | hooks/useMediaPipe.ts:209-211 | the reported count: the first-reach mode from three samples on, else the raw count |
| MediaPipe.LegacyRepeatedCountTakesOver | hooks/useMediaPipe.ts:203-211 | pushing one count more than half the capacity times makes it the reported count |
| MediaPipe.TwoSamplesPassThrough | hooks/useMediaPipe.ts:209-211 | two samples pass the raw count through here but are smoothed by the unified hook |
| MediaPipe.DetectionInterval | hooks/useMediaPipe.ts:21 | DETECTION_INTERVAL: 66 ms on mobile, 0 otherwise |
| MediaPipe.Throttled | hooks/useMediaPipe.ts:188 | a frame is skipped iff on mobile and within DETECTION_INTERVAL of the last detection |
| MediaPipe.ThrottleOnlyOnMobile | hooks/useMediaPipe.ts:187-191 | desktop never throttles; mobile skips a frame iff it comes within 66 ms of the last detection |
| MediaPipe.LegacyTracker.constructor | hooks/useMediaPipe.ts:14-25 | refs start empty and zero; the history size follows the device |
| MediaPipe.LegacyTracker.PredictWebcam | hooks/useMediaPipe.ts:180-226 | rescheduling iff the guards pass; a detection pushes, shifts and smooths from 3 samples; no hand clears history and count; a throttled frame changes nothing; a throw only records the detection time |
| Base64.BitOrZero | hooks/handDetection.worker.ts:19 | `x \| 0 == x` |
| Base64.BitOrAllOnes | hooks/handDetection.worker.ts:17 | `x \| -1 == -1` |
| Base64.BitOrDisjoint | hooks/handDetection.worker.ts:17-19 | `\|` of a shifted value and a smaller one is their sum |
| Base64.ShiftLeft | hooks/handDetection.worker.ts:17-19 | `x << k` as multiplication by 2^k, exact while the result stays in the 32-bit range |
| Base64.ShiftRight | hooks/handDetection.worker.ts:17-18 | `x >> k` as division by 2^k rounded toward negative infinity; `ShiftRightIsFloor` states the rounding |
| Base64.ShiftRightIsFloor | hooks/handDetection.worker.ts:17-18 | `x >> k` is the largest r with r·2^k ≤ x, for negative x (indexOf's -1) as well |
| Base64.LowBits | hooks/handDetection.worker.ts:18-19 | `x & (2^k − 1)` is a k-bit value, between 0 and 2^k − 1 |
| Base64.BitOr | hooks/handDetection.worker.ts:17-19 | `x \| y` on two's-complement integers, bit by bit; `BitOrZero`, `BitOrAllOnes` and `BitOrDisjoint` state its cases |
| Base64.FromCharCode | hooks/handDetection.worker.ts:21-27 | String.fromCharCode reduces its argument to a 16-bit code unit |
| Base64.Symbol | hooks/handDetection.worker.ts:7 | `base64Chars[i]` for 0 ≤ i < 64; `IndexOfSymbol` shows indexOf inverts it |
| Base64.IndexOf | hooks/handDetection.worker.ts:12-15 | indexOf is -1 or an alphabet index |
| Base64.SymbolIndexInverse | hooks/handDetection.worker.ts:7-15 | indexOf inverts the alphabet lookup, and `=` is not in the alphabet |
| Base64.IndexOfSymbol | hooks/handDetection.worker.ts:7-15 | indexOf finds each alphabet symbol at its own index |
| Base64.IsKept | hooks/handDetection.worker.ts:9 | the characters `[A-Za-z0-9+/=]` that the clean-up keeps |
| Base64.IndexOfNever64 | hooks/handDetection.worker.ts:23 | indexOf never yields 64, so the `enc3 !== 64` test always passes |
| Base64.Clean | hooks/handDetection.worker.ts:9 | the cleaned input is no longer and keeps only `A-Za-z0-9+/=` |
| Base64.CleanConcat | hooks/handDetection.worker.ts:9 | cleaning distributes over concatenation |
| Base64.CleanKeepsKept | hooks/handDetection.worker.ts:9 | input made only of kept characters is unchanged |
| Base64.Chr1 | hooks/handDetection.worker.ts:17 | chr1: enc1's six bits followed by the top two of enc2; `FirstUnitOfGroup` shows it recovers byte1 |
| Base64.Chr2 | hooks/handDetection.worker.ts:18 | chr2: enc2's low four bits followed by the top four of enc3; `SecondUnitOfGroup` shows it recovers byte2 |
| Base64.Chr3 | hooks/handDetection.worker.ts:19 | chr3: enc3's low two bits followed by enc4; `ThirdUnitOfGroup` shows it recovers byte3 |
| Base64.DecodedUnits | hooks/handDetection.worker.ts:21-28 | chr1 always, chr2 and chr3 only behind the enc3 and enc4 tests; `DecodedUnitsIs` and `DecodeGroupLength` state the result |
| Base64.DecodeGroup | hooks/handDetection.worker.ts:12-28 | one iteration of the atob loop on the four looked-up indices |
| Base64.DecodeClean | hooks/handDetection.worker.ts:11-29 | the atob loop over the cleaned string as a recursion, four units per step; `Atob` is proved equal to it |
| Base64.Decode | hooks/handDetection.worker.ts:6-32 | atob: clean, then the group loop; `DecodeEncode` and `NoiseIsIgnored` state its round trip and noise tolerance |
| Base64.Atob | hooks/handDetection.worker.ts:6-32 | the group loop returns the specification decoding |
| Base64.Lookup | hooks/handDetection.worker.ts:48-50 | `base64Chars[e]` is the symbol for 0..63 and the text "undefined" otherwise |
| Base64.LookupPair | hooks/handDetection.worker.ts:48 | `base64Chars[enc1] + base64Chars[enc2]`: two undefined operands add up to "NaN" |
| Base64.Enc1 | hooks/handDetection.worker.ts:43 | enc1: the top six bits of byte1 |
| Base64.Enc2 | hooks/handDetection.worker.ts:44 | enc2: byte1's low two bits followed by the top four of byte2 |
| Base64.Enc3 | hooks/handDetection.worker.ts:45 | enc3: byte2's low four bits followed by the top two of byte3 |
| Base64.Enc4 | hooks/handDetection.worker.ts:46 | enc4: the low six bits of byte3 |
| Base64.EncodedUnits | hooks/handDetection.worker.ts:48-50 | the lookups of one group, `=` in place of each index whose unit is missing |
| Base64.EncodeGroup | hooks/handDetection.worker.ts:39-50 | one iteration of the btoa loop; `EncodeGroupLatin1` equates it with the RFC 4648 group |
| Base64.Encode | hooks/handDetection.worker.ts:34-54 | btoa as a recursion, three units per step; `Btoa` is proved equal to it and `EncodeIsRfc` ties it to RFC 4648 |
| Base64.Btoa | hooks/handDetection.worker.ts:34-54 | the group loop returns the specification encoding |
| Base64.RfcGroup | hooks/handDetection.worker.ts:39-50 | the RFC 4648 group of up to three octets (four 6-bit slices, `=` for each slice with no input bit) is four characters |
| Base64.EncodeGroupLatin1 | hooks/handDetection.worker.ts:39-50 | for bytes below 256 the shift-and-mask group of btoa equals the RFC 4648 group |
| Base64.EncodeIsRfc | hooks/handDetection.worker.ts:34-54 | on Latin-1 strings btoa is the RFC 4648 encoding |
| Base64.RfcLength | hooks/handDetection.worker.ts:38-51 | the RFC 4648 encoding of n octets has length 4·⌈n/3⌉ |
| Base64.RfcSymbols | hooks/handDetection.worker.ts:48-50 | in the RFC 4648 encoding all but the last (3 − n mod 3) mod 3 characters are alphabet symbols |
| Base64.RfcPadding | hooks/handDetection.worker.ts:49-50 | in the RFC 4648 encoding the last (3 − n mod 3) mod 3 characters are `=` |
| Base64.DecodedUnitsIs | hooks/handDetection.worker.ts:21-28 | a group appends chr1, then chr2 only when enc3 and chr3 only when enc4 is neither 64 nor -1 |
| Base64.EncodeGroupShape | hooks/handDetection.worker.ts:43-50 | a group is four characters: two symbols, then symbols or `=` exactly as the remaining length says |
| Base64.EncodeLength | hooks/handDetection.worker.ts:38-51 | the encoding of n Latin-1 units has length 4·⌈n/3⌉ |
| Base64.EncodeSymbols | hooks/handDetection.worker.ts:48-50 | all but the last (3 − n mod 3) mod 3 characters are alphabet symbols |
| Base64.EncodePadding | hooks/handDetection.worker.ts:49-50 | the last (3 − n mod 3) mod 3 characters are `=` |
| Base64.EncodeShape | hooks/handDetection.worker.ts:34-54 | length, symbols and trailing padding together |
| Base64.EncodeIsKept | hooks/handDetection.worker.ts:9 | every character of an encoding survives the decoder's cleaning |
| Base64.FirstUnitOfGroup | hooks/handDetection.worker.ts:17 | chr1 recomputed from btoa's enc1 and enc2 is byte1 |
| Base64.SecondUnitOfGroup | hooks/handDetection.worker.ts:18 | chr2 recomputed from btoa's enc2 and enc3 is byte2 |
| Base64.ThirdUnitOfGroup | hooks/handDetection.worker.ts:19 | chr3 recomputed from btoa's enc3 and enc4 is byte3 |
| Base64.DecodeGroupOfBytes | hooks/handDetection.worker.ts:17-28 | decoding the indices of an encoded group gives back its 1 to 3 bytes |
| Base64.DecodeEncodeGroup | hooks/handDetection.worker.ts:11-28 | decoding an encoded group followed by more input gives its bytes followed by the rest's decoding |
| Base64.DecodeCleanRfc | hooks/handDetection.worker.ts:11-29 | the group loop inverts the RFC 4648 encoding of every Latin-1 string |
| Base64.DecodeCleanEncode | hooks/handDetection.worker.ts:11-29 | the group loop inverts the encoding of a Latin-1 string |
| Base64.DecodeEncode | hooks/handDetection.worker.ts:6-54 | `atob(btoa(s)) == s` for every string of code units below 256 |
| Base64.NoiseIsIgnored | hooks/handDetection.worker.ts:9 | inserting a character outside `A-Za-z0-9+/=` anywhere does not change the decoding |
| Base64.DecodeGroupLength | hooks/handDetection.worker.ts:21-28 | a group yields one unit plus one per third or fourth symbol that is not padding |
| Base64.DecodedLengthBounds | hooks/handDetection.worker.ts:11-29 | the output has between one and three units per started group |
| Base64.FullGroupsDecodeToThree | hooks/handDetection.worker.ts:11-29 | unpadded full groups decode to three units each |
| Base64.WideUnitEncodesUndefined | hooks/handDetection.worker.ts:43-50 | a code unit of 256 encodes with the text "undefined" for the out-of-range index |
| Base64.PaddingOnlyDecodesToAllOnes | hooks/handDetection.worker.ts:17-28 | "====" decodes to the single unit 0xFFFF |
| DetectionWorker.ErrorText | hooks/handDetection.worker.ts:111 | a non-empty message is passed on, a missing or empty one becomes the fallback text |
| DetectionWorker.Worker.constructor | hooks/handDetection.worker.ts:63-65 | no detector, not ready, not loading |
| DetectionWorker.Worker.BeginInit | hooks/handDetection.worker.ts:71-74 | a load starts iff none was under way; afterwards a load is under way |
| DetectionWorker.Worker.CompleteInit | hooks/handDetection.worker.ts:96-113 | loading is cleared on both paths; success stores a ready detector and replies "ready"; failure keeps the flags and replies with the error text |
| DetectionWorker.Worker.Terminate | hooks/handDetection.worker.ts:190-196 | detector dropped and not ready; a second terminate changes nothing |
| DetectionWorker.Worker.DetectHands | hooks/handDetection.worker.ts:117-164 | landmarks iff detector, readiness, context and a found hand; then the first hand normalised, one landmark per keypoint |
| DetectionWorker.Worker.HandleDetection | hooks/handDetection.worker.ts:208-226 | the bitmap is closed and a reply with the request's frameId posted iff a bitmap was sent; the reply carries detectHands' result |
| DetectionWorker.Worker.OnDetect | hooks/handDetection.worker.ts:176-188 | a request is deferred, unanswered and unclosed iff the model is not ready; otherwise the reply is exactly `HandleDetection`'s: none without a bitmap, else a "detection" reply with the request's frameId and the `DetectHands` landmarks |
| DetectionWorker.TerminatedWorkerFindsNothing | hooks/handDetection.worker.ts:122-124 | without a ready detector detectHands returns null |
| OverlayText.FindFirst | hooks/videoRecorder.worker.ts:163 | `find` gives the first matching line, or none when no line matches |
| OverlayText.StartsWith | hooks/videoRecorder.worker.ts:163 | `s.startsWith(prefix)` |
| OverlayText.EndsWith | hooks/videoRecorder.worker.ts:245 | `s.endsWith(suffix)` |
| OverlayText.HasPair | hooks/videoRecorder.worker.ts:237 | `s.includes("[[")` or `s.includes("]]")`: the character twice in a row |
| OverlayText.HasDigit | hooks/videoRecorder.worker.ts:197 | `/\d/.test(s)`: some ASCII digit |
| OverlayText.Split | hooks/videoRecorder.worker.ts:165 | split always yields at least one field |
| OverlayText.SplitFieldsFree | hooks/videoRecorder.worker.ts:207 | no field contains the separator |
| OverlayText.JoinSplit | hooks/videoRecorder.worker.ts:206-207 | joining the fields with the separator gives back the string |
| OverlayText.SplitJoin | hooks/videoRecorder.worker.ts:207 | splitting a join of separator-free fields gives back the fields |
| OverlayText.IsCountdownLine | hooks/videoRecorder.worker.ts:163 | the `find` test `line.startsWith("COUNTDOWN:")` |
| OverlayText.CountdownText | hooks/videoRecorder.worker.ts:163-165 | a countdown is shown iff some line starts with "COUNTDOWN:" |
| OverlayText.CountdownHasTwoFields | hooks/videoRecorder.worker.ts:165 | a countdown line has a second field, after the field "COUNTDOWN" |
| OverlayText.CountdownIsSecondField | hooks/videoRecorder.worker.ts:163-165 | the text is the colon-free field after "COUNTDOWN:" of the first countdown line, ended by a colon or the line's end |
| OverlayText.CountdownOfLine | hooks/videoRecorder.worker.ts:163-165 | the line "COUNTDOWN:" + t + more shows t when t has no colon and more is empty or starts with one |
| OverlayText.IsSequenceLine | hooks/videoRecorder.worker.ts:194-199 | the `find` test: not ROUND, not COUNTDOWN, a digit, and a space or "[[" |
| OverlayText.SequenceLine | hooks/videoRecorder.worker.ts:194-199 | the first line that is neither ROUND nor COUNTDOWN, has a digit, and has a space or "[["; none iff no line qualifies |
| OverlayText.Dashed | hooks/videoRecorder.worker.ts:206 | every space becomes a dash and nothing else changes |
| OverlayText.StripBrackets | hooks/videoRecorder.worker.ts:214 | removing "[[" and "]]" never lengthens the text |
| OverlayText.StripBracketsKeepsPlainText | hooks/videoRecorder.worker.ts:214 | text without brackets is unchanged |
| OverlayText.SequenceItems | hooks/videoRecorder.worker.ts:206-207 | there is at least one token |
| OverlayText.WrapStep | hooks/videoRecorder.worker.ts:211-220 | one iteration: push the current line and restart at the token iff the joined test line is too wide and the current line non-empty, else extend |
| OverlayText.WrapFrom | hooks/videoRecorder.worker.ts:210-222 | the lines the loop still pushes from a given token and current line, including the final push |
| OverlayText.Wrap | hooks/videoRecorder.worker.ts:206-222 | wrappedSeqLines for a token list; `WrapLinesFit` and `WrapJoin` state what it means |
| OverlayText.WrapSequence | hooks/videoRecorder.worker.ts:206-222 | the wrap loop returns the greedy wrapping of the dash tokens |
| OverlayText.WrapFromLinesFit | hooks/videoRecorder.worker.ts:210-222 | from any fitting start, every emitted line is non-empty and a token or within the width |
| OverlayText.WrapLinesFit | hooks/videoRecorder.worker.ts:210-222 | every wrapped line is non-empty, and a single token or at most maxWidth wide without brackets |
| OverlayText.WrapFromJoin | hooks/videoRecorder.worker.ts:210-222 | from any iteration i >= 1 with a non-empty current line, when no token is empty, the lines still to come rejoin to the current line and the remaining tokens |
| OverlayText.WrapJoin | hooks/videoRecorder.worker.ts:210-222 | with no empty token, joining the wrapped lines with "-" gives the tokens joined with "-" |
| OverlayText.WrapJoinsToDashedLine | hooks/videoRecorder.worker.ts:206-222 | with no empty token, the wrapped lines rejoin to the dashed sequence line |
| OverlayText.SequenceLines | hooks/videoRecorder.worker.ts:194-223 | no wrapped lines while the fail banner shows or without a sequence line; otherwise its wrapping, every line non-empty and either a single token or within canvasWidth − 40 |
| OverlayText.CloseAt | hooks/videoRecorder.worker.ts:238 | a lazy `.*?` match ends at a "]]" |
| OverlayText.CloseAtFinds | hooks/videoRecorder.worker.ts:238 | the earliest "]]" reachable without a line terminator is found |
| OverlayText.MatchEnd | hooks/videoRecorder.worker.ts:238 | a match starts with "[[", ends with "]]" and is at least four long |
| OverlayText.SplitFrom | hooks/videoRecorder.worker.ts:238 | the split with one capture group yields an odd number of parts |
| OverlayText.SplitHighlights | hooks/videoRecorder.worker.ts:238 | `line.split(/(\[\[.*?\]\])/g)` from the start of the line |
| OverlayText.SplitFromConcat | hooks/videoRecorder.worker.ts:238 | the parts concatenate back to the input |
| OverlayText.MarkedIsLong | hooks/videoRecorder.worker.ts:245-246 | a "[[…]]" segment has at least four characters |
| OverlayText.MarkedFieldMatches | hooks/videoRecorder.worker.ts:238 | on a line without line terminators, a field shaped "[[…]]" would have been matched by the pattern |
| OverlayText.PlainFieldIsUnmarked | hooks/videoRecorder.worker.ts:238 | on a line without line terminators, text between matches is never shaped "[[…]]" |
| OverlayText.IsMarked | hooks/videoRecorder.worker.ts:245 | the test `startsWith("[[") && endsWith("]]")` |
| OverlayText.SplitFromAlternates | hooks/videoRecorder.worker.ts:238 | captured parts sit at odd indices and are marked; on a line without terminators the others are not |
| OverlayText.Classify | hooks/videoRecorder.worker.ts:244-254 | the per-segment branch: highlighted with `slice(2, -2)` when marked, plain otherwise |
| OverlayText.PiecesOf | hooks/videoRecorder.worker.ts:243-244 | the segments drawn, empty ones skipped by `if (!segment) return` |
| OverlayText.Segments | hooks/videoRecorder.worker.ts:238-254 | the pieces of a line; `SegmentsRejoin` and `HighlightedExactlyTheTokens` state what they are |
| OverlayText.RestoreClassify | hooks/videoRecorder.worker.ts:245-254 | a classified segment restores to itself |
| OverlayText.RestorePieces | hooks/videoRecorder.worker.ts:243-255 | the non-empty pieces restore to the concatenated segments |
| OverlayText.SegmentsRejoin | hooks/videoRecorder.worker.ts:238-255 | restoring the brackets around highlighted pieces and concatenating gives the line |
| OverlayText.HighlightedExactlyTheTokens | hooks/videoRecorder.worker.ts:238-246 | on a line without line terminators, a segment is highlighted iff it is a matched "[[t]]" token, and it is drawn as t |
| OverlayText.Layout | hooks/videoRecorder.worker.ts:243-254 | the walk makes one placement per piece |
| OverlayText.LayoutIsLaidOut | hooks/videoRecorder.worker.ts:243-254 | each piece is placed at the start plus the widths of the pieces before it, centred on its own width |
| OverlayText.DrawPieces | hooks/videoRecorder.worker.ts:243-254 | the forEach loop skips empty segments and returns the layout of the remaining pieces from the given left edge |
| OverlayText.DrawSegments | hooks/videoRecorder.worker.ts:237-255 | the pieces of the split line are laid out from the left edge of the centred bracket-free line |
| OverlayText.LaidOutAbuts | hooks/videoRecorder.worker.ts:241-254 | each placed piece starts where the previous one ends |
| RecorderWorker.CropToPortrait | hooks/videoRecorder.worker.ts:46-62 | the crop is 9:16, inside the frame, centred with equal margins, and uncropped along one axis |
| RecorderWorker.CropIsLargest | hooks/videoRecorder.worker.ts:46-62 | no 9:16 rectangle inside the frame is larger |
| RecorderWorker.PortraitFrameIsNotCropped | hooks/videoRecorder.worker.ts:46-62 | a 9:16 frame is used whole |
| RecorderWorker.CropIsProper | hooks/videoRecorder.worker.ts:46-62 | a non-empty frame gives a non-empty crop |
| RecorderWorker.Recorder.Valid | hooks/videoRecorder.worker.ts:13-14 | a drawing context exists only together with its canvas; the constructor, `Init` and `Terminate` establish it |
| RecorderWorker.Recorder.constructor | hooks/videoRecorder.worker.ts:13-21 | no canvas, 720 by 1280, no overlay lines, banner hidden at round 1 |
| RecorderWorker.InCanvasRange | hooks/videoRecorder.worker.ts:29 | a finite size passes the canvas constructor's `[EnforceRange] unsigned long long` conversion iff it truncates into 0 .. 2^53 − 1 |
| RecorderWorker.Recorder.Init | hooks/videoRecorder.worker.ts:24-36 | size and device flag are always stored; "ready" is posted iff both sizes are in canvas range, and then the canvas exists and the context iff one was obtained; otherwise the constructor throws and canvas and context keep their old values |
| RecorderWorker.Recorder.UpdateOverlay | hooks/videoRecorder.worker.ts:279-281 | the lines are replaced wholesale, by none when the payload has none |
| RecorderWorker.Recorder.UpdateFailInfo | hooks/videoRecorder.worker.ts:283-285 | the banner state is replaced wholesale |
| RecorderWorker.Recorder.Terminate | hooks/videoRecorder.worker.ts:303-306 | canvas and context are dropped |
| RecorderWorker.Recorder.Plan | hooks/videoRecorder.worker.ts:44-223 | a frame shows the crop, the banner iff it is on, the countdown, and the wrapped sequence lines (none while the banner is on), each non-empty and either a single token or within canvasWidth − 40 |
| RecorderWorker.Recorder.DrawFrame | hooks/videoRecorder.worker.ts:287-301 | the bitmap is always closed; "frameReady" with the request's frameId iff a canvas and context exist, which under `Valid` is iff a context exists |
| RecorderWorker.FreshRecorderSendsNothing | hooks/videoRecorder.worker.ts:13-44 | before "init" a frame request of any size gets no reply, though its bitmap is closed |
| RecorderWorker.TerminatedRecorderSendsNothing | hooks/videoRecorder.worker.ts:287-306 | after "terminate" a frame request of any size gets no reply, though its bitmap is closed |

## Left out

- Browser I/O is not modelled: camera access, `getUserMedia`, `srcObject`,
  stopping tracks, and the `visibilitychange` listener registration.
  `VisibilityChanged` models only the listener's effect.
- Loading the models is not modelled: dynamic imports, `FilesetResolver`,
  `createFromOptions`, `createDetector`, `tf.setBackend`. Neither is the
  fallback chain in which `setupTensorFlow` calls `setupMediaPipe`.
  `DetectorLoaded` stands for whichever backend finished loading.
  `CompleteInit` receives the outcome of the worker's load.
- `detectForVideo` and `estimateHands` are foreign ML libraries. Their
  results are inputs (`Detection`, `Estimate`).
- Scheduling is not modelled: `requestAnimationFrame`,
  `requestVideoFrameCallback`, the `async`/`await` interleaving, and the
  50 ms `setInterval` polling wait in hooks/handDetection.worker.ts:177-186.
  `OnDetect` reports only that the request is deferred.
- The angle-based `countFingers` and `getAngle` of hooks/useMediaPipe.ts,
  lines 43-117, are out of scope. They rely on `Math.acos` and
  `Math.hypot`. `PredictWebcam` takes that classifier as a function
  parameter.
- All canvas drawing is out of scope: fonts, shadows, mirroring, the hook
  text, the watermark, the fail-banner font scaling (lines 142-151),
  `fillText` and `transferToImageBitmap`. `measureText(...).width` is the
  abstract `width` parameter.
- Overlay text is a Dafny `string`, a sequence of Unicode scalar values,
  while JavaScript strings are UTF-16 code units. No modelled test depends
  on the difference, but a lone surrogate in a line cannot be represented.
  The Base64 strings are modelled as code units.
- A sequence line without both "[[" and "]]" is drawn whole at the centre
  (lines 256-259). That branch has no placement model.
- The telemetry `fetch` calls and the console logging are side effects
  only, so they are left out.
- The React state setters are left out: `setError`, `setIsModelLoading`,
  `setCurrentEngine`, `setFingerCount`, and the `onCountUpdate` callback.
  The callback appears as the `notified` result of `FinishCycle`.
- Message-handler errors are left out: the outer `catch` of the detection
  worker's handler, and the exception that a `drawFrame` without a
  `videoBitmap` would raise at `videoBitmap.close()`.
- HandDetection.Normalise: requires a non-zero frame size. In IEEE
  arithmetic a zero size gives infinite or NaN coordinates, which reals
  cannot express.
- DetectionWorker.Worker.DetectHands: requires a non-zero frame size only
  on the path that normalises a found hand, for the same reason. Every
  path that returns null accepts any frame size.
- DetectionWorker.Worker.HandleDetection: requires a non-zero frame size
  only when a bitmap is sent and a hand is found, for the same reason.
- DetectionWorker.Worker.OnDetect: the same condition as `HandleDetection`.
  A deferred request accepts any frame size.
- RecorderWorker.CropToPortrait: requires non-negative dimensions. The
  zero-height case follows IEEE semantics: a positive width over zero is
  +Infinity and 0/0 is NaN. A negative video size is not modelled.
- RecorderWorker.Recorder.Init: sizes are reals, so a NaN or infinite canvas
  size, which also throws, is not modelled.
- RecorderWorker.Recorder.DrawFrame: requires non-negative dimensions only
  when a canvas and context exist, the one path that computes a crop, for
  the same reason.
- HandDetection.DetectionLoop.FinishCycle: models a throwing detector as
  failing before any ref is updated. That is where `detectForVideo` and
  `estimateHands` run.
- HandDetection.DetectionLoop.FinishCycle: `ratio` and the kind of
  `detection` are free inputs. Nothing ties `ratio` to the frame size that
  `TryStartCycle` checked (hooks/useHandDetection.ts:285). Nothing ties a
  MediaPipe or TensorFlow.js detection to `activeEngine` (line 288).
- Base64.Btoa: the 32-bit wrap-around of `<<` and `>>` is not modelled.
  No operand a UTF-16 code unit can produce reaches 2^31.
- Coordinates are ideal reals, so IEEE-754 rounding of the distance and
  threshold comparisons is not modelled.
