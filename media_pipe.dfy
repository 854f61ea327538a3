/**
 * The older MediaPipe-only hook (hooks/useMediaPipe.ts): a frequency-map mode
 * whose ties go to the value that first reaches the top count, a history that
 * is cleared when no hand is seen and smoothed only from three samples on, and
 * a throttle that applies on mobile devices only.
 */
module MediaPipe {
  import opened Wrappers
  import HandDetection

  // ---------------------------------------------------------------- the mode

  /** At each position, its value's count in the frequency record just after that position is visited. */
  function RunningCounts(s: seq<int>): seq<nat>
  {
    seq(|s|, j requires 0 <= j < |s| => HandDetection.Occurrences(s[..j + 1], s[j]))
  }

  /** The value getMode returns: undefined for an empty array, otherwise the first value to reach the top count. */
  function ModeByFirstReach(s: seq<int>): (r: Option<int>)
    ensures r.Some? <==> s != []
  {
    if s == [] then None else Some(s[HandDetection.FirstMaxIndex(RunningCounts(s), |s|)])
  }

  /** A prefix holds no more copies of a value than the whole window. */
  lemma {:induction false} OccurrencesPrefix(s: seq<int>, i: nat, v: int)
    requires i <= |s|
    ensures HandDetection.Occurrences(s[..i], v) <= HandDetection.Occurrences(s, v)
  {
    if i < |s| {
      var init := s[..|s| - 1];
      OccurrencesPrefix(init, i, v);
      assert init[..i] == s[..i];
    } else {
      assert s[..i] == s;
    }
  }

  /** At the last position holding v its running count is v's total count. */
  lemma {:induction false} LastOccurrenceReachesTotal(s: seq<int>, v: int) returns (j: nat)
    requires v in s
    ensures j < |s| && s[j] == v
    ensures HandDetection.Occurrences(s[..j + 1], v) == HandDetection.Occurrences(s, v)
  {
    if s[|s| - 1] == v {
      j := |s| - 1;
      assert s[..j + 1] == s;
    } else {
      var init := s[..|s| - 1];
      assert v in init by {
        var p :| 0 <= p < |s| && s[p] == v;
        assert init[p] == v;
      }
      j := LastOccurrenceReachesTotal(init, v);
      assert init[..j + 1] == s[..j + 1];
    }
  }

  /** On a non-empty window the result is one of its values, and no value occurs more often. */
  lemma ModeByFirstReachIsMostFrequent(s: seq<int>)
    requires s != []
    ensures ModeByFirstReach(s).value in s
    ensures forall v :: HandDetection.Occurrences(s, v) <= HandDetection.Occurrences(s, ModeByFirstReach(s).value)
  {
    var scores := RunningCounts(s);
    var k := HandDetection.FirstMaxIndex(scores, |s|);
    var m := s[k];
    OccurrencesPrefix(s, k + 1, m);
    forall v
      ensures HandDetection.Occurrences(s, v) <= HandDetection.Occurrences(s, m)
    {
      HandDetection.OccurrencesPositive(s, v);
      if v in s {
        var j := LastOccurrenceReachesTotal(s, v);
        assert scores[j] <= scores[k];
      }
    }
  }

  /** Position k is where the top count is first reached: every earlier running count is strictly lower. */
  ghost predicate IsFirstReachPosition(s: seq<int>, k: int)
  {
    0 <= k < |s| &&
    (forall v :: HandDetection.Occurrences(s, v) <= HandDetection.Occurrences(s[..k + 1], s[k])) &&
    (forall j :: 0 <= j < k ==> HandDetection.Occurrences(s[..j + 1], s[j]) < HandDetection.Occurrences(s[..k + 1], s[k]))
  }

  /** The result is the value at the position where the top count is first reached. */
  lemma ModeAtFirstReachPosition(s: seq<int>, k: int)
    requires IsFirstReachPosition(s, k)
    ensures ModeByFirstReach(s) == Some(s[k])
  {
    var scores := RunningCounts(s);
    var m := HandDetection.FirstMaxIndex(scores, |s|);
    RunningCountBound(s, k, m);
    assert scores[m] <= scores[k];
  }

  /** Every non-empty window has a first-reach position, and the result is the value there. */
  lemma FirstReachPositionExists(s: seq<int>)
    requires s != []
    ensures exists k :: IsFirstReachPosition(s, k) && ModeByFirstReach(s) == Some(s[k])
  {
    var scores := RunningCounts(s);
    var m := HandDetection.FirstMaxIndex(scores, |s|);
    FirstMaxIsTop(s);
    assert scores[m] == HandDetection.Occurrences(s[..m + 1], s[m]);
    assert forall j :: 0 <= j < m ==> HandDetection.Occurrences(s[..j + 1], s[j]) < scores[m] by {
      forall j | 0 <= j < m
        ensures HandDetection.Occurrences(s[..j + 1], s[j]) < scores[m]
      {
        assert scores[j] == HandDetection.Occurrences(s[..j + 1], s[j]);
      }
    }
    assert IsFirstReachPosition(s, m);
  }

  /** No value occurs more often in the window than the running count at the first maximum. */
  lemma FirstMaxIsTop(s: seq<int>)
    requires s != []
    ensures forall v :: HandDetection.Occurrences(s, v) <= RunningCounts(s)[HandDetection.FirstMaxIndex(RunningCounts(s), |s|)]
  {
    forall v
      ensures HandDetection.Occurrences(s, v) <= RunningCounts(s)[HandDetection.FirstMaxIndex(RunningCounts(s), |s|)]
    {
      FirstMaxIsTopFor(s, v);
    }
  }

  /** The bound of `FirstMaxIsTop` for one value. */
  lemma FirstMaxIsTopFor(s: seq<int>, v: int)
    requires s != []
    ensures HandDetection.Occurrences(s, v) <= RunningCounts(s)[HandDetection.FirstMaxIndex(RunningCounts(s), |s|)]
  {
    if v in s {
      var j := LastOccurrenceReachesTotal(s, v);
      RunningCountBelowFirstMax(s, j);
    } else {
      HandDetection.OccurrencesPositive(s, v);
    }
  }

  /** Every running count is at most the one at the first maximum. */
  lemma RunningCountBelowFirstMax(s: seq<int>, j: nat)
    requires j < |s|
    ensures HandDetection.Occurrences(s[..j + 1], s[j]) <= RunningCounts(s)[HandDetection.FirstMaxIndex(RunningCounts(s), |s|)]
  {
    var scores := RunningCounts(s);
    var m := HandDetection.FirstMaxIndex(scores, |s|);
    assert scores[j] <= scores[m];
    assert scores[j] == HandDetection.Occurrences(s[..j + 1], s[j]);
  }

  /** No running count exceeds the one at a first-reach position. */
  lemma RunningCountBound(s: seq<int>, k: int, j: nat)
    requires IsFirstReachPosition(s, k) && j < |s|
    ensures RunningCounts(s)[j] <= RunningCounts(s)[k]
  {
    OccurrencesPrefix(s, j + 1, s[j]);
  }


  /** The frequency record holds exactly the counts of the first i values. */
  ghost predicate Recorded(arr: seq<int>, i: nat, freq: map<int, nat>)
    requires i <= |arr|
  {
    (forall v :: v in freq ==> freq[v] == HandDetection.Occurrences(arr[..i], v)) &&
    (forall v :: v !in freq ==> HandDetection.Occurrences(arr[..i], v) == 0)
  }

  /** After i positions, best is where the top running count was first reached and top is that count. */
  ghost predicate Tracked(scores: seq<nat>, i: nat, best: nat, top: nat)
    requires i <= |scores|
  {
    if i == 0 then top == 0 else best < i && best == HandDetection.FirstMaxIndex(scores, i) && top == scores[best]
  }

  /** getMode: count each value in a record as it goes; a strictly higher count takes over. */
  method GetMode(arr: seq<int>) returns (mode: Option<int>)
    ensures mode == ModeByFirstReach(arr)
    ensures arr != [] ==>
      mode.value in arr && forall v :: HandDetection.Occurrences(arr, v) <= HandDetection.Occurrences(arr, mode.value)
  {
    var freq: map<int, nat> := map[];
    var maxFreq := 0;
    mode := if |arr| > 0 then Some(arr[0]) else None;
    ghost var scores := RunningCounts(arr);
    ghost var best := 0;
    for i := 0 to |arr|
      invariant Recorded(arr, i, freq)
      invariant Tracked(scores, i, best, maxFreq)
      invariant mode == if i == 0 then (if |arr| > 0 then Some(arr[0]) else None) else Some(arr[best])
    {
      var n := arr[i];
      RecordStep(arr, i, freq);
      var f := (if n in freq then freq[n] else 0) + 1;
      TrackStep(scores, i, best, maxFreq, f);
      freq := freq[n := f];
      if f > maxFreq {
        maxFreq := f;
        mode := Some(n);
        best := i;
      }
    }
    assert arr[..|arr|] == arr;
    if arr != [] {
      ModeByFirstReachIsMostFrequent(arr);
    }
  }

  /** Counting the value at i in a record of the counts before i gives the counts up to i, and i's running count. */
  lemma RecordStep(arr: seq<int>, i: nat, freq: map<int, nat>)
    requires i < |arr| && Recorded(arr, i, freq)
    ensures var f := (if arr[i] in freq then freq[arr[i]] else 0) + 1;
      f == RunningCounts(arr)[i] && Recorded(arr, i + 1, freq[arr[i] := f])
  {
    assert arr[..i + 1][..i] == arr[..i];
  }

  /** A running count strictly above the top so far moves the first-reach position to i; any other keeps it. */
  lemma TrackStep(scores: seq<nat>, i: nat, best: nat, top: nat, f: nat)
    requires i < |scores| && Tracked(scores, i, best, top) && f == scores[i] && f > 0
    ensures Tracked(scores, i + 1, if f > top then i else best, if f > top then f else top)
  {
  }

  /** A value that occurs strictly more often than every other wins under both tie-breaking rules. */
  lemma VariantsAgreeOnStrictMaximum(s: seq<int>, v: int)
    requires forall w :: w != v ==> HandDetection.Occurrences(s, w) < HandDetection.Occurrences(s, v)
    ensures HandDetection.Mode(s) == v
    ensures ModeByFirstReach(s) == Some(v)
  {
    assert HandDetection.Occurrences(s, v + 1) < HandDetection.Occurrences(s, v);
    assert s != [];
    HandDetection.ModeIsMostFrequent(s);
    ModeByFirstReachIsMostFrequent(s);
  }

  /** On [1, 2, 2, 1] the two rules part: earliest position gives 1, first to reach the top count gives 2. */
  lemma TieBreaksDiffer()
    ensures HandDetection.Mode([1, 2, 2, 1]) == 1
    ensures ModeByFirstReach([1, 2, 2, 1]) == Some(2)
  {
    var s := [1, 2, 2, 1];
    ExampleCounts();
    assert HandDetection.IsFirstModePosition(s, 0);
    HandDetection.ModeAtFirstModePosition(s, 0);
    assert IsFirstReachPosition(s, 2);
    ModeAtFirstReachPosition(s, 2);
  }

  /** The counts in [1, 2, 2, 1] and in its prefixes that the two tie-breaking rules look at. */
  lemma ExampleCounts()
    ensures HandDetection.Occurrences([1], 1) == 1
    ensures HandDetection.Occurrences([1, 2], 2) == 1
    ensures HandDetection.Occurrences([1, 2, 2], 2) == 2
    ensures HandDetection.Occurrences([1, 2, 2, 1], 1) == 2 && HandDetection.Occurrences([1, 2, 2, 1], 2) == 2
    ensures forall v :: HandDetection.Occurrences([1, 2, 2, 1], v) <= 2
  {
    var s := [1, 2, 2, 1];
    assert s[..3] == [1, 2, 2] && [1, 2, 2][..2] == [1, 2] && [1, 2][..1] == [1] && [1][..0] == [];
    assert HandDetection.Occurrences([1], 1) == 1;
    assert HandDetection.Occurrences([1, 2], 2) == 1;
    assert HandDetection.Occurrences([1, 2, 2], 2) == 2;
    forall v
      ensures HandDetection.Occurrences(s, v) <= 2
    {
    }
  }


  // --------------------------------------------------------------- smoothing

  /** The reported count: the mode once the window holds three samples, else the raw count. */
  function LegacySmoothed(history: seq<int>, raw: int): int
  {
    if |history| >= 3 then ModeByFirstReach(history).value else raw
  }

  /** A value filling more than half of the window is also the first to reach the top count. */
  lemma FirstReachStrictMajority(s: seq<int>, x: int)
    requires 2 * HandDetection.Occurrences(s, x) > |s|
    ensures ModeByFirstReach(s) == Some(x)
  {
    assert s != [];
    ModeByFirstReachIsMostFrequent(s);
    var m := ModeByFirstReach(s).value;
    if m != x {
      HandDetection.OccurrencesOfTwo(s, m, x);
    }
  }

  /** Pushing one count more than half the capacity times in a row makes it the reported count here too. */
  lemma LegacyRepeatedCountTakesOver(history: seq<int>, x: int, m: nat, size: nat)
    requires 0 < size && |history| <= size && 2 * m > size
    ensures LegacySmoothed(HandDetection.PushRepeated(history, x, m, size), x) == x
  {
    var h := HandDetection.PushRepeated(history, x, m, size);
    HandDetection.PushRepeatedLength(history, x, m, size);
    HandDetection.PushRepeatedTail(history, x, m, size);
    if |h| >= 3 {
      var t := if m < |h| then m else |h|;
      HandDetection.TrailingOccurrences(h, x, t);
      FirstReachStrictMajority(h, x);
    }
  }

  /** A window of two samples is smoothed by the unified hook but passed through here. */
  lemma TwoSamplesPassThrough(a: int, b: int)
    ensures LegacySmoothed([a, b], b) == b
    ensures HandDetection.Smoothed([a, b], b) == HandDetection.Mode([a, b])
  {
  }

  // ---------------------------------------------------------------- throttle

  /** DETECTION_INTERVAL: 66 ms on mobile devices, none on desktop. */
  function DetectionInterval(isMobile: bool): real
  {
    if isMobile then 66.0 else 0.0
  }

  /** Whether a frame is skipped: only mobile devices throttle. */
  predicate Throttled(isMobile: bool, now: real, lastDetection: real)
  {
    isMobile && now - lastDetection < DetectionInterval(isMobile)
  }

  /** Desktop runs detection on every frame; mobile skips frames within 66 ms of the last detection. */
  lemma ThrottleOnlyOnMobile(isMobile: bool, now: real, lastDetection: real)
    ensures !isMobile ==> !Throttled(isMobile, now, lastDetection)
    ensures isMobile ==> (Throttled(isMobile, now, lastDetection) <==> now - lastDetection < 66.0)
  {
  }

  // ----------------------------------------------------------------- tracker

  /** The refs of one mounted hook that predictWebcam reads and writes. */
  class LegacyTracker {
    const isMobile: bool
    const historySize: nat
    var history: seq<int>
    var fingerCount: int
    var lastDetectionTime: real
    var landmarks: Option<seq<HandDetection.Landmark>>

    ghost predicate Valid()
      reads this
    {
      historySize == HandDetection.HistorySize(isMobile) && |history| <= historySize
    }

    constructor (isMobile: bool)
      ensures Valid() && this.isMobile == isMobile
      ensures history == [] && fingerCount == 0 && lastDetectionTime == 0.0 && landmarks == None
    {
      this.isMobile := isMobile;
      historySize := HandDetection.HistorySize(isMobile);
      history := [];
      fingerCount := 0;
      lastDetectionTime := 0.0;
      landmarks := None;
    }

    /**
     * One call of predictWebcam at time `now`. `detection` is what detectForVideo produced
     * and `classify` stands for the angle-based finger counter. The result says whether the
     * next animation frame is requested.
     */
    method PredictWebcam(hasVideo: bool, hasLandmarker: bool, isActive: bool,
                         videoWidth: real, videoHeight: real, now: real,
                         detection: HandDetection.Detection, classify: seq<HandDetection.Landmark> -> int)
      returns (rescheduled: bool)
      requires Valid()
      modifies this`history, this`fingerCount, this`lastDetectionTime, this`landmarks
      ensures Valid()
      ensures rescheduled <==> hasVideo && hasLandmarker && isActive
      ensures var ran := rescheduled && videoWidth > 0.0 && videoHeight > 0.0 &&
                         !Throttled(isMobile, now, old(lastDetectionTime));
        (!ran ==> lastDetectionTime == old(lastDetectionTime)) &&
        (ran ==> lastDetectionTime == now) &&
        (!ran || detection.Threw? ==>
           history == old(history) && fingerCount == old(fingerCount) && landmarks == old(landmarks)) &&
        (ran && detection.NoHand? ==> history == [] && fingerCount == 0 && landmarks == None) &&
        (ran && detection.Detected? ==>
           var raw := classify(detection.landmarks);
           history == HandDetection.PushBounded(old(history), raw, historySize) &&
           fingerCount == LegacySmoothed(history, raw) &&
           landmarks == Some(detection.landmarks))
    {
      if !hasVideo || !hasLandmarker || !isActive {
        return false;
      }
      if videoWidth > 0.0 && videoHeight > 0.0 {
        var startTime := now;
        if isMobile && startTime - lastDetectionTime < DetectionInterval(isMobile) {
          return true;
        }
        lastDetectionTime := startTime;
        match detection
        case Detected(lm) =>
          landmarks := Some(lm);
          var count := classify(lm);
          var next := history + [count];
          if |next| > historySize {
            next := next[1..];
          }
          history := next;
          var smoothedCount := count;
          if |history| >= 3 {
            var m := GetMode(history);
            smoothedCount := m.value;
          }
          fingerCount := smoothedCount;
        case NoHand =>
          landmarks := None;
          history := [];
          fingerCount := 0;
        case Threw =>
      }
      rescheduled := true;
    }
  }
}
