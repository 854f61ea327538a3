/**
 * The unified hand-detection hook (hooks/useHandDetection.ts): the
 * squared-distance finger classifier, the frequency mode with earliest-position
 * tie-breaking, the rolling history with change notification, and the gate that
 * decides whether a detection cycle starts.
 */
module HandDetection {
  import opened Wrappers

  // ------------------------------------------------------------------ landmarks

  /** One normalised hand landmark: x and y relative to the frame, z relative depth. */
  datatype Landmark = Landmark(x: real, y: real, z: real)

  /** Landmarks per hand: 0 is the wrist, then four per digit from knuckle to tip. */
  const LANDMARK_COUNT: nat := 21

  type LandmarkIndex = i: nat | i < 21

  const WRIST: LandmarkIndex := 0
  const THUMB_MCP: LandmarkIndex := 2
  const THUMB_IP: LandmarkIndex := 3
  const THUMB_TIP: LandmarkIndex := 4
  const INDEX_MCP: LandmarkIndex := 5
  const PINKY_MCP: LandmarkIndex := 17

  /** A non-thumb finger, by the landmark indices of its knuckle and of its tip. */
  datatype Finger = Finger(mcp: LandmarkIndex, tip: LandmarkIndex)

  /** Index, middle, ring and pinky, in the order the classifier visits them. */
  const FINGERS: seq<Finger> := [Finger(5, 8), Finger(9, 12), Finger(13, 16), Finger(17, 20)]

  /** The factors applied to squared distances: 1.35 squared, 1.15 squared, and the two thumb checks. */
  const FINGER_FACTOR: real := 1.8225
  const THUMB_SWING_FACTOR: real := 1.3225
  const THUMB_WRIST_FACTOR: real := 0.7
  const THUMB_INDEX_FACTOR: real := 1.1

  /** Squared 3-D distance with the x and z differences scaled by the frame's aspect ratio. */
  function DistanceSq3D(a: Landmark, b: Landmark, ratio: real): (d: real)
    ensures d >= 0.0
  {
    var dx := (a.x - b.x) * ratio;
    var dy := a.y - b.y;
    var dz := (a.z - b.z) * ratio;
    dx * dx + dy * dy + dz * dz
  }

  /** A landmark with its x and z stretched by `ratio` and its y left alone. */
  function Stretched(a: Landmark, ratio: real): Landmark
  {
    Landmark(a.x * ratio, a.y, a.z * ratio)
  }

  lemma DistanceSymmetric(a: Landmark, b: Landmark, ratio: real)
    ensures DistanceSq3D(a, b, ratio) == DistanceSq3D(b, a, ratio)
  {
  }

  /** The ratio acts exactly as stretching both points along x and z, never along y. */
  lemma DistanceScalesOnlyXZ(a: Landmark, b: Landmark, ratio: real)
    ensures DistanceSq3D(a, b, ratio) == DistanceSq3D(Stretched(a, ratio), Stretched(b, ratio), 1.0)
    ensures a.x == b.x && a.z == b.z ==>
      DistanceSq3D(a, b, ratio) == (a.y - b.y) * (a.y - b.y)
  {
  }

  // ----------------------------------------------------------------- classifier

  /** The thumb test: the tip has swung away from the pinky knuckle, then both secondary tests. */
  predicate ThumbExtended(lm: seq<Landmark>, ratio: real)
    requires |lm| >= LANDMARK_COUNT
  {
    var tip := lm[THUMB_TIP];
    if DistanceSq3D(tip, lm[PINKY_MCP], ratio) > DistanceSq3D(lm[THUMB_IP], lm[PINKY_MCP], ratio) * THUMB_SWING_FACTOR then
      DistanceSq3D(tip, lm[WRIST], ratio) > DistanceSq3D(lm[THUMB_MCP], lm[WRIST], ratio) * THUMB_WRIST_FACTOR &&
      DistanceSq3D(tip, lm[INDEX_MCP], ratio) > DistanceSq3D(lm[THUMB_MCP], lm[INDEX_MCP], ratio) * THUMB_INDEX_FACTOR
    else
      false
  }

  /** A finger is extended when its tip is more than 1.35 times as far from the wrist as its knuckle. */
  predicate FingerExtended(lm: seq<Landmark>, ratio: real, f: Finger)
    requires |lm| >= LANDMARK_COUNT
  {
    DistanceSq3D(lm[WRIST], lm[f.tip], ratio) > DistanceSq3D(lm[WRIST], lm[f.mcp], ratio) * FINGER_FACTOR
  }

  function Bit(b: bool): nat
  {
    if b then 1 else 0
  }

  /** How many of the first k fingers of FINGERS are extended. */
  function ExtendedFingers(lm: seq<Landmark>, ratio: real, k: nat): (n: nat)
    requires |lm| >= LANDMARK_COUNT && k <= |FINGERS|
    ensures n <= k
  {
    if k == 0 then 0 else ExtendedFingers(lm, ratio, k - 1) + Bit(FingerExtended(lm, ratio, FINGERS[k - 1]))
  }

  /** The finger count: 0 for fewer than 21 landmarks, otherwise thumb plus extended fingers. */
  function ExtendedCount(lm: seq<Landmark>, ratio: real): (n: nat)
    ensures n <= 5
    ensures |lm| < LANDMARK_COUNT ==> n == 0
  {
    if |lm| < LANDMARK_COUNT then 0
    else Bit(ThumbExtended(lm, ratio)) + ExtendedFingers(lm, ratio, |FINGERS|)
  }

  /** countFingers: the thumb test, then one increment per extended finger. */
  method CountFingers(landmarks: seq<Landmark>, ratio: real) returns (count: nat)
    ensures count == ExtendedCount(landmarks, ratio)
    ensures count <= 5
  {
    if |landmarks| < LANDMARK_COUNT {
      return 0;
    }
    var wrist := landmarks[WRIST];
    var pinkyMcp := landmarks[PINKY_MCP];
    count := 0;

    var thumbIp := landmarks[THUMB_IP];
    var thumbTip := landmarks[THUMB_TIP];
    var indexMcp := landmarks[INDEX_MCP];
    var tipToPinky := DistanceSq3D(thumbTip, pinkyMcp, ratio);
    var ipToPinky := DistanceSq3D(thumbIp, pinkyMcp, ratio);
    if tipToPinky > ipToPinky * THUMB_SWING_FACTOR {
      var tipToWrist := DistanceSq3D(thumbTip, wrist, ratio);
      var mcpToWrist := DistanceSq3D(landmarks[THUMB_MCP], wrist, ratio);
      var tipToIndex := DistanceSq3D(thumbTip, indexMcp, ratio);
      var mcpToIndex := DistanceSq3D(landmarks[THUMB_MCP], indexMcp, ratio);
      if tipToWrist > mcpToWrist * THUMB_WRIST_FACTOR && tipToIndex > mcpToIndex * THUMB_INDEX_FACTOR {
        count := count + 1;
      }
    }

    for k := 0 to |FINGERS|
      invariant count == Bit(ThumbExtended(landmarks, ratio)) + ExtendedFingers(landmarks, ratio, k)
    {
      var f := FINGERS[k];
      var wristToTip := DistanceSq3D(wrist, landmarks[f.tip], ratio);
      var wristToMcp := DistanceSq3D(wrist, landmarks[f.mcp], ratio);
      if wristToTip > wristToMcp * FINGER_FACTOR {
        count := count + 1;
      }
    }
  }

  /** The count written out test by test, with the landmark pairs named. */
  lemma CountIsSumOfTests(lm: seq<Landmark>, ratio: real)
    requires |lm| >= LANDMARK_COUNT
    ensures ExtendedCount(lm, ratio) ==
      Bit(ThumbExtended(lm, ratio))
      + Bit(DistanceSq3D(lm[0], lm[8], ratio) > DistanceSq3D(lm[0], lm[5], ratio) * 1.8225)
      + Bit(DistanceSq3D(lm[0], lm[12], ratio) > DistanceSq3D(lm[0], lm[9], ratio) * 1.8225)
      + Bit(DistanceSq3D(lm[0], lm[16], ratio) > DistanceSq3D(lm[0], lm[13], ratio) * 1.8225)
      + Bit(DistanceSq3D(lm[0], lm[20], ratio) > DistanceSq3D(lm[0], lm[17], ratio) * 1.8225)
  {
    assert FINGERS[0] == Finger(5, 8) && FINGERS[1] == Finger(9, 12);
    assert FINGERS[2] == Finger(13, 16) && FINGERS[3] == Finger(17, 20);
    var e1 := ExtendedFingers(lm, ratio, 1);
    var e2 := ExtendedFingers(lm, ratio, 2);
    var e3 := ExtendedFingers(lm, ratio, 3);
    var e4 := ExtendedFingers(lm, ratio, 4);
    assert e1 == Bit(FingerExtended(lm, ratio, Finger(5, 8)));
    assert e2 == e1 + Bit(FingerExtended(lm, ratio, Finger(9, 12)));
    assert e3 == e2 + Bit(FingerExtended(lm, ratio, Finger(13, 16)));
    assert e4 == e3 + Bit(FingerExtended(lm, ratio, Finger(17, 20)));
  }

  /** The thumb counts exactly when all three of its distance tests pass. */
  lemma ThumbNeedsAllThreeTests(lm: seq<Landmark>, ratio: real)
    requires |lm| >= LANDMARK_COUNT
    ensures ThumbExtended(lm, ratio) <==>
      DistanceSq3D(lm[4], lm[17], ratio) > 1.3225 * DistanceSq3D(lm[3], lm[17], ratio) &&
      DistanceSq3D(lm[4], lm[0], ratio) > 0.7 * DistanceSq3D(lm[2], lm[0], ratio) &&
      DistanceSq3D(lm[4], lm[5], ratio) > 1.1 * DistanceSq3D(lm[2], lm[5], ratio)
  {
  }

  /** The finger loop counts all k fingers exactly when each passes, and none exactly when none does. */
  lemma {:induction false} ExtendedFingersExtremes(lm: seq<Landmark>, ratio: real, k: nat)
    requires |lm| >= LANDMARK_COUNT && k <= |FINGERS|
    ensures ExtendedFingers(lm, ratio, k) == k <==> forall i :: 0 <= i < k ==> FingerExtended(lm, ratio, FINGERS[i])
    ensures ExtendedFingers(lm, ratio, k) == 0 <==> forall i :: 0 <= i < k ==> !FingerExtended(lm, ratio, FINGERS[i])
  {
    if k > 0 {
      ExtendedFingersExtremes(lm, ratio, k - 1);
    }
  }

  /** Five exactly when the hand is complete and the thumb and all four fingers pass. */
  lemma CountIsFiveIffAllExtended(lm: seq<Landmark>, ratio: real)
    ensures ExtendedCount(lm, ratio) == 5 <==>
      |lm| >= LANDMARK_COUNT && ThumbExtended(lm, ratio) &&
      forall i :: 0 <= i < |FINGERS| ==> FingerExtended(lm, ratio, FINGERS[i])
  {
    if |lm| >= LANDMARK_COUNT {
      ExtendedFingersExtremes(lm, ratio, |FINGERS|);
    }
  }

  /** Zero exactly when the hand is incomplete or no digit passes its test. */
  lemma CountIsZeroIffNoneExtended(lm: seq<Landmark>, ratio: real)
    ensures ExtendedCount(lm, ratio) == 0 <==>
      |lm| < LANDMARK_COUNT ||
      (!ThumbExtended(lm, ratio) && forall i :: 0 <= i < |FINGERS| ==> !FingerExtended(lm, ratio, FINGERS[i]))
  {
    if |lm| >= LANDMARK_COUNT {
      ExtendedFingersExtremes(lm, ratio, |FINGERS|);
    }
  }

  /** A flat open hand: fingertips far beyond their knuckles, thumb swung out. */
  const OPEN_HAND: seq<Landmark> := [
    Landmark(0.0, 0.0, 0.0),                                                     // wrist
    Landmark(0.1, 0.05, 0.0), Landmark(0.2, 0.1, 0.0), Landmark(0.35, 0.2, 0.0), Landmark(0.5, 0.3, 0.0),
    Landmark(0.1, 0.4, 0.0), Landmark(0.1, 0.6, 0.0), Landmark(0.1, 0.75, 0.0), Landmark(0.1, 0.9, 0.0),
    Landmark(0.0, 0.4, 0.0), Landmark(0.0, 0.6, 0.0), Landmark(0.0, 0.8, 0.0), Landmark(0.0, 1.0, 0.0),
    Landmark(-0.1, 0.4, 0.0), Landmark(-0.1, 0.6, 0.0), Landmark(-0.1, 0.75, 0.0), Landmark(-0.1, 0.9, 0.0),
    Landmark(-0.2, 0.35, 0.0), Landmark(-0.2, 0.5, 0.0), Landmark(-0.2, 0.65, 0.0), Landmark(-0.2, 0.8, 0.0)
  ]

  /** A closed fist: fingertips curled back near the wrist, thumb tucked against the palm. */
  const FIST: seq<Landmark> := [
    Landmark(0.0, 0.0, 0.0),
    Landmark(0.1, 0.05, 0.0), Landmark(0.2, 0.1, 0.0), Landmark(0.15, 0.2, 0.0), Landmark(0.0, 0.3, 0.0),
    Landmark(0.1, 0.4, 0.0), Landmark(0.1, 0.45, 0.0), Landmark(0.1, 0.3, 0.0), Landmark(0.1, 0.2, 0.0),
    Landmark(0.0, 0.4, 0.0), Landmark(0.0, 0.45, 0.0), Landmark(0.0, 0.3, 0.0), Landmark(0.0, 0.2, 0.0),
    Landmark(-0.1, 0.4, 0.0), Landmark(-0.1, 0.45, 0.0), Landmark(-0.1, 0.3, 0.0), Landmark(-0.1, 0.2, 0.0),
    Landmark(-0.2, 0.35, 0.0), Landmark(-0.2, 0.4, 0.0), Landmark(-0.2, 0.3, 0.0), Landmark(-0.2, 0.2, 0.0)
  ]

  lemma OpenHandCountsFive()
    ensures ExtendedCount(OPEN_HAND, 1.0) == 5
  {
    CountIsSumOfTests(OPEN_HAND, 1.0);
  }

  lemma FistCountsZero()
    ensures ExtendedCount(FIST, 1.0) == 0
  {
    FistThumbIsTucked();
    FistFingersAreCurled();
    CountIsSumOfTests(FIST, 1.0);
  }

  /** The fist's thumb tip is closer to the pinky knuckle than its IP joint is. */
  lemma FistThumbIsTucked()
    ensures !ThumbExtended(FIST, 1.0)
  {
    assert FIST[3] == Landmark(0.15, 0.2, 0.0) && FIST[4] == Landmark(0.0, 0.3, 0.0);
    assert FIST[17] == Landmark(-0.2, 0.35, 0.0);
    assert DistanceSq3D(FIST[4], FIST[17], 1.0) == 0.0425;
    assert DistanceSq3D(FIST[3], FIST[17], 1.0) == 0.145;
  }

  /** Each of the fist's fingertips is closer to the wrist than its knuckle. */
  lemma FistFingersAreCurled()
    ensures DistanceSq3D(FIST[0], FIST[8], 1.0) <= DistanceSq3D(FIST[0], FIST[5], 1.0) * 1.8225
    ensures DistanceSq3D(FIST[0], FIST[12], 1.0) <= DistanceSq3D(FIST[0], FIST[9], 1.0) * 1.8225
    ensures DistanceSq3D(FIST[0], FIST[16], 1.0) <= DistanceSq3D(FIST[0], FIST[13], 1.0) * 1.8225
    ensures DistanceSq3D(FIST[0], FIST[20], 1.0) <= DistanceSq3D(FIST[0], FIST[17], 1.0) * 1.8225
  {
    assert FIST[0] == Landmark(0.0, 0.0, 0.0);
    assert FIST[5] == Landmark(0.1, 0.4, 0.0) && FIST[8] == Landmark(0.1, 0.2, 0.0);
    assert FIST[9] == Landmark(0.0, 0.4, 0.0) && FIST[12] == Landmark(0.0, 0.2, 0.0);
    assert FIST[13] == Landmark(-0.1, 0.4, 0.0) && FIST[16] == Landmark(-0.1, 0.2, 0.0);
    assert FIST[17] == Landmark(-0.2, 0.35, 0.0) && FIST[20] == Landmark(-0.2, 0.2, 0.0);
  }

  // ----------------------------------------------------------------- frequency

  /** Number of positions of s holding v. */
  function Occurrences(s: seq<int>, v: int): (n: nat)
    ensures n <= |s|
  {
    if s == [] then 0 else Occurrences(s[..|s| - 1], v) + (if s[|s| - 1] == v then 1 else 0)
  }

  lemma {:induction false} OccurrencesPositive(s: seq<int>, v: int)
    ensures Occurrences(s, v) > 0 <==> v in s
  {
    if s != [] {
      OccurrencesPositive(s[..|s| - 1], v);
      assert s == s[..|s| - 1] + [s[|s| - 1]];
    }
  }

  /** Two different values share the positions of s. */
  lemma {:induction false} OccurrencesOfTwo(s: seq<int>, v: int, w: int)
    requires v != w
    ensures Occurrences(s, v) + Occurrences(s, w) <= |s|
  {
    if s != [] {
      OccurrencesOfTwo(s[..|s| - 1], v, w);
    }
  }

  /** The earliest position of a maximum among scores[..i]: a later score wins only when strictly larger. */
  function FirstMaxIndex(scores: seq<nat>, i: nat): (k: nat)
    requires 0 < i <= |scores|
    ensures k < i
    ensures forall j :: 0 <= j < i ==> scores[j] <= scores[k]
    ensures forall j :: 0 <= j < k ==> scores[j] < scores[k]
  {
    if i == 1 then 0
    else
      var k := FirstMaxIndex(scores, i - 1);
      if scores[i - 1] > scores[k] then i - 1 else k
  }

  /** For each position, how often its value occurs in the whole window. */
  function TotalCounts(s: seq<int>): seq<nat>
  {
    seq(|s|, j requires 0 <= j < |s| => Occurrences(s, s[j]))
  }

  /** The value getMode returns: 0 for an empty window, otherwise the value at the first maximal position. */
  function Mode(s: seq<int>): int
  {
    if s == [] then 0 else s[FirstMaxIndex(TotalCounts(s), |s|)]
  }

  /** Position k holds a most frequent value, and every earlier position a strictly rarer one. */
  predicate IsFirstModePosition(s: seq<int>, k: int)
  {
    0 <= k < |s| &&
    (forall j :: 0 <= j < |s| ==> Occurrences(s, s[j]) <= Occurrences(s, s[k])) &&
    (forall j :: 0 <= j < k ==> Occurrences(s, s[j]) < Occurrences(s, s[k]))
  }

  /** The mode of a non-empty window is one of its values, and no value occurs more often. */
  lemma ModeIsMostFrequent(s: seq<int>)
    requires s != []
    ensures Mode(s) in s
    ensures forall v :: Occurrences(s, v) <= Occurrences(s, Mode(s))
  {
    var scores := TotalCounts(s);
    var k := FirstMaxIndex(scores, |s|);
    forall v
      ensures Occurrences(s, v) <= Occurrences(s, Mode(s))
    {
      OccurrencesPositive(s, v);
      if v in s {
        var j :| 0 <= j < |s| && s[j] == v;
        assert scores[j] <= scores[k];
      }
    }
  }

  /** The mode is found at the first position holding a most frequent value, and there is one. */
  lemma ModeAtFirstModePosition(s: seq<int>, k: int)
    ensures IsFirstModePosition(s, k) ==> Mode(s) == s[k]
    ensures s != [] ==> exists p :: IsFirstModePosition(s, p) && s[p] == Mode(s)
  {
    if s != [] {
      var scores := TotalCounts(s);
      var m := FirstMaxIndex(scores, |s|);
      assert forall j :: 0 <= j < |s| ==> scores[j] == Occurrences(s, s[j]);
      assert IsFirstModePosition(s, m);
      if IsFirstModePosition(s, k) {
        assert scores[k] <= scores[m] && scores[m] <= scores[k];
      }
    }
  }

  /** getMode: for each position count its value's occurrences; a strictly larger count takes over. */
  method GetMode(arr: seq<int>) returns (mode: int)
    ensures mode == Mode(arr)
    ensures arr == [] ==> mode == 0
    ensures arr != [] ==> mode in arr && forall v :: Occurrences(arr, v) <= Occurrences(arr, mode)
  {
    if |arr| == 0 {
      return 0;
    }
    var maxFreq := 0;
    mode := arr[0];
    ghost var scores := TotalCounts(arr);
    for i := 0 to |arr|
      invariant i == 0 ==> maxFreq == 0 && mode == arr[0]
      invariant i > 0 ==> mode == arr[FirstMaxIndex(scores, i)] && maxFreq == scores[FirstMaxIndex(scores, i)]
    {
      var c := 0;
      for j := 0 to |arr|
        invariant c == Occurrences(arr[..j], arr[i])
      {
        assert arr[..j + 1][..j] == arr[..j];
        if arr[i] == arr[j] {
          c := c + 1;
        }
      }
      assert arr[..|arr|] == arr;
      if c > maxFreq {
        maxFreq := c;
        mode := arr[i];
      }
    }
    ModeIsMostFrequent(arr);
  }

  /** A value filling more than half of the window is its mode. */
  lemma StrictMajorityIsMode(s: seq<int>, x: int)
    requires 2 * Occurrences(s, x) > |s|
    ensures Mode(s) == x
  {
    assert s != [];
    ModeIsMostFrequent(s);
    if Mode(s) != x {
      OccurrencesOfTwo(s, Mode(s), x);
    }
  }

  // ----------------------------------------------------------------- smoothing

  /** The history after push(x) and, when that makes it longer than `size`, one shift(). */
  function PushBounded(history: seq<int>, x: int, size: nat): (h: seq<int>)
    requires size > 0
    ensures |h| > 0 && h[|h| - 1] == x
    ensures |h| == if |history| + 1 > size then |history| else |history| + 1
    ensures |history| < size ==> h == history + [x]
    ensures |history| >= size ==> h == history[1..] + [x]
    ensures |history| <= size ==> |h| <= size
  {
    var pushed := history + [x];
    assert pushed[|pushed| - 1] == x;
    if |pushed| > size then pushed[1..] else pushed
  }

  /** The count the hook reports: the mode once the window holds two samples, else the raw count. */
  function Smoothed(history: seq<int>, raw: int): int
  {
    if |history| >= 2 then Mode(history) else raw
  }

  /** Counts in 0..5 stay in 0..5 through a push and the smoothing. */
  lemma SmoothedInRange(history: seq<int>, raw: int, size: nat)
    requires size > 0
    requires forall j :: 0 <= j < |history| ==> 0 <= history[j] <= 5
    requires 0 <= raw <= 5
    ensures var h := PushBounded(history, raw, size);
      (forall j :: 0 <= j < |h| ==> 0 <= h[j] <= 5) && 0 <= Smoothed(h, raw) <= 5
  {
    var h := PushBounded(history, raw, size);
    var offset := |history| + 1 - |h|;
    forall j | 0 <= j < |h|
      ensures 0 <= h[j] <= 5
    {
      if j < |h| - 1 {
        assert h[j] == history[offset + j];
      }
    }
    if |h| >= 2 {
      ModeIsMostFrequent(h);
    }
  }

  /** The history after m consecutive pushes of x. */
  function PushRepeated(history: seq<int>, x: int, m: nat, size: nat): seq<int>
    requires size > 0
  {
    if m == 0 then history else PushBounded(PushRepeated(history, x, m - 1, size), x, size)
  }

  /** The history grows by one per push until it reaches the capacity. */
  lemma {:induction false} PushRepeatedLength(history: seq<int>, x: int, m: nat, size: nat)
    requires 0 < size && |history| <= size
    ensures |PushRepeated(history, x, m, size)| == if |history| + m < size then |history| + m else size
  {
    if m > 0 {
      PushRepeatedLength(history, x, m - 1, size);
    }
  }

  /** After m pushes of x, the last m positions (or all of them) hold x. */
  lemma {:induction false} PushRepeatedTail(history: seq<int>, x: int, m: nat, size: nat)
    requires 0 < size
    ensures forall j :: 0 <= j < |PushRepeated(history, x, m, size)| && j + m >= |PushRepeated(history, x, m, size)| ==>
      PushRepeated(history, x, m, size)[j] == x
  {
    if m > 0 {
      var prev := PushRepeated(history, x, m - 1, size);
      PushRepeatedTail(history, x, m - 1, size);
      var h := PushBounded(prev, x, size);
      assert h == PushRepeated(history, x, m, size);
      var offset := |prev| + 1 - |h|;
      forall j | 0 <= j < |h| && j + m >= |h|
        ensures h[j] == x
      {
        if j < |h| - 1 {
          assert h[j] == prev[offset + j];
        }
      }
    }
  }

  /** A value filling the last t positions occurs at least t times. */
  lemma {:induction false} TrailingOccurrences(s: seq<int>, x: int, t: nat)
    requires t <= |s|
    requires forall j :: |s| - t <= j < |s| ==> s[j] == x
    ensures Occurrences(s, x) >= t
  {
    if t > 0 {
      TrailingOccurrences(s[..|s| - 1], x, t - 1);
    }
  }

  /** Pushing the same count more than half the capacity times in a row makes it the reported count. */
  lemma RepeatedCountTakesOver(history: seq<int>, x: int, m: nat, size: nat)
    requires 0 < size && |history| <= size && 2 * m > size
    ensures Smoothed(PushRepeated(history, x, m, size), x) == x
  {
    var h := PushRepeated(history, x, m, size);
    PushRepeatedLength(history, x, m, size);
    PushRepeatedTail(history, x, m, size);
    if |h| >= 2 {
      var t := if m < |h| then m else |h|;
      TrailingOccurrences(h, x, t);
      StrictMajorityIsMode(h, x);
    }
  }

  /** With capacity two, the window [1, 2] reports 1: ties go to the earlier sample. */
  lemma TieGoesToEarlierSample()
    ensures PushBounded([1], 2, 2) == [1, 2]
    ensures Smoothed([1, 2], 2) == 1
  {
    var s := [1, 2];
    assert s[..1] == [1] && s[..1][..0] == [];
    assert Occurrences(s, 1) == 1 && Occurrences(s, 2) == 1;
    assert IsFirstModePosition(s, 0);
    ModeAtFirstModePosition(s, 0);
  }

  // ----------------------------------------------------------- detector output

  datatype Engine = MediaPipeEngine | TensorFlowEngine

  /** HISTORY_SIZE: three samples on mobile devices, five otherwise. */
  function HistorySize(isMobile: bool): nat
  {
    if isMobile then 3 else 5
  }

  /** DETECTION_INTERVAL in milliseconds, chosen from the requested engine. */
  function DetectionInterval(engine: Engine, isMobile: bool): real
  {
    match engine
    case TensorFlowEngine => if isMobile then 45.0 else 35.0
    case MediaPipeEngine => 55.0
  }

  /** The throughput-oriented engine may detect more often than the accuracy-oriented one. */
  lemma TensorFlowIntervalIsShorter(isMobile: bool)
    ensures 0.0 < DetectionInterval(TensorFlowEngine, isMobile) < DetectionInterval(MediaPipeEngine, isMobile)
  {
  }

  /** A keypoint in pixels, and the optional depth record of the matching 3-D keypoint. */
  datatype Keypoint = Keypoint(x: real, y: real)
  datatype Keypoint3D = Keypoint3D(z: Option<real>)
  datatype Hand = Hand(keypoints: seq<Keypoint>, keypoints3D: Option<seq<Keypoint3D>>)

  /** hand.keypoints3D?.[index]?.z ?? 0 */
  function DepthAt(depths: Option<seq<Keypoint3D>>, index: nat): real
  {
    if depths.Some? && index < |depths.value| then depths.value[index].z.GetOr(0.0) else 0.0
  }

  /** Pixel keypoints divided by the frame size; depth from the 3-D keypoints, or 0. */
  function Normalise(hand: Hand, videoWidth: real, videoHeight: real): (lm: seq<Landmark>)
    requires videoWidth != 0.0 && videoHeight != 0.0
    ensures |lm| == |hand.keypoints|
    ensures forall i :: 0 <= i < |lm| ==>
      lm[i].x * videoWidth == hand.keypoints[i].x &&
      lm[i].y * videoHeight == hand.keypoints[i].y &&
      lm[i].z == DepthAt(hand.keypoints3D, i)
  {
    seq(|hand.keypoints|, i requires 0 <= i < |hand.keypoints| =>
      Landmark(hand.keypoints[i].x / videoWidth, hand.keypoints[i].y / videoHeight, DepthAt(hand.keypoints3D, i)))
  }

  /** Keypoints inside the frame normalise into the unit square. */
  lemma NormaliseIntoUnitSquare(hand: Hand, videoWidth: real, videoHeight: real)
    requires videoWidth > 0.0 && videoHeight > 0.0
    requires forall i :: 0 <= i < |hand.keypoints| ==>
      0.0 <= hand.keypoints[i].x <= videoWidth && 0.0 <= hand.keypoints[i].y <= videoHeight
    ensures forall i :: 0 <= i < |hand.keypoints| ==>
      var lm := Normalise(hand, videoWidth, videoHeight);
      0.0 <= lm[i].x <= 1.0 && 0.0 <= lm[i].y <= 1.0
  {
    var lm := Normalise(hand, videoWidth, videoHeight);
    forall i | 0 <= i < |hand.keypoints|
      ensures 0.0 <= lm[i].x <= 1.0 && 0.0 <= lm[i].y <= 1.0
    {
      UnitQuotient(hand.keypoints[i].x, videoWidth);
      UnitQuotient(hand.keypoints[i].y, videoHeight);
    }
  }

  lemma UnitQuotient(a: real, b: real)
    requires b > 0.0 && 0.0 <= a <= b
    ensures 0.0 <= a / b <= 1.0
  {
    assert (a / b) * b == a;
  }

  /** What one detection cycle obtained from the active backend. */
  datatype Detection = Detected(landmarks: seq<Landmark>) | NoHand | Threw

  /** MediaPipe Tasks: the first hand of results.landmarks, if there is one. */
  function MediaPipeDetection(hands: seq<seq<Landmark>>): (d: Detection)
    ensures d.Detected? <==> hands != []
    ensures d.Detected? ==> d.landmarks == hands[0]
  {
    if |hands| > 0 then Detected(hands[0]) else NoHand
  }

  /** TensorFlow.js: the first hand's keypoints, normalised by the frame size (640 by 480 when it reads 0). */
  function TensorFlowDetection(hands: seq<Hand>, videoWidth: real, videoHeight: real): (d: Detection)
    ensures d.Detected? <==> hands != []
    ensures d.Detected? ==> |d.landmarks| == |hands[0].keypoints|
  {
    if |hands| > 0 then
      var vw := if videoWidth != 0.0 then videoWidth else 640.0;
      var vh := if videoHeight != 0.0 then videoHeight else 480.0;
      Detected(Normalise(hands[0], vw, vh))
    else NoHand
  }

  /** The raw count a cycle pushes: the classifier's count for a hand, 0 for none. */
  function RawCount(d: Detection, ratio: real): (n: nat)
    requires !d.Threw?
    ensures n <= 5
    ensures d.NoHand? ==> n == 0
  {
    if d.Detected? then ExtendedCount(d.landmarks, ratio) else 0
  }

  /** Classify the detection, push its count into the window, and compute the count to report. */
  method SmoothStep(history: seq<int>, detection: Detection, ratio: real, size: nat)
    returns (next: seq<int>, smoothed: int)
    requires size > 0 && !detection.Threw?
    requires forall j :: 0 <= j < |history| ==> 0 <= history[j] <= 5
    ensures next == PushBounded(history, RawCount(detection, ratio), size)
    ensures smoothed == Smoothed(next, RawCount(detection, ratio))
    ensures forall j :: 0 <= j < |next| ==> 0 <= next[j] <= 5
    ensures 0 <= smoothed <= 5
  {
    var currentCount := 0;
    if detection.Detected? {
      currentCount := CountFingers(detection.landmarks, ratio);
    }
    next, smoothed := PushAndSmooth(history, currentCount, size);
  }

  /** The history push with its shift, then the count to report; counts in 0..5 stay in 0..5. */
  method PushAndSmooth(history: seq<int>, currentCount: int, size: nat) returns (next: seq<int>, smoothed: int)
    requires size > 0 && 0 <= currentCount <= 5
    requires forall j :: 0 <= j < |history| ==> 0 <= history[j] <= 5
    ensures next == PushBounded(history, currentCount, size)
    ensures smoothed == Smoothed(next, currentCount)
    ensures forall j :: 0 <= j < |next| ==> 0 <= next[j] <= 5
    ensures 0 <= smoothed <= 5
  {
    next := history + [currentCount];
    if |next| > size {
      next := next[1..];
    }
    smoothed := currentCount;
    if |next| >= 2 {
      smoothed := GetMode(next);
    }
    SmoothedInRange(history, currentCount, size);
  }

  // ------------------------------------------------------------ detection loop

  /** The refs and effect-local flags of one mounted hook. */
  class DetectionLoop {
    const engine: Engine
    const isMobile: bool
    const historySize: nat
    const detectionInterval: real

    var isActive: bool
    var isTabVisible: bool
    var hasDetector: bool
    var isModelReady: bool
    var activeEngine: Engine
    var isProcessing: bool
    var lastDetectionTime: real
    var history: seq<int>
    var lastCount: int
    var fingerCount: int
    var landmarks: Option<seq<Landmark>>

    /** The constants follow the configuration; history and counts stay within the classifier's range. */
    ghost predicate Valid()
      reads this
    {
      historySize == HistorySize(isMobile) &&
      detectionInterval == DetectionInterval(engine, isMobile) &&
      |history| <= historySize &&
      (forall j :: 0 <= j < |history| ==> 0 <= history[j] <= 5) &&
      0 <= fingerCount <= 5 && 0 <= lastCount <= 5
    }

    constructor (engine: Engine, isMobile: bool)
      ensures Valid()
      ensures this.engine == engine && this.isMobile == isMobile
      ensures isActive && isTabVisible && !hasDetector && !isModelReady && activeEngine == engine
      ensures !isProcessing && lastDetectionTime == 0.0
      ensures history == [] && lastCount == 0 && fingerCount == 0 && landmarks == None
    {
      this.engine := engine;
      this.isMobile := isMobile;
      historySize := HistorySize(isMobile);
      detectionInterval := DetectionInterval(engine, isMobile);
      isActive := true;
      isTabVisible := true;
      hasDetector := false;
      isModelReady := false;
      activeEngine := engine;
      isProcessing := false;
      lastDetectionTime := 0.0;
      history := [];
      lastCount := 0;
      fingerCount := 0;
      landmarks := None;
    }

    /** A backend finished loading; it is kept only while the effect is still active. */
    method DetectorLoaded(e: Engine)
      modifies this`hasDetector, this`isModelReady, this`activeEngine
      ensures old(isActive) ==> hasDetector && isModelReady && activeEngine == e
      ensures !old(isActive) ==>
        hasDetector == old(hasDetector) && isModelReady == old(isModelReady) && activeEngine == old(activeEngine)
    {
      if isActive {
        hasDetector := true;
        activeEngine := e;
        isModelReady := true;
      }
    }

    /** The visibilitychange listener. */
    method VisibilityChanged(hidden: bool)
      modifies this`isTabVisible
      ensures isTabVisible == !hidden
    {
      isTabVisible := !hidden;
    }

    /** The guards of predictWebcam up to setting isProcessing: whether a detection cycle starts. */
    method TryStartCycle(hasVideo: bool, videoWidth: real, videoHeight: real, frameTime: Option<real>, now: real)
      returns (started: bool)
      requires Valid()
      modifies this`lastDetectionTime, this`isProcessing
      ensures Valid()
      ensures started <==>
        hasVideo && hasDetector && isActive && isTabVisible && !old(isProcessing) && isModelReady &&
        videoWidth > 0.0 && videoHeight > 0.0 &&
        StartTime(frameTime, now) - old(lastDetectionTime) >= detectionInterval
      ensures started ==> lastDetectionTime == StartTime(frameTime, now) && isProcessing
      ensures !started ==> lastDetectionTime == old(lastDetectionTime) && isProcessing == old(isProcessing)
    {
      started := false;
      if !hasVideo || !hasDetector || !isActive || !isTabVisible || isProcessing || !isModelReady {
        return;
      }
      if videoWidth > 0.0 && videoHeight > 0.0 {
        var startTime := StartTime(frameTime, now);
        if startTime - lastDetectionTime < detectionInterval {
          return;
        }
        lastDetectionTime := startTime;
        isProcessing := true;
        started := true;
      }
    }

    /** The body of a started cycle: classify, push, smooth, notify on change; isProcessing is reset in every case. */
    method FinishCycle(detection: Detection, ratio: real) returns (notified: Option<int>)
      requires Valid() && isProcessing
      modifies this`isProcessing, this`history, this`fingerCount, this`lastCount, this`landmarks
      ensures Valid() && !isProcessing
      ensures detection.Threw? ==>
        history == old(history) && fingerCount == old(fingerCount) && lastCount == old(lastCount) &&
        landmarks == old(landmarks) && notified == None
      ensures !detection.Threw? ==>
        var raw := RawCount(detection, ratio);
        history == PushBounded(old(history), raw, historySize) &&
        fingerCount == Smoothed(history, raw) &&
        lastCount == fingerCount &&
        (notified == if old(lastCount) != fingerCount then Some(fingerCount) else None) &&
        landmarks == (if detection.Detected? then Some(detection.landmarks) else None)
    {
      notified := None;
      if !detection.Threw? {
        var next, smoothedCount := SmoothStep(history, detection, ratio, historySize);
        history := next;
        fingerCount := smoothedCount;
        landmarks := if detection.Detected? then Some(detection.landmarks) else None;
        if lastCount != smoothedCount {
          lastCount := smoothedCount;
          notified := Some(smoothedCount);
        }
      }
      isProcessing := false;
    }

    /** The effect's cleanup: no cycle starts afterwards and the detector is released. */
    method Teardown()
      modifies this`isActive, this`isModelReady, this`hasDetector
      ensures !isActive && !isModelReady && !hasDetector
    {
      isActive := false;
      isModelReady := false;
      hasDetector := false;
    }
  }

  /** time || performance.now(): the frame callback's timestamp unless it is absent or zero. */
  function StartTime(frameTime: Option<real>, now: real): real
  {
    if frameTime.Some? && frameTime.value != 0.0 then frameTime.value else now
  }
}
