/** The frame-selection loop of the analysis endpoint: it walks the frames the client sent,
    compares each decoded frame with the previously decoded one, emits a key frame on a
    detected scene change at least 0.3 s after the last emitted one, then applies the
    capacity policy and reports the two empty outcomes as errors. */
module FrameSelection {
  import opened Wrappers
  import opened SceneChange
  import opened Capacity

  /** One entry of the request: the frame if its data decodes, and its timestamp if sent. */
  datatype FrameData = FrameData(decoded: Option<Frame>, timestamp: Option<real>)

  /** Clarity scores are variances, hence non-negative. */
  type Sharpness = r: real | 0.0 <= r

  datatype Error = NoFramesData | NoScenesDetected

  const MIN_FRAME_INTERVAL: real := 0.3

  /** The loop's variables: `prev_frame`, `frame_count`, `last_selected_frame_time` and `frames`. */
  datatype State = State(prev: Option<Frame>, frameCount: nat, lastSelected: real, frames: seq<KeyFrame>)

  const INIT: State := State(None, 0, 0.0, [])

  /** One iteration of the loop. `encode` is the resize and JPEG/base64 encoding, `None`
      when it raises; an exception anywhere in the body skips the frame. */
  function Step(s: State, fd: FrameData, clarity: Frame -> Sharpness, encode: Frame -> Option<string>): (r: State)
    ensures fd.decoded.None? ==> r == s
    ensures r == s || (r.prev == fd.decoded && r.frameCount == s.frameCount + 1)
    ensures s.prev.None? ==> r.frames == s.frames
    ensures r.frames == s.frames ==> r.lastSelected == s.lastSelected
    ensures r.frames == s.frames || (
      && |r.frames| == |s.frames| + 1
      && r.frames[..|s.frames|] == s.frames
      && r.frameCount == s.frameCount + 1
      && r.frames[|s.frames|].index == s.frameCount
      && r.frames[|s.frames|].timestamp == r.lastSelected
      && r.lastSelected - s.lastSelected >= MIN_FRAME_INTERVAL)
    // the first decoded frame only becomes `prev_frame`
    ensures fd.decoded.Some? && s.prev.None? ==> r == s.(prev := fd.decoded, frameCount := s.frameCount + 1)
    // `cv2.absdiff` raises on frames of different shapes, which skips the frame
    ensures fd.decoded.Some? && s.prev.Some? && !SameShape(s.prev.value, fd.decoded.value) ==> r == s
    // a comparable frame: a record is emitted exactly on a detected scene change at least the
    // minimum interval after the last record whose encoding succeeds; it carries the detector's
    // magnitude and the frame's clarity; only a failed encoding skips the frame
    ensures fd.decoded.Some? && s.prev.Some? && SameShape(s.prev.value, fd.decoded.value) ==>
      var curr := fd.decoded.value;
      var det := Detect(s.prev.value, curr, DEFAULT_MIN_THRESHOLD, DEFAULT_MAX_THRESHOLD);
      var emit := det.isNewScene && fd.timestamp.GetOr(0.0) - s.lastSelected >= MIN_FRAME_INTERVAL;
      && (|r.frames| == |s.frames| + 1 <==> emit && encode(curr).Some?)
      && (|r.frames| == |s.frames| + 1 ==>
            && r.frames[|s.frames|].data == encode(curr).value
            && r.frames[|s.frames|].changeRate == det.magnitude
            && r.frames[|s.frames|].clarity == clarity(curr)
            && r.frames[|s.frames|].timestamp == fd.timestamp.GetOr(0.0))
      && (emit && encode(curr).None? ==> r == s)
      && (!(emit && encode(curr).None?) ==> r.prev == fd.decoded && r.frameCount == s.frameCount + 1)
  {
    match fd.decoded
    case None => s
    case Some(curr) =>
      var t := fd.timestamp.GetOr(0.0);
      match s.prev
      case None => s.(prev := Some(curr), frameCount := s.frameCount + 1)
      case Some(prev) =>
        if !SameShape(prev, curr) then s  // `cv2.absdiff` raises on frames of different shapes
        else
          var det := Detect(prev, curr, DEFAULT_MIN_THRESHOLD, DEFAULT_MAX_THRESHOLD);
          if det.isNewScene && t - s.lastSelected >= MIN_FRAME_INTERVAL then
            match encode(curr)
            case None => s
            case Some(data) =>
              var kf := KeyFrame(data, s.frameCount, det.magnitude, clarity(curr), t);
              State(Some(curr), s.frameCount + 1, t, s.frames + [kf])
          else
            s.(prev := Some(curr), frameCount := s.frameCount + 1)
  }

  /** The state after the loop has consumed `input`. */
  function Run(input: seq<FrameData>, clarity: Frame -> Sharpness, encode: Frame -> Option<string>): State {
    if input == [] then INIT
    else Step(Run(input[..|input| - 1], clarity, encode), input[|input| - 1], clarity, encode)
  }

  /** The response of the endpoint, without its HTTP encoding. */
  function Analyze(input: seq<FrameData>, clarity: Frame -> Sharpness, encode: Frame -> Option<string>)
    : Result<seq<KeyFrame>, Error>
  {
    if input == [] then Failure(NoFramesData)
    else
      var kept := Trim(Run(input, clarity, encode).frames);
      if kept == [] then Failure(NoScenesDetected) else Success(kept)
  }

  /** The endpoint as the source runs it. */
  method AnalyzeFrames(framesData: seq<FrameData>, clarity: Frame -> Sharpness, encode: Frame -> Option<string>)
    returns (result: Result<seq<KeyFrame>, Error>)
    ensures result == Analyze(framesData, clarity, encode)
  {
    if |framesData| == 0 {
      return Failure(NoFramesData);
    }
    var frames: seq<KeyFrame> := [];
    var prevFrame: Option<Frame> := None;
    var frameCount: nat := 0;
    var lastSelectedFrameTime: real := 0.0;
    var n := 0;
    while n < |framesData|
      invariant 0 <= n <= |framesData|
      invariant State(prevFrame, frameCount, lastSelectedFrameTime, frames) == Run(framesData[..n], clarity, encode)
    {
      var frameData := framesData[n];
      n := n + 1;
      assert framesData[..n][..n - 1] == framesData[..n - 1];
      if frameData.decoded.None? {
        continue;
      }
      var currFrame := frameData.decoded.value;
      var currentTime := frameData.timestamp.GetOr(0.0);
      if prevFrame.Some? {
        if !SameShape(prevFrame.value, currFrame) {
          continue;
        }
        var isNewScene, changeRate := DetectSceneChange(prevFrame.value, currFrame, DEFAULT_MIN_THRESHOLD, DEFAULT_MAX_THRESHOLD);
        if isNewScene && currentTime - lastSelectedFrameTime >= MIN_FRAME_INTERVAL {
          var score := clarity(currFrame);
          var encoded := encode(currFrame);
          if encoded.None? {
            continue;
          }
          frames := frames + [KeyFrame(encoded.value, frameCount, changeRate, score, currentTime)];
          lastSelectedFrameTime := currentTime;
        }
      }
      prevFrame := Some(currFrame);
      frameCount := frameCount + 1;
    }
    assert framesData[..n] == framesData;
    // the in-place `sort`, slice and `sort` of the source; together they compute `Trim(frames)`
    if |frames| > MAX_KEY_FRAMES {
      frames := SortBy(frames, ByClarityDescending);
      frames := frames[..MAX_KEY_FRAMES];
      frames := SortBy(frames, ByTimestamp);
    }
    if |frames| == 0 {
      return Failure(NoScenesDetected);
    }
    return Success(frames);
  }

  // ---------------------------------------------------------------- invariants of the scan

  /** Any two emitted records are at least the minimum interval apart, in emission order,
      and the first is at least that far from the initial time 0. */
  predicate Spaced(frames: seq<KeyFrame>) {
    && Gapped(frames)
    && (forall k :: 0 <= k < |frames| ==> MIN_FRAME_INTERVAL <= frames[k].timestamp)
  }

  /** Any two records are at least the minimum interval apart, in sequence order. */
  predicate Gapped(frames: seq<KeyFrame>) {
    forall i, j :: 0 <= i < j < |frames| ==> frames[i].timestamp + MIN_FRAME_INTERVAL <= frames[j].timestamp
  }

  /** Every record has a positive frame index and a change rate in [0, 1]. */
  predicate InRange(frames: seq<KeyFrame>) {
    forall k :: 0 <= k < |frames| ==> 1 <= frames[k].index && 0.0 <= frames[k].changeRate <= 1.0
  }

  predicate Inv(s: State) {
    && (s.prev.None? <==> s.frameCount == 0)
    && (s.prev.None? ==> s.frames == [])
    && s.lastSelected == (if s.frames == [] then 0.0 else s.frames[|s.frames| - 1].timestamp)
    && Spaced(s.frames)
    && IndexIncreasing(s.frames)
    && (forall k :: 0 <= k < |s.frames| ==> 1 <= s.frames[k].index < s.frameCount)
    && (forall k :: 0 <= k < |s.frames| ==> 0.0 <= s.frames[k].changeRate <= 1.0 && 0.0 <= s.frames[k].clarity)
  }

  lemma StepInv(s: State, fd: FrameData, clarity: Frame -> Sharpness, encode: Frame -> Option<string>)
    requires Inv(s)
    ensures Inv(Step(s, fd, clarity, encode))
  {
    if fd.decoded.Some? && s.prev.Some? && SameShape(s.prev.value, fd.decoded.value) {
      var prev, curr := s.prev.value, fd.decoded.value;
      var t := fd.timestamp.GetOr(0.0);
      var det := Detect(prev, curr, DEFAULT_MIN_THRESHOLD, DEFAULT_MAX_THRESHOLD);
      if det.isNewScene && t - s.lastSelected >= MIN_FRAME_INTERVAL && encode(curr).Some? {
        DetectMagnitude(prev, curr, DEFAULT_MIN_THRESHOLD, DEFAULT_MAX_THRESHOLD);
        var kf := KeyFrame(encode(curr).value, s.frameCount, det.magnitude, clarity(curr), t);
        assert Step(s, fd, clarity, encode) == State(Some(curr), s.frameCount + 1, t, s.frames + [kf]);
        AppendInv(s, kf, curr);
      }
    }
  }

  /** Emitting a record at least the minimum interval after the last one keeps the invariant. */
  lemma AppendInv(s: State, kf: KeyFrame, curr: Frame)
    requires Inv(s) && s.prev.Some?
    requires kf.index == s.frameCount && kf.timestamp - s.lastSelected >= MIN_FRAME_INTERVAL
    requires 0.0 <= kf.changeRate <= 1.0 && 0.0 <= kf.clarity
    ensures Inv(State(Some(curr), s.frameCount + 1, kf.timestamp, s.frames + [kf]))
  {
    var frames := s.frames + [kf];
    var n := |s.frames|;
    forall i, j | 0 <= i < j < |frames|
      ensures frames[i].timestamp + MIN_FRAME_INTERVAL <= frames[j].timestamp
    {
      if j == n && i < n - 1 {
        assert s.frames[i].timestamp + MIN_FRAME_INTERVAL <= s.frames[n - 1].timestamp;
      }
    }
    assert Spaced(frames);
  }

  lemma {:induction false} RunInv(input: seq<FrameData>, clarity: Frame -> Sharpness, encode: Frame -> Option<string>)
    ensures Inv(Run(input, clarity, encode))
  {
    if input != [] {
      RunInv(input[..|input| - 1], clarity, encode);
      StepInv(Run(input[..|input| - 1], clarity, encode), input[|input| - 1], clarity, encode);
    }
  }

  /** Emitted timestamps are strictly increasing, at least 0.3 s apart and at least 0.3 s;
      every index is positive, so the first decoded frame is never emitted; indices
      increase in emission order; change rates lie in [0, 1]. */
  lemma EmittedProperties(input: seq<FrameData>, clarity: Frame -> Sharpness, encode: Frame -> Option<string>)
    ensures var frames := Run(input, clarity, encode).frames;
      && Spaced(frames)
      && IndexIncreasing(frames)
      && InRange(frames)
  {
    RunInv(input, clarity, encode);
  }

  function CountDecoded(input: seq<FrameData>): nat {
    if input == [] then 0
    else CountDecoded(input[..|input| - 1]) + (if input[|input| - 1].decoded.Some? then 1 else 0)
  }

  /** `frame_count` counts processed frames, at most the number that decode. */
  lemma {:induction false} FrameCountAtMostDecoded(input: seq<FrameData>, clarity: Frame -> Sharpness, encode: Frame -> Option<string>)
    ensures Run(input, clarity, encode).frameCount <= CountDecoded(input)
  {
    if input != [] {
      FrameCountAtMostDecoded(input[..|input| - 1], clarity, encode);
    }
  }

  /** Before the first frame that decodes, the loop has changed nothing. */
  lemma {:induction false} UndecodedPrefix(input: seq<FrameData>, clarity: Frame -> Sharpness, encode: Frame -> Option<string>)
    requires forall m :: 0 <= m < |input| ==> input[m].decoded.None?
    ensures Run(input, clarity, encode) == INIT
  {
    if input != [] {
      UndecodedPrefix(input[..|input| - 1], clarity, encode);
    }
  }

  /** The first frame that decodes becomes `prev_frame`, `frame_count` becomes 1, and nothing is emitted. */
  lemma FirstDecodedFrame(input: seq<FrameData>, k: nat, clarity: Frame -> Sharpness, encode: Frame -> Option<string>)
    requires k < |input| && input[k].decoded.Some?
    requires forall m :: 0 <= m < k ==> input[m].decoded.None?
    ensures Run(input[..k + 1], clarity, encode) == State(input[k].decoded, 1, 0.0, [])
  {
    assert input[..k + 1][..k] == input[..k];
    UndecodedPrefix(input[..k], clarity, encode);
  }

  // ---------------------------------------------------------------- the response

  lemma {:induction false} CountAtMostOne(s: seq<KeyFrame>, x: KeyFrame)
    requires IndexIncreasing(s)
    ensures multiset(s)[x] <= 1
  {
    if s != [] {
      assert s == [s[0]] + s[1..];
      CountAtMostOne(s[1..], x);
      if x == s[0] {
        assert x !in s[1..];
      }
    }
  }

  /** A sub-multiset of a sequence without repeated records has no repeated records. */
  lemma NoRepeats(r: seq<KeyFrame>, s: seq<KeyFrame>)
    requires IndexIncreasing(s) && multiset(r) <= multiset(s)
    ensures forall i, j :: 0 <= i < j < |r| ==> r[i] != r[j]
  {
    forall i, j | 0 <= i < j < |r|
      ensures r[i] != r[j]
    {
      if r[i] == r[j] {
        assert r == r[..j] + [r[j]] + r[j + 1..];
        assert r[i] in multiset(r[..j]);
        assert multiset(r)[r[i]] >= 2;
        CountAtMostOne(s, r[i]);
        assert false;
      }
    }
  }

  /** Records drawn without repetition from a spaced sequence, in timestamp order, are spaced. */
  lemma SortedSubsetSpaced(out: seq<KeyFrame>, frames: seq<KeyFrame>)
    requires Spaced(frames) && IndexIncreasing(frames)
    requires multiset(out) <= multiset(frames) && SortedBy(out, ByTimestamp)
    ensures Gapped(out)
  {
    NoRepeats(out, frames);
    forall i, j | 0 <= i < j < |out|
      ensures out[i].timestamp + MIN_FRAME_INTERVAL <= out[j].timestamp
    {
      assert out[i] in multiset(out) && out[j] in multiset(out);
      assert out[i] in frames && out[j] in frames;
      var p :| 0 <= p < |frames| && frames[p] == out[i];
      var q :| 0 <= q < |frames| && frames[q] == out[j];
      assert ByTimestamp(out[i]) <= ByTimestamp(out[j]);
      assert p != q;
    }
  }

  /** The capacity policy applied to records emitted by the scan. */
  lemma TrimOfEmitted(frames: seq<KeyFrame>)
    requires Spaced(frames) && IndexIncreasing(frames) && InRange(frames)
    ensures var out := Trim(frames);
      && (out == [] <==> frames == [])
      && |out| <= MAX_KEY_FRAMES
      && multiset(out) <= multiset(frames)
      && (|frames| <= MAX_KEY_FRAMES ==> out == frames)
      && Gapped(out)
      && InRange(out)
  {
    TrimInRange(frames);
    if |frames| > MAX_KEY_FRAMES {
      SortedSubsetSpaced(Trim(frames), frames);
    }
  }

  lemma TrimInRange(frames: seq<KeyFrame>)
    requires InRange(frames)
    ensures InRange(Trim(frames))
  {
    var out := Trim(frames);
    forall k | 0 <= k < |out|
      ensures 1 <= out[k].index && 0.0 <= out[k].changeRate <= 1.0
    {
      assert out[k] in multiset(out);
      assert out[k] in frames;
    }
  }

  /** A successful response holds one to six emitted records, in timestamp order and at
      least 0.3 s apart, none of them the first decoded frame, all drawn from the emitted
      records; when at most six were emitted it is exactly them, in emission order. */
  lemma SuccessProperties(input: seq<FrameData>, clarity: Frame -> Sharpness, encode: Frame -> Option<string>,
                          out: seq<KeyFrame>)
    requires Analyze(input, clarity, encode) == Success(out)
    ensures 1 <= |out| <= MAX_KEY_FRAMES
    ensures multiset(out) <= multiset(Run(input, clarity, encode).frames)
    ensures |Run(input, clarity, encode).frames| <= MAX_KEY_FRAMES ==> out == Run(input, clarity, encode).frames
    ensures Gapped(out)
    ensures InRange(out)
  {
    var frames := Run(input, clarity, encode).frames;
    AnalyzeValue(input, clarity, encode, out);
    EmittedProperties(input, clarity, encode);
    TrimOfEmitted(frames);
  }

  /** In a successful response no emitted record left out is sharper than a record kept,
      and of two equally sharp records across the cut the earlier emitted one is kept. */
  lemma SuccessKeepsSharpest(input: seq<FrameData>, clarity: Frame -> Sharpness, encode: Frame -> Option<string>,
                             out: seq<KeyFrame>)
    requires Analyze(input, clarity, encode) == Success(out)
    ensures forall a, b :: a in multiset(out) && b in multiset(Run(input, clarity, encode).frames) - multiset(out) ==>
      b.clarity <= a.clarity
    ensures forall a, b ::
      (a in multiset(out) && b in multiset(Run(input, clarity, encode).frames) - multiset(out) && a.clarity == b.clarity) ==>
      a.index < b.index
  {
    var frames := Run(input, clarity, encode).frames;
    AnalyzeValue(input, clarity, encode, out);
    RunInv(input, clarity, encode);
    TrimKeepsSharpest(frames);
    TrimTiesFavourEarlier(frames);
  }

  lemma AnalyzeValue(input: seq<FrameData>, clarity: Frame -> Sharpness, encode: Frame -> Option<string>,
                     out: seq<KeyFrame>)
    requires Analyze(input, clarity, encode) == Success(out)
    ensures out == Trim(Run(input, clarity, encode).frames)
  {
  }

  /** The two failure outcomes: no frames sent, and frames sent but no scene emitted. */
  lemma FailureOutcomes(input: seq<FrameData>, clarity: Frame -> Sharpness, encode: Frame -> Option<string>)
    ensures Analyze(input, clarity, encode) == Failure(NoFramesData) <==> input == []
    ensures Analyze(input, clarity, encode) == Failure(NoScenesDetected) <==>
      input != [] && Run(input, clarity, encode).frames == []
  {
    var frames := Run(input, clarity, encode).frames;
    if |frames| > MAX_KEY_FRAMES {
      assert |Trim(frames)| == MAX_KEY_FRAMES;
    }
  }
}
