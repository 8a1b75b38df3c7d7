# Key-frame selection of the video analysis endpoint

The application selects key frames among frames that arrive already extracted. The endpoint
`/api/analyze_frames` expects a JSON body whose `frames` list holds, for each frame, base64
image data and an optional timestamp. It does four things:

- It walks the frames in order and compares each decoded frame with the previously decoded
  one using a scene-change detector.
- It emits a key-frame record `{data, index, change_rate, clarity, timestamp}` when the
  detector reports a new scene and at least 0.3 s have passed since the last emitted
  record.
- If more than six records were emitted, it keeps the six sharpest and presents them in
  timestamp order.
- It reports two empty outcomes as errors: no frames sent, and no scene detected.

The scene-change detector `detect_scene_change` takes the absolute pixel difference of two
grayscale frames. It computes a global change rate, the mean difference over 255. It also
computes sixteen block rates over a 4 x 4 grid of `(h // 4) x (w // 4)` blocks, dropping
trailing rows and columns. It declares a new scene when the global rate lies within
`[min, max]` (defaults 0.10 and 0.90), or when the largest block rate exceeds `0.8 * max`.
It returns the decision together with the larger of the global rate and the largest block
rate.

The project has four modules:

- `Wrappers` holds `Option` and `Result`.
- `SceneChange` holds the detector.
  - `Detect` is its specification.
  - `DetectSceneChange` is the method with the nested block loops, proved equal to
    `Detect`.
- `Capacity` holds the key-frame record and the capacity policy.
  - `SortBy` is a stable insertion sort that models Python's `list.sort`.
  - `Trim` is the policy itself.
- `FrameSelection` holds the scan.
  - `Step` is one loop iteration.
  - `Run` is the fold of `Step` over the input.
  - `Analyze` is the endpoint's outcome.
  - `AnalyzeFrames` is the loop itself, proved equal to `Analyze`.

## Model

| member | source | states |
|---|---|---|
| SceneChange.AbsDiff | app.py:53 | The difference frame has the shape of its inputs and holds the absolute difference of each pixel pair. |
| SceneChange.DetectSceneChange | app.py:47-71 | The method with the nested block loops returns exactly the decision and magnitude of the specification `Detect`. |
| SceneChange.BlockWithin | app.py:57-64 | Each of the four blocks per side is non-empty and lies inside the frame, with fewer than four rows or columns left over. |
| SceneChange.BlockEntry | app.py:61-66 | Entry `4*i + j` of the block list is the rate over rows `[i*(h//4), (i+1)*(h//4))` and columns `[j*(w//4), (j+1)*(w//4))`. |
| SceneChange.MaxOf | app.py:68 | The maximum of the block list is one of its elements and is at least every element. |
| SceneChange.RowSumBounds | app.py:53-66 | A sum of absolute differences over a row segment lies between 0 and 255 per pixel. |
| SceneChange.RegionSumBounds | app.py:53-66 | A sum over a rectangle lies between 0 and 255 times its area. |
| SceneChange.RateBounds | app.py:53-66 | The mean difference over 255 of any non-empty rectangle lies in [0, 1]. |
| SceneChange.BlockRatesBounds | app.py:60-66 | There are exactly 16 block rates, and each lies in [0, 1]. |
| SceneChange.DetectMagnitude | app.py:53-71 | The returned magnitude lies in [0, 1], is at least the global rate and every block rate, and equals the global rate or one of the block rates. |
| SceneChange.DetectDecision | app.py:68-69 | A new scene is declared exactly when `min <= rate <= max` or some block rate exceeds `0.8 * max`, in both directions. |
| SceneChange.IdenticalFramesNoScene | app.py:53-71 | Comparing a frame with itself under the default thresholds yields no new scene and magnitude 0. |
| SceneChange.BlocksIgnoreTrailing | app.py:56-66 | Two frame pairs whose pixel differences agree on the covered `4*(h//4) x 4*(w//4)` region have the same block rates, so trailing rows and columns are never inspected. |
| Capacity.Insert | app.py:136-138 | Inserting into a sorted run adds exactly one element and keeps the multiset of the rest. |
| Capacity.InsertSorted | app.py:136-138 | Inserting into a list sorted by the key keeps it sorted. |
| Capacity.InsertStable | app.py:136-138 | Inserting a record with a larger index than all others keeps equal-key records in index order. |
| Capacity.SortBy | app.py:136-138 | The sorted list is a permutation of its input and is non-decreasing in the key. |
| Capacity.SortByStable | app.py:136-138 | Given records in increasing index order, records with equal keys stay in index order after sorting, as Python's stable sort keeps them. |
| Capacity.Trim | app.py:135-138 | Up to six records are returned unchanged. More than six give exactly six, in timestamp order, drawn from the input as a sub-multiset. |
| Capacity.TrimKeepsSharpest | app.py:135-137 | No record dropped by the policy has a higher clarity than any record it keeps. |
| Capacity.TrimTiesFavourEarlier | app.py:136-137 | Between a kept and a dropped record of equal clarity, the kept record was emitted earlier. |
| FrameSelection.Step | app.py:89-132 | An undecodable frame leaves the state unchanged. The first decoded frame only becomes `prev_frame`, with `frame_count` 1 more. For a later frame, a shape mismatch leaves the state unchanged. Otherwise a record is appended exactly when the detector reports a new scene, the frame is at least 0.3 s after the last record and encoding succeeds. The record carries the encoded data, the index `frame_count`, the detector's magnitude, the frame's clarity and its timestamp, which becomes the last selected time. A failed encoding of a frame that would be emitted leaves the state unchanged. On every other path `prev_frame` becomes the frame and `frame_count` grows by one. |
| FrameSelection.AnalyzeFrames | app.py:74-146 | The loop, with its skips, the capacity policy and the two error outcomes, returns exactly `Analyze` of its input. |
| FrameSelection.StepInv | app.py:89-132 | One iteration keeps the scan invariant. The invariant covers the agreement of `prev_frame` and `frame_count`, the last selected time, spacing, positive and increasing indices below `frame_count`, change rates in [0, 1] and non-negative clarity. |
| FrameSelection.AppendInv | app.py:104-125 | Appending a record 0.3 s after the last one, with index `frame_count`, keeps the invariant. |
| FrameSelection.RunInv | app.py:83-132 | The invariant holds after any prefix of the input. |
| FrameSelection.EmittedProperties | app.py:84-125 | Emitted timestamps are pairwise at least 0.3 s apart in emission order and each is at least 0.3. Indices are at least 1, so the first decoded frame is never emitted. Indices increase in emission order, and change rates lie in [0, 1]. |
| FrameSelection.FrameCountAtMostDecoded | app.py:96-128 | `frame_count` never exceeds the number of frames that decode. |
| FrameSelection.UndecodedPrefix | app.py:94-97 | Frames that fail to decode leave the initial state untouched. |
| FrameSelection.FirstDecodedFrame | app.py:84-128 | After the first frame that decodes, it is `prev_frame`, `frame_count` is 1, and nothing has been emitted. |
| FrameSelection.CountAtMostOne | app.py:117-123 | A record list with increasing indices holds each record at most once. |
| FrameSelection.NoRepeats | app.py:137 | A sub-multiset of such a list has no repeated records. |
| FrameSelection.SortedSubsetSpaced | app.py:137-138 | Records taken from the emitted list and sorted by timestamp are still pairwise at least 0.3 s apart. |
| FrameSelection.TrimOfEmitted | app.py:134-138 | On emitted records, the policy returns an empty list only for empty input. It returns at most six records, a sub-multiset, the input itself when there are at most six, pairwise spacing and in-range values. |
| FrameSelection.TrimInRange | app.py:137 | Kept records keep positive indices and change rates in [0, 1]. |
| FrameSelection.SuccessProperties | app.py:134-146 | A successful response holds one to six records drawn from the emitted ones, spaced and in range. With at most six emitted records, the response is exactly the emitted list in emission order. |
| FrameSelection.SuccessKeepsSharpest | app.py:134-146 | In a successful response, no emitted record that was left out has a higher clarity than a kept one. Between a kept and a left-out record of equal clarity, the kept one was emitted earlier. |
| FrameSelection.FailureOutcomes | app.py:80-141 | "No frames data received" occurs exactly for an empty input. "No scenes detected" occurs exactly for a non-empty input that emits nothing. |

## Left out

- The web layer is not part of this model. That covers Flask routing, `request.json`, `jsonify` and the HTTP status codes; only the two error outcomes are kept. It also covers the template route, the YouTube API client, dotenv, the temporary directory and the `download_frames` stub. These are I/O and configuration.
- `static/script.js` is not part of this model: it is browser UI and network code.
- The shipped `static/script.js` sends only `{url}` to `/api/analyze_frames` (static/script.js:16-23, 184-189). With that client, `frames` is empty and the endpoint always returns "No frames data received".
- Base64 decoding, `cv2.imdecode` and the colour reading of an image are outside the model. A frame arrives as an optional, already decoded grayscale grid (`FrameData.decoded`). A missing `data` key or a bad header is also an exception inside the loop, so it is folded into `None`.
- Resizing to 1280 pixels wide, JPEG encoding and base64 re-encoding are foreign codec calls. They become a parameter `encode: Frame -> Option<string>`, where `None` is the exception path that skips the frame.
- `cv2.cvtColor` to gray is left out: the detector takes gray frames directly.
- `calculate_frame_clarity` (the variance of `cv2.Laplacian`) is a parameter `clarity: Frame -> Sharpness`: an arbitrary non-negative real.
- Floating point is idealised. Timestamps, means and thresholds are exact reals. `int`-to-float rounding and NaN are not modelled.
- Frames narrower or shorter than 4 pixels are excluded by the `Frame` type. For them, numpy takes the mean of an empty block, which gives NaN and a runtime warning. The source's behaviour on such frames is then a NaN comparison, which is not modelled.
- Timestamps that are not numbers would make the subtraction raise. They are not modelled: a timestamp is an optional real, and 0 when absent.
- Shape mismatches between consecutive frames make `cv2.absdiff` raise, which skips the frame. This is modelled by an explicit `SameShape` test in `Step` and `AnalyzeFrames`.
- The final catch-all exception handler (app.py:148-150) has no modelled trigger. Every exception inside the loop is caught per frame, and the remaining code cannot raise on the modelled data.
- The `print` logging of exception messages (app.py:131, app.py:149) is console output; the messages are not modelled, only the skip or error outcome.
