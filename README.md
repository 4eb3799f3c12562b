# store-counter: the timeline store and detection post-processing, in Dafny

This project models the sequential core of the store-counter backend. The
people detector and the network behind it are treated as a black box.

- **`detector.dfy` (module `Detector`)** models `PeopleDetector.detect`
  after inference:
  - keep the predictions of the person class whose score is strictly
    above the threshold, in index order;
  - give each kept prediction its integer box centre, by floor division,
    and the spatial-hash id `cx//50 _ cy//50`;
  - give each new id a colour in the detector's `colors` map;
  - build the parallel `people` and `keypoints` lists.

  The detector is a class whose `colors` map the loop updates in place.
  The random draws (`randint` for a colour, `choice` for age group and
  gender) come in as an oracle sequence aligned with the predictions.
- **`demographics.dfy` (module `Demographics`)** models the aggregation
  half of `process_frame`:
  - one record per detected person;
  - the age and gender counters, which start with all keys at 0 and are
    incremented per person;
  - the summary with percentages `round(count * 100 / max(1, n))`, where
    Python's `round` is integer round-half-to-even on the rational.
- **`timeline.dfy` (module `Timeline`)** models the process-wide
  `video_data` dict as the class `VideoData`, with `seq` fields and the
  running `total_count`. It also covers these operations:
  - `process_frame`;
  - `upload_video`: reset, then a `while` loop that appends every 15th
    decoded frame;
  - `process_webcam_frame`: appends to three of the four lists, never to
    `demographic_summaries`;
  - `get_data`: answered with Python's indexing and slicing, negative
    indices included.

  A decoded video is a sequence of frames. Each frame is what the detector
  sees of it: its predictions and the draws made for them. A missing
  request field is `None`.

Every state-changing method is proved against a specification. The
functions `DetectRounds`, `UploadRounds`, `UploadColors` and `FrameAnalysis`
say what each step of the source's loops builds. The lemmas beside them
state what that means:
- index order and completeness of the filter;
- the centre, and id collision exactly on the same cell;
- colour-map monotonicity and validity;
- the stride arithmetic of the sampling;
- bucket totals and percentage bounds;
- the prefix-sum query.

## Model

| member | source | states |
|---|---|---|
| Detector.IndexOf | backend/people_detector.py:26-27 | `list.index`: the result is a position holding `"person"`, and no earlier position holds it |
| Detector.PeopleDetector.constructor | backend/people_detector.py:26-30 | the class id is the first index of "person" in the category list; the colour map starts empty; a list without "person" is not accepted (Python raises) |
| Detector.PersonIndices | backend/people_detector.py:66 | `np.where` over the mask: strictly increasing indices, each of a prediction of the person class with score above the threshold |
| Detector.PersonIndicesComplete | backend/people_detector.py:66 | every prediction of the person class scoring above the threshold is kept |
| Detector.PersonIndicesExact | backend/people_detector.py:66 | an index is kept if and only if its label is the person class and its score is strictly greater than the threshold |
| Detector.Centre | backend/people_detector.py:77-79 | the centre is the floor of the box midpoint on each axis, and lies inside the box when its corners are ordered |
| Detector.NatToString | backend/people_detector.py:83 | Python's `str` of a non-negative int: at least one character, all of them decimal digits, a single one exactly below 10 |
| Detector.IntToString | backend/people_detector.py:83 | Python's `str` of an int: never contains `_`, and starts with `-` exactly for negative numbers |
| Detector.NatToStringInjective | backend/people_detector.py:83 | distinct non-negative numbers print differently |
| Detector.IntToStringInjective | backend/people_detector.py:83 | distinct integers print differently |
| Detector.JoinInjective | backend/people_detector.py:83 | joining two `_`-free strings with `_` can be undone |
| Detector.IdsCollideIffSameCell | backend/people_detector.py:83 | two centres get the same id if and only if they fall in the same 50 by 50 cell |
| Detector.SameCellExample | backend/people_detector.py:83 | centres (10, 10) and (20, 20) both get id "0_0" |
| Detector.PositionsAt | backend/people_detector.py:101 | the keypoints are the people's positions, one per person, in order |
| Detector.DetectedPeopleFromPredictions | backend/people_detector.py:66-99 | the i-th person comes from the i-th kept prediction: its box, its score as confidence, the box centre as position, the centre's cell id, and the drawn age group and gender; every qualifying prediction appears |
| Detector.AddColorsKeeps | backend/people_detector.py:84-85 | a colour already in the map is never changed or removed |
| Detector.AddColorsCovers | backend/people_detector.py:84-85 | every id seen has a colour afterwards |
| Detector.AddColorsNewKey | backend/people_detector.py:84-85 | a new key is a seen id, and its colour is the one drawn for the first person with that id |
| Detector.AddColorsValid | backend/people_detector.py:85 | if every drawn colour has components in [0, 255], the map keeps that property |
| Detector.DetectRoundsMeaning | backend/people_detector.py:72-101 | after k rounds: the first k people, their positions, and the map grown by their (id, colour) entries |
| Detector.DetectedColors | backend/people_detector.py:72-85 | after `detect` the map is valid, holds every returned id, and keeps every old entry unchanged |
| Detector.DetectOutcome | backend/people_detector.py:66-107 | the whole loop yields exactly the specified people, keypoints equal to their positions, and the grown colour map |
| Detector.PeopleDetector.Track | backend/people_detector.py:72-101 | the per-person loop produces the people, keypoints and colour map that `DetectRounds` specifies |
| Detector.PeopleDetector.Detect | backend/people_detector.py:66-107 | `count == len(people) == len(keypoints)`; people as specified from the predictions; `keypoints[i] == people[i].position`; every id in `colors`; old colours kept; new colours in range |
| Demographics.RecordsAt | backend/app.py:36-43 | one record per person, in order, carrying the person's id, age group, gender and position |
| Demographics.ExtractDemographics | backend/app.py:36-43 | the append loop yields one record per person, in order, with the person's id, age group, gender and position |
| Demographics.CountAge | backend/app.py:49-50 | an age bucket count never exceeds the number of records |
| Demographics.CountGender | backend/app.py:49-51 | a gender bucket count never exceeds the number of records |
| Demographics.AgeCountsSum | backend/app.py:46-51 | the four age-bucket counts add up to the number of records |
| Demographics.GenderCountsSum | backend/app.py:46-51 | the two gender-bucket counts add up to the number of records |
| Demographics.CountBuckets | backend/app.py:46-51 | both counters have every key, each holding its bucket's true count, and each counter's total is the number of records |
| Demographics.DivModMeaning | backend/app.py:57 | the quotient and remainder satisfy Euclidean division |
| Demographics.RoundHalfEvenNearest | backend/app.py:57 | the rounded value is within one half of `a / d`, and an exact tie goes to the even neighbour |
| Demographics.PercentNearest | backend/app.py:55-70 | each percentage is `count * 100 / n` rounded half to even |
| Demographics.PercentInRange | backend/app.py:55-70 | a bucket holding at most all n records gets a percentage in [0, 100] |
| Demographics.PercentOfNone | backend/app.py:57 | with no records every percentage is 0 (the `max(1, n)` policy) |
| Demographics.TwoPercentsSum | backend/app.py:65-70 | two buckets that partition n > 0 records get percentages adding to exactly 100 |
| Demographics.FourPercentsSum | backend/app.py:55-64 | four buckets that partition n > 0 records get percentages adding to 100 give or take 2 |
| Demographics.SummaryOfCounters | backend/app.py:53-71 | the summary built from the counter dicts equals the summary of the records |
| Demographics.SummaryBuckets | backend/app.py:53-71 | four age buckets and two gender buckets in order, each with its label, its count and `round(count * 100 / max(1, n))` in [0, 100]; each list's counts add up to n |
| Demographics.EmptySummary | backend/app.py:53-71 | with nobody in the frame, every count and every percentage is 0 |
| Demographics.SummaryPercentTotals | backend/app.py:53-71 | with at least one person, the gender percentages add up to 100 and the age percentages to 100 give or take 2 |
| Timeline.SumSnoc | backend/app.py:120 | adding a frame's count to the sum equals the sum of the extended list |
| Timeline.SumPrefixStep | backend/app.py:177 | a prefix sum grows by the next count |
| Timeline.SumPrefixBounded | backend/app.py:177 | every prefix sum of counts lies between 0 and the whole sum |
| Timeline.PyIndex | backend/app.py:180-182 | Python indexing: defined exactly for `-len <= i < len`, and then the element at `i mod len`, so a negative index counts from the end |
| Timeline.PyPrefix | backend/app.py:177 | Python `s[:stop]` is always a prefix of `s`: all of `s` for a stop at or past the end, empty for a stop at or below `-len`, and of length `stop` in between |
| Timeline.PyPrefixNegative | backend/app.py:177 | a negative stop above `-len` cuts the same prefix as the stop `len + stop` |
| Timeline.FrameAnalysisMeaning | backend/app.py:30-79 | `process_frame`'s result: the detected people, count equal to their number, one keypoint and one record per person in order with that person's fields, and the summary of those records |
| Timeline.ProcessFrame | backend/app.py:30-79 | the method returns exactly `FrameAnalysis` of the frame; the detector's colour map is grown by the frame's (id, colour) entries, each new id getting its drawn colour, and stays valid; earlier colours are kept and every person of the result has a colour |
| Timeline.SampleStep | backend/app.py:106-115 | one more decoded frame adds a sampled entry exactly when its number is a multiple of 15, and that entry is frame `15 * n` |
| Timeline.SampleCountBounds | backend/app.py:106-128 | the number of sampled frames of a video of T frames is the unique n with `T <= 15n < T + 15` |
| Timeline.SampleCountExact | backend/app.py:106-115 | the sampled frame numbers are exactly the multiples of 15 below T |
| Timeline.Analyses | backend/app.py:109-117 | one `process_frame` result per decoded frame |
| Timeline.AnalysisAt | backend/app.py:117 | entry i of the per-frame results is `process_frame` of frame i |
| Timeline.UploadRoundsMeaning | backend/app.py:106-128 | after t decoded frames: four parallel lists with one entry per multiple of 15 below t; entry k is frame `15k` with that frame's count, records and summary |
| Timeline.UploadRoundsSampled | backend/app.py:106-128 | after the whole video: `SampleCount(T)` entries, entry k being frame `15k` and `process_frame`'s count, records and summary for it |
| Timeline.VideoData.constructor | backend/app.py:22-28 | the initial store: empty lists, `current_frame` and `total_count` 0, and no `demographic_summaries` key |
| Timeline.VideoData.UploadVideo | backend/app.py:83-137 | with no file the store is unchanged. Otherwise everything earlier is gone: the four lists hold exactly one entry per multiple of 15 below T. Frame numbers are increasing, processed frames is their number, `total_count` is the sum of counts, and `current_frame` is 0. The colour map is `UploadColors` of the video's entries: earlier colours are kept and every person of every sampled frame has a colour |
| Timeline.VideoData.UploadFrames | backend/app.py:98-128 | the reset followed by the sampling loop builds exactly `UploadRounds` of the whole video, and leaves the colour map at `UploadColors` of the whole video: earlier colours kept, every person of every sampled frame coloured |
| Timeline.VideoData.UploadStep | backend/app.py:114-128 | one round of the loop takes the store from `UploadRounds` at t to `UploadRounds` at t + 1 and keeps `total_count` equal to the sum of counts; a sampled frame adds its colour entries to the map (earlier colours kept, its people coloured) and a skipped frame leaves the map alone |
| Timeline.VideoData.SampleFrame | backend/app.py:115-117 | `process_frame` on frame k of the video gives that frame's analysis and adds that frame's colour entries to the map, keeping earlier colours |
| Timeline.UploadColorsKeeps | backend/app.py:109-128 | the upload loop never changes or removes a colour already allotted |
| Timeline.UploadColorsCovers | backend/app.py:115-117 | after t rounds every entry of every sampled frame below t has a colour |
| Timeline.UploadColorsNewKey | backend/app.py:114-117 | every key the loop adds comes from a sampled frame; skipped frames add nothing |
| Timeline.VideoData.ProcessWebcamFrame | backend/app.py:142-167 | with no image the store is unchanged. Otherwise `frames`, `counts` and `demographics` each grow by one entry, `total_count` grows by the frame's count, and `demographic_summaries` and all earlier entries are unchanged. The response carries the count, total, summary and keypoints, and the detector's colour map is grown by the frame's (id, colour) entries |
| Timeline.VideoData.GetData | backend/app.py:172-185 | rejects an absent position or one `>= len(frames)`; otherwise gives `counts[t]`, `sum(counts[:t+1])` and the whole series; a negative position `-len <= t < 0` gives the entry `len + t`, its count, `sum(counts[:len + t + 1])` (0 for `t = -1`), the whole series and the summary counted from the end of the summaries; a position past the stored summaries, or below `-len`, raises `IndexError` |
| Timeline.VideoData.GetDataChecked | backend/app.py:172-185 | the corrected query: an answer exactly for `0 <= t < len(frames)`, never an IndexError, the same count, running total and series, and demographics only where a summary is stored |
| Timeline.RunningTotalStep | backend/app.py:177 | each running total is the previous one plus the position's count |
| Timeline.RunningTotalBounds | backend/app.py:177 | the running total lies between the position's count and `total_count`, and the last position reaches `total_count` exactly |
| Timeline.GetDataCheckedAgrees | backend/app.py:172-185 | wherever a summary is stored (or none were ever created), the as-written and corrected queries agree |
| Timeline.EmptyStoreRejects | backend/app.py:173 | on an empty store every query fails |
| Timeline.RunningTotalExample | backend/app.py:177-183 | counts [2, 0, 3] give running totals 2, 2 and 5 and the series [2, 0, 3]; position 3 is rejected |
| Timeline.NegativeTimePosition | backend/app.py:173-177 | as written, position -1 on counts [2, 0, 3] answers count 3 with a running total of 0 |
| Timeline.SummaryGap | backend/app.py:182 | as written, a position past the stored summaries raises `IndexError` |
| Timeline.SummaryGapScenario | backend/app.py:182 | uploading a one-frame video, sending one webcam frame and then querying position 1 raises `IndexError` |
| Timeline.SummaryMisaligned | backend/app.py:180-182 | as written, with one webcam entry after the uploaded ones, position -1 answers the webcam entry and its count together with the last uploaded frame's summary, without an error |

## Left out

- Inference and image handling are not modelled: `preprocess_image`, the
  model call and tensor conversion, since these are foreign library code.
  Boxes come in as integers, so the `astype(int)` truncation from float is
  not modelled.
- `annotate_image` is not modelled: it is OpenCV drawing only.
- The HTTP layer is not modelled: Flask routing, the JSON and status-code
  shaping, `jsonify` and CORS. Errors are result values (`NoVideoFile`,
  `NoImageData`, `InvalidTimePosition`, `IndexError`).
- I/O is not modelled: saving the upload to `uploads/`, `cv2.VideoCapture`
  decoding and `release`, and the base64 and `imdecode` path of the webcam
  route.
  - A video is its sequence of decoded frames.
  - An image is one decoded frame.
  - A missing field is `None`.
  - A webcam payload whose decoding fails has no model, because decoding
    is left out.
- Randomness is an input. `random.randint` and `random.choice` are an
  oracle sequence of draws, one per prediction. Colours are constrained to
  [0, 255], and the age group and gender are enum values whose labels are
  `0-17`, `18-34`, `35-54`, `55+`, `Male` and `Female`.
- `datetime.now()` is not modelled: the webcam timestamp is a parameter.
  Timestamps are integers, so the float value and the `int(...)` cast in
  `get_data` are not modelled.
- Demographics.Percent: Python's float division and `round` are modelled as
  exact round-half-to-even on the rational `count * 100 / max(1, n)`. This
  matches Python except where floating-point error would move a value
  across a half.
- Timeline.VideoData.ProcessWebcamFrame: returns `WebcamOk` with the
  keypoints, but in the source the keypoints are numpy integers
  (backend/people_detector.py:73-79, 101). `jsonify` cannot serialise them,
  so with at least one person detected the route answers HTTP 500, after
  the store has already been appended. The JSON layer is not modelled, so
  this failure is not captured.
- `server.py` is not part of this model. It serves the built frontend. It
  also imports `backend_app` from `backend.app` and mounts it at `/api`.
  `backend/app.py` defines no such name, so `server.py` fails at import.
- The `frontend` React code is not part of this model: it is UI over mock
  data.
- Concurrency is not modelled: each request is taken to run alone. The
  server `backend/app.py` starts is Flask's development server, which runs
  requests on threads, and the global store has no lock. Interleaved
  upload, webcam and query calls on the shared store are not captured. For
  example, a webcam entry appended between two sampled frames of an upload
  is not modelled.

## Findings

| source | as written | input that shows it | evidently intended | confidence | as-written member | corrected member |
|---|---|---|---|---|---|---|
| backend/app.py:173 | only `time_pos >= len(frames)` is rejected, so a negative position passes and Python's negative indexing and slicing apply | counts [2, 0, 3], `time_pos = -1`: `current_count` is 3 but `total_count` is `sum(counts[:0]) == 0`; below `-len` the lookup raises IndexError (HTTP 500) | negative positions are out of range | not executed | Timeline.NegativeTimePosition | Timeline.VideoData.GetDataChecked |
| backend/app.py:182 | `demographic_summaries` is guarded only by key presence, while webcam frames extend `frames` but not `demographic_summaries` | upload a one-frame video, send one webcam frame, query `time_pos = 1`: IndexError (HTTP 500) | an entry without a stored summary answers without demographics | not executed | Timeline.SummaryGapScenario | Timeline.VideoData.GetDataChecked |
| backend/app.py:180-182 | with a negative position and webcam entries after an upload, `frames[t]` and `counts[t]` count from the end of the longer lists while `demographic_summaries[t]` counts from the end of the shorter one | upload a video, send one webcam frame, query `time_pos = -1`: the webcam entry's count comes back with the last uploaded frame's summary | the summary returned belongs to the entry returned | not executed | Timeline.SummaryMisaligned | Timeline.VideoData.GetDataChecked |

The running-total lemmas (`RunningTotalStep`, `RunningTotalBounds`) are
stated about the corrected query. `GetDataCheckedAgrees` shows that the two
queries agree wherever the as-written one does not fail.
