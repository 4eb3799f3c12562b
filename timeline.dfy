/** The process-wide `video_data` store of backend/app.py and the three
    operations on it: `upload_video` (reset, then one entry for every 15th
    decoded frame), `process_webcam_frame` (append one entry) and `get_data`
    (a bounds-checked point query with a prefix sum), plus `process_frame`,
    which runs the detector on one frame and aggregates its result.

    A decoded frame is given by what the detector sees of it: the network's
    predictions and the random draws `detect` makes for them. */
module Timeline {
  import opened Detector
  import opened Demographics

  datatype Option<T> = None | Some(value: T)

  /** An entry of `frames`: the decoder's frame number after an upload, a
      (wall-clock) timestamp after a webcam call. */
  datatype FrameKey = FrameIndex(index: nat) | Timestamp(time: int)

  /** One decoded image, as the detector sees it. */
  datatype Frame = Frame(preds: seq<Prediction>, draws: seq<Draw>)

  predicate WellFormed(f: Frame)
  {
    |f.draws| == |f.preds| && ValidDraws(f.draws)
  }

  predicate AllWellFormed(video: seq<Frame>)
  {
    forall i :: 0 <= i < |video| ==> WellFormed(video[i])
  }

  /** The dict `process_frame` returns. */
  datatype FrameResult = FrameResult(count: nat, people: seq<Person>, keypoints: seq<Point>,
                                     demographics: seq<PersonRecord>, summary: DemographicSummary)

  datatype UploadResponse =
    | UploadOk(totalFrames: nat, processedFrames: nat, totalPeople: int)
    | NoVideoFile

  datatype WebcamResponse =
    | WebcamOk(count: nat, totalCount: int, demographics: DemographicSummary, keypoints: seq<Point>)
    | NoImageData

  /** The answer of `get_data`. `demographics` is `None` where the source
      answers `{}` because no upload has created `demographic_summaries` yet;
      `IndexError` is an uncaught Python `IndexError` (an HTTP 500). */
  datatype DataResponse =
    | Data(frame: FrameKey, currentCount: nat, demographics: Option<DemographicSummary>,
           timelineData: seq<nat>, totalCount: int)
    | InvalidTimePosition
    | IndexError

  // ---------------------------------------------------------------------
  // Helpers: sums and Python indexing

  function Sum(s: seq<int>): int
  {
    if |s| == 0 then 0 else Sum(s[..|s| - 1]) + s[|s| - 1]
  }

  lemma SumSnoc(s: seq<int>, x: int)
    ensures Sum(s + [x]) == Sum(s) + x
  {
    assert (s + [x])[..|s|] == s;
  }

  /** A prefix sum grows by the next element. */
  lemma SumPrefixStep(s: seq<int>, k: nat)
    requires k < |s|
    ensures Sum(s[..k + 1]) == Sum(s[..k]) + s[k]
  {
    assert s[..k + 1][..k] == s[..k];
  }

  /** Every prefix sum of non-negative numbers is at most the whole sum. */
  lemma {:induction false} SumPrefixBounded(s: seq<nat>, k: nat)
    requires k <= |s|
    ensures 0 <= Sum(s[..k]) <= Sum(s)
  {
    if k < |s| {
      SumPrefixBounded(s[..|s| - 1], k);
      assert s[..|s| - 1][..k] == s[..k];
      assert s[..|s|] == s;
    } else {
      assert s[..k] == s;
      SumNonNegative(s);
    }
  }

  lemma {:induction false} SumNonNegative(s: seq<nat>)
    ensures Sum(s) >= 0
  {
    if |s| > 0 {
      SumNonNegative(s[..|s| - 1]);
    }
  }

  /** `s[i]` in Python: negative indices count from the end; `None` is an
      `IndexError`. */
  function PyIndex<T>(s: seq<T>, i: int): (r: Option<T>)
    ensures r.Some? <==> -|s| <= i < |s|
    ensures -|s| <= i < |s| ==> r == Some(s[i % |s|])
  {
    if 0 <= i < |s| then Some(s[i])
    else if -|s| <= i < 0 then Some(s[|s| + i])
    else None
  }

  /** `s[:stop]` in Python: a negative stop counts from the end, and the
      result is clipped to the sequence. */
  function PyPrefix<T>(s: seq<T>, stop: int): (r: seq<T>)
    ensures |r| <= |s| && r == s[..|r|]
    ensures stop >= |s| ==> r == s
    ensures stop <= -|s| ==> r == []
    ensures 0 <= stop <= |s| ==> |r| == stop
  {
    if stop >= 0 then s[..if stop <= |s| then stop else |s|]
    else s[..if |s| + stop >= 0 then |s| + stop else 0]
  }

  /** A negative stop in range is the same as the non-negative stop that
      counts the same number of elements from the front. */
  lemma PyPrefixNegative<T>(s: seq<T>, stop: int)
    requires -|s| <= stop < 0
    ensures PyPrefix(s, stop) == PyPrefix(s, |s| + stop)
  {
  }

  // ---------------------------------------------------------------------
  // What one frame contributes

  /** The people `detect` reports for a frame. */
  function FramePeople(classId: int, f: Frame): seq<Person>
    requires |f.draws| == |f.preds|
  {
    DetectedPeople(f.preds, f.draws, classId, DefaultThreshold)
  }

  /** The `demographics` list `process_frame` builds for a frame. */
  function FrameRecords(classId: int, f: Frame): seq<PersonRecord>
    requires |f.draws| == |f.preds|
  {
    Records(FramePeople(classId, f))
  }

  lemma SeqExt<T>(a: seq<T>, b: seq<T>)
    requires |a| == |b| && forall i :: 0 <= i < |a| ==> a[i] == b[i]
    ensures a == b
  {
  }

  /** What `process_frame` returns for a frame: the people with their
      keypoints, their records and the summary of those records. */
  function FrameAnalysis(classId: int, f: Frame): FrameResult
    requires |f.draws| == |f.preds|
  {
    var ps, records := FramePeople(classId, f), FrameRecords(classId, f);
    FrameResult(|ps|, ps, Positions(ps), records, Summarize(records))
  }

  /** The analysis of a frame reports one keypoint and one record per
      detected person, in order, each carrying that person's position and
      labels; its summary counts those records. */
  lemma FrameAnalysisMeaning(classId: int, f: Frame)
    requires WellFormed(f)
    ensures var a, ps := FrameAnalysis(classId, f), FramePeople(classId, f);
      a.people == ps && a.count == |ps| == |a.keypoints| == |a.demographics| &&
      (forall k :: 0 <= k < |ps| ==>
        a.keypoints[k] == ps[k].position &&
        a.demographics[k].id == ps[k].id && a.demographics[k].ageGroup == ps[k].ageGroup &&
        a.demographics[k].gender == ps[k].gender && a.demographics[k].position == ps[k].position) &&
      a.summary == Summarize(a.demographics)
  {
    RecordsAt(FramePeople(classId, f));
    PositionsAt(FramePeople(classId, f));
  }

  /** `process_frame`: detect, copy each person into a record, count the
      buckets and build the summary. */
  method ProcessFrame(detector: PeopleDetector, frame: Frame) returns (r: FrameResult)
    requires detector.Valid() && WellFormed(frame)
    modifies detector
    ensures detector.Valid()
    ensures r == FrameAnalysis(detector.personClassId, frame)
    ensures detector.colors == AddColors(old(detector.colors), ColorEntries(frame.preds, frame.draws, detector.personClassId, DefaultThreshold))
    ensures forall id :: id in old(detector.colors) ==> id in detector.colors && detector.colors[id] == old(detector.colors)[id]
    ensures forall j :: 0 <= j < |r.people| ==> r.people[j].id in detector.colors
  {
    var count, people, keypoints := detector.Detect(frame.preds, frame.draws, DefaultThreshold);
    var records := ExtractDemographics(people);
    RecordsAt(people);
    SeqExt(records, Records(people));
    PositionsAt(people);
    SeqExt(keypoints, Positions(people));
    var ageStats, genderStats := CountBuckets(records);
    var summary := BuildSummary(ageStats, genderStats, |records|);
    SummaryOfCounters(records, ageStats, genderStats);
    r := FrameResult(count, people, keypoints, records, summary);
  }

  // ---------------------------------------------------------------------
  // Sampling

  /** How many of the frames `0 .. total - 1` are multiples of the stride
      `frame_step`, which is 15. */
  function SampleCount(total: nat): nat
  {
    (total + 14) / 15
  }

  /** One more decoded frame: `n` sampled frames so far become `n + 1`
      exactly when the frame number is a multiple of 15, which is then
      frame `15 * n`. */
  lemma SampleStep(frameCount: int, n: int)
    requires frameCount <= 15 * n < frameCount + 15
    ensures frameCount % 15 == 0 ==> 15 * n == frameCount && frameCount + 1 <= 15 * (n + 1) < frameCount + 16
    ensures frameCount % 15 != 0 ==> frameCount + 1 <= 15 * n < frameCount + 16
  {
  }

  /** `SampleCount(total)` is the one `n` with `total <= 15 * n < total + 15`. */
  lemma SampleCountBounds(total: nat, n: nat)
    ensures SampleCount(total) == n <==> total <= 15 * n < total + 15
  {
  }

  /** The sampled frame numbers `15 * k`, `k < SampleCount(total)`, are
      exactly the multiples of the stride below `total`, in increasing order. */
  lemma SampleCountExact(total: nat, f: nat)
    ensures f < total && f % 15 == 0 ==> f / 15 < SampleCount(total) && 15 * (f / 15) == f
    ensures forall k :: 0 <= k < SampleCount(total) ==> 15 * k < total && (15 * k) % 15 == 0
  {
  }

  /** `process_frame`'s result for every frame of a video, in order. */
  function Analyses(classId: int, video: seq<Frame>): (r: seq<FrameResult>)
    requires AllWellFormed(video)
    ensures |r| == |video|
  {
    if |video| == 0 then []
    else Analyses(classId, video[..|video| - 1]) + [FrameAnalysis(classId, video[|video| - 1])]
  }

  lemma {:induction false} AnalysesAt(classId: int, video: seq<Frame>)
    requires AllWellFormed(video)
    ensures forall i :: 0 <= i < |video| ==> Analyses(classId, video)[i] == FrameAnalysis(classId, video[i])
  {
    if |video| > 0 {
      var init := video[..|video| - 1];
      AnalysesAt(classId, init);
      forall i | 0 <= i < |video| - 1 ensures Analyses(classId, video)[i] == FrameAnalysis(classId, video[i]) {
        assert video[i] == init[i];
      }
    }
  }

  /** Frame `i`'s entry in `Analyses`. */
  lemma AnalysisAt(classId: int, video: seq<Frame>, i: nat)
    requires AllWellFormed(video) && i < |video|
    ensures Analyses(classId, video)[i] == FrameAnalysis(classId, video[i])
  {
    AnalysesAt(classId, video);
  }

  /** The four lists `upload_video` has built after decoding the first `t`
      frames, given the frames' analyses: frame numbers, counts, records and
      summaries. */
  function UploadRounds(analyses: seq<FrameResult>, t: nat)
    : (seq<FrameKey>, seq<nat>, seq<seq<PersonRecord>>, seq<DemographicSummary>)
    requires t <= |analyses|
  {
    if t == 0 then ([], [], [], [])
    else
      var prev, a := UploadRounds(analyses, t - 1), analyses[t - 1];
      if (t - 1) % 15 == 0 then
        (prev.0 + [FrameIndex(t - 1)], prev.1 + [a.count], prev.2 + [a.demographics], prev.3 + [a.summary])
      else prev
  }

  /** One more decoded frame appends to all four lists when its number is a
      multiple of 15 and leaves them alone otherwise. */
  lemma UploadRoundsStep(analyses: seq<FrameResult>, t: nat)
    requires t < |analyses|
    ensures var prev, next, a := UploadRounds(analyses, t), UploadRounds(analyses, t + 1), analyses[t];
      if t % 15 == 0 then
        next == (prev.0 + [FrameIndex(t)], prev.1 + [a.count], prev.2 + [a.demographics], prev.3 + [a.summary])
      else next == prev
  {
  }

  /** After `t` decoded frames the four lists are parallel and hold one
      entry per multiple of 15 below `t`: entry `k` is frame `15 * k` with
      that frame's count, records and summary. */
  lemma {:induction false} UploadRoundsMeaning(analyses: seq<FrameResult>, t: nat)
    requires t <= |analyses|
    ensures var r := UploadRounds(analyses, t);
      t <= 15 * |r.0| < t + 15 && |r.1| == |r.0| && |r.2| == |r.0| && |r.3| == |r.0| &&
      forall k :: 0 <= k < |r.0| ==>
        15 * k < t && r.0[k] == FrameIndex(15 * k) && r.1[k] == analyses[15 * k].count &&
        r.2[k] == analyses[15 * k].demographics && r.3[k] == analyses[15 * k].summary
  {
    if t > 0 {
      UploadRoundsMeaning(analyses, t - 1);
      var prev, r := UploadRounds(analyses, t - 1), UploadRounds(analyses, t);
      SampleStep(t - 1, |prev.0|);
      UploadRoundsStep(analyses, t - 1);
      if (t - 1) % 15 == 0 {
        forall k | 0 <= k < |r.0|
          ensures 15 * k < t && r.0[k] == FrameIndex(15 * k) && r.1[k] == analyses[15 * k].count &&
                  r.2[k] == analyses[15 * k].demographics && r.3[k] == analyses[15 * k].summary
        {
          if k < |prev.0| {
            assert r.0[k] == prev.0[k] && r.1[k] == prev.1[k] && r.2[k] == prev.2[k] && r.3[k] == prev.3[k];
          } else {
            assert 15 * k == t - 1;
          }
        }
      }
    }
  }

  /** After the whole video: one entry per sampled frame, `SampleCount` of
      them, entry `k` being frame `15 * k` with what `process_frame` returns
      for it. */
  lemma UploadRoundsSampled(classId: int, video: seq<Frame>)
    requires AllWellFormed(video)
    ensures var r := UploadRounds(Analyses(classId, video), |video|);
      |r.0| == SampleCount(|video|) && |r.1| == |r.0| && |r.2| == |r.0| && |r.3| == |r.0| &&
      forall k :: 0 <= k < |r.0| ==>
        15 * k < |video| && r.0[k] == FrameIndex(15 * k) &&
        r.1[k] == FrameAnalysis(classId, video[15 * k]).count &&
        r.2[k] == FrameAnalysis(classId, video[15 * k]).demographics &&
        r.3[k] == FrameAnalysis(classId, video[15 * k]).summary
  {
    var analyses := Analyses(classId, video);
    AnalysesAt(classId, video);
    UploadRoundsMeaning(analyses, |video|);
    SampleCountBounds(|video|, |UploadRounds(analyses, |video|).0|);
  }

  /** The colour entries `detect` offers for each frame of a video, in order. */
  function VideoEntries(classId: int, video: seq<Frame>): seq<seq<(string, Rgb)>>
    requires AllWellFormed(video)
  {
    seq(|video|, i requires 0 <= i < |video| =>
      ColorEntries(video[i].preds, video[i].draws, classId, DefaultThreshold))
  }

  /** The colour map after the first `n` rounds of the upload loop: each
      sampled frame adds its entries to the map, in frame order. */
  function UploadColors(m: map<string, Rgb>, entries: seq<seq<(string, Rgb)>>, n: nat): map<string, Rgb>
    requires n <= |entries|
  {
    if n == 0 then m
    else if (n - 1) % 15 == 0 then AddColors(UploadColors(m, entries, n - 1), entries[n - 1])
    else UploadColors(m, entries, n - 1)
  }

  /** The upload loop never changes or removes a colour already allotted. */
  lemma {:induction false} UploadColorsKeeps(m: map<string, Rgb>, entries: seq<seq<(string, Rgb)>>, n: nat, id: string)
    requires n <= |entries| && id in m
    ensures id in UploadColors(m, entries, n) && UploadColors(m, entries, n)[id] == m[id]
  {
    if n > 0 {
      UploadColorsKeeps(m, entries, n - 1, id);
      if (n - 1) % 15 == 0 {
        AddColorsKeeps(UploadColors(m, entries, n - 1), entries[n - 1], id);
      }
    }
  }

  /** After `n` rounds every entry of every sampled frame below `n` has a
      colour. */
  lemma {:induction false} UploadColorsCovers(m: map<string, Rgb>, entries: seq<seq<(string, Rgb)>>, n: nat, i: nat, j: nat)
    requires i < n <= |entries| && i % 15 == 0 && j < |entries[i]|
    ensures entries[i][j].0 in UploadColors(m, entries, n)
  {
    var prev := UploadColors(m, entries, n - 1);
    if i == n - 1 {
      AddColorsCovers(prev, entries[i], j);
    } else {
      UploadColorsCovers(m, entries, n - 1, i, j);
      if (n - 1) % 15 == 0 {
        AddColorsKeeps(prev, entries[n - 1], entries[i][j].0);
      }
    }
  }

  /** Conversely, a key the loop adds is an entry of a sampled frame: frames
      that are skipped contribute nothing. */
  lemma {:induction false} UploadColorsNewKey(m: map<string, Rgb>, entries: seq<seq<(string, Rgb)>>, n: nat, id: string)
    requires n <= |entries| && id in UploadColors(m, entries, n) && id !in m
    ensures exists i, k :: 0 <= i < n && i % 15 == 0 && 0 <= k < |entries[i]| && entries[i][k].0 == id
  {
    var prev := UploadColors(m, entries, n - 1);
    if id in prev {
      UploadColorsNewKey(m, entries, n - 1, id);
      var i, k :| 0 <= i < n - 1 && i % 15 == 0 && 0 <= k < |entries[i]| && entries[i][k].0 == id;
    } else {
      AddColorsNewKey(prev, entries[n - 1], id);
      var k :| 0 <= k < |entries[n - 1]| && entries[n - 1][k] == (id, AddColors(prev, entries[n - 1])[id]);
      assert entries[n - 1][k].0 == id;
    }
  }

  /** Every person of every sampled frame among the first `n` has a colour
      in `colors`. */
  ghost predicate SampledCovered(analyses: seq<FrameResult>, n: nat, colors: map<string, Rgb>)
    requires n <= |analyses|
  {
    forall i, j :: 0 <= i < n && i % 15 == 0 && 0 <= j < |analyses[i].people| ==> analyses[i].people[j].id in colors
  }

  /** One more frame keeps earlier frames' people covered, as keys are never
      removed, and adds the new frame's people when it is sampled. */
  lemma SampledCoveredStep(analyses: seq<FrameResult>, n: nat, before: map<string, Rgb>, after: map<string, Rgb>)
    requires n < |analyses| && SampledCovered(analyses, n, before)
    requires forall id :: id in before ==> id in after
    requires n % 15 == 0 ==> forall j :: 0 <= j < |analyses[n].people| ==> analyses[n].people[j].id in after
    ensures SampledCovered(analyses, n + 1, after)
  {
  }

  // ---------------------------------------------------------------------
  // The store

  class VideoData {
    /** One entry per recorded frame: frame number or timestamp. */
    var frames: seq<FrameKey>
    /** `current_frame`: reset by an upload, otherwise unused. */
    var currentFrame: int
    /** People count of each recorded frame. */
    var counts: seq<nat>
    /** Per-person records of each recorded frame. */
    var demographics: seq<seq<PersonRecord>>
    /** `demographic_summaries`: absent until the first upload creates it,
        and not extended by webcam frames. */
    var summaries: Option<seq<DemographicSummary>>
    /** `total_count`: the running total of people over recorded frames. */
    var totalCount: int

    /** The lists `frames`, `counts` and `demographics` stay parallel, the
        running total is the sum of the counts, and the summaries never
        outnumber the frames. */
    ghost predicate Valid()
      reads this
    {
      |counts| == |frames| && |demographics| == |frames| &&
      totalCount == Sum(counts) &&
      (summaries.Some? ==> |summaries.value| <= |frames|)
    }

    /** The initial `video_data` dict. */
    constructor ()
      ensures Valid()
      ensures frames == [] && counts == [] && demographics == [] && summaries == None
      ensures currentFrame == 0 && totalCount == 0
    {
      frames, counts, demographics := [], [], [];
      summaries := None;
      currentFrame, totalCount := 0, 0;
    }

    /** `upload_video` over a decoded video (`None` when the request has no
        `video` file). The store is cleared first; then every frame whose
        number is a multiple of 15 (`frame_step`) is processed and appended. */
    method UploadVideo(detector: PeopleDetector, video: Option<seq<Frame>>) returns (resp: UploadResponse)
      requires Valid() && detector.Valid()
      requires video.Some? ==> AllWellFormed(video.value)
      modifies this, detector
      ensures Valid() && detector.Valid()
      ensures video.None? ==> resp == NoVideoFile && unchanged(this) && unchanged(detector)
      ensures video.Some? ==>
        var v, id := video.value, detector.personClassId;
        resp == UploadOk(|v|, |frames|, totalCount) &&
        currentFrame == 0 &&
        |frames| == SampleCount(|v|) &&
        summaries.Some? && |summaries.value| == |frames| &&
        (forall k :: 0 <= k < |frames| ==>
          15 * k < |v| &&
          frames[k] == FrameIndex(15 * k) &&
          counts[k] == FrameAnalysis(id, v[15 * k]).count &&
          demographics[k] == FrameAnalysis(id, v[15 * k]).demographics &&
          summaries.value[k] == FrameAnalysis(id, v[15 * k]).summary) &&
        detector.colors == UploadColors(old(detector.colors), VideoEntries(id, v), |v|) &&
        (forall c :: c in old(detector.colors) ==> c in detector.colors && detector.colors[c] == old(detector.colors)[c]) &&
        (forall i, j :: 0 <= i < |v| && i % 15 == 0 && 0 <= j < |FrameAnalysis(id, v[i]).people| ==>
          FrameAnalysis(id, v[i]).people[j].id in detector.colors)
    {
      if video.None? {
        return NoVideoFile;
      }
      var v := video.value;
      AnalysesAt(detector.personClassId, v);
      var frameCount := UploadFrames(detector, v, Analyses(detector.personClassId, v), VideoEntries(detector.personClassId, v));
      UploadRoundsSampled(detector.personClassId, v);
      resp := UploadOk(frameCount, |frames|, totalCount);
    }

    /** The body of `upload_video` once a video is at hand: the store is
        cleared, then every frame of `v` is decoded in turn and passed to
        `UploadStep`; the result is the number of frames read. */
    method UploadFrames(detector: PeopleDetector, v: seq<Frame>, ghost analyses: seq<FrameResult>,
                        ghost entries: seq<seq<(string, Rgb)>>)
      returns (frameCount: nat)
      requires Valid() && detector.Valid() && AllWellFormed(v) && |analyses| == |v| && |entries| == |v|
      requires forall i {:trigger FrameAnalysis(detector.personClassId, v[i])} :: 0 <= i < |v| ==>
        analyses[i] == FrameAnalysis(detector.personClassId, v[i])
      requires forall i {:trigger ColorEntries(v[i].preds, v[i].draws, detector.personClassId, DefaultThreshold)} :: 0 <= i < |v| ==>
        entries[i] == ColorEntries(v[i].preds, v[i].draws, detector.personClassId, DefaultThreshold)
      modifies this, detector
      ensures Valid() && detector.Valid()
      ensures frameCount == |v| && currentFrame == 0 && summaries.Some?
      ensures (frames, counts, demographics, summaries.value) == UploadRounds(analyses, |v|)
      ensures forall id :: id in old(detector.colors) ==> id in detector.colors && detector.colors[id] == old(detector.colors)[id]
      ensures detector.colors == UploadColors(old(detector.colors), entries, |v|)
      ensures SampledCovered(analyses, |v|, detector.colors)
    {
      // Reset global data
      frames := [];
      counts := [];
      demographics := [];
      var newSummaries: seq<DemographicSummary> := [];
      summaries := Some(newSummaries);
      currentFrame := 0;
      totalCount := 0;

      frameCount := 0;
      while true
        invariant 0 <= frameCount <= |v|
        invariant Valid() && detector.Valid()
        invariant summaries == Some(newSummaries) && currentFrame == 0
        invariant (frames, counts, demographics, newSummaries) == UploadRounds(analyses, frameCount)
        invariant forall id :: id in old(detector.colors) ==> id in detector.colors && detector.colors[id] == old(detector.colors)[id]
        invariant detector.colors == UploadColors(old(detector.colors), entries, frameCount)
        invariant SampledCovered(analyses, frameCount, detector.colors)
        decreases |v| - frameCount
      {
        if frameCount == |v| {
          break;
        }
        ghost var before := detector.colors;
        newSummaries := UploadStep(detector, v, frameCount, newSummaries, analyses, entries);
        SampledCoveredStep(analyses, frameCount, before, detector.colors);
        frameCount := frameCount + 1;
      }
    }

    /** `process_frame` on frame `k` of a video, stated through the analyses
        and colour entries of all its frames: the result is the frame's
        analysis and the colour map gains that frame's entries. */
    static method SampleFrame(detector: PeopleDetector, v: seq<Frame>, k: nat,
                              ghost analyses: seq<FrameResult>, ghost entries: seq<seq<(string, Rgb)>>)
      returns (r: FrameResult)
      requires detector.Valid() && AllWellFormed(v) && k < |v|
      requires |analyses| == |v| && |entries| == |v|
      requires forall i {:trigger FrameAnalysis(detector.personClassId, v[i])} :: 0 <= i < |v| ==>
        analyses[i] == FrameAnalysis(detector.personClassId, v[i])
      requires forall i {:trigger ColorEntries(v[i].preds, v[i].draws, detector.personClassId, DefaultThreshold)} :: 0 <= i < |v| ==>
        entries[i] == ColorEntries(v[i].preds, v[i].draws, detector.personClassId, DefaultThreshold)
      modifies detector
      ensures detector.Valid()
      ensures r == analyses[k]
      ensures detector.colors == AddColors(old(detector.colors), entries[k])
      ensures forall id :: id in old(detector.colors) ==> id in detector.colors && detector.colors[id] == old(detector.colors)[id]
      ensures forall j :: 0 <= j < |r.people| ==> r.people[j].id in detector.colors
    {
      r := ProcessFrame(detector, v[k]);
    }

    /** One round of the `upload_video` loop: frame `frameCount` is
        processed and appended when its number is a multiple of 15. */
    method UploadStep(detector: PeopleDetector, v: seq<Frame>, frameCount: nat, newSummaries: seq<DemographicSummary>,
                      ghost analyses: seq<FrameResult>, ghost entries: seq<seq<(string, Rgb)>>)
      returns (nextSummaries: seq<DemographicSummary>)
      requires Valid() && detector.Valid() && AllWellFormed(v) && frameCount < |v|
      requires |analyses| == |v| && |entries| == |v|
      requires forall i {:trigger FrameAnalysis(detector.personClassId, v[i])} :: 0 <= i < |v| ==>
        analyses[i] == FrameAnalysis(detector.personClassId, v[i])
      requires forall i {:trigger ColorEntries(v[i].preds, v[i].draws, detector.personClassId, DefaultThreshold)} :: 0 <= i < |v| ==>
        entries[i] == ColorEntries(v[i].preds, v[i].draws, detector.personClassId, DefaultThreshold)
      requires summaries == Some(newSummaries)
      requires (frames, counts, demographics, newSummaries) == UploadRounds(analyses, frameCount)
      modifies this, detector
      ensures Valid() && detector.Valid()
      ensures summaries == Some(nextSummaries) && currentFrame == old(currentFrame)
      ensures (frames, counts, demographics, nextSummaries) == UploadRounds(analyses, frameCount + 1)
      ensures forall id :: id in old(detector.colors) ==> id in detector.colors && detector.colors[id] == old(detector.colors)[id]
      ensures frameCount % 15 == 0 ==>
        forall j :: 0 <= j < |analyses[frameCount].people| ==> analyses[frameCount].people[j].id in detector.colors
      ensures detector.colors == if frameCount % 15 == 0 then AddColors(old(detector.colors), entries[frameCount])
                                 else old(detector.colors)
    {
      nextSummaries := newSummaries;
      UploadRoundsStep(analyses, frameCount);
      if frameCount % 15 == 0 {
        var results := SampleFrame(detector, v, frameCount, analyses, entries);
        SumSnoc(counts, results.count);
        totalCount := totalCount + results.count;
        frames := frames + [FrameIndex(frameCount)];
        counts := counts + [results.count];
        demographics := demographics + [results.demographics];
        nextSummaries := nextSummaries + [results.summary];
        summaries := Some(nextSummaries);
      }
    }

    /** `process_webcam_frame` on one image (`None` when the request has no
        image data): the frame is appended to `frames`, `counts` and
        `demographics` without any reset; `demographic_summaries` is left
        alone. */
    method ProcessWebcamFrame(detector: PeopleDetector, image: Option<Frame>, timestamp: int)
      returns (resp: WebcamResponse)
      requires Valid() && detector.Valid()
      requires image.Some? ==> WellFormed(image.value)
      modifies this, detector
      ensures Valid() && detector.Valid()
      ensures image.None? ==> resp == NoImageData && unchanged(this) && unchanged(detector)
      ensures image.Some? ==>
        var a := FrameAnalysis(detector.personClassId, image.value);
        frames == old(frames) + [Timestamp(timestamp)] &&
        counts == old(counts) + [a.count] &&
        demographics == old(demographics) + [a.demographics] &&
        summaries == old(summaries) &&
        currentFrame == old(currentFrame) &&
        totalCount == old(totalCount) + a.count &&
        resp == WebcamOk(a.count, totalCount, a.summary, a.keypoints) &&
        detector.colors == AddColors(old(detector.colors),
          ColorEntries(image.value.preds, image.value.draws, detector.personClassId, DefaultThreshold))
    {
      if image.None? {
        return NoImageData;
      }
      var results := ProcessFrame(detector, image.value);
      SumSnoc(counts, results.count);
      frames := frames + [Timestamp(timestamp)];
      counts := counts + [results.count];
      demographics := demographics + [results.demographics];
      totalCount := totalCount + results.count;
      resp := WebcamOk(results.count, totalCount, results.summary, results.keypoints);
    }

    /** `get_data`: reject a missing position or one at or past the end, then
        answer with Python's indexing and slicing, negative indices
        included. */
    function GetData(timePos: Option<int>): (r: DataResponse)
      reads this
      requires Valid()
      ensures r.InvalidTimePosition? <==> timePos.None? || timePos.value >= |frames|
      ensures timePos.Some? && 0 <= timePos.value < |frames| ==>
        var t := timePos.value;
        if summaries.Some? && t >= |summaries.value| then r.IndexError?
        else
          r.Data? && r.frame == frames[t] && r.currentCount == counts[t] &&
          r.timelineData == counts && r.totalCount == Sum(counts[..t + 1]) &&
          r.demographics == (if summaries.None? then None else Some(summaries.value[t]))
      ensures timePos.Some? && -|frames| <= timePos.value < 0 ==>
        var t := timePos.value;
        if summaries.Some? && t < -|summaries.value| then r.IndexError?
        else
          r.Data? && r.frame == frames[|frames| + t] && r.currentCount == counts[|counts| + t] &&
          r.timelineData == counts &&
          r.totalCount == (if t == -1 then 0 else Sum(counts[..|counts| + t + 1])) &&
          r.demographics == (if summaries.None? then None else Some(summaries.value[|summaries.value| + t]))
      ensures timePos.Some? && timePos.value < -|frames| ==> r.IndexError?
    {
      if timePos.None? || timePos.value >= |frames| then InvalidTimePosition
      else
        var t := timePos.value;
        var totalSoFar := Sum(PyPrefix(counts, t + 1));
        var frame, current := PyIndex(frames, t), PyIndex(counts, t);
        var summary := if summaries.None? then Some(None) else
          match PyIndex(summaries.value, t)
          case None => None
          case Some(s) => Some(Some(s));
        if frame.None? || current.None? || summary.None? then IndexError
        else Data(frame.value, current.value, summary.value, counts, totalSoFar)
    }

    /** `get_data` as evidently intended: negative positions are invalid too,
        and an entry without a stored summary answers with no demographics
        instead of failing. */
    function GetDataChecked(timePos: Option<int>): (r: DataResponse)
      reads this
      requires Valid()
      ensures !r.IndexError?
      ensures r.Data? <==> timePos.Some? && 0 <= timePos.value < |frames|
      ensures r.Data? ==>
        var t := timePos.value;
        r.frame == frames[t] && r.currentCount == counts[t] && r.timelineData == counts &&
        r.totalCount == Sum(counts[..t + 1]) &&
        r.demographics == (if summaries.Some? && t < |summaries.value| then Some(summaries.value[t]) else None)
    {
      if timePos.None? || timePos.value < 0 || timePos.value >= |frames| then InvalidTimePosition
      else
        var t := timePos.value;
        Data(frames[t], counts[t],
             if summaries.Some? && t < |summaries.value| then Some(summaries.value[t]) else None,
             counts, Sum(counts[..t + 1]))
    }
  }

  // ---------------------------------------------------------------------
  // Properties of the query

  /** The running total at a position is the one before it plus that
      position's count. */
  lemma RunningTotalStep(store: VideoData, t: nat)
    requires store.Valid() && 0 < t < |store.frames|
    ensures var prev, cur := store.GetDataChecked(Some(t - 1)), store.GetDataChecked(Some(t));
      prev.Data? && cur.Data? && cur.totalCount == prev.totalCount + store.counts[t]
  {
    SumPrefixStep(store.counts, t);
  }

  /** The running totals are between the position's own count and the
      store's `total_count`, which the last position reaches exactly. */
  lemma RunningTotalBounds(store: VideoData, t: nat)
    requires store.Valid() && t < |store.frames|
    ensures var r := store.GetDataChecked(Some(t));
      r.Data? && r.currentCount <= r.totalCount <= store.totalCount &&
      (t == |store.frames| - 1 ==> r.totalCount == store.totalCount)
  {
    SumPrefixStep(store.counts, t);
    SumPrefixBounded(store.counts, t);
    SumPrefixBounded(store.counts, t + 1);
    assert store.counts[..|store.counts|] == store.counts;
  }

  /** Where a summary is stored the as-written query and the corrected one
      agree. */
  lemma GetDataCheckedAgrees(store: VideoData, t: nat)
    requires store.Valid() && t < |store.frames|
    requires store.summaries.None? || t < |store.summaries.value|
    ensures store.GetData(Some(t)) == store.GetDataChecked(Some(t))
  {
  }

  /** On an empty store (initially, or after uploading a video with no
      frames) every query fails. */
  lemma EmptyStoreRejects(store: VideoData, timePos: Option<int>)
    requires store.Valid() && store.frames == []
    ensures !store.GetData(timePos).Data? && store.GetDataChecked(timePos).InvalidTimePosition?
  {
  }

  /** The timeline [2, 0, 3]: running totals 2, 2, 5 and the full series. */
  lemma RunningTotalExample(store: VideoData)
    requires store.Valid() && store.counts == [2, 0, 3] && store.summaries.None?
    ensures store.GetData(Some(0)).Data? && store.GetData(Some(0)).totalCount == 2
    ensures store.GetData(Some(1)).Data? && store.GetData(Some(1)).totalCount == 2
    ensures store.GetData(Some(2)).Data? && store.GetData(Some(2)).totalCount == 5
    ensures store.GetData(Some(2)).timelineData == [2, 0, 3]
    ensures store.GetData(Some(3)).InvalidTimePosition?
    ensures store.GetDataChecked(Some(-1)).InvalidTimePosition?
  {
    var c := store.counts;
    assert c[..1] == [2] && c[..2] == [2, 0] && c[..3] == c;
    assert Sum([2]) == 2;
    assert Sum([2, 0]) == 2;
    assert Sum([2, 0, 3]) == 5;
  }

  /** As written, `time_pos = -1` is accepted: it reports the last frame's
      count but a running total of `sum(counts[:0]) == 0`. */
  lemma NegativeTimePosition(store: VideoData)
    requires store.Valid() && store.counts == [2, 0, 3] && store.summaries.None?
    ensures var r := store.GetData(Some(-1));
      r.Data? && r.currentCount == 3 && r.totalCount == 0 && r.totalCount < r.currentCount
  {
  }

  /** As written, an entry past the stored summaries makes the query fail
      with an uncaught `IndexError`. */
  lemma SummaryGap(store: VideoData)
    requires store.Valid() && store.summaries.Some? && |store.summaries.value| < |store.frames|
    ensures store.GetData(Some(|store.summaries.value|)).IndexError?
  {
  }

  /** As written, after a webcam frame follows an upload, position -1 pairs
      the webcam frame's entry and count with the last uploaded frame's
      summary, and no error is raised. */
  lemma SummaryMisaligned(store: VideoData)
    requires store.Valid() && store.summaries.Some?
    requires |store.summaries.value| + 1 == |store.frames| && |store.summaries.value| > 0
    ensures var r, n := store.GetData(Some(-1)), |store.frames|;
      r.Data? && r.frame == store.frames[n - 1] && r.currentCount == store.counts[n - 1] &&
      r.demographics == Some(store.summaries.value[n - 2])
  {
  }

  /** The gap is reachable: upload a one-frame video, send one webcam frame,
      then ask for position 1. */
  method SummaryGapScenario() returns (r: DataResponse)
    ensures r.IndexError?
  {
    var detector := new PeopleDetector(["__background__", "person"]);
    var store := new VideoData();
    var empty := Frame([], []);
    var uploaded := store.UploadVideo(detector, Some([empty]));
    var webcam := store.ProcessWebcamFrame(detector, Some(empty), 0);
    r := store.GetData(Some(1));
  }
}
