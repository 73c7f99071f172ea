# Montager editorial core in Dafny

Montager turns a two- or three-person talking-head video into a montage. It cuts
between close-ups of whoever is speaking and the wide shot. This project models
the deterministic core of that pipeline and proves properties of it:

- **Segment transforms** (`montager/transforms.py`): `fill_gaps_with_wide`,
  `merge_adjacent_segments`, `merge_speaker_segments` and `insert_wide_breaks`
  (module `Transforms`).
- **Edit decision list and filter graph** (`montager/render.py`): the
  `generate_edit_decision_list` chain, and the ffmpeg filter graph built inside
  `render_montage`. The graph is a typed list of filters plus its text form
  (module `Render`).
- **Close-up geometry and face clustering** (`montager/detection.py`):
  `calculate_crop_rect` and `cluster_faces_by_position` (module `Detection`).
- **Label mapping** (`montager/diarization.py`): `_map_speakers_to_scene`, which
  gives each diarized turn the id of a scene speaker (module `Diarization`).

Shared pieces:

- `Model` holds the segment, rectangle and speaker records and the constants
  (1920x1080 output; 15.0 s, 8.0 s and 2.0 s thresholds).
- `Seqs` holds a stable sort and the order-of-first-appearance list.
- `Text` holds decimal formatting.

Times are integer milliseconds. The segment times the diarizer writes are rounded to
three decimals (`montager/diarization.py:87-88`, `:149-150`), and so are the times the
transforms create, so `round(x, 3)` is the identity here. The video duration is the
exception: it is ffprobe's float, used unrounded (see "## Left out"). The tolerances
become integers: 0.05 s is 50, 0.1 s is 100, 0.5 s is 500 and 3.0 s is 3000.

How the code is modelled:

- Every loop of the source is a Dafny `method` with the same loop, proved equal to
  a specification function (`FillGaps`, `Merged`, `Breaks`, `EditDecisionList`,
  `FilterGraph`, `Clustered`, `Assignment`). The lemmas state what those functions
  guarantee.
- The segment dicts that `_map_speakers_to_scene` mutates in place are objects of
  class `Diarization.Turn`.
- A Python dict keyed by speaker id is a sequence of items in insertion order, so
  dict order and overwrite-in-place are both visible.

Where the documentation of the program and its code differ, the model follows the code:

- The edit decision list is not gap-free. Holes of up to 0.05 s remain between
  entries (`Render.EdlCoverage`).
- No merge runs after the cutaways. A 20 s monologue therefore ends in two separate
  close-ups of the same speaker (`Render.MonologueEdl`).
- A short gap before the first segment becomes a wide segment instead of being
  absorbed.
- A face centre left of the frame falls in a negative region. Only with no such
  centre are there at most three speakers (`Detection.ClusteredAtMostThree`).
- With a single distinct label, every turn gets the id of the first scene speaker
  in scene order, not the leftmost one. `Diarization.FirstLabelLeftmost` therefore
  needs two labels and two speakers.
- Nothing is clamped to the video: a segment ending after the duration keeps its end,
  and so does the last entry of the edit decision list (`Transforms.FillOverrun`). The
  coverage lemmas bound the last end by the duration only when no input segment ends
  later.
- `merge_speaker_segments` tests only `seg.start - last.end < 0.5`. An overlapping
  same-speaker segment is merged, and the merged end can move backwards
  (`Transforms.SpeakerMergeCanShrink`).

## Model

| member | source | states |
|---|---|---|
| Transforms.FillGapsWithWide | montager/transforms.py:10-52 | the loop (sort, per-segment gap handling, trailing wide) computes exactly `FillGaps` |
| Transforms.FillGaps | montager/transforms.py:12-13 | no segments gives the single wide segment `[0, duration]`; otherwise the output has between n and 2n+1 segments |
| Transforms.EmittedShape | montager/transforms.py:22-43 | each input segment contributes itself and at most one wide segment in front of it, the segment itself (possibly extended) last |
| Transforms.FillKeepsInputs | montager/transforms.py:15-43 | every sorted input segment appears exactly once, in ascending order, changed at most in its end (extended over an absorbed short gap); every other output segment is wide |
| Transforms.FillTrailing | montager/transforms.py:43-50 | the output ends with a wide `[last_end, duration]` iff the last sorted segment's end is more than 0.05 s short of duration, whatever the gap; otherwise it ends with that segment |
| Transforms.FillSorted | montager/transforms.py:15-50 | for segments of non-negative length the output is sorted by start |
| Transforms.FillCoverage | montager/transforms.py:10-52 | for well-formed input in any order whose segments do not overlap once sorted by start, the output is well-formed, has no overlaps, leaves holes of at most 0.05 s, starts within 0.05 s of zero and ends no earlier than 0.05 s before duration, and no later than duration when no input segment ends after it |
| Transforms.FillOverrun | montager/transforms.py:43-50 | nothing is clamped: a 12 s segment over a 10 s video fills to that segment alone, ending at 12 s |
| Transforms.AlreadySorted | montager/transforms.py:15 | sorting by start leaves a well-formed non-overlapping list unchanged |
| Transforms.UnsortedInputCovered | montager/transforms.py:15 | an input given out of order (5-6 s before 1-2 s) is sorted by the function and meets the coverage precondition |
| Transforms.Merged | montager/transforms.py:88-118 | a merge is never longer than its input and a non-empty input gives a non-empty output |
| Transforms.Merge | montager/transforms.py:93-99 | the copy-and-extend loop computes exactly `Merged` for the given merge test |
| Transforms.MergeNext | montager/transforms.py:95-99 | one pass of the loop turns the merge of the first k segments into the merge of the first k + 1 |
| Transforms.MergeAdjacentSegments | montager/transforms.py:88-101 | computes `Merged` with the two-sided test (same speaker and \|last.end - seg.start\| < 0.1 s) |
| Transforms.MergeSpeakerSegments | montager/transforms.py:104-118 | computes `Merged` with the one-sided test (same speaker and seg.start - last.end < 0.5 s) |
| Transforms.MergedNoJoins | montager/transforms.py:94-99 | in a merged list no consecutive pair passes the merge test |
| Transforms.MergedFixpoint | montager/transforms.py:94-99 | a list in which no consecutive pair passes the test is left unchanged |
| Transforms.MergeIdempotent | montager/transforms.py:88-118 | merging twice equals merging once, for both merges |
| Transforms.MergedEnds | montager/transforms.py:93-99 | a merge keeps the first start, the last end and the last speaker |
| Transforms.MergedCoverage | montager/transforms.py:93-99 | merging a well-formed list whose holes are at most tol keeps it well-formed with holes at most tol |
| Transforms.MergeAdjacentExample | montager/transforms.py:96-97 | a 0.05 s hole between two A segments closes and they join; the following B segment stays |
| Transforms.SpeakerMergeCanShrink | montager/transforms.py:112-114 | the one-sided test merges a contained same-speaker segment and shortens the run to 5 s, while the two-sided test keeps both |
| Transforms.ChunksEnds | montager/transforms.py:64-72 | the pieces of a long run start with a chunk of at most 8 s at the run's start and end at the run's end |
| Transforms.ChunksCover | montager/transforms.py:64-81 | the pieces are contiguous, and well-formed for a run starting at or after zero |
| Transforms.ChunksCadence | montager/transforms.py:64-81 | speaker chunks last at most 8 s and keep the speaker; cutaways are wide, exactly 2 s, and always followed by a speaker chunk (never last, never two in a row) |
| Transforms.Split | montager/transforms.py:59-83 | a wide segment or one shorter than 15 s passes through unchanged |
| Transforms.SplitShape | montager/transforms.py:63-81 | a segment's pieces run contiguously from its start to its end, and a long speaker run follows the cutaway cadence |
| Transforms.InsertWideBreaks | montager/transforms.py:55-85 | the while-loop over pos computes exactly `Breaks` (each segment replaced in place by its pieces) |
| Transforms.CutRun | montager/transforms.py:64-81 | the while-loop over one long segment appends exactly its pieces `Chunks`: speaker chunks of at most 8.0 s, each followed by a 2.0 s wide cutaway while more than 5.0 s remain |
| Transforms.BreaksCoverage | montager/transforms.py:55-85 | a well-formed list with holes at most tol stays so, with the same first start and last end and no fewer segments |
| Transforms.BreaksShortCloseUps | montager/transforms.py:63-81 | afterwards no non-wide segment lasts 15 s or more |
| Transforms.LongMonologueExample | montager/transforms.py:64-81 | a 20 s run of A becomes A 0-8, wide 8-10, A 10-18, A 18-20 |
| Render.GenerateEditDecisionList | montager/render.py:21-41 | the loop computes `EditDecisionList`: fill, one adjacent merge, cutaways, then one entry per segment |
| Render.ToEdlAt | montager/render.py:32-39 | one entry per segment with the same start and end and view equal to the speaker id, or wide when the id is empty |
| Render.TransformedCoverage | montager/render.py:27-29 | for well-formed input in any order, non-overlapping once sorted, and positive duration the transformed segments are non-empty, well-formed, with holes at most 0.05 s, start within 0.05 s of zero and end no earlier than 0.05 s before duration, and no later than duration when no input segment ends after it |
| Render.EdlCovers | montager/render.py:32-39 | the list of a covering segment sequence covers the same span with the same holes |
| Render.ChainCoverage | montager/render.py:28-29 | the adjacent merge and the cutaways keep a non-empty well-formed list with holes at most 0.05 s that starts within 0.05 s of zero so, and keep its last end exactly |
| Render.EdlCoverage | montager/render.py:21-41 | for well-formed input in any order, non-overlapping once sorted, and positive duration the edit decision list covers the timeline: positive-length entries, holes at most 0.05 s, the first starting within 0.05 s of zero, the last ending no earlier than 0.05 s before duration, and no later than duration when no input segment ends after it |
| Render.EdlShortCloseUps | montager/render.py:21-41 | for any input no close-up entry lasts 15 s or more |
| Render.MonologueEdl | montager/render.py:27-39 | a single 20 s A segment over 20 s gives entries A 0-8, wide 8-10, A 10-18, A 18-20: there is no merge after the cutaways |
| Render.SegLabelsAt | montager/render.py:82-86 | the concat inputs are `seg0`…`seg{n-1}` in order |
| Render.SpeakerTableKeys | montager/render.py:67 | the speaker dict has one key per distinct id, in order of first appearance |
| Render.SpeakerTableLastWins | montager/render.py:67 | the crop kept for an id is that of the last speaker with that id |
| Render.BuildFilterGraph | montager/render.py:67-86 | the two append loops compute exactly `FilterGraph` |
| Render.CropFiltersAt | montager/render.py:73-75 | one crop filter per dict item, in dict order, reading the source video and labelled with the id |
| Render.TrimFiltersAt | montager/render.py:79-84 | trim filter i reads the view if it is a known speaker id and the wide shot otherwise, trims to the entry's times and is labelled `seg{i}` |
| Render.FilterGraphShape | montager/render.py:70-86 | the graph is the wide scale-and-pad filter, then the crops, then the trims, then the concat of all segments into `outv`; its length is the number of distinct ids + entries + 2 |
| Render.FracTextDigits | montager/render.py:83 | the digits printed after the point are the three millisecond digits with trailing zeros dropped, at least one digit kept, and never end in 0 unless they are exactly `0` |
| Render.TimeTextWholeSeconds | montager/render.py:83 | 8 s prints as `8.0` |
| Render.TimeTextMilliseconds | montager/render.py:83 | 2.345 s prints as `2.345` |
| Render.TimeTextTrailingZero | montager/render.py:83 | 10.050 s prints as `10.05`: the trailing zero goes, the inner one stays |
| Render.FilterTextLabels | montager/render.py:71-86 | each filter's text starts with its input labels in brackets and ends with its output label in brackets |
| Render.BracketsOne | montager/render.py:84-86 | a single label is written as `[label]` |
| Render.FilterComplexTexts | montager/render.py:69-88 | the filter_complex text has one part per filter of the typed graph; for each entry i the trim filter cuts the entry's start to end, and its text reads `[view]` (or `[wide]` for an unknown view) and ends with `[seg{i}]` |
| Render.FilterGraphWellScoped | montager/render.py:70-86 | every label a filter reads is the source video or the output of an earlier filter, so the graph is acyclic and an unknown view never fails |
| Detection.CalculateCropRect | montager/detection.py:15-34 | 1920x1080 for a frame larger than that; otherwise both sides at most 60% of the frame, one side exactly 60% and the other cut to about 16:9; the rectangle lies in the frame, centred on the point when it fits and flush with the nearer edge otherwise |
| Detection.CropSizeFits | montager/detection.py:17-26 | the crop size is non-negative and fits in the frame; below 1920x1080 both sides stay within 60%, one is exactly 60% and the other is the largest not exceeding 16:9 |
| Detection.CropSizeIgnoresCentre | montager/detection.py:28-34 | the size does not depend on the centre; only the offsets do |
| Detection.CropExample | montager/detection.py:15-34 | a face at (100, 360) in a 1280x720 frame gets the 768x432 crop at (0, 144) |
| Detection.FloorMean | montager/detection.py:134-137 | the integer average is the floor of the mean |
| Detection.InBucketMembers | montager/detection.py:121-126 | a face is in region b iff its region is b, and every region lies between the lowest one and 2 |
| Detection.ValidFromSpec | montager/detection.py:128-131 | the scan from b holds exactly the regions from b to 2 with at least three faces, strictly ascending |
| Detection.ValidBucketsSpec | montager/detection.py:119-131 | the populous regions are strictly ascending and are exactly the regions with at least three faces; with no negative centre they lie in 0..2 |
| Detection.PopulousSpec | montager/detection.py:128 | the dict filter keeps exactly the keys with at least three faces, without duplicates |
| Detection.GroupByRegion | montager/detection.py:118-126 | the first loop builds the regions dict: each key's list is the faces of that region in input order, and the key order is first appearance |
| Detection.BuildSpeakers | montager/detection.py:130-146 | the second loop builds one speaker per region in the given order |
| Detection.MakeSpeaker | montager/detection.py:132-146 | one pass of the second loop gives id `speaker_{k+1}` and name `Speaker {k+1}`, a box whose width and height are the floor means of the faces' widths and heights and whose centre (x + w/2, y + h/2) is the floor-mean face centre, and the crop rectangle of that centre |
| Detection.SpeakersOf | montager/detection.py:130-146 | there are exactly as many speakers as regions, and speaker k is the one built from the faces of the k-th region in the given order, with number k + 1 |
| Detection.ClusterFacesByPosition | montager/detection.py:113-148 | the method computes exactly `Clustered`: no faces gives no speakers, otherwise one speaker per populous region in ascending order |
| Detection.OrderMembers | montager/detection.py:128-131 | the sorted populous keys are strictly ascending and are exactly the regions with at least three faces |
| Detection.OrderIsValidBuckets | montager/detection.py:128-131 | the sorted keys of the dict equal the range scan of the specification |
| Detection.ClusteredShape | montager/detection.py:130-146 | speaker k comes from the k-th populous region, is `speaker_{k+1}` / `Speaker {k+1}`, has a box centred on the floor-average centre with the floor-average size, and the crop of that centre |
| Detection.ClusteredIds | montager/detection.py:140-141 | speaker k's id is `speaker_{k+1}` |
| Detection.ClusteredIdsDistinct | montager/detection.py:141-143 | the speaker ids are pairwise distinct |
| Detection.ClusteredAtMostThree | montager/detection.py:119-131 | with no face centre left of the frame there are at most three speakers |
| Diarization.MapSpeakersToScene | montager/diarization.py:265-311 | fails (KeyError) iff the scene has speakers and some turn has no label, changing nothing then; otherwise every turn loses its label and gets the id of `Assignment`; start and end never change |
| Diarization.SeenLabels | montager/diarization.py:279-283 | succeeds iff every turn has a label, and returns the distinct labels in order of first appearance |
| Diarization.LabelMap | montager/diarization.py:295-300 | label number j is mapped to the id of speaker j mod k, counted from the left |
| Diarization.ApplyLabelMap | montager/diarization.py:306-309 | each turn gets its label's id, or wide for an unknown label, and loses its label |
| Diarization.AssignAll | montager/diarization.py:273-276 | every turn gets the one id and loses its label |
| Diarization.LabelMapAssigns | montager/diarization.py:293-309 | the dict built from the first-appearance order gives every turn its `Assignment` id |
| Diarization.RoundRobin | montager/diarization.py:293-300 | with at least two labels and two speakers, a turn's id is that of the speaker at its label's first-appearance rank mod k, from the left |
| Diarization.AssignmentFromScene | montager/diarization.py:265-311 | one id per turn: all wide without scene speakers, otherwise always some scene speaker's id; turns with the same label get the same id |
| Diarization.FirstLabelLeftmost | montager/diarization.py:279-300 | with at least two labels and two speakers, the first label heard goes to a speaker with the smallest box x |
| Diarization.DistinctLabelsDistinctIds | montager/diarization.py:293-300 | with no more labels than speakers and distinct speaker ids, different labels get different ids |
| Diarization.EverySpeakerAssigned | montager/diarization.py:293-300 | with at least as many labels as speakers, every scene speaker gets some turn |

## Left out

- Floating point: times are integer milliseconds, and `round(x, 3)` is the identity.
  - `int(w * 0.6)` is `(w * 6) / 10`.
  - `crop_w / crop_h > 16/9` is `crop_w * 9 > crop_h * 16`.
  - `int(crop_h * 16 / 9)` and `int(crop_w * 9 / 16)` are integer divisions.
  - IEEE rounding is not modelled.
- Transforms.FillCoverage, Render.TransformedCoverage and Render.EdlCoverage: bound
  the last end from above by the duration only when no input segment ends after it.
  The source does not clamp, so otherwise no upper bound holds (`Transforms.FillOverrun`).
- Render.TimeText: prints every time as a float, `0` ms as `0.0`. The source's wide
  segments that start at the integer `0` (`montager/transforms.py:13`, `:20`) print as
  `0`. ffmpeg reads both the same. Python's float-to-text form is modelled only for
  times in whole milliseconds.
- The video duration is taken in whole milliseconds. The source uses ffprobe's float
  (`montager/video.py:57`) unrounded in `fill_gaps_with_wide`
  (`montager/transforms.py:13`, `:45`). A duration with more than three decimals is not
  modelled.
- Render.GenerateEditDecisionList and Render.BuildFilterGraph: take the segment list,
  the duration and the speaker list directly. The `.get('segments', [])`,
  `.get('duration', 0)` and `.get('speakers', [])` defaults for a missing key
  (`montager/render.py:23-24`, `:67`) are not modelled.
- Transforms.FillGapsWithWide: works on values. The source extends `filled[-1]['end']`
  on the caller's own dict, which also changes the input list. That aliasing is not
  captured; the returned list is.
- Transforms.Merge: works on values. The source copies each dict, so the input is
  never changed; the values model that directly.
- A segment without `speaker_id` is not modelled. Every segment carries a speaker
  id, and the `.get(..., 'wide')` defaults of the source reduce to that id.
- Detection.ClusterFacesByPosition: requires a frame width of at least 3 and, when
  some region yields a speaker, a height of at least 2. Below that the source
  divides by zero, and the ZeroDivisionError is not modelled as a result.
- Detection.CalculateCropRect: requires a height of at least 2, for the same
  division by zero.
- Face detection timestamps are not modelled: clustering never reads them.
- Diarization.MapSpeakersToScene: requires the turns to be distinct objects. The
  source would accept one dict listed twice; that aliasing is not modelled.
- The console print of the label mapping is not modelled.
- The file, cache and JSON I/O of `render_montage` is not modelled, and neither is
  the ffmpeg command line, the subprocess call or its RuntimeError.
- Face detection with MediaPipe and OpenCV is not modelled.
- Voice activity detection, pyannote and local diarization, and MFCC embeddings are
  not modelled.
- The preview HTML, video probing, the GUI and the CLI are outside this model.
