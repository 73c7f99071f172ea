/** The edit decision list and the ffmpeg filter graph of the final render
    (montager/render.py). The graph is built as typed filters, each reading some
    stream labels and producing one, and then printed as ffmpeg's filter_complex text. */
module Render {
  import opened Model
  import Transforms
  import Seqs
  import Text

  // ---------------------------------------------------------------------------
  // generate_edit_decision_list
  // ---------------------------------------------------------------------------

  /** One `{'start', 'end', 'view'}` entry; `view` is a speaker id or WIDE. */
  datatype EdlEntry = EdlEntry(start: int, end: int, view: string)

  /** The view of a segment: its speaker id, or WIDE when the id is empty. */
  function ViewOf(speaker: string): string {
    if speaker == "" then WIDE else speaker
  }

  function EntryOf(seg: Segment): EdlEntry {
    EdlEntry(seg.start, seg.end, ViewOf(seg.speaker))
  }

  /** One entry per segment, in order. */
  function ToEdl(s: seq<Segment>): seq<EdlEntry> {
    if s == [] then [] else ToEdl(s[..|s| - 1]) + [EntryOf(s[|s| - 1])]
  }

  /** The transform chain of the render: fill, one adjacent merge, cutaways; no merge after the cutaways. */
  function Transformed(segments: seq<Segment>, duration: int): seq<Segment> {
    Transforms.Breaks(Transforms.Merged(Transforms.Adjacent, Transforms.FillGaps(segments, duration)))
  }

  /** Specification of generate_edit_decision_list. */
  function EditDecisionList(segments: seq<Segment>, duration: int): seq<EdlEntry> {
    ToEdl(Transformed(segments, duration))
  }

  method GenerateEditDecisionList(segments: seq<Segment>, duration: int) returns (edl: seq<EdlEntry>)
    ensures edl == EditDecisionList(segments, duration)
  {
    var s := Transforms.FillGapsWithWide(segments, duration);
    s := Transforms.MergeAdjacentSegments(s);
    s := Transforms.InsertWideBreaks(s);
    edl := [];
    for i := 0 to |s|
      invariant edl == ToEdl(s[..i])
    {
      ToEdlStep(s, i);
      var seg := s[i];
      var view := if seg.speaker == "" then WIDE else seg.speaker;
      edl := edl + [EdlEntry(seg.start, seg.end, view)];
    }
    assert s[..|s|] == s;
  }

  lemma ToEdlStep(s: seq<Segment>, i: nat)
    requires i < |s|
    ensures ToEdl(s[..i + 1]) == ToEdl(s[..i]) + [EntryOf(s[i])]
  {
    assert s[..i + 1][..i] == s[..i];
  }

  /** Entry i carries segment i's times, and its speaker id or WIDE when that is empty. */
  lemma {:induction false} ToEdlAt(s: seq<Segment>)
    ensures |ToEdl(s)| == |s|
    ensures forall i :: 0 <= i < |s| ==>
      ToEdl(s)[i].start == s[i].start && ToEdl(s)[i].end == s[i].end
      && ToEdl(s)[i].view == (if s[i].speaker == "" then WIDE else s[i].speaker)
  {
    if s != [] {
      var init := s[..|s| - 1];
      ToEdlAt(init);
      var r, p := ToEdl(s), ToEdl(init);
      assert r == p + [EntryOf(s[|s| - 1])];
      forall i | 0 <= i < |s| ensures r[i] == EntryOf(s[i]) {
        if i < |init| {
          assert r[i] == p[i];
        }
      }
    }
  }

  /** Consecutive entries neither overlap nor leave more than `tol` ms uncovered. */
  predicate EdlContiguous(edl: seq<EdlEntry>, tol: int) {
    forall i :: 0 <= i < |edl| - 1 ==> edl[i].end <= edl[i + 1].start <= edl[i].end + tol
  }

  /** The transform chain keeps the timeline covered, for input in any order whose sorted
      form does not overlap: fill closes every hole over 0.05 s, and neither the merge nor
      the cutaways open one. */
  lemma TransformedCoverage(segments: seq<Segment>, duration: int)
    requires WellFormed(segments) && NonOverlapping(Transforms.SortByStart(segments)) && duration > 0
    ensures var b := Transformed(segments, duration);
      && b != [] && WellFormed(b) && Contiguous(b, Transforms.NOISE_GAP)
      && b[0].start <= Transforms.NOISE_GAP && b[|b| - 1].end >= duration - Transforms.NOISE_GAP
      && (EndsBy(segments, duration) ==> b[|b| - 1].end <= duration)
  {
    Transforms.FillCoverage(segments, duration);
    ChainCoverage(Transforms.FillGaps(segments, duration), duration);
  }

  /** The merge and the cutaways keep a covering list covering, with the same last end. */
  lemma ChainCoverage(f: seq<Segment>, duration: int)
    requires f != [] && WellFormed(f) && Contiguous(f, Transforms.NOISE_GAP)
    requires f[0].start <= Transforms.NOISE_GAP && f[|f| - 1].end >= duration - Transforms.NOISE_GAP
    ensures var b := Transforms.Breaks(Transforms.Merged(Transforms.Adjacent, f));
      && b != [] && WellFormed(b) && Contiguous(b, Transforms.NOISE_GAP)
      && b[0].start <= Transforms.NOISE_GAP && b[|b| - 1].end == f[|f| - 1].end
  {
    var m := Transforms.Merged(Transforms.Adjacent, f);
    Transforms.MergedCoverage(Transforms.Adjacent, f, Transforms.NOISE_GAP);
    Transforms.MergedEnds(Transforms.Adjacent, f);
    Transforms.BreaksCoverage(m, Transforms.NOISE_GAP);
  }

  /** The list of a covering segment sequence covers the same span. */
  lemma EdlCovers(b: seq<Segment>, tol: int)
    requires b != [] && WellFormed(b) && Contiguous(b, tol)
    ensures var edl := ToEdl(b);
      && edl != []
      && (forall i :: 0 <= i < |edl| ==> 0 <= edl[i].start < edl[i].end)
      && EdlContiguous(edl, tol)
      && edl[0].start == b[0].start && edl[|edl| - 1].end == b[|b| - 1].end
  {
    ToEdlAt(b);
    var edl := ToEdl(b);
    forall i | 0 <= i < |edl| - 1 ensures edl[i].end <= edl[i + 1].start <= edl[i].end + tol {
      assert b[i].end <= b[i + 1].start <= b[i].end + tol;
    }
  }

  /** For well-formed segments that do not overlap once sorted by start (in whatever order
      they arrive), and a positive duration, the list covers the timeline: positive entries
      from within 0.05 s of zero to within 0.05 s of the duration, each hole at most 0.05 s.
      The last entry ends by the duration when no input segment ends later. */
  lemma EdlCoverage(segments: seq<Segment>, duration: int)
    requires WellFormed(segments) && NonOverlapping(Transforms.SortByStart(segments)) && duration > 0
    ensures var edl := EditDecisionList(segments, duration);
      && edl != []
      && (forall i :: 0 <= i < |edl| ==> 0 <= edl[i].start < edl[i].end)
      && EdlContiguous(edl, Transforms.NOISE_GAP)
      && edl[0].start <= Transforms.NOISE_GAP
      && edl[|edl| - 1].end >= duration - Transforms.NOISE_GAP
      && (EndsBy(segments, duration) ==> edl[|edl| - 1].end <= duration)
  {
    TransformedCoverage(segments, duration);
    EdlCovers(Transformed(segments, duration), Transforms.NOISE_GAP);
  }

  /** Whatever the input, no close-up entry lasts 15.0 s or more. */
  lemma EdlShortCloseUps(segments: seq<Segment>, duration: int)
    ensures var edl := EditDecisionList(segments, duration);
      forall i :: 0 <= i < |edl| && edl[i].view != WIDE ==> edl[i].end - edl[i].start < LONG_SPEAKER_THRESHOLD
  {
    var b := Transformed(segments, duration);
    Transforms.BreaksShortCloseUps(Transforms.Merged(Transforms.Adjacent, Transforms.FillGaps(segments, duration)));
    ToEdlAt(b);
    var edl := ToEdl(b);
    forall i | 0 <= i < |edl| && edl[i].view != WIDE ensures edl[i].end - edl[i].start < LONG_SPEAKER_THRESHOLD {
      assert b[i].speaker != WIDE;
    }
  }

  /** A 20 s monologue of A over a 20 s video: with no merge after the cutaways, the last
      two close-ups of A stay separate entries. */
  lemma MonologueEdl()
    ensures EditDecisionList([Segment(0, 20000, "A")], 20000)
         == [EdlEntry(0, 8000, "A"), EdlEntry(8000, 10000, WIDE), EdlEntry(10000, 18000, "A"), EdlEntry(18000, 20000, "A")]
  {
    var s := [Segment(0, 20000, "A")];
    assert Transforms.SortByStart(s) == s by {
      Transforms.SortedByStart(s);
      Seqs.SortBySorted(s, StartOf);
    }
    Transforms.EmittedLast(s);
    assert Transforms.Emitted(s, 0) == [];
    assert Transforms.FillGaps(s, 20000) == s;
    assert Transforms.Merged(Transforms.Adjacent, s) == s;
    Transforms.LongMonologueExample();
    var b := [Segment(0, 8000, "A"), Segment(8000, 10000, WIDE), Segment(10000, 18000, "A"), Segment(18000, 20000, "A")];
    ToEdlAt(b);
  }

  // ---------------------------------------------------------------------------
  // The filter graph of render_montage
  // ---------------------------------------------------------------------------

  /** The video stream of the input file. */
  const SOURCE: string := "0:v"
  /** The label of the concatenated output. */
  const OUT: string := "outv"

  /** What a filter does. */
  datatype Op =
    | ScalePad(width: int, height: int)        // scale to fit, pad to the frame, square pixels
    | CropScale(crop: Rect, width: int, height: int)
    | Trim(start: int, end: int)               // trim and reset timestamps
    | Concat(n: nat)

  /** A filter reads the streams labelled `inputs` and labels its result `output`. */
  datatype Filter = Filter(inputs: seq<string>, op: Op, output: string)

  function SegLabel(i: nat): string {
    "seg" + Text.NatToString(i)
  }

  /** `[seg0]…[seg{n-1}]` as labels. */
  function SegLabels(n: nat): seq<string> {
    if n == 0 then [] else SegLabels(n - 1) + [SegLabel(n - 1)]
  }

  lemma {:induction false} SegLabelsAt(n: nat)
    ensures |SegLabels(n)| == n && forall i :: 0 <= i < n ==> SegLabels(n)[i] == SegLabel(i)
  {
    if n > 0 {
      SegLabelsAt(n - 1);
      var r, p := SegLabels(n), SegLabels(n - 1);
      forall i | 0 <= i < n - 1 ensures r[i] == SegLabel(i) {
        assert r[i] == p[i];
      }
    }
  }

  /** A Python dict keyed by speaker id, as its items in insertion order. */
  type SpeakerDict = seq<(string, Rect)>

  function Keys(d: SpeakerDict): (r: seq<string>)
    ensures |r| == |d| && forall i :: 0 <= i < |d| ==> r[i] == d[i].0
  {
    seq(|d|, i requires 0 <= i < |d| => d[i].0)
  }

  /** `d[k] = v`: overwrites the value in place when k is a key, appends the item otherwise. */
  function Put(d: SpeakerDict, k: string, v: Rect): SpeakerDict {
    if k in Keys(d) then d[Seqs.IndexOf(Keys(d), k) := (k, v)] else d + [(k, v)]
  }

  /** `d[k]`. */
  function Lookup(d: SpeakerDict, k: string): Rect
    requires k in Keys(d)
  {
    d[Seqs.IndexOf(Keys(d), k)].1
  }

  /** `{s['id']: s for s in speakers}`, keeping only the crop of each speaker. */
  function SpeakerTable(speakers: seq<Speaker>): SpeakerDict {
    if speakers == [] then []
    else
      var last := speakers[|speakers| - 1];
      Put(SpeakerTable(speakers[..|speakers| - 1]), last.id, last.cropRect)
  }

  function IdsOf(speakers: seq<Speaker>): (r: seq<string>)
    ensures |r| == |speakers| && forall i :: 0 <= i < |speakers| ==> r[i] == speakers[i].id
  {
    seq(|speakers|, i requires 0 <= i < |speakers| => speakers[i].id)
  }

  /** The table has one item per distinct speaker id, in order of first appearance. */
  lemma {:induction false} SpeakerTableKeys(speakers: seq<Speaker>)
    ensures Keys(SpeakerTable(speakers)) == Seqs.FirstAppearances(IdsOf(speakers))
  {
    if speakers != [] {
      var init, last := speakers[..|speakers| - 1], speakers[|speakers| - 1];
      SpeakerTableKeys(init);
      var d := SpeakerTable(init);
      var p := Seqs.FirstAppearances(IdsOf(init));
      assert Keys(SpeakerTable(speakers)) == if last.id in Keys(d) then Keys(d) else Keys(d) + [last.id] by {
        PutKeys(d, last.id, last.cropRect);
      }
      assert Seqs.FirstAppearances(IdsOf(speakers)) == if last.id in p then p else p + [last.id] by {
        IdsOfSnoc(speakers);
        Seqs.FirstAppearancesStep(IdsOf(speakers), IdsOf(init), last.id);
      }
    }
  }

  /** Assigning to a key keeps the keys when it is present and appends it otherwise. */
  lemma IdsOfSnoc(speakers: seq<Speaker>)
    requires speakers != []
    ensures IdsOf(speakers) == IdsOf(speakers[..|speakers| - 1]) + [speakers[|speakers| - 1].id]
  {
    var a, b := IdsOf(speakers), IdsOf(speakers[..|speakers| - 1]) + [speakers[|speakers| - 1].id];
    assert |a| == |b|;
    forall i | 0 <= i < |a| ensures a[i] == b[i] {
      if i < |speakers| - 1 {
        assert b[i] == IdsOf(speakers[..|speakers| - 1])[i];
      }
    }
  }

  lemma PutKeys(d: SpeakerDict, k: string, v: Rect)
    ensures Keys(Put(d, k, v)) == if k in Keys(d) then Keys(d) else Keys(d) + [k]
  {
    if k in Keys(d) {
      var j := Seqs.IndexOf(Keys(d), k);
      assert Keys(Put(d, k, v)) == Keys(d);
    } else {
      assert Keys(Put(d, k, v)) == Keys(d) + [k];
    }
  }

  /** The crop kept for an id is that of the last speaker with that id. */
  lemma {:induction false} SpeakerTableLastWins(speakers: seq<Speaker>, i: nat)
    requires i < |speakers|
    requires forall j :: i < j < |speakers| ==> speakers[j].id != speakers[i].id
    ensures speakers[i].id in Keys(SpeakerTable(speakers))
    ensures Lookup(SpeakerTable(speakers), speakers[i].id) == speakers[i].cropRect
  {
    var init, last := speakers[..|speakers| - 1], speakers[|speakers| - 1];
    var d := SpeakerTable(init);
    var r := SpeakerTable(speakers);
    var id := speakers[i].id;
    if i == |speakers| - 1 {
      if id in Keys(d) {
        var j := Seqs.IndexOf(Keys(d), id);
        assert Keys(r) == Keys(d);
        assert Seqs.IndexOf(Keys(r), id) == j;
      } else {
        assert Keys(r) == Keys(d) + [id];
        assert Keys(r)[|d|] == id;
        assert Seqs.IndexOf(Keys(r), id) == |d|;
      }
    } else {
      SpeakerTableLastWins(init, i);
      if last.id in Keys(d) {
        var j := Seqs.IndexOf(Keys(d), last.id);
        assert Keys(r) == Keys(d);
        assert r[Seqs.IndexOf(Keys(r), id)] == d[Seqs.IndexOf(Keys(d), id)];
      } else {
        assert Keys(r) == Keys(d) + [last.id];
        Seqs.IndexOfPrefix(Keys(r), |d|, id);
        assert Keys(r)[..|d|] == Keys(d);
        assert r[Seqs.IndexOf(Keys(r), id)] == d[Seqs.IndexOf(Keys(d), id)];
      }
    }
  }

  function WideFilter(): Filter {
    Filter([SOURCE], ScalePad(OUTPUT_WIDTH, OUTPUT_HEIGHT), WIDE)
  }

  function CropFilter(item: (string, Rect)): Filter {
    Filter([SOURCE], CropScale(item.1, OUTPUT_WIDTH, OUTPUT_HEIGHT), item.0)
  }

  /** The stream a view is cut from: the speaker's close-up, or the wide shot for an unknown view. */
  function SourceOf(view: string, d: SpeakerDict): string {
    if view in Keys(d) then view else WIDE
  }

  function TrimFilter(e: EdlEntry, i: nat, d: SpeakerDict): Filter {
    Filter([SourceOf(e.view, d)], Trim(e.start, e.end), SegLabel(i))
  }

  function ConcatFilter(n: nat): Filter {
    Filter(SegLabels(n), Concat(n), OUT)
  }

  function CropFilters(items: SpeakerDict): seq<Filter> {
    if items == [] then [] else CropFilters(items[..|items| - 1]) + [CropFilter(items[|items| - 1])]
  }

  function TrimFilters(edl: seq<EdlEntry>, d: SpeakerDict): seq<Filter> {
    if edl == [] then [] else TrimFilters(edl[..|edl| - 1], d) + [TrimFilter(edl[|edl| - 1], |edl| - 1, d)]
  }

  /** Specification of the filter-building block of render_montage. */
  function FilterGraph(edl: seq<EdlEntry>, speakers: seq<Speaker>): seq<Filter> {
    var d := SpeakerTable(speakers);
    [WideFilter()] + CropFilters(d) + TrimFilters(edl, d) + [ConcatFilter(|edl|)]
  }

  lemma CropFiltersStep(items: SpeakerDict, k: nat)
    requires k < |items|
    ensures CropFilters(items[..k + 1]) == CropFilters(items[..k]) + [CropFilter(items[k])]
  {
    assert items[..k + 1][..k] == items[..k];
  }

  lemma TrimFiltersStep(edl: seq<EdlEntry>, d: SpeakerDict, i: nat)
    requires i < |edl|
    ensures TrimFilters(edl[..i + 1], d) == TrimFilters(edl[..i], d) + [TrimFilter(edl[i], i, d)]
  {
    assert edl[..i + 1][..i] == edl[..i];
  }

  lemma Append3<T>(a: seq<T>, b: seq<T>, x: T)
    ensures a + (b + [x]) == a + b + [x]
  {
  }

  method BuildFilterGraph(edl: seq<EdlEntry>, speakers: seq<Speaker>) returns (filters: seq<Filter>)
    ensures filters == FilterGraph(edl, speakers)
  {
    var d := SpeakerTable(speakers);
    filters := [Filter([SOURCE], ScalePad(OUTPUT_WIDTH, OUTPUT_HEIGHT), WIDE)];
    for k := 0 to |d|
      invariant filters == [WideFilter()] + CropFilters(d[..k])
    {
      var (sid, crop) := d[k];
      CropFiltersStep(d, k);
      Append3([WideFilter()], CropFilters(d[..k]), CropFilter(d[k]));
      filters := filters + [Filter([SOURCE], CropScale(crop, OUTPUT_WIDTH, OUTPUT_HEIGHT), sid)];
    }
    assert d[..|d|] == d;
    ghost var head := filters;
    var segNames := [];
    for i := 0 to |edl|
      invariant filters == head + TrimFilters(edl[..i], d)
      invariant segNames == SegLabels(i)
    {
      var view := edl[i].view;
      var src := if view in Keys(d) then view else WIDE;
      var name := "seg" + Text.NatToString(i);
      TrimFiltersStep(edl, d, i);
      Append3(head, TrimFilters(edl[..i], d), TrimFilter(edl[i], i, d));
      filters := filters + [Filter([src], Trim(edl[i].start, edl[i].end), name)];
      segNames := segNames + [name];
    }
    assert edl[..|edl|] == edl;
    filters := filters + [Filter(segNames, Concat(|edl|), OUT)];
  }

  lemma {:induction false} CropFiltersAt(items: SpeakerDict)
    ensures |CropFilters(items)| == |items|
    ensures forall k :: 0 <= k < |items| ==> CropFilters(items)[k] == CropFilter(items[k])
  {
    if items != [] {
      var init := items[..|items| - 1];
      CropFiltersAt(init);
      var r, p := CropFilters(items), CropFilters(init);
      forall k | 0 <= k < |init| ensures r[k] == CropFilter(items[k]) {
        assert r[k] == p[k];
      }
    }
  }

  lemma {:induction false} TrimFiltersAt(edl: seq<EdlEntry>, d: SpeakerDict)
    ensures |TrimFilters(edl, d)| == |edl|
    ensures forall i :: 0 <= i < |edl| ==> TrimFilters(edl, d)[i] == TrimFilter(edl[i], i, d)
  {
    if edl != [] {
      var init := edl[..|edl| - 1];
      TrimFiltersAt(init, d);
      var r, p := TrimFilters(edl, d), TrimFilters(init, d);
      forall i | 0 <= i < |init| ensures r[i] == TrimFilter(edl[i], i, d) {
        assert r[i] == p[i];
      }
    }
  }

  /** g is the wide shot, then one crop per item of the speaker table d, one trim per
      entry reading its speaker's close-up (the wide shot for an unknown view), and the
      concatenation of all trims last. */
  predicate GraphShaped(g: seq<Filter>, d: SpeakerDict, edl: seq<EdlEntry>) {
    && |g| == |d| + |edl| + 2
    && g[0] == Filter([SOURCE], ScalePad(OUTPUT_WIDTH, OUTPUT_HEIGHT), WIDE)
    && (forall j :: 1 <= j <= |d| ==> g[j] == Filter([SOURCE], CropScale(d[j - 1].1, OUTPUT_WIDTH, OUTPUT_HEIGHT), d[j - 1].0))
    && (forall i :: 0 <= i < |edl| ==>
          g[1 + |d| + i] == Filter([if edl[i].view in Keys(d) then edl[i].view else WIDE], Trim(edl[i].start, edl[i].end), SegLabel(i)))
    && g[|g| - 1] == Filter(SegLabels(|edl|), Concat(|edl|), OUT)
  }

  lemma ShapedFromParts(g: seq<Filter>, d: SpeakerDict, edl: seq<EdlEntry>, c: seq<Filter>, t: seq<Filter>)
    requires g == [WideFilter()] + c + t + [ConcatFilter(|edl|)]
    requires |c| == |d| && |t| == |edl|
    requires forall k :: 0 <= k < |d| ==> c[k] == CropFilter(d[k])
    requires forall i :: 0 <= i < |edl| ==> t[i] == TrimFilter(edl[i], i, d)
    ensures GraphShaped(g, d, edl)
  {
    assert forall j :: 1 <= j <= |c| ==> g[j] == c[j - 1];
    assert forall i :: 0 <= i < |t| ==> g[1 + |c| + i] == t[i];
  }

  lemma FilterGraphShape(edl: seq<EdlEntry>, speakers: seq<Speaker>)
    ensures GraphShaped(FilterGraph(edl, speakers), SpeakerTable(speakers), edl)
  {
    var d := SpeakerTable(speakers);
    var c, t := CropFilters(d), TrimFilters(edl, d);
    CropFiltersAt(d);
    TrimFiltersAt(edl, d);
    ShapedFromParts(FilterGraph(edl, speakers), d, edl, c, t);
  }

  /** Some filter before position j outputs label x. */
  predicate Declared(g: seq<Filter>, j: int, x: string) {
    exists i :: 0 <= i < j && i < |g| && g[i].output == x
  }

  /** Every label a filter reads is the input video or the output of an earlier filter. */
  predicate WellScoped(g: seq<Filter>) {
    forall j, l :: 0 <= j < |g| && 0 <= l < |g[j].inputs| ==> g[j].inputs[l] == SOURCE || Declared(g, j, g[j].inputs[l])
  }

  lemma TrimInputDeclared(g: seq<Filter>, d: SpeakerDict, edl: seq<EdlEntry>, i: nat)
    requires GraphShaped(g, d, edl) && i < |edl|
    ensures |g[1 + |d| + i].inputs| == 1 && Declared(g, 1 + |d| + i, g[1 + |d| + i].inputs[0])
  {
    var v := edl[i].view;
    if v in Keys(d) {
      var k := Seqs.IndexOf(Keys(d), v);
      assert g[1 + k].output == v;
    } else {
      assert g[0].output == WIDE;
    }
  }

  lemma ConcatInputDeclared(g: seq<Filter>, d: SpeakerDict, edl: seq<EdlEntry>, l: nat)
    requires GraphShaped(g, d, edl) && l < |g[|g| - 1].inputs|
    ensures Declared(g, |g| - 1, g[|g| - 1].inputs[l])
  {
    SegLabelsAt(|edl|);
    assert g[|g| - 1].inputs[l] == SegLabel(l);
    assert g[1 + |d| + l].output == SegLabel(l);
  }

  lemma ShapedWellScoped(g: seq<Filter>, d: SpeakerDict, edl: seq<EdlEntry>)
    requires GraphShaped(g, d, edl)
    ensures WellScoped(g)
  {
    var n := |d|;
    forall j, l | 0 <= j < |g| && 0 <= l < |g[j].inputs|
      ensures g[j].inputs[l] == SOURCE || Declared(g, j, g[j].inputs[l])
    {
      if 1 + n <= j < 1 + n + |edl| {
        TrimInputDeclared(g, d, edl, j - 1 - n);
      } else if j == |g| - 1 {
        ConcatInputDeclared(g, d, edl, l);
      } else if j > 0 {
        assert g[j].inputs == [SOURCE];
      } else {
        assert g[0].inputs == [SOURCE];
      }
    }
  }

  /** The graph only reads streams declared before it, so it is acyclic and an unknown
      view never dangles. */
  lemma FilterGraphWellScoped(edl: seq<EdlEntry>, speakers: seq<Speaker>)
    ensures WellScoped(FilterGraph(edl, speakers))
  {
    FilterGraphShape(edl, speakers);
    ShapedWellScoped(FilterGraph(edl, speakers), SpeakerTable(speakers), edl);
  }

  // ---------------------------------------------------------------------------
  // filter_complex text
  // ---------------------------------------------------------------------------

  /** A time in milliseconds as Python prints the float of its seconds: the integer
      part, a point, and the millisecond digits without trailing zeros (at least one). */
  function TimeText(ms: int): string
    decreases if ms < 0 then 1 else 0
  {
    if ms < 0 then "-" + TimeText(-ms)
    else Text.NatToString(ms / 1000) + "." + FracText(ms % 1000)
  }

  /** The digits after the point for `frac` thousandths. */
  function FracText(frac: nat): string {
    if frac == 0 then "0"
    else if frac % 100 == 0 then Text.NatToString(frac / 100)
    else if frac % 10 == 0 then Pad(Text.NatToString(frac / 10), 2)
    else Pad(Text.NatToString(frac), 3)
  }

  /** Left-pads a digit string with zeros to width n. */
  function Pad(s: string, n: nat): string
    decreases n - |s|
  {
    if |s| >= n then s else Pad("0" + s, n)
  }

  function Zeros(n: nat): string {
    seq(n, i => '0')
  }

  lemma {:induction false} PadIsZeros(s: string, n: nat)
    requires |s| <= n
    ensures Pad(s, n) == Zeros(n - |s|) + s
    decreases n - |s|
  {
    if |s| < n {
      PadIsZeros("0" + s, n);
      assert Zeros(n - |s| - 1) + ("0" + s) == Zeros(n - |s|) + s;
    }
  }

  /** `f` is the thousandths `frac` with the trailing zeros dropped, keeping at least one
      digit: padded back with zeros it gives the zero-padded thousandths, and it ends in a
      zero only when it is the single "0". */
  ghost predicate StrippedDigits(frac: nat, f: string) {
    && 1 <= |f| <= 3
    && f + Zeros(3 - |f|) == Pad(Text.NatToString(frac), 3)
    && (f[|f| - 1] == '0' ==> f == "0")
  }

  /** The fraction printed for a time is its three millisecond digits without trailing zeros. */
  lemma FracTextDigits(frac: nat)
    requires frac < 1000
    ensures StrippedDigits(frac, FracText(frac))
  {
    if frac == 0 {
      FracZero();
    } else if frac % 100 == 0 {
      var d := frac / 100;
      assert 100 * d == frac;
      FracHundreds(d);
    } else if frac % 10 == 0 {
      var q := frac / 10;
      assert 10 * q == frac && q % 10 != 0;
      FracTens(q);
    } else {
      FracUnits(frac);
    }
  }

  lemma FracZero()
    ensures StrippedDigits(0, FracText(0))
  {
    assert Text.NatToString(0) == "0";
    assert Pad("0", 3) == "0" + Zeros(2);
  }

  lemma FracHundreds(d: nat)
    requires 0 < d < 10
    ensures StrippedDigits(100 * d, Text.NatToString(d))
  {
    var f := Text.NatToString(d);
    assert f == [Text.DigitChar(d)];
    var t := Text.NatToString(100 * d);
    assert t == f + Zeros(2) by {
      Text.NatToStringTimesTen(d);
      Text.NatToStringTimesTen(10 * d);
      assert Zeros(2) == "0" + "0";
    }
    assert Pad(t, 3) == t by { PadIsZeros(t, 3); }
  }

  lemma FracTens(q: nat)
    requires 0 < q < 100 && q % 10 != 0
    ensures StrippedDigits(10 * q, Pad(Text.NatToString(q), 2))
  {
    Text.NatToStringTimesTen(q);
    var u := Text.NatToString(q);
    Text.NatToStringLength(q);
    PadIsZeros(u, 2);
    var t := Text.NatToString(10 * q);
    PadIsZeros(t, 3);
    var f := Pad(u, 2);
    assert |f| == 2;
    assert f + Zeros(1) == Zeros(3 - |t|) + t;
    Text.NatToStringLast(q);
    assert f[|f| - 1] == u[|u| - 1] != '0';
  }

  lemma FracUnits(frac: nat)
    requires frac < 1000 && frac % 10 != 0
    ensures StrippedDigits(frac, Pad(Text.NatToString(frac), 3))
  {
    var t := Text.NatToString(frac);
    Text.NatToStringLength(frac);
    PadIsZeros(t, 3);
    var f := Pad(t, 3);
    Text.NatToStringLast(frac);
    assert f[|f| - 1] == t[|t| - 1];
  }

  /** Whole seconds keep one zero after the point, as a float prints. */
  lemma TimeTextWholeSeconds()
    ensures TimeText(8000) == "8.0"
  {
    assert Text.NatToString(8) == "8";
    assert TimeText(8000) == Text.NatToString(8) + "." + FracText(0);
  }

  /** All three millisecond digits are printed when the last is not zero. */
  lemma TimeTextMilliseconds()
    ensures TimeText(2345) == "2.345"
  {
    var f := Text.NatToString(345);
    assert f == "345" by { ThreeDigits(); }
    assert FracText(345) == f;
    assert Text.NatToString(2) == "2";
    assert 2345 / 1000 == 2 && 2345 % 1000 == 345;
    assert TimeText(2345) == Text.NatToString(2) + "." + FracText(345);
  }

  lemma ThreeDigits()
    ensures Text.NatToString(345) == "345"
  {
    var t := Text.NatToString(34);
    assert t == "34" by {
      assert t == Text.NatToString(3) + [Text.DigitChar(4)];
    }
    assert Text.NatToString(345) == t + [Text.DigitChar(5)];
  }

  /** Trailing zeros are dropped, leading ones kept. */
  lemma TimeTextTrailingZero()
    ensures TimeText(10050) == "10.05"
  {
    assert Text.NatToString(10) == "10" by {
      assert Text.NatToString(10) == Text.NatToString(1) + [Text.DigitChar(0)];
    }
    assert FracText(50) == "05" by {
      assert Text.NatToString(5) == "5";
      assert Pad("5", 2) == "05";
    }
    assert 10050 / 1000 == 10 && 10050 % 1000 == 50;
    assert TimeText(10050) == Text.NatToString(10) + "." + FracText(50);
  }

  function Brackets(labels: seq<string>): string {
    if labels == [] then "" else Brackets(labels[..|labels| - 1]) + "[" + labels[|labels| - 1] + "]"
  }

  function OpText(op: Op): string {
    match op
    case ScalePad(w, h) =>
      "scale=" + Text.IntToString(w) + ":" + Text.IntToString(h) + ":force_original_aspect_ratio=decrease,pad="
        + Text.IntToString(w) + ":" + Text.IntToString(h) + ":-1:-1,setsar=1"
    case CropScale(c, w, h) =>
      "crop=" + Text.IntToString(c.w) + ":" + Text.IntToString(c.h) + ":" + Text.IntToString(c.x) + ":" + Text.IntToString(c.y)
        + ",scale=" + Text.IntToString(w) + ":" + Text.IntToString(h) + ",setsar=1"
    case Trim(s, e) => "trim=" + TimeText(s) + ":" + TimeText(e) + ",setpts=PTS-STARTPTS"
    case Concat(n) => "concat=n=" + Text.NatToString(n) + ":v=1:a=0"
  }

  /** `[in1][in2]…op[out]`. */
  function FilterText(f: Filter): string {
    Brackets(f.inputs) + OpText(f.op) + "[" + f.output + "]"
  }

  function FilterTexts(g: seq<Filter>): (r: seq<string>)
    ensures |r| == |g| && forall i :: 0 <= i < |g| ==> r[i] == FilterText(g[i])
  {
    seq(|g|, i requires 0 <= i < |g| => FilterText(g[i]))
  }

  /** The `-filter_complex` argument: the filters joined with ';'. */
  function FilterComplex(edl: seq<EdlEntry>, speakers: seq<Speaker>): string {
    Text.Join(FilterTexts(FilterGraph(edl, speakers)), ";")
  }

  /** A filter's text opens with its input labels in brackets and closes with its output
      label in brackets, so the text wires the streams exactly as the graph does. */
  lemma FilterTextLabels(f: Filter)
    ensures var t, b, o := FilterText(f), Brackets(f.inputs), "[" + f.output + "]";
      && |t| >= |b| + |o| && t[..|b|] == b && t[|t| - |o|..] == o
  {
    var t, b, o := FilterText(f), Brackets(f.inputs), "[" + f.output + "]";
    var m := OpText(f.op);
    assert t == b + m + o;
    assert (b + m + o)[..|b|] == b;
    assert (b + m + o)[|b| + |m|..] == o;
  }

  /** `[l1][l2]…` for a single label. */
  lemma BracketsOne(x: string)
    ensures Brackets([x]) == "[" + x + "]"
  {
    assert [x][..0] == [];
  }

  /** The `-filter_complex` argument is the ';'-join of one text per filter of the graph,
      in graph order: the wide filter, one crop per dict item, then for each entry i a trim
      that cuts from its start to its end, whose text reads `[view]` (or `[wide]`) and ends
      with `[seg{i}]`, then the concat. */
  lemma FilterComplexTexts(edl: seq<EdlEntry>, speakers: seq<Speaker>)
    ensures TextsWired(FilterGraph(edl, speakers), SpeakerTable(speakers), edl)
  {
    FilterGraphShape(edl, speakers);
    ShapedTexts(FilterGraph(edl, speakers), SpeakerTable(speakers), edl);
  }

  /** One text per filter, and entry i's trim cuts its span and its text reads the
      entry's stream and is labelled seg{i}. */
  predicate TextsWired(g: seq<Filter>, d: SpeakerDict, edl: seq<EdlEntry>) {
    var texts := FilterTexts(g);
    && |texts| == |d| + |edl| + 2
    && forall i :: 0 <= i < |edl| ==>
         g[1 + |d| + i].op == Trim(edl[i].start, edl[i].end)
         && TrimTextLabels(texts[1 + |d| + i], SourceOf(edl[i].view, d), i)
  }

  lemma ShapedTexts(g: seq<Filter>, d: SpeakerDict, edl: seq<EdlEntry>)
    requires GraphShaped(g, d, edl)
    ensures TextsWired(g, d, edl)
  {
    forall i | 0 <= i < |edl|
      ensures g[1 + |d| + i].op == Trim(edl[i].start, edl[i].end)
      ensures TrimTextLabels(FilterTexts(g)[1 + |d| + i], SourceOf(edl[i].view, d), i)
    {
      TrimTextAt(g, d, edl, i);
    }
  }

  /** Text t reads stream `src` and is labelled seg{i}. */
  predicate TrimTextLabels(t: string, src: string, i: nat) {
    var a, o := "[" + src + "]", "[" + SegLabel(i) + "]";
    |t| >= |a| + |o| && t[..|a|] == a && t[|t| - |o|..] == o
  }

  lemma TrimTextAt(g: seq<Filter>, d: SpeakerDict, edl: seq<EdlEntry>, i: nat)
    requires GraphShaped(g, d, edl) && i < |edl|
    ensures g[1 + |d| + i].op == Trim(edl[i].start, edl[i].end)
    ensures TrimTextLabels(FilterText(g[1 + |d| + i]), SourceOf(edl[i].view, d), i)
  {
    var f := g[1 + |d| + i];
    assert f.inputs == [SourceOf(edl[i].view, d)] && f.output == SegLabel(i);
    FilterTextLabels(f);
    BracketsOne(SourceOf(edl[i].view, d));
  }
}
