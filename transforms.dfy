/** Segment transforms for visual editing (montager/transforms.py): gap filling,
    the two merges and the wide cutaways inserted into long speaker runs.

    Each transform is a method whose loop follows the source and is proved equal to
    a specification function; the lemmas below state what the specification
    functions guarantee. */
module Transforms {
  import opened Model
  import Seqs

  /** Gaps up to 0.05 s are noise and add nothing. */
  const NOISE_GAP: int := 50
  /** `MIN_GAP_FOR_WIDE`: a gap of 3.0 s or more becomes a wide segment. */
  const MIN_GAP_FOR_WIDE: int := 3000
  /** Two-sided tolerance of merge_adjacent_segments (0.1 s). */
  const ADJACENT_TOLERANCE: int := 100
  /** One-sided tolerance of merge_speaker_segments (0.5 s). */
  const SPEAKER_GAP_TOLERANCE: int := 500
  /** A cutaway needs more than WIDE_BREAK_DURATION + 3.0 s left after its chunk. */
  const CUTAWAY_MARGIN: int := 3000

  function SortByStart(s: seq<Segment>): (r: seq<Segment>)
    ensures multiset(r) == multiset(s) && |r| == |s|
    ensures StartsSorted(r)
  {
    var r := Seqs.SortBy(s, StartOf);
    assert forall i, j :: 0 <= i < j < |r| ==> StartOf(r[i]) <= StartOf(r[j]);
    r
  }

  lemma SortedByStart(s: seq<Segment>)
    requires StartsSorted(s)
    ensures Seqs.SortedBy(s, StartOf)
  {
  }

  // ---------------------------------------------------------------------------
  // fill_gaps_with_wide
  // ---------------------------------------------------------------------------

  /** `last_end` when segment i of the sorted list is reached. */
  function PrevEnd(s: seq<Segment>, i: nat): int
    requires i <= |s|
  {
    if i == 0 then 0 else s[i - 1].end
  }

  function Gap(s: seq<Segment>, i: nat): int
    requires i < |s|
  {
    s[i].start - PrevEnd(s, i)
  }

  /** A wide segment is emitted in front of segment i: any gap over 0.05 s before the
      first segment, a gap of at least 3.0 s before any later one. */
  predicate WideBefore(s: seq<Segment>, i: nat)
    requires i < |s|
  {
    Gap(s, i) > NOISE_GAP && (i == 0 || Gap(s, i) >= MIN_GAP_FOR_WIDE)
  }

  /** The short gap in front of segment i (i > 0) is absorbed by segment i - 1. */
  predicate Absorbed(s: seq<Segment>, i: nat)
    requires i < |s|
  {
    0 < i && NOISE_GAP < Gap(s, i) < MIN_GAP_FOR_WIDE
  }

  /** The wide segment covering the gap in front of segment i. */
  function GapSegment(s: seq<Segment>, i: nat): Segment
    requires i < |s|
  {
    Segment(PrevEnd(s, i), s[i].start, WIDE)
  }

  /** Segment i as it finally stands: extended to the next start when the next gap is absorbed. */
  function Adjusted(s: seq<Segment>, i: nat): (r: Segment)
    requires i < |s|
    ensures r.start == s[i].start && r.speaker == s[i].speaker
    ensures r.end == s[i].end
         || (i + 1 < |s| && r.end == s[i + 1].start && s[i].end + NOISE_GAP < r.end < s[i].end + MIN_GAP_FOR_WIDE)
  {
    if i + 1 < |s| && Absorbed(s, i + 1) then s[i].(end := s[i + 1].start) else s[i]
  }

  function WidePart(s: seq<Segment>, i: nat): seq<Segment>
    requires i < |s|
  {
    if WideBefore(s, i) then [GapSegment(s, i)] else []
  }

  /** What segment i contributes to the output. */
  function Block(s: seq<Segment>, i: nat): seq<Segment>
    requires i < |s|
  {
    WidePart(s, i) + [Adjusted(s, i)]
  }

  /** The output contributed by the first k segments of the sorted list. */
  function Emitted(s: seq<Segment>, k: nat): (r: seq<Segment>)
    requires k <= |s|
  {
    if k == 0 then [] else Emitted(s, k - 1) + Block(s, k - 1)
  }

  /** Each segment contributes one or two output segments, itself (adjusted) last. */
  lemma {:induction false} EmittedShape(s: seq<Segment>, k: nat)
    requires k <= |s|
    ensures k <= |Emitted(s, k)| <= 2 * k
    ensures 0 < k ==> Emitted(s, k)[|Emitted(s, k)| - 1] == Adjusted(s, k - 1)
  {
    if 0 < k {
      EmittedShape(s, k - 1);
      var e, b := Emitted(s, k - 1), Block(s, k - 1);
      assert Emitted(s, k) == e + b;
      assert (e + b)[|e + b| - 1] == b[|b| - 1];
    }
  }

  /** The wide segment closing the timeline, present iff the last segment ends more
      than 0.05 s before `duration`. */
  function Trailing(s: seq<Segment>, duration: int): seq<Segment>
    requires |s| > 0
  {
    var lastEnd := s[|s| - 1].end;
    if lastEnd < duration - NOISE_GAP then [Segment(lastEnd, duration, WIDE)] else []
  }

  /** Specification of fill_gaps_with_wide. */
  function FillGaps(segments: seq<Segment>, duration: int): (r: seq<Segment>)
    ensures segments == [] ==> r == [Segment(0, duration, WIDE)]
    ensures segments != [] ==> |segments| <= |r| <= 2 * |segments| + 1
  {
    if segments == [] then [Segment(0, duration, WIDE)]
    else
      var s := SortByStart(segments);
      EmittedShape(s, |s|);
      Emitted(s, |s|) + Trailing(s, duration)
  }

  /** One iteration of fill_gaps_with_wide: with segment k - 1 pushed last, a short gap in
      front of segment k rewrites that last element's end and otherwise the output
      so far is final. */
  lemma FillStep(s: seq<Segment>, k: nat, filled: seq<Segment>)
    requires 0 < k < |s| && filled == Emitted(s, k - 1) + WidePart(s, k - 1) + [s[k - 1]]
    ensures Absorbed(s, k) ==> filled[..|filled| - 1] + [filled[|filled| - 1].(end := s[k].start)] == Emitted(s, k)
    ensures !Absorbed(s, k) ==> filled == Emitted(s, k)
  {
    var done := Emitted(s, k - 1) + WidePart(s, k - 1);
    assert Emitted(s, k) == done + [Adjusted(s, k - 1)];
    assert filled[..|filled| - 1] == done;
  }

  /** One iteration of fill_gaps_with_wide, by the three ways a gap is handled: each
      leaves the output of the first k segments with segment k's wide part. */
  lemma FillIter(s: seq<Segment>, k: nat, filled: seq<Segment>)
    requires k < |s|
    requires k == 0 ==> filled == []
    requires 0 < k ==> filled == Emitted(s, k - 1) + WidePart(s, k - 1) + [s[k - 1]]
    ensures var gap := Gap(s, k);
      && (gap > NOISE_GAP && gap < MIN_GAP_FOR_WIDE && filled != [] ==>
            filled[..|filled| - 1] + [filled[|filled| - 1].(end := s[k].start)] == Emitted(s, k) + WidePart(s, k))
      && (!(gap > NOISE_GAP && gap < MIN_GAP_FOR_WIDE && filled != []) && gap > NOISE_GAP ==>
            filled + [GapSegment(s, k)] == Emitted(s, k) + WidePart(s, k))
      && (gap <= NOISE_GAP ==> filled == Emitted(s, k) + WidePart(s, k))
  {
    if k == 0 {
      assert Emitted(s, 0) == [];
    } else {
      FillStep(s, k, filled);
      if Absorbed(s, k) {
        assert WidePart(s, k) == [];
      } else if WideBefore(s, k) {
        assert WidePart(s, k) == [GapSegment(s, k)];
      } else {
        assert WidePart(s, k) == [];
      }
    }
  }

  /** Segment k - 1, standing as x, extends the output of the first k - 1 segments. */
  lemma EmittedStep(s: seq<Segment>, k: nat, x: Segment)
    requires 0 < k <= |s| && Adjusted(s, k - 1) == x
    ensures Emitted(s, k) == Emitted(s, k - 1) + WidePart(s, k - 1) + [x]
  {
    var e, w := Emitted(s, k - 1), WidePart(s, k - 1);
    assert e + (w + [x]) == e + w + [x];
  }

  /** The last segment has no following gap to absorb and stands as it is. */
  lemma EmittedLast(s: seq<Segment>)
    requires s != []
    ensures Emitted(s, |s|) == Emitted(s, |s| - 1) + WidePart(s, |s| - 1) + [s[|s| - 1]]
  {
    AdjustedLast(s);
    EmittedStep(s, |s|, s[|s| - 1]);
  }

  lemma AdjustedLast(s: seq<Segment>)
    requires s != []
    ensures Adjusted(s, |s| - 1) == s[|s| - 1]
  {
  }

  method FillGapsWithWide(segments: seq<Segment>, duration: int) returns (filled: seq<Segment>)
    ensures filled == FillGaps(segments, duration)
  {
    if segments == [] {
      return [Segment(0, duration, WIDE)];
    }
    var s := SortByStart(segments);
    filled := [];
    var lastEnd := 0;
    for k := 0 to |s|
      invariant lastEnd == PrevEnd(s, k)
      invariant k == 0 ==> filled == []
      invariant 0 < k ==> filled == Emitted(s, k - 1) + WidePart(s, k - 1) + [s[k - 1]]
    {
      var seg := s[k];
      var gap := seg.start - lastEnd;
      FillIter(s, k, filled);
      if gap > NOISE_GAP && gap < MIN_GAP_FOR_WIDE && filled != [] {
        // the previous segment's end moves to this start; no new segment
        filled := filled[..|filled| - 1] + [filled[|filled| - 1].(end := seg.start)];
      } else if gap > NOISE_GAP {
        filled := filled + [Segment(lastEnd, seg.start, WIDE)];
      }
      filled := filled + [seg];
      lastEnd := seg.end;
    }
    EmittedLast(s);
    if lastEnd < duration - NOISE_GAP {
      filled := filled + [Segment(lastEnd, duration, WIDE)];
    }
  }

  lemma FillGapsUnfold(segments: seq<Segment>, duration: int)
    requires segments != []
    ensures var s := SortByStart(segments); FillGaps(segments, duration) == Emitted(s, |s|) + Trailing(s, duration)
  {
  }

  /** The output ends with a wide segment from the last sorted segment's end (not the
      largest end) to `duration` exactly when that end falls more than 0.05 s short of
      `duration`, however long the gap; otherwise it ends with that last segment. */
  lemma FillTrailing(segments: seq<Segment>, duration: int)
    requires segments != []
    ensures var s, r := SortByStart(segments), FillGaps(segments, duration);
      var lastEnd := s[|s| - 1].end;
      && (lastEnd < duration - NOISE_GAP ==> r[|r| - 1] == Segment(lastEnd, duration, WIDE))
      && (lastEnd >= duration - NOISE_GAP ==> r[|r| - 1] == s[|s| - 1])
  {
    var s := SortByStart(segments);
    FillGapsUnfold(segments, duration);
    EmittedShape(s, |s|);
    AdjustedLast(s);
  }

  /** Where segment i of the sorted list lands in the output. */
  function Pos(s: seq<Segment>, i: nat): nat
    requires i < |s|
  {
    |Emitted(s, i)| + |WidePart(s, i)|
  }

  lemma {:induction false} PosIncreasing(s: seq<Segment>, i: nat, j: nat)
    requires i < j < |s|
    ensures Pos(s, i) < Pos(s, j)
  {
    if i + 1 < j {
      PosIncreasing(s, i, j - 1);
    }
  }

  /** The output of the first i segments is a prefix of the output of the first k. */
  lemma {:induction false} EmittedPrefix(s: seq<Segment>, i: nat, k: nat)
    requires i <= k <= |s|
    ensures |Emitted(s, i)| <= |Emitted(s, k)|
    ensures forall j :: 0 <= j < |Emitted(s, i)| ==> Emitted(s, k)[j] == Emitted(s, i)[j]
  {
    if i < k {
      EmittedPrefix(s, i, k - 1);
      var e, r, p := Emitted(s, k - 1), Emitted(s, k), Emitted(s, i);
      assert r == e + Block(s, k - 1);
      forall j | 0 <= j < |p| ensures r[j] == p[j] {
        assert r[j] == e[j];
      }
    }
  }

  /** Segment i sits at Pos(s, i), its gap segment (if any) right in front of it. */
  lemma EmittedAt(s: seq<Segment>, k: nat, i: nat)
    requires i < k <= |s|
    ensures Pos(s, i) < |Emitted(s, k)| && Emitted(s, k)[Pos(s, i)] == Adjusted(s, i)
    ensures WideBefore(s, i) ==> Emitted(s, k)[Pos(s, i) - 1] == GapSegment(s, i)
  {
    EmittedPrefix(s, i + 1, k);
    var p := Emitted(s, i + 1);
    EmittedStep(s, i + 1, Adjusted(s, i));
    assert p[Pos(s, i)] == Adjusted(s, i);
    if WideBefore(s, i) {
      assert p[Pos(s, i) - 1] == GapSegment(s, i);
    }
  }

  /** Every position of the output holds a segment of the input or the gap segment in front of one. */
  lemma {:induction false} EmittedOnly(s: seq<Segment>, k: nat, j: nat)
    requires k <= |s| && j < |Emitted(s, k)|
    ensures exists i :: 0 <= i < k && ((j == Pos(s, i) && Emitted(s, k)[j] == Adjusted(s, i))
                                    || (j == Pos(s, i) - 1 && WideBefore(s, i) && Emitted(s, k)[j] == GapSegment(s, i)))
  {
    var e, b := Emitted(s, k - 1), Block(s, k - 1);
    assert Emitted(s, k) == e + b;
    if j < |e| {
      EmittedOnly(s, k - 1, j);
      assert Emitted(s, k)[j] == e[j];
    } else if j == Pos(s, k - 1) {
      assert Emitted(s, k)[j] == Adjusted(s, k - 1);
    } else {
      assert Emitted(s, k)[j] == GapSegment(s, k - 1);
    }
  }

  /** fill_gaps_with_wide keeps every input segment exactly once, in ascending start
      order, changing only the end of a segment whose following short gap it absorbs;
      everything else in the output is wide. */
  lemma FillKeepsInputs(segments: seq<Segment>, duration: int)
    requires segments != []
    ensures var s, r := SortByStart(segments), FillGaps(segments, duration);
      && (forall i :: 0 <= i < |s| ==> Pos(s, i) < |r| && r[Pos(s, i)] == Adjusted(s, i))
      && (forall i, j :: 0 <= i < j < |s| ==> Pos(s, i) < Pos(s, j))
      && (forall j :: 0 <= j < |r| && (forall i :: 0 <= i < |s| ==> Pos(s, i) != j) ==> r[j].speaker == WIDE)
  {
    var s, r := SortByStart(segments), FillGaps(segments, duration);
    FillGapsUnfold(segments, duration);
    KeepsAt(s, r, duration);
    forall i, j | 0 <= i < j < |s| ensures Pos(s, i) < Pos(s, j) {
      PosIncreasing(s, i, j);
    }
    OnlyWideBetween(s, r, duration);
  }

  lemma KeepsAt(s: seq<Segment>, r: seq<Segment>, duration: int)
    requires s != [] && r == Emitted(s, |s|) + Trailing(s, duration)
    ensures forall i :: 0 <= i < |s| ==> Pos(s, i) < |r| && r[Pos(s, i)] == Adjusted(s, i)
  {
    var e := Emitted(s, |s|);
    forall i | 0 <= i < |s| ensures Pos(s, i) < |r| && r[Pos(s, i)] == Adjusted(s, i) {
      EmittedAt(s, |s|, i);
      assert r[Pos(s, i)] == e[Pos(s, i)];
    }
  }

  lemma OnlyWideBetween(s: seq<Segment>, r: seq<Segment>, duration: int)
    requires s != [] && r == Emitted(s, |s|) + Trailing(s, duration)
    ensures forall j :: 0 <= j < |r| && (forall i :: 0 <= i < |s| ==> Pos(s, i) != j) ==> r[j].speaker == WIDE
  {
    var e := Emitted(s, |s|);
    forall j | 0 <= j < |r| && (forall i :: 0 <= i < |s| ==> Pos(s, i) != j)
      ensures r[j].speaker == WIDE
    {
      if j < |e| {
        EmittedOnly(s, |s|, j);
        assert r[j] == e[j];
      }
    }
  }

  /** Segments with no negative duration. */
  predicate Ordered(s: seq<Segment>) {
    forall i :: 0 <= i < |s| ==> s[i].start <= s[i].end
  }

  /** The segments contributed by segment i start no later than it and, unless i is
      the first, no earlier than segment i - 1. */
  lemma BlockStarts(s: seq<Segment>, i: nat)
    requires i < |s|
    requires 0 < i ==> s[i - 1].start <= s[i - 1].end && s[i - 1].start <= s[i].start
    ensures StartsSorted(Block(s, i))
    ensures StartsWithin(Block(s, i), if i == 0 then Min(0, s[0].start) else s[i - 1].start, s[i].start)
  {
    var b := Block(s, i);
    if WideBefore(s, i) {
      assert b == [GapSegment(s, i), Adjusted(s, i)];
    } else {
      assert b == [Adjusted(s, i)];
    }
  }

  lemma {:induction false} EmittedSorted(s: seq<Segment>, k: nat)
    requires 0 < k <= |s| && StartsSorted(s) && Ordered(s)
    ensures StartsSorted(Emitted(s, k))
    ensures forall j :: 0 <= j < |Emitted(s, k)| ==> Emitted(s, k)[j].start <= s[k - 1].start
  {
    var e, b := Emitted(s, k - 1), Block(s, k - 1);
    assert Emitted(s, k) == e + b;
    assert 1 < k ==> s[k - 2].start <= s[k - 2].end && s[k - 2].start <= s[k - 1].start;
    BlockStarts(s, k - 1);
    if k > 1 {
      EmittedSorted(s, k - 1);
      SortedStep(Emitted(s, k), e, b, s[k - 2].start, s[k - 1].start);
    } else {
      SortedStep(Emitted(s, k), [], b, Min(0, s[0].start), s[0].start);
    }
  }

  /** Appending starts that lie above m to starts below m keeps them sorted. */
  lemma SortedStep(r: seq<Segment>, e: seq<Segment>, b: seq<Segment>, m: int, hi: int)
    requires r == e + b && StartsSorted(e) && StartsSorted(b)
    requires forall j :: 0 <= j < |e| ==> e[j].start <= m
    requires StartsWithin(b, m, hi) && m <= hi
    ensures StartsSorted(r)
    ensures forall j :: 0 <= j < |r| ==> r[j].start <= hi
  {
    StartsSortedAppend(e, b, m);
    forall j | 0 <= j < |r| ensures r[j].start <= hi {
      if j < |e| { assert r[j] == e[j]; } else { assert r[j] == b[j - |e|]; }
    }
  }

  lemma OutputSorted(s: seq<Segment>, duration: int)
    requires s != [] && StartsSorted(s) && Ordered(s)
    ensures StartsSorted(Emitted(s, |s|) + Trailing(s, duration))
  {
    var e, t := Emitted(s, |s|), Trailing(s, duration);
    var m := s[|s| - 1].start;
    EmittedSorted(s, |s|);
    assert m <= s[|s| - 1].end;
    assert t == [] || t == [Segment(s[|s| - 1].end, duration, WIDE)];
    assert forall i :: 0 <= i < |t| ==> m <= t[i].start;
    StartsSortedAppend(e, t, m);
  }

  /** Sorting keeps every segment's own start-end order. */
  lemma SortKeepsOrdered(segments: seq<Segment>)
    requires Ordered(segments)
    ensures Ordered(SortByStart(segments))
  {
    var s := SortByStart(segments);
    forall i | 0 <= i < |s| ensures s[i].start <= s[i].end {
      assert s[i] in multiset(segments);
    }
  }

  /** For segments of non-negative duration the output is sorted by start. */
  lemma FillSorted(segments: seq<Segment>, duration: int)
    requires Ordered(segments)
    ensures StartsSorted(FillGaps(segments, duration))
  {
    if segments != [] {
      SortKeepsOrdered(segments);
      OutputSorted(SortByStart(segments), duration);
      FillGapsUnfold(segments, duration);
    }
  }

  lemma {:induction false} NonOverlappingSorted(s: seq<Segment>)
    requires WellFormed(s) && NonOverlapping(s)
    ensures StartsSorted(s)
  {
    if |s| > 1 {
      var init := s[..|s| - 1];
      NonOverlappingSorted(init);
      forall i | 0 <= i < |s| - 1 ensures s[i].start <= s[|s| - 1].start {
        assert init[i].start <= init[|init| - 1].start;
      }
    }
  }

  /** A well-formed list that does not overlap is already sorted, so the sort leaves it as
      it is and FillCoverage's condition is just that it does not overlap. */
  lemma AlreadySorted(s: seq<Segment>)
    requires WellFormed(s) && NonOverlapping(s)
    ensures SortByStart(s) == s
  {
    NonOverlappingSorted(s);
    SortedByStart(s);
    Seqs.SortBySorted(s, StartOf);
  }

  /** Input out of order is sorted first: the two segments below arrive late-first, and
      their sorted form does not overlap, so FillCoverage covers the timeline for them. */
  lemma UnsortedInputCovered()
    ensures var s := [Segment(5000, 6000, "a"), Segment(1000, 2000, "b")];
      && SortByStart(s) == [s[1], s[0]]
      && WellFormed(s) && NonOverlapping(SortByStart(s))
  {
    var s := [Segment(5000, 6000, "a"), Segment(1000, 2000, "b")];
    var r := SortByStart(s);
    assert multiset(r) == multiset{s[0], s[1]};
    assert r[0] in multiset(r) && r[1] in multiset(r);
    assert r[0] != r[1] by {
      assert multiset(r)[s[0]] == 1 && multiset(r)[s[1]] == 1;
    }
    assert r == [s[1], s[0]];
  }

  /** What one segment contributes covers its own span and the gap segment in front of it. */
  lemma BlockCovers(s: seq<Segment>, i: nat)
    requires i < |s| && WellFormed(s) && NonOverlapping(s)
    ensures WellFormed(Block(s, i)) && Contiguous(Block(s, i), NOISE_GAP)
    ensures Block(s, i)[0].start == if WideBefore(s, i) then PrevEnd(s, i) else s[i].start
  {
    if WideBefore(s, i) {
      assert Block(s, i) == [GapSegment(s, i), Adjusted(s, i)];
    } else {
      assert Block(s, i) == [Adjusted(s, i)];
    }
  }

  /** Segment i - 1 as it finally stands meets what segment i contributes within 0.05 s. */
  lemma BlockJunction(s: seq<Segment>, i: nat)
    requires 0 < i < |s| && WellFormed(s) && NonOverlapping(s)
    ensures Adjusted(s, i - 1).end <= Block(s, i)[0].start <= Adjusted(s, i - 1).end + NOISE_GAP
  {
    BlockCovers(s, i);
  }

  lemma {:induction false} EmittedCoverage(s: seq<Segment>, k: nat)
    requires 0 < k <= |s| && WellFormed(s) && NonOverlapping(s)
    ensures WellFormed(Emitted(s, k)) && Contiguous(Emitted(s, k), NOISE_GAP)
    ensures Emitted(s, k)[0].start <= NOISE_GAP
  {
    var r, e, b := Emitted(s, k), Emitted(s, k - 1), Block(s, k - 1);
    assert r == e + b;
    BlockCovers(s, k - 1);
    if k > 1 {
      EmittedCoverage(s, k - 1);
      EmittedShape(s, k - 1);
      BlockJunction(s, k - 1);
      AppendCovers(r, e, b, NOISE_GAP);
      assert r[0] == e[0];
    } else {
      assert r == b;
    }
  }

  lemma OutputCoverage(s: seq<Segment>, duration: int)
    requires s != [] && WellFormed(s) && NonOverlapping(s)
    ensures var r := Emitted(s, |s|) + Trailing(s, duration);
      && WellFormed(r) && Contiguous(r, NOISE_GAP)
      && r[0].start <= NOISE_GAP && r[|r| - 1].end >= duration - NOISE_GAP
  {
    var e, t := Emitted(s, |s|), Trailing(s, duration);
    EmittedCoverage(s, |s|);
    assert e[|e| - 1].end == s[|s| - 1].end;
    WellFormedAppend(e, t);
    ContiguousAppend(e, t, NOISE_GAP);
  }

  /** For well-formed input that does not overlap once sorted by start (in whatever
      order it arrives) the output covers the timeline: no overlaps, every hole at most
      0.05 s, starting within 0.05 s of zero and reaching within 0.05 s of `duration`.
      It ends by `duration` when no input segment ends later; nothing is clamped, so an
      input running past `duration` keeps its end (`FillOverrun`). */
  lemma FillCoverage(segments: seq<Segment>, duration: int)
    requires WellFormed(segments) && NonOverlapping(SortByStart(segments)) && duration > 0
    ensures var r := FillGaps(segments, duration);
      && WellFormed(r) && Contiguous(r, NOISE_GAP)
      && r[0].start <= NOISE_GAP && r[|r| - 1].end >= duration - NOISE_GAP
      && (EndsBy(segments, duration) ==> r[|r| - 1].end <= duration)
  {
    if segments != [] {
      var s := SortByStart(segments);
      forall i | 0 <= i < |s| ensures 0 <= s[i].start < s[i].end {
        assert s[i] in multiset(segments);
      }
      OutputCoverage(s, duration);
      FillGapsUnfold(segments, duration);
      if EndsBy(segments, duration) {
        assert s[|s| - 1] in multiset(segments);
        FillTrailing(segments, duration);
      }
    }
  }

  /** A segment ending after the video is kept as it is: 12 s of speech over a 10 s
      video fills to a single segment ending at 12 s. */
  lemma FillOverrun()
    ensures FillGaps([Segment(0, 12000, "A")], 10000) == [Segment(0, 12000, "A")]
  {
    var s := [Segment(0, 12000, "A")];
    assert SortByStart(s) == s by { AlreadySorted(s); }
    FillTrailing(s, 10000);
    FillGapsUnfold(s, 10000);
    EmittedShape(s, 1);
  }

  // ---------------------------------------------------------------------------
  // merge_adjacent_segments and merge_speaker_segments
  // ---------------------------------------------------------------------------

  /** The two merge tests: merge_adjacent_segments uses |last.end - seg.start| < 0.1 s,
      merge_speaker_segments uses seg.start - last.end < 0.5 s. */
  datatype MergeRule = Adjacent | SpeakerGap

  /** `seg` is absorbed into the running segment `last`. */
  predicate Absorbs(rule: MergeRule, last: Segment, seg: Segment) {
    last.speaker == seg.speaker &&
    match rule
    case Adjacent => -ADJACENT_TOLERANCE < last.end - seg.start < ADJACENT_TOLERANCE
    case SpeakerGap => seg.start - last.end < SPEAKER_GAP_TOLERANCE
  }

  /** Specification of the merges, one input segment at a time. */
  function Merged(rule: MergeRule, s: seq<Segment>): (r: seq<Segment>)
    ensures |r| <= |s|
    ensures s != [] ==> |r| >= 1
  {
    if |s| <= 1 then s
    else
      var m := Merged(rule, s[..|s| - 1]);
      var last, seg := m[|m| - 1], s[|s| - 1];
      if Absorbs(rule, last, seg) then m[..|m| - 1] + [last.(end := seg.end)] else m + [seg]
  }

  method Merge(rule: MergeRule, segments: seq<Segment>) returns (merged: seq<Segment>)
    ensures merged == Merged(rule, segments)
  {
    if segments == [] {
      return segments;
    }
    merged := [segments[0]];
    assert segments[..1] == [segments[0]];
    for k := 1 to |segments|
      invariant merged == Merged(rule, segments[..k])
    {
      merged := MergeNext(rule, segments, k, merged);
    }
    assert segments[..|segments|] == segments;
  }

  /** One pass of the loop: extend the last kept segment over `segments[k]`, or keep it. */
  method MergeNext(rule: MergeRule, segments: seq<Segment>, k: nat, merged: seq<Segment>) returns (next: seq<Segment>)
    requires 0 < k < |segments| && merged == Merged(rule, segments[..k])
    ensures next == Merged(rule, segments[..k + 1])
  {
    var seg := segments[k];
    MergedStep(rule, segments, k);
    var last := merged[|merged| - 1];
    if Absorbs(rule, last, seg) {
      next := merged[..|merged| - 1] + [last.(end := seg.end)];
    } else {
      next := merged + [seg];
    }
  }

  lemma MergedStep(rule: MergeRule, s: seq<Segment>, k: nat)
    requires 0 < k < |s|
    ensures var m := Merged(rule, s[..k]);
      m != [] &&
      Merged(rule, s[..k + 1])
        == if Absorbs(rule, m[|m| - 1], s[k]) then m[..|m| - 1] + [m[|m| - 1].(end := s[k].end)] else m + [s[k]]
  {
    assert s[..k + 1][..k] == s[..k];
  }

  method MergeAdjacentSegments(segments: seq<Segment>) returns (merged: seq<Segment>)
    ensures merged == Merged(Adjacent, segments)
  {
    merged := Merge(Adjacent, segments);
  }

  method MergeSpeakerSegments(segments: seq<Segment>) returns (merged: seq<Segment>)
    ensures merged == Merged(SpeakerGap, segments)
  {
    merged := Merge(SpeakerGap, segments);
  }

  /** No two consecutive segments would be merged. */
  predicate NoJoins(rule: MergeRule, s: seq<Segment>) {
    forall i :: 0 <= i < |s| - 1 ==> !Absorbs(rule, s[i], s[i + 1])
  }

  /** After a merge, every consecutive pair differs in speaker or is too far apart. */
  lemma {:induction false} MergedNoJoins(rule: MergeRule, s: seq<Segment>)
    ensures NoJoins(rule, Merged(rule, s))
  {
    if |s| > 1 {
      var m := Merged(rule, s[..|s| - 1]);
      MergedNoJoins(rule, s[..|s| - 1]);
      var last, seg := m[|m| - 1], s[|s| - 1];
      if Absorbs(rule, last, seg) {
        NoJoinsReplaceLast(rule, m, last.(end := seg.end));
      } else {
        NoJoinsAppend(rule, m, seg);
      }
    }
  }

  /** Moving the end of the last segment keeps a list free of joins. */
  lemma NoJoinsReplaceLast(rule: MergeRule, m: seq<Segment>, x: Segment)
    requires NoJoins(rule, m) && m != []
    requires x.start == m[|m| - 1].start && x.speaker == m[|m| - 1].speaker
    ensures NoJoins(rule, m[..|m| - 1] + [x])
  {
    var r := m[..|m| - 1] + [x];
    forall i | 0 <= i < |r| - 1 ensures !Absorbs(rule, r[i], r[i + 1]) {
      assert r[i] == m[i];
      assert r[i + 1].start == m[i + 1].start && r[i + 1].speaker == m[i + 1].speaker;
      assert !Absorbs(rule, m[i], m[i + 1]);
    }
  }

  /** Appending a segment the last one does not absorb keeps a list free of joins. */
  lemma NoJoinsAppend(rule: MergeRule, m: seq<Segment>, x: Segment)
    requires NoJoins(rule, m) && m != [] && !Absorbs(rule, m[|m| - 1], x)
    ensures NoJoins(rule, m + [x])
  {
    var r := m + [x];
    forall i | 0 <= i < |r| - 1 ensures !Absorbs(rule, r[i], r[i + 1]) {
      if i < |m| - 1 {
        assert r[i] == m[i] && r[i + 1] == m[i + 1];
      } else {
        assert r[i] == m[|m| - 1] && r[i + 1] == x;
      }
    }
  }

  /** A sequence with nothing to merge is left unchanged. */
  lemma {:induction false} MergedFixpoint(rule: MergeRule, s: seq<Segment>)
    requires NoJoins(rule, s)
    ensures Merged(rule, s) == s
  {
    if |s| > 1 {
      var init := s[..|s| - 1];
      assert NoJoins(rule, init);
      MergedFixpoint(rule, init);
      assert !Absorbs(rule, s[|s| - 2], s[|s| - 1]);
      assert s == init + [s[|s| - 1]];
    }
  }

  /** Merging twice is merging once. */
  lemma MergeIdempotent(rule: MergeRule, s: seq<Segment>)
    ensures Merged(rule, Merged(rule, s)) == Merged(rule, s)
  {
    MergedNoJoins(rule, s);
    MergedFixpoint(rule, Merged(rule, s));
  }

  /** A merge keeps the first start, the last end and the last speaker. */
  lemma {:induction false} MergedEnds(rule: MergeRule, s: seq<Segment>)
    requires s != []
    ensures var r := Merged(rule, s);
      r[0].start == s[0].start && r[|r| - 1].end == s[|s| - 1].end && r[|r| - 1].speaker == s[|s| - 1].speaker
  {
    if |s| > 1 {
      var init := s[..|s| - 1];
      MergedEnds(rule, init);
      var m := Merged(rule, init);
      var last, seg := m[|m| - 1], s[|s| - 1];
      if Absorbs(rule, last, seg) {
        var r := m[..|m| - 1] + [last.(end := seg.end)];
        assert r[0].start == m[0].start;
      } else {
        assert (m + [seg])[0] == m[0];
      }
    }
  }

  /** Merging a covering sequence keeps it covering: the holes left are holes of the input. */
  lemma {:induction false} MergedCoverage(rule: MergeRule, s: seq<Segment>, tol: int)
    requires WellFormed(s) && Contiguous(s, tol)
    ensures WellFormed(Merged(rule, s)) && Contiguous(Merged(rule, s), tol)
  {
    if |s| > 1 {
      var init := s[..|s| - 1];
      CoverPrefix(s, |s| - 1, tol);
      MergedCoverage(rule, init, tol);
      MergedEnds(rule, init);
      var m := Merged(rule, init);
      var last, seg := m[|m| - 1], s[|s| - 1];
      assert last.end == s[|s| - 2].end;
      assert s[|s| - 2].end <= seg.start <= s[|s| - 2].end + tol && seg.start < seg.end;
      if Absorbs(rule, last, seg) {
        CoverReplaceLast(m, last.(end := seg.end), tol);
      } else {
        AppendCovers(m + [seg], m, [seg], tol);
      }
    }
  }

  /** Extending the last segment of a covering list to a later end keeps it covering. */
  lemma CoverReplaceLast(m: seq<Segment>, x: Segment, tol: int)
    requires WellFormed(m) && Contiguous(m, tol) && m != []
    requires x.start == m[|m| - 1].start && x.start < x.end
    ensures WellFormed(m[..|m| - 1] + [x]) && Contiguous(m[..|m| - 1] + [x], tol)
  {
    var p := m[..|m| - 1];
    CoverPrefix(m, |m| - 1, tol);
    if p != [] {
      assert p[|p| - 1] == m[|m| - 2];
    }
    AppendCovers(p + [x], p, [x], tol);
  }

  /** A worked case: the 0.05 s hole closes and the A runs join. */
  lemma MergeAdjacentExample()
    ensures Merged(Adjacent, [Segment(0, 5000, "A"), Segment(5050, 8000, "A"), Segment(8000, 9000, "B")])
         == [Segment(0, 8000, "A"), Segment(8000, 9000, "B")]
  {
    var s := [Segment(0, 5000, "A"), Segment(5050, 8000, "A"), Segment(8000, 9000, "B")];
    assert s[..1] == [Segment(0, 5000, "A")];
    assert s[..2] == [Segment(0, 5000, "A"), Segment(5050, 8000, "A")];
    assert s[..2][..1] == s[..1];
  }

  /** The one-sided test of merge_speaker_segments merges an overlapping segment of the
      same speaker, and the merged end moves back to the inner segment's end; the
      two-sided test keeps the two apart. */
  lemma SpeakerMergeCanShrink()
    ensures Merged(SpeakerGap, [Segment(0, 10000, "A"), Segment(2000, 5000, "A")]) == [Segment(0, 5000, "A")]
    ensures Merged(Adjacent, [Segment(0, 10000, "A"), Segment(2000, 5000, "A")])
         == [Segment(0, 10000, "A"), Segment(2000, 5000, "A")]
  {
    var s := [Segment(0, 10000, "A"), Segment(2000, 5000, "A")];
    assert s[..1] == [Segment(0, 10000, "A")];
  }

  // ---------------------------------------------------------------------------
  // insert_wide_breaks
  // ---------------------------------------------------------------------------

  function Min(a: int, b: int): int {
    if a <= b then a else b
  }

  /** The pieces a long run of `speaker` from `pos` to `end` is cut into: a chunk of at
      most 8.0 s, then a 2.0 s wide cutaway if more than 5.0 s remain after the chunk. */
  function Chunks(pos: int, end: int, speaker: string): seq<Segment>
    decreases end - pos
  {
    if pos >= end then []
    else
      var chunkEnd := Min(pos + WIDE_BREAK_INTERVAL, end);
      var chunk := Segment(pos, chunkEnd, speaker);
      if end - chunkEnd > WIDE_BREAK_DURATION + CUTAWAY_MARGIN then
        [chunk, Segment(chunkEnd, chunkEnd + WIDE_BREAK_DURATION, WIDE)]
          + Chunks(chunkEnd + WIDE_BREAK_DURATION, end, speaker)
      else
        [chunk] + Chunks(chunkEnd, end, speaker)
  }

  /** The cutaway cadence: speaker chunks of at most 8.0 s, wide cutaways of exactly 2.0 s,
      each cutaway followed by a speaker chunk (so never last, never two in a row). */
  predicate Cadence(r: seq<Segment>, speaker: string) {
    forall j {:trigger r[j]} :: 0 <= j < |r| ==>
      (r[j].speaker == speaker && r[j].end - r[j].start <= WIDE_BREAK_INTERVAL)
      || (r[j].speaker == WIDE && r[j].end - r[j].start == WIDE_BREAK_DURATION
          && j + 1 < |r| && r[j + 1].speaker == speaker)
  }

  /** Putting one piece in front of a sequence that follows the cadence. */
  lemma CadenceCons(x: Segment, rest: seq<Segment>, speaker: string)
    requires Cadence(rest, speaker)
    requires (x.speaker == speaker && x.end - x.start <= WIDE_BREAK_INTERVAL)
          || (x.speaker == WIDE && x.end - x.start == WIDE_BREAK_DURATION && rest != [] && rest[0].speaker == speaker)
    ensures Cadence([x] + rest, speaker)
  {
    var r := [x] + rest;
    forall j | 0 <= j < |r|
      ensures (r[j].speaker == speaker && r[j].end - r[j].start <= WIDE_BREAK_INTERVAL)
           || (r[j].speaker == WIDE && r[j].end - r[j].start == WIDE_BREAK_DURATION
               && j + 1 < |r| && r[j + 1].speaker == speaker)
    {
      if j == 0 {
        assert r[0] == x;
        if rest != [] { assert r[1] == rest[0]; }
      } else {
        var i := j - 1;
        assert r[j] == rest[i];
        assert (rest[i].speaker == speaker && rest[i].end - rest[i].start <= WIDE_BREAK_INTERVAL)
            || (rest[i].speaker == WIDE && rest[i].end - rest[i].start == WIDE_BREAK_DURATION
                && i + 1 < |rest| && rest[i + 1].speaker == speaker);
        if j + 1 < |r| { assert r[j + 1] == rest[j]; }
      }
    }
  }

  /** The pieces of a run start with a chunk of the speaker at the run's start and
      end at the run's end. */
  lemma {:induction false} ChunksEnds(pos: int, end: int, speaker: string)
    requires pos < end
    ensures var r := Chunks(pos, end, speaker);
      r != [] && r[0] == Segment(pos, Min(pos + WIDE_BREAK_INTERVAL, end), speaker) && r[|r| - 1].end == end
    decreases end - pos
  {
    var r := Chunks(pos, end, speaker);
    var chunkEnd := Min(pos + WIDE_BREAK_INTERVAL, end);
    if end - chunkEnd > WIDE_BREAK_DURATION + CUTAWAY_MARGIN {
      var rest := Chunks(chunkEnd + WIDE_BREAK_DURATION, end, speaker);
      ChunksEnds(chunkEnd + WIDE_BREAK_DURATION, end, speaker);
      assert r[|r| - 1] == rest[|rest| - 1];
    } else if chunkEnd < end {
      var rest := Chunks(chunkEnd, end, speaker);
      ChunksEnds(chunkEnd, end, speaker);
      assert r[|r| - 1] == rest[|rest| - 1];
    } else {
      assert Chunks(chunkEnd, end, speaker) == [];
    }
  }

  /** The pieces of a run are contiguous and, for a run starting at or after zero,
      each starts at or after zero and lasts a positive time. */
  lemma {:induction false} ChunksCover(pos: int, end: int, speaker: string)
    requires pos < end
    ensures Contiguous(Chunks(pos, end, speaker), 0)
    ensures 0 <= pos ==> WellFormed(Chunks(pos, end, speaker))
    decreases end - pos
  {
    var r := Chunks(pos, end, speaker);
    var chunkEnd := Min(pos + WIDE_BREAK_INTERVAL, end);
    var chunk := Segment(pos, chunkEnd, speaker);
    if end - chunkEnd > WIDE_BREAK_DURATION + CUTAWAY_MARGIN {
      var next := chunkEnd + WIDE_BREAK_DURATION;
      var a := [chunk, Segment(chunkEnd, next, WIDE)];
      var rest := Chunks(next, end, speaker);
      assert r == a + rest;
      ChunksCover(next, end, speaker);
      ChunksEnds(next, end, speaker);
      PrependCover(a, rest, 0 <= pos);
    } else if chunkEnd < end {
      var rest := Chunks(chunkEnd, end, speaker);
      assert r == [chunk] + rest;
      ChunksCover(chunkEnd, end, speaker);
      ChunksEnds(chunkEnd, end, speaker);
      PrependCover([chunk], rest, 0 <= pos);
    } else {
      assert Chunks(chunkEnd, end, speaker) == [];
      assert r == [chunk];
    }
  }

  /** Abutting covering lists join into one. */
  lemma PrependCover(a: seq<Segment>, rest: seq<Segment>, nonNegative: bool)
    requires a != [] && rest != [] && Contiguous(a, 0) && Contiguous(rest, 0)
    requires a[|a| - 1].end == rest[0].start
    requires nonNegative ==> WellFormed(a) && WellFormed(rest)
    ensures Contiguous(a + rest, 0) && (nonNegative ==> WellFormed(a + rest))
  {
    ContiguousAppend(a, rest, 0);
    if nonNegative {
      WellFormedAppend(a, rest);
    }
  }


  /** The pieces of a run of a named speaker follow the cadence. */
  lemma {:induction false} ChunksCadence(pos: int, end: int, speaker: string)
    requires speaker != WIDE
    ensures Cadence(Chunks(pos, end, speaker), speaker)
    decreases end - pos
  {
    if pos < end {
      var r := Chunks(pos, end, speaker);
      var chunkEnd := Min(pos + WIDE_BREAK_INTERVAL, end);
      var chunk := Segment(pos, chunkEnd, speaker);
      if end - chunkEnd > WIDE_BREAK_DURATION + CUTAWAY_MARGIN {
        var cut := Segment(chunkEnd, chunkEnd + WIDE_BREAK_DURATION, WIDE);
        var rest := Chunks(chunkEnd + WIDE_BREAK_DURATION, end, speaker);
        ChunksCadence(chunkEnd + WIDE_BREAK_DURATION, end, speaker);
        ChunksEnds(chunkEnd + WIDE_BREAK_DURATION, end, speaker);
        assert r == [chunk] + ([cut] + rest);
        CadenceCons(cut, rest, speaker);
        CadenceCons(chunk, [cut] + rest, speaker);
      } else {
        ChunksCadence(chunkEnd, end, speaker);
        CadenceCons(chunk, Chunks(chunkEnd, end, speaker), speaker);
      }
    }
  }

  /** A segment of a named speaker lasting 15.0 s or more is cut up; any other passes through. */
  predicate IsLongSpeakerRun(seg: Segment) {
    seg.speaker != WIDE && seg.end - seg.start >= LONG_SPEAKER_THRESHOLD
  }

  /** What insert_wide_breaks emits for one segment. */
  function Split(seg: Segment): (r: seq<Segment>)
    ensures !IsLongSpeakerRun(seg) ==> r == [seg]
  {
    if IsLongSpeakerRun(seg) then Chunks(seg.start, seg.end, seg.speaker) else [seg]
  }

  /** Specification of insert_wide_breaks: each segment replaced by its pieces, in place. */
  function Breaks(s: seq<Segment>): seq<Segment> {
    if s == [] then [] else Breaks(s[..|s| - 1]) + Split(s[|s| - 1])
  }

  method InsertWideBreaks(segments: seq<Segment>) returns (result: seq<Segment>)
    ensures result == Breaks(segments)
  {
    result := [];
    for k := 0 to |segments|
      invariant result == Breaks(segments[..k])
    {
      var seg := segments[k];
      BreaksStep(segments, k);
      var duration := seg.end - seg.start;
      var speaker := seg.speaker;
      if speaker != WIDE && duration >= LONG_SPEAKER_THRESHOLD {
        result := CutRun(result, seg.start, seg.end, speaker);
      } else {
        result := result + [seg];
      }
    }
    assert segments[..|segments|] == segments;
  }

  lemma BreaksStep(s: seq<Segment>, k: nat)
    requires k < |s|
    ensures Breaks(s[..k + 1]) == Breaks(s[..k]) + Split(s[k])
  {
    assert s[..k + 1][..k] == s[..k];
  }

  /** The inner `while pos < seg['end']` loop of insert_wide_breaks: appends the pieces
      of the run of `speaker` from `start` to `end`. */
  method CutRun(acc: seq<Segment>, start: int, end: int, speaker: string) returns (result: seq<Segment>)
    ensures result == acc + Chunks(start, end, speaker)
  {
    result := acc;
    var pos := start;
    while pos < end
      invariant result + Chunks(pos, end, speaker) == acc + Chunks(start, end, speaker)
      decreases end - pos
    {
      ghost var before, oldPos := result, pos;
      var chunkEnd := Min(pos + WIDE_BREAK_INTERVAL, end);
      var chunk := Segment(pos, chunkEnd, speaker);
      result := result + [chunk];
      pos := chunkEnd;
      var remaining := end - pos;
      if remaining > WIDE_BREAK_DURATION + CUTAWAY_MARGIN {
        var cutaway := Segment(pos, pos + WIDE_BREAK_DURATION, WIDE);
        result := result + [cutaway];
        pos := pos + WIDE_BREAK_DURATION;
        assert Chunks(oldPos, end, speaker) == [chunk, cutaway] + Chunks(pos, end, speaker);
        AppendTwo(before, chunk, cutaway, Chunks(pos, end, speaker));
      } else {
        assert Chunks(oldPos, end, speaker) == [chunk] + Chunks(pos, end, speaker);
        AppendOne(before, chunk, Chunks(pos, end, speaker));
      }
    }
  }

  lemma AppendOne<T>(r: seq<T>, a: T, c: seq<T>)
    ensures (r + [a]) + c == r + ([a] + c)
  {
  }

  lemma AppendTwo<T>(r: seq<T>, a: T, b: T, c: seq<T>)
    ensures (r + [a] + [b]) + c == r + ([a, b] + c)
  {
  }

  /** Splitting keeps a segment's span: its pieces run contiguously from its start to its end. */
  lemma SplitShape(seg: Segment)
    requires 0 <= seg.start < seg.end
    ensures var r := Split(seg);
      && |r| >= 1 && r[0].start == seg.start && r[|r| - 1].end == seg.end
      && WellFormed(r) && Contiguous(r, 0)
      && (IsLongSpeakerRun(seg) ==> Cadence(r, seg.speaker))
  {
    if IsLongSpeakerRun(seg) {
      ChunksEnds(seg.start, seg.end, seg.speaker);
      ChunksCover(seg.start, seg.end, seg.speaker);
      ChunksCadence(seg.start, seg.end, seg.speaker);
    }
  }

  /** Cutaway insertion keeps a covering sequence covering, with the same endpoints. */
  lemma {:induction false} BreaksCoverage(s: seq<Segment>, tol: int)
    requires WellFormed(s) && Contiguous(s, tol) && tol >= 0
    ensures var r := Breaks(s);
      && |r| >= |s| && WellFormed(r) && Contiguous(r, tol)
      && (s != [] ==> r[0].start == s[0].start && r[|r| - 1].end == s[|s| - 1].end)
  {
    if s != [] {
      var init, seg := s[..|s| - 1], s[|s| - 1];
      CoverPrefix(s, |s| - 1, tol);
      BreaksCoverage(init, tol);
      SplitShape(seg);
      var r, b, p := Breaks(s), Breaks(init), Split(seg);
      assert r == b + p;
      assert 0 <= seg.start < seg.end;
      if init != [] {
        assert s[|s| - 2].end <= seg.start <= s[|s| - 2].end + tol;
        assert b[|b| - 1].end == s[|s| - 2].end;
        assert r[0] == b[0];
      }
      assert r[|r| - 1] == p[|p| - 1];
      AppendCovers(r, b, p, tol);
    }
  }

  /** After insert_wide_breaks no close-up lasts 15.0 s or more. */
  lemma {:induction false} BreaksShortCloseUps(s: seq<Segment>)
    ensures forall j :: 0 <= j < |Breaks(s)| && Breaks(s)[j].speaker != WIDE ==>
      Breaks(s)[j].end - Breaks(s)[j].start < LONG_SPEAKER_THRESHOLD
  {
    if s != [] {
      var init, seg := s[..|s| - 1], s[|s| - 1];
      BreaksShortCloseUps(init);
      var r, b, p := Breaks(s), Breaks(init), Split(seg);
      assert r == b + p;
      if IsLongSpeakerRun(seg) {
        ChunksCadence(seg.start, seg.end, seg.speaker);
      }
      forall j | 0 <= j < |r| && r[j].speaker != WIDE ensures r[j].end - r[j].start < LONG_SPEAKER_THRESHOLD {
        if j < |b| {
          assert r[j] == b[j];
        } else {
          var k := j - |b|;
          assert r[j] == p[k];
          if !IsLongSpeakerRun(seg) {
            assert p[k] == seg;
          }
        }
      }
    }
  }

  /** A worked case: a 20 s monologue becomes 8 s of A, a 2 s cutaway,
      8 s of A and the last 2 s of A (the 2 s left after the second chunk is too
      short for a cutaway). */
  lemma LongMonologueExample()
    ensures Breaks([Segment(0, 20000, "A")])
         == [Segment(0, 8000, "A"), Segment(8000, 10000, WIDE), Segment(10000, 18000, "A"), Segment(18000, 20000, "A")]
  {
    assert Chunks(18000, 20000, "A") == [Segment(18000, 20000, "A")];
    assert Chunks(10000, 20000, "A") == [Segment(10000, 18000, "A"), Segment(18000, 20000, "A")];
    assert [Segment(0, 20000, "A")][..0] == [];
  }
}
