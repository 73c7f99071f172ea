/** Records and constants shared by the pipeline stages (montager/models.py and
    montager/constants.py). Times are integer milliseconds: every producer of a
    time rounds it to three decimals of a second. */
module Model {

  datatype Option<T> = None | Some(value: T)

  /** The reserved view identifier of the whole-frame shot. */
  const WIDE: string := "wide"

  /** Output frame size in pixels. */
  const OUTPUT_WIDTH: int := 1920
  const OUTPUT_HEIGHT: int := 1080

  /** A speaker run of at least this length gets wide cutaways (15.0 s). */
  const LONG_SPEAKER_THRESHOLD: int := 15000
  /** Length of a speaker chunk between cutaways (8.0 s). */
  const WIDE_BREAK_INTERVAL: int := 8000
  /** Length of a wide cutaway (2.0 s). */
  const WIDE_BREAK_DURATION: int := 2000

  /** One `{'start', 'end', 'speaker_id'}` record; `speaker` is a speaker id or WIDE. */
  datatype Segment = Segment(start: int, end: int, speaker: string)

  /** An `(x, y, w, h)` rectangle in source pixels. */
  datatype Rect = Rect(x: int, y: int, w: int, h: int)

  /** A detected speaker: id, display name, face box and close-up crop. */
  datatype Speaker = Speaker(id: string, name: string, bbox: Rect, cropRect: Rect)

  /** Each segment starts at or after zero and lasts a positive time. */
  predicate WellFormed(s: seq<Segment>) {
    forall i :: 0 <= i < |s| ==> 0 <= s[i].start < s[i].end
  }

  /** Each segment ends no later than the next one starts. */
  predicate NonOverlapping(s: seq<Segment>) {
    forall i :: 0 <= i < |s| - 1 ==> s[i].end <= s[i + 1].start
  }

  /** No segment ends after time t. */
  predicate EndsBy(s: seq<Segment>, t: int) {
    forall i :: 0 <= i < |s| ==> s[i].end <= t
  }

  /** Consecutive segments neither overlap nor leave more than `tol` ms uncovered. */
  predicate Contiguous(s: seq<Segment>, tol: int) {
    forall i :: 0 <= i < |s| - 1 ==> s[i].end <= s[i + 1].start <= s[i].end + tol
  }

  function StartOf(s: Segment): int { s.start }

  /** Starts in ascending order. */
  predicate StartsSorted(s: seq<Segment>) {
    forall i, j :: 0 <= i < j < |s| ==> s[i].start <= s[j].start
  }

  /** All starts lie between lo and hi. */
  predicate StartsWithin(s: seq<Segment>, lo: int, hi: int) {
    forall i :: 0 <= i < |s| ==> lo <= s[i].start <= hi
  }

  lemma StartsSortedAppend(a: seq<Segment>, b: seq<Segment>, m: int)
    requires StartsSorted(a) && StartsSorted(b)
    requires forall i :: 0 <= i < |a| ==> a[i].start <= m
    requires forall i :: 0 <= i < |b| ==> m <= b[i].start
    ensures StartsSorted(a + b)
  {
    var c := a + b;
    forall i, j | 0 <= i < j < |c| ensures c[i].start <= c[j].start {
      if j < |a| { assert c[i] == a[i] && c[j] == a[j]; }
      else if i >= |a| { assert c[i] == b[i - |a|] && c[j] == b[j - |a|]; }
      else { assert c[i] == a[i] && c[j] == b[j - |a|]; }
    }
  }

  lemma WellFormedAppend(a: seq<Segment>, b: seq<Segment>)
    requires WellFormed(a) && WellFormed(b)
    ensures WellFormed(a + b)
  {
    forall i | 0 <= i < |a + b| ensures 0 <= (a + b)[i].start < (a + b)[i].end {
      if i < |a| { assert (a + b)[i] == a[i]; } else { assert (a + b)[i] == b[i - |a|]; }
    }
  }

  /** r, the concatenation of two covering sequences with a junction within the
      tolerance, covers. */
  lemma AppendCovers(r: seq<Segment>, a: seq<Segment>, b: seq<Segment>, tol: int)
    requires r == a + b
    requires WellFormed(a) && WellFormed(b) && Contiguous(a, tol) && Contiguous(b, tol)
    requires a != [] && b != [] ==> a[|a| - 1].end <= b[0].start <= a[|a| - 1].end + tol
    ensures WellFormed(r) && Contiguous(r, tol)
  {
    WellFormedAppend(a, b);
    ContiguousAppend(a, b, tol);
  }

  lemma CoverPrefix(a: seq<Segment>, n: nat, tol: int)
    requires n <= |a| && WellFormed(a) && Contiguous(a, tol)
    ensures WellFormed(a[..n]) && Contiguous(a[..n], tol)
  {
    var p := a[..n];
    assert forall i :: 0 <= i < n ==> p[i] == a[i];
  }

  /** Two covering sequences joined by a junction within the tolerance still cover. */
  lemma ContiguousAppend(a: seq<Segment>, b: seq<Segment>, tol: int)
    requires Contiguous(a, tol) && Contiguous(b, tol)
    requires a != [] && b != [] ==> a[|a| - 1].end <= b[0].start <= a[|a| - 1].end + tol
    ensures Contiguous(a + b, tol)
  {
    var c := a + b;
    forall i | 0 <= i < |c| - 1 ensures c[i].end <= c[i + 1].start <= c[i].end + tol {
      if i < |a| - 1 {
        assert c[i] == a[i] && c[i + 1] == a[i + 1];
      } else if i == |a| - 1 {
        assert c[i] == a[|a| - 1] && c[i + 1] == b[0];
      } else {
        assert c[i] == b[i - |a|] && c[i + 1] == b[i - |a| + 1];
      }
    }
  }
}
