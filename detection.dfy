/** Close-up geometry and speaker clustering of scene detection (montager/detection.py):
    a 16:9 crop rectangle clamped into the frame, and faces grouped into horizontal
    thirds of the frame, one speaker per third seen often enough. */
module Detection {
  import opened Model
  import Seqs
  import Text

  // ---------------------------------------------------------------------------
  // calculate_crop_rect
  // ---------------------------------------------------------------------------

  function Min(a: int, b: int): int { if a <= b then a else b }
  function Max(a: int, b: int): int { if a >= b then a else b }

  /** The crop size: the output size for a frame larger than it, otherwise 60% of each
      side (truncated) with one side shrunk to bring the ratio to 16:9. */
  function CropSize(videoWidth: nat, videoHeight: nat): (int, int)
    requires videoHeight >= 2
  {
    if videoWidth > OUTPUT_WIDTH && videoHeight > OUTPUT_HEIGHT then (OUTPUT_WIDTH, OUTPUT_HEIGHT)
    else
      var w, h := (videoWidth * 6) / 10, (videoHeight * 6) / 10;
      if w * 9 > h * 16 then ((h * 16) / 9, h) else (w, (w * 9) / 16)
  }

  /** The close-up rectangle centred on (centerX, centerY), pushed back into the frame. */
  function CalculateCropRect(centerX: int, centerY: int, videoWidth: nat, videoHeight: nat): (r: Rect)
    requires videoHeight >= 2
    // a large frame gives exactly the output size
    ensures videoWidth > OUTPUT_WIDTH && videoHeight > OUTPUT_HEIGHT ==> r.w == OUTPUT_WIDTH && r.h == OUTPUT_HEIGHT
    // otherwise both sides stay within 60% of the frame, one of them is exactly 60%, and
    // the other is the largest that does not exceed 16:9
    ensures !(videoWidth > OUTPUT_WIDTH && videoHeight > OUTPUT_HEIGHT) ==>
      && r.w <= (videoWidth * 6) / 10 && r.h <= (videoHeight * 6) / 10
      && (r.w == (videoWidth * 6) / 10 || r.h == (videoHeight * 6) / 10)
      && (r.w * 9 <= r.h * 16 < r.w * 9 + 9 || r.h * 16 <= r.w * 9 < r.h * 16 + 16)
    // the rectangle lies in the frame
    ensures 0 <= r.w && 0 <= r.h && 0 <= r.x && r.x + r.w <= videoWidth && 0 <= r.y && r.y + r.h <= videoHeight
    // centred on the point where it fits, flush with the nearer edge where it does not
    ensures 0 <= centerX - r.w / 2 <= videoWidth - r.w ==> r.x == centerX - r.w / 2
    ensures centerX - r.w / 2 < 0 ==> r.x == 0
    ensures centerX - r.w / 2 > videoWidth - r.w ==> r.x == videoWidth - r.w
    ensures 0 <= centerY - r.h / 2 <= videoHeight - r.h ==> r.y == centerY - r.h / 2
    ensures centerY - r.h / 2 < 0 ==> r.y == 0
    ensures centerY - r.h / 2 > videoHeight - r.h ==> r.y == videoHeight - r.h
  {
    var (w, h) := CropSize(videoWidth, videoHeight);
    CropSizeFits(videoWidth, videoHeight);
    var x := centerX - w / 2;
    var y := centerY - h / 2;
    Rect(Max(0, Min(x, videoWidth - w)), Max(0, Min(y, videoHeight - h)), w, h)
  }

  lemma CropSizeFits(videoWidth: nat, videoHeight: nat)
    requires videoHeight >= 2
    ensures var (w, h) := CropSize(videoWidth, videoHeight);
      && 0 <= w <= videoWidth && 0 <= h <= videoHeight
      && (!(videoWidth > OUTPUT_WIDTH && videoHeight > OUTPUT_HEIGHT) ==>
            && w <= (videoWidth * 6) / 10 && h <= (videoHeight * 6) / 10
            && (w == (videoWidth * 6) / 10 || h == (videoHeight * 6) / 10)
            && (w * 9 <= h * 16 < w * 9 + 9 || h * 16 <= w * 9 < h * 16 + 16))
  {
    if !(videoWidth > OUTPUT_WIDTH && videoHeight > OUTPUT_HEIGHT) {
      var cw, ch := (videoWidth * 6) / 10, (videoHeight * 6) / 10;
      assert cw <= videoWidth && ch <= videoHeight;
      if cw * 9 > ch * 16 {
        var w := (ch * 16) / 9;
        assert w * 9 <= ch * 16 < w * 9 + 9;
        assert w <= cw;
      } else {
        var h := (cw * 9) / 16;
        assert h * 16 <= cw * 9 < h * 16 + 16;
        assert h <= ch;
      }
    }
  }

  /** Only the position depends on the centre, never the size. */
  lemma CropSizeIgnoresCentre(x1: int, y1: int, x2: int, y2: int, videoWidth: nat, videoHeight: nat)
    requires videoHeight >= 2
    ensures CalculateCropRect(x1, y1, videoWidth, videoHeight).w == CalculateCropRect(x2, y2, videoWidth, videoHeight).w
    ensures CalculateCropRect(x1, y1, videoWidth, videoHeight).h == CalculateCropRect(x2, y2, videoWidth, videoHeight).h
  {
  }

  /** A 1280x720 frame: 60% is 768x432, already 16:9, so nothing shrinks; a face at the
      left edge pushes the crop flush left. */
  lemma CropExample()
    ensures CalculateCropRect(100, 360, 1280, 720) == Rect(0, 144, 768, 432)
  {
  }

  // ---------------------------------------------------------------------------
  // cluster_faces_by_position
  // ---------------------------------------------------------------------------

  /** One face detection: its box and the centre of the box. */
  datatype Face = Face(bbox: Rect, centerX: int, centerY: int)

  /** The third of the frame a face is in: `center_x // region_width`, capped at 2. Python's
      floor division and Dafny's division agree for a positive divisor. */
  function Bucket(f: Face, regionWidth: int): int
    requires regionWidth > 0
  {
    Min(f.centerX / regionWidth, 2)
  }

  /** The faces of bucket b, in input order. */
  function InBucket(faces: seq<Face>, regionWidth: int, b: int): seq<Face>
    requires regionWidth > 0
  {
    if faces == [] then []
    else
      var last := faces[|faces| - 1];
      InBucket(faces[..|faces| - 1], regionWidth, b) + (if Bucket(last, regionWidth) == b then [last] else [])
  }

  /** The smallest bucket of any face. */
  function LowestBucket(faces: seq<Face>, regionWidth: int): int
    requires faces != [] && regionWidth > 0
  {
    if |faces| == 1 then Bucket(faces[0], regionWidth)
    else Min(LowestBucket(faces[..|faces| - 1], regionWidth), Bucket(faces[|faces| - 1], regionWidth))
  }

  /** The buckets from b to 2 that hold at least three faces, ascending. */
  function ValidFrom(faces: seq<Face>, regionWidth: int, b: int): seq<int>
    requires regionWidth > 0
    decreases if b > 2 then 0 else 3 - b
  {
    if b > 2 then []
    else (if |InBucket(faces, regionWidth, b)| >= 3 then [b] else []) + ValidFrom(faces, regionWidth, b + 1)
  }

  /** The buckets that yield speakers, ascending: a scan of the range of buckets, a
      definition independent of the dict and the sort the method uses. */
  function ValidBuckets(faces: seq<Face>, regionWidth: int): seq<int>
    requires regionWidth > 0
  {
    if faces == [] then [] else ValidFrom(faces, regionWidth, LowestBucket(faces, regionWidth))
  }

  function CenterX(f: Face): int { f.centerX }
  function CenterY(f: Face): int { f.centerY }
  function Width(f: Face): int { f.bbox.w }
  function Height(f: Face): int { f.bbox.h }

  /** Python's `sum(field(f) for f in fs)`. */
  function Sum(fs: seq<Face>, field: Face -> int): int {
    if fs == [] then 0 else Sum(fs[..|fs| - 1], field) + field(fs[|fs| - 1])
  }

  function SpeakerId(k: nat): string { "speaker_" + Text.NatToString(k) }
  lemma SpeakerIdInjective(a: nat, b: nat)
    ensures SpeakerId(a) == SpeakerId(b) ==> a == b
  {
    if SpeakerId(a) == SpeakerId(b) {
      Text.LabelInjective("speaker_", a, b);
    }
  }

  function SpeakerName(k: nat): string { "Speaker " + Text.NatToString(k) }

  /** Python's `total // n` for a count n: the average rounded down. */
  function FloorMean(total: int, n: int): (m: int)
    requires n > 0
    ensures m * n <= total < m * n + n
  {
    total / n
  }

  /** The k-th speaker (from 0) of a bucket's faces: box and crop around the average centre. */
  function SpeakerFor(k: nat, fs: seq<Face>, videoWidth: nat, videoHeight: nat): Speaker
    requires fs != [] && videoHeight >= 2
  {
    var n := |fs|;
    var ax, ay := FloorMean(Sum(fs, CenterX), n), FloorMean(Sum(fs, CenterY), n);
    var aw, ah := FloorMean(Sum(fs, Width), n), FloorMean(Sum(fs, Height), n);
    Speaker(SpeakerId(k + 1), SpeakerName(k + 1), Rect(ax - aw / 2, ay - ah / 2, aw, ah),
            CalculateCropRect(ax, ay, videoWidth, videoHeight))
  }

  /** One speaker per bucket of bs, numbered in order. */
  function SpeakersOf(bs: seq<int>, faces: seq<Face>, regionWidth: int, videoWidth: nat, videoHeight: nat): (r: seq<Speaker>)
    requires regionWidth > 0
    requires forall i :: 0 <= i < |bs| ==> InBucket(faces, regionWidth, bs[i]) != []
    requires bs != [] ==> videoHeight >= 2
    ensures |r| == |bs|
    ensures forall k :: 0 <= k < |bs| ==> r[k] == SpeakerFor(k, InBucket(faces, regionWidth, bs[k]), videoWidth, videoHeight)
  {
    if bs == [] then []
    else
      var n := |bs| - 1;
      SpeakersOf(bs[..n], faces, regionWidth, videoWidth, videoHeight)
        + [SpeakerFor(n, InBucket(faces, regionWidth, bs[n]), videoWidth, videoHeight)]
  }

  /** What cluster_faces_by_position may be called with: the frame is at least three
      pixels wide once there is a face (else the region width is zero), and at least two
      high once there is a speaker (else the crop height is zero). */
  predicate ClusterPre(faces: seq<Face>, videoWidth: nat, videoHeight: nat) {
    faces != [] ==> videoWidth >= 3 && (videoHeight >= 2 || ValidBuckets(faces, videoWidth / 3) == [])
  }

  /** Specification of cluster_faces_by_position. */
  function Clustered(faces: seq<Face>, videoWidth: nat, videoHeight: nat): seq<Speaker>
    requires ClusterPre(faces, videoWidth, videoHeight)
  {
    if faces == [] then []
    else
      var rw := videoWidth / 3;
      ValidFromSpec(faces, rw, LowestBucket(faces, rw));
      SpeakersOf(ValidBuckets(faces, rw), faces, rw, videoWidth, videoHeight)
  }

  /** Strictly ascending. */
  predicate Strict(s: seq<int>) {
    forall i, j :: 0 <= i < j < |s| ==> s[i] < s[j]
  }

  lemma {:induction false} InBucketStep(faces: seq<Face>, regionWidth: int, i: nat, b: int)
    requires regionWidth > 0 && i < |faces|
    ensures InBucket(faces[..i + 1], regionWidth, b)
         == InBucket(faces[..i], regionWidth, b) + (if Bucket(faces[i], regionWidth) == b then [faces[i]] else [])
  {
    assert faces[..i + 1][..i] == faces[..i];
  }

  /** A face is in bucket b exactly when its bucket is b; buckets lie between the lowest and 2. */
  lemma {:induction false} InBucketMembers(faces: seq<Face>, regionWidth: int, b: int)
    requires regionWidth > 0
    ensures forall f :: f in InBucket(faces, regionWidth, b) <==> f in faces && Bucket(f, regionWidth) == b
    ensures faces != [] ==> forall i :: 0 <= i < |faces| ==>
      LowestBucket(faces, regionWidth) <= Bucket(faces[i], regionWidth) <= 2
  {
    if faces != [] {
      var init := faces[..|faces| - 1];
      InBucketMembers(init, regionWidth, b);
      assert faces == init + [faces[|faces| - 1]];
      if |faces| > 1 {
        forall i | 0 <= i < |faces| - 1 ensures LowestBucket(faces, regionWidth) <= Bucket(faces[i], regionWidth) {
          assert faces[i] == init[i];
        }
      }
    }
  }

  /** ValidFrom holds exactly the populous buckets from b to 2, strictly ascending. */
  lemma {:induction false} ValidFromSpec(faces: seq<Face>, regionWidth: int, b: int)
    requires regionWidth > 0
    ensures forall x :: x in ValidFrom(faces, regionWidth, b) <==> b <= x <= 2 && |InBucket(faces, regionWidth, x)| >= 3
    ensures Strict(ValidFrom(faces, regionWidth, b))
    decreases if b > 2 then 0 else 3 - b
  {
    if b <= 2 {
      ValidFromSpec(faces, regionWidth, b + 1);
      var rest := ValidFrom(faces, regionWidth, b + 1);
      var r := ValidFrom(faces, regionWidth, b);
      if |InBucket(faces, regionWidth, b)| >= 3 {
        assert r == [b] + rest;
        forall i, j | 0 <= i < j < |r| ensures r[i] < r[j] {
          assert r[j] == rest[j - 1] && rest[j - 1] in rest;
          if i > 0 { assert r[i] == rest[i - 1]; }
        }
      } else {
        assert r == rest;
      }
    }
  }

  /** Buckets with three faces or more, ascending; at most three when no centre is left of the frame. */
  lemma ValidBucketsSpec(faces: seq<Face>, regionWidth: int)
    requires regionWidth > 0
    ensures Strict(ValidBuckets(faces, regionWidth))
    ensures forall x :: x in ValidBuckets(faces, regionWidth) <==> |InBucket(faces, regionWidth, x)| >= 3
    ensures (forall i :: 0 <= i < |faces| ==> faces[i].centerX >= 0) ==>
      forall x :: x in ValidBuckets(faces, regionWidth) ==> 0 <= x <= 2
  {
    if faces != [] {
      var lo := LowestBucket(faces, regionWidth);
      ValidFromSpec(faces, regionWidth, lo);
      forall x | |InBucket(faces, regionWidth, x)| >= 3 ensures lo <= x <= 2 {
        OccupiedInRange(faces, regionWidth, x);
      }
      if forall i :: 0 <= i < |faces| ==> faces[i].centerX >= 0 {
        forall x | x in ValidBuckets(faces, regionWidth) ensures 0 <= x {
          OccupiedInRange(faces, regionWidth, x);
        }
      }
    } else {
      forall x ensures |InBucket(faces, regionWidth, x)| == 0 { }
    }
  }

  /** An occupied bucket lies between the lowest bucket and 2, and is not negative when
      no centre is. */
  lemma OccupiedInRange(faces: seq<Face>, regionWidth: int, x: int)
    requires regionWidth > 0 && InBucket(faces, regionWidth, x) != []
    ensures faces != [] && LowestBucket(faces, regionWidth) <= x <= 2
    ensures (forall i :: 0 <= i < |faces| ==> faces[i].centerX >= 0) ==> 0 <= x
  {
    InBucketMembers(faces, regionWidth, x);
    var f := InBucket(faces, regionWidth, x)[0];
    assert f in faces && Bucket(f, regionWidth) == x;
    var i := Seqs.IndexOf(faces, f);
    assert Bucket(faces[i], regionWidth) == x;
  }

  /** The i-th value of a strictly ascending sequence is at least i above its floor. */
  lemma {:induction false} StrictRises(s: seq<int>, lo: int)
    requires Strict(s) && forall i :: 0 <= i < |s| ==> lo <= s[i]
    ensures forall i :: 0 <= i < |s| ==> lo + i <= s[i]
  {
    if s != [] {
      var init := s[..|s| - 1];
      forall i | 0 <= i < |init| ensures init[i] == s[i] { }
      StrictRises(init, lo);
      if |s| > 1 {
        assert s[|s| - 2] < s[|s| - 1];
      }
    }
  }

  /** Two strictly ascending sequences with the same values are equal. */
  lemma {:induction false} StrictUnique(a: seq<int>, b: seq<int>)
    requires Strict(a) && Strict(b) && forall x :: x in a <==> x in b
    ensures a == b
  {
    if a == [] {
      Seqs.HeadMember(b);
    } else {
      assert a[0] in a;
      var k := Seqs.IndexOf(b, a[0]);
      assert b[0] <= b[k];
      assert b[0] in b;
      var m := Seqs.IndexOf(a, b[0]);
      assert a[0] <= a[m];
      forall x ensures x in a[1..] <==> x in b[1..] {
        StrictTail(a, b, x);
        StrictTail(b, a, x);
      }
      StrictUnique(a[1..], b[1..]);
      assert a == [a[0]] + a[1..] && b == [b[0]] + b[1..];
    }
  }

  /** Two strictly ascending sequences with the same first value and the same members
      have the same members after it. */
  lemma StrictTail(a: seq<int>, b: seq<int>, x: int)
    requires Strict(a) && Strict(b) && a != [] && b != [] && a[0] == b[0]
    requires x in a ==> x in b
    ensures x in a[1..] ==> x in b[1..]
  {
    if x in a[1..] {
      var i := Seqs.IndexOf(a[1..], x);
      assert a[i + 1] == x && x in a;
      var j := Seqs.IndexOf(b, x);
      assert b[0] < b[j];
      assert b[1..][j - 1] == x;
    }
  }

  /** A sorted permutation of distinct integers is strictly ascending. */
  lemma SortedDistinct(a: seq<int>, b: seq<int>)
    requires multiset(a) == multiset(b) && Seqs.NoDuplicates(b) && Seqs.SortedBy(a, x => x)
    ensures Strict(a)
  {
    forall i, j | 0 <= i < j < |a| ensures a[i] < a[j] {
      Seqs.DuplicateCount(a, i, j);
      Seqs.NoDuplicatesCount(b, a[i]);
    }
  }

  /** The keys of `regions` with at least three faces, in the order of `keys`. */
  function Populous(keys: seq<int>, regions: map<int, seq<Face>>): seq<int> {
    if keys == [] then []
    else
      var last := keys[|keys| - 1];
      Populous(keys[..|keys| - 1], regions) + (if last in regions && |regions[last]| >= 3 then [last] else [])
  }

  lemma {:induction false} PopulousSpec(keys: seq<int>, regions: map<int, seq<Face>>)
    requires Seqs.NoDuplicates(keys)
    ensures forall x :: x in Populous(keys, regions) <==> x in keys && x in regions && |regions[x]| >= 3
    ensures Seqs.NoDuplicates(Populous(keys, regions))
  {
    if keys != [] {
      var init, last := keys[..|keys| - 1], keys[|keys| - 1];
      assert keys == init + [last];
      assert Seqs.NoDuplicates(init) by {
        forall i, j | 0 <= i < j < |init| ensures init[i] != init[j] {
          assert init[i] == keys[i] && init[j] == keys[j];
        }
      }
      PopulousSpec(init, regions);
      var p := Populous(init, regions);
      if last in regions && |regions[last]| >= 3 {
        forall k | 0 <= k < |init| ensures init[k] != last {
          assert init[k] == keys[k];
        }
        var r := p + [last];
        forall i, j | 0 <= i < j < |r| ensures r[i] != r[j] {
          if j == |p| { assert r[i] == p[i] && p[i] in init; }
          else { assert r[i] == p[i] && r[j] == p[j]; }
        }
      } else {
        assert Populous(keys, regions) == p;
      }
    }
  }

  lemma SpeakersOfStep(bs: seq<int>, faces: seq<Face>, regionWidth: int, videoWidth: nat, videoHeight: nat, k: nat, sp: Speaker)
    requires regionWidth > 0 && k < |bs| && videoHeight >= 2
    requires forall i :: 0 <= i < |bs| ==> InBucket(faces, regionWidth, bs[i]) != []
    requires sp == SpeakerFor(k, InBucket(faces, regionWidth, bs[k]), videoWidth, videoHeight)
    ensures SpeakersOf(bs[..k + 1], faces, regionWidth, videoWidth, videoHeight)
         == SpeakersOf(bs[..k], faces, regionWidth, videoWidth, videoHeight) + [sp]
  {
    assert bs[..k + 1][..k] == bs[..k];
  }

  /** SpeakerFor with each floor mean written as Python's `//` on a positive count. */
  lemma SpeakerForIs(k: nat, fs: seq<Face>, videoWidth: nat, videoHeight: nat)
    requires fs != [] && videoHeight >= 2
    ensures var n := |fs|;
      var ax, ay, aw, ah := Sum(fs, CenterX) / n, Sum(fs, CenterY) / n, Sum(fs, Width) / n, Sum(fs, Height) / n;
      SpeakerFor(k, fs, videoWidth, videoHeight)
        == Speaker(SpeakerId(k + 1), SpeakerName(k + 1), Rect(ax - aw / 2, ay - ah / 2, aw, ah),
                   CalculateCropRect(ax, ay, videoWidth, videoHeight))
  {
  }

  /** The region of each face, in input order. */
  function BucketsOf(faces: seq<Face>, regionWidth: int): (r: seq<int>)
    requires regionWidth > 0
    ensures |r| == |faces| && forall i :: 0 <= i < |faces| ==> r[i] == Bucket(faces[i], regionWidth)
  {
    seq(|faces|, i requires 0 <= i < |faces| => Bucket(faces[i], regionWidth))
  }

  /** The regions dict after the first loop, and its keys in insertion order. */
  ghost predicate Grouped(faces: seq<Face>, regionWidth: int, regions: map<int, seq<Face>>, keys: seq<int>)
    requires regionWidth > 0
  {
    && Seqs.NoDuplicates(keys)
    && (forall b :: b in regions <==> b in keys)
    && (forall b :: b in regions ==> regions[b] == InBucket(faces, regionWidth, b))
    && (forall b :: b !in regions ==> InBucket(faces, regionWidth, b) == [])
  }

  lemma GroupStep(faces: seq<Face>, regionWidth: int, i: nat, regions: map<int, seq<Face>>, keys: seq<int>,
                  regions': map<int, seq<Face>>, keys': seq<int>)
    requires regionWidth > 0 && i < |faces|
    requires Grouped(faces[..i], regionWidth, regions, keys)
    requires var b := Bucket(faces[i], regionWidth);
      && keys' == (if b in regions then keys else keys + [b])
      && regions' == regions[b := (if b in regions then regions[b] else []) + [faces[i]]]
    ensures Grouped(faces[..i + 1], regionWidth, regions', keys')
  {
    var b := Bucket(faces[i], regionWidth);
    if b !in regions {
      assert b !in keys;
      Seqs.NoDuplicatesAppend(keys, b);
    }
    forall c ensures c in regions' <==> c in keys' {
    }
    forall c | c in regions' ensures regions'[c] == InBucket(faces[..i + 1], regionWidth, c) {
      InBucketStep(faces, regionWidth, i, c);
      if c != b {
        assert regions'[c] == regions[c];
      }
    }
    forall c | c !in regions' ensures InBucket(faces[..i + 1], regionWidth, c) == [] {
      InBucketStep(faces, regionWidth, i, c);
    }
  }

  /** A key is appended exactly when its region is seen for the first time. */
  lemma KeyOrderStep(faces: seq<Face>, regionWidth: int, i: nat, regions: map<int, seq<Face>>, keys: seq<int>,
                     keys': seq<int>)
    requires regionWidth > 0 && i < |faces|
    requires (forall b :: b in regions <==> b in keys) && keys == Seqs.FirstAppearances(BucketsOf(faces[..i], regionWidth))
    requires var b := Bucket(faces[i], regionWidth); keys' == (if b in regions then keys else keys + [b])
    ensures keys' == Seqs.FirstAppearances(BucketsOf(faces[..i + 1], regionWidth))
  {
    var b := Bucket(faces[i], regionWidth);
    assert BucketsOf(faces[..i + 1], regionWidth) == BucketsOf(faces[..i], regionWidth) + [b];
    Seqs.FirstAppearancesStep(BucketsOf(faces[..i + 1], regionWidth), BucketsOf(faces[..i], regionWidth), b);
  }

  /** The first loop of cluster_faces_by_position: the regions dict, and its keys in
      insertion order, which is the order in which the regions first occur among the faces. */
  method GroupByRegion(faces: seq<Face>, regionWidth: int) returns (regions: map<int, seq<Face>>, keys: seq<int>)
    requires regionWidth > 0
    ensures Grouped(faces, regionWidth, regions, keys)
    ensures keys == Seqs.FirstAppearances(BucketsOf(faces, regionWidth))
  {
    regions, keys := map[], [];
    for i := 0 to |faces|
      invariant Grouped(faces[..i], regionWidth, regions, keys)
      invariant keys == Seqs.FirstAppearances(BucketsOf(faces[..i], regionWidth))
    {
      var region := faces[i].centerX / regionWidth;
      region := Min(region, 2);
      var keys', regions' := keys, regions;
      if region !in regions {
        regions' := regions'[region := []];
        keys' := keys' + [region];
      }
      regions' := regions'[region := regions'[region] + [faces[i]]];
      GroupStep(faces, regionWidth, i, regions, keys, regions', keys');
      KeyOrderStep(faces, regionWidth, i, regions, keys, keys');
      keys, regions := keys', regions';
    }
    assert faces[..|faces|] == faces;
  }

  /** The second loop: one speaker per bucket of `order`, from that bucket's faces. */
  method BuildSpeakers(order: seq<int>, regions: map<int, seq<Face>>, faces: seq<Face>, regionWidth: int,
                       videoWidth: nat, videoHeight: nat) returns (speakers: seq<Speaker>)
    requires regionWidth > 0 && (order != [] ==> videoHeight >= 2)
    requires forall i :: 0 <= i < |order| ==>
      order[i] in regions && regions[order[i]] == InBucket(faces, regionWidth, order[i]) && regions[order[i]] != []
    ensures speakers == SpeakersOf(order, faces, regionWidth, videoWidth, videoHeight)
  {
    speakers := [];
    for k := 0 to |order|
      invariant speakers == SpeakersOf(order[..k], faces, regionWidth, videoWidth, videoHeight)
      invariant |speakers| == k
    {
      var fs := regions[order[k]];
      assert fs == InBucket(faces, regionWidth, order[k]) && fs != [];
      var speaker := MakeSpeaker(|speakers|, fs, videoWidth, videoHeight);
      SpeakersOfStep(order, faces, regionWidth, videoWidth, videoHeight, k, speaker);
      speakers := speakers + [speaker];
    }
    assert order[..|order|] == order;
  }

  /** The body of the second loop: speaker number k + 1 from the faces of one bucket. */
  method MakeSpeaker(k: nat, fs: seq<Face>, videoWidth: nat, videoHeight: nat) returns (speaker: Speaker)
    requires fs != [] && videoHeight >= 2
    ensures speaker == SpeakerFor(k, fs, videoWidth, videoHeight)
    ensures var n := |fs|;
      && speaker.id == "speaker_" + Text.NatToString(k + 1)
      && speaker.name == "Speaker " + Text.NatToString(k + 1)
      && speaker.bbox.w == FloorMean(Sum(fs, Width), n)
      && speaker.bbox.h == FloorMean(Sum(fs, Height), n)
      && speaker.bbox.x + speaker.bbox.w / 2 == FloorMean(Sum(fs, CenterX), n)
      && speaker.bbox.y + speaker.bbox.h / 2 == FloorMean(Sum(fs, CenterY), n)
      && speaker.cropRect == CalculateCropRect(speaker.bbox.x + speaker.bbox.w / 2,
                                               speaker.bbox.y + speaker.bbox.h / 2, videoWidth, videoHeight)
  {
    SpeakerForIs(k, fs, videoWidth, videoHeight);
    var n := |fs|;
    var avgX := Sum(fs, CenterX) / n;
    var avgY := Sum(fs, CenterY) / n;
    var avgW := Sum(fs, Width) / n;
    var avgH := Sum(fs, Height) / n;
    var crop := CalculateCropRect(avgX, avgY, videoWidth, videoHeight);
    speaker := Speaker(SpeakerId(k + 1), SpeakerName(k + 1), Rect(avgX - avgW / 2, avgY - avgH / 2, avgW, avgH), crop);
    SpeakerForShape(k, fs, videoWidth, videoHeight, speaker);
  }

  method ClusterFacesByPosition(faces: seq<Face>, videoWidth: nat, videoHeight: nat) returns (speakers: seq<Speaker>)
    requires ClusterPre(faces, videoWidth, videoHeight)
    ensures speakers == Clustered(faces, videoWidth, videoHeight)
  {
    if faces == [] {
      return [];
    }
    var regionWidth := videoWidth / 3;
    var regions, keys := GroupByRegion(faces, regionWidth);
    var valid := Populous(keys, regions);
    var order := Seqs.SortBy(valid, x => x);
    OrderIsValidBuckets(faces, regionWidth, regions, keys, valid, order);
    speakers := BuildSpeakers(order, regions, faces, regionWidth, videoWidth, videoHeight);
  }

  /** sorted() of the populous keys is strictly ascending and holds exactly the buckets
      with three faces or more. */
  lemma OrderMembers(faces: seq<Face>, regionWidth: int, regions: map<int, seq<Face>>, keys: seq<int>,
                     valid: seq<int>, order: seq<int>)
    requires regionWidth > 0
    requires Grouped(faces, regionWidth, regions, keys)
    requires valid == Populous(keys, regions) && order == Seqs.SortBy(valid, x => x)
    ensures Strict(order)
    ensures forall x :: x in order <==> |InBucket(faces, regionWidth, x)| >= 3
    ensures forall i :: 0 <= i < |order| ==> order[i] in regions && |regions[order[i]]| >= 3
  {
    PopulousSpec(keys, regions);
    assert multiset(order) == multiset(valid);
    assert Strict(order) by { SortedDistinct(order, valid); }
    forall x ensures x in order <==> |InBucket(faces, regionWidth, x)| >= 3 {
      assert x in order <==> x in multiset(order);
      assert x in valid <==> x in multiset(valid);
      if x !in regions {
        assert InBucket(faces, regionWidth, x) == [];
      }
    }
    forall i | 0 <= i < |order| ensures order[i] in regions && |regions[order[i]]| >= 3 {
      assert order[i] in multiset(order);
    }
  }

  /** sorted() of the populous keys of the dict is the range scan of the specification. */
  lemma OrderIsValidBuckets(faces: seq<Face>, regionWidth: int, regions: map<int, seq<Face>>, keys: seq<int>,
                            valid: seq<int>, order: seq<int>)
    requires regionWidth > 0
    requires Grouped(faces, regionWidth, regions, keys)
    requires valid == Populous(keys, regions) && order == Seqs.SortBy(valid, x => x)
    ensures order == ValidBuckets(faces, regionWidth)
    ensures forall i :: 0 <= i < |order| ==>
      order[i] in regions && regions[order[i]] == InBucket(faces, regionWidth, order[i]) && |regions[order[i]]| >= 3
  {
    OrderMembers(faces, regionWidth, regions, keys, valid, order);
    ValidBucketsSpec(faces, regionWidth);
    StrictUnique(order, ValidBuckets(faces, regionWidth));
  }

  lemma ValidBucketsPopulous(faces: seq<Face>, regionWidth: int)
    requires regionWidth > 0
    ensures forall k :: 0 <= k < |ValidBuckets(faces, regionWidth)| ==>
      |InBucket(faces, regionWidth, ValidBuckets(faces, regionWidth)[k])| >= 3
  {
    ValidBucketsSpec(faces, regionWidth);
    var bs := ValidBuckets(faces, regionWidth);
    forall k | 0 <= k < |bs| ensures |InBucket(faces, regionWidth, bs[k])| >= 3 {
      assert bs[k] in bs;
    }
  }

  /** Speaker k comes from the k-th populous bucket in ascending order, is called
      speaker_{k+1} / Speaker {k+1}, has a box centred on the floor-average face centre
      with the floor-average face size, and the close-up crop of that centre. */
  lemma ClusteredShape(faces: seq<Face>, videoWidth: nat, videoHeight: nat)
    requires ClusterPre(faces, videoWidth, videoHeight) && faces != []
    ensures var rw, r := videoWidth / 3, Clustered(faces, videoWidth, videoHeight);
      var bs := ValidBuckets(faces, rw);
      && |r| == |bs|
      && forall k :: 0 <= k < |r| ==>
           var fs := InBucket(faces, rw, bs[k]);
           var n := |fs|;
           && n >= 3
           && r[k].id == "speaker_" + Text.NatToString(k + 1)
           && r[k].name == "Speaker " + Text.NatToString(k + 1)
           && r[k].bbox.w == FloorMean(Sum(fs, Width), n)
           && r[k].bbox.h == FloorMean(Sum(fs, Height), n)
           && r[k].bbox.x + r[k].bbox.w / 2 == FloorMean(Sum(fs, CenterX), n)
           && r[k].bbox.y + r[k].bbox.h / 2 == FloorMean(Sum(fs, CenterY), n)
           && r[k].cropRect == CalculateCropRect(r[k].bbox.x + r[k].bbox.w / 2, r[k].bbox.y + r[k].bbox.h / 2, videoWidth, videoHeight)
  {
    var rw := videoWidth / 3;
    var bs := ValidBuckets(faces, rw);
    ValidBucketsPopulous(faces, rw);
    var r := Clustered(faces, videoWidth, videoHeight);
    forall k | 0 <= k < |r|
      ensures var fs := InBucket(faces, rw, bs[k]);
           var n := |fs|;
           && n >= 3
           && r[k].id == "speaker_" + Text.NatToString(k + 1)
           && r[k].name == "Speaker " + Text.NatToString(k + 1)
           && r[k].bbox.w == FloorMean(Sum(fs, Width), n)
           && r[k].bbox.h == FloorMean(Sum(fs, Height), n)
           && r[k].bbox.x + r[k].bbox.w / 2 == FloorMean(Sum(fs, CenterX), n)
           && r[k].bbox.y + r[k].bbox.h / 2 == FloorMean(Sum(fs, CenterY), n)
           && r[k].cropRect == CalculateCropRect(r[k].bbox.x + r[k].bbox.w / 2, r[k].bbox.y + r[k].bbox.h / 2, videoWidth, videoHeight)
    {
      SpeakerForShape(k, InBucket(faces, rw, bs[k]), videoWidth, videoHeight, r[k]);
    }
  }

  lemma SpeakerForShape(k: nat, fs: seq<Face>, videoWidth: nat, videoHeight: nat, sp: Speaker)
    requires fs != [] && videoHeight >= 2 && sp == SpeakerFor(k, fs, videoWidth, videoHeight)
    ensures var n := |fs|;
      && sp.id == "speaker_" + Text.NatToString(k + 1)
      && sp.name == "Speaker " + Text.NatToString(k + 1)
      && sp.bbox.w == FloorMean(Sum(fs, Width), n)
      && sp.bbox.h == FloorMean(Sum(fs, Height), n)
      && sp.bbox.x + sp.bbox.w / 2 == FloorMean(Sum(fs, CenterX), n)
      && sp.bbox.y + sp.bbox.h / 2 == FloorMean(Sum(fs, CenterY), n)
      && sp.cropRect == CalculateCropRect(sp.bbox.x + sp.bbox.w / 2, sp.bbox.y + sp.bbox.h / 2, videoWidth, videoHeight)
  {
  }

  /** Speaker ids are pairwise distinct. */
  lemma ClusteredIdsDistinct(faces: seq<Face>, videoWidth: nat, videoHeight: nat)
    requires ClusterPre(faces, videoWidth, videoHeight)
    ensures var r := Clustered(faces, videoWidth, videoHeight);
      forall i, j :: 0 <= i < j < |r| ==> r[i].id != r[j].id
  {
    var r := Clustered(faces, videoWidth, videoHeight);
    ClusteredIds(faces, videoWidth, videoHeight);
    forall i, j | 0 <= i < j < |r| ensures r[i].id != r[j].id {
      SpeakerIdInjective(i + 1, j + 1);
    }
  }

  lemma ClusteredIds(faces: seq<Face>, videoWidth: nat, videoHeight: nat)
    requires ClusterPre(faces, videoWidth, videoHeight)
    ensures var r := Clustered(faces, videoWidth, videoHeight);
      forall k :: 0 <= k < |r| ==> r[k].id == SpeakerId(k + 1)
  {
    if faces != [] {
      ValidBucketsPopulous(faces, videoWidth / 3);
    }
  }

  /** With no face centre left of the frame there are at most three speakers, one per third. */
  lemma ClusteredAtMostThree(faces: seq<Face>, videoWidth: nat, videoHeight: nat)
    requires ClusterPre(faces, videoWidth, videoHeight)
    requires forall i :: 0 <= i < |faces| ==> faces[i].centerX >= 0
    ensures |Clustered(faces, videoWidth, videoHeight)| <= 3
  {
    if faces != [] {
      ValidBucketsSpec(faces, videoWidth / 3);
      var bs := ValidBuckets(faces, videoWidth / 3);
      assert |Clustered(faces, videoWidth, videoHeight)| == |bs|;
      if bs != [] {
        forall i | 0 <= i < |bs| ensures 0 <= bs[i] <= 2 {
          assert bs[i] in bs;
        }
        StrictRises(bs, 0);
        assert |bs| - 1 <= bs[|bs| - 1] <= 2;
      }
    }
  }
}
