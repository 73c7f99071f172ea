/** Mapping of diarization labels onto scene speakers (montager/diarization.py,
    _map_speakers_to_scene): the labels, in order of first appearance, are dealt
    round-robin to the scene speakers ordered left to right. */
module Diarization {
  import opened Model
  import Seqs

  /** A diarized speech turn: a segment dict that the mapping updates in place. */
  class Turn {
    var start: int
    var end: int
    /** The 'speaker_label' key, None when absent. */
    var speakerLabel: Option<string>
    /** The 'speaker_id' key, None when absent. */
    var speakerId: Option<string>

    constructor (start: int, end: int, speakerLabel: Option<string>)
      ensures this.start == start && this.end == end && this.speakerLabel == speakerLabel && this.speakerId == None
    {
      this.start := start;
      this.end := end;
      this.speakerLabel := speakerLabel;
      this.speakerId := None;
    }
  }

  /** The labels of the turns, in order. */
  function LabelsOf(turns: seq<Turn>): seq<Option<string>>
    reads set t | t in turns
  {
    seq(|turns|, i reads turns requires 0 <= i < |turns| => turns[i].speakerLabel)
  }

  predicate AllLabelled(labels: seq<Option<string>>) {
    forall i :: 0 <= i < |labels| ==> labels[i].Some?
  }

  function Strip(labels: seq<Option<string>>): (r: seq<string>)
    requires AllLabelled(labels)
    ensures |r| == |labels| && forall i :: 0 <= i < |labels| ==> r[i] == labels[i].value
  {
    seq(|labels|, i requires 0 <= i < |labels| => labels[i].value)
  }

  function BboxX(s: Speaker): int { s.bbox.x }

  /** The scene speakers ordered left to right (a stable sort on the box's x). */
  function LeftToRight(speakers: seq<Speaker>): seq<Speaker> {
    Seqs.SortBy(speakers, BboxX)
  }

  /** The id dealt to the label of rank j: speakers are dealt in turn, from the left. */
  function DealtId(sorted: seq<Speaker>, j: nat): string
    requires sorted != []
  {
    sorted[j % |sorted|].id
  }

  /** The id a label is mapped to: the label's rank of first appearance, modulo the
      number of speakers, picks a speaker from the left. */
  function IdFor(lbl: string, seen: seq<string>, sorted: seq<Speaker>): string
    requires lbl in seen && sorted != []
  {
    DealtId(sorted, Seqs.IndexOf(seen, lbl))
  }

  /** Specification: the speaker id each turn ends with, or None for the KeyError raised
      when a turn has no label while the scene has speakers (nothing is changed then). */
  function Assignment(labels: seq<Option<string>>, speakers: seq<Speaker>): seq<string>
    requires labels != [] ==> speakers == [] || AllLabelled(labels)
  {
    if labels == [] then []
    else if speakers == [] then seq(|labels|, i => WIDE)
    else
      var ls := Strip(labels);
      var seen := Seqs.FirstAppearances(ls);
      if |seen| <= 1 || |speakers| <= 1 then seq(|ls|, i => speakers[0].id)
      else seq(|ls|, i requires 0 <= i < |ls| => IdFor(ls[i], seen, LeftToRight(speakers)))
  }

  /** Whether the mapping goes through: it raises KeyError when the scene has speakers and
      some turn has no label. */
  predicate Succeeds(labels: seq<Option<string>>, speakers: seq<Speaker>) {
    labels == [] || speakers == [] || AllLabelled(labels)
  }

  lemma SeenStep(labels: seq<Option<string>>, i: nat, seen: seq<string>, x: string)
    requires i < |labels| && labels[i] == Some(x)
    requires AllLabelled(labels[..i]) && seen == Seqs.FirstAppearances(Strip(labels[..i]))
    ensures AllLabelled(labels[..i + 1])
    ensures Seqs.FirstAppearances(Strip(labels[..i + 1])) == if x in seen then seen else seen + [x]
  {
    var pre, pre' := labels[..i], labels[..i + 1];
    assert pre' == pre + [Some(x)];
    assert AllLabelled(pre') by {
      forall k | 0 <= k < i + 1 ensures pre'[k].Some? {
        if k < i { assert pre'[k] == pre[k]; }
      }
    }
    assert Strip(pre') == Strip(pre) + [x];
    Seqs.FirstAppearancesStep(Strip(pre'), Strip(pre), x);
  }

  method MapSpeakersToScene(turns: seq<Turn>, speakers: seq<Speaker>) returns (ok: bool)
    requires forall i, j :: 0 <= i < j < |turns| ==> turns[i] != turns[j]
    modifies set t | t in turns
    ensures ok <==> Succeeds(old(LabelsOf(turns)), speakers)
    ensures forall t :: t in turns ==> t.start == old(t.start) && t.end == old(t.end)
    ensures !ok ==> forall t :: t in turns ==> t.speakerLabel == old(t.speakerLabel) && t.speakerId == old(t.speakerId)
    ensures ok ==> forall i :: 0 <= i < |turns| ==>
      turns[i].speakerLabel == None && turns[i].speakerId == Some(Assignment(old(LabelsOf(turns)), speakers)[i])
  {
    ghost var labels := LabelsOf(turns);
    if turns == [] {
      return true;
    }
    if speakers == [] {
      AssignAll(turns, WIDE);
      return true;
    }
    var seen;
    ok, seen := SeenLabels(turns);
    if !ok {
      return;
    }
    if |seen| <= 1 || |speakers| <= 1 {
      var speakerId := speakers[0].id;
      AssignAll(turns, speakerId);
      return;
    }
    var sorted := Seqs.SortBy(speakers, BboxX);
    var labelToId := LabelMap(seen, sorted);
    ApplyLabelMap(turns, labelToId);
    LabelMapAssigns(labels, speakers, seen, sorted, labelToId);
  }

  /** A label map built by dealing the first-appearance order reproduces the assignment. */
  lemma LabelMapAssigns(labels: seq<Option<string>>, speakers: seq<Speaker>, seen: seq<string>,
                        sorted: seq<Speaker>, m: map<string, string>)
    requires labels != [] && AllLabelled(labels) && |speakers| > 1 && |seen| > 1
    requires seen == Seqs.FirstAppearances(Strip(labels)) && sorted == LeftToRight(speakers)
    requires forall j :: 0 <= j < |seen| ==> seen[j] in m && m[seen[j]] == DealtId(sorted, j)
    ensures |Assignment(labels, speakers)| == |labels|
    ensures forall i :: 0 <= i < |labels| ==> Assignment(labels, speakers)[i] == LookupOr(m, labels[i])
  {
    var ls := Strip(labels);
    forall i | 0 <= i < |labels| ensures Assignment(labels, speakers)[i] == LookupOr(m, labels[i]) {
      var j := Seqs.IndexOf(seen, ls[i]);
      assert seen[j] == ls[i];
    }
  }

  /** `d.get(seg.get('speaker_label', ''), 'wide')`. */
  function LookupOr(d: map<string, string>, lbl: Option<string>): string {
    var key := if lbl.Some? then lbl.value else "";
    if key in d then d[key] else WIDE
  }

  /** The first loop of the mapping: the distinct labels in order of first appearance,
      or failure (KeyError) at the first turn without a label. Nothing is changed. */
  method SeenLabels(turns: seq<Turn>) returns (ok: bool, seen: seq<string>)
    ensures ok <==> AllLabelled(LabelsOf(turns))
    ensures ok ==> seen == Seqs.FirstAppearances(Strip(LabelsOf(turns)))
  {
    ghost var labels := LabelsOf(turns);
    seen := [];
    for i := 0 to |turns|
      invariant AllLabelled(labels[..i])
      invariant seen == Seqs.FirstAppearances(Strip(labels[..i]))
    {
      var lbl := turns[i].speakerLabel;
      assert labels[i] == lbl;
      if lbl.None? {
        return false, seen;
      }
      SeenStep(labels, i, seen, lbl.value);
      if lbl.value !in seen {
        seen := seen + [lbl.value];
      }
    }
    assert labels[..|turns|] == labels;
    return true, seen;
  }

  /** The label_to_id loop: label number i goes to speaker i modulo the speaker count. */
  method LabelMap(seen: seq<string>, sorted: seq<Speaker>) returns (labelToId: map<string, string>)
    requires Seqs.NoDuplicates(seen) && sorted != []
    ensures forall j :: 0 <= j < |seen| ==> seen[j] in labelToId && labelToId[seen[j]] == DealtId(sorted, j)
  {
    labelToId := map[];
    for i := 0 to |seen|
      invariant forall j :: 0 <= j < i ==> seen[j] in labelToId && labelToId[seen[j]] == DealtId(sorted, j)
    {
      var id := if i < |sorted| then sorted[i].id else sorted[i % |sorted|].id;
      assert id == DealtId(sorted, i) by {
        if i < |sorted| { assert i % |sorted| == i; }
      }
      var before := labelToId;
      labelToId := labelToId[seen[i] := id];
      forall j | 0 <= j < i + 1 ensures seen[j] in labelToId && labelToId[seen[j]] == DealtId(sorted, j) {
        if j < i {
          assert seen[j] != seen[i] && labelToId[seen[j]] == before[seen[j]];
        }
      }
    }
  }

  /** The last loop: each turn gets the id of its label (WIDE for an unknown one) and
      loses the label. */
  method ApplyLabelMap(turns: seq<Turn>, labelToId: map<string, string>)
    requires forall i, j :: 0 <= i < j < |turns| ==> turns[i] != turns[j]
    modifies set t | t in turns
    ensures forall t :: t in turns ==> t.start == old(t.start) && t.end == old(t.end)
    ensures forall i :: 0 <= i < |turns| ==>
      turns[i].speakerLabel == None && turns[i].speakerId == Some(LookupOr(labelToId, old(turns[i].speakerLabel)))
  {
    for i := 0 to |turns|
      invariant forall j :: 0 <= j < i ==>
        turns[j].speakerLabel == None && turns[j].speakerId == Some(LookupOr(labelToId, old(turns[j].speakerLabel)))
      invariant forall j :: i <= j < |turns| ==> turns[j].speakerLabel == old(turns[j].speakerLabel)
      invariant forall t :: t in turns ==> t.start == old(t.start) && t.end == old(t.end)
    {
      var key := if turns[i].speakerLabel.Some? then turns[i].speakerLabel.value else "";
      turns[i].speakerId := Some(if key in labelToId then labelToId[key] else WIDE);
      turns[i].speakerLabel := None;
    }
  }

  /** The uniform branch: every turn gets the one id and loses its label. */
  method AssignAll(turns: seq<Turn>, speakerId: string)
    requires forall i, j :: 0 <= i < j < |turns| ==> turns[i] != turns[j]
    modifies set t | t in turns
    ensures forall t :: t in turns ==> t.start == old(t.start) && t.end == old(t.end)
    ensures forall i :: 0 <= i < |turns| ==> turns[i].speakerLabel == None && turns[i].speakerId == Some(speakerId)
  {
    for i := 0 to |turns|
      invariant forall j :: 0 <= j < i ==> turns[j].speakerId == Some(speakerId) && turns[j].speakerLabel == None
      invariant forall t :: t in turns ==> t.start == old(t.start) && t.end == old(t.end)
    {
      turns[i].speakerId := Some(speakerId);
      turns[i].speakerLabel := None;
    }
  }

  /** Round robin: with at least two labels and two speakers, a turn's id is dealt by the
      rank of first appearance of its label. */
  lemma RoundRobin(labels: seq<Option<string>>, speakers: seq<Speaker>)
    requires labels != [] && AllLabelled(labels) && |speakers| > 1
    requires |Seqs.FirstAppearances(Strip(labels))| > 1
    ensures |Assignment(labels, speakers)| == |labels|
    ensures forall i :: 0 <= i < |labels| ==>
      (Strip(labels)[i] in Seqs.FirstAppearances(Strip(labels)) &&
       Assignment(labels, speakers)[i] ==
         DealtId(LeftToRight(speakers), Seqs.IndexOf(Seqs.FirstAppearances(Strip(labels)), Strip(labels)[i])))
  {
  }

  lemma DealtFirstRound(sorted: seq<Speaker>, j: nat)
    requires j < |sorted|
    ensures DealtId(sorted, j) == sorted[j].id
  {
  }

  /** The speaker ids are pairwise distinct (true of the clustered scene speakers). */
  predicate DistinctIds(speakers: seq<Speaker>) {
    forall a, b :: 0 <= a < b < |speakers| ==> speakers[a].id != speakers[b].id
  }

  function SpeakerIdOf(s: Speaker): string { s.id }

  /** Every turn gets a speaker id from the scene, or the wide shot when the scene has
      no speakers; turns with the same label get the same id. */
  lemma AssignmentFromScene(labels: seq<Option<string>>, speakers: seq<Speaker>)
    requires Succeeds(labels, speakers)
    ensures |Assignment(labels, speakers)| == |labels|
    ensures speakers == [] ==> forall i :: 0 <= i < |labels| ==> Assignment(labels, speakers)[i] == WIDE
    ensures speakers != [] ==> forall i :: 0 <= i < |labels| ==>
      exists k :: 0 <= k < |speakers| && speakers[k].id == Assignment(labels, speakers)[i]
    ensures forall i, j :: 0 <= i < |labels| && 0 <= j < |labels| && labels[i] == labels[j] ==>
      Assignment(labels, speakers)[i] == Assignment(labels, speakers)[j]
  {
    var r := Assignment(labels, speakers);
    if labels != [] && speakers != [] {
      var ls := Strip(labels);
      var seen := Seqs.FirstAppearances(ls);
      if |seen| > 1 && |speakers| > 1 {
        var sorted := LeftToRight(speakers);
        forall i | 0 <= i < |labels|
          ensures exists k :: 0 <= k < |speakers| && speakers[k].id == r[i]
        {
          var q := Seqs.IndexOf(seen, ls[i]) % |sorted|;
          assert r[i] == sorted[q].id;
          assert sorted[q] in multiset(speakers);
          var k := Seqs.IndexOf(speakers, sorted[q]);
        }
      } else {
        assert forall i :: 0 <= i < |labels| ==> r[i] == speakers[0].id;
      }
    }
  }

  /** With at least two labels and two speakers, the first label heard goes to the
      leftmost speaker. */
  lemma FirstLabelLeftmost(labels: seq<Option<string>>, speakers: seq<Speaker>)
    requires labels != [] && AllLabelled(labels) && |speakers| > 1
    requires |Seqs.FirstAppearances(Strip(labels))| > 1
    ensures exists k :: 0 <= k < |speakers| && speakers[k].id == Assignment(labels, speakers)[0] &&
                        (forall m :: 0 <= m < |speakers| ==> speakers[k].bbox.x <= speakers[m].bbox.x)
  {
    var sorted := LeftToRight(speakers);
    AssignmentHead(labels, speakers);
    LeftmostFirst(speakers);
    var k := Seqs.IndexOf(speakers, sorted[0]);
    assert speakers[k] == sorted[0];
  }

  /** The first label heard has rank 0 and is dealt the first speaker from the left. */
  lemma AssignmentHead(labels: seq<Option<string>>, speakers: seq<Speaker>)
    requires labels != [] && AllLabelled(labels) && |speakers| > 1
    requires |Seqs.FirstAppearances(Strip(labels))| > 1
    ensures Assignment(labels, speakers)[0] == LeftToRight(speakers)[0].id
  {
    var ls := Strip(labels);
    var seen := Seqs.FirstAppearances(ls);
    var sorted := LeftToRight(speakers);
    Seqs.FirstAppearancesHead(ls);
    assert ls[0] == seen[0];
    assert Seqs.IndexOf(seen, ls[0]) == 0;
    assert |sorted| == |speakers|;
    assert DealtId(sorted, 0) == sorted[0].id;
    assert Assignment(labels, speakers)[0] == IdFor(ls[0], seen, sorted);
  }

  /** The first speaker of the left-to-right order is one of the scene's and has the
      smallest box x. */
  lemma LeftmostFirst(speakers: seq<Speaker>)
    requires speakers != []
    ensures LeftToRight(speakers) != [] && LeftToRight(speakers)[0] in speakers
    ensures forall m :: 0 <= m < |speakers| ==> LeftToRight(speakers)[0].bbox.x <= speakers[m].bbox.x
  {
    var sorted := LeftToRight(speakers);
    assert |sorted| == |speakers|;
    assert sorted[0] in multiset(speakers);
    forall m | 0 <= m < |speakers| ensures sorted[0].bbox.x <= speakers[m].bbox.x {
      assert speakers[m] in multiset(sorted);
      var q := Seqs.IndexOf(sorted, speakers[m]);
      assert BboxX(sorted[0]) <= BboxX(sorted[q]);
    }
  }

  /** When there are no more labels than speakers (and the ids are distinct), different
      labels go to different speakers: with the consistency above, same label iff same id. */
  lemma {:induction false} DistinctLabelsDistinctIds(labels: seq<Option<string>>, speakers: seq<Speaker>)
    requires labels != [] && AllLabelled(labels) && |speakers| > 1 && DistinctIds(speakers)
    requires 1 < |Seqs.FirstAppearances(Strip(labels))| <= |speakers|
    ensures forall i, j :: 0 <= i < |labels| && 0 <= j < |labels| && labels[i] != labels[j] ==>
      Assignment(labels, speakers)[i] != Assignment(labels, speakers)[j]
  {
    var ls := Strip(labels);
    var seen := Seqs.FirstAppearances(ls);
    var sorted := LeftToRight(speakers);
    Seqs.PermutationKeysDistinct(speakers, sorted, SpeakerIdOf);
    RoundRobin(labels, speakers);
    DealtInjective(ls, seen, sorted);
    forall i, j | 0 <= i < |labels| && 0 <= j < |labels| && labels[i] != labels[j]
      ensures ls[i] != ls[j]
    {
    }
  }

  /** Dealing distinct ids in a single round gives distinct values distinct ids. */
  lemma DealtInjective(ls: seq<string>, seen: seq<string>, sorted: seq<Speaker>)
    requires (forall i :: 0 <= i < |ls| ==> ls[i] in seen) && |seen| <= |sorted|
    requires forall a, b :: 0 <= a < b < |sorted| ==> SpeakerIdOf(sorted[a]) != SpeakerIdOf(sorted[b])
    ensures forall i, j :: 0 <= i < |ls| && 0 <= j < |ls| && ls[i] != ls[j] ==>
      DealtId(sorted, Seqs.IndexOf(seen, ls[i])) != DealtId(sorted, Seqs.IndexOf(seen, ls[j]))
  {
    forall i, j | 0 <= i < |ls| && 0 <= j < |ls| && ls[i] != ls[j]
      ensures DealtId(sorted, Seqs.IndexOf(seen, ls[i])) != DealtId(sorted, Seqs.IndexOf(seen, ls[j]))
    {
      var a := Seqs.IndexOf(seen, ls[i]);
      var b := Seqs.IndexOf(seen, ls[j]);
      assert a != b by { assert seen[a] == ls[i] && seen[b] == ls[j]; }
      DealtFirstRound(sorted, a);
      DealtFirstRound(sorted, b);
      if a < b {
        assert SpeakerIdOf(sorted[a]) != SpeakerIdOf(sorted[b]);
      } else {
        assert SpeakerIdOf(sorted[b]) != SpeakerIdOf(sorted[a]);
      }
    }
  }

  /** When there are at least as many labels as speakers, every speaker is given a label. */
  lemma EverySpeakerAssigned(labels: seq<Option<string>>, speakers: seq<Speaker>)
    requires labels != [] && AllLabelled(labels) && |speakers| > 1
    requires |Seqs.FirstAppearances(Strip(labels))| >= |speakers|
    ensures forall m :: 0 <= m < |speakers| ==>
      exists i :: 0 <= i < |labels| && Assignment(labels, speakers)[i] == speakers[m].id
  {
    var ls := Strip(labels);
    var seen := Seqs.FirstAppearances(ls);
    var sorted := LeftToRight(speakers);
    var r := Assignment(labels, speakers);
    RoundRobin(labels, speakers);
    forall m | 0 <= m < |speakers| ensures exists i :: 0 <= i < |labels| && r[i] == speakers[m].id {
      assert speakers[m] in multiset(sorted);
      var q := Seqs.IndexOf(sorted, speakers[m]);
      var i := Seqs.IndexOf(ls, seen[q]);
      assert Seqs.IndexOf(seen, ls[i]) == q;
      DealtFirstRound(sorted, q);
      assert r[i] == sorted[q].id;
    }
  }
}
