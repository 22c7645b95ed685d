/** The contour loop of getSticky.py: each contour is classified; each kept
    one is rectified and saved as `postit_<n>.jpg` with `n` counting up from 1,
    and the closing message reports `postit_index - 1` notes. */
module Pipeline {
  import opened Rectify
  import opened Candidates

  /** One saved note: the number in its file name and the warp that produced it. */
  datatype Note = Note(index: nat, warp: Warp)

  /** The i-th note came from the kept contour at position `origin`, rectified. */
  predicate MadeFrom(contours: seq<Contour>, note: Note, origin: nat) {
    && origin < |contours|
    && Classify(contours[origin]) == Keep
    && note.warp == FourPointTransform(contours[origin].box)
  }

  predicate StrictlyIncreasing(s: seq<nat>) {
    forall i, j :: 0 <= i < j < |s| ==> s[i] < s[j]
  }

  lemma AppendKeepsIncreasing(s: seq<nat>, k: nat)
    requires StrictlyIncreasing(s)
    requires forall i :: 0 <= i < |s| ==> s[i] < k
    ensures StrictlyIncreasing(s + [k])
  {
  }

  /** Note `i` is numbered `i + 1` and came from the kept contour `origins[i]`. */
  ghost predicate Provenance(contours: seq<Contour>, notes: seq<Note>, origins: seq<nat>) {
    && |origins| == |notes|
    && forall i :: 0 <= i < |notes| ==> notes[i].index == i + 1 && MadeFrom(contours, notes[i], origins[i])
  }

  /** What the loop has established after looking at the first `k` contours. */
  ghost predicate Progress(contours: seq<Contour>, k: nat, notes: seq<Note>, origins: seq<nat>) {
    && k <= |contours|
    && Provenance(contours, notes, origins)
    && |notes| == |Survivors(contours[..k])|
    && (forall i :: 0 <= i < |origins| ==> origins[i] < k)
    && StrictlyIncreasing(origins)
    && (forall m :: 0 <= m < k && Classify(contours[m]) == Keep ==> m in origins)
  }

  lemma ProvenanceExtends(contours: seq<Contour>, notes: seq<Note>, origins: seq<nat>, note: Note, k: nat)
    requires Provenance(contours, notes, origins)
    requires MadeFrom(contours, note, k) && note.index == |notes| + 1
    ensures Provenance(contours, notes + [note], origins + [k])
  {
    var notes', origins' := notes + [note], origins + [k];
    assert notes'[|notes|] == note && origins'[|notes|] == k;
  }

  lemma ProgressOnKeep(contours: seq<Contour>, k: nat, notes: seq<Note>, origins: seq<nat>, note: Note)
    requires k < |contours| && Classify(contours[k]) == Keep
    requires Progress(contours, k, notes, origins)
    requires note == Note(|notes| + 1, FourPointTransform(contours[k].box))
    ensures Progress(contours, k + 1, notes + [note], origins + [k])
  {
    SurvivorsStep(contours, k);
    AppendKeepsIncreasing(origins, k);
    var notes', origins' := notes + [note], origins + [k];
    ProvenanceExtends(contours, notes, origins, note, k);
    forall m | 0 <= m < k + 1 && Classify(contours[m]) == Keep
      ensures m in origins'
    {
      if m < k {
        assert m in origins;
      } else {
        assert origins'[|origins|] == k;
      }
    }
  }

  lemma ProgressOnSkip(contours: seq<Contour>, k: nat, notes: seq<Note>, origins: seq<nat>)
    requires k < |contours| && Classify(contours[k]) != Keep
    requires Progress(contours, k, notes, origins)
    ensures Progress(contours, k + 1, notes, origins)
  {
    SurvivorsStep(contours, k);
  }

  lemma ProgressComplete(contours: seq<Contour>, notes: seq<Note>, origins: seq<nat>)
    requires Progress(contours, |contours|, notes, origins)
    ensures |origins| == |notes| == |Survivors(contours)|
    ensures forall i :: 0 <= i < |notes| ==> notes[i].index == i + 1 && MadeFrom(contours, notes[i], origins[i])
    ensures StrictlyIncreasing(origins)
    ensures forall k :: 0 <= k < |contours| && Classify(contours[k]) == Keep ==> k in origins
  {
    assert contours[..|contours|] == contours;
  }

  /** Runs the loop over `contours` (in the order `findContours` returned them).
      `origins[i]` is the position of the contour that became the i-th note,
      and `reported` is the count printed at the end. */
  method ExtractNotes(contours: seq<Contour>) returns (notes: seq<Note>, origins: seq<nat>, reported: int)
    ensures |origins| == |notes| == reported == |Survivors(contours)|
    ensures forall i :: 0 <= i < |notes| ==> notes[i].index == i + 1 && MadeFrom(contours, notes[i], origins[i])
    ensures StrictlyIncreasing(origins)
    ensures forall k :: 0 <= k < |contours| && Classify(contours[k]) == Keep ==> k in origins
  {
    notes, origins := [], [];
    var postitIndex := 1;
    var k := 0;
    while k < |contours|
      invariant 0 <= k <= |contours|
      invariant postitIndex == |notes| + 1
      invariant Progress(contours, k, notes, origins)
    {
      var c := contours[k];
      if Classify(c) == Keep {
        var warped := FourPointTransform(c.box);
        ProgressOnKeep(contours, k, notes, origins, Note(postitIndex, warped));
        notes := notes + [Note(postitIndex, warped)];
        origins := origins + [k];
        postitIndex := postitIndex + 1;
      } else {
        ProgressOnSkip(contours, k, notes, origins);
      }
      k := k + 1;
    }
    ProgressComplete(contours, notes, origins);
    reported := postitIndex - 1;
  }
}
