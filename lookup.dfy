/** The frame-number-to-box lookup that `functools.reduce(_merge_lookups, ...)` builds. */
module Lookup {
  import opened Wrappers
  import opened Geometry
  import opened Interpolation

  /** `_merge_lookups`: record one sample, replacing only an entry for the same frame number. */
  function MergeLookups(lookup: map<int, Box>, frameBox: Sample): (r: map<int, Box>)
    ensures r.Keys == lookup.Keys + {frameBox.0}
    ensures r[frameBox.0] == frameBox.1
    ensures forall k :: k in lookup && k != frameBox.0 ==> r[k] == lookup[k]
  {
    lookup[frameBox.0 := frameBox.1]
  }

  /** `functools.reduce(_merge_lookups, frameBoxes, lookup)`: merge the samples left to right.
      The keys are those of `lookup` and the frame numbers of the samples. */
  function ReduceLookups(lookup: map<int, Box>, frameBoxes: seq<Sample>): (r: map<int, Box>)
    ensures lookup.Keys <= r.Keys
    ensures forall i :: 0 <= i < |frameBoxes| ==> frameBoxes[i].0 in r
  {
    if |frameBoxes| == 0 then
      lookup
    else
      MergeLookups(ReduceLookups(lookup, frameBoxes[..|frameBoxes| - 1]), frameBoxes[|frameBoxes| - 1])
  }

  /** The keys of the reduced map are those of `lookup` and the frame numbers of the samples. */
  lemma {:induction false} ReduceKeys(lookup: map<int, Box>, frameBoxes: seq<Sample>)
    ensures forall k :: k in ReduceLookups(lookup, frameBoxes) <==>
      k in lookup || exists i :: 0 <= i < |frameBoxes| && frameBoxes[i].0 == k
  {
    if |frameBoxes| > 0 {
      var init := frameBoxes[..|frameBoxes| - 1];
      assert forall i :: 0 <= i < |init| ==> init[i] == frameBoxes[i];
      ReduceKeys(lookup, init);
    }
  }

  /** The reduce as the source runs it: a loop that merges one sample at a time. */
  method BuildLookup(allFrameBoxes: seq<Sample>) returns (lookup: map<int, Box>)
    ensures lookup == ReduceLookups(map[], allFrameBoxes)
  {
    lookup := map[];
    for i := 0 to |allFrameBoxes|
      invariant lookup == ReduceLookups(map[], allFrameBoxes[..i])
    {
      assert allFrameBoxes[..i + 1][..i] == allFrameBoxes[..i];
      lookup := MergeLookups(lookup, allFrameBoxes[i]);
    }
    assert allFrameBoxes[..|allFrameBoxes|] == allFrameBoxes;
  }

  /** A sample that no later sample shares a frame number with keeps its box. */
  lemma {:induction false} ReduceLastWins(lookup: map<int, Box>, frameBoxes: seq<Sample>, p: nat)
    requires p < |frameBoxes|
    requires forall q :: p < q < |frameBoxes| ==> frameBoxes[q].0 != frameBoxes[p].0
    ensures ReduceLookups(lookup, frameBoxes)[frameBoxes[p].0] == frameBoxes[p].1
  {
    var n := |frameBoxes|;
    if p < n - 1 {
      var init := frameBoxes[..n - 1];
      assert init[p] == frameBoxes[p];
      ReduceLastWins(lookup, init, p);
    }
  }

  /** A frame number that no sample mentions keeps its entry. */
  lemma {:induction false} ReduceUntouched(lookup: map<int, Box>, frameBoxes: seq<Sample>, k: int)
    requires k in lookup
    requires forall i :: 0 <= i < |frameBoxes| ==> frameBoxes[i].0 != k
    ensures ReduceLookups(lookup, frameBoxes)[k] == lookup[k]
  {
    if |frameBoxes| > 0 {
      var init := frameBoxes[..|frameBoxes| - 1];
      assert forall i :: 0 <= i < |init| ==> init[i] == frameBoxes[i];
      ReduceUntouched(lookup, init, k);
    }
  }

  /** Reducing a concatenation is reducing the second part into the result of the first. */
  lemma {:induction false} ReduceAppend(lookup: map<int, Box>, a: seq<Sample>, b: seq<Sample>)
    ensures ReduceLookups(lookup, a + b) == ReduceLookups(ReduceLookups(lookup, a), b)
  {
    if |b| == 0 {
      assert a + b == a;
    } else {
      assert (a + b)[..|a + b| - 1] == a + b[..|b| - 1];
      ReduceAppend(lookup, a, b[..|b| - 1]);
    }
  }

  /** Samples numbered base, base + 1, ... fill exactly those keys with their own boxes. */
  lemma {:induction false} ReduceConsecutive(lookup: map<int, Box>, s: seq<Sample>, base: int)
    requires forall t :: 0 <= t < |s| ==> s[t].0 == base + t
    ensures forall k :: k in ReduceLookups(lookup, s) <==> k in lookup || base <= k < base + |s|
    ensures forall t :: 0 <= t < |s| ==> ReduceLookups(lookup, s)[base + t] == s[t].1
    ensures forall k :: k in lookup && !(base <= k < base + |s|) ==> ReduceLookups(lookup, s)[k] == lookup[k]
  {
    if |s| > 0 {
      var init := s[..|s| - 1];
      var last := s[|s| - 1];
      assert forall t :: 0 <= t < |init| ==> init[t] == s[t];
      ReduceConsecutive(lookup, init, base);
      assert ReduceLookups(lookup, s) == MergeLookups(ReduceLookups(lookup, init), last);
      assert last.0 == base + |s| - 1;
    }
  }

  /** The keys of `lookup` are exactly the frames `lo .. hi`. */
  ghost predicate KeysSpan(lookup: map<int, Box>, lo: int, hi: int) {
    forall k :: k in lookup <==> lo <= k <= hi
  }

  /** Frame k lies between samples j and j + 1. */
  predicate InSegment(frames: seq<Option<Sample>>, j: nat, k: int)
    requires AllParsed(frames) && j + 1 < |frames|
  {
    frames[j].value.0 <= k <= frames[j + 1].value.0
  }

  /** The box interpolated for frame k between samples j and j + 1. */
  function SegmentBox(frames: seq<Option<Sample>>, j: nat, k: int): Box
    requires AllParsed(frames) && Increasing(frames) && j + 1 < |frames|
  {
    LerpBox(frames[j].value.1, frames[j + 1].value.1,
            k - frames[j].value.0, frames[j + 1].value.0 - frames[j].value.0)
  }

  /** Every frame between samples j and j + 1, for j < n, holds the box the matching fraction
      of the way between their boxes. */
  ghost predicate InterpolatesUpTo(lookup: map<int, Box>, frames: seq<Option<Sample>>, n: nat)
    requires AllParsed(frames) && Increasing(frames) && n < |frames|
  {
    forall j: nat, k :: j < n && InSegment(frames, j, k) ==> k in lookup && lookup[k] == SegmentBox(frames, j, k)
  }

  /** Merging samples numbered `start.0 .. end.0`, each holding its interpolated box, fills
      exactly those frames and touches nothing else. */
  lemma MergeInterpolated(before: map<int, Box>, s: seq<Sample>, start: Sample, end: Sample)
    requires start.0 < end.0
    requires LerpRun(s, start, end)
    ensures var lookup := ReduceLookups(before, s);
      && (forall k :: k in lookup <==> k in before || start.0 <= k <= end.0)
      && (forall k :: start.0 <= k <= end.0 ==> lookup[k] == LerpBox(start.1, end.1, k - start.0, end.0 - start.0))
      && (forall k :: k in before && !(start.0 <= k <= end.0) ==> lookup[k] == before[k])
  {
    ReduceConsecutive(before, s, start.0);
    var lookup := ReduceLookups(before, s);
    forall k | start.0 <= k <= end.0
      ensures lookup[k] == LerpBox(start.1, end.1, k - start.0, end.0 - start.0)
    {
      assert lookup[start.0 + (k - start.0)] == s[k - start.0].1;
    }
  }

  /** Merging the segment of pair n - 1 into a map that is dense up to sample n - 1 gives a
      map that is dense up to sample n. */
  lemma DenseStep(frames: seq<Option<Sample>>, n: nat, before: map<int, Box>, segment: seq<Sample>)
    requires AllParsed(frames) && Increasing(frames)
    requires 0 < n < |frames|
    requires n == 1 ==> before == map[]
    requires n > 1 ==> KeysSpan(before, frames[0].value.0, frames[n - 1].value.0)
    requires InterpolatesUpTo(before, frames, n - 1)
    requires LerpRun(segment, frames[n - 1].value, frames[n].value)
    ensures var lookup := ReduceLookups(before, segment);
      KeysSpan(lookup, frames[0].value.0, frames[n].value.0) && InterpolatesUpTo(lookup, frames, n)
  {
    var start := frames[n - 1].value;
    var end := frames[n].value;
    MergeInterpolated(before, segment, start, end);
    var lookup := ReduceLookups(before, segment);
    assert KeysSpan(lookup, frames[0].value.0, end.0) by {
      if n > 1 {
        assert frames[0].value.0 < start.0;
      }
    }
    forall j: nat, k | j < n && InSegment(frames, j, k)
      ensures k in lookup && lookup[k] == SegmentBox(frames, j, k)
    {
      if j == n - 1 {
        assert lookup[k] == LerpBox(start.1, end.1, k - start.0, end.0 - start.0);
      } else if k == start.0 {
        assert j == n - 2;
        LerpBoxEnds(start.1, end.1, end.0 - start.0);
        LerpBoxEnds(frames[j].value.1, start.1, start.0 - frames[j].value.0);
        assert lookup[k] == LerpBox(start.1, end.1, 0, end.0 - start.0);
      } else {
        assert frames[j + 1].value.0 <= start.0;
        assert lookup[k] == before[k];
      }
    }
  }

  /** The map built from the first n pairs of samples with strictly increasing frame numbers:
      its keys are every frame from the first sample to sample n, and a frame between samples
      j and j + 1 holds the box the matching fraction of the way between their boxes. */
  lemma {:induction false} DensePrefix(frames: seq<Option<Sample>>, n: nat)
    requires AllParsed(frames) && Increasing(frames)
    requires 0 < n < |frames|
    ensures InterpolatePairs(Pairwise(frames)[..n]).Ok?
    ensures var lookup := ReduceLookups(map[], InterpolatePairs(Pairwise(frames)[..n]).value);
      KeysSpan(lookup, frames[0].value.0, frames[n].value.0) && InterpolatesUpTo(lookup, frames, n)
  {
    var pairs := Pairwise(frames);
    var start := frames[n - 1].value;
    var end := frames[n].value;
    assert pairs[n - 1] == (Some(start), Some(end));
    assert pairs[..n][..n - 1] == pairs[..n - 1];
    InterpolatePrefixLength(frames, n - 1);
    var done := InterpolatePairs(pairs[..n - 1]).value;
    var before := ReduceLookups(map[], done);
    if n == 1 {
      assert pairs[..0] == [];
      assert before == map[];
    } else {
      DensePrefix(frames, n - 1);
      assert KeysSpan(before, frames[0].value.0, start.0);
    }
    assert InterpolatesUpTo(before, frames, n - 1);
    SegmentForward(start, end);
    var segment := Segment(Some(start), Some(end)).value;
    DenseStep(frames, n, before, segment);
    assert InterpolatePairs(pairs[..n]) == Ok(done + segment);
    ReduceAppend(map[], done, segment);
  }

  /** With strictly increasing frame numbers i0 < ... < im (m >= 1), the map built from the
      interpolated list is dense: its keys are exactly the frames i0 .. im, every sampled
      frame holds its own box, and the frames between two samples hold the interpolated boxes. */
  lemma DenseLookup(frames: seq<Option<Sample>>)
    requires |frames| >= 2 && AllParsed(frames) && Increasing(frames)
    ensures Interpolate(frames).Ok?
    ensures var lookup := ReduceLookups(map[], Interpolate(frames).value);
      && KeysSpan(lookup, frames[0].value.0, frames[|frames| - 1].value.0)
      && InterpolatesUpTo(lookup, frames, |frames| - 1)
      && (forall j :: 0 <= j < |frames| ==>
            frames[j].value.0 in lookup && lookup[frames[j].value.0] == frames[j].value.1)
  {
    var m := |frames| - 1;
    var pairs := Pairwise(frames);
    DensePrefix(frames, m);
    var lookup := ReduceLookups(map[], InterpolatePairs(pairs[..m]).value);
    SampledFramesKeepTheirBoxes(lookup, frames);
    assert pairs[..m] == pairs;
  }

  /** A map that holds the interpolated boxes of every segment holds each sampled box at its
      own frame: both segments that meet at a sample agree on it. */
  lemma SampledFramesKeepTheirBoxes(lookup: map<int, Box>, frames: seq<Option<Sample>>)
    requires |frames| >= 2 && AllParsed(frames) && Increasing(frames)
    requires InterpolatesUpTo(lookup, frames, |frames| - 1)
    ensures forall j :: 0 <= j < |frames| ==> frames[j].value.0 in lookup && lookup[frames[j].value.0] == frames[j].value.1
  {
    var m := |frames| - 1;
    forall j | 0 <= j < |frames|
      ensures frames[j].value.0 in lookup && lookup[frames[j].value.0] == frames[j].value.1
    {
      var i := if j < m then j else j - 1;
      var a := frames[i].value;
      var b := frames[i + 1].value;
      LerpBoxEnds(a.1, b.1, b.0 - a.0);
      assert InSegment(frames, i, frames[j].value.0);
    }
  }
}
