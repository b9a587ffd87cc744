/**
 * The gap-aware segmenter of the composite line (`segmentData`): the points are cut into runs
 * wherever the time from one point to the next exceeds three 30-day months, so that the line is
 * not drawn across a gap in the data.
 */
module Segmenter {
  import opened Records

  /** Three 30-day months in milliseconds: `3 * 30 * 24 * 60 * 60 * 1000`. */
  const MaxGapMs: int := 3 * 30 * 24 * 60 * 60 * 1000

  /** A new run starts at `next` when it follows `prev` by more than `MaxGapMs`. */
  predicate Gap(prev: Row, next: Row) {
    TimeOf(next) - TimeOf(prev) > MaxGapMs
  }

  /** The runs laid end to end. */
  function Flatten(ss: seq<seq<Row>>): seq<Row> {
    if ss == [] then [] else ss[0] + Flatten(ss[1..])
  }

  lemma {:induction false} FlattenAppend(ss: seq<seq<Row>>, s: seq<Row>)
    ensures Flatten(ss + [s]) == Flatten(ss) + s
  {
    if ss != [] {
      assert (ss + [s])[1..] == ss[1..] + [s];
      FlattenAppend(ss[1..], s);
    } else {
      assert Flatten([s][1..]) == [];
    }
  }

  /** Every point of a run is a point of the runs laid end to end. */
  lemma {:induction false} RunInFlatten(ss: seq<seq<Row>>, j: int, x: Row)
    requires 0 <= j < |ss| && x in ss[j]
    ensures x in Flatten(ss)
  {
    if j > 0 {
      RunInFlatten(ss[1..], j - 1, x);
    }
  }

  /** No two consecutive points of the run are a gap apart. */
  predicate Gapless(s: seq<Row>) {
    forall i :: 0 < i < |s| ==> !Gap(s[i - 1], s[i])
  }

  /** The last point of a run. */
  function Last(s: seq<Row>): Row
    requires s != []
  {
    s[|s| - 1]
  }

  /** Run `j` starts a gap after the last point of run `j - 1`. */
  predicate SeparatedAt(ss: seq<seq<Row>>, j: int)
    requires 0 < j < |ss|
  {
    ss[j - 1] != [] && ss[j] != [] && Gap(Last(ss[j - 1]), ss[j][0])
  }

  /** Each run after the first starts a gap after the last point of the run before it. */
  predicate Separated(ss: seq<seq<Row>>) {
    forall j :: 0 < j < |ss| ==> SeparatedAt(ss, j)
  }

  /** Every run is non-empty and has no gap inside. */
  predicate RunsGapless(ss: seq<seq<Row>>) {
    forall j :: 0 <= j < |ss| ==> ss[j] != [] && Gapless(ss[j])
  }

  /**
   * `ss` cuts `data` into non-empty runs, in order, exactly at the gaps: the runs concatenate to
   * the input, have no gap inside and a gap between each run and the next.
   */
  predicate IsSegmentation(data: seq<Row>, ss: seq<seq<Row>>) {
    Flatten(ss) == data && RunsGapless(ss) && Separated(ss)
  }

  /** A point that follows the open run without a gap extends it. */
  lemma ExtendRun(p: seq<Row>, ss: seq<seq<Row>>, s: seq<Row>, x: Row)
    requires s != [] && IsSegmentation(p, ss + [s]) && !Gap(Last(s), x)
    ensures IsSegmentation(p + [x], ss + [s + [x]])
  {
    FlattenAppend(ss, s);
    FlattenAppend(ss, s + [x]);
    var t := ss + [s + [x]];
    assert RunsGapless(t) by {
      forall j | 0 <= j < |t|
        ensures t[j] != [] && Gapless(t[j])
      {
        if j < |ss| {
          assert t[j] == (ss + [s])[j];
        } else {
          assert (ss + [s])[j] == s;
        }
      }
    }
    assert Separated(t) by {
      forall j | 0 < j < |t|
        ensures SeparatedAt(t, j)
      {
        assert SeparatedAt(ss + [s], j);
        assert t[j - 1] == (ss + [s])[j - 1];
        assert t[j][0] == (ss + [s])[j][0];
      }
    }
  }

  /** A point that follows the open run by a gap closes it and opens a run of its own. */
  lemma StartRun(p: seq<Row>, ss: seq<seq<Row>>, s: seq<Row>, x: Row)
    requires s != [] && IsSegmentation(p, ss + [s]) && Gap(Last(s), x)
    ensures IsSegmentation(p + [x], ss + [s] + [[x]])
  {
    FlattenAppend(ss + [s], [x]);
    var u := ss + [s];
    var t := u + [[x]];
    assert RunsGapless(t) by {
      forall j | 0 <= j < |t|
        ensures t[j] != [] && Gapless(t[j])
      {
        if j < |u| {
          assert t[j] == u[j];
        }
      }
    }
    assert Separated(t) by {
      forall j | 0 < j < |t|
        ensures SeparatedAt(t, j)
      {
        if j < |u| {
          assert SeparatedAt(u, j);
          assert t[j - 1] == u[j - 1] && t[j] == u[j];
        } else {
          assert t[j - 1] == s;
        }
      }
    }
  }

  /** The first point on its own is a segmentation of itself. */
  lemma FirstRun(x: Row)
    ensures IsSegmentation([x], [[x]])
  {
    assert Flatten([[x]]) == [x] + Flatten([]);
  }

  /**
   * `segmentData`: walks the points once, closing the current run before every point that follows
   * its predecessor by more than `MaxGapMs`, and closes the last run at the end. The points need
   * not be sorted: a step back in time is never a gap.
   */
  method SegmentData(data: seq<Row>) returns (segments: seq<seq<Row>>)
    ensures IsSegmentation(data, segments)
    ensures segments == [] <==> data == []
  {
    segments := [];
    var segment: seq<Row> := [];
    for i := 0 to |data|
      invariant i == 0 ==> segments == [] && segment == []
      invariant i > 0 ==> segment != [] && Last(segment) == data[i - 1]
      invariant i > 0 ==> IsSegmentation(data[..i], segments + [segment])
    {
      assert data[..i + 1] == data[..i] + [data[i]];
      if i == 0 {
        FirstRun(data[0]);
        assert [] + [[data[0]]] == [[data[0]]];
      } else if Gap(data[i - 1], data[i]) {
        StartRun(data[..i], segments, segment, data[i]);
        segments := segments + [segment];
        segment := [];
        assert segment + [data[i]] == [data[i]];
      } else {
        ExtendRun(data[..i], segments, segment, data[i]);
      }
      segment := segment + [data[i]];
    }
    if |segment| > 0 {
      segments := segments + [segment];
    }
    assert data[..|data|] == data;
  }

  /** The runs after the first cut the rest of the input. */
  lemma SegmentationTail(data: seq<Row>, ss: seq<seq<Row>>)
    requires IsSegmentation(data, ss) && ss != []
    ensures |ss[0]| <= |data| && data[..|ss[0]|] == ss[0]
    ensures IsSegmentation(data[|ss[0]|..], ss[1..])
    ensures |ss| > 1 ==> |ss[0]| < |data| && data[|ss[0]|] == ss[1][0]
  {
    assert data == ss[0] + Flatten(ss[1..]);
    if |ss| > 1 {
      assert Flatten(ss[1..]) == ss[1] + Flatten(ss[2..]);
    }
    var t := ss[1..];
    assert RunsGapless(t) by {
      forall j | 0 <= j < |t|
        ensures t[j] != [] && Gapless(t[j])
      {
        assert t[j] == ss[j + 1];
      }
    }
    assert Separated(t) by {
      forall j | 0 < j < |t|
        ensures SeparatedAt(t, j)
      {
        assert SeparatedAt(ss, j + 1);
        assert t[j - 1] == ss[j] && t[j] == ss[j + 1];
      }
    }
  }

  /** A segmentation with no runs cuts nothing, and one with runs cuts a non-empty input. */
  lemma EmptySegmentation(data: seq<Row>, ss: seq<seq<Row>>)
    requires IsSegmentation(data, ss)
    ensures ss == [] <==> data == []
  {
    assert ss != [] ==> data == ss[0] + Flatten(ss[1..]) && ss[0] != [];
  }

  /**
   * The cut is determined by the input: any two segmentations of the same points are equal, so
   * `SegmentData` returns the one segmentation there is.
   */
  lemma {:induction false} SegmentationUnique(data: seq<Row>, a: seq<seq<Row>>, b: seq<seq<Row>>)
    requires IsSegmentation(data, a) && IsSegmentation(data, b)
    ensures a == b
    decreases |data|
  {
    EmptySegmentation(data, a);
    EmptySegmentation(data, b);
    if a != [] && b != [] {
      SegmentationTail(data, a);
      SegmentationTail(data, b);
      FirstRunBound(data, a, b);
      FirstRunBound(data, b, a);
      assert a[0] == b[0];
      SegmentationUnique(data[|a[0]|..], a[1..], b[1..]);
      assert a == [a[0]] + a[1..] && b == [b[0]] + b[1..];
    }
  }

  /**
   * The first run of a segmentation ends where the input ends or at a gap, and a run without a gap
   * inside cannot reach across that gap: the first run of `b` is no longer than that of `a`.
   */
  lemma FirstRunBound(data: seq<Row>, a: seq<seq<Row>>, b: seq<seq<Row>>)
    requires IsSegmentation(data, a) && IsSegmentation(data, b) && a != [] && b != []
    ensures |b[0]| <= |a[0]|
  {
    SegmentationTail(data, a);
    SegmentationTail(data, b);
    var k := |a[0]|;
    if |a| == 1 {
      assert Flatten(a[1..]) == [];
    } else {
      assert SeparatedAt(a, 1);
      assert Gap(data[k - 1], data[k]) by {
        assert data[k - 1] == a[0][k - 1];
      }
      GaplessRunEndsBeforeGap(data, b[0], k);
    }
  }

  /** A run without a gap inside that is a prefix of the input does not reach past a gap at `k`. */
  lemma GaplessRunEndsBeforeGap(data: seq<Row>, run: seq<Row>, k: int)
    requires |run| <= |data| && data[..|run|] == run && Gapless(run) && 0 < k < |data|
    ensures k < |run| ==> !Gap(data[k - 1], data[k])
  {
    if k < |run| {
      assert run[k - 1] == data[k - 1] && run[k] == data[k];
    }
  }

  /** Points with no gap between them form a single run. */
  lemma GaplessIsOneRun(data: seq<Row>)
    requires data != [] && Gapless(data)
    ensures IsSegmentation(data, [data])
  {
    assert Flatten([data]) == data + Flatten([]);
  }

  /** A point dated `t` milliseconds after the epoch. */
  function PointAt(t: int): Row {
    map[DateKey := Time(t)]
  }

  /**
   * Points on day 0, day 90 and day 210: a step of exactly 90 days stays in the run, the step of
   * 120 days that follows starts a new one, and that is the only way to cut them.
   */
  lemma TwoRunsExample(ss: seq<seq<Row>>)
    requires IsSegmentation([PointAt(0), PointAt(90 * 86_400_000), PointAt(210 * 86_400_000)], ss)
    ensures ss == [[PointAt(0), PointAt(90 * 86_400_000)], [PointAt(210 * 86_400_000)]]
  {
    var a, b, c := PointAt(0), PointAt(90 * 86_400_000), PointAt(210 * 86_400_000);
    assert TimeOf(a) == 0 && TimeOf(b) == 90 * 86_400_000 && TimeOf(c) == 210 * 86_400_000;
    var expected := [[a, b], [c]];
    assert expected[1..] == [[c]] && [[c]][1..] == [];
    assert Flatten([[c]]) == [c];
    assert Flatten(expected) == [a, b] + [c];
    assert SeparatedAt(expected, 1);
    assert IsSegmentation([a, b, c], expected);
    SegmentationUnique([a, b, c], ss, expected);
  }
}
