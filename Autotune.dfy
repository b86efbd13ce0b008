/**
 The grain-size autotuner of `main`: sweep the grain sizes 1, 2, ..., 9,
 10, 20, 30, ... up to the image height, render the image into a scratch
 buffer once per grain size and record the elapsed time, pick the grain size
 of the first minimal time, and render the real image with it.

 Elapsed times come from an oracle `measure(i)`, the time of the i-th trial;
 the clock itself is not modelled. The fragments TBB's simple partitioner
 makes for a grain size come from an oracle `tiling(g)` that must partition
 the whole image.
 */
module Autotune {
  import opened Imaging

  const DisplayWidth: int := 800
  const DisplayHeight: int := 800

  /** `TimeResult`: two parallel vectors, one entry per trial. */
  datatype TimeResult = TimeResult(grainSizes: seq<int>, times: seq<real>)
  {
    /**
     The two `push_back`s that store a trial: the grain size and its time go
     to the end of their vectors, every earlier entry stays where it was, and
     the vectors stay parallel.
     */
    function Record(grainSize: int, time: real): (r: TimeResult)
      ensures |r.grainSizes| == |grainSizes| + 1 && |r.times| == |times| + 1
      ensures r.grainSizes[|grainSizes|] == grainSize && r.times[|times|] == time
      ensures r.grainSizes[..|grainSizes|] == grainSizes && r.times[..|times|] == times
    {
      TimeResult(grainSizes + [grainSize], times + [time])
    }
  }

  /** The sweep's increment: `grain_size < 10 ? ++grain_size : grain_size += 10`. */
  function NextGrain(g: int): (n: int)
    ensures n > g
  {
    if g < 10 then g + 1 else g + 10
  }

  /** The grain sizes the sweep visits from `g` on, while they stay at or below `bound`. */
  function SweepFrom(g: int, bound: int): (r: seq<int>)
    ensures |r| > 0 <==> g <= bound
    ensures |r| > 0 ==> r[0] == g
    decreases bound - g
  {
    if g > bound then [] else [g] + SweepFrom(NextGrain(g), bound)
  }

  /** The grain sizes of the whole sweep, which starts at 1. */
  function SweepValues(bound: int): (r: seq<int>)
    ensures |r| > 0 <==> bound >= 1
    ensures |r| > 0 ==> r[0] == 1
  {
    SweepFrom(1, bound)
  }

  /** Independent description of a swept value: 1..9, or a positive multiple of 10. */
  predicate OnGrid(v: int) {
    1 <= v && (v < 10 || v % 10 == 0)
  }

  predicate StrictlyIncreasing(s: seq<int>) {
    forall i, j :: 0 <= i < j < |s| ==> s[i] < s[j]
  }

  lemma NextGrainOnGrid(g: int)
    requires OnGrid(g)
    ensures OnGrid(NextGrain(g))
    ensures forall v :: OnGrid(v) && g < v ==> NextGrain(g) <= v
  {
    forall v | OnGrid(v) && g < v ensures NextGrain(g) <= v {
      if g >= 10 {
        assert v >= 10 && v % 10 == 0 && g % 10 == 0;
        assert v / 10 > g / 10;
      }
    }
  }

  /** From a grid point, the sweep visits exactly the grid points between it and the bound. */
  lemma {:induction false} SweepFromMembers(g: int, bound: int, v: int)
    requires OnGrid(g)
    ensures v in SweepFrom(g, bound) <==> OnGrid(v) && g <= v <= bound
    decreases bound - g
  {
    if g <= bound {
      NextGrainOnGrid(g);
      SweepFromMembers(NextGrain(g), bound, v);
    }
  }

  /** Membership in the sweep: v is visited iff it is 1..9 or a multiple of 10, and at most the bound. */
  lemma SweepMembers(bound: int, v: int)
    ensures v in SweepValues(bound) <==> OnGrid(v) && v <= bound
  {
    SweepFromMembers(1, bound, v);
  }

  lemma {:induction false} SweepFromIncreasing(g: int, bound: int)
    ensures StrictlyIncreasing(SweepFrom(g, bound))
    ensures forall i :: 0 <= i < |SweepFrom(g, bound)| ==> g <= SweepFrom(g, bound)[i] <= bound
    decreases bound - g
  {
    if g <= bound {
      SweepFromIncreasing(NextGrain(g), bound);
    }
  }

  /** The sweep's values strictly increase and lie in [1, bound]. */
  lemma SweepIncreasing(bound: int)
    ensures StrictlyIncreasing(SweepValues(bound))
    ensures forall i :: 0 <= i < |SweepValues(bound)| ==> 1 <= SweepValues(bound)[i] <= bound
  {
    SweepFromIncreasing(1, bound);
  }

  lemma {:induction false} SweepFromTensLength(g: int, bound: int)
    requires g >= 10 && g % 10 == 0
    ensures |SweepFrom(g, bound)| == if bound < g then 0 else (bound - g) / 10 + 1
    decreases bound - g
  {
    if g <= bound {
      SweepFromTensLength(g + 10, bound);
    }
  }

  lemma {:induction false} SweepFromUnitsLength(g: int, bound: int)
    requires 1 <= g <= 10
    ensures |SweepFrom(g, bound)|
            == if bound < g then 0 else if bound < 10 then bound - g + 1 else 10 - g + bound / 10
    decreases 10 - g
  {
    if g == 10 {
      SweepFromTensLength(10, bound);
    } else if g <= bound {
      SweepFromUnitsLength(g + 1, bound);
    }
  }

  /** Number of trials: one per unit below 10, then one per multiple of 10 up to the bound. */
  lemma SweepLength(bound: int)
    ensures |SweepValues(bound)| == if bound < 1 then 0 else if bound < 10 then bound else 9 + bound / 10
  {
    SweepFromUnitsLength(1, bound);
  }

  /** The last trial is the largest grid point not above the bound. */
  lemma SweepLast(bound: int)
    requires bound >= 1
    ensures |SweepValues(bound)| > 0
    ensures SweepValues(bound)[|SweepValues(bound)| - 1]
            == if bound < 10 then bound else bound - bound % 10
  {
    var s := SweepValues(bound);
    var top := if bound < 10 then bound else bound - bound % 10;
    SweepMembers(bound, top);
    SweepIncreasing(bound);
    var last := s[|s| - 1];
    SweepMembers(bound, last);
    var k :| 0 <= k < |s| && s[k] == top;
    assert top <= last;
    if bound >= 10 && last >= 10 {
      assert last / 10 <= bound / 10;
      assert last == 10 * (last / 10);
    }
  }

  /** Below 10 the sweep steps by one: its i-th value from g is g + i. */
  lemma {:induction false} SweepFromUnits(g: int, bound: int, i: nat)
    requires 1 <= g && g + i <= 10 && g + i <= bound
    ensures |SweepFrom(g, bound)| > i && SweepFrom(g, bound)[i] == g + i
    decreases i
  {
    if i > 0 {
      SweepFromUnits(g + 1, bound, i - 1);
    }
  }

  /** With the image height 800 as bound the sweep has 89 trials, from 1 up to 800. */
  lemma SweepOf800()
    ensures |SweepValues(DisplayHeight)| == 89
    ensures SweepValues(DisplayHeight)[0] == 1 && SweepValues(DisplayHeight)[9] == 10
    ensures SweepValues(DisplayHeight)[88] == 800
  {
    SweepLength(DisplayHeight);
    SweepLast(DisplayHeight);
    SweepFromUnits(1, DisplayHeight, 9);
  }

  /** With bound 25 the sweep is 1, ..., 9, 10, 20; 25 itself is not reached. */
  lemma SweepOf25()
    ensures SweepValues(25) == [1, 2, 3, 4, 5, 6, 7, 8, 9, 10, 20]
  {
    assert SweepFrom(30, 25) == [];
    assert SweepFrom(20, 25) == [20];
    assert SweepFrom(10, 25) == [10, 20];
    assert SweepFrom(8, 25) == [8, 9, 10, 20];
    assert SweepFrom(6, 25) == [6, 7, 8, 9, 10, 20];
    assert SweepFrom(4, 25) == [4, 5, 6, 7, 8, 9, 10, 20];
    assert SweepFrom(2, 25) == [2, 3, 4, 5, 6, 7, 8, 9, 10, 20];
  }

  // ---------------------------------------------------------------------
  // Selecting the optimum.

  /** `std::min_element`: the first index of a minimal element. */
  function ArgMin(times: seq<real>): (k: nat)
    requires |times| > 0
    ensures k < |times|
    ensures forall j :: 0 <= j < |times| ==> times[k] <= times[j]
    ensures forall j :: 0 <= j < k ==> times[k] < times[j]
  {
    if |times| == 1 then 0
    else
      var k := ArgMin(times[..|times| - 1]);
      if times[|times| - 1] < times[k] then |times| - 1 else k
  }

  /** Minimal and first on ties determine the index: it is the one `ArgMin` returns. */
  lemma ArgMinUnique(times: seq<real>, k: int)
    requires 0 <= k < |times|
    requires forall j :: 0 <= j < |times| ==> times[k] <= times[j]
    requires forall j :: 0 <= j < k ==> times[k] < times[j]
    ensures k == ArgMin(times)
  {
    var m := ArgMin(times);
    assert times[m] <= times[k] && times[k] <= times[m];
  }

  /** The optimum read off the two vectors: index of `min_it`, `optimal_grain_size`, `min_time`. */
  datatype Optimum = Optimum(index: nat, grainSize: int, minTime: real)

  /**
   Lines 101-103 of `main`: the grain size recorded at the first index of
   minimal time. Dereferencing `min_element` of an empty vector is undefined,
   and the index is used on `grain_sizes`, so both demands are the caller's.
   */
  function SelectOptimal(result: TimeResult): (best: Optimum)
    requires |result.times| > 0 && |result.times| <= |result.grainSizes|
    ensures best.index < |result.times|
    ensures best.minTime == result.times[best.index]
    ensures best.grainSize == result.grainSizes[best.index]
    ensures forall j :: 0 <= j < |result.times| ==> best.minTime <= result.times[j]
    ensures forall j :: 0 <= j < best.index ==> best.minTime < result.times[j]
  {
    var k := ArgMin(result.times);
    Optimum(k, result.grainSizes[k], result.times[k])
  }

  /** A completed sweep is never empty: its first trial is grain size 1. */
  lemma SweepResultSelectable(bound: int, result: TimeResult)
    requires bound >= 1
    requires result.grainSizes == SweepValues(bound) && |result.times| == |result.grainSizes|
    ensures |result.times| > 0 && result.grainSizes[0] == 1
    ensures OnGrid(SelectOptimal(result).grainSize) && SelectOptimal(result).grainSize <= bound
  {
    var best := SelectOptimal(result);
    SweepMembers(bound, best.grainSize);
  }

  // ---------------------------------------------------------------------
  // The sweep and the whole run.

  /** The whole image as the rectangle `parallel_loop(0, height, 0, width, ...)` covers. */
  function Whole(width: int, height: int): Fragment {
    Fragment(0, height, 0, width)
  }

  /** One step of the sweep moves its current grain size from the values to come to the values done. */
  lemma SweepStep(done: seq<int>, g: int, bound: int)
    requires g <= bound
    ensures done + SweepFrom(g, bound) == (done + [g]) + SweepFrom(NextGrain(g), bound)
  {
  }

  /**
   What the sweep has stored when grain size `g` is next: the grain sizes so
   far followed by the ones still to come are the whole sweep, the vectors
   are parallel, and each time is the measurement of its own trial.
   */
  predicate Recorded(result: TimeResult, g: int, bound: int, measure: nat -> real) {
    && result.grainSizes + SweepFrom(g, bound) == SweepValues(bound)
    && |result.times| == |result.grainSizes|
    && forall i :: 0 <= i < |result.times| ==> result.times[i] == measure(i)
  }

  /** Storing the trial of grain size `g`, with its measured time, keeps the record sound. */
  lemma RecordTrial(prev: TimeResult, g: int, bound: int, measure: nat -> real)
    requires g <= bound && Recorded(prev, g, bound, measure)
    ensures Recorded(prev.Record(g, measure(|prev.times|)), NextGrain(g), bound, measure)
  {
    SweepStep(prev.grainSizes, g, bound);
    var r := prev.Record(g, measure(|prev.times|));
    assert r.grainSizes == prev.grainSizes + [g];
    assert r.times == prev.times + [measure(|prev.times|)];
  }

  /** The scratch image's writes over trials with grain sizes `gs`: each trial renders with `tiling` of its own grain size. */
  ghost function TrialWrites(tiling: int -> seq<Fragment>, gs: seq<int>): seq<Pixel> {
    if gs == [] then []
    else TrialWrites(tiling, gs[..|gs| - 1]) + AllVisits(tiling(gs[|gs| - 1]), |tiling(gs[|gs| - 1])|)
  }

  /**
   If every tiling partitions the whole image, each trial writes every pixel
   of the image exactly once: after the trials `gs`, a pixel of the image has
   been written `|gs|` times and any other pixel never.
   */
  lemma {:induction false} TrialWritesCount(tiling: int -> seq<Fragment>, gs: seq<int>, width: int, height: int, p: Pixel)
    requires 0 <= width && 0 <= height
    requires forall i :: 0 <= i < |gs| ==> Partitions(tiling(gs[i]), Whole(width, height))
    ensures Count(TrialWrites(tiling, gs), p)
            == if 0 <= p.column < width && 0 <= p.row < height then |gs| else 0
  {
    if gs != [] {
      var g := gs[|gs| - 1];
      TrialWritesCount(tiling, gs[..|gs| - 1], width, height, p);
      ExactlyOnce(tiling(g), Whole(width, height), p);
      assert multiset(TrialWrites(tiling, gs))
             == multiset(TrialWrites(tiling, gs[..|gs| - 1])) + multiset(AllVisits(tiling(g), |tiling(g)|));
    }
  }

  /** One more trial of grain size `g` appends that trial's render to the scratch log. */
  lemma TrialStep(start: seq<Pixel>, tiling: int -> seq<Fragment>, gs: seq<int>, g: int,
                  before: seq<Pixel>, after: seq<Pixel>)
    requires before == start + TrialWrites(tiling, gs)
    requires after == before + AllVisits(tiling(g), |tiling(g)|)
    ensures after == start + TrialWrites(tiling, gs + [g])
  {
    assert (gs + [g])[..|gs|] == gs;
    LogAppend(start, TrialWrites(tiling, gs), AllVisits(tiling(g), |tiling(g)|));
  }

  /**
   The grain-size exploration loop (lines 84-98): for each grain size, render
   the scratch image with that grain size's fragments and record the grain
   size and the trial's elapsed time. The scratch log shows one whole render
   per trial, each with its own grain size's tiling.
   */
  method Sweep<Z>(maxGrain: int, plane: Plane<Z>, tiling: int -> seq<Fragment>,
                  measure: nat -> real, scratch: Image) returns (result: TimeResult)
    requires forall g :: 1 <= g ==> Partitions(tiling(g), Whole(scratch.Width(), scratch.Height()))
    modifies scratch, scratch.pixels
    ensures result.grainSizes == SweepValues(maxGrain)
    ensures |result.times| == |result.grainSizes|
    ensures forall i :: 0 <= i < |result.times| ==> result.times[i] == measure(i)
    ensures forall x, y :: 0 <= x < scratch.Width() && 0 <= y < scratch.Height() ==>
              scratch.pixels[x, y] == if maxGrain >= 1 then PixelColor(plane, y, x)
                                      else old(scratch.pixels[x, y])
    ensures scratch.writes == old(scratch.writes) + TrialWrites(tiling, result.grainSizes)
  {
    result := TimeResult([], []);
    var grainSize := 1;
    ghost var rendered := false;
    while grainSize <= maxGrain
      invariant OnGrid(grainSize)
      invariant Recorded(result, grainSize, maxGrain, measure)
      invariant rendered <==> grainSize != 1
      invariant rendered ==> maxGrain >= 1
      invariant scratch.writes == old(scratch.writes) + TrialWrites(tiling, result.grainSizes)
      invariant forall x, y :: 0 <= x < scratch.Width() && 0 <= y < scratch.Height() ==>
                  scratch.pixels[x, y] == if rendered then PixelColor(plane, y, x)
                                          else old(scratch.pixels[x, y])
      decreases maxGrain - grainSize
    {
      label Trial:
      ParallelLoop(0, scratch.Height(), 0, scratch.Width(), tiling(grainSize), plane, scratch);
      TrialStep(old(scratch.writes), tiling, result.grainSizes, grainSize, old@Trial(scratch.writes), scratch.writes);
      rendered := true;
      var elapsed := measure(|result.times|);
      RecordTrial(result, grainSize, maxGrain, measure);
      ghost var done := result.grainSizes;
      result := result.Record(grainSize, elapsed);
      assert result.grainSizes == done + [grainSize];
      NextGrainOnGrid(grainSize);
      if grainSize < 10 {
        grainSize := grainSize + 1;
      } else {
        grainSize := grainSize + 10;
      }
    }
  }

  /**
   `main` without its I/O: create the scratch and the real 800 x 800 images,
   sweep, select the optimal grain size and render the real image with it.
   */
  method Autotune<Z>(plane: Plane<Z>, tiling: int -> seq<Fragment>, measure: nat -> real)
    returns (image: Image, result: TimeResult, best: Optimum)
    requires forall g :: 1 <= g ==> Partitions(tiling(g), Whole(DisplayWidth, DisplayHeight))
    ensures fresh(image) && image.Width() == DisplayWidth && image.Height() == DisplayHeight
    ensures result.grainSizes == SweepValues(DisplayHeight) && |result.times| == |result.grainSizes|
    ensures forall i :: 0 <= i < |result.times| ==> result.times[i] == measure(i)
    ensures best == SelectOptimal(result) && best.grainSize in result.grainSizes
    ensures forall x, y :: 0 <= x < DisplayWidth && 0 <= y < DisplayHeight ==>
              image.pixels[x, y] == PixelColor(plane, y, x)
    ensures image.writes == AllVisits(tiling(best.grainSize), |tiling(best.grainSize)|)
    ensures forall p :: Count(image.writes, p)
                        == if 0 <= p.column < DisplayWidth && 0 <= p.row < DisplayHeight then 1 else 0
  {
    var dummy := new Image.Create(DisplayWidth, DisplayHeight);
    image := new Image.Create(DisplayWidth, DisplayHeight);
    result := Sweep(DisplayHeight, plane, tiling, measure, dummy);
    SweepResultSelectable(DisplayHeight, result);
    best := SelectOptimal(result);
    ParallelLoop(0, DisplayHeight, 0, DisplayWidth, tiling(best.grainSize), plane, image);
    assert image.writes[0..] == image.writes;
  }
}
