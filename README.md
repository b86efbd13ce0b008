# Mandelbrot grain-size autotuner, modelled in Dafny

The program renders an 800 x 800 Mandelbrot image with a TBB `parallel_for`
over a `blocked_range2d`. Before the final render it sweeps the grain size
1, 2, ..., 9, 10, 20, ..., 800. For each grain size it renders into a scratch
image and records the elapsed time. It then takes the grain size of the first
minimal time and renders the real image with it.

The model has four modules, following the pieces of `main.cpp`:

- `Colors`: `to_color`. Colours are RGB byte triples. `static_cast<sf::Uint8>(10 * k)` is written out as reduction modulo 256.
- `Kernel`: the loop of `mandelbrot`, over an abstract orbit. `Z` is the type of orbit points, `step(z, c)` stands for `z * z + c`, and `diverged(z)` stands for `norm(z) >= 4`. The module also holds an instance over exact complex arithmetic on reals, used for the known values 0, -1, 1 and 3. For those inputs every intermediate value is a small integer, so `double` arithmetic agrees with it exactly.
- `Imaging`: `sf::Image` is a class over an `array2<Color>` indexed as `setPixel` is, by (column, row). It also keeps a ghost log of every coordinate written. This module holds the tile body of the `parallel_for` lambda (`FillFragment`, whose inner loop is `FillRow`), the `parallel_for` run sequentially over a given list of fragments (`ParallelFor`), and `parallel_loop` (`ParallelLoop`). `ParallelLoop` takes any list of fragments that partitions the rectangle. It proves that each pixel of the rectangle is written exactly once and that nothing outside it changes.
- `Autotune`: the `TimeResult` record and the sweep loop (`Sweep`). `SweepValues` is the reference definition of the visited grain sizes. `std::min_element` is modelled as `ArgMin`, followed by the read-off of the optimum (`SelectOptimal`). `Autotune` is `main` without its I/O.

These inputs are parameters:

- Elapsed times come from an oracle `measure(i)`, the time of trial `i`.
- The fragments TBB makes for grain size `g` come from an oracle `tiling(g)`, which must partition the whole image.
- The pixel-to-complex mapping is the function `sample(row, column)` of a `Plane`.

Some behaviour of the code is easy to misread; the model states it outright:

- `z` starts at `c`, so orbit point 0 is `c` itself. `mandelbrot(3 + 0i)` is therefore 0: `norm(3) = 9` fails `< 4.` before the first iteration (`ThreeEscapesAtOnce`).
- The cast to `sf::Uint8` wraps modulo 256. `to_color(26)` is red 4 and `to_color(255)` is red 246 (`ToColorWrapsAt26`).
- Because of the wrap, counts 0 and 128 are drawn black, like points in the set (`ToColorBlackIff`).
- `to_color` forms `10 * k` only below 256. Every larger count, up to the largest `int`, gives black (`ToColorOfInt32Max`).
- The code itself never rejects a grain size of 0 or less. TBB's `blocked_range` demands a positive grain, and the sweep only produces positive ones. The model therefore asks `tiling` to partition only for `g >= 1`.

## Model

| member | source | states |
|---|---|---|
| Colors.ToUint8 | main.cpp:32 | the cast to `sf::Uint8` gives the byte congruent to its argument modulo 256, and leaves 0..255 unchanged |
| Colors.ToColor | main.cpp:30-34 | green and blue are always 0; a count of 256 or more gives black; only counts below 256 must keep `10 * k` inside `int` |
| Colors.ToColorRed | main.cpp:32 | below 256, the red channel is `(10 * k) mod 256` |
| Colors.ToColorLinearRamp | main.cpp:32 | counts 0..25 give the undistorted ramp red = 10k |
| Colors.ToColorWrapsAt26 | main.cpp:32 | count 26 gives red 4 and count 255 gives red 246 (wrap, not saturation) |
| Colors.ToColorPeriodic | main.cpp:32 | below the limit, adding 128 to a count does not change its colour |
| Colors.ToColorOfInt32Max | main.cpp:30-34 | the largest `int` is an admissible count and gives black |
| Colors.ToColorBlackIff | main.cpp:32-33 | a colour is black exactly when the count is 256 or more, or divisible by 128 |
| Colors.RedZeroIff | main.cpp:32 | `10 * k` truncates to 0 exactly when k is a multiple of 128 |
| Kernel.Orbit | main.cpp:23-25 | orbit point 0 is `c` itself; point n + 1 is `step` applied to point n and `c` |
| Kernel.EscapeFrom | main.cpp:24 | scanning the orbit from index i gives a count in [i, 256] |
| Kernel.EscapeCount | main.cpp:20-28 | the reference count is at most 256 |
| Kernel.EscapeFromIsFirst | main.cpp:24-27 | if nothing diverges before i, the scan from i gives the first divergent index, or 256 |
| Kernel.EscapeCountIsFirst | main.cpp:22-27 | the count is in [0, 256]; every earlier orbit point is bounded; below 256 the point at the count has diverged |
| Kernel.FirstEscapeUnique | main.cpp:22-27 | any index with the first-escape property equals the count |
| Kernel.EscapeCountAtLimit | main.cpp:24 | the count is 256 if and only if none of orbit points 0..255 diverges |
| Kernel.DivergedInputGivesZero | main.cpp:23-24 | since `z` starts at `c`, an input that has already diverged gives 0 |
| Kernel.Mandelbrot | main.cpp:20-28 | the loop returns the first divergent orbit index (orbit point 0 is c), or 256, and equals the reference count |
| Kernel.SquarePlus | main.cpp:25 | `z * z + c` on exact complex numbers; on the real axis it is `x * x + a` and stays on the axis |
| Kernel.Norm | main.cpp:24 | `norm(z)`, the squared magnitude, is never negative |
| Kernel.SquareAtLeastFour | main.cpp:24 | a real x has `x * x >= 4` exactly when x <= -2 or x >= 2 |
| Kernel.Diverged | main.cpp:24 | the negated loop test `norm(z) < 4.`; on the real axis it holds exactly when x <= -2 or x >= 2 |
| Kernel.CountOf | main.cpp:20-28 | `mandelbrot` on exact complex inputs is at most 256, and 0 for an input that has already diverged |
| Kernel.BoundedOrbitReachesLimit | main.cpp:24 | an orbit that stays bounded from index i on makes the scan from i reach 256 |
| Kernel.OriginOrbit | main.cpp:23-25 | every orbit point of 0 is 0 |
| Kernel.OriginNeverEscapes | main.cpp:20-28 | `mandelbrot(0)` is 256 |
| Kernel.TwoCycleOrbit | main.cpp:23-25 | if one step takes c to b and the next takes b back to c, the even orbit points are c and the odd ones b |
| Kernel.MinusOneOrbit | main.cpp:23-25 | the orbit of -1 is -1 at even indices and 0 at odd ones |
| Kernel.MinusOneNeverEscapes | main.cpp:20-28 | `mandelbrot(-1)` is 256 (the orbit cycles -1, 0) |
| Kernel.ThreeEscapesAtOnce | main.cpp:23-24 | `mandelbrot(3)` is 0 |
| Kernel.OneEscapesAtOne | main.cpp:22-27 | `mandelbrot(1)` is 1 (the orbit is 1, 2, and norm 4 already counts as diverged) |
| Imaging.PixelColor | main.cpp:50-51 | the colour the body gives a pixel, `to_color(mandelbrot(...))` of its own point, is a pure red shade |
| Imaging.PixelColorInSet | main.cpp:50-51 | a pixel whose orbit stays bounded for 256 points is drawn black |
| Imaging.CountRowPixels | main.cpp:48-51 | one row of the tile body writes each column of [colBegin, colEnd) once and nothing else |
| Imaging.CountTilePixels | main.cpp:46-52 | the nested loops write each pixel of the tile once and nothing else |
| Imaging.VisitsOnce | main.cpp:46-52 | the body for one fragment writes exactly the fragment's pixels, each once |
| Imaging.CountAllVisits | main.cpp:42-55 | across several fragments, a pixel is written once per fragment containing it |
| Imaging.HitsAtMostOne | main.cpp:44 | pairwise disjoint fragments contain any pixel at most once |
| Imaging.PartitionHits | main.cpp:44 | in a partition, a pixel of the rectangle is in exactly one fragment and any other pixel in none |
| Imaging.ExactlyOnce | main.cpp:42-55 | over a partition, every pixel of the rectangle is written exactly once and no other pixel is written |
| Imaging.EmptyRangeWritesNothing | main.cpp:42-55 | a partition of an empty rectangle writes nothing |
| Imaging.Image.Create | main.cpp:75-78 | a new image has the requested size, is all black and has no writes |
| Imaging.Image.SetPixel | main.cpp:51 | `setPixel(column, row, c)` changes exactly that pixel and logs the write |
| Imaging.FillRow | main.cpp:48-51 | the inner loop colours columns [colBegin, colEnd) of its row with their kernel colours, leaves all other pixels alone and writes them left to right |
| Imaging.FillFragment | main.cpp:46-52 | every pixel of the fragment gets `to_color(mandelbrot(...))` of its own coordinates; others keep their colour; writes happen in row-major order |
| Imaging.LogStep | main.cpp:42-55 | running the body on one more fragment appends that fragment's visits to the write log |
| Imaging.ParallelFor | main.cpp:42-55 | run sequentially, the body colours exactly the pixels some fragment contains |
| Imaging.ParallelLoop | main.cpp:37-56 | over a partition, the rectangle holds the kernel's colours, the rest is unchanged, and each rectangle pixel is written exactly once |
| Autotune.TimeResult.Record | main.cpp:95-96 | the two `push_back`s of a `TimeResult` (main.cpp:15-18) add the grain size and the time at the end of their vectors, one entry each, and keep every earlier entry |
| Autotune.NextGrain | main.cpp:84 | the increment strictly increases the grain size |
| Autotune.NextGrainOnGrid | main.cpp:84 | the increment goes from one grid value (1..9 or a multiple of 10) to the next one, skipping none |
| Autotune.SweepFrom | main.cpp:84 | the sweep from g visits something exactly when g is at most the bound, and then starts at g |
| Autotune.SweepValues | main.cpp:84 | the sweep visits something exactly when the bound is at least 1, and then starts at 1 |
| Autotune.SweepFromMembers | main.cpp:84 | from a grid value g, every grid value in [g, bound] is visited, and nothing else |
| Autotune.SweepMembers | main.cpp:84 | v is visited if and only if it is 1..9 or a positive multiple of 10, and at most the bound |
| Autotune.SweepIncreasing | main.cpp:84 | the visited grain sizes strictly increase and lie in [1, bound] |
| Autotune.SweepLength | main.cpp:84 | the number of trials is the bound when it is below 10, and 9 + bound / 10 from 10 on |
| Autotune.SweepLast | main.cpp:84 | the last trial is the largest grid value not above the bound |
| Autotune.SweepFromUnits | main.cpp:84 | below 10 the sweep steps by one: its i-th value from g is g + i |
| Autotune.SweepOf800 | main.cpp:63-84 | with bound 800 there are 89 trials, from 1 to 800 |
| Autotune.SweepOf25 | main.cpp:84 | with bound 25 the sweep is exactly 1..9, 10, 20 |
| Autotune.ArgMin | main.cpp:101 | the result is the first index of a minimal time |
| Autotune.ArgMinUnique | main.cpp:101 | minimality plus first-on-ties determine the index |
| Autotune.SelectOptimal | main.cpp:101-103 | the minimal time is at most every recorded time, no earlier time equals it, and the grain size comes from the same index |
| Autotune.SweepResultSelectable | main.cpp:84-103 | a completed sweep of bound at least 1 is non-empty (its first trial is 1), and the selected grain size is a visited one |
| Autotune.SweepStep | main.cpp:84 | one turn of the loop moves its grain size from the values still to come to the values done |
| Autotune.RecordTrial | main.cpp:84-96 | storing a trial keeps the record sound: grain sizes done plus those to come are the whole sweep, the vectors stay parallel, and each time is its own trial's measurement |
| Autotune.TrialStep | main.cpp:84-88 | one more trial appends one render with that trial's own tiling to the scratch image's write log |
| Autotune.TrialWritesCount | main.cpp:84-88 | when every tiling partitions the image, after the trials `gs` each image pixel has been written once per trial and no other pixel at all |
| Autotune.Sweep | main.cpp:84-98 | `grain_sizes` is the sweep sequence, `times` is one measured time per trial in the same order, the scratch image ends up fully rendered, and its write log is one whole render per trial, each with that trial's grain size's fragments, in sweep order |
| Autotune.Autotune | main.cpp:59-106 | runs the sweep up to the image height 800 and selects the optimum; the new image's write log is exactly one render with the optimal grain size's fragments, so every pixel is written once with the kernel's colour |

## Left out

- TBB's `parallel_for`, `blocked_range2d` splitting and `simple_partitioner` (main.cpp:41-44, 55): how ranges are split and tasks scheduled is inside the library. The fragments are an input that must partition the rectangle, and they are processed one after another. The result holds for every order of the fragments, so any scheduling of disjoint tasks gives the same image.
- Complex floating-point arithmetic, `norm`, `delta_x`/`delta_y` and the pixel-to-complex mapping (main.cpp:12, 25, 50, 66-72): these are abstract functions. The exact-real instance agrees with `double` only on the small integral inputs named above.
- `std::chrono` timing (main.cpp:86-92): elapsed times come from the `measure` oracle.
- Image file output, `std::cout`, and the two result files `optimal_values.txt` and `timing_results.txt` (main.cpp:97, 110-126): I/O.
- Colors.ToColor: the alpha channel of `sf::Color` is left out; it is always 255 here.
- Colors.ToColor: a count below 256 must keep `10 * k` inside 32-bit `int`, because signed overflow is undefined in C++; this excludes only counts below -214748364. Counts of 256 or more never form the product and are all admitted. Every count the kernel yields (0..256) qualifies.
- Autotune.Sweep: grain sizes are unbounded integers. With the source's bound of 800, `grain_size += 10` cannot overflow.
- Autotune.Autotune: the measured times are not tied to the renders they time. The scratch image's contents after the sweep are discarded, as in the source.
