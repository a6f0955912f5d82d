# MSM benchmark size-scaling driver, modelled in Dafny

This project models the driver of the multi-scalar-multiplication (MSM) micro-benchmark in
`ec/benches/msm.rs` and proves its properties. Everything is in `msm.dfy`, in three modules:

- `PowerOfTwo`: `2^k` (`1 << k`) and Rust's `usize::next_power_of_two`. The latter is the least power
  of two that is at least `n`, and `0` gives `1`.
- `SizeRanges`: the size-range generator `size_range`. It starts at `min_degree.next_power_of_two()`
  and pushes `min(max_degree, (1 << log_interval) * last)` while the last element is below
  `max_degree`. The module also holds the default bounds `BENCHMARK_*` and
  `default_size_range_bls12_381`. The method `SizeRange` keeps the source's loop and its
  accumulator. It is proved equal to the functional definition `Sizes`, and every property is proved
  about `Sizes`.
- `MsmBench`: `msm_common_setup` and the per-size loop of `msm_benches`. The random samplers are
  parameters that thread a generator state. `Draws` is the sequence a sampler yields.

The `size_range` loop ends exactly when `log_interval >= 1` or when the first element already
reaches `max_degree`. With `log_interval == 0` the interval is 1, so a first element below
`max_degree` is pushed again forever (`NoProgressWithoutInterval`). The precondition `Terminates` of
`SizeRange` and `Sizes` therefore excludes only the inputs on which the source never returns.

Two boundary behaviours of the code are kept as they are:

- When `min_degree.next_power_of_two()` exceeds `max_degree`, the loop guard is false at once. The
  result is that single rounded-up element, which is larger than `max_degree`. `SizesSingleton`
  pins this.
- The code does not check `max_degree >= min_degree`, and neither does the model.

## Model

| member | source | states |
|---|---|---|
| `PowerOfTwo.Pow2` | ec/benches/msm.rs:12 | `1 << log_interval` is at least 1, and at least 2 (the loop's growth factor) once `log_interval >= 1` |
| `PowerOfTwo.Pow2Values` | ec/benches/msm.rs:12-24 | the interval `1 << 1` at the default `log_interval` is 2; the bounds `1 << 16` and `1 << 20` are 65536 and 1048576; and `1 << 17`, the start for a minimum of 70000, is 131072 |
| `PowerOfTwo.CeilLog2` | ec/benches/msm.rs:11 | the exponent `k` it returns satisfies `n <= 2^k`, and either `k == 0` or `2^(k-1) < n` |
| `PowerOfTwo.NextPowerOfTwo` | ec/benches/msm.rs:11 | the result is a power of two and is at least `n` |
| `PowerOfTwo.NextPowerOfTwoIsLeast` | ec/benches/msm.rs:11 | no power of two that is at least `n` is smaller than `NextPowerOfTwo(n)` |
| `PowerOfTwo.NextPowerOfTwoBetween` | ec/benches/msm.rs:11 | for `2^k < n <= 2^(k+1)` the next power of two is `2^(k+1)` |
| `PowerOfTwo.NextPowerOfTwoOfPow2` | ec/benches/msm.rs:11 | a power of two is its own next power of two |
| `SizeRanges.Min` | ec/benches/msm.rs:14 | `min` returns one of its arguments, and that argument is no larger than either |
| `SizeRanges.NextSize` | ec/benches/msm.rs:14 | the element pushed after `last`, `min(max_degree, interval * last)`, never exceeds `max_degree`; its exact value per element is `SizesStep` |
| `SizeRanges.Terminates` | ec/benches/msm.rs:12-16 | the inputs on which the loop ends: `log_interval >= 1`, or the first element already at least `max_degree`; the other inputs loop for ever (`NoProgressWithoutInterval`) |
| `SizeRanges.SizesFrom` | ec/benches/msm.rs:13-16 | the elements the loop pushes from a given last element on, that element included: never empty, and starting with that element |
| `SizeRanges.Sizes` | ec/benches/msm.rs:10-18 | the value of `size_range`: never empty, and starting with `min_degree.next_power_of_two()` |
| `SizeRanges.AfterIterations` | ec/benches/msm.rs:13-15 | the last element after at most `n` iterations never decreases, and does not pass `max_degree` when it starts below it |
| `SizeRanges.StepGrows` | ec/benches/msm.rs:12-14 | with `log_interval >= 1`, a step from `1 <= last < max_degree` gives a value strictly above `last` and at most `max_degree` |
| `SizeRanges.SizeRange` | ec/benches/msm.rs:10-18 | the vector the loop builds is exactly `Sizes(log_interval, min_degree, max_degree)`, for every input on which the loop ends |
| `SizeRanges.SizesFromShape` | ec/benches/msm.rs:11-16 | from any start, the pushed sequence is non-empty, begins with the start and holds only positive sizes |
| `SizeRanges.SizesFromStep` | ec/benches/msm.rs:12-15 | from any start, each element after the first is `min(max_degree, 2^log_interval * previous)` |
| `SizeRanges.SizesFromBound` | ec/benches/msm.rs:13 | from any start, every element but the last is below `max_degree` and the last is not |
| `SizeRanges.SizesFromEndsAtMax` | ec/benches/msm.rs:13-14 | from a start at most `max_degree`, the last element is exactly `max_degree` and no element exceeds it |
| `SizeRanges.SizesFromIncreasing` | ec/benches/msm.rs:12-16 | from any start, the sequence is strictly increasing |
| `SizeRanges.SizesFromGeometric` | ec/benches/msm.rs:12-15 | from `2^e * first`, the element `i` steps on is `2^(e + i * log_interval) * first`, for all but the last |
| `SizeRanges.SizesStart` | ec/benches/msm.rs:11 | the result is never empty, its first element is `min_degree.next_power_of_two()`, and all its elements are positive |
| `SizeRanges.SizesStep` | ec/benches/msm.rs:12-15 | each element after the first is `min(max_degree, 2^log_interval * previous)` |
| `SizeRanges.SizesBound` | ec/benches/msm.rs:13 | every element but the last is below `max_degree`; the last is at least `max_degree` |
| `SizeRanges.SizesEndAtMax` | ec/benches/msm.rs:13-14 | if `min_degree.next_power_of_two() <= max_degree`, the last element is exactly `max_degree` and no element exceeds it |
| `SizeRanges.SizesSingleton` | ec/benches/msm.rs:11-13 | if `min_degree.next_power_of_two() >= max_degree`, the result is that single value, even when it exceeds `max_degree` |
| `SizeRanges.SizesIncreasing` | ec/benches/msm.rs:12-16 | the result is strictly increasing, so no size appears twice |
| `SizeRanges.SizesGeometric` | ec/benches/msm.rs:26-29 | every element but the last is `2^(i * log_interval)` times the first, which gives the doc comment's `2^min, 2^(min + interval), ...` |
| `SizeRanges.NoProgressWithoutInterval` | ec/benches/msm.rs:12-16 | with `log_interval == 0` and a first element below `max_degree`, the last element is unchanged after any number of iterations, so the guard never fails |
| `SizeRanges.DefaultConstantsArePowers` | ec/benches/msm.rs:22-24 | the default bounds are `2^16` and `2^20` |
| `SizeRanges.DefaultSizes` | ec/benches/msm.rs:22-35 | with the default constants the loop ends, and the range is `[65536, 131072, 262144, 524288, 1048576]` |
| `SizeRanges.DefaultSizeRangeBls12381` | ec/benches/msm.rs:30-36 | `default_size_range_bls12_381` returns `[65536, 131072, 262144, 524288, 1048576]` |
| `SizeRanges.TailFrom131072` | ec/benches/msm.rs:13-16 | with interval 2 and bound `1 << 20`, the loop pushes `[131072, 262144, 524288, 1048576]` from 131072 on |
| `SizeRanges.EqualBoundsSizes` | ec/benches/msm.rs:10-18 | `size_range(1, 1 << 16, 1 << 16)` is `[65536]` |
| `SizeRanges.RoundedUpMinimumSizes` | ec/benches/msm.rs:10-18 | `size_range(1, 70000, 1 << 20)` rounds the start up to 131072, giving `[131072, 262144, 524288, 1048576]` |
| `MsmBench.Draws` | ec/benches/msm.rs:44-51 | the samples of `count` successive pushes of a sampled value, threading the generator state: exactly `count` samples |
| `MsmBench.MsmCommonSetup` | ec/benches/msm.rs:38-54 | the scalars and the points both have length `degree + 1`. The scalars are the first `degree + 1` draws from the fresh generator. The points are the next `degree + 1` draws, from where the scalars left the generator |
| `MsmBench.MsmBenches` | ec/benches/msm.rs:56-66 | there is one report per size, in the order of the range. Report `i` carries `sizes[i]`, inputs of length `sizes[i] + 1` each, and the elapsed time divided by `Repetitions`, the ten timed calls of line 61. A `Report` is one line printed at line 64 |

## Left out

- Machine-word overflow: sizes are unbounded naturals. On `usize`, `next_power_of_two`, `1 << log_interval` and `interval * last` can overflow for huge inputs. The Rust code would then panic in a debug build or wrap in a release build.
- The random sampling (`test_rng`, `ScalarField::rand`, `Projective::rand`) and the conversions `into_repr` and `into_affine` are calls into the curve and field libraries. They are sampler parameters over an abstract generator state.
- MsmBench.MsmBenches: does not model the ten calls to `VariableBaseMSM::multi_scalar_mul` per size. It is an external algorithm, and the benchmark discards its results. The report records only the lengths of the two inputs that the calls receive.
- MsmBench.MsmBenches: the clock reads (`Instant::now`, `elapsed`) are a parameter `elapsed(i)`, the time measured for the i-th size. The average is a real division by 10, not the `f64` division `as_secs_f64() / 10.0` with its rounding.
- MsmBench.MsmBenches: every setup starts from the same generator state `rng`. This assumes that `test_rng()` returns the same fixed-seed state on every call; the generator itself is not modelled.
- The `println!` output format of each report line is not modelled, because it is console I/O.
- `main` is not modelled, because it is process entry only. It applies `msm_benches` to the default range, which `DefaultSizeRangeBls12381` and `MsmBenches` cover separately.
- The `criterion` crate import is not modelled, because it is scaffolding only.
