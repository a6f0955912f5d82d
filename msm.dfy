// A model of the size-scaling driver of the MSM benchmark: the geometric
// size-range generator, its default configuration, the shape of the random
// benchmark inputs and the per-size report loop.

/** Powers of two and Rust's `usize::next_power_of_two`, on unbounded naturals. */
module PowerOfTwo {

  /** 2^k, the value of `1 << k`. */
  function Pow2(k: nat): (r: nat)
    ensures r >= 1
    ensures k >= 1 ==> r >= 2
  {
    if k == 0 then 1 else 2 * Pow2(k - 1)
  }

  lemma {:induction false} Pow2Add(a: nat, b: nat)
    ensures Pow2(a + b) == Pow2(a) * Pow2(b)
  {
    if a > 0 {
      Pow2Add(a - 1, b);
      assert Pow2(a + b) == 2 * Pow2(a - 1 + b);
    }
  }

  lemma {:induction false} Pow2Monotonic(a: nat, b: nat)
    requires a <= b
    ensures Pow2(a) <= Pow2(b)
  {
    if a < b {
      Pow2Monotonic(a, b - 1);
    }
  }

  /** The least k with n <= 2^k. */
  function CeilLog2(n: nat): (k: nat)
    ensures n <= Pow2(k)
    ensures k == 0 || Pow2(k - 1) < n
    decreases n
  {
    if n <= 1 then 0 else CeilLog2((n + 1) / 2) + 1
  }

  /**
   * The smallest power of two that is at least n; as in Rust, 0 gives 1.
   * Minimality is stated by NextPowerOfTwoIsLeast.
   */
  function NextPowerOfTwo(n: nat): (r: nat)
    ensures n <= r
    ensures exists k: nat :: r == Pow2(k)
  {
    Pow2(CeilLog2(n))
  }

  /** No power of two that is at least n lies below NextPowerOfTwo(n). */
  lemma NextPowerOfTwoIsLeast(n: nat, k: nat)
    requires n <= Pow2(k)
    ensures NextPowerOfTwo(n) <= Pow2(k)
  {
    var c := CeilLog2(n);
    if k < c {
      Pow2Monotonic(k, c - 1);
      assert false;
    }
    Pow2Monotonic(c, k);
  }

  /** Strictly above 2^k and at most 2^(k+1), the next power of two is 2^(k+1). */
  lemma NextPowerOfTwoBetween(n: nat, k: nat)
    requires Pow2(k) < n <= Pow2(k + 1)
    ensures NextPowerOfTwo(n) == Pow2(k + 1)
  {
    var c := CeilLog2(n);
    if c <= k {
      Pow2Monotonic(c, k);
      assert false;
    }
    if c > k + 1 {
      Pow2Monotonic(k + 1, c - 1);
      assert false;
    }
  }

  /** The powers of two that occur as benchmark bounds. */
  lemma Pow2Values()
    ensures Pow2(1) == 2 && Pow2(16) == 65536 && Pow2(17) == 131072 && Pow2(20) == 1048576
  {
    assert Pow2(2) == 4;
    assert Pow2(4) == 4 * Pow2(2);
    assert Pow2(6) == 4 * Pow2(4);
    assert Pow2(8) == 4 * Pow2(6);
    assert Pow2(10) == 4 * Pow2(8);
    assert Pow2(12) == 4 * Pow2(10);
    assert Pow2(14) == 4 * Pow2(12);
    assert Pow2(16) == 4 * Pow2(14);
    assert Pow2(18) == 4 * Pow2(16);
    assert Pow2(20) == 4 * Pow2(18);
  }

  /** A power of two is its own next power of two. */
  lemma NextPowerOfTwoOfPow2(k: nat)
    ensures NextPowerOfTwo(Pow2(k)) == Pow2(k)
  {
    NextPowerOfTwoIsLeast(Pow2(k), k);
  }
}

/** `size_range` (ec/benches/msm.rs) and the default configuration it is applied to. */
module SizeRanges {
  import opened PowerOfTwo

  /** `std::cmp::min` on sizes. */
  function Min(a: nat, b: nat): (r: nat)
    ensures r <= a && r <= b
    ensures r == a || r == b
  {
    if a <= b then a else b
  }

  /** The element pushed after `last`: `min(maxDegree, (1 << logInterval) * last)`. */
  function NextSize(logInterval: nat, last: nat, maxDegree: nat): (r: nat)
    ensures r <= maxDegree
  {
    Min(maxDegree, Pow2(logInterval) * last)
  }

  /** A step from below `maxDegree` with an interval of at least 2 strictly grows. */
  lemma StepGrows(logInterval: nat, last: nat, maxDegree: nat)
    requires logInterval >= 1 && 1 <= last < maxDegree
    ensures last < NextSize(logInterval, last, maxDegree) <= maxDegree
  {
  }

  /**
   * The loop of `size_range` ends exactly when the interval is at least 2 or the
   * first element already reaches `maxDegree`; with `logInterval == 0` and
   * `first < maxDegree` every step pushes `first` again (NoProgressWithoutInterval).
   */
  predicate Terminates(logInterval: nat, first: nat, maxDegree: nat) {
    logInterval >= 1 || first >= maxDegree
  }

  /** The elements the loop pushes once `last` is the last element, `last` included. */
  function SizesFrom(logInterval: nat, last: nat, maxDegree: nat): (s: seq<nat>)
    requires last >= 1
    requires Terminates(logInterval, last, maxDegree)
    ensures |s| >= 1 && s[0] == last
    decreases if last < maxDegree then maxDegree - last else 0
  {
    if last < maxDegree then
      StepGrows(logInterval, last, maxDegree);
      [last] + SizesFrom(logInterval, NextSize(logInterval, last, maxDegree), maxDegree)
    else
      [last]
  }

  /** The value of `size_range(logInterval, minDegree, maxDegree)`. */
  function Sizes(logInterval: nat, minDegree: nat, maxDegree: nat): (s: seq<nat>)
    requires Terminates(logInterval, NextPowerOfTwo(minDegree), maxDegree)
    ensures |s| >= 1 && s[0] == NextPowerOfTwo(minDegree)
  {
    SizesFrom(logInterval, NextPowerOfTwo(minDegree), maxDegree)
  }

  /** `size_range`: push clamped geometric steps while the last element is below `maxDegree`. */
  method SizeRange(logInterval: nat, minDegree: nat, maxDegree: nat) returns (toRet: seq<nat>)
    requires Terminates(logInterval, NextPowerOfTwo(minDegree), maxDegree)
    ensures toRet == Sizes(logInterval, minDegree, maxDegree)
  {
    var last := NextPowerOfTwo(minDegree);
    toRet := [last];
    var interval := Pow2(logInterval);
    ghost var done: seq<nat> := [];
    // `last` is always `*toRet.last().unwrap()`
    while last < maxDegree
      invariant toRet == done + [last]
      invariant last >= 1 && Terminates(logInterval, last, maxDegree)
      invariant done + SizesFrom(logInterval, last, maxDegree) == Sizes(logInterval, minDegree, maxDegree)
      decreases maxDegree - last
    {
      var nextElem := Min(maxDegree, interval * last);
      assert nextElem == NextSize(logInterval, last, maxDegree);
      StepGrows(logInterval, last, maxDegree);
      assert SizesFrom(logInterval, last, maxDegree) == [last] + SizesFrom(logInterval, nextElem, maxDegree);
      assert done + ([last] + SizesFrom(logInterval, nextElem, maxDegree))
             == (done + [last]) + SizesFrom(logInterval, nextElem, maxDegree);
      done := done + [last];
      toRet := toRet + [nextElem];
      last := nextElem;
    }
  }

  // ---- Properties of the generated sequence, stated on SizesFrom and then on Sizes.

  /** Every element is positive, the first is `last`, and the sequence is never empty. */
  lemma {:induction false} SizesFromShape(logInterval: nat, last: nat, maxDegree: nat)
    requires last >= 1
    requires Terminates(logInterval, last, maxDegree)
    ensures var s := SizesFrom(logInterval, last, maxDegree);
      |s| >= 1 && s[0] == last && forall i :: 0 <= i < |s| ==> s[i] >= 1
    decreases if last < maxDegree then maxDegree - last else 0
  {
    if last < maxDegree {
      StepGrows(logInterval, last, maxDegree);
      SizesFromShape(logInterval, NextSize(logInterval, last, maxDegree), maxDegree);
    }
  }

  /** Each element after the first is the clamped geometric step from its predecessor. */
  lemma {:induction false} SizesFromStep(logInterval: nat, last: nat, maxDegree: nat)
    requires last >= 1
    requires Terminates(logInterval, last, maxDegree)
    ensures var s := SizesFrom(logInterval, last, maxDegree);
      forall i :: 1 <= i < |s| ==> s[i] == Min(maxDegree, Pow2(logInterval) * s[i - 1])
    decreases if last < maxDegree then maxDegree - last else 0
  {
    if last < maxDegree {
      StepGrows(logInterval, last, maxDegree);
      var next := NextSize(logInterval, last, maxDegree);
      SizesFromStep(logInterval, next, maxDegree);
      SizesFromShape(logInterval, next, maxDegree);
    }
  }

  /** Every element but the last is below `maxDegree`; the last one is not. */
  lemma {:induction false} SizesFromBound(logInterval: nat, last: nat, maxDegree: nat)
    requires last >= 1
    requires Terminates(logInterval, last, maxDegree)
    ensures var s := SizesFrom(logInterval, last, maxDegree);
      |s| >= 1 && s[|s| - 1] >= maxDegree && forall i :: 0 <= i < |s| - 1 ==> s[i] < maxDegree
    decreases if last < maxDegree then maxDegree - last else 0
  {
    if last < maxDegree {
      StepGrows(logInterval, last, maxDegree);
      SizesFromBound(logInterval, NextSize(logInterval, last, maxDegree), maxDegree);
    }
  }

  /** Starting at or below `maxDegree`, the sequence ends at exactly `maxDegree` and never passes it. */
  lemma {:induction false} SizesFromEndsAtMax(logInterval: nat, last: nat, maxDegree: nat)
    requires 1 <= last <= maxDegree
    requires Terminates(logInterval, last, maxDegree)
    ensures var s := SizesFrom(logInterval, last, maxDegree);
      |s| >= 1 && s[|s| - 1] == maxDegree && forall i :: 0 <= i < |s| ==> s[i] <= maxDegree
    decreases maxDegree - last
  {
    if last < maxDegree {
      StepGrows(logInterval, last, maxDegree);
      SizesFromEndsAtMax(logInterval, NextSize(logInterval, last, maxDegree), maxDegree);
    }
  }

  /** The sequence is strictly increasing. */
  lemma {:induction false} SizesFromIncreasing(logInterval: nat, last: nat, maxDegree: nat)
    requires last >= 1
    requires Terminates(logInterval, last, maxDegree)
    ensures var s := SizesFrom(logInterval, last, maxDegree);
      forall i, j :: 0 <= i < j < |s| ==> s[i] < s[j]
    decreases if last < maxDegree then maxDegree - last else 0
  {
    if last < maxDegree {
      StepGrows(logInterval, last, maxDegree);
      var next := NextSize(logInterval, last, maxDegree);
      SizesFromIncreasing(logInterval, next, maxDegree);
      SizesFromShape(logInterval, next, maxDegree);
      var s := SizesFrom(logInterval, last, maxDegree);
      var rest := SizesFrom(logInterval, next, maxDegree);
      assert s == [last] + rest;
      forall i, j | 0 <= i < j < |s| ensures s[i] < s[j] {
        if i == 0 {
          assert s[j] == rest[j - 1];
          assert rest[0] <= rest[j - 1];
        } else {
          assert s[i] == rest[i - 1] && s[j] == rest[j - 1];
        }
      }
    }
  }

  /** One unclamped step multiplies `2^e * first` by `2^logInterval`. */
  lemma ScaleStep(logInterval: nat, e: nat, first: nat)
    ensures Pow2(logInterval) * (Pow2(e) * first) == Pow2(e + logInterval) * first
  {
    Pow2Add(e, logInterval);
    assert Pow2(logInterval) * (Pow2(e) * first) == (Pow2(e) * Pow2(logInterval)) * first;
  }

  /**
   * From `last == 2^e * first`, the element i steps further on, while still below
   * `maxDegree`, is `2^(e + i * logInterval) * first`.
   */
  lemma {:induction false} SizesFromGeometric(logInterval: nat, first: nat, e: nat, last: nat, maxDegree: nat)
    requires last >= 1
    requires Terminates(logInterval, last, maxDegree)
    requires last == Pow2(e) * first
    ensures forall i :: 0 <= i < |SizesFrom(logInterval, last, maxDegree)| - 1 ==>
      SizesFrom(logInterval, last, maxDegree)[i] == Pow2(e + i * logInterval) * first
    decreases if last < maxDegree then maxDegree - last else 0
  {
    if last < maxDegree {
      StepGrows(logInterval, last, maxDegree);
      var next := NextSize(logInterval, last, maxDegree);
      var s := SizesFrom(logInterval, last, maxDegree);
      var rest := SizesFrom(logInterval, next, maxDegree);
      assert s == [last] + rest;
      if next < maxDegree {
        ScaleStep(logInterval, e, first);
        SizesFromGeometric(logInterval, first, e + logInterval, next, maxDegree);
        assert forall k :: 0 <= k < |rest| - 1 ==> rest[k] == Pow2(e + logInterval + k * logInterval) * first;
        forall i | 1 <= i < |s| - 1 ensures s[i] == Pow2(e + i * logInterval) * first {
          assert s[i] == rest[i - 1] == Pow2(e + logInterval + (i - 1) * logInterval) * first;
          assert e + logInterval + (i - 1) * logInterval == e + i * logInterval;
        }
      } else {
        assert |s| == 2;
      }
    }
  }

  // ---- The same properties for size_range itself.

  /** The result is never empty and starts at the next power of two of `minDegree`. */
  lemma SizesStart(logInterval: nat, minDegree: nat, maxDegree: nat)
    requires Terminates(logInterval, NextPowerOfTwo(minDegree), maxDegree)
    ensures var s := Sizes(logInterval, minDegree, maxDegree);
      |s| >= 1 && s[0] == NextPowerOfTwo(minDegree) && forall i :: 0 <= i < |s| ==> s[i] >= 1
  {
    SizesFromShape(logInterval, NextPowerOfTwo(minDegree), maxDegree);
  }

  /** Each element after the first is `min(maxDegree, 2^logInterval * previous)`. */
  lemma SizesStep(logInterval: nat, minDegree: nat, maxDegree: nat)
    requires Terminates(logInterval, NextPowerOfTwo(minDegree), maxDegree)
    ensures var s := Sizes(logInterval, minDegree, maxDegree);
      forall i :: 1 <= i < |s| ==> s[i] == Min(maxDegree, Pow2(logInterval) * s[i - 1])
  {
    var s := Sizes(logInterval, minDegree, maxDegree);
    assert s == SizesFrom(logInterval, NextPowerOfTwo(minDegree), maxDegree);
    SizesFromStep(logInterval, NextPowerOfTwo(minDegree), maxDegree);
  }

  /** The loop stops at the first element that is not below `maxDegree`. */
  lemma SizesBound(logInterval: nat, minDegree: nat, maxDegree: nat)
    requires Terminates(logInterval, NextPowerOfTwo(minDegree), maxDegree)
    ensures var s := Sizes(logInterval, minDegree, maxDegree);
      |s| >= 1 && s[|s| - 1] >= maxDegree && forall i :: 0 <= i < |s| - 1 ==> s[i] < maxDegree
  {
    SizesFromBound(logInterval, NextPowerOfTwo(minDegree), maxDegree);
  }

  /** When the rounded-up minimum does not pass `maxDegree`, the result ends at exactly `maxDegree`. */
  lemma SizesEndAtMax(logInterval: nat, minDegree: nat, maxDegree: nat)
    requires NextPowerOfTwo(minDegree) <= maxDegree
    requires Terminates(logInterval, NextPowerOfTwo(minDegree), maxDegree)
    ensures var s := Sizes(logInterval, minDegree, maxDegree);
      |s| >= 1 && s[|s| - 1] == maxDegree && forall i :: 0 <= i < |s| ==> s[i] <= maxDegree
  {
    SizesFromEndsAtMax(logInterval, NextPowerOfTwo(minDegree), maxDegree);
  }

  /**
   * When the rounded-up minimum reaches `maxDegree`, the loop does not run and the
   * result is that one element, even where it exceeds `maxDegree`.
   */
  lemma SizesSingleton(logInterval: nat, minDegree: nat, maxDegree: nat)
    requires NextPowerOfTwo(minDegree) >= maxDegree
    ensures Sizes(logInterval, minDegree, maxDegree) == [NextPowerOfTwo(minDegree)]
  {
  }

  /** The result is strictly increasing, so it holds no size twice. */
  lemma SizesIncreasing(logInterval: nat, minDegree: nat, maxDegree: nat)
    requires Terminates(logInterval, NextPowerOfTwo(minDegree), maxDegree)
    ensures var s := Sizes(logInterval, minDegree, maxDegree);
      forall i, j :: 0 <= i < j < |s| ==> s[i] < s[j]
  {
    var s := Sizes(logInterval, minDegree, maxDegree);
    assert s == SizesFrom(logInterval, NextPowerOfTwo(minDegree), maxDegree);
    SizesFromIncreasing(logInterval, NextPowerOfTwo(minDegree), maxDegree);
  }

  /** Every element but the last is `2^(i * logInterval)` times the first: `2^min, 2^(min + interval), ...`. */
  lemma SizesGeometric(logInterval: nat, minDegree: nat, maxDegree: nat)
    requires Terminates(logInterval, NextPowerOfTwo(minDegree), maxDegree)
    ensures var s := Sizes(logInterval, minDegree, maxDegree);
      forall i :: 0 <= i < |s| - 1 ==> s[i] == Pow2(i * logInterval) * NextPowerOfTwo(minDegree)
  {
    var first := NextPowerOfTwo(minDegree);
    var s := Sizes(logInterval, minDegree, maxDegree);
    assert s == SizesFrom(logInterval, first, maxDegree);
    SizesFromGeometric(logInterval, first, 0, first, maxDegree);
  }

  /** The last element after at most `n` iterations of the loop that starts from `last`. */
  function AfterIterations(logInterval: nat, last: nat, maxDegree: nat, n: nat): (r: nat)
    ensures last <= r
    ensures last < maxDegree ==> r <= maxDegree
    decreases n
  {
    if n == 0 || last >= maxDegree then last
    else AfterIterations(logInterval, NextSize(logInterval, last, maxDegree), maxDegree, n - 1)
  }

  /**
   * With `logInterval == 0` the interval is 1, so the loop guard still holds after any
   * number of iterations from a first element below `maxDegree`: the loop never ends.
   */
  lemma {:induction false} NoProgressWithoutInterval(first: nat, maxDegree: nat, n: nat)
    requires first < maxDegree
    ensures AfterIterations(0, first, maxDegree, n) == first
  {
    if n > 0 {
      assert NextSize(0, first, maxDegree) == first;
      NoProgressWithoutInterval(first, maxDegree, n - 1);
    }
  }

  // ---- The default configuration.

  /** `BENCHMARK_MIN_DEGREE = 1 << 16`. */
  const BenchmarkMinDegree: nat := 65536
  /** `BENCHMARK_MAX_DEGREE_BLS12_381 = 1 << 20`. */
  const BenchmarkMaxDegreeBls12381: nat := 1048576
  /** `BENCHMARK_LOG_INTERVAL_DEGREE = 1`. */
  const BenchmarkLogIntervalDegree: nat := 1

  lemma DefaultConstantsArePowers()
    ensures BenchmarkMinDegree == Pow2(16) && BenchmarkMaxDegreeBls12381 == Pow2(20)
  {
    Pow2Values();
  }

  /** From 2^17 with an interval of 2, the steps up to 2^20. */
  lemma TailFrom131072()
    ensures SizesFrom(1, 131072, 1048576) == [131072, 262144, 524288, 1048576]
  {
  }

  /** The default range is `[2^16, 2^17, 2^18, 2^19, 2^20]`. */
  lemma DefaultSizes()
    ensures Terminates(BenchmarkLogIntervalDegree, NextPowerOfTwo(BenchmarkMinDegree), BenchmarkMaxDegreeBls12381)
    ensures Sizes(BenchmarkLogIntervalDegree, BenchmarkMinDegree, BenchmarkMaxDegreeBls12381)
            == [65536, 131072, 262144, 524288, 1048576]
  {
    Pow2Values();
    NextPowerOfTwoOfPow2(16);
    TailFrom131072();
    assert SizesFrom(1, 65536, 1048576) == [65536] + SizesFrom(1, 131072, 1048576);
  }

  /** `default_size_range_bls12_381`. */
  method DefaultSizeRangeBls12381() returns (sizes: seq<nat>)
    ensures sizes == [65536, 131072, 262144, 524288, 1048576]
  {
    DefaultSizes();
    sizes := SizeRange(BenchmarkLogIntervalDegree, BenchmarkMinDegree, BenchmarkMaxDegreeBls12381);
  }

  /** Equal bounds of 2^16 give the one size 2^16. */
  lemma EqualBoundsSizes()
    ensures Terminates(1, NextPowerOfTwo(65536), 65536)
    ensures Sizes(1, 65536, 65536) == [65536]
  {
    Pow2Values();
    NextPowerOfTwoOfPow2(16);
  }

  /** A minimum that is not a power of two is rounded up: 70000 starts at 2^17. */
  lemma RoundedUpMinimumSizes()
    ensures Terminates(1, NextPowerOfTwo(70000), 1048576)
    ensures Sizes(1, 70000, 1048576) == [131072, 262144, 524288, 1048576]
  {
    Pow2Values();
    NextPowerOfTwoBetween(70000, 16);
    TailFrom131072();
  }
}

/** `msm_common_setup` and the per-size loop of `msm_benches`. */
module MsmBench {
  import opened SizeRanges

  /**
   * `count` successive samples drawn from `sample`, threading the generator state;
   * returns the samples in drawing order and the state after the last draw.
   */
  function Draws<R, T>(count: nat, rng: R, sample: R -> (T, R)): (r: (seq<T>, R))
    ensures |r.0| == count
  {
    if count == 0 then ([], rng)
    else
      var (xs, state) := Draws(count - 1, rng, sample);
      var (x, after) := sample(state);
      (xs + [x], after)
  }

  /**
   * `msm_common_setup`: `degree + 1` scalars drawn from a fresh generator, then
   * `degree + 1` points drawn from the same generator where the scalars left it.
   * The samplers stand for `ScalarField::rand(..).into_repr()` and
   * `Projective::rand(..).into_affine()`; `rng` is the state `test_rng()` returns.
   */
  method MsmCommonSetup<R, S, P>(degree: nat, rng: R, randScalar: R -> (S, R), randPoint: R -> (P, R))
    returns (randomScalars: seq<S>, randomPoints: seq<P>)
    ensures |randomScalars| == degree + 1 && |randomPoints| == degree + 1
    ensures randomScalars == Draws(degree + 1, rng, randScalar).0
    ensures randomPoints == Draws(degree + 1, Draws(degree + 1, rng, randScalar).1, randPoint).0
  {
    var state := rng;
    randomScalars := [];
    for i := 0 to degree + 1
      invariant (randomScalars, state) == Draws(i, rng, randScalar)
    {
      var (x, after) := randScalar(state);
      randomScalars := randomScalars + [x];
      state := after;
    }
    ghost var afterScalars := state;
    randomPoints := [];
    for i := 0 to degree + 1
      invariant (randomPoints, state) == Draws(i, afterScalars, randPoint)
    {
      var (p, after) := randPoint(state);
      randomPoints := randomPoints + [p];
      state := after;
    }
  }

  /** The number of timed `multi_scalar_mul` calls per size. */
  const Repetitions: nat := 10

  /**
   * One printed line of `msm_benches`: the size, the lengths of the two inputs
   * handed to `multi_scalar_mul`, and the elapsed time divided by the repetitions.
   */
  datatype Report = Report(size: nat, scalarCount: nat, pointCount: nat, averageSeconds: real)

  /**
   * `msm_benches`: for each size in order, set up fresh inputs from the generator
   * state `rng` (every setup calls `test_rng()` anew) and report the average time.
   * `elapsed(i)` stands for the clock reading around the ten calls for the i-th size.
   */
  method MsmBenches<R, S, P>(sizes: seq<nat>, rng: R, randScalar: R -> (S, R), randPoint: R -> (P, R),
                             elapsed: nat -> real)
    returns (reports: seq<Report>)
    ensures |reports| == |sizes|
    ensures forall i :: 0 <= i < |sizes| ==>
      reports[i] == Report(sizes[i], sizes[i] + 1, sizes[i] + 1, elapsed(i) / Repetitions as real)
  {
    reports := [];
    for i := 0 to |sizes|
      invariant |reports| == i
      invariant forall k :: 0 <= k < i ==>
        reports[k] == Report(sizes[k], sizes[k] + 1, sizes[k] + 1, elapsed(k) / Repetitions as real)
    {
      var l := sizes[i];
      var a, b := MsmCommonSetup(l, rng, randScalar, randPoint);
      reports := reports + [Report(l, |a|, |b|, elapsed(i) / Repetitions as real)];
    }
  }
}
