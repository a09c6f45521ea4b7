/** The sampler: the stride chosen from the pixel count, and the indices the
    sampling loop visits, `(start..end).step_by(step)`. */
module Sampler {

  /** The number of pixels the stride is meant to bring the sample down to. */
  const Ceiling: nat := 50_000

  /** `(pixel_count / 50_000).max(1)`. */
  function Step(pixelCount: nat): (step: nat)
    ensures step >= 1
    ensures pixelCount < 2 * Ceiling ==> step == 1
    ensures pixelCount >= Ceiling ==> step * Ceiling <= pixelCount < (step + 1) * Ceiling
  {
    var q := pixelCount / Ceiling;
    if q > 1 then q else 1
  }

  /** The indices `start, start + step, start + 2 * step, ...` that lie below `end`,
      in the order the iterator yields them. */
  function StepBy(start: nat, end: nat, step: nat): (r: seq<nat>)
    requires step >= 1
    decreases end - start
  {
    if start >= end then [] else [start] + StepBy(start + step, end, step)
  }

  /** One step of the iterator: the index `i` moves from the part still to be
      yielded to the part already yielded. */
  lemma StepByAdvance(visited: seq<nat>, i: nat, end: nat, step: nat)
    requires step >= 1 && i < end
    requires StepBy(0, end, step) == visited + StepBy(i, end, step)
    ensures StepBy(0, end, step) == (visited + [i]) + StepBy(i + step, end, step)
  {
    var rest := StepBy(i + step, end, step);
    assert StepBy(i, end, step) == [i] + rest;
    assert visited + ([i] + rest) == (visited + [i]) + rest;
  }

  /** Ceiling division, the number of values `step_by` yields over a range of length `a`. */
  function CeilDiv(a: nat, b: nat): nat
    requires b >= 1
  {
    (a + b - 1) / b
  }

  /** Every index lies in `[start, end)`. */
  lemma {:induction false} StepByBounds(start: nat, end: nat, step: nat)
    requires step >= 1
    ensures forall t :: 0 <= t < |StepBy(start, end, step)| ==> start <= StepBy(start, end, step)[t] < end
    decreases end - start
  {
    if start < end {
      StepByBounds(start + step, end, step);
    }
  }

  /** The t-th index is `start + t * step`. */
  lemma {:induction false} StepByElements(start: nat, end: nat, step: nat)
    requires step >= 1
    ensures forall t :: 0 <= t < |StepBy(start, end, step)| ==>
      StepBy(start, end, step)[t] == start + t * step
    decreases end - start
  {
    if start < end {
      var rest := StepBy(start + step, end, step);
      StepByElements(start + step, end, step);
      forall t | 0 <= t < |StepBy(start, end, step)|
        ensures StepBy(start, end, step)[t] == start + t * step
      {
        if t > 0 {
          assert StepBy(start, end, step)[t] == rest[t - 1];
          assert start + step + (t - 1) * step == start + t * step;
        }
      }
    }
  }

  /** The iterator yields exactly `ceil((end - start) / step)` indices. */
  lemma {:induction false} StepByLength(start: nat, end: nat, step: nat)
    requires step >= 1
    requires start <= end
    ensures |StepBy(start, end, step)| == CeilDiv(end - start, step)
    decreases end - start
  {
    var a := end - start;
    if a == 0 {
      assert CeilDiv(0, step) == (step - 1) / step == 0;
    } else if start + step <= end {
      StepByLength(start + step, end, step);
      DivShift(a - step + step - 1, step);
      assert CeilDiv(a, step) == CeilDiv(a - step, step) + 1;
    } else {
      assert StepBy(start + step, end, step) == [];
      assert step <= a + step - 1 < 2 * step;
      DivOne(a + step - 1, step);
    }
  }

  lemma DivShift(x: nat, d: nat)
    requires d >= 1
    ensures (x + d) / d == x / d + 1
  {
    DivModUnique(x + d, d, x / d + 1, x % d);
  }

  lemma DivOne(x: nat, d: nat)
    requires d >= 1
    requires d <= x < 2 * d
    ensures x / d == 1
  {
    DivModUnique(x, d, 1, x - d);
  }

  /** Quotient and remainder are determined by `x == q * d + r` with `0 <= r < d`. */
  lemma DivModUnique(x: int, d: int, q: int, r: int)
    requires d >= 1 && 0 <= r < d
    requires x == q * d + r
    ensures x / d == q && x % d == r
  {
    var q', r' := x / d, x % d;
    assert q' * d + r' == q * d + r;
    if q' < q {
      MulLower(q - q', 1, d);
      assert false;
    } else if q' > q {
      MulLower(q' - q, 1, d);
      assert false;
    }
  }

  /** The sampled indices from 0: all below the pixel count, all multiples of the stride. */
  lemma SampledIndexInRange(pixelCount: nat, t: nat)
    requires t < |StepBy(0, pixelCount, Step(pixelCount))|
    ensures StepBy(0, pixelCount, Step(pixelCount))[t] < pixelCount
    ensures StepBy(0, pixelCount, Step(pixelCount))[t] % Step(pixelCount) == 0
  {
    var step := Step(pixelCount);
    StepByBounds(0, pixelCount, step);
    StepByElements(0, pixelCount, step);
    assert StepBy(0, pixelCount, step)[t] == t * step;
    DivModUnique(t * step, step, t, 0);
  }

  /** With fewer than 100,000 pixels the stride is 1 and every pixel is visited, in order. */
  lemma SmallImageVisitsAll(pixelCount: nat)
    requires pixelCount < 2 * Ceiling
    ensures StepBy(0, pixelCount, Step(pixelCount)) == seq(pixelCount, i => i)
  {
    StepByElements(0, pixelCount, 1);
    StepByLength(0, pixelCount, 1);
  }

  /** The number of sampled pixels, over all image sizes, never exceeds 99,999;
      from 100,000 pixels on it never exceeds 75,000. */
  lemma SampleCountBound(pixelCount: nat)
    ensures |StepBy(0, pixelCount, Step(pixelCount))| < 2 * Ceiling
    ensures pixelCount >= 2 * Ceiling ==> |StepBy(0, pixelCount, Step(pixelCount))| <= 3 * Ceiling / 2
  {
    var step := Step(pixelCount);
    StepByLength(0, pixelCount, step);
    var count := CeilDiv(pixelCount, step);
    if pixelCount < 2 * Ceiling {
      assert step == 1;
      assert count == pixelCount;
    } else {
      assert step >= 2;
      // count * step <= pixelCount + step - 1 < (step + 1) * Ceiling + step
      var x := pixelCount + step - 1;
      assert count * step <= x by {
        assert x == count * step + x % step;
      }
      assert x < step * Ceiling + Ceiling + step;
      if count > 3 * Ceiling / 2 {
        MulLower(count, 75_001, step);
        assert false;
      }
    }
  }

  lemma MulLower(a: nat, b: nat, c: nat)
    requires a >= b
    ensures a * c >= b * c
  {
  }

  /** The bound above is reached: 99,999 pixels are sampled one by one, so the
      sample is not limited to 50,000 pixels. */
  lemma SampleCountExceedsCeiling()
    ensures |StepBy(0, 99_999, Step(99_999))| == 99_999
  {
    StepByLength(0, 99_999, 1);
  }
}
