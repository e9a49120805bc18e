/** Quantisation of one normalised sample against one threshold: the level
    floor(v·(steps-1) + t), its clip to [0, steps-1] and its rescale to a byte,
    all in exact rational arithmetic (v = num/den, t = k/s2). */
module Quantize {
  import opened Raster
  import opened Arith

  /** The dithered level floor(v·(steps-1) + k/s2) of v = num/den, before the clip. */
  function Level(v: Ratio, k: nat, s2: nat, steps: nat): nat
    requires v.den > 0 && s2 > 0 && steps >= 2
  {
    MulPos(v.den, s2);
    MulNat(v.num, steps - 1, s2);
    (v.num * (steps - 1) * s2 + v.den * k) / (v.den * s2)
  }

  /** The level q is the floor of v·(steps-1) + k/s2: q <= v·(steps-1) + k/s2 < q + 1,
      both sides multiplied out by den·s2. */
  lemma LevelIsFloor(v: Ratio, k: nat, s2: nat, steps: nat)
    requires v.den > 0 && s2 > 0 && steps >= 2
    ensures Level(v, k, s2, steps) * (v.den * s2) <= v.num * (steps - 1) * s2 + v.den * k
    ensures v.num * (steps - 1) * s2 + v.den * k < (Level(v, k, s2, steps) + 1) * (v.den * s2)
  {
    MulPos(v.den, s2);
    DivFloor(v.num * (steps - 1) * s2 + v.den * k, v.den * s2);
  }

  /** The clip of the normalised level q/(steps-1) to [0, 1], kept as a level. */
  function Clip(q: int, steps: nat): (c: nat)
    requires steps >= 2
    ensures c <= steps - 1
    ensures 0 <= q <= steps - 1 ==> c == q
    ensures q < 0 ==> c == 0
    ensures q > steps - 1 ==> c == steps - 1
  {
    if q < 0 then 0 else if q > steps - 1 then steps - 1 else q
  }

  /** The level c rescaled to the byte range and truncated: int(c/(steps-1)·255). */
  function ToByte(c: nat, steps: nat): (b: Byte)
    requires steps >= 2 && c <= steps - 1
    ensures c == 0 ==> b == 0
    ensures c == steps - 1 ==> b == 255
  {
    ScaledByteBound(c, steps - 1);
    c * 255 / (steps - 1)
  }

  lemma ScaledByteBound(c: nat, d: nat)
    requires 1 <= d && c <= d
    ensures c * 255 / d <= 255
    ensures c == d ==> c * 255 / d == 255
  {
    MulMono(c, d, 255);
    DivBelow(c * 255, d, 256);
    if c == d {
      DivModUnique(c * 255, d, 255, 0);
    }
  }

  /** One sample of the output: its level, clipped, as a byte. */
  function DitherSample(v: Ratio, k: nat, s2: nat, steps: nat): Byte
    requires v.den > 0 && s2 > 0 && steps >= 2
  {
    ToByte(Clip(Level(v, k, s2, steps), steps), steps)
  }

  /** For a sample in [0, 1] and a threshold in [0, 1) the level already lies in
      0 .. steps-1, so the clip never changes it. */
  lemma LevelInRange(v: Ratio, k: nat, s2: nat, steps: nat)
    requires InUnit(v) && k < s2 && steps >= 2
    ensures Level(v, k, s2, steps) <= steps - 1
    ensures Clip(Level(v, k, s2, steps), steps) == Level(v, k, s2, steps)
  {
    var q := Level(v, k, s2, steps);
    LevelIsFloor(v, k, s2, steps);
    NumeratorBelow(v.num, v.den, k, s2, steps - 1);
    MulCancelLess(q, steps, v.den * s2);
  }

  /** num·m·s2 + den·k < (m+1)·den·s2 when num <= den and k < s2. */
  lemma NumeratorBelow(num: nat, den: nat, k: nat, s2: nat, m: nat)
    requires 1 <= den && num <= den && k < s2
    ensures num * m * s2 + den * k < (m + 1) * (den * s2)
  {
    var ms := m * s2;
    MulMono(num, den, ms);
    assert num * m * s2 == num * ms && den * ms == m * (den * s2);
    MulMono(k + 1, s2, den);
    assert den * k + den <= den * s2;
    assert (m + 1) * (den * s2) == m * (den * s2) + den * s2;
  }

  /** A black sample (v = 0) stays black whatever the threshold. */
  lemma BlackStaysBlack(v: Ratio, k: nat, s2: nat, steps: nat)
    requires v.den > 0 && v.num == 0 && k < s2 && steps >= 2
    ensures DitherSample(v, k, s2, steps) == 0
  {
    MulMono(k + 1, s2, v.den);
    DivModUnique(v.den * k, v.den * s2, 0, v.den * k);
  }

  /** A white sample (v = 1) stays white whatever the threshold. */
  lemma WhiteStaysWhite(v: Ratio, k: nat, s2: nat, steps: nat)
    requires v.den > 0 && v.num == v.den && k < s2 && steps >= 2
    ensures DitherSample(v, k, s2, steps) == 255
  {
    MulMono(k + 1, s2, v.den);
    assert v.num * (steps - 1) * s2 == (v.den * s2) * (steps - 1);
    DivModUnique(v.num * (steps - 1) * s2 + v.den * k, v.den * s2, steps - 1, v.den * k);
  }

  /** With two steps the output is 0 or 255, and 255 exactly when v + t >= 1. */
  lemma TwoStepSample(v: Ratio, k: nat, s2: nat)
    requires InUnit(v) && k < s2
    ensures DitherSample(v, k, s2, 2) == 0 || DitherSample(v, k, s2, 2) == 255
    ensures DitherSample(v, k, s2, 2) == 255 <==> v.num * s2 + v.den * k >= v.den * s2
  {
    LevelInRange(v, k, s2, 2);
    LevelIsFloor(v, k, s2, 2);
    var q := Level(v, k, s2, 2);
    if v.num * s2 + v.den * k >= v.den * s2 {
      assert q == 1;
    } else {
      assert q == 0;
    }
  }

  /** A value in [1/2, 3/4) at two steps against the four ranks of a 2×2 matrix:
      black for the ranks 0 and 1, white for the ranks 2 and 3. */
  lemma UpperHalfTwoStep(v: Ratio, k: nat)
    requires InUnit(v) && v.den <= 2 * v.num && 4 * v.num < 3 * v.den && k < 4
    ensures DitherSample(v, k, 4, 2) == if k <= 1 then 0 else 255
  {
    TwoStepSample(v, k, 4);
    if k == 0 {
    } else if k == 1 {
    } else if k == 2 {
    } else {
      assert v.den * k == 3 * v.den;
    }
  }

  /** A byte just above one half, 128 .. 191, at two steps against the four ranks of a
      2×2 matrix: black for the ranks 0 and 1, white for the ranks 2 and 3. */
  lemma MidGreyTwoStep(p: nat, k: nat)
    requires 128 <= p <= 191 && k < 4
    ensures DitherSample(Ratio(p, 255), k, 4, 2) == if k <= 1 then 0 else 255
  {
    UpperHalfTwoStep(Ratio(p, 255), k);
  }

  /** The byte 128 at three steps against any rank of a 2×2 matrix: level 1 of 0 .. 2,
      which rescales to 127. */
  lemma MidGreyThreeStep(k: nat)
    requires k < 4
    ensures DitherSample(Ratio(128, 255), k, 4, 3) == 127
  {
    LevelIsFloor(Ratio(128, 255), k, 4, 3);
    assert Level(Ratio(128, 255), k, 4, 3) == 1;
  }

  /** The bytes the levels 0 .. n-1 rescale to. */
  function Levels(steps: nat, n: nat): set<Byte>
    requires steps >= 2 && n <= steps
  {
    set c | 0 <= c < n :: ToByte(c, steps)
  }

  /** n levels give at most n distinct bytes. */
  lemma {:induction false} LevelsCount(steps: nat, n: nat)
    requires steps >= 2 && n <= steps
    ensures |Levels(steps, n)| <= n
  {
    if n == 0 {
      assert Levels(steps, 0) == {};
    } else {
      LevelsCount(steps, n - 1);
      assert Levels(steps, n) == Levels(steps, n - 1) + {ToByte(n - 1, steps)};
    }
  }

  /** Every dithered sample is one of the `steps` rescaled levels. */
  lemma SampleIsLevel(v: Ratio, k: nat, s2: nat, steps: nat)
    requires v.den > 0 && s2 > 0 && steps >= 2
    ensures DitherSample(v, k, s2, steps) in Levels(steps, steps)
  {
    var c := Clip(Level(v, k, s2, steps), steps);
    assert ToByte(c, steps) in Levels(steps, steps);
  }
}
