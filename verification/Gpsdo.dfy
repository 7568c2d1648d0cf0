/** The clock-disciplining loop of the firmware: a fixed-point low-pass filter
    and a PID step, in 32-bit integers, driving a 12-bit DAC. */
module Gpsdo {

  import Arith
  import opened Basics

  const TARGET: int := 52_000_000
  const MAX_ERR: int := 10_000
  const MAX_DEV: int := 2047
  const LIMIT: int := 100_000
  const SKIP_ON_FIRST_RUN: nat := 2

  /** Two's complement: what an `int32_t` holds after an assignment of `x`. */
  function Int32(x: int): (r: int)
    ensures -0x8000_0000 <= r < 0x8000_0000
    ensures -0x8000_0000 <= x < 0x8000_0000 ==> r == x
  {
    if x % TWO32 < 0x8000_0000 then x % TWO32 else x % TWO32 - TWO32
  }

  function Abs(x: int): nat {
    if x < 0 then -x else x
  }

  /** The one counter value whose distance from the target has no absolute value. */
  const UNDEFINED_READING: int := TARGET + 0x8000_0000

  predicate Accepts(val: nat)
    requires val < TWO32 && val != UNDEFINED_READING
  {
    Abs(Int32(val - TARGET)) < LIMIT
  }

  /** In spite of the unsigned subtraction the test is about the true distance. */
  lemma AcceptsIffNear(val: nat)
    requires val < TWO32 && val != UNDEFINED_READING
    ensures Accepts(val) <==> 51_900_000 < val < 52_100_000
  {
  }

  // -------------------------------------------------------------------
  // The filter.
  // -------------------------------------------------------------------

  /** One filter update in unsigned 32-bit arithmetic. */
  function Filtered(lpf: nat, val: nat): nat {
    Wrap32(Wrap32(lpf * 7) + Wrap32(val * 8) + 4) / 8
  }

  ghost predicate FilterOk(lpf: nat) {
    8 * (TARGET - LIMIT + 1) <= lpf <= 8 * (TARGET + LIMIT - 1)
  }

  /** No 32-bit overflow on admissible values: the update moves the state by an
      eighth of the error, rounded, and stays between state and input. */
  lemma FilterStep(lpf: nat, val: nat)
    requires FilterOk(lpf) && TARGET - LIMIT < val < TARGET + LIMIT
    ensures 7 * lpf + 8 * val + 4 < TWO32
    ensures Filtered(lpf, val) == lpf + (8 * val - lpf + 4) / 8
    ensures FilterOk(Filtered(lpf, val))
    ensures lpf <= 8 * val ==> lpf <= Filtered(lpf, val) <= 8 * val
    ensures lpf >= 8 * val ==> lpf >= Filtered(lpf, val) >= 8 * val
  {
  }

  /** How far the filter is from a steady reading, in eighths of a hertz. */
  function FilterError(lpf: nat, val: nat): int {
    8 * val - lpf
  }

  /** Under a steady reading the error keeps its sign and strictly shrinks until
      it lies in [-4, 3], where it stays. */
  lemma ErrorShrinks(lpf: nat, val: nat)
    requires FilterOk(lpf) && TARGET - LIMIT < val < TARGET + LIMIT
    ensures var e, e' := FilterError(lpf, val), FilterError(Filtered(lpf, val), val);
            && (e > 3 ==> 0 < e' < e) && (e < -4 ==> e < e' < 0) && (-4 <= e <= 3 ==> e' == e)
            && 8 * (Abs(e') - 4) <= 7 * (Abs(e) - 4)
  {
    FilterStep(lpf, val);
  }

  function FilterRun(lpf: nat, val: nat, k: nat): nat {
    if k == 0 then lpf else Filtered(FilterRun(lpf, val, k - 1), val)
  }

  function Pow(b: nat, k: nat): (p: nat)
    ensures (b > 0 ==> p > 0) && (b == 1 ==> p == 1)
  {
    if k == 0 then 1 else b * Pow(b, k - 1)
  }

  /** Convergence: after k steady readings the excess of the error over the dead
      zone is at most (7/8)^k of what it was. */
  lemma {:induction false} FilterConverges(lpf: nat, val: nat, k: nat)
    requires FilterOk(lpf) && TARGET - LIMIT < val < TARGET + LIMIT
    ensures FilterOk(FilterRun(lpf, val, k))
    ensures var e, e' := FilterError(lpf, val), FilterError(FilterRun(lpf, val, k), val);
            Pow(8, k) * (Abs(e') - 4) <= Pow(7, k) * (Abs(e) - 4)
  {
    hide Filtered;
    if k > 0 {
      FilterConverges(lpf, val, k - 1);
      var before, after := FilterRun(lpf, val, k - 1), FilterRun(lpf, val, k);
      FilterStep(before, val);
      ErrorShrinks(before, val);
      ScaleStep(Pow(8, k - 1), Pow(7, k - 1), Abs(FilterError(lpf, val)) - 4,
                Abs(FilterError(before, val)) - 4, Abs(FilterError(after, val)) - 4);
    }
  }

  lemma ScaleStep(p8: nat, p7: nat, x0: int, x: int, x': int)
    requires p8 * x <= p7 * x0 && 8 * x' <= 7 * x
    ensures 8 * p8 * x' <= 7 * p7 * x0
  {
    assert p8 * (7 * x) - p8 * (8 * x') == p8 * (7 * x - 8 * x') >= 0;
    assert p8 * (7 * x) == 7 * (p8 * x);
    assert p8 * (8 * x') == 8 * p8 * x';
    assert 7 * (p7 * x0) == 7 * p7 * x0;
  }

  /** And it does get there: the error is in the dead zone after no more steady
      readings than its own size. */
  lemma {:induction false} FilterSettles(lpf: nat, val: nat, k: nat)
    requires FilterOk(lpf) && TARGET - LIMIT < val < TARGET + LIMIT && Abs(FilterError(lpf, val)) <= k
    decreases k
    ensures -4 <= FilterError(FilterRun(lpf, val, k), val) <= 3
  {
    hide Filtered;
    if k > 0 {
      var next := Filtered(lpf, val);
      FilterStep(lpf, val);
      ErrorShrinks(lpf, val);
      if -4 <= FilterError(lpf, val) <= 3 {
        StaysSettled(lpf, val, k);
      } else {
        FilterSettles(next, val, k - 1);
        RunShift(lpf, val, k - 1);
      }
    }
  }

  lemma {:induction false} RunShift(lpf: nat, val: nat, k: nat)
    ensures FilterRun(lpf, val, k + 1) == FilterRun(Filtered(lpf, val), val, k)
  {
    if k > 0 { RunShift(lpf, val, k - 1); }
  }

  lemma {:induction false} StaysSettled(lpf: nat, val: nat, k: nat)
    requires FilterOk(lpf) && TARGET - LIMIT < val < TARGET + LIMIT && -4 <= FilterError(lpf, val) <= 3
    ensures FilterRun(lpf, val, k) == lpf
  {
    hide Filtered;
    if k > 0 {
      StaysSettled(lpf, val, k - 1);
      ErrorShrinks(lpf, val);
    }
  }

  // -------------------------------------------------------------------
  // The PID step.
  // -------------------------------------------------------------------

  function Clamp(x: int, bound: int): (r: int)
    requires 0 <= bound
    ensures -bound <= r <= bound
    ensures -bound <= x <= bound ==> r == x
  {
    if x > bound then bound else if x < -bound then -bound else x
  }

  function ClampedError(val: int): int {
    Clamp(Int32(TARGET - val), MAX_ERR)
  }

  /** The correction, every intermediate cut to 32 bits as the code does. */
  function Correction(error: int, errSum: int, valPrev: int, val: int): (tot: int)
    ensures -MAX_DEV <= tot <= MAX_DEV
  {
    var p := Int32(error * 64);
    var i := Int32(errSum * 16);
    var d := Int32(Int32(valPrev - val) * 256);
    Clamp(Int32(Int32(p + i) + d) / 128, MAX_DEV)
  }

  /** The three terms added up in unbounded arithmetic ... */
  function Total(error: int, sum: int, valPrev: int, val: int): int {
    error * 64 + sum * 16 + (valPrev - val) * 256
  }

  /** ... and the correction they ask for. */
  function IdealCorrection(error: int, sum: int, valPrev: int, val: int): (tot: int)
    ensures -MAX_DEV <= tot <= MAX_DEV
  {
    Clamp(Total(error, sum, valPrev, val) / 128, MAX_DEV)
  }

  ghost predicate Near(val: int) {
    TARGET - LIMIT < val < TARGET + LIMIT
  }

  /** Cutting to 32 bits along the way is cutting once at the end. */
  lemma CutOnce(x: int, y: int)
    ensures Int32(Int32(x) + y) == Int32(x + y)
    ensures Int32(Int32(x) * 16) == Int32(x * 16)
  {
    var q := (Int32(x) - x) / TWO32;
    assert Int32(x) == x + q * TWO32;
    SameCut(x + y, q);
    SameCut(x * 16, q * 16);
  }

  lemma SameCut(x: int, q: int)
    ensures Int32(x + q * TWO32) == Int32(x)
  {
    Arith.RemainderUnique(x + q * TWO32, TWO32, x / TWO32 + q, x % TWO32);
  }

  /** The terms fit 32 bits, or wrap to a value that still saturates on the same side. */
  ghost predicate Faithful(total: int) {
    || -0x8000_0000 <= total < 0x8000_0000
    || (total >= 0x8000_0000 && Int32(total) >= MAX_DEV * 128)
    || (total < -0x8000_0000 && Int32(total) < (1 - MAX_DEV) * 128)
  }

  lemma CorrectionCutsOnce(error: int, sum: int, valPrev: int, val: int)
    requires Abs(error) <= MAX_ERR && Near(valPrev) && Near(val)
    ensures Correction(error, Int32(sum), valPrev, val) == Clamp(Int32(Total(error, sum, valPrev, val)) / 128, MAX_DEV)
  {
    hide Int32, Clamp;
    CutOnce(sum, 0);
    CutOnce(sum * 16, error * 64);
    CutOnce(sum * 16 + error * 64, (valPrev - val) * 256);
  }

  /** The correction computed in 32 bits is the one asked for exactly when the
      terms fit or wrap to the same side. */
  lemma CorrectionIdealIff(error: int, sum: int, valPrev: int, val: int)
    requires Abs(error) <= MAX_ERR && Near(valPrev) && Near(val)
    ensures Correction(error, Int32(sum), valPrev, val) == IdealCorrection(error, sum, valPrev, val)
            <==> Faithful(Total(error, sum, valPrev, val))
  {
    hide Correction, Int32, Total;
    CorrectionCutsOnce(error, sum, valPrev, val);
  }

  /** In particular it is within 13097 steps of a reset, whatever the readings. */
  lemma YoungIsFaithful(error: int, sum: int, valPrev: int, val: int, steps: nat)
    requires Abs(error) <= MAX_ERR && Abs(sum) <= MAX_ERR * steps && steps <= 13097
    requires Near(valPrev) && Near(val)
    ensures Faithful(Total(error, sum, valPrev, val))
  {
  }

  /** There is no anti-windup: under a steady reading below the target the
      correction is the one asked for until the terms pass 2^31, and is fully
      negative from then on, up to almost 2^32; likewise with signs reversed above
      the target. */
  lemma SteadyWindup(error: int, val: int, k: nat)
    requires Abs(error) <= MAX_ERR && Near(val)
    requires Abs(64 * error + 16 * (k * error)) <= 0x1_0000_0000 - 300_000
    ensures var total := 64 * error + 16 * (k * error);
            var tot := Correction(error, Int32(k * error), val, val);
            var ideal := IdealCorrection(error, k * error, val, val);
            && (-0x8000_0000 <= total < 0x8000_0000 ==> tot == ideal)
            && (total >= 0x8000_0000 ==> tot == -MAX_DEV && ideal == MAX_DEV)
            && (total < -0x8000_0000 ==> tot == MAX_DEV && ideal == -MAX_DEV)
  {
    hide Correction;
    var sum := k * error;
    CorrectionIdealIff(error, sum, val, val);
    CorrectionCutsOnce(error, sum, val, val);
  }

  /** The value kept after a correction, and the 12 bits that reach the converter. */
  function DacValue(init: int, tot: int): nat {
    (init + tot) % 0x1_0000
  }

  function DacWord(v: nat): nat {
    v % 0x1000
  }

  /** What reaches the converter are the low 12 bits of the corrected value: the
      16 bits it is kept in cut nothing more. */
  lemma DacWordIs(init: int, tot: int)
    ensures DacValue(init, tot) < 0x1_0000 && DacWord(DacValue(init, tot)) == (init + tot) % 0x1000
  {
    var x := init + tot;
    var kept := x % 0x1_0000;
    Arith.RemainderUnique(x, 0x1000, x / 0x1_0000 * 16 + kept / 0x1000, kept % 0x1000);
  }

  /** The masks never change the value, for every correction, exactly when the
      initial value is one of the two in the middle; readings reach both extreme
      corrections, as `DacExtremes` shows. */
  lemma DacFitsIff(init: nat)
    requires init < 0x1_0000
    ensures (forall tot | -MAX_DEV <= tot <= MAX_DEV :: DacWord(DacValue(init, tot)) == init + tot)
            <==> 2047 <= init <= 2048
  {
    if init < 2047 {
      assert DacWord(DacValue(init, -MAX_DEV)) != init + -MAX_DEV;
    } else if init > 2048 {
      assert DacWord(DacValue(init, MAX_DEV)) != init + MAX_DEV;
    }
  }

  lemma DacTellsApart(init: int, a: int, b: int)
    requires -MAX_DEV <= a <= MAX_DEV && -MAX_DEV <= b <= MAX_DEV
    ensures DacValue(init, a) == DacValue(init, b) <==> a == b
  {
  }

  class Gpsdo {
    var valLpf: nat
    var skip: nat
    var valPrev: int
    var initVal: int
    var errSum: int
    var dac: nat
    var lastFreq: nat

    /** PID steps since the last reset, and the exact error sum over them. */
    ghost var steps: nat
    ghost var idealSum: int

    ghost predicate Valid()
      reads this
    {
      && FilterOk(valLpf) && skip <= SKIP_ON_FIRST_RUN && Near(valPrev)
      && 0 <= initVal < 0x1_0000 && dac < 0x1_0000
      && Abs(idealSum) <= MAX_ERR * steps && errSum == Int32(idealSum)
    }

    constructor (tcxoDac: nat)
      requires tcxoDac < 0x1_0000
      ensures Valid() && steps == 0 && skip == 2 && valPrev == 52_000_000
      ensures valLpf == 8 * 52_000_000 && errSum == 0 && lastFreq == 0
      ensures initVal == dac == if tcxoDac == 0xffff then 2048 else tcxoDac
    {
      var v := if tcxoDac == 0xffff then 2048 else tcxoDac;
      valLpf, skip, lastFreq := 8 * TARGET, SKIP_ON_FIRST_RUN, 0;
      dac, valPrev, initVal, errSum := v, TARGET, v, 0;
      steps, idealSum := 0, 0;
    }

    /** Resets the loop around a new DAC value; the filter keeps its state. */
    method SetDac(v: nat)
      requires Valid() && v < 0x1_0000
      modifies this
      ensures Valid() && steps == 0 && errSum == 0 && initVal == dac == v && skip == 2
      ensures valLpf == old(valLpf) && valPrev == 52_000_000
    {
      valPrev, initVal, errSum := TARGET, v, 0;
      steps, idealSum := 0, 0;
      skip := SKIP_ON_FIRST_RUN;
      dac := v;
    }

    method PidStep(val: int)
      requires Valid() && Near(val)
      modifies `valPrev, `errSum, `dac, `steps, `idealSum
      ensures Valid() && steps == old(steps) + 1 && valPrev == val
      ensures idealSum == old(idealSum) + ClampedError(val)
      ensures ClampedError(val) == if val < 51_990_000 then 10_000 else if val > 52_010_000 then -10_000
                                   else 52_000_000 - val
      ensures dac == DacValue(initVal, Correction(ClampedError(val), errSum, old(valPrev), val))
      ensures dac == DacValue(initVal, IdealCorrection(ClampedError(val), idealSum, old(valPrev), val))
              <==> Faithful(Total(ClampedError(val), old(idealSum) + ClampedError(val), old(valPrev), val))
      ensures steps <= 13097 ==> Faithful(Total(ClampedError(val), idealSum, old(valPrev), val))
    {
      hide Int32, Correction, IdealCorrection, Faithful, Total;
      var error := Int32(TARGET - val);
      if error > MAX_ERR {
        error := MAX_ERR;
      } else if error < -MAX_ERR {
        error := -MAX_ERR;
      }
      ghost var sum := idealSum + error;
      CutOnce(idealSum, error);
      CorrectionIdealIff(error, sum, valPrev, val);
      DacTellsApart(initVal, Correction(error, Int32(sum), valPrev, val), IdealCorrection(error, sum, valPrev, val));
      if steps < 13097 {
        YoungIsFaithful(error, sum, valPrev, val, steps + 1);
      }
      errSum := Int32(errSum + error);
      idealSum, steps := sum, steps + 1;
      var tot := Correction(error, errSum, valPrev, val);
      valPrev := val;
      dac := DacValue(initVal, tot);
    }

    /** The interrupt handler, for a counter reading that is ready. */
    method OnReading(val: nat)
      requires Valid() && val < TWO32 && val != UNDEFINED_READING
      modifies this
      ensures Valid() && initVal == old(initVal)
      ensures !Near(val) ==>
                valLpf == old(valLpf) && skip == old(skip) && valPrev == old(valPrev) && steps == old(steps)
                && errSum == old(errSum) && dac == old(dac) && lastFreq == old(lastFreq)
      ensures Near(val) ==> lastFreq == val
      ensures Near(val) && old(skip) > 0 ==>
                valLpf == 8 * val && skip == old(skip) - 1 && valPrev == val && steps == old(steps) && dac == old(dac)
                && errSum == old(errSum)
      ensures Near(val) && old(skip) == 0 ==>
                && skip == 0 && steps == old(steps) + 1
                && valLpf == old(valLpf) + (8 * val - old(valLpf) + 4) / 8
                && valPrev == valLpf / 8
                && idealSum == old(idealSum) + ClampedError(valLpf / 8)
                && dac == DacValue(initVal, Correction(ClampedError(valPrev), errSum, old(valPrev), valPrev))
                && (dac == DacValue(initVal, IdealCorrection(ClampedError(valPrev), idealSum, old(valPrev), valPrev))
                    <==> Faithful(Total(ClampedError(valPrev), idealSum, old(valPrev), valPrev)))
                && (steps <= 13097 ==> Faithful(Total(ClampedError(valPrev), idealSum, old(valPrev), valPrev)))
      ensures 2047 <= initVal <= 2048 && old(dac) < 0x1000 ==> dac < 0x1000
    {
      hide Accepts, Filtered, Correction, IdealCorrection, Int32, Faithful, Total, ClampedError;
      AcceptsIffNear(val);
      if Accepts(val) {
        lastFreq := val;
        if skip > 0 {
          skip := skip - 1;
          valLpf := Wrap32(val * 8);
          valPrev := val;
        } else {
          FilterStep(valLpf, val);
          valLpf := Filtered(valLpf, val);
          PidStep(valLpf / 8);
        }
      }
    }

    /** A steady run of a settled loop: the error sum grows by the same amount
        every time. */
    method Steady(val: nat, k: nat)
      requires Valid() && Near(val) && skip == 0 && valLpf == 8 * val && valPrev == val
      modifies this
      ensures Valid() && skip == 0 && valLpf == 8 * val && valPrev == val && initVal == old(initVal)
      ensures steps == old(steps) + k && idealSum == old(idealSum) + k * ClampedError(val)
      ensures k > 0 ==> dac == DacValue(initVal, Correction(ClampedError(val), Int32(idealSum), val, val))
    {
      hide Correction, IdealCorrection, Int32, Faithful, Total, ClampedError, DacValue, FilterOk, Near;
      for i := 0 to k
        invariant Valid() && skip == 0 && valLpf == 8 * val && valPrev == val && initVal == old(initVal)
        invariant steps == old(steps) + i && idealSum == old(idealSum) + i * ClampedError(val)
        invariant i > 0 ==> dac == DacValue(initVal, Correction(ClampedError(val), Int32(idealSum), val, val))
      {
        SettledReading(val);
        Arith.MulDistributes(i, 1, ClampedError(val));
        OnReading(val);
      }
    }

    lemma SettledReading(val: nat)
      requires Near(val)
      ensures val < TWO32 && val != UNDEFINED_READING
      ensures 8 * val + (8 * val - 8 * val + 4) / 8 == 8 * val && 8 * val / 8 == val
    {
    }
  }

  /** A loop set to `init` and shown one reading until it is settled. */
  method Settled(init: nat, val: nat) returns (g: Gpsdo)
    requires init < 0x1_0000 && Near(val)
    ensures fresh(g) && g.Valid() && g.skip == 0 && g.valLpf == 8 * val && g.valPrev == val
    ensures g.initVal == init && g.steps == g.idealSum == 0
  {
    g := new Gpsdo(init);
    g.SetDac(init);
    g.SettledReading(val);
    g.OnReading(val);
    g.OnReading(val);
  }

  /** Readings reach both extreme corrections, the first time one is made. */
  method DacExtremes(init: nat) returns (low: nat, high: nat)
    requires init < 0x1_0000
    ensures low == DacValue(init, -MAX_DEV) && high == DacValue(init, MAX_DEV)
  {
    var g := Settled(init, TARGET + MAX_ERR);
    g.Steady(TARGET + MAX_ERR, 1);
    low := g.dac;
    g := Settled(init, TARGET - MAX_ERR);
    g.Steady(TARGET - MAX_ERR, 1);
    high := g.dac;
  }

  /** Shown a reading 10 kHz low, the loop answers with the full positive
      correction up to step 13417 and with the full negative one at step 13418. */
  method Windup(init: nat) returns (before: nat, after: nat)
    requires init < 0x1_0000
    ensures before == DacValue(init, MAX_DEV) && after == DacValue(init, -MAX_DEV)
  {
    hide Correction, Int32, DacValue, Faithful;
    var val := TARGET - MAX_ERR;
    SteadyWindup(MAX_ERR, val, 13417);
    SteadyWindup(MAX_ERR, val, 13418);
    var g := Settled(init, val);
    assert ClampedError(val) == MAX_ERR by { LowError(); }
    g.Steady(val, 13417);
    before := g.dac;
    g.Steady(val, 1);
    after := g.dac;
  }

  lemma LowError()
    ensures ClampedError(TARGET - MAX_ERR) == MAX_ERR
  {
  }
}
