/** Divider and fraction computation of the UmSEL2 synthesizers, in exact
    arithmetic, and the register fields it is loaded into. */
module Umsel2 {
  import Arith
  import RealArith
  import opened Basics

  const TWO24: int := 0x100_0000
  const NMIN: int := 23

  // -------------------------------------------------------------------
  // Register fields.
  // -------------------------------------------------------------------

  /** A field that starts at the bit worth `place` and takes `range` values. */
  function Field(reg: nat, place: nat, range: nat): nat
    requires 0 < place && 0 < range
  {
    reg / place % range
  }

  /** Replaces a field by the low bits of a value. */
  function ModifyField(reg: nat, val: nat, place: nat, range: nat): nat
    requires 0 < place && 0 < range
  {
    Join(Join(reg / place / range, val % range, range), reg % place, place)
  }

  function Join(hi: nat, lo: nat, base: nat): nat {
    hi * base + lo
  }

  /** The field then holds the value, cut to its width, and every bit below and
      above it is as before. */
  lemma ModifyFieldSets(reg: nat, val: nat, place: nat, range: nat)
    requires 0 < place && 0 < range
    ensures var r := ModifyField(reg, val, place, range);
            && Field(r, place, range) == val % range
            && r % place == reg % place && r / place / range == reg / place / range
  {
    var hi := reg / place / range;
    Arith.RemainderUnique(ModifyField(reg, val, place, range), place, hi * range + val % range, reg % place);
    Arith.RemainderUnique(hi * range + val % range, range, hi, val % range);
  }

  /** Setting a field keeps every field below it ... */
  lemma LowerFieldKept(reg: nat, val: nat, place: nat, range: nat, p: nat, q: nat, k: nat)
    requires 0 < range && 0 < p && 0 < q && 0 < k && place == p * (q * k) && 0 < place
    ensures Field(ModifyField(reg, val, place, range), p, q) == Field(reg, p, q)
  {
    ModifyFieldSets(reg, val, place, range);
    Arith.DigitOfRemainder(reg, p, q, k);
    Arith.DigitOfRemainder(ModifyField(reg, val, place, range), p, q, k);
  }

  /** ... and every field above it. */
  lemma UpperFieldKept(reg: nat, val: nat, place: nat, range: nat, p: nat, q: nat, k: nat)
    requires 0 < place && 0 < range && 0 < q && 0 < k && p == place * range * k && 0 < p
    ensures Field(ModifyField(reg, val, place, range), p, q) == Field(reg, p, q)
  {
    var r := ModifyField(reg, val, place, range);
    ModifyFieldSets(reg, val, place, range);
    Arith.DivDiv(reg, place, range);
    Arith.DivDiv(r, place, range);
    Arith.DivDiv(reg, place * range, k);
    Arith.DivDiv(r, place * range, k);
  }

  /** Two register values agree below the bit worth `lo` and from the one worth `hi` on. */
  predicate SameOutside(r: nat, s: nat, lo: nat, hi: nat)
    requires 0 < lo && 0 < hi
  {
    r % lo == s % lo && r / hi == s / hi
  }

  /** Setting a field changes nothing outside bounds that enclose it. */
  lemma ModifyInside(reg: nat, val: nat, place: nat, range: nat, lo: nat, a: nat, hi: nat, b: nat)
    requires 0 < lo && 0 < a && 0 < range && 0 < b && 0 < place == lo * a && 0 < hi == place * range * b
    ensures SameOutside(ModifyField(reg, val, place, range), reg, lo, hi)
  {
    hide ModifyField, Field;
    var r := ModifyField(reg, val, place, range);
    ModifyFieldSets(reg, val, place, range);
    Arith.DigitOfRemainder(reg, 1, lo, a);
    Arith.DigitOfRemainder(r, 1, lo, a);
    Arith.DivDiv(reg, place, range);
    Arith.DivDiv(r, place, range);
    Arith.DivDiv(reg, place * range, b);
    Arith.DivDiv(r, place * range, b);
  }

  // -------------------------------------------------------------------
  // The divider search.
  // -------------------------------------------------------------------

  /** The VCO frequency behind an output divider of 2^sel. */
  function VcoFor(rf: real, sel: nat): real {
    rf * Pow2(sel) as real
  }

  lemma VcoDoubles(rf: real, sel: nat)
    ensures VcoFor(rf, 0) == rf && VcoFor(rf, sel + 1) == 2.0 * VcoFor(rf, sel)
  {
    assert Pow2(sel + 1) as real == 2.0 * Pow2(sel) as real;
  }

  /** Doubles the output divider until the VCO reaches 3.4 GHz. */
  method OutputDivider(rf: real) returns (sel: nat, vco: real)
    requires rf >= 54.0e6
    ensures vco == VcoFor(rf, sel) && 3.4e9 <= vco && sel <= 6
    ensures sel > 0 ==> VcoFor(rf, sel - 1) < 3.4e9
    ensures rf <= 4.4e9 ==> vco < 6.8e9
  {
    hide VcoFor;
    VcoDoubles(rf, 0);
    VcoDoubles(54.0e6, 0);
    sel, vco := 0, VcoFor(rf, 0);
    while vco < 3.4e9
      invariant vco == VcoFor(rf, sel) >= VcoFor(54.0e6, sel) && sel <= 6
      invariant sel == 0 ==> vco == rf
      invariant sel > 0 ==> VcoFor(rf, sel - 1) < 3.4e9 && vco == 2.0 * VcoFor(rf, sel - 1)
      decreases 7 - sel
    {
      VcoDoubles(rf, sel);
      VcoDoubles(54.0e6, sel);
      AtMostSix(sel);
      sel := sel + 1;
      vco := VcoFor(rf, sel);
    }
  }

  lemma AtMostSix(sel: nat)
    requires VcoFor(54.0e6, sel) < 3.4e9 && sel <= 6
    ensures sel <= 5
  {
    assert Pow2(6) == 64;
  }

  /** Raises the reference divider until the feedback divider is large enough. */
  method ReferenceDivider(ref: real, vco: real) returns (rdiv: nat, pfd: real, ndiv: real)
    requires ref > 0.0 && vco > 0.0
    ensures rdiv >= 1 && pfd == ref / rdiv as real && pfd > 0.0 && ndiv == vco / pfd >= NMIN as real
    ensures rdiv > 1 ==> vco / (ref / (rdiv - 1) as real) < NMIN as real
  {
    rdiv := 1;
    pfd := ref / rdiv as real;
    ndiv := vco / pfd;
    PfdPositive(ref, vco, rdiv);
    ghost var enough := (NMIN as real * ref / vco).Floor + 1;
    while ndiv < NMIN as real
      invariant rdiv >= 1 && pfd == ref / rdiv as real && pfd > 0.0 && ndiv == vco / pfd
      invariant rdiv > 1 ==> vco / (ref / (rdiv - 1) as real) < NMIN as real
      decreases enough - rdiv
    {
      NdivGrows(ref, vco, rdiv);
      rdiv := rdiv + 1;
      PfdPositive(ref, vco, rdiv);
      pfd := ref / rdiv as real;
      ndiv := vco / pfd;
    }
  }

  lemma PfdPositive(ref: real, vco: real, rdiv: nat)
    requires ref > 0.0 && vco > 0.0 && rdiv >= 1
    ensures ref / rdiv as real > 0.0 && vco / (ref / rdiv as real) == vco * rdiv as real / ref
  {
    var d := rdiv as real;
    RealArith.DivLess(ref, d, 0.0);
    var pfd := ref / d;
    assert pfd * d == ref;
    var w := vco * d / ref;
    assert w * ref == vco * d;
    assert w * pfd * d == vco * d by { assert w * (pfd * d) == w * pfd * d; }
    assert (w * pfd - vco) * d == 0.0;
    RealArith.DivUnique(w, vco, pfd);
  }

  lemma NdivGrows(ref: real, vco: real, rdiv: nat)
    requires ref > 0.0 && vco > 0.0 && rdiv >= 1 && ref / rdiv as real > 0.0
    requires vco / (ref / rdiv as real) < NMIN as real
    ensures rdiv < (NMIN as real * ref / vco).Floor + 1
  {
    PfdPositive(ref, vco, rdiv);
    RealArith.DivLess(vco * rdiv as real, ref, NMIN as real);
    RealArith.DivLess(NMIN as real * ref, vco, rdiv as real);
  }

  // -------------------------------------------------------------------
  // Fractions.
  // -------------------------------------------------------------------

  /** What the feedback divider is split into. */
  datatype Divider = Divider(nint: nat, frac1: nat, frac2: nat, mod2: nat)

  /** The divider value that the parts stand for. */
  function Actual(d: Divider): real
    requires d.mod2 > 0
  {
    d.nint as real + (d.frac1 as real + d.frac2 as real / d.mod2 as real) / TWO24 as real
  }

  /** Splits a divider value; the fractional parts fit their fields and what is
      lost is less than one step of the finer one. */
  method Split(ndiv: real, pfd: real) returns (d: Divider)
    requires ndiv >= 0.0 && pfd > 0.0
    ensures d.mod2 == (pfd / 1.0e6).Floor && (d.mod2 == 0 <==> pfd < 1.0e6)
    ensures d.nint == ndiv.Floor && d.frac1 < TWO24 && (d.frac2 < d.mod2 || d.frac2 == d.mod2 == 0)
    ensures d.mod2 > 0 ==> 0.0 <= ndiv - Actual(d) < 1.0 / (TWO24 as real * d.mod2 as real)
  {
    var nint := ndiv.Floor;
    var nfrac := (ndiv - nint as real) * TWO24 as real;
    var frac1 := nfrac.Floor;
    FloorBelow(ndiv - nint as real, TWO24);
    RealArith.DivLess(pfd, 1.0e6, 1.0);
    var mod2 := (pfd / 1.0e6).Floor;
    var rest := nfrac - frac1 as real;
    var frac2 := (rest * mod2 as real).Floor;
    if mod2 > 0 {
      FloorBelow(rest, mod2);
      SplitError(ndiv, nint as real, frac1 as real, frac2 as real, mod2 as real, rest);
    }
    d := Divider(nint, frac1, frac2, mod2);
  }

  lemma FloorBelow(x: real, m: int)
    requires 0.0 <= x < 1.0 && m >= 1
    ensures 0 <= (x * m as real).Floor < m
  {
    RealArith.MulMonotone(x, 1.0, m as real);
    RealArith.MulMonotone(0.0, x, m as real);
  }

  lemma SplitError(v: real, n: real, f1: real, f2: real, m: real, rest: real)
    requires m > 0.0 && rest == (v - n) * TWO24 as real - f1 && f2 <= rest * m < f2 + 1.0
    ensures 0.0 <= v - (n + (f1 + f2 / m) / TWO24 as real) < 1.0 / (TWO24 as real * m)
  {
    var s := TWO24 as real;
    var e2 := rest - f2 / m;
    assert f2 / m * m == f2;
    assert e2 * m == rest * m - f2;
    var e := v - (n + (f1 + f2 / m) / s);
    assert e * s == e2;
    assert e * (s * m) == e2 * m by { assert e * (s * m) == e * s * m; }
    RealArith.DivLess(1.0, s * m, e);
    assert e >= 0.0 by {
      if e < 0.0 { RealArith.MulMonotone(e, 0.0, s * m); }
    }
  }

  /** The smallest band division that brings the reference below 150 kHz. */
  method BandDivision(pfd: real) returns (n: nat)
    requires pfd > 0.0
    ensures n >= 1 && pfd < 150.0e3 * (n * 16) as real
    ensures n > 1 ==> pfd >= 150.0e3 * ((n - 1) * 16) as real
  {
    n := 1;
    RealArith.DivLess(pfd, (n * 16) as real, 150.0e3);
    while !(pfd / (n * 16) as real < 150.0e3)
      invariant n >= 1 && (pfd / (n * 16) as real < 150.0e3 <==> pfd < 150.0e3 * (n * 16) as real)
      invariant n > 1 ==> pfd >= 150.0e3 * ((n - 1) * 16) as real
      decreases (pfd / 2.4e6).Floor + 1 - n
    {
      n := n + 1;
      RealArith.DivLess(pfd, (n * 16) as real, 150.0e3);
    }
  }

  /** The divider that a set of registers stands for, and its output divider. */
  function LoadedDivider(regs: seq<nat>): Divider
    requires |regs| == 13
  {
    Divider(Field(regs[0], 0x10, 0x1_0000), Field(regs[1], 0x10, 0x100_0000),
            Field(regs[2], 0x4_0000, 0x4000), Field(regs[2], 0x10, 0x4000))
  }

  function LoadedSel(regs: seq<nat>): nat
    requires |regs| == 13
  {
    Field(regs[6], 0x20_0000, 8)
  }

  function LoadedR(regs: seq<nat>): nat
    requires |regs| == 13
  {
    Field(regs[4], 0x8000, 0x400)
  }

  /** The chip is left with prescaler 4/5, autocalibration on, its counters
      released, an undivided and undoubled reference, and the fixed lock
      timeout, level wait and ADC clock division. */
  ghost predicate OptionsSet(regs: seq<nat>)
    requires |regs| == 13
  {
    && Field(regs[0], 0x10_0000, 2) == 0 && Field(regs[0], 0x20_0000, 2) == 1
    && Field(regs[4], 0x10, 2) == 0 && Field(regs[4], 0x200_0000, 2) == 0 && Field(regs[4], 0x400_0000, 2) == 0
    && Field(regs[9], 0x10, 0x20) == 12 && Field(regs[9], 0x200, 0x20) == 30
    && Field(regs[10], 0x40, 0x100) == 65
  }

  /** The timeout is the smallest one that gives 50 us with the level wait, and
      the band division the smallest one below 150 kHz. */
  ghost predicate Timed(pfd: real, t: nat, n: nat) {
    && 30.0 * (t as real - 1.0) < pfd * 50.0e-6 <= 30.0 * t as real
    && n >= 1 && pfd < 150.0e3 * (n * 16) as real && (n > 1 ==> pfd >= 150.0e3 * ((n - 1) * 16) as real)
  }

  ghost predicate LockTimed(regs: seq<nat>, pfd: real)
    requires |regs| == 13
  {
    Timed(pfd, Field(regs[9], 0x4000, 0x400), Field(regs[9], 0x100_0000, 0x100))
  }

  /** The smallest reference divider for which the feedback divider is large enough. */
  ghost predicate LeastDivider(ref: real, vco: real, rdiv: nat) {
    && rdiv >= 1 && NMIN as real * ref <= vco * rdiv as real
    && (rdiv > 1 ==> vco * (rdiv - 1) as real < NMIN as real * ref)
  }

  /** All bits of the registers that hold none of the values loaded are as before. */
  ghost predicate OthersKept(regs: seq<nat>, was: seq<nat>) {
    && |regs| == |was| == 13
    && (forall i | i in {3, 5, 7, 8, 11, 12} :: regs[i] == was[i])
    && SameOutside(regs[0], was[0], 0x10, 0x40_0000) && SameOutside(regs[1], was[1], 0x10, 0x1000_0000)
    && SameOutside(regs[2], was[2], 0x10, 0x1_0000_0000) && SameOutside(regs[4], was[4], 0x10, 0x800_0000)
    && Field(regs[4], 0x20, 0x400) == Field(was[4], 0x20, 0x400)
    && SameOutside(regs[6], was[6], 0x20_0000, 0x100_0000) && SameOutside(regs[9], was[9], 0x10, 0x1_0000_0000)
    && SameOutside(regs[10], was[10], 0x40, 0x4000)
  }

  /** The frequency a divider produces. */
  function Produced(d: Divider, pfd: real, sel: nat): real
    requires d.mod2 > 0
  {
    pfd * Actual(d) / Pow2(sel) as real
  }

  function StepDivisor(mod2: nat, sel: nat): (s: real)
    requires mod2 > 0
    ensures s > 0.0
  {
    TWO24 as real * mod2 as real * Pow2(sel) as real
  }

  /** One step of the finer fraction at the output. */
  function Resolution(pfd: real, mod2: nat, sel: nat): real
    requires mod2 > 0
  {
    pfd / StepDivisor(mod2, sel)
  }

  /** What the divider loses, seen at the output. */
  lemma OutputError(rf: real, pfd: real, ndiv: real, d: Divider, sel: nat)
    requires pfd > 0.0 && d.mod2 > 0 && ndiv == VcoFor(rf, sel) / pfd
    requires 0.0 <= ndiv - Actual(d) < 1.0 / (TWO24 as real * d.mod2 as real)
    ensures 0.0 <= rf - Produced(d, pfd, sel) < Resolution(pfd, d.mod2, sel)
  {
    hide Actual, Pow2;
    var o := Pow2(sel) as real;
    RealArith.MulOfDiv(pfd, rf * o, pfd);
    RealArith.DivUnique(rf * o, pfd * (rf * o), pfd);
    ErrorAtOutput(rf, pfd, ndiv, Actual(d), TWO24 as real * d.mod2 as real, o, StepDivisor(d.mod2, sel));
  }

  lemma ErrorAtOutput(rf: real, pfd: real, ndiv: real, a: real, m: real, o: real, s: real)
    requires pfd > 0.0 && m > 0.0 && o > 0.0 && ndiv * pfd == rf * o && 0.0 <= ndiv - a < 1.0 / m
    requires s == m * o
    ensures s > 0.0 && 0.0 <= rf - pfd * a / o < pfd / s
  {
    var e, w := ndiv - a, pfd * a / o;
    var x := rf - w;
    assert w * o == pfd * a;
    assert x * o == e * pfd by {
      assert x * o == rf * o - w * o;
      assert e * pfd == ndiv * pfd - a * pfd;
    }
    RealArith.DivUnique(x, e * pfd, o);
    RealArith.MulMonotone(0.0, e, pfd);
    RealArith.DivLess(e * pfd, o, 0.0);
    RealArith.DivLess(1.0, m, e);
    RealArith.MulMonotone(e * m, 1.0, pfd);
    RealArith.MulMonotone(0.0, m, o);
    assert x * (m * o) == e * m * pfd by {
      assert x * (m * o) == x * o * m;
      assert e * pfd * m == e * m * pfd;
    }
    RealArith.DivLess(pfd, s, x);
  }

  // -------------------------------------------------------------------
  // What the chip is told.
  // -------------------------------------------------------------------

  /** Setting a field twice is setting it once. */
  lemma ModifyTwice(reg: nat, first: nat, second: nat, place: nat, range: nat)
    requires 0 < place && 0 < range
    ensures ModifyField(ModifyField(reg, first, place, range), second, place, range)
         == ModifyField(reg, second, place, range)
  {
    ModifyFieldSets(reg, first, place, range);
  }

  /** The word sent for a register: its number in the low four bits. */
  function Word(reg: nat, value: nat): nat {
    value / 16 * 16 + reg
  }

  /** The chip finds the register's number, and all its other bits, in the word. */
  lemma WordHolds(reg: nat, value: nat)
    requires reg < 16
    ensures Word(reg, value) % 16 == reg && Word(reg, value) / 16 == value / 16
  {
    Arith.RemainderUnique(Word(reg, value), 16, value / 16, reg);
  }

  /** So every field from the fifth bit on can be read from the word. */
  lemma WordField(reg: nat, value: nat, k: nat, range: nat)
    requires reg < 16 && 0 < k && 0 < range
    ensures Field(Word(reg, value), 16 * k, range) == Field(value, 16 * k, range)
  {
    WordHolds(reg, value);
    Arith.DivDiv(Word(reg, value), 16, k);
    Arith.DivDiv(value, 16, k);
  }

  /** What the chip holds after all registers were sent decodes to what the
      driver's registers do. */
  lemma ChipDecodes(regs: seq<nat>)
    requires |regs| == 13
    ensures |Words(regs)| == 13
    ensures LoadedDivider(Words(regs)) == LoadedDivider(regs)
    ensures LoadedSel(Words(regs)) == LoadedSel(regs) && LoadedR(Words(regs)) == LoadedR(regs)
  {
    hide Word, Field;
    WordField(0, regs[0], 1, 0x1_0000);
    WordField(1, regs[1], 1, 0x100_0000);
    WordField(2, regs[2], 0x4000, 0x4000);
    WordField(2, regs[2], 1, 0x4000);
    WordField(6, regs[6], 0x2_0000, 8);
    WordField(4, regs[4], 0x800, 0x400);
  }

  function Words(regs: seq<nat>): seq<nat> {
    seq(|regs|, i requires 0 <= i < |regs| => Word(i, regs[i]))
  }

  /** The chip's registers after a run of words. */
  ghost function Replayed(chip: seq<nat>, writes: seq<nat>): (r: seq<nat>)
    ensures |r| == |chip|
  {
    if writes == [] then chip
    else
      var before, w := Replayed(chip, writes[..|writes| - 1]), writes[|writes| - 1];
      if w % 16 < |chip| then before[w % 16 := w] else before
  }

  lemma ReplayedMore(chip: seq<nat>, writes: seq<nat>, reg: nat, value: nat)
    requires reg < |chip| <= 16
    ensures Replayed(chip, writes + [Word(reg, value)]) == Replayed(chip, writes)[reg := Word(reg, value)]
  {
    var w := Word(reg, value);
    WordHolds(reg, value);
    assert (writes + [w])[..|writes|] == writes;
  }

  /** The frequency update: registers 6, 9 and 10, then 4 with the counters held in
      reset, then 2, 1 and 0 without autocalibration, then 4 with the counters
      released, and 0 with autocalibration last. */
  function Updated(writes: seq<nat>, regs: seq<nat>): seq<nat>
    requires |regs| == 13
  {
    writes + [Word(6, regs[6])] + [Word(9, regs[9])] + [Word(10, regs[10])]
    + [Word(4, ModifyField(regs[4], 1, 0x10, 2))] + [Word(2, regs[2])] + [Word(1, regs[1])]
    + [Word(0, ModifyField(regs[0], 0, 0x20_0000, 2))] + [Word(4, regs[4])] + [Word(0, regs[0])]
  }

  /** The order of the registers, and the two bits that change on the way: the
      counters are held in reset from before the first divider is sent until after
      the last one, and the word that starts calibration comes after both. */
  lemma UpdateOrder(writes: seq<nat>, regs: seq<nat>)
    requires |regs| == 13
    ensures |Updated(writes, regs)| == |writes| + 9 && Updated(writes, regs)[..|writes|] == writes
    ensures var u := Updated(writes, regs)[|writes|..];
            && u[0] % 16 == 6 && u[1] % 16 == 9 && u[2] % 16 == 10 && u[3] % 16 == 4 && u[4] % 16 == 2
            && u[5] % 16 == 1 && u[6] % 16 == 0 && u[7] % 16 == 4 && u[8] % 16 == 0
            && u[3] / 16 % 2 == 1 && u[7] / 16 == regs[4] / 16 && u[3] / 16 / 2 == u[7] / 16 / 2
            && Field(u[6], 0x20_0000, 2) == 0 && u[8] / 16 == regs[0] / 16
            && Field(u[6], 0x10, 0x1_0000) == Field(u[8], 0x10, 0x1_0000)
            && u[4] / 16 == regs[2] / 16 && u[5] / 16 == regs[1] / 16
  {
    hide Word, ModifyField, Field;
    var held, still := ModifyField(regs[4], 1, 0x10, 2), ModifyField(regs[0], 0, 0x20_0000, 2);
    forall i, v: nat | 0 <= i < 13 ensures Word(i, v) % 16 == i && Word(i, v) / 16 == v / 16 {
      WordHolds(i, v);
    }
    HeldAndStill(regs[4], regs[0]);
    WordField(0, still, 0x2_0000, 2);
    WordField(0, still, 1, 0x1_0000);
    WordField(0, regs[0], 1, 0x1_0000);
  }

  lemma HeldAndStill(r4: nat, r0: nat)
    ensures var held := ModifyField(r4, 1, 0x10, 2); held / 16 % 2 == 1 && held / 16 / 2 == r4 / 16 / 2
    ensures var still := ModifyField(r0, 0, 0x20_0000, 2);
            Field(still, 0x20_0000, 2) == 0 && Field(still, 0x10, 0x1_0000) == Field(r0, 0x10, 0x1_0000)
  {
    ModifyFieldSets(r4, 1, 0x10, 2);
    ModifyFieldSets(r0, 0, 0x20_0000, 2);
    LowerFieldKept(r0, 0, 0x20_0000, 2, 0x10, 0x1_0000, 2);
  }

  /** The update leaves the chip with the driver's registers if only those it
      sends had changed. */
  lemma UpdateReaches(chip: seq<nat>, writes: seq<nat>, was: seq<nat>, regs: seq<nat>)
    requires |chip| == |was| == |regs| == 13 && Replayed(chip, writes) == Words(was)
    requires forall i | i in {3, 5, 7, 8, 11, 12} :: regs[i] == was[i]
    ensures Replayed(chip, Updated(writes, regs)) == Words(regs)
  {
    hide Replayed, Word, Words, ModifyField;
    var held, still := ModifyField(regs[4], 1, 0x10, 2), ModifyField(regs[0], 0, 0x20_0000, 2);
    var w, c := ReplayedNext(chip, writes, Words(was), 6, regs[6]);
    w, c := ReplayedNext(chip, w, c, 9, regs[9]);
    w, c := ReplayedNext(chip, w, c, 10, regs[10]);
    w, c := ReplayedNext(chip, w, c, 4, held);
    w, c := ReplayedNext(chip, w, c, 2, regs[2]);
    w, c := ReplayedNext(chip, w, c, 1, regs[1]);
    w, c := ReplayedNext(chip, w, c, 0, still);
    w, c := ReplayedNext(chip, w, c, 4, regs[4]);
    w, c := ReplayedNext(chip, w, c, 0, regs[0]);
    AllReplaced(was, regs, Word(4, held), Word(0, still));
  }

  lemma AllReplaced(was: seq<nat>, regs: seq<nat>, held: nat, still: nat)
    requires |was| == |regs| == 13 && forall i | i in {3, 5, 7, 8, 11, 12} :: regs[i] == was[i]
    ensures |Words(was)| == 13
    ensures Words(was)[6 := Word(6, regs[6])][9 := Word(9, regs[9])][10 := Word(10, regs[10])][4 := held]
                      [2 := Word(2, regs[2])][1 := Word(1, regs[1])][0 := still][4 := Word(4, regs[4])]
                      [0 := Word(0, regs[0])]
         == Words(regs)
  {
    hide Word;
  }

  lemma ReplayedNext(chip: seq<nat>, writes: seq<nat>, now: seq<nat>, reg: nat, value: nat)
    returns (w: seq<nat>, c: seq<nat>)
    requires |now| == |chip| == 13 && reg < 13 && Replayed(chip, writes) == now
    ensures w == writes + [Word(reg, value)] && c == now[reg := Word(reg, value)] && Replayed(chip, w) == c
  {
    w, c := writes + [Word(reg, value)], now[reg := Word(reg, value)];
    ReplayedMore(chip, writes, reg, value);
  }

  class Synth {
    const ref: real
    /** The registers as the driver keeps them, and what it sent to the chip. */
    var regs: seq<nat>
    var writes: seq<nat>

    /** Whatever the chip held at first, it now holds the driver's registers. */
    ghost predicate Valid()
      reads this
    {
      && |regs| == 13 && 4.0 <= ref
      && forall chip: seq<nat> | |chip| == 13 :: Replayed(chip, writes) == Words(regs)
    }

    /** Sends all registers, the last one first. */
    constructor (ref: real, regs: seq<nat>)
      requires |regs| == 13 && 4.0 <= ref
      ensures Valid() && this.ref == ref && this.regs == regs
    {
      this.ref, this.regs, this.writes := ref, regs, [];
      new;
      var reg := 13;
      while reg > 0
        invariant 0 <= reg <= 13 && this.ref == ref && this.regs == regs
        invariant forall chip: seq<nat> | |chip| == 13 ::
                    forall i | reg <= i < 13 :: Replayed(chip, writes)[i] == Word(i, regs[i])
      {
        reg := reg - 1;
        ghost var before := writes;
        WriteReg(reg);
        forall chip: seq<nat> | |chip| == 13
          ensures forall i | reg <= i < 13 :: Replayed(chip, writes)[i] == Word(i, regs[i])
        {
          ReplayedMore(chip, before, reg, regs[reg]);
        }
      }
    }

    /** Loads register 0: the integer part, the prescaler and autocalibration. */
    method LoadReg0(nint: nat)
      requires |regs| == 13
      modifies `regs
      ensures |regs| == 13 && regs == old(regs)[0 := regs[0]] && Field(regs[0], 0x10, 0x1_0000) == nint % 0x1_0000
      ensures Field(regs[0], 0x10_0000, 2) == 0 && SameOutside(regs[0], old(regs[0]), 0x10, 0x40_0000)
    {
      hide ModifyField, Field;
      var r := ModifyField(regs[0], nint, 0x10, 0x1_0000);
      ModifyInside(regs[0], nint, 0x10, 0x1_0000, 0x10, 1, 0x40_0000, 4);
      ModifyInside(r, 0, 0x10_0000, 2, 0x10, 0x1_0000, 0x40_0000, 2);
      ModifyInside(ModifyField(r, 0, 0x10_0000, 2), 1, 0x20_0000, 2, 0x10, 0x2_0000, 0x40_0000, 1);
      ModifyFieldSets(regs[0], nint, 0x10, 0x1_0000);
      LowerFieldKept(r, 0, 0x10_0000, 2, 0x10, 0x1_0000, 1);
      ModifyFieldSets(r, 0, 0x10_0000, 2);
      r := ModifyField(r, 0, 0x10_0000, 2);
      LowerFieldKept(r, 1, 0x20_0000, 2, 0x10_0000, 2, 1);
      LowerFieldKept(r, 1, 0x20_0000, 2, 0x10, 0x1_0000, 2);
      r := ModifyField(r, 1, 0x20_0000, 2);
      regs := regs[0 := r];
    }

    /** Loads register 2: modulus and fine fraction. */
    method LoadReg2(mod2: nat, frac2: nat)
      requires |regs| == 13 && mod2 < 0x4000 && frac2 < 0x4000
      modifies `regs
      ensures |regs| == 13 && regs == old(regs)[2 := regs[2]]
      ensures Field(regs[2], 0x10, 0x4000) == mod2 && Field(regs[2], 0x4_0000, 0x4000) == frac2
      ensures SameOutside(regs[2], old(regs[2]), 0x10, 0x1_0000_0000)
    {
      hide ModifyField, Field;
      ModifyInside(regs[2], mod2, 0x10, 0x4000, 0x10, 1, 0x1_0000_0000, 0x4000);
      ModifyInside(ModifyField(regs[2], mod2, 0x10, 0x4000), frac2, 0x4_0000, 0x4000, 0x10, 0x4000, 0x1_0000_0000, 1);
      ModifyFieldSets(regs[2], mod2, 0x10, 0x4000);
      var r := ModifyField(regs[2], mod2, 0x10, 0x4000);
      LowerFieldKept(r, frac2, 0x4_0000, 0x4000, 0x10, 0x4000, 1);
      ModifyFieldSets(r, frac2, 0x4_0000, 0x4000);
      regs := regs[2 := ModifyField(r, frac2, 0x4_0000, 0x4000)];
    }

    /** Loads register 4: the reference divider and the reference options. */
    method LoadReg4(rdiv: nat)
      requires |regs| == 13
      modifies `regs
      ensures |regs| == 13 && regs == old(regs)[4 := regs[4]] && Field(regs[4], 0x8000, 0x400) == rdiv % 0x400
      ensures Field(regs[4], 0x200_0000, 2) == 0 && Field(regs[4], 0x400_0000, 2) == 0
      ensures SameOutside(regs[4], old(regs[4]), 0x10, 0x800_0000)
      ensures Field(regs[4], 0x20, 0x400) == old(Field(regs[4], 0x20, 0x400))
    {
      hide ModifyField, Field;
      ModifyFieldSets(regs[4], rdiv, 0x8000, 0x400);
      var r := ModifyField(regs[4], rdiv, 0x8000, 0x400);
      ModifyInside(regs[4], rdiv, 0x8000, 0x400, 0x10, 0x800, 0x800_0000, 4);
      ModifyInside(r, 0, 0x200_0000, 2, 0x10, 0x20_0000, 0x800_0000, 2);
      ModifyInside(ModifyField(r, 0, 0x200_0000, 2), 0, 0x400_0000, 2, 0x10, 0x40_0000, 0x800_0000, 1);
      LowerFieldKept(regs[4], rdiv, 0x8000, 0x400, 0x20, 0x400, 1);
      LowerFieldKept(r, 0, 0x200_0000, 2, 0x20, 0x400, 0x400);
      LowerFieldKept(ModifyField(r, 0, 0x200_0000, 2), 0, 0x400_0000, 2, 0x20, 0x400, 0x800);
      LowerFieldKept(r, 0, 0x200_0000, 2, 0x8000, 0x400, 1);
      ModifyFieldSets(r, 0, 0x200_0000, 2);
      r := ModifyField(r, 0, 0x200_0000, 2);
      LowerFieldKept(r, 0, 0x400_0000, 2, 0x8000, 0x400, 2);
      LowerFieldKept(r, 0, 0x400_0000, 2, 0x200_0000, 2, 1);
      ModifyFieldSets(r, 0, 0x400_0000, 2);
      r := ModifyField(r, 0, 0x400_0000, 2);
      regs := regs[4 := r];
    }

    /** Sets the counter reset bit of register 4, and nothing else. */
    method SetCounterReset(on: nat)
      requires |regs| == 13 && on < 2
      modifies `regs
      ensures |regs| == 13 && regs == old(regs)[4 := regs[4]] && regs[4] == ModifyField(old(regs[4]), on, 0x10, 2)
      ensures Field(regs[4], 0x10, 2) == on
      ensures SameOutside(regs[4], old(regs[4]), 0x10, 0x800_0000)
      ensures Field(regs[4], 0x8000, 0x400) == old(Field(regs[4], 0x8000, 0x400))
      ensures Field(regs[4], 0x200_0000, 2) == old(Field(regs[4], 0x200_0000, 2))
      ensures Field(regs[4], 0x400_0000, 2) == old(Field(regs[4], 0x400_0000, 2))
      ensures Field(regs[4], 0x20, 0x400) == old(Field(regs[4], 0x20, 0x400))
    {
      hide ModifyField, Field;
      ModifyInside(regs[4], on, 0x10, 2, 0x10, 1, 0x800_0000, 0x40_0000);
      ModifyFieldSets(regs[4], on, 0x10, 2);
      UpperFieldKept(regs[4], on, 0x10, 2, 0x20, 0x400, 1);
      UpperFieldKept(regs[4], on, 0x10, 2, 0x8000, 0x400, 0x400);
      UpperFieldKept(regs[4], on, 0x10, 2, 0x200_0000, 2, 0x10_0000);
      UpperFieldKept(regs[4], on, 0x10, 2, 0x400_0000, 2, 0x20_0000);
      regs := regs[4 := ModifyField(regs[4], on, 0x10, 2)];
    }

    /** Sets the autocalibration bit of register 0, and nothing else. */
    method SetAutocal(on: nat)
      requires |regs| == 13 && on < 2
      modifies `regs
      ensures |regs| == 13 && regs == old(regs)[0 := regs[0]] && regs[0] == ModifyField(old(regs[0]), on, 0x20_0000, 2)
      ensures Field(regs[0], 0x20_0000, 2) == on
      ensures SameOutside(regs[0], old(regs[0]), 0x10, 0x40_0000)
      ensures Field(regs[0], 0x10, 0x1_0000) == old(Field(regs[0], 0x10, 0x1_0000))
      ensures Field(regs[0], 0x10_0000, 2) == old(Field(regs[0], 0x10_0000, 2))
    {
      hide ModifyField, Field;
      ModifyInside(regs[0], on, 0x20_0000, 2, 0x10, 0x2_0000, 0x40_0000, 1);
      ModifyFieldSets(regs[0], on, 0x20_0000, 2);
      LowerFieldKept(regs[0], on, 0x20_0000, 2, 0x10_0000, 2, 1);
      LowerFieldKept(regs[0], on, 0x20_0000, 2, 0x10, 0x1_0000, 2);
      regs := regs[0 := ModifyField(regs[0], on, 0x20_0000, 2)];
    }

    /** Sends a register to the chip. */
    method WriteReg(reg: nat)
      requires |regs| == 13 && reg < 13
      modifies `writes
      ensures writes == old(writes) + [Word(reg, regs[reg])]
    {
      writes := writes + [Word(reg, regs[reg])];
    }

    /** The update sequence: everything else first, the dividers while the counters
        are held in reset and without calibration, which comes last. */
    method Update()
      requires |regs| == 13
      modifies `regs, `writes
      ensures |regs| == 13 && regs == old(regs)[4 := regs[4]][0 := regs[0]]
      ensures writes == Updated(old(writes), regs)
      ensures Field(regs[4], 0x10, 2) == 0 && Field(regs[0], 0x20_0000, 2) == 1
      ensures SameOutside(regs[0], old(regs[0]), 0x10, 0x40_0000)
      ensures SameOutside(regs[4], old(regs[4]), 0x10, 0x800_0000)
      ensures Field(regs[4], 0x8000, 0x400) == old(Field(regs[4], 0x8000, 0x400))
      ensures Field(regs[4], 0x200_0000, 2) == old(Field(regs[4], 0x200_0000, 2))
      ensures Field(regs[4], 0x400_0000, 2) == old(Field(regs[4], 0x400_0000, 2))
      ensures Field(regs[4], 0x20, 0x400) == old(Field(regs[4], 0x20, 0x400))
      ensures Field(regs[0], 0x10, 0x1_0000) == old(Field(regs[0], 0x10, 0x1_0000))
      ensures Field(regs[0], 0x10_0000, 2) == old(Field(regs[0], 0x10_0000, 2))
    {
      hide Field, ModifyField, Word;
      WriteReg(6);
      WriteReg(9);
      WriteReg(10);
      SetCounterReset(1);
      WriteReg(4);
      WriteReg(2);
      WriteReg(1);
      SetAutocal(0);
      WriteReg(0);
      SetCounterReset(0);
      WriteReg(4);
      SetAutocal(1);
      WriteReg(0);
      BitsBack(old(regs[4]), old(regs[0]));
    }

    lemma BitsBack(r4: nat, r0: nat)
      ensures var held := ModifyField(r4, 1, 0x10, 2); ModifyField(ModifyField(held, 0, 0x10, 2), 1, 0x10, 2) == held
      ensures var still := ModifyField(r0, 0, 0x20_0000, 2);
              ModifyField(ModifyField(still, 1, 0x20_0000, 2), 0, 0x20_0000, 2) == still
    {
      ModifyTwice(ModifyField(r4, 1, 0x10, 2), 0, 1, 0x10, 2);
      ModifyTwice(r4, 1, 1, 0x10, 2);
      ModifyTwice(ModifyField(r0, 0, 0x20_0000, 2), 1, 0, 0x20_0000, 2);
      ModifyTwice(r0, 0, 0, 0x20_0000, 2);
    }

    /** Register 9: lock timeouts and band division, which all fit. */
    method LoadReg9(timeout: nat, band: nat)
      requires |regs| == 13 && timeout < 0x400 && band < 0x100
      modifies `regs
      ensures |regs| == 13 && regs == old(regs)[9 := regs[9]]
      ensures Field(regs[9], 0x4000, 0x400) == timeout && Field(regs[9], 0x100_0000, 0x100) == band
      ensures Field(regs[9], 0x10, 0x20) == 12 && Field(regs[9], 0x200, 0x20) == 30
      ensures SameOutside(regs[9], old(regs[9]), 0x10, 0x1_0000_0000)
    {
      hide ModifyField, Field;
      ModifyFieldSets(regs[9], 12, 0x10, 0x20);
      ModifyInside(regs[9], 12, 0x10, 0x20, 0x10, 1, 0x1_0000_0000, 0x80_0000);
      var r := ModifyField(regs[9], 12, 0x10, 0x20);
      ModifyInside(r, 30, 0x200, 0x20, 0x10, 0x20, 0x1_0000_0000, 0x4_0000);
      LowerFieldKept(r, 30, 0x200, 0x20, 0x10, 0x20, 1);
      ModifyFieldSets(r, 30, 0x200, 0x20);
      r := ModifyField(r, 30, 0x200, 0x20);
      LowerFieldKept(r, timeout, 0x4000, 0x400, 0x10, 0x20, 0x20);
      LowerFieldKept(r, timeout, 0x4000, 0x400, 0x200, 0x20, 1);
      ModifyFieldSets(r, timeout, 0x4000, 0x400);
      ModifyInside(r, timeout, 0x4000, 0x400, 0x10, 0x400, 0x1_0000_0000, 0x100);
      r := ModifyField(r, timeout, 0x4000, 0x400);
      LowerFieldKept(r, band, 0x100_0000, 0x100, 0x10, 0x20, 0x8000);
      LowerFieldKept(r, band, 0x100_0000, 0x100, 0x200, 0x20, 0x400);
      LowerFieldKept(r, band, 0x100_0000, 0x100, 0x4000, 0x400, 1);
      ModifyFieldSets(r, band, 0x100_0000, 0x100);
      ModifyInside(r, band, 0x100_0000, 0x100, 0x10, 0x10_0000, 0x1_0000_0000, 1);
      regs := regs[9 := ModifyField(r, band, 0x100_0000, 0x100)];
    }

    /** Tunes to `rf` in the advertised range: both searches end. There is no
        result exactly for a reference below 1 MHz, whose modulus is zero.
        Otherwise all parts of the feedback divider fit their fields and the
        frequency returned is below the request by less than one step; the
        registers decode to it as long as the reference divider fits its field,
        too, and the condition for that is exact. */
    method TuneSynth(rf: real) returns (actual: Option<real>, ghost rdiv: nat)
      requires Valid() && 54.0e6 <= rf <= 4.4e9
      modifies this
      ensures Valid() && LoadedSel(regs) <= 6 && LoadedR(regs) == rdiv % 0x400
      ensures LeastDivider(ref, VcoFor(rf, LoadedSel(regs)), rdiv)
      ensures rdiv < 0x400 <==> NMIN as real * ref <= 1023.0 * VcoFor(rf, LoadedSel(regs))
      ensures actual.None? <==> ref < 1.0e6
      ensures LoadedDivider(regs).mod2 == 0 <==> ref < 1.0e6
      ensures LockTimed(regs, ref / rdiv as real)
      ensures actual.Some? ==>
                var pfd, d := ref / rdiv as real, LoadedDivider(regs);
                && actual.value == Produced(d, pfd, LoadedSel(regs))
                && 0.0 <= rf - actual.value < Resolution(pfd, d.mod2, LoadedSel(regs))
      ensures OptionsSet(regs) && OthersKept(regs, old(regs))
      ensures writes == Updated(old(writes), regs)
    {
      hide VcoFor, Produced, Resolution, Field, OptionsSet, LoadedDivider, LoadedR, LoadedSel, OthersKept;
      hide LeastDivider, LockTimed, Timed, Updated, Replayed, Words;
      var sel, r, pfd, d, timeout, band := Plan(rf);
      rdiv := r;
      FitsIff(ref, VcoFor(rf, sel), r);
      Load(d, r, sel, timeout, band);
      forall chip: seq<nat> | |chip| == 13 ensures Replayed(chip, writes) == Words(regs) {
        KeptOnes(regs, old(regs));
        UpdateReaches(chip, old(writes), old(regs), regs);
      }
      LockIs(regs, pfd, timeout, band);
      actual := if d.mod2 == 0 then None else Some(Produced(d, pfd, sel));
    }

    /** All values to be loaded for `rf`. */
    method Plan(rf: real) returns (sel: nat, rdiv: nat, pfd: real, d: Divider, timeout: nat, band: nat)
      requires Valid() && 54.0e6 <= rf <= 4.4e9
      ensures sel <= 6 && VcoFor(rf, sel) > 0.0 && LeastDivider(ref, VcoFor(rf, sel), rdiv)
      ensures rdiv >= 1 && pfd == ref / rdiv as real > 0.0
      ensures d.frac1 < TWO24 && d.mod2 < 0x4000 && d.frac2 < 0x4000 && (d.mod2 == 0 <==> ref < 1.0e6)
      ensures timeout < 0x400 && band < 0x100 && Timed(pfd, timeout, band)
      ensures d.mod2 > 0 ==> d.nint < 0x1_0000 && 0.0 <= rf - Produced(d, pfd, sel) < Resolution(pfd, d.mod2, sel)
    {
      hide VcoFor, Actual, Produced, Resolution, Pow2, LeastDivider, CeilTimeout;
      var vco, ndiv;
      sel, vco := OutputDivider(rf);
      rdiv, pfd, ndiv := ReferenceDivider(ref, vco);
      DividerFits(ref, vco, rdiv, ndiv);
      Least(ref, vco, rdiv);
      d := Split(ndiv, pfd);
      band := BandDivision(pfd);
      timeout := CeilTimeout(pfd);
      Mod2Fits(pfd);
      BandFits(pfd, band);
      if d.mod2 > 0 {
        NintFits(ndiv, vco, pfd);
        OutputError(rf, pfd, ndiv, d, sel);
      }
    }

    lemma BandFits(pfd: real, n: nat)
      requires pfd <= 296.0e6 && (n > 1 ==> pfd >= 150.0e3 * ((n - 1) * 16) as real)
      ensures n < 0x100
    {
    }

    lemma KeptOnes(regs: seq<nat>, was: seq<nat>)
      requires OthersKept(regs, was)
      ensures |regs| == |was| == 13 && forall i | i in {3, 5, 7, 8, 11, 12} :: regs[i] == was[i]
    {
    }

    lemma LockIs(regs: seq<nat>, pfd: real, t: nat, n: nat)
      requires |regs| == 13 && Field(regs[9], 0x4000, 0x400) == t && Field(regs[9], 0x100_0000, 0x100) == n
      requires Timed(pfd, t, n)
      ensures LockTimed(regs, pfd)
    {
    }

    lemma FitsIff(ref: real, vco: real, rdiv: nat)
      requires ref > 0.0 && vco > 0.0 && LeastDivider(ref, vco, rdiv)
      ensures rdiv < 0x400 <==> NMIN as real * ref <= 1023.0 * vco
    {
      LeastBelow(NMIN as real * ref, vco, rdiv as real, (rdiv - 1) as real, 1023.0);
    }

    lemma LeastBelow(need: real, vco: real, d: real, before: real, top: real)
      requires vco > 0.0 && need <= vco * d && (d > 1.0 ==> vco * before < need)
      requires before == d - 1.0 && 1.0 <= top && (d <= top || top <= before)
      ensures d <= top <==> need <= top * vco
    {
      RealArith.MulMonotone(d, top, vco);
      RealArith.MulMonotone(top, before, vco);
    }

    /** Loads all registers and goes through the update sequence. */
    method Load(d: Divider, rdiv: nat, sel: nat, timeout: nat, band: nat)
      requires |regs| == 13 && d.frac1 < TWO24 && d.mod2 < 0x4000 && d.frac2 < 0x4000
      requires sel < 8 && timeout < 0x400 && band < 0x100
      modifies `regs, `writes
      ensures |regs| == 13 && LoadedDivider(regs) == d.(nint := d.nint % 0x1_0000)
      ensures LoadedR(regs) == rdiv % 0x400 && LoadedSel(regs) == sel
      ensures OptionsSet(regs)
      ensures Field(regs[9], 0x4000, 0x400) == timeout && Field(regs[9], 0x100_0000, 0x100) == band
      ensures writes == Updated(old(writes), regs)
      ensures OthersKept(regs, old(regs))
    {
      hide ModifyField, Field, Updated;
      LoadReg0(d.nint);
      ModifyFieldSets(regs[1], d.frac1, 0x10, 0x100_0000);
      ModifyInside(regs[1], d.frac1, 0x10, 0x100_0000, 0x10, 1, 0x1000_0000, 1);
      regs := regs[1 := ModifyField(regs[1], d.frac1, 0x10, 0x100_0000)];
      LoadReg2(d.mod2, d.frac2);
      LoadReg4(rdiv);
      ModifyFieldSets(regs[6], sel, 0x20_0000, 8);
      ModifyInside(regs[6], sel, 0x20_0000, 8, 0x20_0000, 1, 0x100_0000, 1);
      regs := regs[6 := ModifyField(regs[6], sel, 0x20_0000, 8)];
      LoadReg9(timeout, band);
      ModifyFieldSets(regs[10], 65, 0x40, 0x100);
      ModifyInside(regs[10], 65, 0x40, 0x100, 0x40, 1, 0x4000, 1);
      regs := regs[10 := ModifyField(regs[10], 65, 0x40, 0x100)];
      Update();
    }

    lemma Least(ref: real, vco: real, rdiv: nat)
      requires ref > 0.0 && vco > 0.0 && rdiv >= 1
      requires ref / rdiv as real > 0.0 && vco / (ref / rdiv as real) >= NMIN as real
      requires rdiv > 1 ==> vco / (ref / (rdiv - 1) as real) < NMIN as real
      ensures LeastDivider(ref, vco, rdiv)
    {
      EnoughIff(ref, vco, rdiv);
      if rdiv > 1 {
        EnoughIff(ref, vco, rdiv - 1);
      }
    }

    lemma EnoughIff(ref: real, vco: real, rdiv: nat)
      requires ref > 0.0 && vco > 0.0 && rdiv >= 1
      ensures ref / rdiv as real > 0.0
      ensures vco / (ref / rdiv as real) < NMIN as real <==> vco * rdiv as real < NMIN as real * ref
    {
      PfdPositive(ref, vco, rdiv);
      RealArith.DivLess(vco * rdiv as real, ref, NMIN as real);
    }

    /** The reference divider leaves a comparison frequency of at most 296 MHz, and
        one of at least 1 MHz exactly if the reference is. */
    lemma DividerFits(ref: real, vco: real, rdiv: nat, ndiv: real)
      requires 0.0 < ref && 3.4e9 <= vco < 6.8e9
      requires rdiv >= 1 && ref / rdiv as real > 0.0 && ndiv == vco / (ref / rdiv as real) >= NMIN as real
      requires rdiv > 1 ==> vco / (ref / (rdiv - 1) as real) < NMIN as real
      ensures ref / rdiv as real <= 296.0e6 && (ref / rdiv as real < 1.0e6 <==> ref < 1.0e6)
    {
      RealArith.DivLess(vco, ref / rdiv as real, NMIN as real);
      RealArith.DivLess(ref, rdiv as real, 1.0e6);
      if rdiv > 1 {
        EnoughIff(ref, vco, rdiv - 1);
        FarAbove(ref, vco, rdiv as real, (rdiv - 1) as real);
      }
    }

    lemma FarAbove(ref: real, vco: real, d: real, before: real)
      requires 3.4e9 <= vco && 2.0 <= d && before == d - 1.0 && vco * before < 23.0 * ref
      ensures 1.0e6 * d < ref && 1.0e6 < ref
    {
      RealArith.MulMonotone(3.4e9, vco, before);
    }

    lemma NintFits(ndiv: real, vco: real, pfd: real)
      requires pfd >= 1.0e6 && ndiv == vco / pfd && vco < 6.8e9
      ensures ndiv.Floor < 0x1_0000
    {
      RealArith.DivLess(vco, pfd, 6800.0);
      RealArith.MulMonotone(1.0e6, pfd, 6800.0);
    }

    lemma Mod2Fits(pfd: real)
      requires 0.0 < pfd <= 296.0e6
      ensures (pfd / 1.0e6).Floor < 0x4000
    {
      RealArith.DivLess(pfd, 1.0e6, 297.0);
    }

    /** The timeout: the ceiling of pfd * 50e-6 / 30. */
    function CeilTimeout(pfd: real): (t: nat)
      requires 0.0 < pfd <= 296.0e6
      ensures 30.0 * (t as real - 1.0) < pfd * 50.0e-6 <= 30.0 * t as real
      ensures t < 0x400
    {
      var q := pfd * 50.0e-6 / 30.0;
      if q.Floor as real == q then q.Floor else q.Floor + 1
    }
  }
}
