/** PLL tuning of the LMS6002D transceiver, in exact arithmetic. Frequencies are
    in hertz. */
module Lms6002d {
  import RealArith
  import opened Basics

  const TWO23: int := 0x80_0000

  /** A frequency range, half-open at the bottom, and its FREQSEL value. */
  datatype Band = Band(fmin: real, fmax: real, sel: nat)

  const BANDS: seq<Band> := [
    Band(232.5e6, 285.625e6, 0x27), Band(285.625e6, 336.875e6, 0x2f),
    Band(336.875e6, 405.0e6, 0x37), Band(405.0e6, 465.0e6, 0x3f),
    Band(465.0e6, 571.25e6, 0x26), Band(571.25e6, 673.75e6, 0x2e),
    Band(673.75e6, 810.0e6, 0x36), Band(810.0e6, 930.0e6, 0x3e),
    Band(930.0e6, 1142.5e6, 0x25), Band(1142.5e6, 1347.5e6, 0x2d),
    Band(1347.5e6, 1620.0e6, 0x35), Band(1620.0e6, 1860.0e6, 0x3d),
    Band(1860.0e6, 2285.0e6, 0x24), Band(2285.0e6, 2695.0e6, 0x2c),
    Band(2695.0e6, 3240.0e6, 0x34), Band(3240.0e6, 3720.0e6, 0x3c)]

  predicate InBand(b: Band, f: real) {
    b.fmin < f <= b.fmax
  }

  /** The VCO runs at a multiple of the output given by the low bits of FREQSEL. */
  function VcoX(sel: nat): (x: nat)
    ensures x > 0
  {
    if sel % 8 == 7 then 16 else if sel % 8 == 6 then 8 else if sel % 8 == 5 then 4 else 2
  }

  predicate Tunable(f: real) {
    232.5e6 < f <= 3720.0e6
  }

  /** The bands join without gap or overlap, and in every one the VCO stays
      between 3.72 and 7.44 GHz. */
  lemma BandFacts(i: nat)
    requires i < 16
    ensures |BANDS| == 16 && BANDS[i].sel < 64 && 4 <= BANDS[i].sel % 8
    ensures i < 15 ==> BANDS[i].fmax == BANDS[i + 1].fmin
    ensures BANDS[i].fmin < BANDS[i].fmax
    ensures VcoX(BANDS[i].sel) as real * BANDS[i].fmin >= 3720.0e6
    ensures VcoX(BANDS[i].sel) as real * BANDS[i].fmax <= 7440.0e6
  {
  }

  lemma {:induction false} BandsOrdered(i: nat, j: nat)
    requires i < j < 16
    ensures |BANDS| == 16 && BANDS[i].fmax <= BANDS[j].fmin
    decreases j
  {
    BandFacts(j - 1);
    if i < j - 1 {
      BandsOrdered(i, j - 1);
    }
  }

  /** At most one band matches. */
  lemma BandUnique(i: nat, j: nat, f: real)
    requires i < 16 && j < 16 && InBand(BANDS[i], f) && InBand(BANDS[j], f)
    ensures i == j
  {
    if i < j { BandsOrdered(i, j); } else if j < i { BandsOrdered(j, i); }
  }

  /** FREQSEL by frequency: its low bits divide the output down from the VCO by the
      power of two that brings the VCO above 3.72 GHz, and its high bits choose
      the VCO by the frequency it then runs at. */
  lemma SelByFrequency(i: nat, f: real)
    requires i < 16 && InBand(BANDS[i], f)
    ensures var sel := BANDS[i].sel;
            var vco := VcoX(sel) as real * f;
            && 3720.0e6 < vco <= 7440.0e6
            && sel % 8 == (if f <= 465.0e6 then 7 else if f <= 930.0e6 then 6 else if f <= 1860.0e6 then 5 else 4)
            && sel / 8 == (if vco <= 4570.0e6 then 4 else if vco <= 5390.0e6 then 5
                           else if vco <= 6480.0e6 then 6 else 7)
  {
    if i < 4 {
      assert VcoX(BANDS[i].sel) == 16;
    } else if i < 8 {
      assert VcoX(BANDS[i].sel) == 8;
    } else if i < 12 {
      assert VcoX(BANDS[i].sel) == 4;
    } else {
      assert VcoX(BANDS[i].sel) == 2;
    }
  }

  /** Looks the frequency up in the table; -1 when no band matches. */
  method FindBand(f: real) returns (sel: int)
    ensures sel == -1 <==> !Tunable(f)
    ensures sel != -1 ==> exists i | 0 <= i < 16 :: InBand(BANDS[i], f) && sel == BANDS[i].sel
  {
    BandFacts(0);
    BandFacts(15);
    for i := 0 to 16
      invariant forall k | 0 <= k < i :: !InBand(BANDS[k], f)
      invariant f > 232.5e6 ==> i == 0 || f > BANDS[i - 1].fmax
      invariant f <= 232.5e6 || i < 16 || f > 3720.0e6
    {
      BandFacts(i);
      if i > 0 {
        BandFacts(i - 1);
      }
      if f > BANDS[i].fmin && f <= BANDS[i].fmax {
        LowEdge(i);
        return BANDS[i].sel;
      }
    }
    sel := -1;
  }

  lemma LowEdge(i: nat)
    requires i < 16
    ensures |BANDS| == 16 && BANDS[i].fmin >= 232.5e6 && BANDS[i].fmax <= 3720.0e6
  {
    BandFacts(0);
    BandFacts(15);
    if i > 0 { BandsOrdered(0, i); BandFacts(i); }
    if i < 15 { BandsOrdered(i, 15); BandFacts(i); }
  }

  // -------------------------------------------------------------------
  // Divider values.
  // -------------------------------------------------------------------

  function Nint(x: nat, ref: real, f: real): int
    requires ref > 0.0
  {
    (x as real * f / ref).Floor
  }

  function Nfrac(x: nat, ref: real, f: real): int
    requires ref > 0.0
  {
    (ScaledRest(x, ref, f) / ref).Floor
  }

  /** What the integer part leaves, times 2^23. */
  function ScaledRest(x: nat, ref: real, f: real): real
    requires ref > 0.0
  {
    TWO23 as real * (x as real * f - Nint(x, ref, f) as real * ref)
  }

  /** The frequency that divider values stand for. */
  function Decoded(nint: int, nfrac: int, x: nat, ref: real): real
    requires x > 0
  {
    (nint as real + nfrac as real / TWO23 as real) * (ref / x as real)
  }

  /** The fraction fits 23 bits and the synthesized frequency falls short of the
      request by less than one step. */
  lemma TuningError(x: nat, ref: real, f: real)
    requires x > 0 && ref > 0.0 && f > 0.0
    ensures 0 <= Nint(x, ref, f) && 0 <= Nfrac(x, ref, f) < TWO23
    ensures 0.0 <= f - Decoded(Nint(x, ref, f), Nfrac(x, ref, f), x, ref) < ref / (x as real * TWO23 as real)
  {
    var q := x as real * f / ref;
    var n, k := Nint(x, ref, f), Nfrac(x, ref, f);
    assert q * ref == x as real * f;
    assert q > 0.0 by {
      assert x as real * f > 0.0;
      RealArith.DivLess(x as real * f, ref, 0.0);
    }
    var r := q - n as real;
    var num := ScaledRest(x, ref, f);
    assert TWO23 as real * r * ref == num by {
      assert x as real * f - n as real * ref == r * ref;
    }
    RealArith.DivUnique(TWO23 as real * r, num, ref);
    assert k == (num / ref).Floor;
    ErrorScales(f, q, n as real, k as real, x as real, ref);
  }

  lemma ErrorScales(f: real, q: real, n: real, k: real, x: real, ref: real)
    requires x > 0.0 && ref > 0.0 && q * ref == x * f
    requires k <= TWO23 as real * (q - n) < k + 1.0
    ensures var s := TWO23 as real;
            0.0 <= f - (n + k / s) * (ref / x) < ref / (x * s)
  {
    var s, step := TWO23 as real, ref / x;
    assert step * x == ref;
    assert f == q * step by {
      RealArith.MulOfDiv(q, ref, x);
      RealArith.DivUnique(f, q * ref, x);
    }
    var e := q - (n + k / s);
    assert f - (n + k / s) * step == e * step;
    var es := s * (q - n) - k;
    assert e == es / s;
    assert step > 0.0 by { RealArith.DivLess(ref, x, 0.0); }
    assert e * step * (x * s) == es * ref by {
      assert e * s == es;
      assert e * step * (x * s) == (e * s) * (step * x);
    }
    RealArith.MulMonotone(es, 1.0, ref);
    assert x * s > 0.0;
    RealArith.DivLess(ref, x * s, e * step);
    assert e >= 0.0 by { RealArith.DivLess(es, s, 0.0); }
    RealArith.MulMonotone(0.0, e, step);
    assert 0.0 <= e * step < ref / (x * s);
  }

  /** The integer part fits 9 bits for every tunable frequency exactly when the
      reference is above 14.53125 MHz. */
  lemma NintFitsIff(ref: real)
    requires ref > 0.0
    ensures (forall f: real, i | Tunable(f) && 0 <= i < 16 && InBand(BANDS[i], f) ::
               Nint(VcoX(BANDS[i].sel), ref, f) < 512)
            <==> ref > 14.53125e6
  {
    BandFacts(0);
    hide VcoX;
    if ref > 14.53125e6 {
      forall f: real, i | Tunable(f) && 0 <= i < 16 && InBand(BANDS[i], f)
        ensures Nint(VcoX(BANDS[i].sel), ref, f) < 512
      {
        VcoBelowMax(i, f);
        RealArith.DivLess(VcoX(BANDS[i].sel) as real * f, ref, 512.0);
      }
    } else {
      TopBand();
      RealArith.DivLess(7440.0e6, ref, 512.0);
      assert Tunable(3720.0e6) && InBand(BANDS[15], 3720.0e6);
      assert Nint(VcoX(BANDS[15].sel), ref, 3720.0e6) >= 512;
    }
  }

  lemma TopBand()
    ensures |BANDS| == 16 && InBand(BANDS[15], 3720.0e6) && VcoX(BANDS[15].sel) == 2
  {
  }

  lemma VcoBelowMax(i: nat, f: real)
    requires i < 16 && InBand(BANDS[i], f)
    ensures VcoX(BANDS[i].sel) as real * f <= 7440.0e6
  {
    BandFacts(i);
    var x := VcoX(BANDS[i].sel) as real;
    assert x * BANDS[i].fmax - x * f == x * (BANDS[i].fmax - f) >= 0.0;
  }

  // -------------------------------------------------------------------
  // Registers.
  // -------------------------------------------------------------------

  function PackedDividers(nint: nat, nfrac: nat): (r: seq<nat>)
    ensures |r| == 4 && forall i | 0 <= i < 4 :: r[i] < 256
  {
    [nint / 2 % 256, nfrac / 0x1_0000 % 128 + nint % 2 * 128, nfrac / 256 % 256, nfrac % 256]
  }

  function UnpackedNint(r: seq<nat>): nat
    requires |r| == 4
  {
    r[0] * 2 + r[1] / 128
  }

  function UnpackedNfrac(r: seq<nat>): nat
    requires |r| == 4
  {
    r[1] % 128 * 0x1_0000 + r[2] * 256 + r[3]
  }

  /** The four registers hold the divider values exactly when these fit. */
  lemma PackRoundTrip(nint: nat, nfrac: nat)
    ensures UnpackedNint(PackedDividers(nint, nfrac)) == nint <==> nint < 512
    ensures UnpackedNfrac(PackedDividers(nint, nfrac)) == nfrac <==> nfrac < TWO23
  {
  }

  /** Four registers hold the divider values for `f`, cut to their fields. */
  ghost predicate Programs(r: seq<nat>, x: nat, ref: real, f: real)
    requires ref > 0.0
  {
    Nint(x, ref, f) >= 0 && Nfrac(x, ref, f) >= 0 && r == PackedDividers(Nint(x, ref, f), Nfrac(x, ref, f))
  }

  lemma ProgrammedError(r: seq<nat>, x: nat, ref: real, f: real)
    requires x > 0 && f > 0.0 && ref > 14.53125e6 && x as real * f <= 7440.0e6 && Programs(r, x, ref, f)
    ensures 0.0 <= f - Decoded(UnpackedNint(r), UnpackedNfrac(r), x, ref) < ref / (x as real * TWO23 as real)
  {
    TuningError(x, ref, f);
    PackRoundTrip(Nint(x, ref, f), Nfrac(x, ref, f));
    RealArith.DivLess(x as real * f, ref, 512.0);
    hide Nfrac, Decoded, PackedDividers, UnpackedNint, UnpackedNfrac;
  }

  /** What the registers of a tunable frequency decode to is below the request
      by less than one step, whenever the reference is high enough. */
  lemma ProgrammedWithinStep(r: seq<nat>, i: nat, ref: real, f: real)
    requires i < 16 && InBand(BANDS[i], f) && Tunable(f) && ref > 14.53125e6
    requires Programs(r, VcoX(BANDS[i].sel), ref, f)
    ensures var x := VcoX(BANDS[i].sel);
            0.0 <= f - Decoded(UnpackedNint(r), UnpackedNfrac(r), x, ref) < ref / (x as real * TWO23 as real)
  {
    hide VcoX, Nint, Nfrac, Decoded, PackedDividers, UnpackedNint, UnpackedNfrac, Programs;
    VcoBelowMax(i, f);
    ProgrammedError(r, VcoX(BANDS[i].sel), ref, f);
  }

  // -------------------------------------------------------------------
  // The capacitor scan.
  // -------------------------------------------------------------------

  const HIGH: nat := 2
  const LOW: nat := 1
  const NORMAL: nat := 0

  datatype Seen = VcoHigh | VcoNorm | VcoLow

  /** Capacitor values `start..stop` are the first stretch that starts normal and
      ends before the comparator turns low. */
  ghost predicate IsStretch(comp: nat -> nat, start: nat, stop: nat) {
    && start <= stop < 64 && comp(start) == NORMAL
    && (forall i | 0 <= i < start :: comp(i) != NORMAL)
    && (forall i | start <= i <= stop :: comp(i) != LOW)
    && (stop == 63 || comp(stop + 1) == LOW)
  }

  /** There is at most one such stretch, so its middle is determined by the readings. */
  lemma StretchUnique(comp: nat -> nat, a: nat, b: nat, c: nat, d: nat)
    requires IsStretch(comp, a, b) && IsStretch(comp, c, d)
    ensures a == c && b == d
  {
    assert comp(a) == comp(c) == NORMAL;
    var afterB, afterD := b + 1, d + 1;
    assert (b == 63 || comp(afterB) == LOW) && (d == 63 || comp(afterD) == LOW);
  }

  /** Steps through the 64 capacitor values and takes the middle of the stretch;
      fails on an invalid reading or when none is normal. */
  method ScanVcoCap(comp: nat -> nat) returns (cap: Option<nat>, last: nat)
    ensures cap.None? <==> (exists i | 0 <= i < 64 :: comp(i) > HIGH) || (forall i | 0 <= i < 64 :: comp(i) != NORMAL)
    ensures cap.Some? ==>
              exists start: nat, stop: nat :: IsStretch(comp, start, stop) && cap.value == (start + stop) / 2
    // the capacitor value tried last
    ensures last < 64 && (last == 63 || comp(last) > HIGH) && forall i | 0 <= i < last :: comp(i) <= HIGH
  {
    last := 0;
    var start, stop := -1, -1;
    var seen := VcoHigh;
    for i := 0 to 64
      invariant last == (if i == 0 then 0 else i - 1) && forall j | 0 <= j < i :: comp(j) <= HIGH
      invariant seen.VcoHigh? ==> start == stop == -1 && forall j | 0 <= j < i :: comp(j) != NORMAL
      invariant !seen.VcoHigh? ==>
                  0 <= start < i && comp(start) == NORMAL && forall j | 0 <= j < start :: comp(j) != NORMAL
      invariant seen.VcoNorm? ==> stop == -1 && forall j | start <= j < i :: comp(j) != LOW
      invariant seen.VcoLow? ==>
                  start <= stop < i - 1 && comp(stop + 1) == LOW && forall j | start <= j <= stop :: comp(j) != LOW
    {
      last := i;
      var c := comp(i);
      if c == HIGH {
      } else if c == LOW {
        if seen.VcoNorm? {
          stop, seen := i - 1, VcoLow;
        }
      } else if c == NORMAL {
        if seen.VcoHigh? {
          start, seen := i, VcoNorm;
        }
      } else {
        return None, last;
      }
    }
    if seen.VcoNorm? {
      stop := 63;
    }
    if start == -1 || stop == -1 {
      return None, last;
    }
    assert IsStretch(comp, start, stop);
    cap := Some((start + stop) / 2);
  }

  class Pll {
    /** The registers of one PLL, from its base address on. */
    var regs: seq<nat>
    /** The comparator reading for each capacitor value. */
    const comp: nat -> nat

    ghost predicate Valid()
      reads this
    {
      |regs| == 16 && forall i | 0 <= i < 16 :: regs[i] < 256
    }

    constructor (regs: seq<nat>, comp: nat -> nat)
      requires |regs| == 16 && forall i | 0 <= i < 16 :: regs[i] < 256
      ensures Valid() && this.regs == regs && this.comp == comp
    {
      this.regs, this.comp := regs, comp;
    }

    /** Tunes to `f`: the registers of a tunable frequency hold its band and its
        divider values, and the capacitor value from the middle of the stretch. */
    method Tune(ref: real, f: real) returns (actual: Option<real>)
      requires Valid() && ref > 0.0
      modifies this
      ensures Valid()
      ensures !Tunable(f) ==> actual.None? && regs == old(regs)
      ensures Tunable(f) ==> exists i | 0 <= i < 16 :: InBand(BANDS[i], f) && regs[5] / 4 == BANDS[i].sel
      ensures Tunable(f) ==> Programs(regs[..4], VcoX(regs[5] / 4), ref, f) && regs[5] % 4 == old(regs[5]) % 4
      ensures regs[9] / 64 == old(regs[9]) / 64
      ensures forall i | 4 <= i < 16 && i != 5 && i != 9 :: regs[i] == old(regs[i])
      ensures Tunable(f) ==>
                (actual.None? <==>
                   (exists i | 0 <= i < 64 :: comp(i) > HIGH) || (forall i | 0 <= i < 64 :: comp(i) != NORMAL))
      ensures actual.Some? ==>
                var x := VcoX(regs[5] / 4);
                actual.value == Decoded(Nint(x, ref, f), Nfrac(x, ref, f), x, ref)
      ensures actual.Some? ==>
                exists start: nat, stop: nat :: IsStretch(comp, start, stop) && regs[9] % 64 == (start + stop) / 2
    {
      var sel := FindBand(f);
      if sel == -1 {
        return None;
      }
      ghost var i :| 0 <= i < 16 && InBand(BANDS[i], f) && sel == BANDS[i].sel;
      BandFacts(i);
      hide VcoX, Nint, Nfrac, Decoded, Programs, IsStretch;
      actual := WriteDividers(ref, f, sel);
      var capped := WriteVcoCap();
      if !capped {
        actual := None;
      }
    }

    /** Writes the divider values and the band. */
    method WriteDividers(ref: real, f: real, sel: nat) returns (actual: Option<real>)
      requires Valid() && ref > 0.0 && f > 0.0 && sel < 64
      modifies this
      ensures Valid() && forall i | 4 <= i < 16 && i != 5 :: regs[i] == old(regs[i])
      ensures regs[5] / 4 == sel && regs[5] % 4 == old(regs[5]) % 4
      ensures Programs(regs[..4], VcoX(sel), ref, f)
      ensures var x := VcoX(sel);
              actual == Some(Decoded(Nint(x, ref, f), Nfrac(x, ref, f), x, ref))
    {
      hide VcoX, Nint, Nfrac, Decoded, PackedDividers;
      var x := VcoX(sel);
      TuningError(x, ref, f);
      var nint, nfrac := Nint(x, ref, f), Nfrac(x, ref, f);
      regs := PackedDividers(nint, nfrac) + regs[4..];
      regs := regs[5 := regs[5] % 4 + sel * 4];
      assert regs[..4] == PackedDividers(nint, nfrac);
      actual := Some(Decoded(nint, nfrac, x, ref));
    }

    /** Finds the capacitor value and writes it. */
    method WriteVcoCap() returns (ok: bool)
      requires Valid()
      modifies this
      ensures Valid() && regs == old(regs)[9 := regs[9]] && regs[9] / 64 == old(regs[9]) / 64
      ensures !ok <==> (exists i | 0 <= i < 64 :: comp(i) > HIGH) || (forall i | 0 <= i < 64 :: comp(i) != NORMAL)
      ensures ok ==>
                exists start: nat, stop: nat :: IsStretch(comp, start, stop) && regs[9] % 64 == (start + stop) / 2
    {
      hide IsStretch;
      var cap, last := ScanVcoCap(comp);
      regs := regs[9 := regs[9] / 64 * 64 + last];
      ok := cap.Some?;
      if ok {
        ghost var start: nat, stop: nat :| IsStretch(comp, start, stop) && cap.value == (start + stop) / 2;
        StretchBelow64(comp, start, stop);
        regs := regs[9 := regs[9] / 64 * 64 + cap.value];
      }
    }

    lemma StretchBelow64(comp: nat -> nat, start: nat, stop: nat)
      requires IsStretch(comp, start, stop)
      ensures (start + stop) / 2 < 64
    {
    }
  }
}
